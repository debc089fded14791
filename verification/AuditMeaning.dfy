/** What passing the full audit means, commit by commit (`src/commit.rs`). */
module AuditMeaning {
  import opened Options
  import opened Bytes
  import opened Commit

  /** Commit i can be read on its page, and points to the page of the one before, the first one to none. */
  ghost predicate LinkedAt(env: Env, log: Log, links: seq<Link>, i: nat)
    requires WellFormed(log) && i < |links|
  {
    && links[i].page > 0 && HeaderAt(env, log, links[i].page) == Some(links[i].header)
    && links[i].header.prevPage == if i == 0 then 0 else links[i - 1].page
  }

  ghost predicate AllLinked(env: Env, log: Log, links: seq<Link>)
    requires WellFormed(log)
  {
    forall i :: 0 <= i < |links| ==> LinkedAt(env, log, links, i)
  }

  /** The page that a history ends on. */
  function LastPage(links: seq<Link>): (page: nat) {
    if links == [] then 0 else links[|links| - 1].page
  }

  lemma {:induction false} WalkMeans(env: Env, log: Log, page: nat, links: seq<Link>)
    requires WellFormed(log) && Descending(env, log)
    ensures Walk(env, log, page) == Some(links) <==> AllLinked(env, log, links) && page == LastPage(links)
    decreases page
  {
    hide HeaderAt, WellFormed, Descending;
    WalkUnfold(env, log, page);
    if links == [] {
      if page != 0 && HeaderAt(env, log, page).Some? {
        assert forall before: seq<Link> :: before + [Link(page, HeaderAt(env, log, page).value)] != [];
      }
    } else {
      var front, last := links[..|links| - 1], links[|links| - 1];
      LinkedFront(env, log, links);
      if page != 0 && HeaderAt(env, log, page).Some? {
        var h := HeaderAt(env, log, page).value;
        PointsBack(env, log, page);
        WalkMeans(env, log, h.prevPage, front);
        var before := Walk(env, log, h.prevPage);
        if before.Some? {
          SnocIs(before.value, Link(page, h), links);
        }
      }
    }
  }

  lemma SnocIs(a: seq<Link>, x: Link, links: seq<Link>)
    requires links != []
    ensures a + [x] == links <==> a == links[..|links| - 1] && x == links[|links| - 1]
  {
    assert links == links[..|links| - 1] + [links[|links| - 1]];
    if a + [x] == links {
      assert a == (a + [x])[..|a|] && |a| == |links| - 1;
    }
  }

  lemma PointsBack(env: Env, log: Log, page: nat)
    requires WellFormed(log) && Descending(env, log) && HeaderAt(env, log, page).Some?
    ensures HeaderAt(env, log, page).value.prevPage < page
  {
  }

  lemma WalkUnfold(env: Env, log: Log, page: nat)
    requires WellFormed(log) && Descending(env, log)
    ensures page == 0 ==> Walk(env, log, page) == Some([])
    ensures page != 0 ==>
      var h := HeaderAt(env, log, page);
      Walk(env, log, page) == if h.None? then None else Append(Walk(env, log, h.value.prevPage), [Link(page, h.value)])
  {
  }

  lemma LinkedFront(env: Env, log: Log, links: seq<Link>)
    requires WellFormed(log) && links != []
    ensures AllLinked(env, log, links) <==> AllLinked(env, log, links[..|links| - 1]) && LinkedAt(env, log, links, |links| - 1)
  {
    hide HeaderAt, WellFormed;
    var front := links[..|links| - 1];
    assert forall i :: 0 <= i < |front| ==> (LinkedAt(env, log, links, i) <==> LinkedAt(env, log, front, i));
  }

  /** The version before the first commit's: 0, unless a checkpoint opens the file. */
  function VersionBefore(links: seq<Link>): (v: nat) {
    if links != [] && links[0].header.flags % 2 == 1 && links[0].header.version > 0 then links[0].header.version - 1 else 0
  }

  /**
    Commit i is sound: the next version, on the chain, self-consistent, not the anchored
    version under another chain hash, and its data pages, which end on the page before it,
    can all be read and have the digest it says.
  */
  ghost predicate SoundAt(env: Env, log: Log, links: seq<Link>, anchor: Option<Anchor>, i: nat)
    requires i < |links| && |links[i].header.branch| <= BRANCH_MAX
  {
    var h, page := links[i].header, links[i].page;
    var n := if h.pagesWritten == 0 then 0 else h.pagesWritten - 1;
    && h.version == VersionBefore(links) + i + 1
    && h.prevChain == (if i == 0 then env.sha(MagicHeader() + log.fileId) else links[i - 1].header.chainHash)
    && h.chainHash == env.sha(ChainInput(h))
    && (anchor.Some? && anchor.value.version == h.version ==> anchor.value.chainHash == h.chainHash)
    && n <= page && Bodies(log, page - n, n).Some? && env.sha(Bodies(log, page - n, n).value) == h.contentHash
  }

  lemma PassesMeans(env: Env, log: Log, links: seq<Link>, anchor: Option<Anchor>, i: nat)
    requires i < |links| && |links[i].header.branch| <= BRANCH_MAX
    ensures Passes(env, log, links, i, anchor) <==> SoundAt(env, log, links, anchor, i)
  {
    hide Bodies, ChainInput, Fault;
    FaultMeans(env, log, links[i], ChainBefore(env, log, links, i), FirstVersion(links) + 1 + i, anchor);
  }

  /** Every commit is sound, and the branches of all fit a header. */
  ghost predicate AllSound(env: Env, log: Log, links: seq<Link>, anchor: Option<Anchor>) {
    BranchesFit(env, links) && forall i :: 0 <= i < |links| ==> SoundHere(env, log, links, anchor, i)
  }

  ghost predicate SoundHere(env: Env, log: Log, links: seq<Link>, anchor: Option<Anchor>, i: nat)
    requires i < |links|
  {
    |links[i].header.branch| <= BRANCH_MAX && SoundAt(env, log, links, anchor, i)
  }

  /**
    What passing means: commits that can be read, each pointing to the one before, from the
    first of the file to the head's page; each of them sound; the head's version and chain
    hash those of the last; and the anchored version, if there is one, among them.
  */
  lemma AuditedMeans(env: Env, log: Log, head: Head, links: seq<Link>, anchor: Option<Anchor>)
    requires WellFormed(log) && Descending(env, log)
    ensures Audited(env, log, head, links, anchor) <==>
      && AllLinked(env, log, links) && head.commitPage == LastPage(links) && AllSound(env, log, links, anchor)
      && head.version == VersionBefore(links) + |links|
      && head.chainHash == (if links == [] then env.sha(MagicHeader() + log.fileId) else links[|links| - 1].header.chainHash)
      && (anchor.Some? ==> exists k :: 0 <= k < |links| && links[k].header.version == anchor.value.version)
  {
    hide Walk, Passes, SoundHere, AllLinked, WellFormed, Descending, BranchesFit, FirstVersion, VersionBefore;
    WalkMeans(env, log, head.commitPage, links);
    FirstVersionMeans(links);
    if BranchesFit(env, links) {
      AllPass(env, log, links, anchor);
    }
  }

  lemma FirstVersionMeans(links: seq<Link>)
    ensures FirstVersion(links) == VersionBefore(links)
  {
  }

  lemma AllPass(env: Env, log: Log, links: seq<Link>, anchor: Option<Anchor>)
    requires BranchesFit(env, links)
    ensures forall i :: 0 <= i < |links| ==> |links[i].header.branch| <= BRANCH_MAX
    ensures (forall i :: 0 <= i < |links| ==> Passes(env, log, links, i, anchor)) <==>
      forall i :: 0 <= i < |links| ==> SoundHere(env, log, links, anchor, i)
  {
    hide Passes, SoundAt;
    forall i | 0 <= i < |links|
      ensures |links[i].header.branch| <= BRANCH_MAX && (Passes(env, log, links, i, anchor) <==> SoundHere(env, log, links, anchor, i))
    {
      assert BranchFits(env, links[i].header.branch);
      PassesMeans(env, log, links, anchor, i);
    }
  }

  /** The verdicts on a history whose commits are all sound, with the version each names. */
  lemma WholeMeans(env: Env, log: Log, head: Head, links: seq<Link>, anchor: Option<Anchor>)
    ensures var last := VersionBefore(links) + |links|;
      var chain := if links == [] then env.sha(MagicHeader() + log.fileId) else links[|links| - 1].header.chainHash;
      var missing := anchor.Some? && forall k :: 0 <= k < |links| ==> links[k].header.version != anchor.value.version;
      match WholeVerdict(env, log, head, links, anchor)
      case Ok(r) => head.version == last && head.chainHash == chain && !missing && r == Report(last, |links|, chain)
      case Broken(at, HeadNotReached) => head.version != last && at == last
      case Broken(at, HeadMismatch) => head.version == last && head.chainHash != chain && at == last
      case Broken(at, MissingCommits) => head.version == last && head.chainHash == chain && missing && anchor.value.version > last && at == last
      case Broken(at, CompactedAway) =>
        head.version == last && head.chainHash == chain && missing && anchor.value.version <= last && at == anchor.value.version
      case _ => false
  {
    FirstVersionMeans(links);
  }
}
