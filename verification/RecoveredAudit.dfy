/**
  The audit of a recovered log (`recover` and `verify_anchored` of `src/commit.rs`): what
  recovery adopts is chained already, so the audit decides one thing, whether the data
  pages under each adopted commit are the ones it was written with.
*/
module RecoveredAudit {
  import opened Options
  import opened Bytes
  import opened Commit
  import opened Recovery
  import opened AuditEvidence
  import opened AuditedWriting

  // ------------------------------------------------- what recovery adopted

  function HeadBefore(env: Env, log: Log, links: seq<Link>, i: nat): (head: Head)
    requires i <= |links|
  {
    if i == 0 then GenesisHead(env, log.fileId) else HeadFrom(links[i - 1].header, links[i - 1].page)
  }

  ghost predicate FollowsAt(env: Env, log: Log, links: seq<Link>, i: nat)
    requires WellFormed(log) && i < |links|
  {
    && HeaderAt(env, log, links[i].page) == Some(links[i].header) && |links[i].header.branch| <= BRANCH_MAX
    && Follows(env, HeadBefore(env, log, links, i), links[i].header)
  }

  /** Commits of the log, each one following the one before it as recovery demands. */
  ghost predicate Chained(env: Env, log: Log, links: seq<Link>)
    requires WellFormed(log)
  {
    forall i :: 0 <= i < |links| ==> FollowsAt(env, log, links, i)
  }

  lemma ChainedMore(env: Env, log: Log, links: seq<Link>, link: Link)
    requires WellFormed(log) && Chained(env, log, links)
    requires HeaderAt(env, log, link.page) == Some(link.header) && |link.header.branch| <= BRANCH_MAX
    requires Follows(env, HeadBefore(env, log, links, |links|), link.header)
    ensures Chained(env, log, links + [link])
  {
    hide HeaderAt, SelfConsistent, Follows;
    var more := links + [link];
    forall i | 0 <= i < |more|
      ensures FollowsAt(env, log, more, i)
    {
      assert HeadBefore(env, log, more, i) == HeadBefore(env, log, links, i);
      assert i < |links| ==> FollowsAt(env, log, links, i);
    }
  }

  /** The commits a scan adopts, behind those it starts from. */
  lemma {:induction false} ScanChains(env: Env, log: Log, links: seq<Link>, page: nat) returns (all: seq<Link>)
    requires WellFormed(log) && Chained(env, log, links) && FIRST_DATA_PAGE <= page
    ensures Chained(env, log, all) && links <= all
    ensures HeadBefore(env, log, all, |all|) == Scan(env, log, HeadBefore(env, log, links, |links|), page)
    decreases End(log) - page
  {
    hide HeaderAt, SelfConsistent, Chained, Scan, Follows;
    var head := HeadBefore(env, log, links, |links|);
    ScanUnfold(env, log, head, page);
    all := links;
    if page < End(log) && ReadPage(log, page).Some? {
      var h := HeaderAt(env, log, page);
      if h.None? {
        all := ScanChains(env, log, links, page + 1);
      } else if Follows(env, head, h.value) {
        ChainedMore(env, log, links, Link(page, h.value));
        all := ScanChains(env, log, links + [Link(page, h.value)], page + 1);
      }
    }
  }

  /** Every recovered head has such a history. */
  lemma RecoveredHistory(env: Env, log: Log) returns (links: seq<Link>)
    requires WellFormed(log)
    ensures Chained(env, log, links) && HeadBefore(env, log, links, |links|) == ScanAll(env, log)
  {
    hide Scan;
    links := ScanChains(env, log, [], FIRST_DATA_PAGE);
  }

  // ---------------------------------------------------- how it was written

  /** The header was built for these data pages, behind that head. */
  ghost predicate BuiltBehind(env: Env, head: Head, h: Header, bodies: seq<ByteString>) {
    && (forall k :: 0 <= k < |bodies| ==> |bodies[k]| == BODY_SIZE)
    && h.prevPage == head.commitPage && h.version >= 1
    && h.pagesWritten == |bodies| + 1 && h.contentHash == env.sha(JoinedBodies(bodies))
  }

  /** Whatever the commit writer builds is. */
  lemma WrittenIsBuilt(env: Env, log: Log, head: Head, bodies: seq<ByteString>, params: CommitParams, h: Header)
    requires WellFormed(log) && DataPages(env, bodies) && Continues(env, log, head, params)
    requires IsNext(env, log, head, bodies, params, h)
    ensures BuiltBehind(env, head, h, bodies)
  {
    hide SelfConsistent;
  }

  /** The data pages under the commit are these. */
  ghost predicate AsWritten(log: Log, link: Link, bodies: seq<ByteString>) {
    && |bodies| <= link.page
    && forall k :: 0 <= k < |bodies| ==> ReadPage(log, link.page - |bodies| + k) == Some(bodies[k])
  }

  ghost predicate BuiltAt(env: Env, log: Log, links: seq<Link>, contents: seq<seq<ByteString>>, i: nat)
    requires i < |links| == |contents|
  {
    BuiltBehind(env, HeadBefore(env, log, links, i), links[i].header, contents[i])
  }

  /** The hash tells what is read under a commit from what was written there. */
  ghost predicate HashTells(env: Env, log: Log, link: Link, bodies: seq<ByteString>) {
    var readable := DataCount(link.header) <= link.page && DataOf(log, link).Some?;
    readable && env.sha(DataOf(log, link).value) == env.sha(JoinedBodies(bodies)) ==>
      DataOf(log, link).value == JoinedBodies(bodies)
  }

  // ------------------------------------------------------------ the audit

  lemma JoinedSize(bodies: seq<ByteString>)
    requires forall k :: 0 <= k < |bodies| ==> |bodies[k]| == BODY_SIZE
    ensures |JoinedBodies(bodies)| == |bodies| * BODY_SIZE
  {
    if bodies != [] {
      JoinedSize(bodies[..|bodies| - 1]);
    }
  }

  /** Pages have one size, so their joined contents are right exactly when each page is. */
  lemma {:induction false} JoinedMeansEach(log: Log, start: nat, bodies: seq<ByteString>)
    requires WellFormed(log) && forall k :: 0 <= k < |bodies| ==> |bodies[k]| == BODY_SIZE
    ensures Bodies(log, start, |bodies|) == Some(JoinedBodies(bodies)) <==>
      forall k :: 0 <= k < |bodies| ==> ReadPage(log, start + k) == Some(bodies[k])
    decreases |bodies|
  {
    hide ReadPage;
    if bodies != [] {
      var n := |bodies| - 1;
      var front := bodies[..n];
      JoinedMeansEach(log, start, front);
      var before, last := Bodies(log, start, n), ReadPage(log, start + n);
      assert JoinedBodies(bodies) == JoinedBodies(front) + bodies[n];
      assert (forall k :: 0 <= k < |bodies| ==> ReadPage(log, start + k) == Some(bodies[k])) <==>
        (forall k :: 0 <= k < n ==> ReadPage(log, start + k) == Some(front[k])) && ReadPage(log, start + n) == Some(bodies[n]);
      if before.Some? && last.Some? {
        PageSize(log, start + n);
        if before.value + last.value == JoinedBodies(front) + bodies[n] {
          LastPage(before.value, last.value, JoinedBodies(front), bodies[n]);
        }
      }
    }
  }

  lemma PageSize(log: Log, page: nat)
    requires WellFormed(log) && ReadPage(log, page).Some?
    ensures |ReadPage(log, page).value| == BODY_SIZE
  {
  }

  /** Versions count up from the first. */
  lemma {:induction false} VersionsCount(env: Env, log: Log, links: seq<Link>, i: nat)
    requires WellFormed(log) && Chained(env, log, links) && i < |links| && links[0].header.version >= 1
    ensures links[i].header.version == FirstVersion(links) + 1 + i
  {
    hide HeaderAt, SelfConsistent;
    assert FollowsAt(env, log, links, i);
    if i > 0 {
      VersionsCount(env, log, links, i - 1);
      assert FollowsAt(env, log, links, i - 1);
      PageIsData(env, log, links[i - 1].page);
    }
  }

  lemma PageIsData(env: Env, log: Log, page: nat)
    requires WellFormed(log) && HeaderAt(env, log, page).Some?
    ensures page >= FIRST_DATA_PAGE
  {
  }

  /** The walk back from an adopted head is the adopted history. */
  lemma {:induction false} WalkIsHistory(env: Env, log: Log, links: seq<Link>, contents: seq<seq<ByteString>>, n: nat)
    requires WellFormed(log) && Descending(env, log) && Chained(env, log, links) && n <= |links| == |contents|
    requires forall i :: 0 <= i < |links| ==> BuiltAt(env, log, links, contents, i)
    ensures Walk(env, log, HeadBefore(env, log, links, n).commitPage) == Some(links[..n])
  {
    hide HeaderAt, SelfConsistent, Follows, Walk, Descending;
    if n == 0 {
      EmptyWalk(env, log);
    } else {
      WalkIsHistory(env, log, links, contents, n - 1);
      assert FollowsAt(env, log, links, n - 1) && BuiltAt(env, log, links, contents, n - 1);
      PageIsData(env, log, links[n - 1].page);
      WalkUnfold(env, log, links[n - 1].page);
      assert links[..n] == links[..n - 1] + [links[n - 1]];
    }
  }

  lemma EmptyWalk(env: Env, log: Log)
    requires WellFormed(log) && Descending(env, log)
    ensures Walk(env, log, 0) == Some([])
  {
  }

  /** One commit of the history: its only possible faults are about its data pages. */
  lemma FaultIsContent(env: Env, log: Log, links: seq<Link>, contents: seq<seq<ByteString>>, i: nat)
    requires WellFormed(log) && Chained(env, log, links) && i < |links| == |contents| && links[0].header.version >= 1
    requires BuiltAt(env, log, links, contents, i) && HashTells(env, log, links[i], contents[i])
    ensures |links[i].header.branch| <= BRANCH_MAX
    ensures var f := Fault(env, log, links[i], ChainBefore(env, log, links, i), FirstVersion(links) + 1 + i, None);
      && (f == None <==> AsWritten(log, links[i], contents[i]))
      && (f.Some? ==> f.value in {BadPageCount, UnreadableData, ContentMismatch})
  {
    hide HeaderAt, SelfConsistent, Bodies, ReadPage, JoinedBodies;
    assert FollowsAt(env, log, links, i);
    VersionsCount(env, log, links, i);
    var link, bodies := links[i], contents[i];
    if |bodies| <= link.page {
      JoinedMeansEach(log, link.page - |bodies|, bodies);
    }
  }

  ghost predicate AllAsWritten(log: Log, links: seq<Link>, contents: seq<seq<ByteString>>)
    requires |links| == |contents|
  {
    forall i :: 0 <= i < |links| ==> AsWritten(log, links[i], contents[i])
  }

  /** Commit k is the first with a wrong data page; `at` is its version, and the reason is about its pages. */
  ghost predicate Blames(log: Log, links: seq<Link>, contents: seq<seq<ByteString>>, k: nat, at: nat, reason: Reason) {
    && k < |links| == |contents| && !AsWritten(log, links[k], contents[k])
    && (forall i :: 0 <= i < k ==> AsWritten(log, links[i], contents[i]))
    && at == links[k].header.version && reason in {BadPageCount, UnreadableData, ContentMismatch}
  }

  ghost predicate IsHistory(env: Env, log: Log, links: seq<Link>, contents: seq<seq<ByteString>>)
    requires WellFormed(log)
  {
    && Chained(env, log, links) && |links| == |contents|
    && forall i :: 0 <= i < |links| ==> BuiltAt(env, log, links, contents, i) && HashTells(env, log, links[i], contents[i])
  }

  lemma HistoryAt(env: Env, log: Log, links: seq<Link>, contents: seq<seq<ByteString>>, i: nat)
    requires WellFormed(log) && |links| == |contents| && IsHistory(env, log, links, contents)
    requires BranchesFit(env, links) && i < |links|
    ensures var f := FirstFault(env, log, links, i, None);
      && (AsWritten(log, links[i], contents[i]) ==> f == FirstFault(env, log, links, i + 1, None))
      && (!AsWritten(log, links[i], contents[i]) ==>
            f.Some? && f.value.0 == links[i].header.version && f.value.1 in {BadPageCount, UnreadableData, ContentMismatch})
  {
    hide Fault, AsWritten, HashTells, Chained, FirstVersion, ChainBefore, FirstFault;
    assert BuiltAt(env, log, links, contents, 0) && BuiltAt(env, log, links, contents, i) && HashTells(env, log, links[i], contents[i]);
    FaultIsContent(env, log, links, contents, i);
    FirstFaultUnfold(env, log, links, i, None);
  }

  /** The answer blames no commit, or the first that is to blame. */
  ghost predicate Right(log: Log, links: seq<Link>, contents: seq<seq<ByteString>>, f: Option<(nat, Reason)>)
    requires |links| == |contents|
  {
    && (f == None <==> AllAsWritten(log, links, contents))
    && (f.Some? ==> exists k: nat :: Blames(log, links, contents, k, f.value.0, f.value.1))
  }

  lemma {:induction false} FirstFaultIsContent(env: Env, log: Log, links: seq<Link>, contents: seq<seq<ByteString>>, i: nat)
    requires WellFormed(log) && |links| == |contents| && IsHistory(env, log, links, contents)
    requires i <= |links| && BranchesFit(env, links)
    requires forall k :: 0 <= k < i ==> AsWritten(log, links[k], contents[k])
    ensures Right(log, links, contents, FirstFault(env, log, links, i, None))
    decreases |links| - i
  {
    hide AsWritten, FirstFault, IsHistory, Right, BranchesFit;
    if i == |links| {
      NoneLeft(env, log, links, None);
      NothingToBlame(log, links, contents);
    } else {
      HistoryAt(env, log, links, contents, i);
      if AsWritten(log, links[i], contents[i]) {
        FirstFaultIsContent(env, log, links, contents, i + 1);
      } else {
        ThisIsToBlame(log, links, contents, i, FirstFault(env, log, links, i, None));
      }
    }
  }

  lemma NothingToBlame(log: Log, links: seq<Link>, contents: seq<seq<ByteString>>)
    requires |links| == |contents| && forall k :: 0 <= k < |links| ==> AsWritten(log, links[k], contents[k])
    ensures Right(log, links, contents, None)
  {
    hide AsWritten;
  }

  lemma ThisIsToBlame(log: Log, links: seq<Link>, contents: seq<seq<ByteString>>, k: nat, f: Option<(nat, Reason)>)
    requires |links| == |contents| && k < |links| && !AsWritten(log, links[k], contents[k])
    requires forall i :: 0 <= i < k ==> AsWritten(log, links[i], contents[i])
    requires f.Some? && f.value.0 == links[k].header.version && f.value.1 in {BadPageCount, UnreadableData, ContentMismatch}
    ensures Right(log, links, contents, f)
  {
    hide AsWritten;
    assert Blames(log, links, contents, k, f.value.0, f.value.1);
  }

  /**
    On a recovered history of commits that were built behind one another, the audit passes
    exactly when every data page is the one its commit was written with; and where it does
    not, it names the first commit with a wrong one.
  */
  lemma AuditDecidesContents(env: Env, log: Log, links: seq<Link>, contents: seq<seq<ByteString>>)
    requires WellFormed(log) && Descending(env, log) && IsHistory(env, log, links, contents)
    ensures |links| == |contents|
    ensures var v := AuditVerdict(env, log, HeadBefore(env, log, links, |links|), None);
      && (v.Ok? <==> AllAsWritten(log, links, contents))
      && (v.Broken? ==> exists k: nat :: Blames(log, links, contents, k, v.at, v.reason))
  {
    hide Walk, Descending, HeaderAt, FirstFault, AsWritten, HashTells, WalkDepth, Follows;
    var head := HeadBefore(env, log, links, |links|);
    WalkIsHistory(env, log, links, contents, |links|);
    assert links[..|links|] == links;
    WalkedBranchesFit(env, log, head.commitPage, links);
    FirstFaultIsContent(env, log, links, contents, 0);
    WholeIsRight(env, log, links, contents);
  }

  /** Of a chained history as a whole there is nothing to complain. */
  lemma WholeIsRight(env: Env, log: Log, links: seq<Link>, contents: seq<seq<ByteString>>)
    requires WellFormed(log) && IsHistory(env, log, links, contents)
    ensures WholeVerdict(env, log, HeadBefore(env, log, links, |links|), links, None).Ok?
  {
    hide HeaderAt, Follows, HashTells;
    if links != [] {
      assert BuiltAt(env, log, links, contents, 0);
      VersionsCount(env, log, links, |links| - 1);
    }
  }
}
