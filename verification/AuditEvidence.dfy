/**
  What a passing audit proves (`verify_anchored` of `src/commit.rs`), for any hash that
  does not collide on the messages that the audits in question hash.
*/
module AuditEvidence {
  import opened Options
  import opened Bytes
  import opened LittleEndian
  import opened Commit

  function DataStart(link: Link): (start: nat)
    requires DataCount(link.header) <= link.page
  {
    link.page - DataCount(link.header)
  }

  /** The data pages of one commit, joined. */
  function DataOf(log: Log, link: Link): (r: Option<ByteString>)
    requires DataCount(link.header) <= link.page
  {
    Bodies(log, DataStart(link), DataCount(link.header))
  }

  /** The k-th data page of one commit. */
  function DataPage(log: Log, link: Link, k: nat): (r: Option<ByteString>)
    requires DataCount(link.header) <= link.page
  {
    ReadPage(log, DataStart(link) + k)
  }

  /** m is one of the messages the audit of these commits hashes. */
  ghost predicate Hashed(log: Log, links: seq<Link>, m: ByteString) {
    || m == GenesisInput(log.fileId)
    || exists i :: 0 <= i < |links| && HashedFor(log, links[i], m)
  }

  ghost predicate HashedFor(log: Log, link: Link, m: ByteString) {
    || (|link.header.branch| <= BRANCH_MAX && m == ChainInput(link.header))
    || (DataCount(link.header) <= link.page && DataOf(log, link) == Some(m))
  }

  ghost predicate HashedByEither(a: Log, la: seq<Link>, b: Log, lb: seq<Link>, m: ByteString) {
    Hashed(a, la, m) || Hashed(b, lb, m)
  }

  /** The hash does not collide on anything that the two audits hash. */
  ghost predicate CollisionFree(env: Env, a: Log, la: seq<Link>, b: Log, lb: seq<Link>) {
    forall x, y :: HashedByEither(a, la, b, lb, x) && HashedByEither(a, la, b, lb, y) && env.sha(x) == env.sha(y) ==> x == y
  }

  /** Two commits agree on everything the chain binds, and on every data page. */
  ghost predicate SameCommit(a: Log, x: Link, b: Log, y: Link) {
    && SameChained(x.header, y.header) && x.header.chainHash == y.header.chainHash
    && DataCount(x.header) <= x.page && DataCount(y.header) <= y.page
    && DataCount(x.header) == DataCount(y.header)
    && forall k: nat :: k < DataCount(x.header) ==> DataPage(a, x, k) == DataPage(b, y, k)
  }

  lemma {:induction false} BodiesLength(log: Log, start: nat, n: nat)
    requires WellFormed(log) && Bodies(log, start, n).Some?
    ensures |Bodies(log, start, n).value| == n * BODY_SIZE
    decreases n
  {
    if n > 0 {
      BodiesLength(log, start, n - 1);
    }
  }

  lemma LastPage(x: ByteString, p: ByteString, y: ByteString, q: ByteString)
    requires x + p == y + q && |p| == |q|
    ensures x == y && p == q
  {
    assert (x + p)[..|x|] == x && (y + q)[..|x|] == y;
    assert (x + p)[|x|..] == p && (y + q)[|x|..] == q;
  }

  /** Pages have one size, so equal contents are equal page by page. */
  lemma {:induction false} EqualPages(a: Log, s: nat, b: Log, t: nat, n: nat, k: nat)
    requires WellFormed(a) && WellFormed(b) && k < n
    requires Bodies(a, s, n).Some? && Bodies(a, s, n) == Bodies(b, t, n)
    ensures ReadPage(a, s + k) == ReadPage(b, t + k)
    decreases n
  {
    var p, q := ReadPage(a, s + n - 1), ReadPage(b, t + n - 1);
    LastPage(Bodies(a, s, n - 1).value, p.value, Bodies(b, t, n - 1).value, q.value);
    if k < n - 1 {
      EqualPages(a, s, b, t, n - 1, k);
    }
  }

  /** A passing commit: its content and its chain hash are what was hashed. */
  lemma PassingCommit(env: Env, log: Log, head: Head, links: seq<Link>, anchor: Option<Anchor>, i: nat)
    requires WellFormed(log) && Descending(env, log) && Audited(env, log, head, links, anchor) && i < |links|
    ensures BranchFits(env, links[i].header.branch)
    ensures links[i].header.version == FirstVersion(links) + 1 + i
    ensures links[i].header.prevChain == ChainBefore(env, log, links, i)
    ensures links[i].header.chainHash == env.sha(ChainInput(links[i].header))
    ensures DataCount(links[i].header) <= links[i].page && DataOf(log, links[i]).Some?
    ensures links[i].header.contentHash == env.sha(DataOf(log, links[i]).value)
    ensures anchor.Some? && links[i].header.version == anchor.value.version ==>
      links[i].header.chainHash == anchor.value.chainHash
    ensures Hashed(log, links, ChainInput(links[i].header)) && Hashed(log, links, DataOf(log, links[i]).value)
  {
    hide Walk, Bodies, ChainInput, Fault, HashedFor, FirstVersion, ChainBefore;
    assert Passes(env, log, links, i, anchor) && BranchFits(env, links[i].header.branch);
    NoFaultMeans(env, log, links[i], ChainBefore(env, log, links, i), FirstVersion(links) + 1 + i, anchor);
    HashedForIs(log, links[i]);
  }

  lemma HashedForIs(log: Log, link: Link)
    requires |link.header.branch| <= BRANCH_MAX && DataCount(link.header) <= link.page && DataOf(log, link).Some?
    ensures HashedFor(log, link, ChainInput(link.header)) && HashedFor(log, link, DataOf(log, link).value)
  {
    hide Bodies, ChainInput;
  }

  /** A commit without a fault, field by field. */
  lemma NoFaultMeans(env: Env, log: Log, link: Link, prevChain: Digest, expected: nat, anchor: Option<Anchor>)
    requires |link.header.branch| <= BRANCH_MAX && Fault(env, log, link, prevChain, expected, anchor) == None
    ensures link.header.version == expected && link.header.prevChain == prevChain
    ensures link.header.chainHash == env.sha(ChainInput(link.header))
    ensures DataCount(link.header) <= link.page && DataOf(log, link).Some?
    ensures link.header.contentHash == env.sha(DataOf(log, link).value)
    ensures anchor.Some? && link.header.version == anchor.value.version ==> link.header.chainHash == anchor.value.chainHash
  {
    hide Bodies, ChainInput;
  }

  lemma MulInjective(a: nat, b: nat, c: nat)
    requires c > 0 && a * c == b * c
    ensures a == b
  {
    assert (a - b) * c == 0;
  }

  /** Two passing commits with one chain hash are the same commit. */
  lemma SameHashSameCommit(env: Env, a: Log, ha: Head, la: seq<Link>, b: Log, hb: Head, lb: seq<Link>,
                           anchor: Option<Anchor>, i: nat, j: nat)
    requires WellFormed(a) && Descending(env, a) && Audited(env, a, ha, la, anchor)
    requires WellFormed(b) && Descending(env, b) && Audited(env, b, hb, lb, anchor)
    requires CollisionFree(env, a, la, b, lb) && i < |la| && j < |lb|
    requires la[i].header.chainHash == lb[j].header.chainHash
    ensures SameCommit(a, la[i], b, lb[j])
  {
    hide Walk, Bodies, ChainInput, Hashed, Audited, DataCount, Fault;
    var x, y := la[i], lb[j];
    PassingCommit(env, a, ha, la, anchor, i);
    PassingCommit(env, b, hb, lb, anchor, j);
    assert HashedByEither(a, la, b, lb, ChainInput(x.header));
    assert HashedByEither(a, la, b, lb, ChainInput(y.header));
    assert ChainInput(x.header) == ChainInput(y.header);
    ChainInputInjective(x.header, y.header);
    var p, q := DataOf(a, x).value, DataOf(b, y).value;
    assert HashedByEither(a, la, b, lb, p) && HashedByEither(a, la, b, lb, q);
    assert p == q;
    var n, m := DataCount(x.header), DataCount(y.header);
    BodiesLength(a, DataStart(x), n);
    BodiesLength(b, DataStart(y), m);
    MulInjective(n, m, BODY_SIZE);
    forall k: nat | k < n
      ensures DataPage(a, x, k) == DataPage(b, y, k)
    {
      EqualPages(a, DataStart(x), b, DataStart(y), n, k);
    }
  }

  /** What it is to be the same commit: the same fields, the same number of data pages, and the same bodies on them. */
  lemma SameCommitMeans(a: Log, x: Link, b: Log, y: Link, k: nat)
    requires SameCommit(a, x, b, y)
    ensures x.header.version == y.header.version && x.header.timestamp == y.header.timestamp
    ensures x.header.dataRoot == y.header.dataRoot && x.header.metaRoot == y.header.metaRoot
    ensures x.header.branch == y.header.branch && x.header.contentHash == y.header.contentHash
    ensures x.header.prevChain == y.header.prevChain && x.header.chainHash == y.header.chainHash
    ensures x.header.pagesWritten >= 1 && y.header.pagesWritten >= 1 ==> x.header.pagesWritten == y.header.pagesWritten
    ensures k + 1 < x.header.pagesWritten ==>
      && x.header.pagesWritten <= x.page + 1 && y.header.pagesWritten <= y.page + 1
      && ReadPage(a, x.page - (x.header.pagesWritten - 1) + k) == ReadPage(b, y.page - (y.header.pagesWritten - 1) + k)
  {
    hide ReadPage;
    if k + 1 < x.header.pagesWritten {
      assert DataPage(a, x, k) == DataPage(b, y, k);
    }
  }

  /** The zero link of a chain is never the digest of a commit. */
  lemma GenesisIsNoCommit(env: Env, a: Log, la: seq<Link>, b: Log, hb: Head, lb: seq<Link>, anchor: Option<Anchor>, j: nat)
    requires WellFormed(a) && WellFormed(b) && Descending(env, b) && Audited(env, b, hb, lb, anchor)
    requires j < |lb| && (CollisionFree(env, a, la, b, lb) || CollisionFree(env, b, lb, a, la))
    ensures GenesisChain(env, a.fileId) != lb[j].header.chainHash
  {
    hide Walk, Bodies, Audited, ChainInput;
    PassingCommit(env, b, hb, lb, anchor, j);
    assert |GenesisInput(a.fileId)| == 24;
    assert HashedByEither(a, la, b, lb, GenesisInput(a.fileId));
    assert HashedByEither(b, lb, a, la, GenesisInput(a.fileId));
    assert HashedByEither(a, la, b, lb, ChainInput(lb[j].header));
    assert HashedByEither(b, lb, a, la, ChainInput(lb[j].header));
  }

  /** Equal chain values are reached by equally long, equal histories of the same file. */
  lemma {:induction false} ChainsAgree(env: Env, a: Log, ha: Head, la: seq<Link>, b: Log, hb: Head, lb: seq<Link>,
                                       anchor: Option<Anchor>, i: nat, j: nat)
    requires WellFormed(a) && Descending(env, a) && Audited(env, a, ha, la, anchor)
    requires WellFormed(b) && Descending(env, b) && Audited(env, b, hb, lb, anchor)
    requires CollisionFree(env, a, la, b, lb) && i <= |la| && j <= |lb|
    requires ChainBefore(env, a, la, i) == ChainBefore(env, b, lb, j)
    ensures i == j && a.fileId == b.fileId
    ensures forall k :: 0 <= k < i ==> SameCommit(a, la[k], b, lb[k])
    decreases i
  {
    hide Walk, Bodies, ChainInput, Audited, SameCommit, CollisionFree;
    if i == 0 && j == 0 {
      GenesisIsInjective(env, a, la, b, lb);
    } else if i == 0 {
      GenesisIsNoCommit(env, a, la, b, hb, lb, anchor, j - 1);
    } else if j == 0 {
      CollisionFreeSymmetric(env, a, la, b, lb);
      GenesisIsNoCommit(env, b, lb, a, ha, la, anchor, i - 1);
    } else {
      SameHashSameCommit(env, a, ha, la, b, hb, lb, anchor, i - 1, j - 1);
      PassingCommit(env, a, ha, la, anchor, i - 1);
      PassingCommit(env, b, hb, lb, anchor, j - 1);
      SameCommitSameParent(a, la[i - 1], b, lb[j - 1]);
      ChainsAgree(env, a, ha, la, b, hb, lb, anchor, i - 1, j - 1);
    }
  }

  lemma SameCommitSameParent(a: Log, x: Link, b: Log, y: Link)
    requires SameCommit(a, x, b, y)
    ensures x.header.prevChain == y.header.prevChain && x.header.version == y.header.version
  {
  }

  lemma CollisionFreeSymmetric(env: Env, a: Log, la: seq<Link>, b: Log, lb: seq<Link>)
    requires CollisionFree(env, a, la, b, lb)
    ensures CollisionFree(env, b, lb, a, la)
  {
    hide Hashed;
    forall x, y | HashedByEither(b, lb, a, la, x) && HashedByEither(b, lb, a, la, y) && env.sha(x) == env.sha(y)
      ensures x == y
    {
      assert HashedByEither(a, la, b, lb, x) && HashedByEither(a, la, b, lb, y);
    }
  }

  lemma GenesisIsInjective(env: Env, a: Log, la: seq<Link>, b: Log, lb: seq<Link>)
    requires CollisionFree(env, a, la, b, lb) && GenesisChain(env, a.fileId) == GenesisChain(env, b.fileId)
    ensures a.fileId == b.fileId
  {
    assert HashedByEither(a, la, b, lb, GenesisInput(a.fileId));
    assert HashedByEither(a, la, b, lb, GenesisInput(b.fileId));
    assert GenesisInput(a.fileId)[8..] == a.fileId && GenesisInput(b.fileId)[8..] == b.fileId;
  }

  /** An audit against an anchor has seen the anchored commit. */
  lemma AnchoredCommit(env: Env, log: Log, head: Head, links: seq<Link>, anchor: Anchor) returns (i: nat)
    requires WellFormed(log) && Descending(env, log) && Audited(env, log, head, links, Some(anchor))
    ensures i < |links| && links[i].header.version == anchor.version
    ensures ChainBefore(env, log, links, i + 1) == anchor.chainHash
    ensures i == anchor.version - FirstVersion(links) - 1
  {
    hide Walk, Bodies, ChainInput, Passes;
    i :| 0 <= i < |links| && links[i].header.version == anchor.version;
    PassingCommit(env, log, head, links, Some(anchor), i);
  }

  /**
    The evidence an anchor gives.  Two files that both pass the audit with one anchor
    are the same file up to it: as many commits, and in each the same version, time,
    roots, branch and data pages.  A checkpoint at the start changes nothing.
  */
  lemma AnchoredHistoriesAgree(env: Env, a: Log, ha: Head, la: seq<Link>, b: Log, hb: Head, lb: seq<Link>, anchor: Anchor)
    returns (n: nat)
    requires WellFormed(a) && Descending(env, a) && Audited(env, a, ha, la, Some(anchor))
    requires WellFormed(b) && Descending(env, b) && Audited(env, b, hb, lb, Some(anchor))
    requires CollisionFree(env, a, la, b, lb)
    ensures a.fileId == b.fileId && 1 <= n <= |la| && n <= |lb|
    ensures la[n - 1].header.version == lb[n - 1].header.version == anchor.version
    ensures forall k :: 0 <= k < n ==> SameCommit(a, la[k], b, lb[k])
  {
    hide Walk, Bodies, ChainInput, SameCommit, CollisionFree, Audited, ChainBefore, FirstVersion;
    var i := AnchoredCommit(env, a, ha, la, anchor);
    var j := AnchoredCommit(env, b, hb, lb, anchor);
    ChainsAgree(env, a, ha, la, b, hb, lb, Some(anchor), i + 1, j + 1);
    n := i + 1;
  }

  /** An audit without an anchor is an audit with its own report as the anchor. */
  lemma OwnAnchorPasses(env: Env, log: Log, head: Head, links: seq<Link>)
    requires WellFormed(log) && Descending(env, log) && Audited(env, log, head, links, None) && links != []
    ensures Audited(env, log, head, links, Some(Anchor(head.version, head.chainHash)))
  {
    hide Walk, Bodies, ChainInput, Fault, Descending, WellFormed, Passes;
    var anchor := Anchor(head.version, head.chainHash);
    var last := |links| - 1;
    PassingCommit(env, log, head, links, None, last);
    assert links[last].header.version == head.version;
    forall i | 0 <= i < |links|
      ensures Passes(env, log, links, i, Some(anchor))
    {
      PassesToo(env, log, head, links, i, anchor);
    }
  }

  lemma PassesToo(env: Env, log: Log, head: Head, links: seq<Link>, i: nat, anchor: Anchor)
    requires WellFormed(log) && Descending(env, log) && Audited(env, log, head, links, None) && i < |links|
    requires anchor == Anchor(head.version, head.chainHash)
    ensures |links[i].header.branch| <= BRANCH_MAX && Passes(env, log, links, i, Some(anchor))
  {
    hide Walk, Bodies, ChainInput, Fault, Descending, WellFormed;
    assert BranchFits(env, links[i].header.branch) && Passes(env, log, links, i, None);
    PassingCommit(env, log, head, links, None, i);
    AnchorAdds(env, log, links[i], ChainBefore(env, log, links, i), FirstVersion(links) + 1 + i, anchor);
  }

  /** An anchor only adds its own comparison. */
  lemma AnchorAdds(env: Env, log: Log, link: Link, prevChain: Digest, expected: nat, anchor: Anchor)
    requires |link.header.branch| <= BRANCH_MAX && Fault(env, log, link, prevChain, expected, None) == None
    requires link.header.version == anchor.version ==> link.header.chainHash == anchor.chainHash
    ensures Fault(env, log, link, prevChain, expected, Some(anchor)) == None
  {
    hide Bodies, SelfConsistent;
  }

  /**
    Truncation and rewriting are detected: a file that passes against the anchor of an
    earlier audit still begins with the whole history audited then.
  */
  lemma HistoryOnlyGrows(env: Env, a: Log, ha: Head, la: seq<Link>, b: Log, hb: Head, lb: seq<Link>)
    requires WellFormed(a) && Descending(env, a) && Audited(env, a, ha, la, None) && la != []
    requires WellFormed(b) && Descending(env, b)
    requires Audited(env, b, hb, lb, Some(Anchor(ha.version, ha.chainHash)))
    requires CollisionFree(env, a, la, b, lb)
    ensures |la| <= |lb| && ha.version <= hb.version && a.fileId == b.fileId
    ensures forall k :: 0 <= k < |la| ==> SameCommit(a, la[k], b, lb[k])
  {
    hide Walk, Bodies, ChainInput, SameCommit, CollisionFree, Audited, ChainBefore, FirstVersion;
    OwnAnchorPasses(env, a, ha, la);
    var n := AnchoredHistoriesAgree(env, a, ha, la, b, hb, lb, Anchor(ha.version, ha.chainHash));
    LastVersion(env, a, ha, la, None, n - 1);
    LastVersion(env, b, hb, lb, Some(Anchor(ha.version, ha.chainHash)), n - 1);
  }

  /** Versions count up to the head's. */
  lemma LastVersion(env: Env, log: Log, head: Head, links: seq<Link>, anchor: Option<Anchor>, i: nat)
    requires WellFormed(log) && Descending(env, log) && Audited(env, log, head, links, anchor) && i < |links|
    ensures head.version == links[i].header.version + (|links| - 1 - i)
  {
    hide Walk, Bodies, ChainInput, Passes;
    PassingCommit(env, log, head, links, anchor, i);
  }
}
