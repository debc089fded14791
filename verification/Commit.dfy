/**
  Commit pages and the hash chain of `src/commit.rs`: the header's layout, the chain of
  digests, and the full audit.  SHA-256 is a parameter; what the audit is worth is
  stated over the messages that the audits in question actually hash.
*/
module Commit {
  import opened Options
  import opened Bytes
  import opened LittleEndian

  type U64 = n: int | 0 <= n < TWO_64
  type U32 = n: int | 0 <= n < TWO_32
  type Digest = d: ByteString | |d| == 32 witness seq(32, _ => 0)

  const FIRST_DATA_PAGE: nat := 3
  const BODY_SIZE: nat := 4068
  const BRANCH_MAX: nat := 64
  const HEADER_LEN: nat := 240

  /** The code the engine calls into: the hash, and whether bytes are UTF-8. */
  datatype Env = Env(sha: ByteString -> Digest, utf8: ByteString -> bool)

  function MagicHeader(): (r: ByteString) {
    [0x41, 0x52, 0x4B, 0x45, 0x49, 0x4F, 0x4E, 0x31]
  }

  function MagicCommit(): (r: ByteString) {
    [0x41, 0x52, 0x4B, 0x43, 0x4D, 0x54, 0x30, 0x31]
  }

  function Zeros(n: nat): (s: ByteString)
    ensures |s| == n
    ensures forall i :: 0 <= i < n ==> s[i] == 0
  {
    seq(n, _ => 0)
  }

  // ---------------------------------------------------------------- header

  datatype Header = Header(
    flags: U32, version: U64, parentPage: U64, prevPage: U64, timestamp: U64,
    dataRoot: U64, metaRoot: U64, nonceCounter: U64, pagesWritten: U64,
    branch: ByteString, contentHash: Digest, prevChain: Digest, chainHash: Digest)

  /** A branch name the header has room for, and that reads back. */
  predicate BranchFits(env: Env, branch: ByteString) {
    |branch| <= BRANCH_MAX && 0 !in branch && env.utf8(branch)
  }

  function PaddedBranch(branch: ByteString): (s: ByteString)
    requires |branch| <= BRANCH_MAX
    ensures |s| == BRANCH_MAX
  {
    branch + Zeros(BRANCH_MAX - |branch|)
  }

  /** 64-bit words one after the other. */
  function Words(vs: seq<U64>): (s: ByteString)
    ensures |s| == 8 * |vs|
  {
    if vs == [] then [] else Le(vs[0], 8) + Words(vs[1..])
  }

  lemma {:induction false} WordAt(vs: seq<U64>, i: nat)
    requires i < |vs|
    ensures Words(vs)[8 * i..8 * i + 8] == Le(vs[i], 8)
  {
    hide Le;
    if i > 0 {
      WordAt(vs[1..], i - 1);
      SliceBehind(Le(vs[0], 8), Words(vs[1..]), 8 * (i - 1), 8 * i);
    }
  }

  lemma SliceBehind(front: ByteString, rest: ByteString, c: nat, d: nat)
    requires c <= d <= |rest|
    ensures (front + rest)[|front| + c..|front| + d] == rest[c..d]
  {
  }

  lemma {:induction false} WordsInjective(vs: seq<U64>, ws: seq<U64>)
    requires |vs| == |ws| && Words(vs) == Words(ws)
    ensures vs == ws
  {
    forall i | 0 <= i < |vs|
      ensures vs[i] == ws[i]
    {
      WordAt(vs, i);
      WordAt(ws, i);
      LeInjective64(vs[i], ws[i]);
    }
  }

  function HeaderWords(h: Header): (r: seq<U64>) {
    [h.version, h.parentPage, h.prevPage, h.timestamp, h.dataRoot, h.metaRoot, h.nonceCounter, h.pagesWritten]
  }

  /** The numeric fields, bytes 8..80. */
  function EncodeNumbers(h: Header): (s: ByteString)
    ensures |s| == 72
  {
    Le(h.flags, 4) + Zeros(4) + Words(HeaderWords(h))
  }

  /** The header written into a zeroed page body. */
  function Encode(h: Header): (body: ByteString)
    requires |h.branch| <= BRANCH_MAX
    ensures |body| == BODY_SIZE
  {
    MagicCommit() + EncodeNumbers(h) + PaddedBranch(h.branch) + h.contentHash + h.prevChain + h.chainHash
    + Zeros(BODY_SIZE - HEADER_LEN)
  }

  /** The bytes before the first zero. */
  function UntilZero(s: ByteString): (r: ByteString)
    ensures |r| <= |s| && r == s[..|r|] && 0 !in r
    ensures |r| < |s| ==> s[|r|] == 0
  {
    if s == [] || s[0] == 0 then [] else [s[0]] + UntilZero(s[1..])
  }

  function U64At(body: ByteString, at: nat): (n: U64)
    requires at + 8 <= |body|
  {
    FromLeBound64(body[at..at + 8]);
    FromLe(body[at..at + 8])
  }

  function U32At(body: ByteString, at: nat): (n: U32)
    requires at + 4 <= |body|
  {
    Pow256Of4();
    FromLeBound(body[at..at + 4]);
    FromLe(body[at..at + 4])
  }

  function Decode(env: Env, body: ByteString): (r: Option<Header>)
    requires |body| >= HEADER_LEN
    ensures r.Some? ==> BranchFits(env, r.value.branch)
  {
    var branch := UntilZero(body[80..144]);
    if body[..8] != MagicCommit() || !env.utf8(branch) then None
    else Some(Header(
      U32At(body, 8), U64At(body, 16), U64At(body, 24), U64At(body, 32), U64At(body, 40),
      U64At(body, 48), U64At(body, 56), U64At(body, 64), U64At(body, 72),
      branch, body[144..176], body[176..208], body[208..240]))
  }

  lemma {:induction false} UntilZeroOfPadded(branch: ByteString, n: nat)
    requires 0 !in branch
    ensures UntilZero(branch + Zeros(n)) == branch
  {
    var s := branch + Zeros(n);
    if branch == [] {
    } else {
      UntilZeroOfPadded(branch[1..], n);
      assert s[1..] == branch[1..] + Zeros(n);
      assert s[0] == branch[0] && branch[0] in branch;
    }
  }

  lemma NumbersReadBack(h: Header, body: ByteString)
    requires |body| >= HEADER_LEN && body[8..80] == EncodeNumbers(h)
    ensures U32At(body, 8) == h.flags && U64At(body, 16) == h.version && U64At(body, 24) == h.parentPage
    ensures U64At(body, 32) == h.prevPage && U64At(body, 40) == h.timestamp && U64At(body, 48) == h.dataRoot
    ensures U64At(body, 56) == h.metaRoot && U64At(body, 64) == h.nonceCounter && U64At(body, 72) == h.pagesWritten
  {
    hide Le, FromLe, EncodeNumbers, U32At, U64At;
    FlagsReadBack(h, body);
    WordReadsBack(h, body, 0);
    WordReadsBack(h, body, 1);
    WordReadsBack(h, body, 2);
    WordReadsBack(h, body, 3);
    WordReadsBack(h, body, 4);
    WordReadsBack(h, body, 5);
    WordReadsBack(h, body, 6);
    WordReadsBack(h, body, 7);
  }

  lemma FlagsReadBack(h: Header, body: ByteString)
    requires |body| >= HEADER_LEN && body[8..80] == EncodeNumbers(h)
    ensures U32At(body, 8) == h.flags
  {
    hide Le, FromLe, Words;
    SliceOfSlice(body, 8, 80, 0, 4);
    var rest := Zeros(4) + Words(HeaderWords(h));
    assert EncodeNumbers(h) == Le(h.flags, 4) + rest;
    assert EncodeNumbers(h)[0..4] == Le(h.flags, 4);
    LeRoundTrip32(h.flags);
  }

  /** The i-th word of the header reads back. */
  lemma WordReadsBack(h: Header, body: ByteString, i: nat)
    requires |body| >= HEADER_LEN && body[8..80] == EncodeNumbers(h) && i < 8
    ensures U64At(body, 16 + 8 * i) == HeaderWords(h)[i]
  {
    hide Le, FromLe, Words;
    var words := Words(HeaderWords(h));
    SliceOfSlice(body, 8, 80, 8 + 8 * i, 16 + 8 * i);
    SliceBehind(Le(h.flags, 4) + Zeros(4), words, 8 * i, 8 * i + 8);
    WordAt(HeaderWords(h), i);
    LeRoundTrip64(HeaderWords(h)[i]);
  }

  lemma SliceOfSlice(s: ByteString, a: nat, b: nat, c: nat, d: nat)
    requires c <= d && a + d <= b <= |s|
    ensures s[a..b][c..d] == s[a + c..a + d]
  {
    var l, r := s[a..b][c..d], s[a + c..a + d];
    forall i | 0 <= i < d - c
      ensures l[i] == r[i]
    {
      assert l[i] == s[a..b][c + i];
    }
  }

  /** Every header reads back from the page it was written to. */
  lemma HeaderRoundTrip(env: Env, h: Header)
    requires BranchFits(env, h.branch)
    ensures Decode(env, Encode(h)) == Some(h)
  {
    hide EncodeNumbers, U64At, U32At, UntilZero;
    var body := Encode(h);
    assert body[..8] == MagicCommit();
    assert body[8..80] == EncodeNumbers(h);
    assert body[80..144] == PaddedBranch(h.branch);
    assert body[144..176] == h.contentHash;
    assert body[176..208] == h.prevChain;
    assert body[208..240] == h.chainHash;
    NumbersReadBack(h, body);
    UntilZeroOfPadded(h.branch, BRANCH_MAX - |h.branch|);
  }

  // ----------------------------------------------------------------- chain

  /** What the chain hash is taken over: 160 bytes, every field at a fixed place. */
  function ChainInput(h: Header): (s: ByteString)
    requires |h.branch| <= BRANCH_MAX
    ensures |s| == 160
  {
    h.prevChain + h.contentHash + ChainNumbers(h) + PaddedBranch(h.branch)
  }

  function ChainNumbers(h: Header): (s: ByteString)
    ensures |s| == 32
  {
    Words([h.version, h.timestamp, h.dataRoot, h.metaRoot])
  }

  function ComputeChain(env: Env, h: Header): (r: Digest)
    requires |h.branch| <= BRANCH_MAX
  {
    env.sha(ChainInput(h))
  }

  predicate SelfConsistent(env: Env, h: Header)
    requires |h.branch| <= BRANCH_MAX
  {
    h.chainHash == ComputeChain(env, h)
  }

  function GenesisInput(fileId: ByteString): (r: ByteString) {
    MagicHeader() + fileId
  }

  function GenesisChain(env: Env, fileId: ByteString): (r: Digest) {
    env.sha(GenesisInput(fileId))
  }

  /** The fields that the chain hash binds. */
  predicate SameChained(a: Header, b: Header) {
    && a.version == b.version && a.timestamp == b.timestamp && a.dataRoot == b.dataRoot && a.metaRoot == b.metaRoot
    && a.branch == b.branch && a.contentHash == b.contentHash && a.prevChain == b.prevChain
  }

  lemma ChainNumbersInjective(a: Header, b: Header)
    requires ChainNumbers(a) == ChainNumbers(b)
    ensures a.version == b.version && a.timestamp == b.timestamp && a.dataRoot == b.dataRoot && a.metaRoot == b.metaRoot
  {
    hide Words;
    var vs: seq<U64> := [a.version, a.timestamp, a.dataRoot, a.metaRoot];
    var ws: seq<U64> := [b.version, b.timestamp, b.dataRoot, b.metaRoot];
    WordsInjective(vs, ws);
    assert vs[0] == ws[0] && vs[1] == ws[1] && vs[2] == ws[2] && vs[3] == ws[3];
  }

  lemma PaddedBranchInjective(a: ByteString, b: ByteString)
    requires |a| <= BRANCH_MAX && |b| <= BRANCH_MAX && 0 !in a && 0 !in b
    requires PaddedBranch(a) == PaddedBranch(b)
    ensures a == b
  {
    hide UntilZero;
    UntilZeroOfPadded(a, BRANCH_MAX - |a|);
    UntilZeroOfPadded(b, BRANCH_MAX - |b|);
  }

  /** The concatenation is unambiguous: equal inputs come from equal fields. */
  lemma ChainInputInjective(a: Header, b: Header)
    requires |a.branch| <= BRANCH_MAX && 0 !in a.branch && |b.branch| <= BRANCH_MAX && 0 !in b.branch
    requires ChainInput(a) == ChainInput(b)
    ensures SameChained(a, b)
  {
    hide ChainNumbers, PaddedBranch;
    var s, t := ChainInput(a), ChainInput(b);
    assert s[..32] == a.prevChain && t[..32] == b.prevChain;
    assert s[32..64] == a.contentHash && t[32..64] == b.contentHash;
    assert s[64..96] == ChainNumbers(a) && t[64..96] == ChainNumbers(b);
    assert s[96..] == PaddedBranch(a.branch) && t[96..] == PaddedBranch(b.branch);
    ChainNumbersInjective(a, b);
    PaddedBranchInjective(a.branch, b.branch);
  }

  // ---------------------------------------------------------- new headers

  /** The header fields a commit does not derive from its data. */
  datatype CommitParams = CommitParams(version: U64, flags: U32, prevPage: U64, prevChain: Digest, branch: ByteString, parentPage: U64)

  /** A normal commit behind `base`. */
  function After(base: Head, branch: ByteString, parentPage: U64): (r: CommitParams)
    requires base.version + 1 < TWO_64 && base.commitPage < TWO_64
  {
    CommitParams(base.version + 1, 0, base.commitPage, base.chainHash, branch, parentPage)
  }

  /** The checkpoint that opens a compacted file at version k. */
  function Checkpoint(env: Env, fileId: ByteString, k: U64, branch: ByteString): (r: CommitParams) {
    CommitParams(k, 1, 0, GenesisChain(env, fileId), branch, 0)
  }

  function JoinedBodies(bodies: seq<ByteString>): (r: ByteString) {
    if bodies == [] then [] else JoinedBodies(bodies[..|bodies| - 1]) + bodies[|bodies| - 1]
  }

  /** Bodies joined lie one after the other, whole and in order. */
  lemma {:induction false} JoinedBodiesMean(bodies: seq<ByteString>, i: nat)
    requires i < |bodies| && forall k :: 0 <= k < |bodies| ==> |bodies[k]| == BODY_SIZE
    ensures |JoinedBodies(bodies)| == 4068 * |bodies|
    ensures JoinedBodies(bodies)[4068 * i..4068 * (i + 1)] == bodies[i]
  {
    var front, last := bodies[..|bodies| - 1], bodies[|bodies| - 1];
    assert JoinedBodies(bodies) == JoinedBodies(front) + last;
    if front == [] {
    } else {
      JoinedBodiesMean(front, if i < |front| then i else 0);
      if i < |front| {
        assert (JoinedBodies(front) + last)[4068 * i..4068 * (i + 1)] == JoinedBodies(front)[4068 * i..4068 * (i + 1)];
      }
    }
  }

  /** A commit behind a head is the next version, names the head's page and carries its chain hash on. */
  lemma ParamsMean(env: Env, base: Head, fileId: ByteString, k: U64, branch: ByteString, parentPage: U64)
    requires base.version + 1 < TWO_64 && base.commitPage < TWO_64
    ensures var p := After(base, branch, parentPage);
      && p.version == base.version + 1 && p.prevPage == base.commitPage && p.prevChain == base.chainHash
      && p.flags % 2 == 0 && p.branch == branch && p.parentPage == parentPage
    ensures var p := Checkpoint(env, fileId, k, branch);
      && p.version == k && p.prevPage == 0 && p.parentPage == 0 && p.prevChain == env.sha(MagicHeader() + fileId)
      && p.flags % 2 == 1 && p.branch == branch
  {
  }

  /** The header that `write_commit_pages` builds. */
  function NewHeader(env: Env, params: CommitParams, dataRoot: U64, metaRoot: U64, timestamp: U64, nonceCounter: U64,
                     pagesWritten: U64, content: ByteString): (h: Header)
    requires |params.branch| <= BRANCH_MAX
    ensures h.branch == params.branch && SelfConsistent(env, h)
    ensures h.flags == params.flags && h.version == params.version && h.parentPage == params.parentPage
    ensures h.prevPage == params.prevPage && h.prevChain == params.prevChain && h.contentHash == env.sha(content)
    ensures h.dataRoot == dataRoot && h.metaRoot == metaRoot && h.timestamp == timestamp
    ensures h.nonceCounter == nonceCounter && h.pagesWritten == pagesWritten
  {
    var h := Header(params.flags, params.version, params.parentPage, params.prevPage, timestamp, dataRoot, metaRoot,
                    nonceCounter, pagesWritten, params.branch, env.sha(content), params.prevChain, seq(32, _ => 0));
    var chained := h.(chainHash := ComputeChain(env, h));
    assert ChainInput(chained) == ChainInput(h);
    chained
  }

  // ------------------------------------------------------------------- log

  /** A file as the commit layer sees it: its identity, and what reading each page gives. */
  datatype Log = Log(fileId: ByteString, pages: seq<Option<ByteString>>)

  ghost predicate WellFormed(log: Log) {
    && |log.fileId| == 16
    && (forall i :: 0 <= i < |log.pages| && log.pages[i].Some? ==> |log.pages[i].value| == BODY_SIZE)
  }

  function ReadPage(log: Log, id: nat): (r: Option<ByteString>) {
    if FIRST_DATA_PAGE <= id < FIRST_DATA_PAGE + |log.pages| then log.pages[id - FIRST_DATA_PAGE] else None
  }

  function HeaderAt(env: Env, log: Log, page: nat): (r: Option<Header>)
    requires WellFormed(log)
    ensures r.Some? ==> BranchFits(env, r.value.branch)
  {
    var body := ReadPage(log, page);
    if body.None? then None else Decode(env, body.value)
  }

  datatype Link = Link(page: nat, header: Header)

  datatype Head = Head(version: nat, commitPage: nat, dataRoot: nat, metaRoot: nat, chainHash: Digest,
                       nonceCounter: nat, nPages: nat)

  function GenesisHead(env: Env, fileId: ByteString): (r: Head) {
    Head(0, 0, 0, 0, GenesisChain(env, fileId), 0, FIRST_DATA_PAGE)
  }

  function HeadFrom(h: Header, page: nat): (r: Head) {
    Head(h.version, page, h.dataRoot, h.metaRoot, h.chainHash, h.nonceCounter, page + 1)
  }

  datatype Anchor = Anchor(version: nat, chainHash: Digest)

  predicate IsCheckpoint(h: Header) {
    h.flags % 2 == 1
  }

  // ----------------------------------------------------------------- audit

  /** The backward walk ends: every commit page points before itself. */
  ghost predicate Descending(env: Env, log: Log)
    requires WellFormed(log)
  {
    forall page :: HeaderAt(env, log, page).Some? ==> HeaderAt(env, log, page).value.prevPage < page
  }

  /** The commits from genesis to `page`, following `prevPage`. */
  function Walk(env: Env, log: Log, page: nat): (r: Option<seq<Link>>)
    requires WellFormed(log) && Descending(env, log)
    ensures r.Some? ==> forall i :: 0 <= i < |r.value| ==> HeaderAt(env, log, r.value[i].page) == Some(r.value[i].header)
    decreases page
  {
    if page == 0 then Some([])
    else
      var h := HeaderAt(env, log, page);
      if h.None? then None
      else
        var before := Walk(env, log, h.value.prevPage);
        Append(before, [Link(page, h.value)])
  }

  function DataCount(h: Header): (r: nat) {
    SaturatingSub(h.pagesWritten, 1)
  }

  /** The bodies of `n` pages from `start`, joined; None if one cannot be read. */
  function Bodies(log: Log, start: nat, n: nat): (r: Option<ByteString>)
    decreases n
  {
    if n == 0 then Some([])
    else
      var before := Bodies(log, start, n - 1);
      var last := ReadPage(log, start + n - 1);
      if before.None? || last.None? then None else Some(before.value + last.value)
  }

  datatype Reason =
    | UnreadableCommit | OutOfSequence | BadPageCount | UnreadableData | ContentMismatch | Unlinked
    | Inconsistent | Rewritten | HeadNotReached | HeadMismatch | MissingCommits | CompactedAway

  datatype Verdict<+T> = Ok(value: T) | Broken(at: nat, reason: Reason)

  datatype Report = Report(head: nat, commits: nat, chainHash: Digest)

  /** What is wrong with one commit, if anything, in the order the audit looks. */
  function Fault(env: Env, log: Log, link: Link, prevChain: Digest, expected: nat, anchor: Option<Anchor>): (r: Option<Reason>)
    requires |link.header.branch| <= BRANCH_MAX
  {
    var h := link.header;
    if h.version != expected then Some(OutOfSequence)
    else if link.page < DataCount(h) then Some(BadPageCount)
    else
      var content := Bodies(log, link.page - DataCount(h), DataCount(h));
      if content.None? then Some(UnreadableData)
      else if env.sha(content.value) != h.contentHash then Some(ContentMismatch)
      else if h.prevChain != prevChain then Some(Unlinked)
      else if !SelfConsistent(env, h) then Some(Inconsistent)
      else if anchor.Some? && h.version == anchor.value.version && h.chainHash != anchor.value.chainHash then Some(Rewritten)
      else None
  }

  /** What each verdict on a commit says is wrong with it, and that none of it is where there is no fault. */
  lemma FaultMeans(env: Env, log: Log, link: Link, prevChain: Digest, expected: nat, anchor: Option<Anchor>)
    requires |link.header.branch| <= BRANCH_MAX
    ensures var h, n := link.header, SaturatingSub(link.header.pagesWritten, 1);
      var content := if n <= link.page then Bodies(log, link.page - n, n) else None;
      var rewritten := anchor.Some? && h.version == anchor.value.version && h.chainHash != anchor.value.chainHash;
      match Fault(env, log, link, prevChain, expected, anchor)
      case Some(OutOfSequence) => h.version != expected
      case Some(BadPageCount) => h.version == expected && n > link.page
      case Some(UnreadableData) => h.version == expected && n <= link.page && content.None?
      case Some(ContentMismatch) => h.version == expected && content.Some? && env.sha(content.value) != h.contentHash
      case Some(Unlinked) => h.version == expected && content.Some? && env.sha(content.value) == h.contentHash && h.prevChain != prevChain
      case Some(Inconsistent) => content.Some? && h.prevChain == prevChain && h.chainHash != env.sha(ChainInput(h))
      case Some(Rewritten) => content.Some? && h.prevChain == prevChain && h.chainHash == env.sha(ChainInput(h)) && rewritten
      case None =>
        && h.version == expected && content.Some? && env.sha(content.value) == h.contentHash
        && h.prevChain == prevChain && h.chainHash == env.sha(ChainInput(h)) && !rewritten
      case _ => false
  {
    hide Bodies, ChainInput;
  }

  function FirstVersion(links: seq<Link>): (r: nat) {
    if links != [] && IsCheckpoint(links[0].header) then SaturatingSub(links[0].header.version, 1) else 0
  }

  function ChainBefore(env: Env, log: Log, links: seq<Link>, i: nat): (r: Digest)
    requires i <= |links|
  {
    if i == 0 then GenesisChain(env, log.fileId) else links[i - 1].header.chainHash
  }

  /** Commit i of the walk passes every check. */
  predicate Passes(env: Env, log: Log, links: seq<Link>, i: nat, anchor: Option<Anchor>)
    requires i < |links| && |links[i].header.branch| <= BRANCH_MAX
  {
    Fault(env, log, links[i], ChainBefore(env, log, links, i), FirstVersion(links) + 1 + i, anchor) == None
  }

  ghost predicate BranchesFit(env: Env, links: seq<Link>) {
    forall i :: 0 <= i < |links| ==> BranchFits(env, links[i].header.branch)
  }

  /** What a passing audit means. */
  ghost predicate Audited(env: Env, log: Log, head: Head, links: seq<Link>, anchor: Option<Anchor>)
    requires WellFormed(log) && Descending(env, log)
  {
    && Walk(env, log, head.commitPage) == Some(links) && BranchesFit(env, links)
    && (forall i :: 0 <= i < |links| ==> Passes(env, log, links, i, anchor))
    && FirstVersion(links) + |links| == head.version
    && ChainBefore(env, log, links, |links|) == head.chainHash
    && (anchor.Some? ==> exists i :: 0 <= i < |links| && links[i].header.version == anchor.value.version)
  }

  function Append(before: Option<seq<Link>>, links: seq<Link>): (r: Option<seq<Link>>) {
    if before.None? then None else Some(before.value + links)
  }

  lemma AppendNothing(before: Option<seq<Link>>)
    ensures Append(before, []) == before
  {
    assert before.Some? ==> before.value + [] == before.value;
  }

  lemma AppendStep(before: Option<seq<Link>>, link: Link, links: seq<Link>)
    ensures Append(Append(before, [link]), links) == Append(before, [link] + links)
  {
    assert before.Some? ==> (before.value + [link]) + links == before.value + ([link] + links);
  }

  lemma {:induction false} BodiesUnreadable(log: Log, start: nat, i: nat, n: nat)
    requires i < n && ReadPage(log, start + i).None?
    ensures Bodies(log, start, n).None?
    decreases n
  {
    if i < n - 1 {
      BodiesUnreadable(log, start, i, n - 1);
    }
  }

  // ------------------------------------------------------- the audit's answer

  /** How many commits can be read back from `page`. */
  function WalkDepth(env: Env, log: Log, page: nat): (n: nat)
    requires WellFormed(log) && Descending(env, log)
    decreases page
  {
    if page == 0 || HeaderAt(env, log, page).None? then 0
    else 1 + WalkDepth(env, log, HeaderAt(env, log, page).value.prevPage)
  }

  lemma {:induction false} DepthOfWalk(env: Env, log: Log, page: nat)
    requires WellFormed(log) && Descending(env, log)
    ensures Walk(env, log, page).Some? ==> WalkDepth(env, log, page) == |Walk(env, log, page).value|
    decreases page
  {
    hide HeaderAt;
    if page != 0 && HeaderAt(env, log, page).Some? {
      DepthOfWalk(env, log, HeaderAt(env, log, page).value.prevPage);
    }
  }

  lemma WalkedBranchesFit(env: Env, log: Log, page: nat, links: seq<Link>)
    requires WellFormed(log) && Descending(env, log) && Walk(env, log, page) == Some(links)
    ensures BranchesFit(env, links)
  {
    hide Walk, Decode, Descending;
    forall i | 0 <= i < |links|
      ensures BranchFits(env, links[i].header.branch)
    {
      assert HeaderAt(env, log, links[i].page) == Some(links[i].header);
    }
  }

  /** The first commit from i on with a fault: its version, and the fault. */
  ghost function FirstFault(env: Env, log: Log, links: seq<Link>, i: nat, anchor: Option<Anchor>): (r: Option<(nat, Reason)>)
    requires i <= |links| && BranchesFit(env, links)
    decreases |links| - i
  {
    if i == |links| then None
    else
      assert BranchFits(env, links[i].header.branch);
      match Fault(env, log, links[i], ChainBefore(env, log, links, i), FirstVersion(links) + 1 + i, anchor)
      case Some(reason) => Some((links[i].header.version, reason))
      case None => FirstFault(env, log, links, i + 1, anchor)
  }

  /** One of the first n commits is the anchored one. */
  ghost predicate Seen(links: seq<Link>, n: nat, anchor: Option<Anchor>)
    requires n <= |links|
  {
    anchor.Some? && exists i :: 0 <= i < n && links[i].header.version == anchor.value.version
  }

  /** What is said of a walk none of whose commits has a fault. */
  ghost function WholeVerdict(env: Env, log: Log, head: Head, links: seq<Link>, anchor: Option<Anchor>): (r: Verdict<Report>) {
    if FirstVersion(links) + |links| != head.version then Broken(FirstVersion(links) + |links|, HeadNotReached)
    else if ChainBefore(env, log, links, |links|) != head.chainHash then Broken(head.version, HeadMismatch)
    else if anchor.Some? && !Seen(links, |links|, anchor) then
      if anchor.value.version > head.version then Broken(head.version, MissingCommits)
      else Broken(anchor.value.version, CompactedAway)
    else Ok(Report(head.version, |links|, head.chainHash))
  }

  /** The answer of the audit, reason and version included. */
  ghost function AuditVerdict(env: Env, log: Log, head: Head, anchor: Option<Anchor>): (r: Verdict<Report>)
    requires WellFormed(log) && Descending(env, log)
  {
    var walk := Walk(env, log, head.commitPage);
    if walk.None? then Broken(SaturatingSub(head.version, WalkDepth(env, log, head.commitPage)), UnreadableCommit)
    else
      WalkedBranchesFit(env, log, head.commitPage, walk.value);
      match FirstFault(env, log, walk.value, 0, anchor)
      case Some(f) => Broken(f.0, f.1)
      case None => WholeVerdict(env, log, head, walk.value, anchor)
  }

  lemma {:induction false} NoFaultIsAllPass(env: Env, log: Log, links: seq<Link>, i: nat, anchor: Option<Anchor>)
    requires i <= |links| && BranchesFit(env, links)
    ensures FirstFault(env, log, links, i, anchor) == None <==> forall k :: i <= k < |links| ==> Passes(env, log, links, k, anchor)
    decreases |links| - i
  {
    hide Fault, FirstFault, ChainBefore, FirstVersion;
    if i < |links| {
      NoFaultIsAllPass(env, log, links, i + 1, anchor);
      FirstFaultUnfold(env, log, links, i, anchor);
      assert FirstFault(env, log, links, i, anchor) == None <==>
        Passes(env, log, links, i, anchor) && FirstFault(env, log, links, i + 1, anchor) == None;
    } else {
      NoneLeft(env, log, links, anchor);
    }
  }

  /** The audit passes exactly when there is a history that is audited in the declarative sense. */
  lemma PassesExactlyWhenAudited(env: Env, log: Log, head: Head, anchor: Option<Anchor>)
    requires WellFormed(log) && Descending(env, log)
    ensures AuditVerdict(env, log, head, anchor).Ok? <==> exists links :: Audited(env, log, head, links, anchor)
    ensures forall links :: Audited(env, log, head, links, anchor) ==>
      AuditVerdict(env, log, head, anchor) == Ok(Report(head.version, |links|, head.chainHash))
  {
    hide Walk, Passes, FirstVersion, ChainBefore, HeaderAt, Descending, WellFormed, FirstFault, WalkDepth;
    var walk := Walk(env, log, head.commitPage);
    if walk.Some? {
      WalkedBranchesFit(env, log, head.commitPage, walk.value);
      NoFaultIsAllPass(env, log, walk.value, 0, anchor);
      assert AuditVerdict(env, log, head, anchor).Ok? ==> Audited(env, log, head, walk.value, anchor);
    }
  }

  /** The answer, case by case. */
  lemma AuditVerdictIs(env: Env, log: Log, head: Head, anchor: Option<Anchor>)
    requires WellFormed(log) && Descending(env, log)
    ensures var walk, v := Walk(env, log, head.commitPage), AuditVerdict(env, log, head, anchor);
      if walk.None? then v == Broken(SaturatingSub(head.version, WalkDepth(env, log, head.commitPage)), UnreadableCommit)
      else
        && BranchesFit(env, walk.value)
        && var f := FirstFault(env, log, walk.value, 0, anchor);
          v == if f.Some? then Broken(f.value.0, f.value.1) else WholeVerdict(env, log, head, walk.value, anchor)
  {
    hide Walk, FirstFault, WholeVerdict, BranchesFit, Descending, WellFormed, WalkDepth;
    var walk := Walk(env, log, head.commitPage);
    if walk.Some? {
      WalkedBranchesFit(env, log, head.commitPage, walk.value);
    }
  }

  lemma NoneLeft(env: Env, log: Log, links: seq<Link>, anchor: Option<Anchor>)
    requires BranchesFit(env, links)
    ensures FirstFault(env, log, links, |links|, anchor) == None
  {
  }

  lemma FirstFaultUnfold(env: Env, log: Log, links: seq<Link>, i: nat, anchor: Option<Anchor>)
    requires i < |links| && BranchesFit(env, links)
    ensures |links[i].header.branch| <= BRANCH_MAX
    ensures var f := Fault(env, log, links[i], ChainBefore(env, log, links, i), FirstVersion(links) + 1 + i, anchor);
      FirstFault(env, log, links, i, anchor) ==
        if f.Some? then Some((links[i].header.version, f.value)) else FirstFault(env, log, links, i + 1, anchor)
  {
    hide Fault, ChainBefore, FirstVersion;
    assert BranchFits(env, links[i].header.branch);
  }
}
