/** Recovery on open (`recover` of `src/commit.rs`): a hint from the meta slots, then a forward scan. */
module Recovery {
  import opened Options
  import opened Bytes
  import opened Commit

  datatype MetaSlot = MetaSlot(version: nat, lastCommitPage: nat, nPages: nat)

  function MetaFor(head: Head): (r: MetaSlot) {
    MetaSlot(head.version, head.commitPage, head.nPages)
  }

  /** The first page id that was never swept. */
  function End(log: Log): (r: nat) {
    FIRST_DATA_PAGE + |log.pages|
  }

  function TryHeadAt(env: Env, log: Log, page: nat): (r: Option<Head>)
    requires WellFormed(log)
  {
    var h := HeaderAt(env, log, page);
    if h.None? || !SelfConsistent(env, h.value) then None else Some(HeadFrom(h.value, page))
  }

  /** h may follow the head: the next version on its chain, or the checkpoint that opens a compacted file. */
  predicate Follows(env: Env, head: Head, h: Header)
    requires |h.branch| <= BRANCH_MAX
  {
    && h.prevChain == head.chainHash
    && (h.version == head.version + 1 || (head.commitPage == 0 && IsCheckpoint(h)))
    && SelfConsistent(env, h)
  }

  lemma FollowsMeans(env: Env, head: Head, h: Header)
    requires |h.branch| <= BRANCH_MAX
    ensures Follows(env, head, h) <==>
      && h.prevChain == head.chainHash && h.chainHash == env.sha(ChainInput(h))
      && (h.version == head.version + 1 || (head.commitPage == 0 && h.flags % 2 == 1))
  {
    hide ChainInput;
  }

  /** The forward scan from `page`: stops at the first unreadable page or stray commit. */
  function Scan(env: Env, log: Log, head: Head, page: nat): (r: Head)
    requires WellFormed(log) && FIRST_DATA_PAGE <= page
    decreases End(log) - page
  {
    if page >= End(log) || ReadPage(log, page).None? then head
    else
      var h := HeaderAt(env, log, page);
      if h.None? then Scan(env, log, head, page + 1)
      else if Follows(env, head, h.value) then Scan(env, log, HeadFrom(h.value, page), page + 1)
      else head
  }

  function ScanAll(env: Env, log: Log): (r: Head)
    requires WellFormed(log)
  {
    Scan(env, log, GenesisHead(env, log.fileId), FIRST_DATA_PAGE)
  }

  /** Newest first; equal versions stay in order. */
  function NewestFirst(slots: seq<MetaSlot>): (r: seq<MetaSlot>)
    requires |slots| <= 2
    ensures multiset(r) == multiset(slots)
    ensures |r| == 2 ==> r[0].version >= r[1].version
  {
    if |slots| == 2 && slots[0].version < slots[1].version then
      assert slots == [slots[0], slots[1]];
      [slots[1], slots[0]]
    else slots
  }

  /** The head that the first usable slot points to. */
  function FirstHint(env: Env, log: Log, slots: seq<MetaSlot>): (r: Option<Head>)
    requires WellFormed(log)
    ensures r.Some? ==> r.value.nPages == r.value.commitPage + 1 && r.value.commitPage >= FIRST_DATA_PAGE
  {
    if slots == [] then None
    else if slots[0].lastCommitPage >= FIRST_DATA_PAGE && TryHeadAt(env, log, slots[0].lastCommitPage).Some? then
      TryHeadAt(env, log, slots[0].lastCommitPage)
    else FirstHint(env, log, slots[1..])
  }

  function Recovered(env: Env, log: Log, slots: seq<MetaSlot>): (r: Head)
    requires WellFormed(log) && |slots| <= 2
  {
    match FirstHint(env, log, NewestFirst(slots))
    case None => ScanAll(env, log)
    case Some(head) => Scan(env, log, head, head.nPages)
  }

  lemma ScanUnfold(env: Env, log: Log, head: Head, page: nat)
    requires WellFormed(log) && FIRST_DATA_PAGE <= page
    ensures page >= End(log) || ReadPage(log, page).None? ==> Scan(env, log, head, page) == head
    ensures ReadPage(log, page).Some? ==>
      var h := HeaderAt(env, log, page);
      Scan(env, log, head, page) ==
        if h.None? then Scan(env, log, head, page + 1)
        else if Follows(env, head, h.value) then Scan(env, log, HeadFrom(h.value, page), page + 1)
        else head
  {
    hide SelfConsistent;
  }

  // ------------------------------------------------------- facts about scans

  function Prefix(log: Log, n: nat): (p: Log)
    requires n <= |log.pages|
    ensures WellFormed(log) ==> WellFormed(p)
  {
    Log(log.fileId, log.pages[..n])
  }

  /** The first n pages end with the commit of `head`, and scanning them adopts it. */
  ghost predicate Adopts(env: Env, log: Log, head: Head)
    requires WellFormed(log)
  {
    && FIRST_DATA_PAGE <= head.nPages <= End(log)
    && ScanAll(env, Prefix(log, head.nPages - FIRST_DATA_PAGE)) == head
  }

  lemma PrefixReads(env: Env, log: Log, n: nat, page: nat)
    requires WellFormed(log) && n <= |log.pages| && page < FIRST_DATA_PAGE + n
    ensures ReadPage(Prefix(log, n), page) == ReadPage(log, page)
    ensures HeaderAt(env, Prefix(log, n), page) == HeaderAt(env, log, page)
  {
  }

  /** A scan never gives up ground, and every head it reaches is a readable, self-consistent commit. */
  lemma {:induction false} ScanAdvances(env: Env, log: Log, head: Head, page: nat)
    requires WellFormed(log) && FIRST_DATA_PAGE <= page && head.nPages <= page
    ensures var r := Scan(env, log, head, page);
      && (r == head || (page < r.nPages <= End(log) && TryHeadAt(env, log, r.commitPage) == Some(r)
        && r.commitPage + 1 == r.nPages && r.commitPage >= FIRST_DATA_PAGE))
      && (r.version >= head.version || head.commitPage == 0)
    decreases End(log) - page
  {
    hide Scan, SelfConsistent, HeaderAt;
    ScanUnfold(env, log, head, page);
    if page < End(log) && ReadPage(log, page).Some? {
      var h := HeaderAt(env, log, page);
      if h.None? {
        ScanAdvances(env, log, head, page + 1);
      } else if Follows(env, head, h.value) {
        ScanAdvances(env, log, HeadFrom(h.value, page), page + 1);
      }
    }
  }

  /** Every page below a recovered head was read. */
  lemma {:induction false} ScanReadsEverything(env: Env, log: Log, head: Head, page: nat, p: nat)
    requires WellFormed(log) && FIRST_DATA_PAGE <= page && head.nPages <= page
    requires page <= p < Scan(env, log, head, page).nPages
    ensures ReadPage(log, p).Some?
    decreases End(log) - page
  {
    hide Scan, SelfConsistent, HeaderAt;
    ScanUnfold(env, log, head, page);
    ScanAdvances(env, log, head, page);
    if page < End(log) && ReadPage(log, page).Some? {
      var h := HeaderAt(env, log, page);
      if h.None? {
        if page < p {
          ScanReadsEverything(env, log, head, page + 1, p);
        }
      } else if Follows(env, head, h.value) {
        if page < p {
          ScanReadsEverything(env, log, HeadFrom(h.value, page), page + 1, p);
        }
      }
    }
  }

  /** A scan that adopts the last page of a prefix goes on from there in the whole log. */
  lemma {:induction false} ScanGoesOn(env: Env, log: Log, n: nat, head: Head, page: nat, mid: Head)
    requires WellFormed(log) && n <= |log.pages| && head.nPages <= page
    requires FIRST_DATA_PAGE <= page <= mid.nPages == FIRST_DATA_PAGE + n
    requires Scan(env, Prefix(log, n), head, page) == mid
    ensures Scan(env, log, head, page) == Scan(env, log, mid, mid.nPages)
    decreases mid.nPages - page
  {
    hide Scan, SelfConsistent, HeaderAt, Prefix;
    var pre := Prefix(log, n);
    PrefixEnd(log, n);
    ScanUnfold(env, pre, head, page);
    if page < mid.nPages {
      PrefixReads(env, log, n, page);
      ScanUnfold(env, log, head, page);
      ScanAdvances(env, pre, head, page);
      assert ReadPage(pre, page).Some?;
      var h := HeaderAt(env, pre, page);
      if h.None? {
        ScanGoesOn(env, log, n, head, page + 1, mid);
      } else {
        assert Follows(env, head, h.value);
        ScanGoesOn(env, log, n, HeadFrom(h.value, page), page + 1, mid);
      }
    }
  }

  lemma PrefixEnd(log: Log, n: nat)
    requires n <= |log.pages|
    ensures End(Prefix(log, n)) == FIRST_DATA_PAGE + n
  {
  }

  /** From any adopted head, the scan ends where the scan from genesis does. */
  lemma ScanFromAdopted(env: Env, log: Log, head: Head)
    requires WellFormed(log) && Adopts(env, log, head)
    ensures Scan(env, log, head, head.nPages) == ScanAll(env, log)
    ensures head == GenesisHead(env, log.fileId) || TryHeadAt(env, log, head.commitPage) == Some(head)
    ensures head.commitPage + 1 == head.nPages || head == GenesisHead(env, log.fileId)
    ensures forall p :: FIRST_DATA_PAGE <= p < head.nPages ==> ReadPage(log, p).Some?
  {
    hide Scan, SelfConsistent, HeaderAt, Prefix;
    var n := head.nPages - FIRST_DATA_PAGE;
    var genesis := GenesisHead(env, log.fileId);
    PrefixId(log, n);
    ScanGoesOn(env, log, n, genesis, FIRST_DATA_PAGE, head);
    ScanAdvances(env, Prefix(log, n), genesis, FIRST_DATA_PAGE);
    if head != genesis {
      PrefixReads(env, log, n, head.commitPage);
    }
    forall p | FIRST_DATA_PAGE <= p < head.nPages
      ensures ReadPage(log, p).Some?
    {
      ScanReadsEverything(env, Prefix(log, n), genesis, FIRST_DATA_PAGE, p);
      PrefixReads(env, log, n, p);
    }
  }

  lemma PrefixId(log: Log, n: nat)
    requires n <= |log.pages|
    ensures Prefix(log, n).fileId == log.fileId
  {
  }

  /** Scanning is stable under what lies beyond: an adopted head stays adopted in any log with the same beginning. */
  lemma AdoptedInAnyExtension(env: Env, a: Log, b: Log, head: Head, n: nat)
    requires WellFormed(a) && WellFormed(b) && Adopts(env, a, head) && a.fileId == b.fileId
    requires head.nPages <= FIRST_DATA_PAGE + n && n <= |a.pages| && n <= |b.pages| && a.pages[..n] == b.pages[..n]
    ensures Adopts(env, b, head)
  {
    var k := head.nPages - FIRST_DATA_PAGE;
    assert a.pages[..k] == a.pages[..n][..k] == b.pages[..k];
  }

  /** The scan from genesis adopts its own result. */
  lemma ScanResultIsAdopted(env: Env, log: Log)
    requires WellFormed(log)
    ensures Adopts(env, log, ScanAll(env, log))
  {
    hide Scan;
    var genesis := GenesisHead(env, log.fileId);
    ScanAdvances(env, log, genesis, FIRST_DATA_PAGE);
    var r := ScanAll(env, log);
    ScanOfPrefix(env, log, r.nPages - FIRST_DATA_PAGE, genesis, FIRST_DATA_PAGE);
  }

  lemma {:induction false} ScanOfPrefix(env: Env, log: Log, n: nat, head: Head, page: nat)
    requires WellFormed(log) && n <= |log.pages| && head.nPages <= page
    requires FIRST_DATA_PAGE <= page && Scan(env, log, head, page).nPages == FIRST_DATA_PAGE + n
    ensures Scan(env, Prefix(log, n), head, page) == Scan(env, log, head, page)
    decreases End(log) - page
  {
    hide Scan, SelfConsistent, HeaderAt, Prefix;
    var pre := Prefix(log, n);
    PrefixEnd(log, n);
    ScanUnfold(env, log, head, page);
    ScanUnfold(env, pre, head, page);
    ScanAdvances(env, log, head, page);
    if page < FIRST_DATA_PAGE + n && ReadPage(log, page).Some? {
      PrefixReads(env, log, n, page);
      var h := HeaderAt(env, log, page);
      if h.None? {
        ScanOfPrefix(env, log, n, head, page + 1);
      } else if Follows(env, head, h.value) {
        ScanOfPrefix(env, log, n, HeadFrom(h.value, page), page + 1);
      }
    } else if page < FIRST_DATA_PAGE + n {
      PrefixReads(env, log, n, page);
    } else {
      assert Scan(env, log, head, page) == head;
    }
  }

  /** A slot is harmless: unusable, or pointing at a commit the scan itself adopts. */
  ghost predicate Harmless(env: Env, log: Log, slot: MetaSlot)
    requires WellFormed(log)
  {
    || slot.lastCommitPage < FIRST_DATA_PAGE
    || TryHeadAt(env, log, slot.lastCommitPage).None?
    || exists head :: Adopts(env, log, head) && head.commitPage == slot.lastCommitPage
  }

  lemma {:induction false} HintIsRead(env: Env, log: Log, slots: seq<MetaSlot>)
    requires WellFormed(log)
    ensures var r := FirstHint(env, log, slots); r.Some? ==> TryHeadAt(env, log, r.value.commitPage) == r
  {
    hide SelfConsistent, HeaderAt;
    if slots != [] {
      HintIsRead(env, log, slots[1..]);
    }
  }

  /**
    A recovered head is the start of an empty history, or every field of it is the one that
    the commit page it names holds, and that page is the last of those it counts.
  */
  lemma RecoveredIsRead(env: Env, log: Log, slots: seq<MetaSlot>)
    requires WellFormed(log) && |slots| <= 2
    ensures var head := Recovered(env, log, slots);
      if head.commitPage == 0 then
        head == Head(0, 0, 0, 0, env.sha(MagicHeader() + log.fileId), 0, 3)
      else
        && 3 <= head.commitPage < 3 + |log.pages| && log.pages[head.commitPage - 3].Some?
        && var h := Decode(env, log.pages[head.commitPage - 3].value);
        && h.Some? && SelfConsistent(env, h.value)
        && head.version == h.value.version && head.dataRoot == h.value.dataRoot && head.metaRoot == h.value.metaRoot
        && head.chainHash == h.value.chainHash && head.nonceCounter == h.value.nonceCounter && head.nPages == head.commitPage + 1
  {
    hide Scan, SelfConsistent, Decode, NewestFirst;
    var genesis, hint := GenesisHead(env, log.fileId), FirstHint(env, log, NewestFirst(slots));
    HintIsRead(env, log, NewestFirst(slots));
    ScanAdvances(env, log, genesis, FIRST_DATA_PAGE);
    if hint.Some? {
      ScanAdvances(env, log, hint.value, hint.value.nPages);
    }
  }

  /** The meta slots are only hints: as long as they point into the intact chain, recovery does not depend on them. */
  lemma SlotsAreOnlyHints(env: Env, log: Log, slots: seq<MetaSlot>)
    requires WellFormed(log) && |slots| <= 2
    requires forall i :: 0 <= i < |slots| ==> Harmless(env, log, slots[i])
    ensures Recovered(env, log, slots) == ScanAll(env, log)
  {
    hide Scan, SelfConsistent, HeaderAt, Adopts, ScanAll;
    var sorted := NewestFirst(slots);
    forall i | 0 <= i < |sorted|
      ensures Harmless(env, log, sorted[i])
    {
      assert sorted[i] in multiset(sorted);
      assert sorted[i] in slots;
    }
    HintIsAdopted(env, log, sorted);
    var hint := FirstHint(env, log, sorted);
    if hint.Some? {
      ScanFromAdopted(env, log, hint.value);
    }
  }

  lemma {:induction false} HintIsAdopted(env: Env, log: Log, slots: seq<MetaSlot>)
    requires WellFormed(log)
    requires forall i :: 0 <= i < |slots| ==> Harmless(env, log, slots[i])
    ensures var r := FirstHint(env, log, slots); r.Some? ==> Adopts(env, log, r.value)
  {
    hide Scan, SelfConsistent, HeaderAt, Adopts;
    if slots != [] {
      var page := slots[0].lastCommitPage;
      assert Harmless(env, log, slots[0]);
      if page >= FIRST_DATA_PAGE && TryHeadAt(env, log, page).Some? {
        var head :| Adopts(env, log, head) && head.commitPage == page;
        ScanFromAdopted(env, log, head);
      } else {
        HintIsAdopted(env, log, slots[1..]);
      }
    }
  }

  // -------------------------------------------------------------- new commits

  /** Data pages never look like commit pages. */
  ghost predicate DataPages(env: Env, bodies: seq<ByteString>) {
    forall i :: 0 <= i < |bodies| ==> |bodies[i]| == BODY_SIZE && Decode(env, bodies[i]).None?
  }

  function Readable(bodies: seq<ByteString>): (r: seq<Option<ByteString>>)
    ensures |r| == |bodies| && forall i :: 0 <= i < |r| ==> r[i] == Some(bodies[i])
  {
    seq(|bodies|, i requires 0 <= i < |bodies| => Some(bodies[i]))
  }

  /** The log after a commit's pages are written behind the head. */
  function WithCommit(log: Log, bodies: seq<ByteString>, h: Header): (r: Log)
    requires |h.branch| <= BRANCH_MAX
  {
    Log(log.fileId, log.pages + Readable(bodies) + [Some(Encode(h))])
  }

  /** A commit written behind an adopted head is adopted in its turn. */
  lemma CommitIsAdopted(env: Env, log: Log, head: Head, bodies: seq<ByteString>, h: Header)
    requires WellFormed(log) && Adopts(env, log, head) && head.nPages == End(log)
    requires DataPages(env, bodies) && BranchFits(env, h.branch) && Follows(env, head, h)
    ensures WellFormed(WithCommit(log, bodies, h))
    ensures Adopts(env, WithCommit(log, bodies, h), HeadFrom(h, End(log) + |bodies|))
    ensures Adopts(env, WithCommit(log, bodies, h), head)
  {
    hide Scan, SelfConsistent, HeaderAt, Decode, Encode;
    var next := WithCommit(log, bodies, h);
    var n := |log.pages|;
    assert next.pages[..n] == log.pages == log.pages[..n];
    AdoptedInAnyExtension(env, log, next, head, n);
    ScanFromAdopted(env, next, head);
    HeaderRoundTrip(env, h);
    ScanSkipsData(env, next, head, bodies, 0, n);
    var page := End(log) + |bodies|;
    assert ReadPage(next, page) == Some(Encode(h));
    assert HeaderAt(env, next, page) == Some(h) by {
      HeaderAtIs(env, next, page);
    }
    ScanUnfold(env, next, head, page);
    ScanUnfold(env, next, HeadFrom(h, page), page + 1);
    ScanResultIsAdopted(env, next);
  }

  lemma HeaderAtIs(env: Env, log: Log, page: nat)
    requires WellFormed(log) && ReadPage(log, page).Some?
    ensures HeaderAt(env, log, page) == Decode(env, ReadPage(log, page).value)
  {
  }

  lemma {:induction false} ScanSkipsData(env: Env, log: Log, head: Head, bodies: seq<ByteString>, i: nat, n: nat)
    requires WellFormed(log) && DataPages(env, bodies) && i <= |bodies| && n + |bodies| <= |log.pages|
    requires log.pages[n..n + |bodies|] == Readable(bodies)
    ensures Scan(env, log, head, FIRST_DATA_PAGE + n + i) == Scan(env, log, head, FIRST_DATA_PAGE + n + |bodies|)
    decreases |bodies| - i
  {
    hide Scan, SelfConsistent, HeaderAt, Decode;
    if i < |bodies| {
      var page := FIRST_DATA_PAGE + n + i;
      assert log.pages[n + i] == log.pages[n..n + |bodies|][i] == Some(bodies[i]);
      HeaderAtIs(env, log, page);
      ScanUnfold(env, log, head, page);
      ScanSkipsData(env, log, head, bodies, i + 1, n);
    }
  }
}
