/**
  The commit layer over a pager: recovery on open, the full audit, and writing commits
  (`src/commit.rs`, and the commit writer and `open` of `src/tx.rs`).
*/
module Store {
  import opened Options
  import opened Bytes
  import opened Commit
  import opened Records
  import opened Recovery
  import opened RecoveredAudit
  import opened Pager

  /** The pager's pages as a log. */
  ghost function LogOf(fileId: ByteString, pager: Pager): (log: Log)
    requires pager.Valid()
    reads pager, pager.cache
    ensures |fileId| == 16 ==> WellFormed(log)
  {
    hide PageIn, IsRecord;
    Log(fileId, pager.Pages())
  }

  method ReadHeader(env: Env, pager: Pager, page: nat, ghost fileId: ByteString) returns (r: Option<Header>, readable: bool)
    requires pager.Valid() && |fileId| == 16
    modifies pager.cache
    ensures pager.Valid() && readable == Commit.ReadPage(LogOf(fileId, pager), page).Some?
    ensures r == HeaderAt(env, LogOf(fileId, pager), page)
    ensures r.Some? ==> readable
  {
    hide PageIn, IsRecord, Decode;
    var body := pager.ReadPage(page);
    readable := body.Some?;
    r := None;
    if body.Some? {
      r := Decode(env, body.value);
    }
  }

  // ----------------------------------------------------------------- audit

  /** The reading half of the audit: commits from head back to genesis, then reversed. */
  method CollectLinks(env: Env, pager: Pager, head: Head, ghost fileId: ByteString) returns (r: Verdict<seq<Link>>)
    requires pager.Valid() && |fileId| == 16 && Descending(env, LogOf(fileId, pager))
    modifies pager.cache
    ensures pager.Valid()
    ensures r.Ok? ==> Walk(env, LogOf(fileId, pager), head.commitPage) == Some(r.value)
    ensures r.Broken? ==> Walk(env, LogOf(fileId, pager), head.commitPage).None? && r.reason == UnreadableCommit
    ensures r.Broken? ==> r.at == SaturatingSub(head.version, WalkDepth(env, LogOf(fileId, pager), head.commitPage))
  {
    hide PageIn, IsRecord, HeaderAt;
    ghost var log := LogOf(fileId, pager);
    var links: seq<Link> := [];
    AppendNothing(Walk(env, log, head.commitPage));
    var page: nat := head.commitPage;
    while page != 0
      invariant pager.Valid() && LogOf(fileId, pager) == log
      invariant Walk(env, log, head.commitPage) == Append(Walk(env, log, page), links)
      invariant WalkDepth(env, log, head.commitPage) == |links| + WalkDepth(env, log, page)
      decreases page
    {
      var h, _ := ReadHeader(env, pager, page, fileId);
      if h.None? {
        return Broken(SaturatingSub(head.version, |links|), UnreadableCommit);
      }
      AppendStep(Walk(env, log, h.value.prevPage), Link(page, h.value), links);
      links := [Link(page, h.value)] + links;
      page := h.value.prevPage;
    }
    assert [] + links == links;
    return Ok(links);
  }

  method HashBodies(env: Env, pager: Pager, start: nat, n: nat, ghost fileId: ByteString) returns (r: Option<Digest>)
    requires pager.Valid() && |fileId| == 16
    modifies pager.cache
    ensures pager.Valid()
    ensures r == (var b := Bodies(LogOf(fileId, pager), start, n); if b.None? then None else Some(env.sha(b.value)))
  {
    hide PageIn, IsRecord;
    ghost var log := LogOf(fileId, pager);
    var input: ByteString := [];
    var i := 0;
    while i < n
      invariant i <= n && pager.Valid() && LogOf(fileId, pager) == log
      invariant Bodies(log, start, i) == Some(input)
    {
      var body := pager.ReadPage(start + i);
      assert body == Commit.ReadPage(log, start + i);
      if body.None? {
        BodiesUnreadable(log, start, i, n);
        return None;
      }
      input := input + body.value;
      i := i + 1;
    }
    return Some(env.sha(input));
  }

  /** The checks of one commit, in the source's order. */
  method CheckLink(env: Env, pager: Pager, link: Link, prevChain: Digest, expected: nat, anchor: Option<Anchor>, ghost fileId: ByteString)
    returns (fault: Option<Reason>)
    requires pager.Valid() && |fileId| == 16 && |link.header.branch| <= BRANCH_MAX
    modifies pager.cache
    ensures pager.Valid()
    ensures fault == Fault(env, LogOf(fileId, pager), link, prevChain, expected, anchor)
  {
    hide PageIn, IsRecord, Bodies, SelfConsistent;
    var h := link.header;
    if h.version != expected {
      return Some(OutOfSequence);
    }
    var count := DataCount(h);
    if link.page < count {
      return Some(BadPageCount);
    }
    var content := HashBodies(env, pager, link.page - count, count, fileId);
    if content.None? {
      return Some(UnreadableData);
    }
    if content.value != h.contentHash {
      return Some(ContentMismatch);
    }
    if h.prevChain != prevChain {
      return Some(Unlinked);
    }
    if !SelfConsistent(env, h) {
      return Some(Inconsistent);
    }
    if anchor.Some? && h.version == anchor.value.version && h.chainHash != anchor.value.chainHash {
      return Some(Rewritten);
    }
    return None;
  }

  /** The full audit: its answer in every case, and that it passes exactly when the whole history does. */
  method VerifyAnchored(env: Env, pager: Pager, fileId: ByteString, head: Head, anchor: Option<Anchor>) returns (r: Verdict<Report>)
    requires pager.Valid() && |fileId| == 16 && Descending(env, LogOf(fileId, pager))
    modifies pager.cache
    ensures pager.Valid() && LogOf(fileId, pager) == old(LogOf(fileId, pager))
    ensures r == AuditVerdict(env, LogOf(fileId, pager), head, anchor)
    ensures r.Ok? <==> exists links :: Audited(env, LogOf(fileId, pager), head, links, anchor)
  {
    hide PageIn, IsRecord, Walk, HeaderAt, Audited, FirstFault, Descending, WellFormed, WalkDepth, AuditVerdict, BranchesFit, WholeVerdict, Seen;
    ghost var log := LogOf(fileId, pager);
    PassesExactlyWhenAudited(env, log, head, anchor);
    AuditVerdictIs(env, log, head, anchor);
    var collected := CollectLinks(env, pager, head, fileId);
    if collected.Broken? {
      return Broken(collected.at, collected.reason);
    }
    var links := collected.value;
    var checked := CheckLinks(env, pager, links, anchor, fileId);
    if checked.Broken? {
      return Broken(checked.at, checked.reason);
    }
    r := CheckWhole(env, fileId, head, links, anchor, checked.value, log);
  }

  /** The checks on the history as a whole. */
  method CheckWhole(env: Env, fileId: ByteString, head: Head, links: seq<Link>, anchor: Option<Anchor>, anchorSeen: bool, ghost log: Log)
    returns (r: Verdict<Report>)
    requires log.fileId == fileId && (anchorSeen <==> Seen(links, |links|, anchor))
    ensures r == WholeVerdict(env, log, head, links, anchor)
  {
    if FirstVersion(links) + |links| != head.version {
      return Broken(FirstVersion(links) + |links|, HeadNotReached);
    }
    if (if links == [] then GenesisChain(env, fileId) else links[|links| - 1].header.chainHash) != head.chainHash {
      return Broken(head.version, HeadMismatch);
    }
    if anchor.Some? && !anchorSeen {
      return if anchor.value.version > head.version then Broken(head.version, MissingCommits)
        else Broken(anchor.value.version, CompactedAway);
    }
    return Ok(Report(head.version, |links|, head.chainHash));
  }

  /** The commits one after the other, from genesis, and whether the anchored one was among them. */
  method CheckLinks(env: Env, pager: Pager, links: seq<Link>, anchor: Option<Anchor>, fileId: ByteString) returns (r: Verdict<bool>)
    requires pager.Valid() && |fileId| == 16 && BranchesFit(env, links)
    modifies pager.cache
    ensures pager.Valid() && LogOf(fileId, pager) == old(LogOf(fileId, pager))
    ensures r == match FirstFault(env, LogOf(fileId, pager), links, 0, anchor)
      case Some(f) => Broken(f.0, f.1)
      case None => Ok(Seen(links, |links|, anchor))
  {
    hide PageIn, IsRecord, Fault, WellFormed, FirstFault;
    ghost var log := LogOf(fileId, pager);
    var expected: nat, prevChain := FirstVersion(links), GenesisChain(env, fileId);
    var anchorSeen := false;
    var k := 0;
    while k < |links|
      invariant k <= |links| && expected == FirstVersion(links) + k && pager.Valid() && LogOf(fileId, pager) == log
      invariant prevChain == ChainBefore(env, log, links, k)
      invariant FirstFault(env, log, links, 0, anchor) == FirstFault(env, log, links, k, anchor)
      invariant anchorSeen <==> Seen(links, k, anchor)
    {
      var link := links[k];
      var h := link.header;
      expected := expected + 1;
      FirstFaultUnfold(env, log, links, k, anchor);
      var fault := CheckLink(env, pager, link, prevChain, expected, anchor, fileId);
      if fault.Some? {
        return Broken(h.version, fault.value);
      }
      if anchor.Some? && h.version == anchor.value.version {
        anchorSeen := true;
      }
      prevChain := h.chainHash;
      k := k + 1;
    }
    NoneLeft(env, log, links, anchor);
    return Ok(anchorSeen);
  }

  // -------------------------------------------------------------- recovery

  /** The head the first usable slot points to, or genesis. */
  method StartHead(env: Env, pager: Pager, fileId: ByteString, sorted: seq<MetaSlot>) returns (head: Head)
    requires pager.Valid() && |fileId| == 16
    modifies pager.cache
    ensures pager.Valid()
    ensures var hint := FirstHint(env, LogOf(fileId, pager), sorted);
      head == if hint.Some? then hint.value else GenesisHead(env, fileId)
  {
    hide PageIn, IsRecord, HeaderAt, SelfConsistent;
    ghost var log := LogOf(fileId, pager);
    var i := 0;
    while i < |sorted|
      invariant i <= |sorted| && pager.Valid() && LogOf(fileId, pager) == log
      invariant FirstHint(env, log, sorted) == FirstHint(env, log, sorted[i..])
    {
      assert sorted[i..][1..] == sorted[i + 1..];
      var page := sorted[i].lastCommitPage;
      if page >= FIRST_DATA_PAGE {
        var h, _ := ReadHeader(env, pager, page, fileId);
        if h.Some? && SelfConsistent(env, h.value) {
          return HeadFrom(h.value, page);
        }
      }
      i := i + 1;
    }
    return GenesisHead(env, fileId);
  }

  method Recover(env: Env, pager: Pager, fileId: ByteString, slots: seq<MetaSlot>) returns (head: Head)
    requires pager.Valid() && |fileId| == 16 && |slots| <= 2
    modifies pager.cache
    ensures pager.Valid() && LogOf(fileId, pager) == old(LogOf(fileId, pager))
    ensures head == Recovered(env, LogOf(fileId, pager), slots)
    ensures head.commitPage == 0 ==> head == Head(0, 0, 0, 0, env.sha(MagicHeader() + fileId), 0, 3)
    ensures head.commitPage != 0 ==>
      && 3 <= head.commitPage < 3 + |pager.Pages()| && pager.Pages()[head.commitPage - 3].Some?
      && var body := pager.Pages()[head.commitPage - 3].value;
      && |body| == BODY_SIZE && Decode(env, body).Some?
      && var h := Decode(env, body).value;
      && SelfConsistent(env, h) && head.version == h.version && head.dataRoot == h.dataRoot && head.metaRoot == h.metaRoot
      && head.chainHash == h.chainHash && head.nonceCounter == h.nonceCounter && head.nPages == head.commitPage + 1
  {
    hide PageIn, IsRecord, HeaderAt, SelfConsistent, Scan, FirstHint, Decode;
    ghost var log := LogOf(fileId, pager);
    RecoveredIsRead(env, log, slots);
    head := StartHead(env, pager, fileId, NewestFirst(slots));
    ghost var start := head;
    var page := head.nPages;
    while page < pager.nextPage
      invariant FIRST_DATA_PAGE <= page && pager.Valid() && LogOf(fileId, pager) == log
      invariant Scan(env, log, start, start.nPages) == Scan(env, log, head, page)
      decreases End(log) - page
    {
      ScanUnfold(env, log, head, page);
      var h, readable := ReadHeader(env, pager, page, fileId);
      if !readable {
        break;
      }
      if h.Some? {
        var chained := h.value.version == head.version + 1 && h.value.prevChain == head.chainHash;
        var checkpointStart := head.commitPage == 0 && IsCheckpoint(h.value) && h.value.prevChain == head.chainHash;
        if (chained || checkpointStart) && SelfConsistent(env, h.value) {
          head := HeadFrom(h.value, page);
        } else {
          break;
        }
      }
      page := page + 1;
    }
    ScanUnfold(env, log, head, page);
  }

  lemma RecoveredIsInside(env: Env, log: Log, slots: seq<MetaSlot>)
    requires WellFormed(log) && |slots| <= 2
    ensures FIRST_DATA_PAGE <= Recovered(env, log, slots).nPages <= End(log)
  {
    hide Scan, HeaderAt, SelfConsistent;
    var sorted := NewestFirst(slots);
    HintIsInside(env, log, sorted);
    var hint := FirstHint(env, log, sorted);
    var start := if hint.Some? then hint.value else GenesisHead(env, log.fileId);
    ScanAdvances(env, log, start, start.nPages);
  }

  lemma {:induction false} HintIsInside(env: Env, log: Log, slots: seq<MetaSlot>)
    requires WellFormed(log)
    ensures var r := FirstHint(env, log, slots); r.Some? ==> r.value.nPages <= End(log)
  {
    if slots != [] {
      HintIsInside(env, log, slots[1..]);
    }
  }

  // -------------------------------------------- recovery, then the audit

  /**
    `recover` and then `verify`: on a log of commits that were built behind one another,
    the audit passes exactly when every adopted commit has the data pages it was written
    with, whichever meta slot recovery started from.
  */
  method RecoverAndVerify(env: Env, pager: Pager, fileId: ByteString, slots: seq<MetaSlot>,
                          ghost links: seq<Link>, ghost contents: seq<seq<ByteString>>)
    returns (head: Head, r: Verdict<Report>)
    requires pager.Valid() && |fileId| == 16 && |slots| <= 2 && Descending(env, LogOf(fileId, pager))
    requires forall i :: 0 <= i < |slots| ==> Harmless(env, LogOf(fileId, pager), slots[i])
    requires IsHistory(env, LogOf(fileId, pager), links, contents)
    requires HeadBefore(env, LogOf(fileId, pager), links, |links|) == ScanAll(env, LogOf(fileId, pager))
    modifies pager.cache
    ensures pager.Valid() && LogOf(fileId, pager) == old(LogOf(fileId, pager))
    ensures head == HeadBefore(env, LogOf(fileId, pager), links, |links|) && |links| == |contents|
    ensures r.Ok? <==> AllAsWritten(LogOf(fileId, pager), links, contents)
    ensures r.Broken? ==> exists k: nat :: Blames(LogOf(fileId, pager), links, contents, k, r.at, r.reason)
  {
    hide PageIn, IsRecord, IsHistory, AllAsWritten, Blames, Descending, Harmless, HeaderAt, Scan, Audited, Recovered;
    ghost var log := LogOf(fileId, pager);
    SlotsAreOnlyHints(env, log, slots);
    head := Recover(env, pager, fileId, slots);
    r := VerifyAnchored(env, pager, fileId, head, None);
    AuditDecidesContents(env, log, links, contents);
  }
}
