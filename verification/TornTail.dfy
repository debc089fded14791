/**
  What a torn tail can do (`truncate_to_head` of `src/pager.rs` only moves the write
  offset, and `recover` of `src/commit.rs` never looks at the content hash): exactly when
  recovery goes on past the head that was known, over the bytes of the file.
*/
module TornTail {
  import opened Options
  import opened Bytes
  import opened LittleEndian
  import opened Commit
  import opened Records
  import opened Recovery
  import opened AuditedWriting
  import opened Pager
  import opened CrashSafety

  // ------------------------------------------------------------- in the log

  /** The page reads, and is no commit page. */
  predicate DataAt(env: Env, log: Log, page: nat)
    requires WellFormed(log)
  {
    ReadPage(log, page).Some? && HeaderAt(env, log, page).None?
  }

  predicate DataBetween(env: Env, log: Log, page: nat, end: nat)
    requires WellFormed(log)
  {
    forall p :: page <= p < end ==> DataAt(env, log, p)
  }

  /** Page q is the first commit page from `page` on, everything before it reads, and it follows the head. */
  predicate NextCommit(env: Env, log: Log, head: Head, page: nat, q: nat)
    requires WellFormed(log)
  {
    && page <= q && DataBetween(env, log, page, q)
    && HeaderAt(env, log, q).Some? && Follows(env, head, HeaderAt(env, log, q).value)
  }

  ghost predicate MovesOn(env: Env, log: Log, head: Head, page: nat)
    requires WellFormed(log)
  {
    exists q: nat :: NextCommit(env, log, head, page, q)
  }

  /** A scan goes on past its head exactly when such a page exists. */
  lemma {:induction false} ScanMovesExactly(env: Env, log: Log, head: Head, page: nat)
    requires WellFormed(log) && FIRST_DATA_PAGE <= page && head.nPages <= page
    ensures Scan(env, log, head, page) != head <==> MovesOn(env, log, head, page)
    decreases End(log) - page
  {
    hide Scan, HeaderAt, SelfConsistent, Follows, MovesOn;
    ScanUnfold(env, log, head, page);
    MovesOnSteps(env, log, head, page);
    if page < End(log) && ReadPage(log, page).Some? {
      var h := HeaderAt(env, log, page);
      if h.None? {
        ScanMovesExactly(env, log, head, page + 1);
      } else if Follows(env, head, h.value) {
        ScanAdvances(env, log, HeadFrom(h.value, page), page + 1);
      }
    }
  }

  lemma MovesOnSteps(env: Env, log: Log, head: Head, page: nat)
    requires WellFormed(log) && FIRST_DATA_PAGE <= page
    ensures page >= End(log) || ReadPage(log, page).None? ==> !MovesOn(env, log, head, page)
    ensures DataAt(env, log, page) ==> (MovesOn(env, log, head, page) <==> MovesOn(env, log, head, page + 1))
    ensures HeaderAt(env, log, page).Some? ==> (MovesOn(env, log, head, page) <==> Follows(env, head, HeaderAt(env, log, page).value))
  {
    hide Follows, Decode;
    if q: nat :| NextCommit(env, log, head, page, q) {
      assert q > page ==> DataAt(env, log, page);
      assert q > page ==> NextCommit(env, log, head, page + 1, q);
    }
    if DataAt(env, log, page) {
      var after := page + 1;
      if q: nat :| NextCommit(env, log, head, after, q) {
        assert NextCommit(env, log, head, page, q);
      }
    }
    if HeaderAt(env, log, page).Some? && Follows(env, head, HeaderAt(env, log, page).value) {
      assert NextCommit(env, log, head, page, page);
    }
  }

  /** Data pages in front change nothing. */
  lemma {:induction false} MovesOnPastData(env: Env, log: Log, head: Head, page: nat, end: nat)
    requires WellFormed(log) && FIRST_DATA_PAGE <= page <= end && DataBetween(env, log, page, end)
    ensures MovesOn(env, log, head, page) <==> MovesOn(env, log, head, end)
    decreases end - page
  {
    hide MovesOn, HeaderAt;
    if page < end {
      assert DataAt(env, log, page);
      MovesOnSteps(env, log, head, page);
      MovesOnPastData(env, log, head, page + 1, end);
    }
  }

  // ------------------------------------------------------------ in the file

  /** The header in a record, opened as page `id`. */
  ghost function HeaderIn(sys: System, rec: ByteString, id: nat): (h: Option<Header>)
    requires ValidSystem(sys) && IsRecord(sys.cfg.nsym, rec)
    ensures h.Some? ==> |h.value.branch| <= BRANCH_MAX
  {
    var body := PageIn(sys.cfg, rec, id);
    if body.None? then None else Decode(sys.env, body.value)
  }

  /** Record i of a tail whose first record is page `first` opens, as a data page. */
  ghost predicate DataRecord(sys: System, tail: seq<ByteString>, first: nat, i: nat)
    requires ValidSystem(sys) && AreRecords(sys.cfg.nsym, tail) && i < |tail|
  {
    PageIn(sys.cfg, tail[i], first + i).Some? && HeaderIn(sys, tail[i], first + i).None?
  }

  /** Records 0..k open as data pages, and record k as a self-consistent commit page following the head. */
  ghost predicate TailFollowsAt(sys: System, head: Head, tail: seq<ByteString>, first: nat, k: nat)
    requires ValidSystem(sys) && AreRecords(sys.cfg.nsym, tail)
  {
    && k < |tail| && (forall i :: 0 <= i < k ==> DataRecord(sys, tail, first, i))
    && HeaderIn(sys, tail[k], first + k).Some? && Follows(sys.env, head, HeaderIn(sys, tail[k], first + k).value)
  }

  ghost predicate TailFollows(sys: System, head: Head, tail: seq<ByteString>, first: nat)
    requires ValidSystem(sys) && AreRecords(sys.cfg.nsym, tail)
  {
    exists k: nat :: TailFollowsAt(sys, head, tail, first, k)
  }

  /** What lies in the file behind the log and the records just written. */
  function TailOf(file: ByteString, recs: seq<ByteString>): (tail: ByteString)
    requires Joined(recs) <= file
  {
    file[|Joined(recs)|..]
  }

  /** The header at a page of the swept log is the one in its record. */
  lemma SweptHeader(sys: System, all: seq<ByteString>, i: nat)
    requires ValidSystem(sys) && AreRecords(sys.cfg.nsym, all) && i < |all|
    ensures var log := LogOf(sys, all); var p := FIRST_DATA_PAGE + i;
      ReadPage(log, p) == PageIn(sys.cfg, all[i], p) && HeaderAt(sys.env, log, p) == HeaderIn(sys, all[i], p)
  {
    hide PageIn, IsRecord, Decode;
  }

  /** Data pages hold no header. */
  lemma DataHasNoHeader(sys: System, written: seq<ByteString>, first: nat, bodies: seq<ByteString>, i: nat)
    requires ValidSystem(sys) && ArePages(sys.cfg, written, first, bodies) && DataPages(sys.env, bodies) && i < |written|
    ensures IsRecord(sys.cfg.nsym, written[i]) && PageIn(sys.cfg, written[i], first + i).Some?
    ensures HeaderIn(sys, written[i], first + i).None?
  {
    hide PageIn, IsRecord, Decode;
    PageIsRecord(sys.cfg, written[i], first + i, bodies[i]);
  }

  /** The log's pages behind its front are what its tail's records open as. */
  lemma TailIsSwept(sys: System, front: seq<ByteString>, tail: seq<ByteString>, i: nat)
    requires ValidSystem(sys) && AreRecords(sys.cfg.nsym, front + tail) && AreRecords(sys.cfg.nsym, tail) && i < |tail|
    ensures var log := LogOf(sys, front + tail); var first := FIRST_DATA_PAGE + |front|;
      && HeaderAt(sys.env, log, first + i) == HeaderIn(sys, tail[i], first + i)
      && (DataAt(sys.env, log, first + i) <==> DataRecord(sys, tail, first, i))
  {
    hide PageIn, IsRecord, HeaderAt, HeaderIn, ReadPage, PagesOf;
    SweptHeader(sys, front + tail, |front| + i);
    assert (front + tail)[|front| + i] == tail[i];
  }

  /** From the end of its front on, the log moves on exactly when its tail follows. */
  lemma MovesOnInTail(sys: System, front: seq<ByteString>, tail: seq<ByteString>, head: Head)
    requires ValidSystem(sys) && AreRecords(sys.cfg.nsym, front + tail) && AreRecords(sys.cfg.nsym, tail)
    ensures MovesOn(sys.env, LogOf(sys, front + tail), head, FIRST_DATA_PAGE + |front|) <==>
      TailFollows(sys, head, tail, FIRST_DATA_PAGE + |front|)
  {
    hide PageIn, IsRecord, HeaderAt, HeaderIn, Follows, ReadPage, PagesOf, DataAt, DataRecord;
    var log, first := LogOf(sys, front + tail), FIRST_DATA_PAGE + |front|;
    if q: nat :| NextCommit(sys.env, log, head, first, q) {
      var k := q - first;
      HeaderInside(sys.env, log, q);
      TailIsSwept(sys, front, tail, k);
      forall i | 0 <= i < k
        ensures DataRecord(sys, tail, first, i)
      {
        TailIsSwept(sys, front, tail, i);
        assert DataAt(sys.env, log, first + i);
      }
      assert TailFollowsAt(sys, head, tail, first, k);
    }
    if k: nat :| TailFollowsAt(sys, head, tail, first, k) {
      TailIsSwept(sys, front, tail, k);
      forall p | first <= p < first + k
        ensures DataAt(sys.env, log, p)
      {
        TailIsSwept(sys, front, tail, p - first);
        assert DataRecord(sys, tail, first, p - first);
      }
      assert NextCommit(sys.env, log, head, first, first + k);
    }
  }

  /**
    A transaction has written data records behind the log, and no commit page; the file
    is then opened.  Recovery adopts a commit all the same, one that the transaction did
    not write, exactly when the bytes behind those records parse and open as such.
  */
  lemma AdoptsStaleExactly(sys: System, file: ByteString, recs: seq<ByteString>, head: Head,
                           written: seq<ByteString>, bodies: seq<ByteString>, slots: seq<MetaSlot>)
    requires ValidSystem(sys) && |slots| <= 2 && LogAt(sys, file, recs, head)
    requires ArePages(sys.cfg, written, head.nPages, bodies) && DataPages(sys.env, bodies)
    requires forall i :: 0 <= i < |slots| ==> HintOk(sys, LogOf(sys, recs), slots[i])
    ensures AreRecords(sys.cfg.nsym, recs + written)
    ensures var after := Applied(file, WritesOf(written, |Joined(recs)|));
      && Joined(recs + written) <= after
      && var tail := Swept(sys.cfg.nsym, TailOf(after, recs + written));
        && AreRecords(sys.cfg.nsym, tail) && Swept(sys.cfg.nsym, after) == recs + written + tail
        && (Recovered(sys.env, SweptLog(sys, after), slots) != head <==> TailFollows(sys, head, tail, head.nPages + |written|))
  {
    hide PagesOf, IsRecord, Swept, Applied, WritesOf, Joined, Scan, HeaderAt, IsPage, TailFollows, Adopts, HintOk, Recovered;
    hide MovesOn, SelfConsistent, DataAt;
    var after := Applied(file, WritesOf(written, |Joined(recs)|));
    PagesAreRecords(sys, recs, written, head.nPages, bodies);
    WritesExtendLog(file, Joined(recs), written);
    JoinedConcat(recs, written);
    var rest := TailOf(after, recs + written);
    assert after == Joined(recs + written) + rest;
    SweepFindsRecords(sys.cfg.nsym, recs + written, rest);
    var tail := Swept(sys.cfg.nsym, rest);
    SweptAreRecords(sys.cfg.nsym, rest);
    SweptAreRecords(sys.cfg.nsym, after);
    var log := SweptLog(sys, after);
    assert log == LogOf(sys, recs + written + tail);
    assert recs + (written + tail) == recs + written + tail;
    StillTheHead(sys, recs, written + tail, head, slots);
    WrittenIsData(sys, recs, written, bodies, tail);
    ScanMovesExactly(sys.env, log, head, head.nPages);
    MovesOnPastData(sys.env, log, head, head.nPages, head.nPages + |written|);
    MovesOnInTail(sys, recs + written, tail, head);
  }

  lemma WrittenIsData(sys: System, recs: seq<ByteString>, written: seq<ByteString>, bodies: seq<ByteString>, tail: seq<ByteString>)
    requires ValidSystem(sys) && AreRecords(sys.cfg.nsym, recs + written + tail)
    requires ArePages(sys.cfg, written, FIRST_DATA_PAGE + |recs|, bodies) && DataPages(sys.env, bodies)
    ensures var first := FIRST_DATA_PAGE + |recs|;
      DataBetween(sys.env, LogOf(sys, recs + written + tail), first, first + |written|)
  {
    hide PagesOf, IsRecord, HeaderAt, IsPage, ReadPage, HeaderIn;
    var log, first := LogOf(sys, recs + written + tail), FIRST_DATA_PAGE + |recs|;
    forall p | first <= p < first + |written|
      ensures DataAt(sys.env, log, p)
    {
      var i := p - first;
      DataHasNoHeader(sys, written, first, bodies, i);
      SweptHeader(sys, recs + written + tail, |recs| + i);
      assert (recs + written + tail)[|recs| + i] == written[i];
    }
  }

  lemma PagesAreRecords(sys: System, recs: seq<ByteString>, written: seq<ByteString>, first: nat, bodies: seq<ByteString>)
    requires ValidSystem(sys) && AreRecords(sys.cfg.nsym, recs) && ArePages(sys.cfg, written, first, bodies)
    ensures AreRecords(sys.cfg.nsym, recs + written)
  {
    hide IsPage, IsRecord;
    forall i | 0 <= i < |written|
      ensures IsRecord(sys.cfg.nsym, written[i])
    {
      PageIsRecord(sys.cfg, written[i], first + i, bodies[i]);
    }
  }

  /** Whatever follows it, recovery comes to the head and scans on from there. */
  lemma StillTheHead(sys: System, recs: seq<ByteString>, more: seq<ByteString>, head: Head, slots: seq<MetaSlot>)
    requires ValidSystem(sys) && |slots| <= 2 && AreRecords(sys.cfg.nsym, recs) && AreRecords(sys.cfg.nsym, recs + more)
    requires FIRST_DATA_PAGE + |recs| == head.nPages && Adopts(sys.env, LogOf(sys, recs), head)
    requires forall i :: 0 <= i < |slots| ==> HintOk(sys, LogOf(sys, recs), slots[i])
    ensures var log := LogOf(sys, recs + more);
      Recovered(sys.env, log, slots) == Scan(sys.env, log, head, head.nPages)
  {
    hide PagesOf, IsRecord, Scan, Adopts, HintOk, Recovered;
    LogExtends(sys, recs, recs + more);
    var a, log := LogOf(sys, recs), LogOf(sys, recs + more);
    AdoptedInExtension(sys.env, a, log, head);
    forall i | 0 <= i < |slots|
      ensures Harmless(sys.env, log, slots[i])
    {
      HintsExtend(sys, a, log, slots[i]);
      HintIsHarmless(sys, log, slots[i]);
    }
    SlotsAreOnlyHints(sys.env, log, slots);
    ScanFromAdopted(sys.env, log, head);
  }

  lemma HintIsHarmless(sys: System, log: Log, m: MetaSlot)
    requires WellFormed(log) && HintOk(sys, log, m)
    ensures Harmless(sys.env, log, m)
  {
    hide Adopts, TryHeadAt;
  }
}
