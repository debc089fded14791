/**
  Crash safety of the log: a state machine over the file's durable bytes, the writes not
  yet synced, and the process.  A power loss keeps any bytes of any subset of the
  unsynced writes; a stale tail that still parses as records stays in the file.
*/
module CrashSafety {
  import opened Options
  import opened Bytes
  import opened LittleEndian
  import opened Commit
  import opened Records
  import opened Recovery
  import opened AuditedWriting
  import opened Pager

  datatype System = System(env: Env, cfg: Config, fileId: ByteString, encrypted: bool)

  ghost predicate ValidSystem(sys: System) {
    ValidConfig(sys.cfg) && |sys.fileId| == 16
  }

  /** A write that the operating system has, and the disk may or may not have. */
  datatype Write = Write(offset: nat, bytes: ByteString)

  /** What the process knows: its head, and the records up to it. */
  datatype Writer = Writer(head: Head, recs: seq<ByteString>)

  /**
    `base` and `synced` are the log at the last completed sync; `live` is every page
    whose record the file may hold; `clean` says that nothing but the writer's own
    records was in the file when it was opened, and nothing else has been written since.
  */
  datatype State = State(
    durable: ByteString, pending: seq<Write>,
    slots: seq<Option<MetaSlot>>, pendingSlot: Option<MetaSlot>,
    alive: bool, writer: Writer,
    synced: Head, base: seq<ByteString>, live: set<(nat, ByteString)>, clean: bool)

  // ---------------------------------------------------------------- the file

  function Put(file: ByteString, w: Write): (r: ByteString)
    ensures |r| >= |file|
  {
    if w.offset <= |file| then WriteAt(file, w.offset, w.bytes)
    else WriteAt(file + Zeros(w.offset - |file|), w.offset, w.bytes)
  }

  /** The file as the operating system shows it. */
  function Applied(file: ByteString, writes: seq<Write>): (r: ByteString)
    ensures |r| >= |file|
  {
    if writes == [] then file else Put(Applied(file, writes[..|writes| - 1]), writes[|writes| - 1])
  }

  function View(s: State): (r: ByteString) {
    Applied(s.durable, s.pending)
  }

  predicate Covers(w: Write, i: nat) {
    w.offset <= i < w.offset + |w.bytes|
  }

  predicate WroteByte(w: Write, i: nat, b: Byte) {
    Covers(w, i) && w.bytes[i - w.offset] == b
  }

  /** Byte i after a power loss: as it was, a hole, or as some unsynced write left it. */
  ghost predicate ByteMaySurvive(durable: ByteString, pending: seq<Write>, i: nat, b: Byte) {
    || (if i < |durable| then b == durable[i] else b == 0)
    || exists k :: 0 <= k < |pending| && WroteByte(pending[k], i, b)
  }

  ghost predicate IsImage(durable: ByteString, pending: seq<Write>, image: ByteString) {
    && |durable| <= |image|
    && forall i :: 0 <= i < |image| ==> ByteMaySurvive(durable, pending, i, image[i])
  }

  ghost predicate WritesBehind(writes: seq<Write>, n: nat) {
    forall k :: 0 <= k < |writes| ==> n <= writes[k].offset
  }

  /** Nothing below the unsynced writes changes. */
  lemma ImageKeepsPrefix(durable: ByteString, pending: seq<Write>, image: ByteString, p: ByteString)
    requires IsImage(durable, pending, image) && WritesBehind(pending, |p|) && p <= durable
    ensures p <= image
  {
    forall i | 0 <= i < |p|
      ensures p[i] == image[i]
    {
      assert ByteMaySurvive(durable, pending, i, image[i]);
    }
  }

  /** A part of a write, in its place. */
  predicate IsPart(w: Write, whole: Write) {
    && whole.offset <= w.offset && w.offset - whole.offset + |w.bytes| <= |whole.bytes|
    && forall i :: 0 <= i < |w.bytes| ==> w.bytes[i] == whole.bytes[w.offset - whole.offset + i]
  }

  predicate PartOfSome(w: Write, pending: seq<Write>) {
    exists k :: 0 <= k < |pending| && IsPart(w, pending[k])
  }

  lemma PutMeans(file: ByteString, w: Write, i: nat)
    requires i < |Put(file, w)|
    ensures Covers(w, i) ==> WroteByte(w, i, Put(file, w)[i])
    ensures !Covers(w, i) ==> Put(file, w)[i] == if i < |file| then file[i] else 0
  {
    hide WriteAt;
    var r := Put(file, w);
    if Covers(w, i) {
      assert r[w.offset..w.offset + |w.bytes|][i - w.offset] == w.bytes[i - w.offset];
    } else if i < w.offset {
      assert r[..w.offset][i] == r[i];
    }
  }

  /**
    The losses the model allows for are all there are: whatever parts of whatever pending
    writes reached the medium, in whatever order, the file may be what a power loss leaves.
  */
  lemma {:induction false} AnyPartsMaySurvive(durable: ByteString, pending: seq<Write>, done: seq<Write>)
    requires forall j :: 0 <= j < |done| ==> PartOfSome(done[j], pending)
    ensures IsImage(durable, pending, Applied(durable, done))
  {
    hide Put;
    if done != [] {
      var front, w := done[..|done| - 1], done[|done| - 1];
      AnyPartsMaySurvive(durable, pending, front);
      var before, after := Applied(durable, front), Applied(durable, done);
      var k :| 0 <= k < |pending| && IsPart(w, pending[k]);
      forall i | 0 <= i < |after|
        ensures ByteMaySurvive(durable, pending, i, after[i])
      {
        PutMeans(before, w, i);
        if Covers(w, i) {
          assert WroteByte(pending[k], i, after[i]);
        }
      }
    }
  }

  lemma {:induction false} ViewKeepsPrefix(file: ByteString, writes: seq<Write>, p: ByteString)
    requires WritesBehind(writes, |p|) && p <= file
    ensures p <= Applied(file, writes)
  {
    if writes != [] {
      var w := writes[|writes| - 1];
      var before := Applied(file, writes[..|writes| - 1]);
      ViewKeepsPrefix(file, writes[..|writes| - 1], p);
      if w.offset <= |before| {
        PrefixSurvives(p, before, w.offset, w.bytes);
      } else {
        PrefixSurvives(p, before + Zeros(w.offset - |before|), w.offset, w.bytes);
      }
    }
  }

  /** The records, written one after the other from `offset`. */
  function WritesOf(recs: seq<ByteString>, offset: nat): (r: seq<Write>) {
    if recs == [] then [] else WritesOf(recs[..|recs| - 1], offset) + [Write(offset + |Joined(recs[..|recs| - 1])|, recs[|recs| - 1])]
  }

  lemma {:induction false} WritesOfBehind(recs: seq<ByteString>, offset: nat)
    ensures WritesBehind(WritesOf(recs, offset), offset)
  {
    if recs != [] {
      WritesOfBehind(recs[..|recs| - 1], offset);
    }
  }

  lemma SplitLast(recs: seq<ByteString>)
    requires recs != []
    ensures recs == recs[..|recs| - 1] + [recs[|recs| - 1]]
    ensures Joined(recs) == Joined(recs[..|recs| - 1]) + recs[|recs| - 1]
  {
    var front, last := recs[..|recs| - 1], recs[|recs| - 1];
    assert recs == front + [last];
    JoinedConcat(front, [last]);
    JoinedOne(last);
  }

  lemma {:induction false} AppliedMore(file: ByteString, a: seq<Write>, b: seq<Write>)
    ensures Applied(file, a + b) == Applied(Applied(file, a), b)
  {
    if b == [] {
      assert a + b == a;
    } else {
      var front := b[..|b| - 1];
      AppliedMore(file, a, front);
      assert (a + b)[..|a + b| - 1] == a + front;
    }
  }

  /** Records written behind a log extend it. */
  lemma {:induction false} WritesExtendLog(file: ByteString, log: ByteString, recs: seq<ByteString>)
    requires log <= file
    ensures log + Joined(recs) <= Applied(file, WritesOf(recs, |log|))
  {
    hide WriteAt, Joined;
    if recs == [] {
      JoinedNothing();
      assert log + [] == log;
    } else {
      var front, last := recs[..|recs| - 1], recs[|recs| - 1];
      WritesExtendLog(file, log, front);
      SplitLast(recs);
      var before := Applied(file, WritesOf(front, |log|));
      var ws := WritesOf(recs, |log|);
      assert ws[..|ws| - 1] == WritesOf(front, |log|);
      PrefixIsLong(log + Joined(front), before);
      WrittenBehind(log + Joined(front), before, last);
      assert log + Joined(front) + last == log + (Joined(front) + last);
    }
  }

  lemma JoinedNothing()
    ensures Joined([]) == []
  {
  }

  // ------------------------------------------------------------ logs of pages

  ghost function LogOf(sys: System, recs: seq<ByteString>): (log: Log)
    requires ValidSystem(sys) && AreRecords(sys.cfg.nsym, recs)
    ensures WellFormed(log) && |log.pages| == |recs|
  {
    Log(sys.fileId, PagesOf(sys.cfg, recs))
  }

  /** The file begins with these records, and they end with the commit of `head`. */
  ghost predicate LogAt(sys: System, file: ByteString, recs: seq<ByteString>, head: Head)
    requires ValidSystem(sys)
  {
    && AreRecords(sys.cfg.nsym, recs) && Joined(recs) <= file
    && FIRST_DATA_PAGE + |recs| == head.nPages && Adopts(sys.env, LogOf(sys, recs), head)
  }

  /** What a sweep of the file finds. */
  ghost function SweptLog(sys: System, file: ByteString): (r: Log)
    requires ValidSystem(sys)
  {
    SweptAreRecords(sys.cfg.nsym, file);
    LogOf(sys, Swept(sys.cfg.nsym, file))
  }

  lemma PagesOfPrefix(cfg: Config, a: seq<ByteString>, b: seq<ByteString>)
    requires cfg.nsym < 255 && a <= b && AreRecords(cfg.nsym, b)
    ensures AreRecords(cfg.nsym, a) && PagesOf(cfg, b)[..|a|] == PagesOf(cfg, a)
  {
    hide IsRecord, PageIn;
    assert forall i :: 0 <= i < |a| ==> a[i] == b[i] && IsRecord(cfg.nsym, b[i]);
  }

  /** A log at the front of a file is the beginning of what the sweep finds. */
  lemma SweepBeginsWithLog(sys: System, file: ByteString, recs: seq<ByteString>)
    requires ValidSystem(sys) && AreRecords(sys.cfg.nsym, recs) && Joined(recs) <= file
    ensures recs <= Swept(sys.cfg.nsym, file)
    ensures Extends(LogOf(sys, recs), SweptLog(sys, file))
  {
    hide Swept, Joined, IsRecord, PageIn, PagesOf;
    var tail := file[|Joined(recs)|..];
    assert file == Joined(recs) + tail;
    SweepFindsRecords(sys.cfg.nsym, recs, tail);
    SweptAreRecords(sys.cfg.nsym, file);
    PagesOfPrefix(sys.cfg, recs, Swept(sys.cfg.nsym, file));
  }

  lemma AdoptedInExtension(env: Env, a: Log, b: Log, head: Head)
    requires WellFormed(a) && WellFormed(b) && Extends(a, b) && Adopts(env, a, head)
    ensures Adopts(env, b, head)
  {
    hide Adopts;
    AdoptsWithin(env, a, head);
    assert a.pages[..|a.pages|] == a.pages;
    AdoptedInAnyExtension(env, a, b, head, |a.pages|);
  }

  // ------------------------------------------------------------------- steps

  /** These are the records of these pages, from page id `first` on. */
  ghost predicate ArePages(cfg: Config, recs: seq<ByteString>, first: nat, bodies: seq<ByteString>) {
    |recs| == |bodies| && forall i :: 0 <= i < |recs| ==> IsPage(cfg, recs[i], first + i, bodies[i])
  }

  function Numbered(first: nat, bodies: seq<ByteString>): (r: set<(nat, ByteString)>) {
    set i | 0 <= i < |bodies| :: (first + i, bodies[i])
  }

  /** Sealing cannot be forged: whatever opens as a page was written as that page. */
  ghost predicate Authentic(sys: System, file: ByteString, live: set<(nat, ByteString)>)
    requires ValidSystem(sys)
  {
    forall i :: 0 <= i < |SweptLog(sys, file).pages| && SweptLog(sys, file).pages[i].Some? ==>
      (FIRST_DATA_PAGE + i, SweptLog(sys, file).pages[i].value) in live
  }

  ghost predicate Init(sys: System, s: State)
    requires ValidSystem(sys)
  {
    var genesis := GenesisHead(sys.env, sys.fileId);
    s == State([], [], [Some(MetaFor(genesis)), Some(MetaFor(genesis))], None, true, Writer(genesis, []),
               genesis, [], {}, true)
  }

  /** A transaction's pages and its commit page, written and installed, not synced. */
  ghost predicate CommitStep(sys: System, s: State, s': State, bodies: seq<ByteString>, params: CommitParams, h: Header,
                             recs: seq<ByteString>)
    requires ValidSystem(sys)
  {
    var w := s.writer;
    && s.alive && AreRecords(sys.cfg.nsym, w.recs)
    && DataPages(sys.env, bodies) && Continues(sys.env, LogOf(sys, w.recs), w.head, params)
    && IsNext(sys.env, LogOf(sys, w.recs), w.head, bodies, params, h)
    && ArePages(sys.cfg, recs, w.head.nPages, bodies + [Encode(h)])
    && s' == s.(pending := s.pending + WritesOf(recs, |Joined(w.recs)|),
                writer := Writer(HeadFrom(h, w.head.nPages + |bodies|), w.recs + recs),
                live := s.live + Numbered(w.head.nPages, bodies + [Encode(h)]))
  }

  /** A transaction that fails while writing: some records, perhaps part of one more, and no commit. */
  ghost predicate AbortStep(sys: System, s: State, s': State, bodies: seq<ByteString>, recs: seq<ByteString>, part: ByteString) {
    var at := |Joined(s.writer.recs)|;
    && s.alive && ArePages(sys.cfg, recs, s.writer.head.nPages, bodies)
    && s' == s.(pending := s.pending + WritesOf(recs, at) + [Write(at + |Joined(recs)|, part)],
                live := s.live + Numbered(s.writer.head.nPages, bodies), clean := false)
  }

  function SlotsNow(s: State): (r: seq<Option<MetaSlot>>) {
    if s.pendingSlot.Some? && |s.slots| == 2 then s.slots[s.pendingSlot.value.version % 2 := s.pendingSlot] else s.slots
  }

  ghost predicate SyncStep(s: State, s': State) {
    && s.alive
    && s' == s.(durable := View(s), pending := [], slots := SlotsNow(s), pendingSlot := None,
                synced := s.writer.head, base := s.writer.recs)
  }

  /** The slot of the head's parity is rewritten in place, for a head already synced. */
  ghost predicate WriteMetaStep(sys: System, s: State, s': State, head: Head)
    requires ValidSystem(sys)
  {
    && s.alive && s.pendingSlot.None? && AreRecords(sys.cfg.nsym, s.base) && Adopts(sys.env, LogOf(sys, s.base), head)
    && s' == s.(pendingSlot := Some(MetaFor(head)))
  }

  /** The process dies; the operating system keeps its writes. */
  ghost predicate KillStep(s: State, s': State) {
    s' == s.(alive := false)
  }

  ghost predicate PowerLossStep(s: State, s': State, image: ByteString, slots: seq<Option<MetaSlot>>) {
    && IsImage(s.durable, s.pending, image) && |slots| == |s.slots| == 2
    && (forall i :: 0 <= i < 2 ==>
          || slots[i] == s.slots[i]
          || (s.pendingSlot.Some? && i == s.pendingSlot.value.version % 2 && slots[i] in {None, s.pendingSlot}))
    && s' == s.(durable := image, pending := [], slots := slots, pendingSlot := None, alive := false)
  }

  function Valids(slots: seq<Option<MetaSlot>>): (r: seq<MetaSlot>)
    ensures |r| <= |slots|
    ensures forall i :: 0 <= i < |r| ==> Some(r[i]) in slots
  {
    if slots == [] then []
    else if slots[0].Some? then [slots[0].value] + Valids(slots[1..])
    else Valids(slots[1..])
  }

  /** What `open` asks for: one readable slot; and if the file is encrypted, that its first page opens, if there is one. */
  ghost predicate Openable(sys: System, s: State)
    requires ValidSystem(sys)
  {
    |Valids(SlotsNow(s))| >= 1 && (sys.encrypted ==> FirstPageReads(sys, View(s)))
  }

  ghost predicate FirstPageReads(sys: System, file: ByteString)
    requires ValidSystem(sys)
  {
    SweptLog(sys, file).pages == [] || SweptLog(sys, file).pages[0].Some?
  }

  /** Opening: the checks, the sweep, recovery, and the logical truncation. */
  ghost predicate ReopenStep(sys: System, s: State, s': State)
    requires ValidSystem(sys)
  {
    var file := View(s);
    var slots := Valids(SlotsNow(s));
    && !s.alive && Openable(sys, s) && |slots| <= 2 && Authentic(sys, file, s.live)
    && s'.writer.head == Recovered(sys.env, SweptLog(sys, file), slots)
    && FIRST_DATA_PAGE <= s'.writer.head.nPages <= End(SweptLog(sys, file))
    && s'.writer.recs == Swept(sys.cfg.nsym, file)[..s'.writer.head.nPages - FIRST_DATA_PAGE]
    && var noTail := s.pending == [] && file == Joined(s'.writer.recs);
      && s'.clean == (noTail || (s.clean && s'.writer.recs == s.writer.recs))
      && s'.live == (if noTail then LivePages(sys, s'.writer.recs) else s.live)
      && s' == s.(alive := true, writer := s'.writer, clean := s'.clean, live := s'.live)
  }

  /** The pages of these records that read. */
  ghost function LivePages(sys: System, recs: seq<ByteString>): (r: set<(nat, ByteString)>)
    requires ValidSystem(sys)
  {
    if !AreRecords(sys.cfg.nsym, recs) then {}
    else set i | 0 <= i < |recs| && PagesOf(sys.cfg, recs)[i].Some? :: (FIRST_DATA_PAGE + i, PagesOf(sys.cfg, recs)[i].value)
  }

  ghost predicate Next(sys: System, s: State, s': State)
    requires ValidSystem(sys)
  {
    || (exists bodies, params, h, recs :: CommitStep(sys, s, s', bodies, params, h, recs))
    || (exists bodies, recs, part :: AbortStep(sys, s, s', bodies, recs, part))
    || SyncStep(s, s')
    || (exists head :: WriteMetaStep(sys, s, s', head))
    || KillStep(s, s')
    || (exists image, slots :: PowerLossStep(s, s', image, slots))
    || ReopenStep(sys, s, s')
  }

  // --------------------------------------------------------------- invariant

  ghost predicate HintOk(sys: System, log: Log, m: MetaSlot)
    requires WellFormed(log)
  {
    || m.lastCommitPage < FIRST_DATA_PAGE
    || exists head :: Adopts(sys.env, log, head) && head.commitPage == m.lastCommitPage
  }

  ghost predicate SlotsOk(sys: System, s: State)
    requires ValidSystem(sys) && AreRecords(sys.cfg.nsym, s.base)
  {
    && |s.slots| == 2
    && (forall i :: 0 <= i < 2 && s.slots[i].Some? ==> HintOk(sys, LogOf(sys, s.base), s.slots[i].value))
    && (s.pendingSlot.Some? ==> HintOk(sys, LogOf(sys, s.base), s.pendingSlot.value))
  }

  ghost predicate Inv(sys: System, s: State)
    requires ValidSystem(sys)
  {
    && LogAt(sys, s.durable, s.base, s.synced) && WritesBehind(s.pending, |Joined(s.base)|) && SlotsOk(sys, s)
    && (s.alive ==> s.base <= s.writer.recs && LogAt(sys, View(s), s.writer.recs, s.writer.head))
    && (s.clean ==> AreRecords(sys.cfg.nsym, s.writer.recs) && s.live == LivePages(sys, s.writer.recs))
  }

  lemma GenesisAdopted(sys: System)
    requires ValidSystem(sys)
    ensures LogAt(sys, [], [], GenesisHead(sys.env, sys.fileId))
  {
    var log := LogOf(sys, []);
    var genesis := GenesisHead(sys.env, sys.fileId);
    ScanUnfold(sys.env, log, genesis, FIRST_DATA_PAGE);
    assert log.pages[..0] == log.pages;
  }

  lemma InitHoldsInv(sys: System, s: State)
    requires ValidSystem(sys) && Init(sys, s)
    ensures Inv(sys, s)
  {
    hide Adopts;
    GenesisAdopted(sys);
  }

  /** The next header may follow whatever head it was made for. */
  lemma NextIsFollower(env: Env, log: Log, head: Head, bodies: seq<ByteString>, params: CommitParams, h: Header)
    requires Continues(env, log, head, params) && IsNext(env, log, head, bodies, params, h)
    ensures Follows(env, head, h)
  {
    hide SelfConsistent;
  }

  lemma LogGrows(sys: System, recs: seq<ByteString>, head: Head, bodies: seq<ByteString>, params: CommitParams, h: Header,
                 written: seq<ByteString>)
    requires ValidSystem(sys) && AreRecords(sys.cfg.nsym, recs)
    requires FIRST_DATA_PAGE + |recs| == head.nPages && Adopts(sys.env, LogOf(sys, recs), head)
    requires DataPages(sys.env, bodies) && Continues(sys.env, LogOf(sys, recs), head, params)
    requires IsNext(sys.env, LogOf(sys, recs), head, bodies, params, h)
    requires ArePages(sys.cfg, written, head.nPages, bodies + [Encode(h)])
    ensures AreRecords(sys.cfg.nsym, recs + written)
    ensures LogOf(sys, recs + written) == WithCommit(LogOf(sys, recs), bodies, h)
    ensures Adopts(sys.env, LogOf(sys, recs + written), HeadFrom(h, head.nPages + |bodies|))
  {
    hide Adopts, PagesOf, Encode, IsPage, SelfConsistent, IsNext, Continues, DataPages, Follows;
    var log := LogOf(sys, recs);
    NextIsFollower(sys.env, log, head, bodies, params, h);
    NextBranch(sys.env, log, head, bodies, params, h);
    PagesAppend(sys.cfg, recs, written, bodies + [Encode(h)]);
    ReadableAppend(bodies, Encode(h));
    assert log.pages + (Readable(bodies) + [Some(Encode(h))]) == log.pages + Readable(bodies) + [Some(Encode(h))];
    CommitIsAdopted(sys.env, log, head, bodies, h);
  }

  lemma NextBranch(env: Env, log: Log, head: Head, bodies: seq<ByteString>, params: CommitParams, h: Header)
    requires IsNext(env, log, head, bodies, params, h)
    ensures BranchFits(env, h.branch)
  {
  }

  lemma ReadableAppend(bodies: seq<ByteString>, last: ByteString)
    ensures Readable(bodies + [last]) == Readable(bodies) + [Some(last)]
  {
  }

  lemma WritesBehindMore(a: seq<Write>, b: seq<Write>, n: nat, m: nat)
    requires WritesBehind(a, n) && WritesBehind(b, m) && n <= m
    ensures WritesBehind(a + b, n)
  {
  }

  lemma JoinedPrefix(a: seq<ByteString>, b: seq<ByteString>)
    requires a <= b
    ensures Joined(a) <= Joined(b) && |Joined(a)| <= |Joined(b)|
  {
    assert b == a + b[|a|..];
    JoinedConcat(a, b[|a|..]);
  }

  lemma CommitKeepsInv(sys: System, s: State, s': State, bodies: seq<ByteString>, params: CommitParams, h: Header,
                       recs: seq<ByteString>)
    requires ValidSystem(sys) && Inv(sys, s) && CommitStep(sys, s, s', bodies, params, h, recs)
    ensures Inv(sys, s')
  {
    hide Adopts, PagesOf, Encode, IsPage, IsRecord, Joined, Applied, IsNext, Continues, DataPages, SlotsOk;
    var w := s.writer;
    var at := |Joined(w.recs)|;
    NextBranch(sys.env, LogOf(sys, w.recs), w.head, bodies, params, h);
    LogGrows(sys, w.recs, w.head, bodies, params, h, recs);
    WritesExtendLog(View(s), Joined(w.recs), recs);
    AppliedMore(s.durable, s.pending, WritesOf(recs, at));
    JoinedConcat(w.recs, recs);
    JoinedPrefix(s.base, w.recs);
    WritesOfBehind(recs, at);
    WritesBehindMore(s.pending, WritesOf(recs, at), |Joined(s.base)|, at);
    if s.clean {
      LivePagesGrow(sys, w.recs, recs, bodies + [Encode(h)]);
    }
    SlotsOkSame(sys, s, s');
  }

  lemma SlotsOkSame(sys: System, s: State, s': State)
    requires ValidSystem(sys) && AreRecords(sys.cfg.nsym, s.base) && SlotsOk(sys, s)
    requires s'.base == s.base && s'.slots == s.slots && s'.pendingSlot == s.pendingSlot
    ensures SlotsOk(sys, s')
  {
  }

  lemma LivePagesGrow(sys: System, recs: seq<ByteString>, written: seq<ByteString>, bodies: seq<ByteString>)
    requires ValidSystem(sys) && AreRecords(sys.cfg.nsym, recs) && AreRecords(sys.cfg.nsym, recs + written)
    requires ArePages(sys.cfg, written, FIRST_DATA_PAGE + |recs|, bodies)
    ensures LivePages(sys, recs + written) == LivePages(sys, recs) + Numbered(FIRST_DATA_PAGE + |recs|, bodies)
  {
    hide PageIn, IsRecord, IsPage, PagesOf, LivePages, Numbered;
    PagesAppend(sys.cfg, recs, written, bodies);
    var before, after := PagesOf(sys.cfg, recs), PagesOf(sys.cfg, recs + written);
    var n := |recs|;
    assert forall i :: 0 <= i < n ==> after[i] == before[i];
    assert forall i :: n <= i < n + |bodies| ==> after[i] == Some(bodies[i - n]);
    forall x: (nat, ByteString)
      ensures x in LivePages(sys, recs + written) <==> x in LivePages(sys, recs) + Numbered(FIRST_DATA_PAGE + n, bodies)
    {
      LivePageIs(sys, recs + written, x);
      LivePageIs(sys, recs, x);
      NumberedIs(FIRST_DATA_PAGE + n, bodies, x);
    }
  }

  lemma LivePageIs(sys: System, recs: seq<ByteString>, x: (nat, ByteString))
    requires ValidSystem(sys) && AreRecords(sys.cfg.nsym, recs)
    ensures x in LivePages(sys, recs) <==>
      FIRST_DATA_PAGE <= x.0 < FIRST_DATA_PAGE + |recs| && PagesOf(sys.cfg, recs)[x.0 - FIRST_DATA_PAGE] == Some(x.1)
  {
    hide PageIn, IsRecord, PagesOf;
  }

  lemma NumberedIs(first: nat, bodies: seq<ByteString>, x: (nat, ByteString))
    ensures x in Numbered(first, bodies) <==> first <= x.0 < first + |bodies| && bodies[x.0 - first] == x.1
  {
    if first <= x.0 < first + |bodies| && bodies[x.0 - first] == x.1 {
      var i := x.0 - first;
      assert (first + i, bodies[i]) in Numbered(first, bodies);
    }
  }

  lemma AbortKeepsInv(sys: System, s: State, s': State, bodies: seq<ByteString>, recs: seq<ByteString>, part: ByteString)
    requires ValidSystem(sys) && Inv(sys, s) && AbortStep(sys, s, s', bodies, recs, part)
    ensures Inv(sys, s')
  {
    hide Adopts, PagesOf, IsPage, IsRecord, Joined, Applied, SlotsOk;
    var at := |Joined(s.writer.recs)|;
    var ws := WritesOf(recs, at) + [Write(at + |Joined(recs)|, part)];
    WritesOfBehind(recs, at);
    WritesBehindMore(WritesOf(recs, at), [Write(at + |Joined(recs)|, part)], at, at);
    assert s'.pending == s.pending + ws;
    JoinedPrefix(s.base, s.writer.recs);
    WritesBehindMore(s.pending, ws, |Joined(s.base)|, at);
    AppliedMore(s.durable, s.pending, ws);
    ViewKeepsPrefix(View(s), ws, Joined(s.writer.recs));
    SlotsOkSame(sys, s, s');
  }

  lemma HintsExtend(sys: System, a: Log, b: Log, m: MetaSlot)
    requires WellFormed(a) && WellFormed(b) && Extends(a, b) && HintOk(sys, a, m)
    ensures HintOk(sys, b, m)
  {
    hide Adopts;
    if m.lastCommitPage >= FIRST_DATA_PAGE {
      var head :| Adopts(sys.env, a, head) && head.commitPage == m.lastCommitPage;
      AdoptedInExtension(sys.env, a, b, head);
    }
  }

  lemma LogExtends(sys: System, a: seq<ByteString>, b: seq<ByteString>)
    requires ValidSystem(sys) && a <= b && AreRecords(sys.cfg.nsym, b)
    ensures AreRecords(sys.cfg.nsym, a) && Extends(LogOf(sys, a), LogOf(sys, b))
  {
    hide PagesOf, IsRecord;
    PagesOfPrefix(sys.cfg, a, b);
  }

  lemma SyncKeepsInv(sys: System, s: State, s': State)
    requires ValidSystem(sys) && Inv(sys, s) && SyncStep(s, s')
    ensures Inv(sys, s') && Adopts(sys.env, LogOf(sys, s'.base), s.synced)
  {
    hide Adopts, PagesOf, IsRecord, Joined, Applied, HintOk;
    LogExtends(sys, s.base, s'.base);
    AdoptedInExtension(sys.env, LogOf(sys, s.base), LogOf(sys, s'.base), s.synced);
    forall i | 0 <= i < 2 && s'.slots[i].Some?
      ensures HintOk(sys, LogOf(sys, s'.base), s'.slots[i].value)
    {
      HintsExtend(sys, LogOf(sys, s.base), LogOf(sys, s'.base), s'.slots[i].value);
    }
    AppliedNothing(View(s));
  }

  lemma AppliedNothing(file: ByteString)
    ensures Applied(file, []) == file
  {
  }

  lemma WriteMetaKeepsInv(sys: System, s: State, s': State, head: Head)
    requires ValidSystem(sys) && Inv(sys, s) && WriteMetaStep(sys, s, s', head)
    ensures Inv(sys, s')
  {
    hide Adopts, PagesOf, IsRecord, Joined, Applied;
  }

  lemma PowerLossKeepsInv(sys: System, s: State, s': State, image: ByteString, slots: seq<Option<MetaSlot>>)
    requires ValidSystem(sys) && Inv(sys, s) && PowerLossStep(s, s', image, slots)
    ensures Inv(sys, s')
  {
    hide Adopts, PagesOf, IsRecord, Joined, Applied, IsImage, HintOk, LivePages;
    ImageKeepsPrefix(s.durable, s.pending, image, Joined(s.base));
  }

  /** Recovery after any crash: nothing synced is lost, and the hints do not matter. */
  lemma ReopenIsSafe(sys: System, s: State, s': State)
    requires ValidSystem(sys) && Inv(sys, s) && ReopenStep(sys, s, s')
    ensures var log := SweptLog(sys, View(s)); var head := s'.writer.head;
      && head == ScanAll(sys.env, log) && Adopts(sys.env, log, head)
      && s.base <= s'.writer.recs && s.synced.nPages <= head.nPages
      && LogAt(sys, View(s), s'.writer.recs, head)
  {
    hide Adopts, PagesOf, IsRecord, Joined, Applied, Swept, ScanAll, Scan, LivePages, Authentic, HeaderAt;
    var file := View(s);
    var recs := Swept(sys.cfg.nsym, file);
    var log, head := SweptLog(sys, file), s'.writer.head;
    ViewKeepsPrefix(s.durable, s.pending, Joined(s.base));
    SweepBeginsWithLog(sys, file, s.base);
    SlotsHarmless(sys, s, log);
    SlotsAreOnlyHints(sys.env, log, Valids(SlotsNow(s)));
    ScanResultIsAdopted(sys.env, log);
    AdoptedInExtension(sys.env, LogOf(sys, s.base), log, s.synced);
    ScanPassesAdopted(sys.env, log, s.synced);
    SweptAreRecords(sys.cfg.nsym, file);
    var kept := s'.writer.recs;
    LogExtends(sys, kept, recs);
    AdoptsItsOwnPrefix(sys, LogOf(sys, kept), log, head);
    JoinedPrefix(kept, recs);
    assert s.base <= kept;
  }

  lemma ScanPassesAdopted(env: Env, log: Log, head: Head)
    requires WellFormed(log) && Adopts(env, log, head)
    ensures head.nPages <= ScanAll(env, log).nPages
  {
    hide Scan, Adopts, ScanAll;
    ScanFromAdopted(env, log, head);
    AdoptsWithin(env, log, head);
    ScanAdvances(env, log, head, head.nPages);
  }

  lemma AdoptsWithin(env: Env, log: Log, head: Head)
    requires WellFormed(log) && Adopts(env, log, head)
    ensures FIRST_DATA_PAGE <= head.nPages <= End(log)
  {
  }

  lemma AdoptsItsOwnPrefix(sys: System, a: Log, b: Log, head: Head)
    requires WellFormed(a) && WellFormed(b) && Extends(a, b) && Adopts(sys.env, b, head) && End(a) == head.nPages
    ensures Adopts(sys.env, a, head)
  {
    hide ScanAll;
    assert Prefix(a, |a.pages|) == Prefix(b, |a.pages|) by {
      assert a.pages[..|a.pages|] == a.pages == b.pages[..|a.pages|];
    }
  }

  lemma SlotsHarmless(sys: System, s: State, log: Log)
    requires ValidSystem(sys) && AreRecords(sys.cfg.nsym, s.base) && SlotsOk(sys, s)
    requires WellFormed(log) && Extends(LogOf(sys, s.base), log)
    ensures |SlotsNow(s)| == 2 && |Valids(SlotsNow(s))| <= 2
    ensures forall i :: 0 <= i < |Valids(SlotsNow(s))| ==> Harmless(sys.env, log, Valids(SlotsNow(s))[i])
  {
    hide Adopts, PagesOf, IsRecord, TryHeadAt;
    var now := SlotsNow(s);
    forall i | 0 <= i < |Valids(now)|
      ensures Harmless(sys.env, log, Valids(now)[i])
    {
      var m := Valids(now)[i];
      assert Some(m) in now;
      HintsExtend(sys, LogOf(sys, s.base), log, m);
    }
  }

  lemma ReopenKeepsInv(sys: System, s: State, s': State)
    requires ValidSystem(sys) && Inv(sys, s) && ReopenStep(sys, s, s')
    ensures Inv(sys, s')
  {
    hide Adopts, PagesOf, IsRecord, Joined, Applied, Swept, ScanAll, Scan, LivePages, Authentic, SlotsOk, Recovered;
    ReopenIsSafe(sys, s, s');
    SlotsOkSame(sys, s, s');
  }

  lemma StepKeepsInv(sys: System, s: State, s': State)
    requires ValidSystem(sys) && Inv(sys, s) && Next(sys, s, s')
    ensures Inv(sys, s')
  {
    hide Inv, CommitStep, AbortStep, SyncStep, WriteMetaStep, PowerLossStep, ReopenStep;
    if bodies, params, h, recs :| CommitStep(sys, s, s', bodies, params, h, recs) {
      CommitKeepsInv(sys, s, s', bodies, params, h, recs);
    } else if bodies, recs, part :| AbortStep(sys, s, s', bodies, recs, part) {
      AbortKeepsInv(sys, s, s', bodies, recs, part);
    } else if SyncStep(s, s') {
      SyncKeepsInv(sys, s, s');
    } else if head :| WriteMetaStep(sys, s, s', head) {
      WriteMetaKeepsInv(sys, s, s', head);
    } else if KillStep(s, s') {
      KillKeepsInv(sys, s, s');
    } else if image, slots :| PowerLossStep(s, s', image, slots) {
      PowerLossKeepsInv(sys, s, s', image, slots);
    } else {
      ReopenKeepsInv(sys, s, s');
    }
  }

  lemma KillKeepsInv(sys: System, s: State, s': State)
    requires ValidSystem(sys) && Inv(sys, s) && KillStep(s, s')
    ensures Inv(sys, s')
  {
    hide LogAt, LivePages, AreRecords;
  }

  // -------------------------------------------------------------- whole runs

  ghost predicate IsRun(sys: System, run: seq<State>)
    requires ValidSystem(sys)
  {
    && run != [] && Init(sys, run[0])
    && forall i :: 0 <= i < |run| - 1 ==> Step(sys, run, i)
  }

  ghost predicate Step(sys: System, run: seq<State>, i: nat)
    requires ValidSystem(sys) && i + 1 < |run|
  {
    Next(sys, run[i], run[i + 1])
  }

  lemma {:induction false} RunHoldsInv(sys: System, run: seq<State>, i: nat)
    requires ValidSystem(sys) && IsRun(sys, run) && i < |run|
    ensures Inv(sys, run[i])
  {
    hide Inv, Next, Init;
    if i == 0 {
      InitHoldsInv(sys, run[0]);
    } else {
      RunHoldsInv(sys, run, i - 1);
      assert Step(sys, run, i - 1);
      StepKeepsInv(sys, run[i - 1], run[i]);
    }
  }

  /** The synced log only grows. */
  lemma SyncedOnlyGrows(sys: System, s: State, s': State)
    requires ValidSystem(sys) && Inv(sys, s) && Next(sys, s, s')
    ensures s.base <= s'.base && (s.base == s'.base ==> s.synced == s'.synced)
  {
    hide LogAt, Applied, Swept, LivePages, Recovered, Authentic, Adopts, IsImage;
    if SyncStep(s, s') && s.base == s'.base {
      SameRecordsSameHead(sys, s.durable, View(s), s.base, s.synced, s.writer.head);
    }
  }

  lemma SameRecordsSameHead(sys: System, a: ByteString, b: ByteString, recs: seq<ByteString>, x: Head, y: Head)
    requires ValidSystem(sys) && LogAt(sys, a, recs, x) && LogAt(sys, b, recs, y)
    ensures x == y
  {
    hide ScanAll, PagesOf, IsRecord, Joined;
  }

  lemma {:induction false} BaseOnlyGrows(sys: System, run: seq<State>, i: nat, j: nat)
    requires ValidSystem(sys) && IsRun(sys, run) && i <= j < |run|
    ensures run[i].base <= run[j].base
    decreases j
  {
    hide Inv, Next, Init;
    if i < j {
      BaseOnlyGrows(sys, run, i, j - 1);
      RunHoldsInv(sys, run, j - 1);
      assert Step(sys, run, j - 1);
      SyncedOnlyGrows(sys, run[j - 1], run[j]);
    }
  }

  /**
    Crash safety.  In every run, whatever the crashes and reopenings: a commit once
    synced stays in the history of every later open store.  Its head is adopted on the
    way to the current head, every page up to the current head reads, and every page of
    the synced log reads exactly as it did.
  */
  lemma NoSyncedCommitIsLost(sys: System, run: seq<State>, i: nat, j: nat)
    requires ValidSystem(sys) && IsRun(sys, run) && i <= j < |run| && run[j].alive
    ensures var before, after := run[i].base, run[j].writer.recs;
      && AreRecords(sys.cfg.nsym, before) && AreRecords(sys.cfg.nsym, after) && before <= after
      && PagesOf(sys.cfg, after)[..|before|] == PagesOf(sys.cfg, before)
      && Adopts(sys.env, LogOf(sys, after), run[i].synced) && Adopts(sys.env, LogOf(sys, after), run[j].writer.head)
      && run[i].synced.nPages <= run[j].writer.head.nPages
      && (forall k :: 0 <= k < |after| ==> PagesOf(sys.cfg, after)[k].Some?)
      && Joined(after) <= View(run[j])
  {
    hide Adopts, PagesOf, IsRecord, Joined, Applied, LivePages, SlotsOk, Next, Init;
    RunHoldsInv(sys, run, i);
    RunHoldsInv(sys, run, j);
    BaseOnlyGrows(sys, run, i, j);
    var before, after := run[i].base, run[j].writer.recs;
    LogExtends(sys, before, after);
    AdoptedInExtension(sys.env, LogOf(sys, before), LogOf(sys, after), run[i].synced);
    PagesOfPrefix(sys.cfg, before, after);
    AdoptedIsReadable(sys, after, run[j].writer.head);
  }

  lemma AdoptedIsReadable(sys: System, recs: seq<ByteString>, head: Head)
    requires ValidSystem(sys) && AreRecords(sys.cfg.nsym, recs) && FIRST_DATA_PAGE + |recs| == head.nPages
    requires Adopts(sys.env, LogOf(sys, recs), head)
    ensures forall k :: 0 <= k < |recs| ==> PagesOf(sys.cfg, recs)[k].Some?
  {
    hide Adopts, PagesOf, IsRecord, Scan;
    var log := LogOf(sys, recs);
    ScanFromAdopted(sys.env, log, head);
    forall k | 0 <= k < |recs|
      ensures PagesOf(sys.cfg, recs)[k].Some?
    {
      assert ReadPage(log, FIRST_DATA_PAGE + k) == PagesOf(sys.cfg, recs)[k];
    }
  }

  /** The commit page of this head was written, at its place. */
  ghost predicate CommitWritten(sys: System, live: set<(nat, ByteString)>, head: Head) {
    exists body: ByteString :: (head.commitPage, body) in live && CommitsTo(sys, body, head)
  }

  ghost predicate CommitsTo(sys: System, body: ByteString, head: Head) {
    |body| == BODY_SIZE && Decode(sys.env, body).Some? && HeadFrom(Decode(sys.env, body).value, head.commitPage) == head
  }

  /**
    Durability: reopening after any crash adopts the last synced head or goes on past
    it, and what it goes on to is a commit page that was really written there.
  */
  lemma RecoveredWasWritten(sys: System, s: State, s': State)
    requires ValidSystem(sys) && Inv(sys, s) && ReopenStep(sys, s, s')
    ensures s'.writer.head == s.synced || CommitWritten(sys, s.live, s'.writer.head)
  {
    hide Adopts, PagesOf, IsRecord, Joined, Applied, Swept, ScanAll, Scan, LivePages, Decode, SelfConsistent;
    ReopenIsSafe(sys, s, s');
    var log, head := SweptLog(sys, View(s)), s'.writer.head;
    if head == GenesisHead(sys.env, sys.fileId) {
      GenesisOnly(sys, s, s');
    } else {
      ScanFromAdopted(sys.env, log, head);
      var page := head.commitPage;
      var body := ReadPage(log, page).value;
      assert log.pages[page - FIRST_DATA_PAGE] == Some(body);
      HeaderAtIs(sys.env, log, page);
      assert CommitsTo(sys, body, head);
    }
  }

  lemma GenesisOnly(sys: System, s: State, s': State)
    requires ValidSystem(sys) && Inv(sys, s) && ReopenStep(sys, s, s') && s'.writer.head == GenesisHead(sys.env, sys.fileId)
    ensures s.synced == s'.writer.head
  {
    hide PagesOf, IsRecord, Joined, Applied, Swept, LivePages, Recovered, Authentic, Scan;
    ReopenIsSafe(sys, s, s');
    GenesisAdopted(sys);
    assert s.base == [] && s'.writer.recs == [];
    SameRecordsSameHead(sys, s.durable, View(s), [], s.synced, s'.writer.head);
  }

  // -------------------------------------------------- without torn tails

  lemma InLivePages(sys: System, recs: seq<ByteString>, i: nat, body: ByteString)
    requires ValidSystem(sys) && AreRecords(sys.cfg.nsym, recs) && (FIRST_DATA_PAGE + i, body) in LivePages(sys, recs)
    ensures i < |recs| && PagesOf(sys.cfg, recs)[i] == Some(body)
  {
    hide PagesOf, IsRecord;
    var j :| 0 <= j < |recs| && PagesOf(sys.cfg, recs)[j].Some?
      && (FIRST_DATA_PAGE + i, body) == (FIRST_DATA_PAGE + j, PagesOf(sys.cfg, recs)[j].value);
  }

  /**
    As long as no torn tail was in the file when it was opened and no transaction failed
    while writing, recovery finds exactly a beginning of what the writer wrote.
  */
  lemma CleanRecoveryIsExact(sys: System, s: State, s': State)
    requires ValidSystem(sys) && Inv(sys, s) && ReopenStep(sys, s, s') && s.clean
    ensures AreRecords(sys.cfg.nsym, s'.writer.recs) && Extends(LogOf(sys, s'.writer.recs), LogOf(sys, s.writer.recs))
    ensures Adopts(sys.env, LogOf(sys, s.writer.recs), s'.writer.head)
  {
    hide Adopts, PagesOf, IsRecord, Joined, Applied, Swept, ScanAll, Scan, LivePages, Recovered;
    ReopenIsSafe(sys, s, s');
    var kept, wrote := s'.writer.recs, s.writer.recs;
    var log := SweptLog(sys, View(s));
    SweptAreRecords(sys.cfg.nsym, View(s));
    LogExtends(sys, kept, Swept(sys.cfg.nsym, View(s)));
    AdoptedIsReadable(sys, kept, s'.writer.head);
    var found, expected := PagesOf(sys.cfg, kept), PagesOf(sys.cfg, wrote);
    forall i | 0 <= i < |found|
      ensures SameAt(found, expected, i)
    {
      assert log.pages[i] == found[i] && found[i].Some?;
      InLivePages(sys, wrote, i, log.pages[i].value);
    }
    PrefixByElements(found, expected);
    AdoptedInExtension(sys.env, LogOf(sys, kept), LogOf(sys, wrote), s'.writer.head);
  }

  predicate SameAt(a: seq<Option<ByteString>>, b: seq<Option<ByteString>>, i: nat) {
    i < |a| && i < |b| && a[i] == b[i]
  }

  lemma PrefixByElements(a: seq<Option<ByteString>>, b: seq<Option<ByteString>>)
    requires forall i :: 0 <= i < |a| ==> SameAt(a, b, i)
    ensures |a| <= |b| && b[..|a|] == a
  {
    if |a| > 0 {
      assert SameAt(a, b, |a| - 1);
    }
    assert forall i :: 0 <= i < |a| && SameAt(a, b, i) ==> a[i] == b[i];
  }

  /** Every head recovery could stop at passes the audit. */
  ghost predicate AuditedThroughout(sys: System, log: Log)
    requires WellFormed(log)
  {
    forall head :: Adopts(sys.env, log, head) ==> AuditedAt(sys, log, head)
  }

  ghost predicate AuditedAt(sys: System, log: Log, head: Head)
    requires WellFormed(log)
  {
    && FIRST_DATA_PAGE <= head.nPages <= End(log)
    && var upTo := Prefix(log, head.nPages - FIRST_DATA_PAGE);
      && Descending(sys.env, upTo) && head.commitPage < head.nPages
      && exists links :: Audited(sys.env, upTo, head, links, None)
  }

  lemma AuditedThroughoutPrefix(sys: System, a: Log, b: Log)
    requires WellFormed(a) && WellFormed(b) && Extends(a, b) && AuditedThroughout(sys, b)
    ensures AuditedThroughout(sys, a)
  {
    hide Adopts, Audited, HeaderAt;
    forall head | Adopts(sys.env, a, head)
      ensures AuditedAt(sys, a, head)
    {
      AdoptedInExtension(sys.env, a, b, head);
      AdoptsWithin(sys.env, a, head);
      SamePrefix(a, b, head.nPages - FIRST_DATA_PAGE);
      assert AuditedAt(sys, b, head);
    }
  }

  lemma SamePrefix(a: Log, b: Log, n: nat)
    requires Extends(a, b) && n <= |a.pages|
    ensures Prefix(a, n) == Prefix(b, n)
  {
    assert a.pages[..n] == b.pages[..|a.pages|][..n] == b.pages[..n];
  }

  /** Between a head and the next commit page there is no head. */
  lemma NoHeadBetween(env: Env, log: Log, head: Head, bodies: seq<ByteString>, h: Header, other: Head)
    requires WellFormed(log) && Adopts(env, log, head) && head.nPages == End(log)
    requires DataPages(env, bodies) && BranchFits(env, h.branch)
    requires WellFormed(WithCommit(log, bodies, h)) && Adopts(env, WithCommit(log, bodies, h), other)
    ensures other.nPages <= End(log) || other.nPages == End(log) + |bodies| + 1
  {
    hide Adopts, HeaderAt, Scan, Encode, Decode;
    var next := WithCommit(log, bodies, h);
    NewPages(env, log, bodies, h);
    AdoptsWithin(env, next, other);
    var k := other.nPages - FIRST_DATA_PAGE;
    if |log.pages| < k <= |log.pages| + |bodies| {
      var m := k - |log.pages|;
      var upTo := Prefix(next, k);
      assert upTo.pages == log.pages + Readable(bodies[..m]);
      ScanOfData(env, log, head, bodies[..m], upTo);
      AdoptsIsScan(env, next, other);
    }
  }

  lemma AdoptsIsScan(env: Env, log: Log, head: Head)
    requires WellFormed(log) && Adopts(env, log, head)
    ensures FIRST_DATA_PAGE <= head.nPages <= End(log)
    ensures ScanAll(env, Prefix(log, head.nPages - FIRST_DATA_PAGE)) == head
  {
  }

  lemma ScanOfData(env: Env, log: Log, head: Head, bodies: seq<ByteString>, upTo: Log)
    requires WellFormed(log) && Adopts(env, log, head) && head.nPages == End(log) && DataPages(env, bodies)
    requires upTo == Log(log.fileId, log.pages + Readable(bodies)) && WellFormed(upTo)
    ensures ScanAll(env, upTo) == head
  {
    hide Adopts, HeaderAt, Scan, Decode, ScanAll;
    var n := |log.pages|;
    assert upTo.pages[..n] == log.pages == log.pages[..n];
    AdoptedInAnyExtension(env, log, upTo, head, n);
    ScanFromAdopted(env, upTo, head);
    assert upTo.pages[n..n + |bodies|] == Readable(bodies);
    ScanSkipsData(env, upTo, head, bodies, 0, n);
    ScanUnfold(env, upTo, head, End(upTo));
  }

  lemma CommitKeepsAudited(sys: System, s: State, s': State, bodies: seq<ByteString>, params: CommitParams, h: Header,
                           recs: seq<ByteString>)
    requires ValidSystem(sys) && Inv(sys, s) && CommitStep(sys, s, s', bodies, params, h, recs)
    requires AuditedThroughout(sys, LogOf(sys, s.writer.recs))
    ensures AreRecords(sys.cfg.nsym, s'.writer.recs) && AuditedThroughout(sys, LogOf(sys, s'.writer.recs))
  {
    hide Adopts, PagesOf, Encode, IsPage, IsRecord, Joined, Applied, SlotsOk, Audited, HeaderAt, LivePages, Decode, SelfConsistent;
    var w := s.writer;
    var log, next := LogOf(sys, w.recs), WithCommit(LogOf(sys, w.recs), bodies, h);
    LogGrows(sys, w.recs, w.head, bodies, params, h, recs);
    assert AuditedAt(sys, log, w.head);
    assert Prefix(log, |log.pages|) == log by {
      assert log.pages[..|log.pages|] == log.pages;
    }
    var links :| Audited(sys.env, log, w.head, links, None);
    CommitKeepsAudit(sys.env, log, w.head, links, bodies, params, h);
    NewPages(sys.env, log, bodies, h);
    forall head | Adopts(sys.env, next, head)
      ensures AuditedAt(sys, next, head)
    {
      HeadOfNextAudited(sys, log, w.head, bodies, h, head, links + [Link(w.head.nPages + |bodies|, h)]);
    }
  }

  /** Every head of the longer log is the new one, or a head of the log before. */
  lemma HeadOfNextAudited(sys: System, log: Log, last: Head, bodies: seq<ByteString>, h: Header, head: Head, links: seq<Link>)
    requires WellFormed(log) && Adopts(sys.env, log, last) && last.nPages == End(log) && AuditedThroughout(sys, log)
    requires DataPages(sys.env, bodies) && BranchFits(sys.env, h.branch)
    requires WellFormed(WithCommit(log, bodies, h)) && Extends(log, WithCommit(log, bodies, h))
    requires End(WithCommit(log, bodies, h)) == last.nPages + |bodies| + 1
    requires Adopts(sys.env, WithCommit(log, bodies, h), head)
    requires Adopts(sys.env, WithCommit(log, bodies, h), HeadFrom(h, last.nPages + |bodies|))
    requires Descending(sys.env, WithCommit(log, bodies, h))
    requires Audited(sys.env, WithCommit(log, bodies, h), HeadFrom(h, last.nPages + |bodies|), links, None)
    ensures AuditedAt(sys, WithCommit(log, bodies, h), head)
  {
    hide Adopts, Audited, HeaderAt, WithCommit;
    var next := WithCommit(log, bodies, h);
    NoHeadBetween(sys.env, log, last, bodies, h, head);
    AdoptsIsScan(sys.env, next, head);
    if head.nPages <= End(log) {
      SamePrefix(log, next, head.nPages - FIRST_DATA_PAGE);
      AdoptedInPrefix(sys.env, log, next, head);
      assert AuditedAt(sys, log, head);
    } else {
      WholeLogAudited(sys, next, HeadFrom(h, last.nPages + |bodies|), head, links);
    }
  }

  lemma AdoptedInPrefix(env: Env, a: Log, b: Log, head: Head)
    requires WellFormed(a) && WellFormed(b) && Extends(a, b) && Adopts(env, b, head) && head.nPages <= End(a)
    ensures Adopts(env, a, head)
  {
    hide ScanAll;
    SamePrefix(a, b, head.nPages - FIRST_DATA_PAGE);
  }

  lemma WholeLogAudited(sys: System, log: Log, known: Head, head: Head, links: seq<Link>)
    requires WellFormed(log) && Adopts(sys.env, log, known) && Adopts(sys.env, log, head)
    requires known.nPages == head.nPages == End(log) && known.commitPage < known.nPages
    requires Descending(sys.env, log) && Audited(sys.env, log, known, links, None)
    ensures AuditedAt(sys, log, head)
  {
    hide ScanAll, Audited, HeaderAt;
    assert log.pages[..|log.pages|] == log.pages;
    assert Prefix(log, |log.pages|) == log;
  }

  lemma NothingAudited(sys: System)
    requires ValidSystem(sys)
    ensures AuditedThroughout(sys, LogOf(sys, []))
  {
    hide Adopts;
    var log, genesis := LogOf(sys, []), GenesisHead(sys.env, sys.fileId);
    GenesisAdopted(sys);
    forall head | Adopts(sys.env, log, head)
      ensures AuditedAt(sys, log, head)
    {
      AdoptsIsScan(sys.env, log, head);
      AdoptsIsScan(sys.env, log, genesis);
      assert Prefix(log, 0) == log;
      assert Audited(sys.env, log, genesis, [], None);
    }
  }

  ghost predicate AllClean(run: seq<State>) {
    forall i :: 0 <= i < |run| ==> run[i].clean
  }

  /**
    In a run where every opening finds no torn tail and no transaction fails while
    writing, the log passes the audit at every moment, at its head and at every earlier
    head, whatever the crashes.
  */
  lemma {:induction false} CleanRunsStayAudited(sys: System, run: seq<State>, i: nat)
    requires ValidSystem(sys) && IsRun(sys, run) && AllClean(run) && i < |run|
    ensures AreRecords(sys.cfg.nsym, run[i].writer.recs) && AuditedThroughout(sys, LogOf(sys, run[i].writer.recs))
  {
    hide Inv, Next, AuditedThroughout, AreRecords, LogOf;
    RunHoldsInv(sys, run, i);
    if i == 0 {
      NothingAudited(sys);
      NoRecordsYet(sys, run[0]);
    } else {
      CleanRunsStayAudited(sys, run, i - 1);
      RunHoldsInv(sys, run, i - 1);
      assert Step(sys, run, i - 1);
      CleanStepStaysAudited(sys, run[i - 1], run[i]);
    }
  }

  lemma NoRecordsYet(sys: System, s: State)
    requires ValidSystem(sys) && Init(sys, s)
    ensures s.writer.recs == [] && AreRecords(sys.cfg.nsym, [])
  {
  }

  lemma CleanStepStaysAudited(sys: System, s: State, s': State)
    requires ValidSystem(sys) && Inv(sys, s) && Next(sys, s, s') && s.clean && s'.clean
    requires AreRecords(sys.cfg.nsym, s.writer.recs) && AuditedThroughout(sys, LogOf(sys, s.writer.recs))
    ensures AreRecords(sys.cfg.nsym, s'.writer.recs) && AuditedThroughout(sys, LogOf(sys, s'.writer.recs))
  {
    hide Inv, AuditedThroughout, AreRecords, LogOf, Applied, Swept, Recovered, Authentic, IsImage, Adopts, LivePages;
    if bodies, params, h, recs :| CommitStep(sys, s, s', bodies, params, h, recs) {
      CommitKeepsAudited(sys, s, s', bodies, params, h, recs);
    } else if ReopenStep(sys, s, s') {
      CleanRecoveryIsExact(sys, s, s');
      AuditedThroughoutPrefix(sys, LogOf(sys, s'.writer.recs), LogOf(sys, s.writer.recs));
    }
  }

  // -------------------------------------------------------------- meta slots

  lemma ValidsOfTwo(x: Option<MetaSlot>, y: Option<MetaSlot>)
    ensures |Valids([x, y])| >= 1 <==> x.Some? || y.Some?
    ensures x.Some? && y.Some? ==> Valids([x, y]) == [x.value, y.value]
  {
    assert [x, y][1..] == [y] && [y][1..] == [];
  }

  lemma DurableIsImage(durable: ByteString, pending: seq<Write>)
    ensures IsImage(durable, pending, durable)
  {
  }

  lemma InvHasLog(sys: System, s: State)
    requires ValidSystem(sys) && Inv(sys, s)
    ensures LogAt(sys, s.durable, s.base, s.synced) && |s.slots| == 2
  {
    hide LogAt, LivePages, HintOk;
  }

  // ----------------------------------------------------------- a stale tail

  lemma WritesOfTwo(x: ByteString, y: ByteString)
    ensures WritesOf([x, y], 0) == [Write(0, x), Write(|x|, y)]
  {
    assert [x, y][..1] == [x] && [x][..0] == [];
    assert WritesOf([], 0) == [];
    JoinedOne(x);
    JoinedNothing();
    assert WritesOf([x], 0) == [] + [Write(0, x)];
  }

  lemma JoinedTwo(x: ByteString, y: ByteString)
    ensures Joined([x, y]) == x + y
  {
    assert [x, y] == [x] + [y];
    JoinedConcat([x], [y]);
    JoinedOne(x);
    JoinedOne(y);
  }

  /** A hole reads as no record at all. */
  lemma HoleEndsSweep(nsym: nat, n: nat, rest: ByteString)
    requires nsym < 255 && n >= LEN_PREFIX
    ensures Swept(nsym, Zeros(n) + rest) == []
  {
    var file := Zeros(n) + rest;
    assert file[..LEN_PREFIX] == Zeros(LEN_PREFIX);
    ZeroLength();
  }

  lemma ZeroLength()
    ensures FromLe(Zeros(4)) == 0
  {
    var z := Zeros(4);
    assert z[1..] == Zeros(3) && Zeros(3)[1..] == Zeros(2) && Zeros(2)[1..] == Zeros(1) && Zeros(1)[1..] == [];
  }

  lemma RecordIsLong(nsym: nat, rec: ByteString)
    requires nsym < 255 && IsRecord(nsym, rec)
    ensures |rec| >= LEN_PREFIX + CRYPTO_RESERVE
  {
  }

  /** With slots that point nowhere, recovery is the plain scan. */
  lemma GenesisSlots(sys: System, log: Log)
    requires ValidSystem(sys) && WellFormed(log)
    ensures var m := MetaFor(GenesisHead(sys.env, sys.fileId));
      Recovered(sys.env, log, [m, m]) == ScanAll(sys.env, log)
  {
    hide Scan, TryHeadAt;
    var m := MetaFor(GenesisHead(sys.env, sys.fileId));
    assert [m, m][1..] == [m] && [m][1..] == [];
    assert FirstHint(sys.env, log, [m]) == FirstHint(sys.env, log, []);
  }

  /** Two first commits, of one data page each, whose data records have the same length. */
  ghost predicate Rivals(sys: System, a: ByteString, pa: CommitParams, ha: Header, ra: ByteString, rha: ByteString,
                         b: ByteString, pb: CommitParams, hb: Header, rb: ByteString, rhb: ByteString)
    requires ValidSystem(sys)
  {
    && FirstCommit(sys, a, pa, ha, ra, rha) && FirstCommit(sys, b, pb, hb, rb, rhb) && |ra| == |rb| && a != b
  }

  ghost predicate FirstCommit(sys: System, a: ByteString, p: CommitParams, h: Header, ra: ByteString, rh: ByteString)
    requires ValidSystem(sys)
  {
    var genesis := GenesisHead(sys.env, sys.fileId);
    && DataPages(sys.env, [a]) && Continues(sys.env, LogOf(sys, []), genesis, p)
    && IsNext(sys.env, LogOf(sys, []), genesis, [a], p, h)
    && IsPage(sys.cfg, ra, FIRST_DATA_PAGE, a) && IsPage(sys.cfg, rh, FIRST_DATA_PAGE + 1, Encode(h))
  }

  /** The state after `s` commits the rival commit. */
  function Committed(s: State, a: ByteString, h: Header, ra: ByteString, rh: ByteString): (r: State)
    requires |h.branch| <= BRANCH_MAX
  {
    s.(pending := s.pending + [Write(0, ra), Write(|ra|, rh)], writer := Writer(HeadFrom(h, FIRST_DATA_PAGE + 1), [ra, rh]),
       live := s.live + Numbered(FIRST_DATA_PAGE, [a, Encode(h)]))
  }

  function Lost(s: State, image: ByteString): (r: State) {
    s.(durable := image, pending := [], alive := false)
  }

  lemma CommittedIsStep(sys: System, s: State, a: ByteString, p: CommitParams, h: Header, ra: ByteString, rh: ByteString)
    requires ValidSystem(sys) && FirstCommit(sys, a, p, h, ra, rh) && s.alive
    requires s.writer == Writer(GenesisHead(sys.env, sys.fileId), [])
    ensures |h.branch| <= BRANCH_MAX && Next(sys, s, Committed(s, a, h, ra, rh))
  {
    hide IsPage, Encode, SelfConsistent, Adopts, IsImage, AbortStep, SyncStep, WriteMetaStep, PowerLossStep, ReopenStep;
    assert [a] + [Encode(h)] == [a, Encode(h)];
    WritesOfTwo(ra, rh);
    JoinedNothing();
    assert [] + [ra, rh] == [ra, rh];
    assert ArePages(sys.cfg, [ra, rh], FIRST_DATA_PAGE, [a] + [Encode(h)]);
    assert CommitStep(sys, s, Committed(s, a, h, ra, rh), [a], p, h, [ra, rh]);
  }

  lemma LostIsStep(sys: System, s: State, image: ByteString)
    requires ValidSystem(sys) && |s.slots| == 2 && s.pendingSlot == None && IsImage(s.durable, s.pending, image)
    ensures Next(sys, s, Lost(s, image))
  {
    hide IsImage, CommitStep, AbortStep, SyncStep, WriteMetaStep, ReopenStep;
    assert PowerLossStep(s, Lost(s, image), image, s.slots);
  }

  /** A hole where the first commit's data was, then its commit page. */
  lemma HoleIsImage(ra: ByteString, rh: ByteString)
    ensures IsImage([], [Write(0, ra), Write(|ra|, rh)], Zeros(|ra|) + rh)
  {
    var image := Zeros(|ra|) + rh;
    var pending := [Write(0, ra), Write(|ra|, rh)];
    forall i | 0 <= i < |image|
      ensures ByteMaySurvive([], pending, i, image[i])
    {
      assert i >= |ra| ==> WroteByte(pending[1], i, image[i]);
    }
  }

  /** The second commit's data where the hole was; its commit page did not make it. */
  lemma MixIsImage(ra: ByteString, rha: ByteString, rb: ByteString, rhb: ByteString)
    requires |ra| == |rb|
    ensures IsImage(Zeros(|ra|) + rha, [Write(0, rb), Write(|rb|, rhb)], rb + rha)
  {
    var durable, image := Zeros(|ra|) + rha, rb + rha;
    var pending := [Write(0, rb), Write(|rb|, rhb)];
    forall i | 0 <= i < |image|
      ensures ByteMaySurvive(durable, pending, i, image[i])
    {
      if i < |rb| {
        assert WroteByte(pending[0], i, image[i]);
      }
    }
  }

  /** Opening on the hole: an empty store again. */
  lemma ReopenOnHole(sys: System, s: State, ra: ByteString, rh: ByteString)
    requires ValidSystem(sys) && s.durable == Zeros(|ra|) + rh && s.pending == [] && !s.alive && IsRecord(sys.cfg.nsym, ra)
    requires var m := MetaFor(GenesisHead(sys.env, sys.fileId)); s.slots == [Some(m), Some(m)] && s.pendingSlot == None
    requires s.writer.recs != []
    ensures Next(sys, s, s.(alive := true, writer := Writer(GenesisHead(sys.env, sys.fileId), []), clean := false))
  {
    hide CommitStep, AbortStep, SyncStep, WriteMetaStep, PowerLossStep, IsRecord, Scan, PageIn, Applied, Recovered, Swept, Joined;
    var genesis := GenesisHead(sys.env, sys.fileId);
    RecordIsLong(sys.cfg.nsym, ra);
    HoleEndsSweep(sys.cfg.nsym, |ra|, rh);
    AppliedNothing(s.durable);
    ValidsOfTwo(s.slots[0], s.slots[1]);
    GenesisSlots(sys, SweptLog(sys, s.durable));
    ScanUnfold(sys.env, SweptLog(sys, s.durable), genesis, FIRST_DATA_PAGE);
    JoinedNothing();
    assert ReopenStep(sys, s, s.(alive := true, writer := Writer(genesis, []), clean := false));
  }

  /** The log of the mixture. */
  lemma MixedLog(sys: System, a: ByteString, pa: CommitParams, ha: Header, ra: ByteString, rha: ByteString,
                 b: ByteString, pb: CommitParams, hb: Header, rb: ByteString, rhb: ByteString)
    requires ValidSystem(sys) && Rivals(sys, a, pa, ha, ra, rha, b, pb, hb, rb, rhb)
    ensures |ha.branch| <= BRANCH_MAX && IsRecord(sys.cfg.nsym, ra) && AreRecords(sys.cfg.nsym, [rb, rha])
    ensures Swept(sys.cfg.nsym, rb + rha) == [rb, rha]
    ensures SweptLog(sys, rb + rha) == LogOf(sys, [rb, rha])
    ensures LogOf(sys, [rb, rha]).pages == [Some(b), Some(Encode(ha))]
    ensures ScanAll(sys.env, LogOf(sys, [rb, rha])) == HeadFrom(ha, FIRST_DATA_PAGE + 1)
  {
    hide Swept, Joined, IsPage, PageIn, IsRecord, Encode, SelfConsistent, Adopts, HeaderAt, Decode;
    var genesis, log := GenesisHead(sys.env, sys.fileId), LogOf(sys, []);
    PageIsRecord(sys.cfg, ra, FIRST_DATA_PAGE, a);
    PageIsRecord(sys.cfg, rb, FIRST_DATA_PAGE, b);
    PageIsRecord(sys.cfg, rha, FIRST_DATA_PAGE + 1, Encode(ha));
    var recs := [rb, rha];
    JoinedTwo(rb, rha);
    SweepFindsRecords(sys.cfg.nsym, recs, []);
    NoRecords(sys.cfg.nsym, []);
    assert Joined(recs) + [] == rb + rha && recs + [] == recs;
    GenesisAdopted(sys);
    NextIsFollower(sys.env, log, genesis, [a], pa, ha);
    CommitIsAdopted(sys.env, log, genesis, [b], ha);
    assert LogOf(sys, recs).pages == [Some(b), Some(Encode(ha))];
    assert WithCommit(log, [b], ha).pages == [Some(b), Some(Encode(ha))];
    WholeScan(sys.env, LogOf(sys, recs), HeadFrom(ha, FIRST_DATA_PAGE + 1));
  }

  lemma WholeScan(env: Env, log: Log, head: Head)
    requires WellFormed(log) && Adopts(env, log, head) && head.nPages == End(log)
    ensures ScanAll(env, log) == head
  {
    hide ScanAll;
    assert log.pages[..|log.pages|] == log.pages;
    assert Prefix(log, |log.pages|) == log;
  }

  lemma MixtureIsAuthentic(sys: System, s: State, rb: ByteString, rha: ByteString, b: ByteString, ha: Header)
    requires ValidSystem(sys) && s.durable == rb + rha && |ha.branch| <= BRANCH_MAX
    requires AreRecords(sys.cfg.nsym, [rb, rha]) && SweptLog(sys, rb + rha) == LogOf(sys, [rb, rha])
    requires LogOf(sys, [rb, rha]).pages == [Some(b), Some(Encode(ha))]
    requires (FIRST_DATA_PAGE, b) in s.live && (FIRST_DATA_PAGE + 1, Encode(ha)) in s.live
    ensures Authentic(sys, s.durable, s.live)
  {
    hide Encode, PagesOf, Swept, SweptLog, LogOf, IsRecord;
  }

  lemma ReopenOnMixture(sys: System, s: State, rb: ByteString, rha: ByteString, b: ByteString, ha: Header)
    requires ValidSystem(sys) && s.durable == rb + rha && s.pending == [] && !s.alive && |ha.branch| <= BRANCH_MAX
    requires var m := MetaFor(GenesisHead(sys.env, sys.fileId)); s.slots == [Some(m), Some(m)] && s.pendingSlot == None
    requires AreRecords(sys.cfg.nsym, [rb, rha]) && Swept(sys.cfg.nsym, rb + rha) == [rb, rha]
    requires SweptLog(sys, rb + rha) == LogOf(sys, [rb, rha])
    requires LogOf(sys, [rb, rha]).pages == [Some(b), Some(Encode(ha))]
    requires ScanAll(sys.env, LogOf(sys, [rb, rha])) == HeadFrom(ha, FIRST_DATA_PAGE + 1)
    requires (FIRST_DATA_PAGE, b) in s.live && (FIRST_DATA_PAGE + 1, Encode(ha)) in s.live
    ensures Next(sys, s, s.(alive := true, writer := Writer(HeadFrom(ha, FIRST_DATA_PAGE + 1), [rb, rha]),
                            clean := true, live := LivePages(sys, [rb, rha])))
  {
    hide CommitStep, AbortStep, SyncStep, WriteMetaStep, PowerLossStep, Swept, Scan, Encode, PagesOf, LivePages, ScanAll;
    hide Authentic, Recovered, Joined, IsRecord, KillStep, Applied;
    AppliedNothing(s.durable);
    ValidsOfTwo(s.slots[0], s.slots[1]);
    var log := LogOf(sys, [rb, rha]);
    GenesisSlots(sys, log);
    JoinedTwo(rb, rha);
    MixtureIsAuthentic(sys, s, rb, rha, b, ha);
    assert [rb, rha][..2] == [rb, rha];
    var s' := s.(alive := true, writer := Writer(HeadFrom(ha, FIRST_DATA_PAGE + 1), [rb, rha]),
                 clean := true, live := LivePages(sys, [rb, rha]));
    assert ReopenStep(sys, s, s');
  }

  /**
    A half-written commit can be adopted.  Take any two rivals for the first commit.
    There is a run, with two power losses, after which the store is open on the first
    one's commit page and roots, over the second one's data page.  The integrity tags
    pass, as each page was written as that page; only the content hash tells.
  */
  lemma StaleTailCanBeAdopted(sys: System, a: ByteString, pa: CommitParams, ha: Header, ra: ByteString, rha: ByteString,
                              b: ByteString, pb: CommitParams, hb: Header, rb: ByteString, rhb: ByteString) returns (run: seq<State>)
    requires ValidSystem(sys) && Rivals(sys, a, pa, ha, ra, rha, b, pb, hb, rb, rhb)
    ensures IsRun(sys, run) && run[|run| - 1].alive && AreRecords(sys.cfg.nsym, run[|run| - 1].writer.recs)
    ensures run[|run| - 1].writer.head == HeadFrom(ha, FIRST_DATA_PAGE + 1)
    ensures ha.contentHash == sys.env.sha(JoinedBodies([a]))
    ensures Bodies(LogOf(sys, run[|run| - 1].writer.recs), FIRST_DATA_PAGE, 1) == Some(b)
  {
    hide Next, IsPage, IsRecord, Encode, PagesOf, LivePages, IsImage, ScanAll, Swept, SelfConsistent, Continues, IsNext;
    MixedLog(sys, a, pa, ha, ra, rha, b, pb, hb, rb, rhb);
    RivalsFit(sys, a, pa, ha, ra, rha, b, pb, hb, rb, rhb);
    var genesis := GenesisHead(sys.env, sys.fileId);
    var slots := [Some(MetaFor(genesis)), Some(MetaFor(genesis))];
    var s0 := State([], [], slots, None, true, Writer(genesis, []), genesis, [], {}, true);
    var s1 := Committed(s0, a, ha, ra, rha);
    CommittedIsStep(sys, s0, a, pa, ha, ra, rha);
    var s2 := Lost(s1, Zeros(|ra|) + rha);
    HoleIsImage(ra, rha);
    assert s1.pending == [Write(0, ra), Write(|ra|, rha)];
    LostIsStep(sys, s1, Zeros(|ra|) + rha);
    var s3 := s2.(alive := true, writer := Writer(genesis, []), clean := false);
    ReopenOnHole(sys, s2, ra, rha);
    var s4 := Committed(s3, b, hb, rb, rhb);
    CommittedIsStep(sys, s3, b, pb, hb, rb, rhb);
    var s5 := Lost(s4, rb + rha);
    MixIsImage(ra, rha, rb, rhb);
    assert s4.pending == [Write(0, rb), Write(|rb|, rhb)];
    LostIsStep(sys, s4, rb + rha);
    InNumbered(FIRST_DATA_PAGE, b, Encode(hb));
    InNumbered(FIRST_DATA_PAGE, a, Encode(ha));
    var s6 := s5.(alive := true, writer := Writer(HeadFrom(ha, FIRST_DATA_PAGE + 1), [rb, rha]),
                  clean := true, live := LivePages(sys, [rb, rha]));
    ReopenOnMixture(sys, s5, rb, rha, b, ha);
    run := [s0, s1, s2, s3, s4, s5, s6];
    forall i | 0 <= i < |run| - 1
      ensures Step(sys, run, i)
    {
      StepsOfSeven(sys, run, i);
    }
    OnePage(LogOf(sys, [rb, rha]), b);
  }

  lemma StepsOfSeven(sys: System, run: seq<State>, i: nat)
    requires ValidSystem(sys) && |run| == 7 && i < 6
    requires Next(sys, run[0], run[1]) && Next(sys, run[1], run[2]) && Next(sys, run[2], run[3])
    requires Next(sys, run[3], run[4]) && Next(sys, run[4], run[5]) && Next(sys, run[5], run[6])
    ensures Step(sys, run, i)
  {
    hide Next;
  }

  lemma InNumbered(first: nat, x: ByteString, y: ByteString)
    ensures (first, x) in Numbered(first, [x, y]) && (first + 1, y) in Numbered(first, [x, y])
  {
    var bodies := [x, y];
    assert (first + 0, bodies[0]) in Numbered(first, bodies);
    assert (first + 1, bodies[1]) in Numbered(first, bodies);
  }

  lemma OnePage(log: Log, b: ByteString)
    requires |log.pages| == 2 && log.pages[0] == Some(b)
    ensures Bodies(log, FIRST_DATA_PAGE, 1) == Some(b)
  {
    assert Bodies(log, FIRST_DATA_PAGE, 0) == Some([]);
    assert [] + b == b;
  }

  lemma RivalsFit(sys: System, a: ByteString, pa: CommitParams, ha: Header, ra: ByteString, rha: ByteString,
                  b: ByteString, pb: CommitParams, hb: Header, rb: ByteString, rhb: ByteString)
    requires ValidSystem(sys) && Rivals(sys, a, pa, ha, ra, rha, b, pb, hb, rb, rhb)
    ensures FirstCommit(sys, a, pa, ha, ra, rha) && FirstCommit(sys, b, pb, hb, rb, rhb) && |ra| == |rb|
    ensures |ha.branch| <= BRANCH_MAX && |hb.branch| <= BRANCH_MAX
    ensures ha.contentHash == sys.env.sha(JoinedBodies([a]))
  {
    hide Continues, IsPage, SelfConsistent;
  }
}
