/**
  One small store in which things go wrong as `CrashSafety` and `Openability` say they can:
  no error correction, no compression, a seal that only puts its mark in front, and a
  digest that tells the data pages of the runs apart.
*/
module CrashExample {
  import opened Options
  import opened Bytes
  import opened LittleEndian
  import opened Commit
  import opened Records
  import opened Recovery
  import opened AuditedWriting
  import opened Pager
  import opened CrashSafety
  import opened Openability

  /** The last byte of the message, 32 times. */
  function LastByteDigest(message: ByteString): (r: Digest) {
    if message == [] then seq(32, _ => 0) else seq(32, _ => message[|message| - 1])
  }

  function AnyText(text: ByteString): (r: bool) {
    true
  }

  function Mark(): (m: ByteString)
    ensures |m| == CRYPTO_RESERVE && m[0] == 1
  {
    [1] + Zeros(CRYPTO_RESERVE - 1)
  }

  function AddMark(body: ByteString, id: nat, counter: nat): (r: ByteString) {
    Mark() + body
  }

  function DropMark(payload: ByteString, id: nat): (r: Option<ByteString>) {
    if |payload| < CRYPTO_RESERVE || payload[..CRYPTO_RESERVE] != Mark() then None else Some(payload[CRYPTO_RESERVE..])
  }

  function Plain(): (r: Config) {
    Config(Cipher(AddMark, DropMark), false, 0)
  }

  function Small(): (r: System) {
    System(Env(LastByteDigest, AnyText), Plain(), Zeros(16), false)
  }

  lemma SmallIsValid()
    ensures ValidSystem(Small())
  {
    forall body: ByteString, id: nat, counter: nat
      ensures DropMark(AddMark(body, id, counter), id) == Some(body)
      ensures |AddMark(body, id, counter)| == CRYPTO_RESERVE + |body|
    {
      assert (Mark() + body)[..CRYPTO_RESERVE] == Mark() && (Mark() + body)[CRYPTO_RESERVE..] == body;
    }
  }

  function Trimmed(body: ByteString): (t: ByteString)
    ensures |t| <= |body|
  {
    if body == [] || body[|body| - 1] != 0 then body else Trimmed(body[..|body| - 1])
  }

  lemma {:induction false} TrimmedPads(body: ByteString)
    ensures Trimmed(body) + Zeros(|body| - |Trimmed(body)|) == body
  {
    if body == [] || body[|body| - 1] != 0 {
      assert body + Zeros(0) == body;
    } else {
      var front := body[..|body| - 1];
      TrimmedPads(front);
      assert Zeros(|body| - |Trimmed(body)|) == Zeros(|front| - |Trimmed(front)|) + [0];
      assert body == front + [0];
    }
  }

  /** The record of a page in the small store. */
  function RecordOf(body: ByteString): (r: ByteString) {
    var stored := Mark() + Trimmed(body);
    Le(|stored|, 4) + stored
  }

  lemma RecordIsPage(id: nat, body: ByteString)
    requires |body| == BODY_SIZE
    ensures IsPage(Plain(), RecordOf(body), id, body)
  {
    hide Le, FromLe, Trimmed;
    var rec, stored := RecordOf(body), Mark() + Trimmed(body);
    LeRoundTrip32(|stored|);
    assert rec[..LEN_PREFIX] == Le(|stored|, 4);
    assert rec[LEN_PREFIX..LEN_PREFIX + |stored|] == stored;
    assert stored[..CRYPTO_RESERVE] == Mark() && stored[CRYPTO_RESERVE..] == Trimmed(body);
    TrimmedPads(body);
  }

  /** A data page that ends in x. */
  function DataPage(x: Byte): (body: ByteString)
    ensures |body| == BODY_SIZE && body[0] == 0 && body[BODY_SIZE - 1] == x
  {
    Zeros(BODY_SIZE - 1) + [x]
  }

  function FirstParams(): (r: CommitParams) {
    After(GenesisHead(Small().env, Small().fileId), [], 0)
  }

  function FirstHeader(body: ByteString): (r: Header) {
    NewHeader(Small().env, FirstParams(), 0, 0, 0, 2, 2, body)
  }

  lemma IsFirstCommit(x: Byte)
    ensures ValidSystem(Small()) && |FirstHeader(DataPage(x)).branch| <= BRANCH_MAX
    ensures var h := FirstHeader(DataPage(x));
      FirstCommit(Small(), DataPage(x), FirstParams(), h, RecordOf(DataPage(x)), RecordOf(Encode(h)))
  {
    hide IsPage, Encode, RecordOf, DataPage, GenesisChain;
    SmallIsValid();
    var body := DataPage(x);
    var h := FirstHeader(body);
    RecordIsPage(FIRST_DATA_PAGE, body);
    RecordIsPage(FIRST_DATA_PAGE + 1, Encode(h));
    assert body[..8][0] != MagicCommit()[0];
    OneBody(body);
    var env := Small().env;
    assert PagesOf(Plain(), []) == [];
  }

  /** Power lost twice, and the store is open on a commit over a data page that it did not write. */
  lemma HalfWrittenCommitIsAdopted() returns (run: seq<State>)
    ensures ValidSystem(Small()) && IsRun(Small(), run) && run[|run| - 1].alive
    ensures run[|run| - 1].writer.head == HeadFrom(FirstHeader(DataPage(1)), FIRST_DATA_PAGE + 1)
    ensures AreRecords(Small().cfg.nsym, run[|run| - 1].writer.recs)
    ensures Bodies(LogOf(Small(), run[|run| - 1].writer.recs), FIRST_DATA_PAGE, 1) == Some(DataPage(2))
    ensures FirstHeader(DataPage(1)).contentHash != Small().env.sha(DataPage(2))
  {
    hide IsPage, FirstCommit, IsRun, Encode, Bodies, PagesOf, DataPage;
    var sys := Small();
    var a, b := DataPage(1), DataPage(2);
    IsFirstCommit(1);
    IsFirstCommit(2);
    var ha, hb := FirstHeader(a), FirstHeader(b);
    SameLength();
    run := StaleTailCanBeAdopted(sys, a, FirstParams(), ha, RecordOf(a), RecordOf(Encode(ha)),
                                 b, FirstParams(), hb, RecordOf(b), RecordOf(Encode(hb)));
    OneBody(a);
    assert sys.env.sha(a)[0] == 1 && sys.env.sha(b)[0] == 2;
  }

  lemma OneBody(body: ByteString)
    ensures JoinedBodies([body]) == body
  {
    var bodies := [body];
    assert bodies[..0] == [];
    assert JoinedBodies(bodies[..0]) == [];
    assert [] + body == body;
  }

  lemma SameLength()
    ensures |RecordOf(DataPage(1))| == |RecordOf(DataPage(2))|
  {
  }

  // --------------------------------------------------------- both slots lost

  /** Everything is synced, and the file holds the log and nothing else. */
  ghost predicate Settled(s: State)
    requires ValidSystem(Small())
  {
    && Inv(Small(), s) && s.clean && s.pending == [] && s.pendingSlot == None
    && s.durable == Joined(s.base) && s.writer == Writer(s.synced, s.base)
    && s.synced.version < 2 && s.synced.commitPage < 6
  }

  function NextHeader(head: Head, body: ByteString): (r: Header)
    requires head.version < 2 && head.commitPage < 6
  {
    NewHeader(Small().env, After(head, [], 0), 0, 0, 0, 0, 2, body)
  }

  /** The state after one more commit, of one data page. */
  function WithCommitOf(s: State, body: ByteString): (r: State)
    requires s.writer.head.version < 2 && s.writer.head.commitPage < 6
  {
    var w := s.writer;
    var h := NextHeader(w.head, body);
    var recs := [RecordOf(body), RecordOf(Encode(h))];
    s.(pending := s.pending + WritesOf(recs, |Joined(w.recs)|),
       writer := Writer(HeadFrom(h, w.head.nPages + 1), w.recs + recs),
       live := s.live + Numbered(w.head.nPages, [body] + [Encode(h)]))
  }

  function Synced(s: State): (r: State) {
    s.(durable := View(s), pending := [], slots := SlotsNow(s), pendingSlot := None, synced := s.writer.head, base := s.writer.recs)
  }

  function WritingSlot(s: State): (r: State) {
    s.(pendingSlot := Some(MetaFor(s.synced)))
  }

  /** Power is lost while the slot is written. */
  function TornSlot(s: State): (r: State)
    requires s.pendingSlot.Some? && |s.slots| == 2
  {
    s.(slots := s.slots[s.pendingSlot.value.version % 2 := None], pendingSlot := None, alive := false)
  }

  lemma CommitOfIsStep(s: State, body: ByteString)
    requires ValidSystem(Small()) && Settled(s) && s.alive && |body| == BODY_SIZE && body[0] == 0
    ensures Next(Small(), s, WithCommitOf(s, body))
  {
    hide IsPage, Encode, RecordOf, GenesisChain, Adopts, PagesOf, AbortStep, SyncStep, WriteMetaStep, PowerLossStep, ReopenStep;
    hide WritesOf, Joined, LivePages, IsRecord, SlotsOk;
    var head := s.writer.head;
    var params, h := After(head, [], 0), NextHeader(head, body);
    var recs := [RecordOf(body), RecordOf(Encode(h))];
    RecordIsPage(head.nPages, body);
    RecordIsPage(head.nPages + 1, Encode(h));
    assert body[..8][0] != MagicCommit()[0];
    OneBody(body);
    AdoptedBehind(s);
    assert CommitStep(Small(), s, WithCommitOf(s, body), [body], params, h, recs);
  }

  /** A head's commit page is in the log. */
  lemma AdoptedBehind(s: State)
    requires ValidSystem(Small()) && Settled(s) && s.alive
    ensures AreRecords(0, s.writer.recs) && End(LogOf(Small(), s.writer.recs)) == s.writer.head.nPages
    ensures s.writer.head.commitPage < s.writer.head.nPages
  {
    hide Adopts, PagesOf, LivePages, IsRecord, SlotsOk, Joined;
    ScanFromAdopted(Small().env, LogOf(Small(), s.writer.recs), s.writer.head);
  }

  lemma PutBehind(file: ByteString, bytes: ByteString)
    ensures Put(file, Write(|file|, bytes)) == file + bytes
  {
    assert WriteAt(file, |file|, bytes) == file + bytes;
  }

  lemma LastWrite(recs: seq<ByteString>, offset: nat)
    requires recs != []
    ensures var ws := WritesOf(recs, offset);
      && ws != [] && ws[..|ws| - 1] == WritesOf(recs[..|recs| - 1], offset)
      && ws[|ws| - 1] == Write(offset + |Joined(recs[..|recs| - 1])|, recs[|recs| - 1])
  {
    hide Joined;
  }

  /** Written behind a file that is all log, records are all that is added. */
  lemma {:induction false} AppliedExactly(file: ByteString, recs: seq<ByteString>)
    ensures Applied(file, WritesOf(recs, |file|)) == file + Joined(recs)
  {
    hide Joined, Put, WritesOf;
    if recs == [] {
      JoinedNothing();
      NoWrites(|file|);
      assert file + [] == file;
    } else {
      var front, last := recs[..|recs| - 1], recs[|recs| - 1];
      AppliedExactly(file, front);
      SplitLast(recs);
      LastWrite(recs, |file|);
      PutBehind(file + Joined(front), last);
      Regroup(file, Joined(front), last);
    }
  }

  lemma NoWrites(offset: nat)
    ensures WritesOf([], offset) == []
  {
  }

  lemma Regroup(a: ByteString, b: ByteString, c: ByteString)
    ensures a + b + c == a + (b + c)
  {
  }

  lemma SyncIsStep(s: State)
    requires ValidSystem(Small()) && Inv(Small(), s) && s.alive
    ensures Next(Small(), s, Synced(s)) && Inv(Small(), Synced(s))
  {
    hide Inv, CommitStep, AbortStep, WriteMetaStep, PowerLossStep, ReopenStep, Applied;
    assert SyncStep(s, Synced(s));
    SyncKeepsInv(Small(), s, Synced(s));
  }

  lemma SlotWriteIsStep(s: State)
    requires ValidSystem(Small()) && Inv(Small(), s) && s.alive && s.pendingSlot == None
    ensures Next(Small(), s, WritingSlot(s)) && Inv(Small(), WritingSlot(s))
  {
    hide CommitStep, AbortStep, SyncStep, PowerLossStep, ReopenStep, Applied, Adopts, LivePages, PagesOf, IsRecord, SlotsOk;
    assert WriteMetaStep(Small(), s, WritingSlot(s), s.synced);
    WriteMetaKeepsInv(Small(), s, WritingSlot(s), s.synced);
  }

  lemma TearIsStep(s: State)
    requires ValidSystem(Small()) && Inv(Small(), s) && s.pending == [] && s.pendingSlot.Some? && |s.slots| == 2
    ensures Next(Small(), s, TornSlot(s)) && Inv(Small(), TornSlot(s))
  {
    hide Inv, CommitStep, AbortStep, SyncStep, WriteMetaStep, ReopenStep, Applied;
    DurableIsImage(s.durable, s.pending);
    var s' := TornSlot(s);
    assert PowerLossStep(s, s', s.durable, s'.slots);
    PowerLossKeepsInv(Small(), s, s', s.durable, s'.slots);
  }

  /** A commit, synced. */
  lemma CommittedAndSynced(s: State, body: ByteString)
    requires ValidSystem(Small()) && Settled(s) && s.alive && |body| == BODY_SIZE && body[0] == 0
    ensures var t := WithCommitOf(s, body); var u := Synced(t);
      && Next(Small(), s, t) && Next(Small(), t, u) && Inv(Small(), u) && u.durable == Joined(u.base)
  {
    hide Inv, CommitStep, AbortStep, SyncStep, WriteMetaStep, PowerLossStep, ReopenStep, Applied, Joined, WritesOf, RecordOf;
    hide Encode, Numbered, NextHeader, Next;
    var t := WithCommitOf(s, body);
    CommitOfIsStep(s, body);
    StepKeepsInv(Small(), s, t);
    SyncIsStep(t);
    var recs := t.writer.recs[|s.base|..];
    AppliedExactly(s.durable, recs);
    JoinedConcat(s.base, recs);
    assert [] + WritesOf(recs, |Joined(s.base)|) == WritesOf(recs, |Joined(s.base)|);
  }

  /** Commit, sync, and a slot write that a power loss tears: the log is whole, the slot is gone. */
  lemma TornRound(s: State, body: ByteString)
    requires ValidSystem(Small()) && Settled(s) && s.alive && |body| == BODY_SIZE && body[0] == 0
    ensures |s.slots| == 2
    ensures var t := WithCommitOf(s, body); var u := Synced(t); var w := WritingSlot(u);
      && |w.slots| == 2 && w.pendingSlot.Some? && Next(Small(), s, t) && Next(Small(), t, u) && Next(Small(), u, w) && Next(Small(), w, TornSlot(w))
    ensures var x := TornSlot(WritingSlot(Synced(WithCommitOf(s, body))));
      && Inv(Small(), x) && x.clean && x.pending == [] && x.pendingSlot == None && x.durable == Joined(x.base) && !x.alive
      && x.writer == Writer(x.synced, x.base) && x.synced.version == s.synced.version + 1
      && x.synced.commitPage == s.synced.nPages + 1 && x.synced.nPages == s.synced.nPages + 2
      && x.slots == s.slots[x.synced.version % 2 := None]
  {
    hide Inv, Applied, Joined, WritesOf, RecordOf, Encode, Numbered, Next;
    InvHasLog(Small(), s);
    CommittedAndSynced(s, body);
    var u := Synced(WithCommitOf(s, body));
    SlotWriteIsStep(u);
    TearIsStep(WritingSlot(u));
  }

  /** Opening what is settled: everything is found again. */
  lemma OpenIsStep(s: State)
    requires ValidSystem(Small()) && Inv(Small(), s) && s.clean && s.pending == [] && s.pendingSlot == None && !s.alive
    requires s.durable == Joined(s.base) && s.writer == Writer(s.synced, s.base) && |Valids(s.slots)| >= 1
    ensures Next(Small(), s, s.(alive := true)) && Inv(Small(), s.(alive := true))
  {
    hide CommitStep, AbortStep, SyncStep, WriteMetaStep, PowerLossStep, Applied, Joined, Swept, Adopts, IsRecord, PageIn, SlotsOk;
    hide Recovered, ScanAll, PagesOf;
    var sys, s' := Small(), s.(alive := true);
    AppliedNothing(s.durable);
    assert Joined(s.base) + [] == s.durable;
    SweepFindsRecords(0, s.base, []);
    NoRecords(0, []);
    SweptAreRecords(0, s.durable);
    var log := SweptLog(sys, s.durable);
    assert Swept(0, s.durable) == s.base;
    SlotsHarmless(sys, s, log);
    SlotsAreOnlyHints(sys.env, log, Valids(SlotsNow(s)));
    WholeScan(sys.env, log, s.synced);
    AdoptsWithin(sys.env, log, s.synced);
    assert s.base[..|s.base|] == s.base;
    assert Authentic(sys, s.durable, s.live);
    assert ReopenStep(sys, s, s');
    ReopenKeepsInv(sys, s, s');
  }

  /** Two torn slot writes, one opening apart, and the store does not open, though nothing is wrong with its log. */
  lemma BothSlotsCanBeLost() returns (run: seq<State>)
    ensures ValidSystem(Small()) && IsRun(Small(), run) && AllClean(run)
    ensures var last := run[|run| - 1];
      && LogAt(Small(), last.durable, last.base, last.synced) && last.synced.version == 2
      && !last.alive && last.slots == [None, None] && !Openable(Small(), last)
  {
    hide Inv, Next, WithCommitOf, Synced, WritingSlot, TornSlot, LogAt;
    SmallIsValid();
    var sys := Small();
    var genesis := GenesisHead(sys.env, sys.fileId);
    var m := MetaFor(genesis);
    var s := State([], [], [Some(m), Some(m)], None, true, Writer(genesis, []), genesis, [], {}, true);
    InitHoldsInv(sys, s);
    JoinedNothing();
    TornRound(s, DataPage(1));
    var t := WithCommitOf(s, DataPage(1));
    var x := TornSlot(WritingSlot(Synced(t)));
    ValidsOfTwo(Some(m), None);
    OpenIsStep(x);
    var y := x.(alive := true);
    TornRound(y, DataPage(2));
    var t' := WithCommitOf(y, DataPage(2));
    var z := TornSlot(WritingSlot(Synced(t')));
    ValidsOfTwo(None, None);
    run := [s, t, Synced(t), WritingSlot(Synced(t)), x, y, t', Synced(t'), WritingSlot(Synced(t')), z];
    forall i | 0 <= i < |run| - 1
      ensures Step(sys, run, i)
    {
      StepsOfTen(sys, run, i);
    }
    CleanThroughout(s, DataPage(1));
    CleanThroughout(y, DataPage(2));
    InvHasLog(sys, z);
  }

  lemma StepsOfTen(sys: System, run: seq<State>, i: nat)
    requires ValidSystem(sys) && |run| == 10 && i < 9
    requires Next(sys, run[0], run[1]) && Next(sys, run[1], run[2]) && Next(sys, run[2], run[3])
    requires Next(sys, run[3], run[4]) && Next(sys, run[4], run[5]) && Next(sys, run[5], run[6])
    requires Next(sys, run[6], run[7]) && Next(sys, run[7], run[8]) && Next(sys, run[8], run[9])
    ensures Step(sys, run, i)
  {
    hide Next;
  }

  lemma CleanThroughout(s: State, body: ByteString)
    requires s.clean && s.writer.head.version < 2 && s.writer.head.commitPage < 6
    ensures var t := WithCommitOf(s, body); t.clean && Synced(t).clean && WritingSlot(Synced(t)).clean
  {
    hide WritesOf, RecordOf, Encode, Applied;
  }

  // ------------------------------------------------- the right key refused

  /** The same store, encrypted. */
  function Keyed(): (r: System) {
    Small().(encrypted := true)
  }

  lemma KeyedRefusesBlanks()
    ensures ValidSystem(Keyed()) && RefusesBlanks(Keyed())
  {
    hide FromLe;
    SmallIsValid();
    forall rec: ByteString | IsRecord(0, rec) && forall i :: LEN_PREFIX <= i < |rec| ==> rec[i] == 0
      ensures PageIn(Plain(), rec, FIRST_DATA_PAGE).None?
    {
      var payload := PayloadOf(0, rec);
      assert payload[0] == rec[LEN_PREFIX] == 0;
      assert payload[..CRYPTO_RESERVE][0] == 0 && Mark()[0] == 1;
    }
  }

  lemma KeyedFirstCommit(x: Byte)
    ensures ValidSystem(Keyed()) && |FirstHeader(DataPage(x)).branch| <= BRANCH_MAX
    ensures var h := FirstHeader(DataPage(x));
      FirstCommit(Keyed(), DataPage(x), FirstParams(), h, RecordOf(DataPage(x)), RecordOf(Encode(h)))
  {
    hide IsPage, Encode, RecordOf, DataPage, GenesisChain, Continues, IsNext, PagesOf;
    SmallIsValid();
    IsFirstCommit(x);
    assert LogOf(Keyed(), []) == LogOf(Small(), []);
  }

  /** Power lost in the first commit of an encrypted store: both slots read, and the store does not open. */
  lemma TornFirstCommitIsRefused() returns (run: seq<State>)
    ensures ValidSystem(Keyed()) && IsRun(Keyed(), run) && AllClean(run)
    ensures var last := run[|run| - 1];
      !last.alive && |last.slots| == 2 && last.slots[0].Some? && last.slots[1].Some? && !Openable(Keyed(), last)
  {
    hide IsPage, IsRecord, FirstCommit, Encode, PagesOf, DataPage, Next, FirstPageReads, RecordOf, IsImage, RefusesBlanks;
    var sys := Keyed();
    KeyedFirstCommit(1);
    KeyedRefusesBlanks();
    var a := DataPage(1);
    var h, ra := FirstHeader(a), RecordOf(a);
    var rh := RecordOf(Encode(h));
    RecordIsPage(FIRST_DATA_PAGE, a);
    PageIsRecord(sys.cfg, ra, FIRST_DATA_PAGE, a);
    RecordIsLong(sys.cfg.nsym, ra);
    var genesis := GenesisHead(sys.env, sys.fileId);
    var slots := [Some(MetaFor(genesis)), Some(MetaFor(genesis))];
    var s := State([], [], slots, None, true, Writer(genesis, []), genesis, [], {}, true);
    CommittedIsStep(sys, s, a, FirstParams(), h, ra, rh);
    var t := Committed(s, a, h, ra, rh);
    BlankedIsImage(t, ra);
    LostIsStep(sys, t, Blanked(ra));
    BlankedDoesNotRead(sys, ra);
    AppliedNothing(Blanked(ra));
    run := [s, t, Lost(t, Blanked(ra))];
    assert Step(sys, run, 0) && Step(sys, run, 1);
  }
}
