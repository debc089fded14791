/**
  When a store can be opened after a power loss (`open_keyed_with` and `read_meta` of
  `src/pager.rs`, the alternation of `src/format.rs`): slots and, where the file is
  encrypted, the first page.
*/
module Openability {
  import opened Options
  import opened Bytes
  import opened LittleEndian
  import opened Commit
  import opened Records
  import opened Recovery
  import opened AuditedWriting
  import opened Pager
  import opened CrashSafety
  import Ecc

  predicate BeingRewritten(s: State, i: nat) {
    s.pendingSlot.Some? && i == s.pendingSlot.value.version % 2
  }

  /** Some readable slot is not the one being rewritten. */
  predicate SlotSurvives(s: State)
    requires |s.slots| == 2
  {
    exists i :: 0 <= i < 2 && s.slots[i].Some? && !BeingRewritten(s, i)
  }

  ghost predicate SurvivesPowerLoss(sys: System, s: State)
    requires ValidSystem(sys)
  {
    forall s', image, slots :: PowerLossStep(s, s', image, slots) ==> Openable(sys, s')
  }

  /** Some slot is readable whatever the power loss does, if one survives. */
  lemma SlotLeft(s: State, s': State, image: ByteString, slots: seq<Option<MetaSlot>>)
    requires |s.slots| == 2 && SlotSurvives(s) && PowerLossStep(s, s', image, slots)
    ensures |Valids(SlotsNow(s'))| >= 1
  {
    hide IsImage;
    var i :| 0 <= i < 2 && s.slots[i].Some? && !BeingRewritten(s, i);
    assert slots == [slots[0], slots[1]] && slots[i] == s.slots[i];
    ValidsOfTwo(slots[0], slots[1]);
  }

  /** The power loss that keeps an image and loses whatever slots it can. */
  function Worst(s: State, image: ByteString): (s': State)
    requires |s.slots| == 2
  {
    var slots := if SlotSurvives(s) then s.slots else [None, None];
    s.(durable := image, pending := [], slots := slots, pendingSlot := None, alive := false)
  }

  lemma WorstIsPowerLoss(s: State, image: ByteString)
    requires |s.slots| == 2 && IsImage(s.durable, s.pending, image)
    ensures PowerLossStep(s, Worst(s, image), image, Worst(s, image).slots)
    ensures !SlotSurvives(s) ==> |Valids(SlotsNow(Worst(s, image)))| == 0
  {
    hide IsImage;
    if !SlotSurvives(s) {
      assert forall i :: 0 <= i < 2 ==> s.slots[i].None? || BeingRewritten(s, i);
      ValidsOfTwo(None, None);
    }
  }

  lemma NotOpenableWithoutSlot(sys: System, s: State)
    requires ValidSystem(sys) && |s.slots| == 2 && !SlotSurvives(s)
    ensures !SurvivesPowerLoss(sys, s)
  {
    hide PowerLossStep, SlotSurvives, IsImage, FirstPageReads;
    DurableIsImage(s.durable, s.pending);
    WorstIsPowerLoss(s, s.durable);
    assert !Openable(sys, Worst(s, s.durable));
  }

  lemma OpenableAfter(sys: System, s: State, s': State, image: ByteString, slots: seq<Option<MetaSlot>>)
    requires ValidSystem(sys) && Inv(sys, s) && (!sys.encrypted || s.base != []) && |s.slots| == 2 && SlotSurvives(s)
    requires PowerLossStep(s, s', image, slots)
    ensures Openable(sys, s')
  {
    hide Inv, IsImage, Applied, FirstPageReads, SlotSurvives;
    SlotLeft(s, s', image, slots);
    if sys.encrypted {
      PowerLossKeepsInv(sys, s, s', image, slots);
      SyncedPageReads(sys, s, s', image, slots);
    }
  }

  /**
    A plain file, or one with a synced commit, can be opened after any power loss exactly
    when some readable slot is not the one being rewritten.
  */
  lemma OpenableExactly(sys: System, s: State)
    requires ValidSystem(sys) && Inv(sys, s) && (!sys.encrypted || s.base != [])
    ensures |s.slots| == 2
    ensures SurvivesPowerLoss(sys, s) <==> SlotSurvives(s)
  {
    hide Inv, Openable, PowerLossStep, SlotSurvives, ValidSystem;
    InvHasLog(sys, s);
    if SlotSurvives(s) {
      forall s', image, slots | PowerLossStep(s, s', image, slots)
        ensures Openable(sys, s')
      {
        OpenableAfter(sys, s, s', image, slots);
      }
    } else {
      NotOpenableWithoutSlot(sys, s);
    }
  }

  /** The first page of a synced commit reads. */
  lemma SyncedPageReads(sys: System, s: State, s': State, image: ByteString, slots: seq<Option<MetaSlot>>)
    requires ValidSystem(sys) && Inv(sys, s') && s'.base != [] && PowerLossStep(s, s', image, slots)
    ensures FirstPageReads(sys, View(s'))
  {
    hide IsImage, Adopts, PagesOf, IsRecord, Swept, LivePages, SlotsOk;
    AppliedNothing(image);
    SweepBeginsWithLog(sys, image, s'.base);
    AdoptedIsReadable(sys, s'.base, s'.synced);
    assert SweptLog(sys, image).pages[0] == PagesOf(sys.cfg, s'.base)[0];
  }

  // ------------------------------------------ encrypted, nothing synced yet

  /** No provider opens a payload of zeros, with parity of zeros. */
  ghost predicate RefusesBlanks(sys: System)
    requires ValidSystem(sys)
  {
    forall rec: ByteString :: IsRecord(sys.cfg.nsym, rec) && (forall i :: LEN_PREFIX <= i < |rec| ==> rec[i] == 0) ==>
      PageIn(sys.cfg, rec, FIRST_DATA_PAGE).None?
  }

  /** Unsynced writes begin with a record at the front of the zone, or there are none. */
  ghost predicate NothingButUnsynced(sys: System, s: State)
    requires ValidSystem(sys)
  {
    && s.durable == []
    && (s.pending != [] ==> s.pending[0].offset == 0 && IsRecord(sys.cfg.nsym, s.pending[0].bytes))
  }

  /** A record of which only the length prefix made it to the disk. */
  function Blanked(rec: ByteString): (r: ByteString)
    requires |rec| >= LEN_PREFIX
    ensures |r| == |rec|
  {
    rec[..LEN_PREFIX] + Zeros(|rec| - LEN_PREFIX)
  }

  lemma BlankedIsRecord(nsym: nat, rec: ByteString)
    requires nsym < 255 && IsRecord(nsym, rec)
    ensures |rec| >= LEN_PREFIX && IsRecord(nsym, Blanked(rec))
  {
    hide FromLe, Ecc.ParityLen;
    RecordIsLong(nsym, rec);
    assert Blanked(rec)[..LEN_PREFIX] == rec[..LEN_PREFIX];
  }

  lemma BlankedIsImage(s: State, rec: ByteString)
    requires s.durable == [] && s.pending != [] && s.pending[0] == Write(0, rec) && |rec| >= LEN_PREFIX
    ensures IsImage(s.durable, s.pending, Blanked(rec))
  {
    var image := Blanked(rec);
    forall i | 0 <= i < |image|
      ensures ByteMaySurvive(s.durable, s.pending, i, image[i])
    {
      if i < LEN_PREFIX {
        assert WroteByte(s.pending[0], i, image[i]);
      }
    }
  }

  /** The blanked record is swept, and does not open. */
  lemma BlankedDoesNotRead(sys: System, rec: ByteString)
    requires ValidSystem(sys) && RefusesBlanks(sys) && IsRecord(sys.cfg.nsym, rec) && |rec| >= LEN_PREFIX
    ensures !FirstPageReads(sys, Blanked(rec))
  {
    hide PageIn, IsRecord, Swept;
    var image := Blanked(rec);
    BlankedIsRecord(sys.cfg.nsym, rec);
    JoinedOne(image);
    assert Joined([image]) + [] == image;
    SweepFindsRecords(sys.cfg.nsym, [image], []);
    NoRecords(sys.cfg.nsym, []);
  }

  lemma ZerosSweepNothing(sys: System, image: ByteString)
    requires ValidSystem(sys) && forall i :: 0 <= i < |image| ==> image[i] == 0
    ensures FirstPageReads(sys, image)
  {
    hide PageIn;
    if |image| >= LEN_PREFIX {
      assert image == Zeros(|image|) + [];
      HoleEndsSweep(sys.cfg.nsym, |image|, []);
    } else {
      NoRecords(sys.cfg.nsym, image);
    }
  }

  lemma NotOpenableOnceWritten(sys: System, s: State)
    requires ValidSystem(sys) && sys.encrypted && RefusesBlanks(sys) && |s.slots| == 2 && NothingButUnsynced(sys, s)
    requires s.pending != []
    ensures !SurvivesPowerLoss(sys, s)
  {
    hide PowerLossStep, SlotSurvives, IsImage, FirstPageReads, RefusesBlanks, IsRecord;
    var rec := s.pending[0].bytes;
    RecordIsLong(sys.cfg.nsym, rec);
    BlankedIsImage(s, rec);
    BlankedDoesNotRead(sys, rec);
    WorstIsPowerLoss(s, Blanked(rec));
    AppliedNothing(Blanked(rec));
    assert !Openable(sys, Worst(s, Blanked(rec)));
  }

  lemma OpenableUnwritten(sys: System, s: State, s': State, image: ByteString, slots: seq<Option<MetaSlot>>)
    requires ValidSystem(sys) && |s.slots| == 2 && SlotSurvives(s) && s.durable == [] && s.pending == []
    requires PowerLossStep(s, s', image, slots)
    ensures Openable(sys, s')
  {
    hide IsImage, FirstPageReads, SlotSurvives;
    SlotLeft(s, s', image, slots);
    OnlyZeros(sys, s, s', image, slots);
  }

  /**
    An encrypted file of which nothing is synced yet can be opened after any power loss
    exactly when a slot survives and nothing has been written: the first record's length
    may reach the disk without its payload, and then the right key is refused as wrong.
  */
  lemma KeyedOpenableExactly(sys: System, s: State)
    requires ValidSystem(sys) && sys.encrypted && RefusesBlanks(sys) && |s.slots| == 2 && NothingButUnsynced(sys, s)
    ensures SurvivesPowerLoss(sys, s) <==> SlotSurvives(s) && s.pending == []
  {
    hide PowerLossStep, SlotSurvives, RefusesBlanks, Openable, ValidSystem;
    if !SlotSurvives(s) {
      NotOpenableWithoutSlot(sys, s);
    } else if s.pending != [] {
      NotOpenableOnceWritten(sys, s);
    } else {
      forall s', image, slots | PowerLossStep(s, s', image, slots)
        ensures Openable(sys, s')
      {
        OpenableUnwritten(sys, s, s', image, slots);
      }
    }
  }

  lemma OnlyZeros(sys: System, s: State, s': State, image: ByteString, slots: seq<Option<MetaSlot>>)
    requires ValidSystem(sys) && s.durable == [] && s.pending == [] && PowerLossStep(s, s', image, slots)
    ensures FirstPageReads(sys, View(s'))
  {
    hide PageIn, Swept;
    forall i | 0 <= i < |image|
      ensures image[i] == 0
    {
      assert ByteMaySurvive(s.durable, s.pending, i, image[i]);
    }
    ZerosSweepNothing(sys, image);
    AppliedNothing(image);
  }

  // ---------------------------------------------------------- alternation

  /**
    Two torn slot writes in a row lose both slots: the write for the version after a torn
    one goes to the survivor, so a second power loss can leave a store that does not open,
    with its log intact.
  */
  lemma AlternationRewritesTheSurvivor(sys: System, s: State, s': State, head: Head)
    requires ValidSystem(sys) && Inv(sys, s) && WriteMetaStep(sys, s, s', head)
    requires |s.slots| == 2 ==> s.slots[(head.version + 1) % 2].None?
    ensures LogAt(sys, s'.durable, s'.base, s'.synced) && !SurvivesPowerLoss(sys, s')
  {
    hide Inv, WriteMetaStep, LogAt, SurvivesPowerLoss;
    InvHasLog(sys, s);
    WriteMetaIs(sys, s, s', head);
    NotOpenableWithoutSlot(sys, s');
  }

  lemma WriteMetaIs(sys: System, s: State, s': State, head: Head)
    requires ValidSystem(sys) && WriteMetaStep(sys, s, s', head)
    ensures s' == s.(pendingSlot := Some(MetaFor(head))) && MetaFor(head).version == head.version
  {
    hide Adopts, PagesOf, IsRecord;
  }
}
