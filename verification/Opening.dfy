/**
  Creating and opening a file, byte by byte (`src/pager.rs`, `FileHeader` and `MetaSlot` of
  `src/format.rs`, the plain provider of `src/crypto.rs`, `open` of `src/tx.rs`): the
  structural pages, the checks in their order, and the store that comes out.
*/
module Opening {
  import opened Options
  import opened Bytes
  import opened LittleEndian
  import opened Commit
  import opened Records
  import opened Recovery
  import opened AuditedWriting
  import opened Pager
  import opened Store
  import opened CrashSafety

  const PAGE_SIZE: nat := 4096
  const ZONE: nat := 12288
  const FORMAT_VERSION: nat := 5

  // --------------------------------------------------- the plain provider

  function PlainTag(env: Env, id: nat, body: ByteString): (tag: ByteString)
    ensures |tag| == 16
  {
    env.sha(Le(id, 8) + body)[..16]
  }

  function PlainSeal(env: Env, body: ByteString, id: nat): (stored: ByteString)
    ensures |stored| == CRYPTO_RESERVE + |body|
  {
    Zeros(12) + PlainTag(env, id, body) + body
  }

  function PlainOpen(env: Env, stored: ByteString, id: nat): (r: Option<ByteString>)
    ensures r.Some? ==> |stored| == CRYPTO_RESERVE + |r.value|
  {
    if |stored| < CRYPTO_RESERVE then None
    else
      var nonce, tag, body := stored[..12], stored[12..CRYPTO_RESERVE], stored[CRYPTO_RESERVE..];
      if nonce != Zeros(12) || tag != PlainTag(env, id, body) then None else Some(body)
  }

  function PlainCipher(env: Env): (r: Cipher) {
    Cipher((body, id, _) => PlainSeal(env, body, id), (stored, id) => PlainOpen(env, stored, id))
  }

  /** What the plain provider seals, it opens, and only as the same page with the same bytes. */
  lemma PlainOpensExactly(env: Env, stored: ByteString, id: nat, body: ByteString)
    ensures PlainOpen(env, stored, id) == Some(body) <==> stored == PlainSeal(env, body, id)
  {
    hide Le;
    var sealed := PlainSeal(env, body, id);
    assert sealed[..12] == Zeros(12) && sealed[12..CRYPTO_RESERVE] == PlainTag(env, id, body) && sealed[CRYPTO_RESERVE..] == body;
    if PlainOpen(env, stored, id) == Some(body) {
      assert stored == stored[..12] + stored[12..CRYPTO_RESERVE] + stored[CRYPTO_RESERVE..];
    }
  }

  lemma PlainIsInverse(env: Env)
    ensures Inverse(PlainCipher(env))
  {
    forall body: ByteString, id: nat
      ensures PlainOpen(env, PlainSeal(env, body, id), id) == Some(body)
    {
      PlainOpensExactly(env, PlainSeal(env, body, id), id, body);
    }
  }

  // ---------------------------------------------------- structural pages

  datatype FileHeader = FileHeader(flags: U32, fileId: ByteString, kdfSalt: ByteString, eccNsym: Byte)

  datatype OpenError =
    | NotADatabase | CorruptHeader | UnsupportedFormat(version: nat) | UnsupportedPageSize(size: nat)
    | KeyRequired | KeyNotExpected | NoMetaSlot | WrongKey

  datatype Opened<+T> = Opens(value: T) | Failed(error: OpenError)

  predicate ValidHeader(h: FileHeader) {
    |h.fileId| == 16 && |h.kdfSalt| == 16
  }

  function EncodeFileHeader(h: FileHeader): (body: ByteString)
    requires ValidHeader(h)
    ensures |body| == BODY_SIZE
  {
    MagicHeader() + Le(FORMAT_VERSION, 4) + Le(PAGE_SIZE, 4) + Le(h.flags, 4) + h.fileId + h.kdfSalt + [h.eccNsym]
    + Zeros(BODY_SIZE - 53)
  }

  function DecodeFileHeader(body: ByteString): (r: Opened<FileHeader>)
    requires |body| == BODY_SIZE
    ensures r.Opens? ==> ValidHeader(r.value)
  {
    if body[..8] != MagicHeader() then Failed(NotADatabase)
    else if U32At(body, 8) > FORMAT_VERSION then Failed(UnsupportedFormat(U32At(body, 8)))
    else if U32At(body, 12) != PAGE_SIZE then Failed(UnsupportedPageSize(U32At(body, 12)))
    else Opens(FileHeader(U32At(body, 16), body[20..36], body[36..52], body[52]))
  }

  lemma FileHeaderRoundTrip(h: FileHeader)
    requires ValidHeader(h)
    ensures DecodeFileHeader(EncodeFileHeader(h)) == Opens(h)
  {
    hide Le, FromLe;
    var body := EncodeFileHeader(h);
    LeRoundTrip32(FORMAT_VERSION);
    LeRoundTrip32(PAGE_SIZE);
    LeRoundTrip32(h.flags);
    assert body[..8] == MagicHeader();
    assert body[8..12] == Le(FORMAT_VERSION, 4) && body[12..16] == Le(PAGE_SIZE, 4) && body[16..20] == Le(h.flags, 4);
    assert body[20..36] == h.fileId && body[36..52] == h.kdfSalt;
  }

  function MagicMeta(): (r: ByteString) {
    [0x41, 0x52, 0x4B, 0x4D, 0x45, 0x54, 0x41, 0x31]
  }

  predicate SlotFits(m: MetaSlot) {
    m.version < TWO_64 && m.lastCommitPage < TWO_64 && m.nPages < TWO_64
  }

  function EncodeSlot(m: MetaSlot): (body: ByteString)
    requires SlotFits(m)
    ensures |body| == BODY_SIZE
  {
    MagicMeta() + Le(m.version, 8) + Le(m.lastCommitPage, 8) + Le(m.nPages, 8) + Zeros(BODY_SIZE - 32)
  }

  function DecodeSlot(body: ByteString): (r: Option<MetaSlot>)
    requires |body| == BODY_SIZE
    ensures r.Some? ==> SlotFits(r.value)
  {
    if body[..8] != MagicMeta() then None else Some(MetaSlot(U64At(body, 8), U64At(body, 16), U64At(body, 24)))
  }

  lemma SlotRoundTrip(m: MetaSlot)
    requires SlotFits(m)
    ensures DecodeSlot(EncodeSlot(m)) == Some(m)
  {
    hide Le, FromLe;
    var body := EncodeSlot(m);
    LeRoundTrip64(m.version);
    LeRoundTrip64(m.lastCommitPage);
    LeRoundTrip64(m.nPages);
    assert body[..8] == MagicMeta();
    assert body[8..16] == Le(m.version, 8) && body[16..24] == Le(m.lastCommitPage, 8) && body[24..32] == Le(m.nPages, 8);
  }

  /** A structural page of the file. */
  function PageOf(disk: ByteString, id: nat): (page: ByteString)
    requires id < 3 && |disk| >= ZONE
    ensures |page| == PAGE_SIZE
  {
    disk[id * PAGE_SIZE..(id + 1) * PAGE_SIZE]
  }

  /** `read_meta_slot`: what slot page `id` holds, if its tag and magic are right. */
  function SlotAt(env: Env, disk: ByteString, id: nat): (r: Option<MetaSlot>)
    requires id < 3 && |disk| >= ZONE
  {
    var body := PlainOpen(env, PageOf(disk, id), id);
    if body.None? then None else DecodeSlot(body.value)
  }

  /** `slot_page`: the slot a version is written to. */
  function SlotPage(version: nat): (id: nat)
    ensures id == 1 || id == 2
  {
    1 + version % 2
  }

  /** `write_meta`: one slot page replaced. */
  function WithSlot(env: Env, disk: ByteString, m: MetaSlot): (r: ByteString)
    requires |disk| >= ZONE && SlotFits(m)
    ensures |r| == |disk|
  {
    var at := SlotPage(m.version) * PAGE_SIZE;
    disk[..at] + PlainSeal(env, EncodeSlot(m), SlotPage(m.version)) + disk[at + PAGE_SIZE..]
  }

  /** A slot written is the slot read, and nothing else of the file is touched. */
  lemma SlotWriteReads(env: Env, disk: ByteString, m: MetaSlot)
    requires |disk| >= ZONE && SlotFits(m)
    ensures var r := WithSlot(env, disk, m);
      && SlotAt(env, r, SlotPage(m.version)) == Some(m)
      && SlotAt(env, r, 3 - SlotPage(m.version)) == SlotAt(env, disk, 3 - SlotPage(m.version))
      && PageOf(r, 0) == PageOf(disk, 0) && r[ZONE..] == disk[ZONE..]
  {
    hide EncodeSlot, PlainSeal, PlainOpen, DecodeSlot;
    var id := SlotPage(m.version);
    var r := WithSlot(env, disk, m);
    SlotRoundTrip(m);
    PlainOpensExactly(env, PlainSeal(env, EncodeSlot(m), id), id, EncodeSlot(m));
    assert PageOf(r, id) == PlainSeal(env, EncodeSlot(m), id);
    assert PageOf(r, 3 - id) == PageOf(disk, 3 - id);
    assert PageOf(r, 0) == PageOf(disk, 0) && r[ZONE..] == disk[ZONE..];
  }

  // ------------------------------------------------------------- verdict

  /** The provider for a key and a file: AES-256-GCM under a key derived from both. */
  type Keyring = (ByteString, ByteString) -> Cipher

  predicate IsEncrypted(h: FileHeader) {
    h.flags % 2 == 1
  }

  predicate IsCompressed(h: FileHeader) {
    h.flags / 2 % 2 == 1
  }

  /** The header page. */
  function HeaderOf(env: Env, disk: ByteString): (r: Opened<FileHeader>)
    ensures r.Opens? ==> |disk| >= ZONE && ValidHeader(r.value)
  {
    if |disk| < ZONE then Failed(NotADatabase)
    else if PageOf(disk, 0)[CRYPTO_RESERVE..CRYPTO_RESERVE + 8] != MagicHeader() then Failed(NotADatabase)
    else
      var body := PlainOpen(env, PageOf(disk, 0), 0);
      if body.None? then Failed(CorruptHeader) else DecodeFileHeader(body.value)
  }

  /** The provider and options the header and the key call for. */
  function ConfigOf(env: Env, keyring: Keyring, h: FileHeader, key: Option<ByteString>): (r: Opened<Config>) {
    if IsEncrypted(h) && key.None? then Failed(KeyRequired)
    else if !IsEncrypted(h) && key.Some? then Failed(KeyNotExpected)
    else
      var cipher := if key.Some? then keyring(key.value, h.fileId) else PlainCipher(env);
      Opens(Config(cipher, IsCompressed(h), h.eccNsym))
  }

  function SlotsOf(env: Env, disk: ByteString): (slots: seq<MetaSlot>)
    requires |disk| >= ZONE
    ensures |slots| <= 2
  {
    Valids([SlotAt(env, disk, 1), SlotAt(env, disk, 2)])
  }

  /** With 255 parity bytes a block has no room for data, and the source divides by zero. */
  predicate EccFits(env: Env, disk: ByteString) {
    HeaderOf(env, disk).Opens? ==> HeaderOf(env, disk).value.eccNsym < 255
  }

  /** Every provider of the keyring opens what it seals. */
  ghost predicate GoodKeyring(keyring: Keyring) {
    forall key: ByteString, fileId: ByteString :: Inverse(keyring(key, fileId))
  }

  /** The records of the append zone, and what the first page is read as. */
  ghost predicate KeyIsWrong(cfg: Config, zone: ByteString)
    requires cfg.nsym < 255
  {
    SweptAreRecords(cfg.nsym, zone);
    Swept(cfg.nsym, zone) != [] && PageIn(cfg, Swept(cfg.nsym, zone)[0], FIRST_DATA_PAGE).None?
  }

  /** Whether the file opens, and if not, why not. */
  ghost function FileVerdict(env: Env, keyring: Keyring, disk: ByteString, key: Option<ByteString>): (r: Opened<(FileHeader, Config)>)
    requires EccFits(env, disk)
    ensures r.Opens? ==> |disk| >= ZONE && ValidHeader(r.value.0) && r.value.1.nsym < 255
  {
    var h := HeaderOf(env, disk);
    if h.Failed? then Failed(h.error)
    else
      var cfg := ConfigOf(env, keyring, h.value, key);
      if cfg.Failed? then Failed(cfg.error)
      else if SlotsOf(env, disk) == [] then Failed(NoMetaSlot)
      else if IsEncrypted(h.value) && KeyIsWrong(cfg.value, disk[ZONE..]) then Failed(WrongKey)
      else Opens((h.value, cfg.value))
  }

  // ------------------------------------------------------------- opening

  /** `Pager::open`: the checks in the source's order, on the file's bytes. */
  method OpenPager(env: Env, keyring: Keyring, disk: ByteString, key: Option<ByteString>, cachePages: nat)
    returns (r: Opened<Pager>, ghost h: FileHeader)
    requires EccFits(env, disk) && GoodKeyring(keyring)
    ensures match FileVerdict(env, keyring, disk, key)
      case Failed(e) => r == Failed(e)
      case Opens(found) =>
        && r.Opens? && h == found.0 && fresh(r.value) && fresh(r.value.cache) && r.value.Valid()
        && r.value.cfg == found.1 && r.value.file == disk[ZONE..] && r.value.recs == Swept(found.1.nsym, disk[ZONE..])
  {
    hide PageIn, IsRecord, Swept, PlainOpen, DecodeFileHeader, SlotAt;
    h := FileHeader(0, Zeros(16), Zeros(16), 0);
    if |disk| < ZONE {
      return Failed(NotADatabase), h;
    }
    var page := PageOf(disk, 0);
    if page[CRYPTO_RESERVE..CRYPTO_RESERVE + 8] != MagicHeader() {
      return Failed(NotADatabase), h;
    }
    var body := PlainOpen(env, page, 0);
    if body.None? {
      return Failed(CorruptHeader), h;
    }
    var header := DecodeFileHeader(body.value);
    if header.Failed? {
      return Failed(header.error), h;
    }
    h := header.value;
    var cipher: Cipher;
    if IsEncrypted(header.value) {
      if key.None? {
        return Failed(KeyRequired), h;
      }
      cipher := keyring(key.value, header.value.fileId);
    } else {
      if key.Some? {
        return Failed(KeyNotExpected), h;
      }
      cipher := PlainCipher(env);
      PlainIsInverse(env);
    }
    var cfg := Config(cipher, IsCompressed(header.value), header.value.eccNsym);
    if SlotsOf(env, disk) == [] {
      return Failed(NoMetaSlot), h;
    }
    var pager := new Pager(cfg, disk[ZONE..], cachePages);
    if IsEncrypted(header.value) && pager.nextPage > FIRST_DATA_PAGE {
      var first := pager.ReadPage(FIRST_DATA_PAGE);
      if first.None? {
        return Failed(WrongKey), h;
      }
    }
    r := Opens(pager);
  }

  /** `Store::open`: recovery on what the pager found, and the torn tail dropped. */
  method OpenStore(env: Env, keyring: Keyring, disk: ByteString, key: Option<ByteString>, cachePages: nat)
    returns (r: Opened<Pager>, head: Head)
    requires EccFits(env, disk) && GoodKeyring(keyring)
    ensures match FileVerdict(env, keyring, disk, key)
      case Failed(e) => r == Failed(e)
      case Opens(found) =>
        && AreRecords(found.1.nsym, Swept(found.1.nsym, disk[ZONE..]))
        && var recs := Swept(found.1.nsym, disk[ZONE..]);
        && r.Opens? && head == Recovered(env, Log(found.0.fileId, PagesOf(found.1, recs)), SlotsOf(env, disk))
        && fresh(r.value) && r.value.Valid() && r.value.cfg == found.1 && r.value.file == disk[ZONE..]
        && FIRST_DATA_PAGE <= head.nPages <= FIRST_DATA_PAGE + |recs| && r.value.recs == recs[..head.nPages - FIRST_DATA_PAGE]
  {
    hide PageIn, IsRecord, Swept, Recovered, FileVerdict, SlotsOf, HeaderOf;
    ghost var verdict := FileVerdict(env, keyring, disk, key);
    head := GenesisHead(env, Zeros(16));
    ghost var found;
    r, found := OpenPager(env, keyring, disk, key, cachePages);
    if r.Failed? {
      return;
    }
    SweptAreRecords(verdict.value.1.nsym, disk[ZONE..]);
    HeaderOfVerdict(env, keyring, disk, key);
    var h := HeaderOf(env, disk);
    var slots := SlotsOf(env, disk);
    head := Recover(env, r.value, h.value.fileId, slots);
    RecoveredIsInside(env, Store.LogOf(h.value.fileId, r.value), slots);
    r.value.TruncateToHead(head.nPages);
  }

  lemma HeaderOfVerdict(env: Env, keyring: Keyring, disk: ByteString, key: Option<ByteString>)
    requires EccFits(env, disk) && FileVerdict(env, keyring, disk, key).Opens?
    ensures HeaderOf(env, disk) == Opens(FileVerdict(env, keyring, disk, key).value.0)
  {
    hide HeaderOf, SlotsOf;
  }

  // ------------------------------------------------------------- creating

  function SlotZero(): (r: MetaSlot) {
    MetaSlot(0, 0, FIRST_DATA_PAGE)
  }

  /** A new file: header, and version 0 in both slots. */
  function Created(env: Env, h: FileHeader): (disk: ByteString)
    requires ValidHeader(h)
    ensures |disk| == ZONE
  {
    PlainSeal(env, EncodeFileHeader(h), 0) + PlainSeal(env, EncodeSlot(SlotZero()), 1) + PlainSeal(env, EncodeSlot(SlotZero()), 2)
  }

  lemma CreatedPages(env: Env, h: FileHeader, zone: ByteString)
    requires ValidHeader(h)
    ensures var disk := Created(env, h) + zone;
      && PageOf(disk, 0) == PlainSeal(env, EncodeFileHeader(h), 0) && disk[ZONE..] == zone
      && PageOf(disk, 1) == PlainSeal(env, EncodeSlot(SlotZero()), 1) && PageOf(disk, 2) == PlainSeal(env, EncodeSlot(SlotZero()), 2)
  {
    hide PlainSeal, EncodeSlot, EncodeFileHeader;
  }

  /**
    A file as created, whatever lies in its append zone: it opens exactly with a key if it
    is encrypted and without one if it is not, and, if it is, with one under which the
    first record opens, if there is one.
  */
  lemma CreatedOpensExactly(env: Env, keyring: Keyring, h: FileHeader, zone: ByteString, key: Option<ByteString>)
    requires ValidHeader(h) && h.eccNsym < 255
    ensures EccFits(env, Created(env, h) + zone)
    ensures var v := FileVerdict(env, keyring, Created(env, h) + zone, key);
      && (v == Failed(KeyRequired) <==> IsEncrypted(h) && key.None?)
      && (v == Failed(KeyNotExpected) <==> !IsEncrypted(h) && key.Some?)
      && (v == Failed(WrongKey) <==>
            IsEncrypted(h) && key.Some? && KeyIsWrong(Config(keyring(key.value, h.fileId), IsCompressed(h), h.eccNsym), zone))
      && (v.Opens? <==> v !in {Failed(KeyRequired), Failed(KeyNotExpected), Failed(WrongKey)}) && (v.Opens? ==> v.value.0 == h)
  {
    hide KeyIsWrong, PlainOpen, PlainSeal, EncodeFileHeader, EncodeSlot, DecodeSlot, DecodeFileHeader;
    var disk := Created(env, h) + zone;
    CreatedHeader(env, h, zone);
    CreatedSlots(env, h, zone);
  }

  lemma CreatedHeader(env: Env, h: FileHeader, zone: ByteString)
    requires ValidHeader(h)
    ensures HeaderOf(env, Created(env, h) + zone) == Opens(h) && (Created(env, h) + zone)[ZONE..] == zone
  {
    hide DecodeFileHeader, DecodeSlot;
    CreatedPages(env, h, zone);
    FileHeaderRoundTrip(h);
    var body := EncodeFileHeader(h);
    var page := PlainSeal(env, body, 0);
    PlainOpensExactly(env, page, 0, body);
    assert page[CRYPTO_RESERVE..] == body;
    assert page[CRYPTO_RESERVE..CRYPTO_RESERVE + 8] == body[..8] == MagicHeader();
  }

  lemma CreatedSlots(env: Env, h: FileHeader, zone: ByteString)
    requires ValidHeader(h)
    ensures SlotsOf(env, Created(env, h) + zone) == [SlotZero(), SlotZero()]
  {
    hide PlainOpen, PlainSeal, EncodeFileHeader, EncodeSlot, DecodeSlot;
    CreatedPages(env, h, zone);
    SlotRoundTrip(SlotZero());
    PlainOpensExactly(env, PlainSeal(env, EncodeSlot(SlotZero()), 1), 1, EncodeSlot(SlotZero()));
    PlainOpensExactly(env, PlainSeal(env, EncodeSlot(SlotZero()), 2), 2, EncodeSlot(SlotZero()));
    ValidsOfTwo(Some(SlotZero()), Some(SlotZero()));
  }

  // ----------------------------------------------- the state machine's file

  /** The file's bytes hold what the state of the crash model says. */
  ghost predicate Holds(sys: System, keyring: Keyring, disk: ByteString, key: Option<ByteString>, s: State)
    requires ValidSystem(sys)
  {
    && HeaderOf(sys.env, disk).Opens? && IsEncrypted(HeaderOf(sys.env, disk).value) == sys.encrypted
    && HeaderOf(sys.env, disk).value.fileId == sys.fileId
    && ConfigOf(sys.env, keyring, HeaderOf(sys.env, disk).value, key) == Opens(sys.cfg)
    && SlotsNow(s) == [SlotAt(sys.env, disk, 1), SlotAt(sys.env, disk, 2)] && disk[ZONE..] == View(s)
  }

  /** The crash model opens exactly the files that `open` opens. */
  lemma OpenableIsOpening(sys: System, keyring: Keyring, disk: ByteString, key: Option<ByteString>, s: State)
    requires ValidSystem(sys) && Holds(sys, keyring, disk, key, s)
    ensures EccFits(sys.env, disk)
    ensures FileVerdict(sys.env, keyring, disk, key).Opens? <==> Openable(sys, s)
    ensures FileVerdict(sys.env, keyring, disk, key) == Failed(NoMetaSlot) <==> |Valids(SlotsNow(s))| == 0
  {
    hide HeaderOf, SlotAt, View, Swept, PageIn, IsRecord;
    SweptAreRecords(sys.cfg.nsym, View(s));
  }

  // ------------------------------------------------- write, close, reopen

  /** The structural pages in front of an append zone let this pager's file be opened. */
  ghost predicate FrontOpens(env: Env, keyring: Keyring, front: ByteString, key: Option<ByteString>, h: FileHeader, cfg: Config)
  {
    && |front| == ZONE && EccFits(env, front) && h.eccNsym < 255 && cfg.nsym < 255
    && HeaderOf(env, front) == Opens(h) && ConfigOf(env, keyring, h, key) == Opens(cfg) && SlotsOf(env, front) != []
  }

  /** The structural pages are the same whatever lies behind them. */
  lemma FrontDecides(env: Env, front: ByteString, zone: ByteString)
    requires |front| == ZONE
    ensures (front + zone)[ZONE..] == zone && HeaderOf(env, front + zone) == HeaderOf(env, front)
    ensures SlotsOf(env, front + zone) == SlotsOf(env, front)
  {
    hide PlainOpen, DecodeFileHeader, DecodeSlot;
    assert PageOf(front + zone, 0) == PageOf(front, 0);
    assert PageOf(front + zone, 1) == PageOf(front, 1);
    assert PageOf(front + zone, 2) == PageOf(front, 2);
  }

  /** A zone that is exactly a log, ending in an adopted head, opens at that head. */
  lemma WholeLogOpens(env: Env, keyring: Keyring, front: ByteString, key: Option<ByteString>, h: FileHeader, cfg: Config,
                      recs: seq<ByteString>, head: Head)
    requires FrontOpens(env, keyring, front, key, h, cfg) && ValidHeader(h) && AreRecords(cfg.nsym, recs)
    requires var log := Log(h.fileId, PagesOf(cfg, recs));
      && Adopts(env, log, head) && head.nPages == End(log)
      && forall i :: 0 <= i < |SlotsOf(env, front)| ==> Harmless(env, log, SlotsOf(env, front)[i])
    ensures EccFits(env, front + Joined(recs)) && Swept(cfg.nsym, Joined(recs)) == recs
    ensures (front + Joined(recs))[ZONE..] == Joined(recs)
    ensures FileVerdict(env, keyring, front + Joined(recs), key) == Opens((h, cfg))
    ensures Recovered(env, Log(h.fileId, PagesOf(cfg, recs)), SlotsOf(env, front + Joined(recs))) == head
  {
    hide PagesOf, IsRecord, Swept, Joined, ScanAll, Adopts, HeaderOf, SlotsOf, Harmless, Recovered, ConfigOf;
    var log := Log(h.fileId, PagesOf(cfg, recs));
    FrontDecides(env, front, Joined(recs));
    assert Joined(recs) + [] == Joined(recs);
    SweepFindsRecords(cfg.nsym, recs, []);
    NoRecords(cfg.nsym, []);
    WholeScan(env, log, head);
    SlotsAreOnlyHints(env, log, SlotsOf(env, front));
    if recs != [] {
      ScanFromAdopted(env, log, head);
      assert Commit.ReadPage(log, FIRST_DATA_PAGE).Some?;
      assert PagesOf(cfg, recs)[0].Some?;
    }
  }

  /**
    A commit is written and the file opened again: the head is the commit's, and the pages
    are those there were, its data pages and its commit page.
  */
  method CommitAndReopen(env: Env, keyring: Keyring, front: ByteString, key: Option<ByteString>, pager: Pager, ghost h: FileHeader,
                         ghost base: Head, bodies: seq<ByteString>, params: CommitParams,
                         dataRoot: U64, metaRoot: U64, timestamp: U64, cachePages: nat)
    returns (r: Opened<Pager>, head: Head, ghost header: Header)
    requires pager.Valid() && GoodKeyring(keyring) && ValidHeader(h) && FrontOpens(env, keyring, front, key, h, pager.cfg)
    requires |pager.file| == pager.writeOffset && pager.nonceCounter + |bodies| + 1 < TWO_64
    requires var log := Store.LogOf(h.fileId, pager);
      && Adopts(env, log, base) && base.nPages == End(log) && Continues(env, log, base, params)
      && forall i :: 0 <= i < |SlotsOf(env, front)| ==> Harmless(env, log, SlotsOf(env, front)[i])
    requires DataPages(env, bodies)
    modifies pager, pager.cache
    ensures r.Opens? && r.value.Valid() && |header.branch| <= BRANCH_MAX
    ensures r.value.Pages() == old(pager.Pages()) + Readable(bodies + [Encode(header)])
    ensures header.contentHash == env.sha(JoinedBodies(bodies)) && header.version == params.version
    ensures header.dataRoot == dataRoot && header.metaRoot == metaRoot && header.timestamp == timestamp
    ensures header.flags == params.flags && header.branch == params.branch && header.parentPage == params.parentPage
    ensures header.prevPage == params.prevPage && header.prevChain == params.prevChain && header.pagesWritten == |bodies| + 1
    ensures header.nonceCounter == old(pager.nonceCounter) + |bodies| + 1 && SelfConsistent(env, header)
    ensures head == HeadFrom(header, base.nPages + |bodies|)
    ensures head.version == params.version && head.dataRoot == dataRoot && head.metaRoot == metaRoot && head.chainHash == header.chainHash
    ensures head.commitPage == 3 + |old(pager.Pages())| + |bodies| && head.nPages == head.commitPage + 1
    ensures head.nonceCounter == old(pager.nonceCounter) + |bodies| + 1
  {
    hide PagesOf, IsRecord, Swept, Joined, Adopts, HeaderOf, SlotsOf, Harmless, Recovered, ConfigOf, FileVerdict, PageIn, Encode;
    hide SelfConsistent, Pager.CacheAgrees, Directory, NewHeader, FrontOpens;
    ghost var log := Store.LogOf(h.fileId, pager);
    var committed;
    committed, header := pager.WriteCommitPages(env, bodies, params, dataRoot, metaRoot, timestamp);
    FrontIsFront(env, keyring, front, key, h, pager.cfg);
    LogAfterCommit(env, log, base, bodies, params, header, SlotsOf(env, front));
    FileIsLog(pager);
    assert Store.LogOf(h.fileId, pager) == WithCommit(log, bodies, header);
    WholeLogOpens(env, keyring, front, key, h, pager.cfg, pager.recs, committed);
    r, head := OpenStore(env, keyring, front + pager.file, key, cachePages);
    assert pager.recs[..|pager.recs|] == pager.recs;
  }

  lemma FileIsLog(pager: Pager)
    requires pager.Valid() && |pager.file| == pager.writeOffset
    ensures pager.file == Joined(pager.recs)
  {
    hide PageIn, IsRecord, Joined, Directory;
  }

  lemma LogAfterCommit(env: Env, log: Log, base: Head, bodies: seq<ByteString>, params: CommitParams, header: Header,
                       slots: seq<MetaSlot>)
    requires WellFormed(log) && Adopts(env, log, base) && base.nPages == End(log) && Continues(env, log, base, params)
    requires DataPages(env, bodies) && IsNext(env, log, base, bodies, params, header)
    requires forall i :: 0 <= i < |slots| ==> Harmless(env, log, slots[i])
    ensures |header.branch| <= BRANCH_MAX && WellFormed(WithCommit(log, bodies, header))
    ensures Adopts(env, WithCommit(log, bodies, header), HeadFrom(header, base.nPages + |bodies|))
    ensures End(WithCommit(log, bodies, header)) == base.nPages + |bodies| + 1
    ensures forall i :: 0 <= i < |slots| ==> Harmless(env, WithCommit(log, bodies, header), slots[i])
  {
    hide Adopts, Harmless, SelfConsistent, DataPages;
    NextIsFollower(env, log, base, bodies, params, header);
    CommitIsAdopted(env, log, base, bodies, header);
    NewPages(env, log, bodies, header);
    forall i | 0 <= i < |slots|
      ensures Harmless(env, WithCommit(log, bodies, header), slots[i])
    {
      StillHarmless(env, log, bodies, header, slots[i]);
    }
  }

  /** A slot that pointed nowhere may now point at the new commit, which is no harm either. */
  lemma StillHarmless(env: Env, log: Log, bodies: seq<ByteString>, header: Header, slot: MetaSlot)
    requires WellFormed(log) && DataPages(env, bodies) && BranchFits(env, header.branch) && Harmless(env, log, slot)
    requires WellFormed(WithCommit(log, bodies, header))
    requires Adopts(env, WithCommit(log, bodies, header), HeadFrom(header, End(log) + |bodies|))
    ensures Harmless(env, WithCommit(log, bodies, header), slot)
  {
    hide Adopts, HeaderAt, SelfConsistent, DataPages, WithCommit;
    var next, page := WithCommit(log, bodies, header), slot.lastCommitPage;
    NewPages(env, log, bodies, header);
    if page >= FIRST_DATA_PAGE {
      if TryHeadAt(env, log, page).Some? {
        var head :| Adopts(env, log, head) && head.commitPage == page;
        AdoptedInExtension(env, log, next, head);
      } else if page < End(log) {
        SameReads(env, log, next, page);
      } else if page < End(log) + |bodies| {
        assert HeaderAt(env, next, page).None?;
      } else if page == End(log) + |bodies| {
        assert Adopts(env, next, HeadFrom(header, page));
      } else {
        NoHeaderBeyond(env, next, page);
      }
    }
  }

  lemma NoHeaderBeyond(env: Env, log: Log, page: nat)
    requires WellFormed(log) && page >= End(log)
    ensures HeaderAt(env, log, page).None?
  {
  }

  lemma FrontIsFront(env: Env, keyring: Keyring, front: ByteString, key: Option<ByteString>, h: FileHeader, cfg: Config)
    requires FrontOpens(env, keyring, front, key, h, cfg)
    ensures |front| == ZONE
  {
  }
}
