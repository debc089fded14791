/**
  The bytes on disk, field by field at their offsets (`docs/02-formato-archivo.md`): what a
  reader of the file that knows nothing of this engine would find, and where.
*/
module Formats {
  import opened Options
  import opened Bytes
  import opened LittleEndian
  import opened Commit
  import opened Recovery
  import opened Records
  import O = Opening
  import Ecc

  // ------------------------------------------------------------------ varints

  /** Seven bits to a byte, least significant first; every byte but the last has its top bit set. */
  ghost predicate IsLeb128(s: ByteString, v: nat) {
    && |s| >= 1
    && (forall i :: 0 <= i < |s| ==> s[i] % 128 == v / Weight(i) % 128)
    && (forall i :: 0 <= i < |s| - 1 ==> s[i] >= 128)
    && s[|s| - 1] < 128 && v < Weight(|s|)
  }

  lemma WeightZero()
    ensures Weight(0) == 1 && Weight(1) == 128
  {
    WeightStep(0);
  }

  /** The digits of a number, from its lowest one and the others'. */
  lemma HigherDigit(low: nat, u: nat, i: nat)
    requires low < 128
    ensures (low + 128 * u) / Weight(i) % 128 == if i == 0 then low else u / Weight(i - 1) % 128
  {
    hide Weight;
    QuotientIs(low + 128 * u, 128, u, low);
    WeightZero();
    if i > 0 {
      WeightStep(i - 1);
      QuotientOfQuotient(low + 128 * u, 128, Weight(i - 1));
    }
  }

  lemma LongerCode(b: Byte, s: ByteString, u: nat)
    requires b >= 128 && IsLeb128(s, u)
    ensures IsLeb128([b] + s, b % 128 + 128 * u)
  {
    hide Weight;
    var r, v := [b] + s, b % 128 + 128 * u;
    forall i | 0 <= i < |r|
      ensures r[i] % 128 == v / Weight(i) % 128
    {
      HigherDigit(b % 128, u, i);
    }
    WeightStep(|s|);
  }

  lemma ShortCode(b: Byte)
    requires b < 128
    ensures IsLeb128([b], b)
  {
    WeightZero();
  }

  /** The code of a number, and the shortest one. */
  lemma {:induction false} VarintMeans(v: nat)
    ensures IsLeb128(Varint(v), v)
    ensures |Varint(v)| > 1 ==> v >= Weight(|Varint(v)| - 1)
    decreases v
  {
    hide Weight, Varint, IsLeb128;
    VarintUnfold(v);
    WeightZero();
    if v < 128 {
      ShortCode(v);
    } else {
      var rest := Varint(v / 128);
      VarintMeans(v / 128);
      LongerCode(v % 128 + 128, rest, v / 128);
      WeightStep(|rest| - 1);
    }
  }

  /** No byte of the first n ends a code. */
  ghost predicate AllContinue(s: ByteString, n: nat) {
    forall i :: 0 <= i < n && i < |s| ==> s[i] >= 128
  }

  /**
    Reading takes the bytes up to the first one below 128, and refuses exactly if there is
    none among the first ten.  Up to nine bytes they are the number's code as it stands.
  */
  lemma TakeMeans(s: ByteString)
    ensures TakeVarintFrom(s, 0).None? <==> AllContinue(s, 10)
    ensures var t := TakeVarintFrom(s, 0);
      t.Some? ==>
        && 1 <= t.value.length <= |s| && t.value.length <= 10 && AllContinue(s, t.value.length - 1) && s[t.value.length - 1] < 128
        && (t.value.length <= 9 ==> IsLeb128(s[..t.value.length], t.value.value))
  {
    hide AllContinue, IsLeb128, Weight;
    TakeEnds(s, 0);
    var t := TakeVarintFrom(s, 0);
    if t.Some? && t.value.length <= 9 {
      WeightZero();
      TakeDigits(s, 0);
      var v :| TakenAs(s, t.value, 0, v);
    }
  }

  lemma {:induction false} TakeEnds(s: ByteString, k: nat)
    requires k <= 9
    ensures TakeVarintFrom(s, k).None? <==> AllContinue(s, 10 - k)
    ensures var t := TakeVarintFrom(s, k);
      t.Some? ==> t.value.length <= |s| && t.value.length <= 10 - k && AllContinue(s, t.value.length - 1) && s[t.value.length - 1] < 128
    decreases 9 - k
  {
    hide Part, AllContinue;
    ContinueStep(s, 9 - k);
    ContinueStep(s, 0);
    NoneContinue(s);
    NoneContinue(if s == [] then s else s[1..]);
    if s != [] && s[0] >= 128 && k < 9 {
      TakeEnds(s[1..], k + 1);
      var t := TakeVarintFrom(s[1..], k + 1);
      if t.Some? {
        ContinueStep(s, t.value.length - 1);
      }
    }
  }

  lemma NoneContinue(s: ByteString)
    ensures AllContinue(s, 0) && AllContinue(s[..0], 0) && (s == [] ==> AllContinue(s, 10))
  {
  }

  lemma ContinueStep(s: ByteString, n: nat)
    ensures s != [] ==> (AllContinue(s, n + 1) <==> s[0] >= 128 && AllContinue(s[1..], n))
    ensures s == [] ==> AllContinue(s, n + 1)
  {
    if s != [] && AllContinue(s, n + 1) {
      assert forall i :: 0 <= i < |s| - 1 ==> s[1..][i] == s[i + 1];
    }
  }

  /** The bytes taken are the code of v, and v is what is read, at the weight it was read. */
  ghost predicate TakenAs(s: ByteString, t: Taken, k: nat, v: nat) {
    t.length <= |s| && t.value == v * Weight(k) && IsLeb128(s[..t.length], v)
  }

  lemma {:induction false} TakeDigits(s: ByteString, k: nat)
    requires k <= 9
    ensures var t := TakeVarintFrom(s, k);
      t.Some? && k + t.value.length <= 9 ==> exists v :: TakenAs(s, t.value, k, v)
    decreases 9 - k
  {
    hide Weight, Part, TakenAs, IsLeb128, TakeVarintFrom;
    var t := TakeVarintFrom(s, k);
    TakeVarintUnfold(s, k, 0);
    if t.Some? && k + t.value.length <= 9 {
      LowWeights(k);
      PartFits(s[0], k);
      LowPart(s[0], k);
      if s[0] < 128 {
        TakenShort(s, k);
      } else {
        TakeVarintHead(s, k);
        TakeDigits(s[1..], k + 1);
        var rest := TakeVarintFrom(s[1..], k + 1).value;
        var u :| TakenAs(s[1..], rest, k + 1, u);
        TakenLonger(s, rest, k, u);
      }
    }
  }

  lemma LowPart(b: Byte, k: nat)
    ensures b % 128 * Weight(k) < 128 * Weight(k)
  {
  }

  lemma TakenShort(s: ByteString, k: nat)
    requires s != [] && s[0] < 128
    ensures TakenAs(s, Taken(s[0] % 128 * Weight(k), 1), k, s[0])
  {
    hide Weight;
    ShortCode(s[0]);
    assert s[..1] == [s[0]];
  }

  lemma TakenLonger(s: ByteString, rest: Taken, k: nat, u: nat)
    requires s != [] && s[0] >= 128 && TakenAs(s[1..], rest, k + 1, u)
    ensures TakenAs(s, Taken(s[0] % 128 * Weight(k) + rest.value, 1 + rest.length), k, s[0] % 128 + 128 * u)
  {
    hide Weight, IsLeb128;
    WeightStep(k);
    LongerCode(s[0], s[1..][..rest.length], u);
    assert s[..1 + rest.length] == [s[0]] + s[1..][..rest.length];
    assert u * (128 * Weight(k)) == 128 * u * Weight(k);
    assert (s[0] % 128 + 128 * u) * Weight(k) == s[0] % 128 * Weight(k) + 128 * u * Weight(k);
  }

  lemma LowWeights(k: nat)
    requires k <= 8
    ensures 128 * Weight(k) < TWO_64
  {
    assert Weight(2) == 16384;
    assert Weight(4) == 268435456;
    assert Weight(6) == 4398046511104;
    assert Weight(8) == 72057594037927936;
    WeightStep(0); WeightStep(2); WeightStep(4); WeightStep(6);
  }

  // ------------------------------------------------------------ structural pages

  ghost predicate Text(s: ByteString, at: nat, t: ByteString) {
    at + |t| <= |s| && s[at..at + |t|] == t
  }

  /** The bytes from `at` up to `end` are zero. */
  ghost predicate Blank(s: ByteString, at: nat, end: nat) {
    end <= |s| && forall i :: at <= i < end ==> s[i] == 0
  }

  /** The page of a commit. */
  lemma CommitPageMeans(h: Header)
    requires |h.branch| <= 64
    ensures var body := Encode(h);
      && |body| == 4068
      && Text(body, 0, [0x41, 0x52, 0x4B, 0x43, 0x4D, 0x54, 0x30, 0x31])
      && LittleEndianAt(body, 8, 4, h.flags) && Blank(body, 12, 16)
      && LittleEndianAt(body, 16, 8, h.version) && LittleEndianAt(body, 24, 8, h.parentPage)
      && LittleEndianAt(body, 32, 8, h.prevPage) && LittleEndianAt(body, 40, 8, h.timestamp)
      && LittleEndianAt(body, 48, 8, h.dataRoot) && LittleEndianAt(body, 56, 8, h.metaRoot)
      && LittleEndianAt(body, 64, 8, h.nonceCounter) && LittleEndianAt(body, 72, 8, h.pagesWritten)
      && Text(body, 80, h.branch) && Blank(body, 80 + |h.branch|, 144)
      && Text(body, 144, h.contentHash) && Text(body, 176, h.prevChain) && Text(body, 208, h.chainHash)
      && Blank(body, 240, 4068)
  {
    hide EncodeNumbers, U64At, U32At, LittleEndianAt;
    var body := Encode(h);
    assert body[8..80] == EncodeNumbers(h);
    assert body[80..144] == PaddedBranch(h.branch);
    assert body[144..176] == h.contentHash && body[176..208] == h.prevChain && body[208..240] == h.chainHash;
    NumbersReadBack(h, body);
    ReadsU32(body, 8);
    ReadsU64(body, 16); ReadsU64(body, 24); ReadsU64(body, 32); ReadsU64(body, 40);
    ReadsU64(body, 48); ReadsU64(body, 56); ReadsU64(body, 64); ReadsU64(body, 72);
    ReservedIsBlank(h, body);
    BranchField(body, 80, h.branch);
    assert body[240..] == Zeros(BODY_SIZE - HEADER_LEN);
    BlankTail(body, 240);
  }

  lemma ReadsU64(s: ByteString, at: nat)
    requires at + 8 <= |s|
    ensures LittleEndianAt(s, at, 8, U64At(s, at))
  {
    hide FromLe;
    ReadsLittleEndian(s, at, 8);
  }

  lemma ReadsU32(s: ByteString, at: nat)
    requires at + 4 <= |s|
    ensures LittleEndianAt(s, at, 4, U32At(s, at))
  {
    hide FromLe;
    ReadsLittleEndian(s, at, 4);
  }

  lemma ReservedIsBlank(h: Header, body: ByteString)
    requires |body| >= 80 && body[8..80] == EncodeNumbers(h)
    ensures Blank(body, 12, 16)
  {
    hide Le, Words;
    var words := Words(HeaderWords(h));
    assert EncodeNumbers(h) == Le(h.flags, 4) + Zeros(4) + words;
    forall i | 12 <= i < 16
      ensures body[i] == 0
    {
      assert body[i] == body[8..80][i - 8];
      assert (Le(h.flags, 4) + Zeros(4) + words)[i - 8] == Zeros(4)[i - 12];
    }
  }

  lemma BranchField(body: ByteString, at: nat, branch: ByteString)
    requires |branch| <= 64 && at + 64 <= |body| && body[at..at + 64] == PaddedBranch(branch)
    ensures Text(body, at, branch) && Blank(body, at + |branch|, at + 64)
  {
    var field := body[at..at + 64];
    assert field[..|branch|] == branch;
    assert body[at..at + |branch|] == field[..|branch|];
    forall i | at + |branch| <= i < at + 64
      ensures body[i] == 0
    {
      assert body[i] == field[i - at];
    }
  }

  lemma BlankTail(s: ByteString, at: nat)
    requires at <= |s| && s[at..] == Zeros(|s| - at)
    ensures Blank(s, at, |s|)
  {
    forall i | at <= i < |s|
      ensures s[i] == 0
    {
      assert s[i] == s[at..][i - at];
    }
  }

  /** The message whose digest is the chain hash. */
  lemma ChainMessageMeans(h: Header)
    requires |h.branch| <= 64
    ensures var s := ChainInput(h);
      && |s| == 160 && Text(s, 0, h.prevChain) && Text(s, 32, h.contentHash)
      && LittleEndianAt(s, 64, 8, h.version) && LittleEndianAt(s, 72, 8, h.timestamp)
      && LittleEndianAt(s, 80, 8, h.dataRoot) && LittleEndianAt(s, 88, 8, h.metaRoot)
      && Text(s, 96, h.branch) && Blank(s, 96 + |h.branch|, 160)
  {
    hide LittleEndianAt, Words;
    var s := ChainInput(h);
    var vs: seq<U64> := [h.version, h.timestamp, h.dataRoot, h.metaRoot];
    assert s[..32] == h.prevChain && s[32..64] == h.contentHash && s[64..96] == Words(vs);
    assert s[96..160] == PaddedBranch(h.branch);
    BranchField(s, 96, h.branch);
    WordField(s, 64, vs, 0);
    WordField(s, 64, vs, 1);
    WordField(s, 64, vs, 2);
    WordField(s, 64, vs, 3);
  }

  lemma WordField(s: ByteString, at: nat, vs: seq<U64>, i: nat)
    requires i < |vs| && at + 8 * |vs| <= |s| && s[at..at + 8 * |vs|] == Words(vs)
    ensures LittleEndianAt(s, at + 8 * i, 8, vs[i])
  {
    hide Words, Le;
    WordAt(vs, i);
    SliceOfSlice(s, at, at + 8 * |vs|, 8 * i, 8 * i + 8);
    WritesLittleEndian(s, at + 8 * i, 8, vs[i]);
  }

  /** The message that begins the chain of a file. */
  lemma GenesisMeans(env: Env, fileId: ByteString)
    ensures GenesisChain(env, fileId) == env.sha([0x41, 0x52, 0x4B, 0x45, 0x49, 0x4F, 0x4E, 0x31] + fileId)
  {
  }

  /** The body of page 0. */
  lemma FileHeaderMeans(h: O.FileHeader)
    requires O.ValidHeader(h)
    ensures var body := O.EncodeFileHeader(h);
      && |body| == 4068
      && Text(body, 0, [0x41, 0x52, 0x4B, 0x45, 0x49, 0x4F, 0x4E, 0x31])
      && LittleEndianAt(body, 8, 4, 5) && LittleEndianAt(body, 12, 4, 4096) && LittleEndianAt(body, 16, 4, h.flags)
      && Text(body, 20, h.fileId) && Text(body, 36, h.kdfSalt) && body[52] == h.eccNsym && Blank(body, 53, 4068)
  {
    hide Le, LittleEndianAt;
    var body := O.EncodeFileHeader(h);
    assert body[8..12] == Le(5, 4) && body[12..16] == Le(4096, 4) && body[16..20] == Le(h.flags, 4);
    assert body[20..36] == h.fileId && body[36..52] == h.kdfSalt;
    WritesLittleEndian(body, 8, 4, 5);
    WritesLittleEndian(body, 12, 4, 4096);
    WritesLittleEndian(body, 16, 4, h.flags);
    assert body[53..] == Zeros(BODY_SIZE - 53);
    BlankTail(body, 53);
  }

  /** The body of pages 1 and 2. */
  lemma SlotMeans(m: MetaSlot)
    requires O.SlotFits(m)
    ensures var body := O.EncodeSlot(m);
      && |body| == 4068
      && Text(body, 0, [0x41, 0x52, 0x4B, 0x4D, 0x45, 0x54, 0x41, 0x31])
      && LittleEndianAt(body, 8, 8, m.version) && LittleEndianAt(body, 16, 8, m.lastCommitPage)
      && LittleEndianAt(body, 24, 8, m.nPages) && Blank(body, 32, 4068)
  {
    hide Le, LittleEndianAt;
    var body := O.EncodeSlot(m);
    assert body[8..16] == Le(m.version, 8) && body[16..24] == Le(m.lastCommitPage, 8) && body[24..32] == Le(m.nPages, 8);
    WritesLittleEndian(body, 8, 8, m.version);
    WritesLittleEndian(body, 16, 8, m.lastCommitPage);
    WritesLittleEndian(body, 24, 8, m.nPages);
    assert body[32..] == Zeros(BODY_SIZE - 32);
    BlankTail(body, 32);
  }

  /** A slot names the commit that a head was read from: its version, its page, and the pages up to it. */
  lemma SlotNamesHead(h: Header, page: nat)
    ensures MetaFor(HeadFrom(h, page)) == MetaSlot(h.version, page, page + 1)
  {
  }

  /** A page in the clear: twelve zeros, half of the digest of its number and its body, the body. */
  lemma PlainPageMeans(env: Env, body: ByteString, id: nat)
    ensures var stored := O.PlainSeal(env, body, id);
      && |stored| == 28 + |body| && Blank(stored, 0, 12) && Text(stored, 28, body)
      && exists number: ByteString :: |number| == 8 && LittleEndianAt(number, 0, 8, id) && stored[12..28] == env.sha(number + body)[..16]
  {
    hide LittleEndianAt;
    var stored, number := O.PlainSeal(env, body, id), Le(id, 8);
    assert stored[..12] == Zeros(12) && stored[12..28] == env.sha(number + body)[..16] && stored[28..] == body;
    forall i | 0 <= i < 12
      ensures stored[i] == 0
    {
      assert stored[i] == stored[..12][i];
    }
    assert number[0..8] == number;
    WritesLittleEndian(number, 0, 8, id);
  }

  /** The pages of the front, one after the other; slots alternate with the version. */
  lemma FrontMeans(env: Env, disk: ByteString, m: MetaSlot)
    requires |disk| >= 12288 && O.SlotFits(m)
    ensures O.PageOf(disk, 0) == disk[..4096] && O.PageOf(disk, 1) == disk[4096..8192] && O.PageOf(disk, 2) == disk[8192..12288]
    ensures O.WithSlot(env, disk, m) ==
      if m.version % 2 == 0 then disk[..4096] + O.PlainSeal(env, O.EncodeSlot(m), 1) + disk[8192..]
      else disk[..8192] + O.PlainSeal(env, O.EncodeSlot(m), 2) + disk[12288..]
  {
    hide O.EncodeSlot, O.PlainSeal;
  }

  /** Bit 0 of the flags says encrypted, bit 1 compressed. */
  lemma FlagsMean(h: O.FileHeader, rest: nat, encrypted: bool, compressed: bool)
    requires h.flags == 4 * rest + (if compressed then 2 else 0) + if encrypted then 1 else 0
    ensures O.IsEncrypted(h) <==> encrypted
    ensures O.IsCompressed(h) <==> compressed
  {
  }

  // ------------------------------------------------------------------ records

  /** A record: the payload's length in four bytes, the payload, and its parity. */
  lemma RecordMeans(nsym: nat, rec: ByteString)
    requires nsym < 255 && IsRecord(nsym, rec)
    ensures var payload, parity := PayloadOf(nsym, rec), ParityOf(nsym, rec);
      && LittleEndianAt(rec, 0, 4, |payload|) && rec == rec[..4] + payload + parity && |payload| >= 28
      && (nsym == 0 ==> parity == [])
  {
    hide FromLe, LittleEndianAt, Ecc.ParityLen;
    assert rec[0..4] == rec[..4];
    ReadsLittleEndian(rec, 0, 4);
  }

  /** What is sealed for a body: the body itself, or behind a method byte. */
  lemma BodyMeans(cfg: Config, plain: ByteString)
    ensures !cfg.compressed ==> DecodeBody(cfg, plain) == Some(plain)
    ensures cfg.compressed ==> forall body :: plain == [0] + body ==> DecodeBody(cfg, plain) == Some(body)
    ensures cfg.compressed && DecodeBody(cfg, plain).Some? ==> plain != [] && plain[0] in {0, 2}
  {
    assert forall body: ByteString :: ([0] + body)[1..] == body;
  }
}
