/**
  The append zone of `src/pager.rs` as bytes: how a page body becomes a framed record,
  how the sweep cuts the file back into records, and how a record becomes a body.
*/
module Records {
  import opened Options
  import opened Bytes
  import opened LittleEndian
  import opened Commit
  import Densa
  import Ecc
  import Lzss
  import P = Polynomials

  const LEN_PREFIX: nat := 4
  const CRYPTO_RESERVE: nat := 28
  const METHOD_RAW: Byte := 0
  const METHOD_DENSA: Byte := 2

  /** Sealing and opening, as the engine's provider does it. */
  datatype Cipher = Cipher(seal: (ByteString, nat, nat) -> ByteString, open: (ByteString, nat) -> Option<ByteString>)

  /** What every provider promises: opening undoes sealing for the same page id, and nothing is added but the reserve. */
  ghost predicate Inverse(c: Cipher) {
    forall body: ByteString, id: nat, counter: nat ::
      c.open(c.seal(body, id, counter), id) == Some(body) && |c.seal(body, id, counter)| == CRYPTO_RESERVE + |body|
  }

  datatype Config = Config(cipher: Cipher, compressed: bool, nsym: nat)

  ghost predicate ValidConfig(cfg: Config) {
    Inverse(cfg.cipher) && cfg.nsym < 255
  }

  // ----------------------------------------------------- bytes for the ECC

  function Flag(b: bool, weight: bv8): (r: bv8) {
    if b then weight else 0
  }

  function Pack(b0: bool, b1: bool, b2: bool, b3: bool, b4: bool, b5: bool, b6: bool, b7: bool): (r: bv8) {
    Flag(b0, 1) | Flag(b1, 2) | Flag(b2, 4) | Flag(b3, 8) | Flag(b4, 16) | Flag(b5, 32) | Flag(b6, 64) | Flag(b7, 128)
  }

  /** The k low binary digits of n, lowest first. */
  function Digits(n: nat, k: nat): (ds: seq<bool>)
    ensures |ds| == k
  {
    if k == 0 then [] else [n % 2 == 1] + Digits(n / 2, k - 1)
  }

  function NumberOf(ds: seq<bool>): (r: nat) {
    if ds == [] then 0 else (if ds[0] then 1 else 0) + 2 * NumberOf(ds[1..])
  }

  lemma {:induction false} NumberOfDigits(n: nat, k: nat)
    requires n < Lzss.Pow2(k)
    ensures NumberOf(Digits(n, k)) == n
  {
    if k > 0 {
      NumberOfDigits(n / 2, k - 1);
      assert Digits(n, k)[1..] == Digits(n / 2, k - 1);
    }
  }

  lemma {:induction false} DigitsOfNumber(ds: seq<bool>)
    ensures NumberOf(ds) < Lzss.Pow2(|ds|) && Digits(NumberOf(ds), |ds|) == ds
  {
    if ds != [] {
      DigitsOfNumber(ds[1..]);
      assert ds == [ds[0]] + ds[1..];
    }
  }

  lemma Pow2Of8()
    ensures Lzss.Pow2(8) == 256
  {
    assert Lzss.Pow2(4) == 16;
  }

  /** A byte as eight bits, and back. */
  function ToBits(b: Byte): (r: bv8) {
    var d := Digits(b, 8);
    Pack(d[0], d[1], d[2], d[3], d[4], d[5], d[6], d[7])
  }

  function BitList(x: bv8): (ds: seq<bool>)
    ensures |ds| == 8
  {
    [x & 1 != 0, x & 2 != 0, x & 4 != 0, x & 8 != 0, x & 16 != 0, x & 32 != 0, x & 64 != 0, x & 128 != 0]
  }

  function FromBits(x: bv8): (r: Byte) {
    Pow2Of8();
    DigitsOfNumber(BitList(x));
    NumberOf(BitList(x))
  }

  lemma BitsOfPack(b0: bool, b1: bool, b2: bool, b3: bool, b4: bool, b5: bool, b6: bool, b7: bool)
    ensures var x := Pack(b0, b1, b2, b3, b4, b5, b6, b7);
      && (x & 1 != 0) == b0 && (x & 2 != 0) == b1 && (x & 4 != 0) == b2 && (x & 8 != 0) == b3
      && (x & 16 != 0) == b4 && (x & 32 != 0) == b5 && (x & 64 != 0) == b6 && (x & 128 != 0) == b7
  {
  }

  lemma PackOfBits(x: bv8)
    ensures Pack(x & 1 != 0, x & 2 != 0, x & 4 != 0, x & 8 != 0, x & 16 != 0, x & 32 != 0, x & 64 != 0, x & 128 != 0) == x
  {
  }

  lemma ListOfEight(a: seq<bool>, b: seq<bool>)
    requires |a| == |b| == 8 && a[0] == b[0] && a[1] == b[1] && a[2] == b[2] && a[3] == b[3]
    requires a[4] == b[4] && a[5] == b[5] && a[6] == b[6] && a[7] == b[7]
    ensures a == b
  {
  }

  lemma BitsRoundTrip(b: Byte)
    ensures FromBits(ToBits(b)) == b
  {
    hide Pack, Digits, NumberOf, Lzss.Pow2, BitList;
    var d := Digits(b, 8);
    BitListOfPack(d);
    Pow2Of8();
    NumberOfDigits(b, 8);
  }

  lemma BitListOfPack(d: seq<bool>)
    requires |d| == 8
    ensures BitList(Pack(d[0], d[1], d[2], d[3], d[4], d[5], d[6], d[7])) == d
  {
    hide Pack;
    BitsOfPack(d[0], d[1], d[2], d[3], d[4], d[5], d[6], d[7]);
    ListOfEight(BitList(Pack(d[0], d[1], d[2], d[3], d[4], d[5], d[6], d[7])), d);
  }

  lemma ByteRoundTrip(x: bv8)
    ensures ToBits(FromBits(x)) == x
  {
    hide Pack, Digits, NumberOf, Lzss.Pow2;
    DigitsOfNumber(BitList(x));
    PackOfBits(x);
  }

  function Weighed(b: bool, weight: nat): (r: nat) {
    if b then weight else 0
  }

  lemma FourDigits(d: seq<bool>)
    requires |d| >= 4
    ensures NumberOf(d) == Weighed(d[0], 1) + Weighed(d[1], 2) + Weighed(d[2], 4) + Weighed(d[3], 8) + 16 * NumberOf(d[4..])
  {
    hide NumberOf;
    NumberUnfold(d);
    NumberUnfold(d[1..]);
    NumberUnfold(d[2..]);
    NumberUnfold(d[3..]);
    assert d[1..][1..] == d[2..] && d[2..][1..] == d[3..] && d[3..][1..] == d[4..];
  }

  lemma EightDigits(d: seq<bool>)
    requires |d| == 8
    ensures NumberOf(d) == Weighed(d[0], 1) + Weighed(d[1], 2) + Weighed(d[2], 4) + Weighed(d[3], 8)
      + Weighed(d[4], 16) + Weighed(d[5], 32) + Weighed(d[6], 64) + Weighed(d[7], 128)
  {
    hide NumberOf;
    FourDigits(d);
    FourDigits(d[4..]);
    assert d[4..][4..] == [];
    NumberUnfold([]);
  }

  lemma NumberUnfold(d: seq<bool>)
    ensures NumberOf([]) == 0
    ensures d != [] ==> NumberOf(d) == Weighed(d[0], 1) + 2 * NumberOf(d[1..])
  {
  }

  lemma SumOfBits(x: bv8)
    ensures x as int == Weighed(x & 1 != 0, 1) + Weighed(x & 2 != 0, 2) + Weighed(x & 4 != 0, 4) + Weighed(x & 8 != 0, 8)
      + Weighed(x & 16 != 0, 16) + Weighed(x & 32 != 0, 32) + Weighed(x & 64 != 0, 64) + Weighed(x & 128 != 0, 128)
  {
  }

  /** The corrector's symbols are the bytes themselves. */
  lemma SymbolsAreBytes(b: Byte, x: bv8)
    ensures ToBits(b) as int == b
    ensures FromBits(x) == x as int
  {
    hide ToBits, FromBits;
    NumberOfBits(x);
    NumberOfBits(ToBits(b));
    BitsRoundTrip(b);
  }

  lemma NumberOfBits(x: bv8)
    ensures FromBits(x) == x as int
  {
    hide NumberOf;
    EightDigits(BitList(x));
    SumOfBits(x);
  }

  function ToPoly(s: ByteString): (p: P.Poly)
    ensures |p| == |s| && forall i :: 0 <= i < |s| ==> p[i] == ToBits(s[i])
  {
    seq(|s|, i requires 0 <= i < |s| => ToBits(s[i]))
  }

  function FromPoly(p: P.Poly): (s: ByteString)
    ensures |s| == |p| && forall i :: 0 <= i < |s| ==> s[i] == FromBits(p[i])
  {
    seq(|p|, i requires 0 <= i < |p| => FromBits(p[i]))
  }

  lemma PolyRoundTrip(s: ByteString)
    ensures FromPoly(ToPoly(s)) == s
  {
    forall i | 0 <= i < |s|
      ensures FromPoly(ToPoly(s))[i] == s[i]
    {
      BitsRoundTrip(s[i]);
    }
  }

  /** What correcting a damaged payload gives: the page within the budget, if there is one. */
  ghost function Corrected(payload: ByteString, parity: ByteString, nsym: nat): (r: Option<ByteString>)
    requires 1 <= nsym < 255
  {
    if exists d: P.Poly :: Ecc.Recoverable(d, ToPoly(payload), ToPoly(parity), nsym) then
      var d: P.Poly :| Ecc.Recoverable(d, ToPoly(payload), ToPoly(parity), nsym);
      Some(FromPoly(d))
    else None
  }

  method CorrectPayload(payload: ByteString, parity: ByteString, nsym: nat) returns (r: Option<ByteString>)
    requires 1 <= nsym < 255 && |parity| == Ecc.ParityLen(|payload|, nsym)
    ensures r == Corrected(payload, parity, nsym)
  {
    hide Ecc.Recoverable, Ecc.PlausiblePage, Ecc.ParityLen;
    var fixed := Ecc.Correct(ToPoly(payload), ToPoly(parity), nsym);
    if fixed.None? {
      return None;
    }
    Ecc.PlausibleIsRecoverable(fixed.value, ToPoly(payload), ToPoly(parity), nsym);
    return Some(FromPoly(fixed.value));
  }

  // --------------------------------------------------------------- records

  function ParityAfter(nsym: nat, len: nat): (r: nat)
    requires nsym < 255
  {
    if nsym == 0 then 0 else Ecc.ParityLen(len, nsym)
  }

  /** The length of the record at the front of the file; None is where the torn tail begins. */
  function RecordLen(nsym: nat, file: ByteString): (r: Option<nat>)
    requires nsym < 255
    ensures r.Some? ==> LEN_PREFIX + CRYPTO_RESERVE <= r.value <= |file|
  {
    if |file| < LEN_PREFIX then None
    else
      var len := FromLe(file[..LEN_PREFIX]);
      var total := LEN_PREFIX + len + ParityAfter(nsym, len);
      if len < CRYPTO_RESERVE || total > |file| then None else Some(total)
  }

  /** The sweep: the records of the file, up to the torn tail. */
  function Swept(nsym: nat, file: ByteString): (recs: seq<ByteString>)
    requires nsym < 255
    decreases |file|
  {
    match RecordLen(nsym, file)
    case None => []
    case Some(n) => [file[..n]] + Swept(nsym, file[n..])
  }

  predicate IsRecord(nsym: nat, rec: ByteString)
    requires nsym < 255
  {
    RecordLen(nsym, rec) == Some(|rec|)
  }

  predicate AreRecords(nsym: nat, recs: seq<ByteString>)
    requires nsym < 255
  {
    forall i :: 0 <= i < |recs| ==> IsRecord(nsym, recs[i])
  }

  function Joined(recs: seq<ByteString>): (r: ByteString) {
    if recs == [] then [] else recs[0] + Joined(recs[1..])
  }

  lemma {:induction false} JoinedConcat(a: seq<ByteString>, b: seq<ByteString>)
    ensures Joined(a + b) == Joined(a) + Joined(b)
  {
    if a == [] {
      assert a + b == b;
    } else {
      JoinedConcat(a[1..], b);
      assert (a + b)[1..] == a[1..] + b;
      assert a[0] + (Joined(a[1..]) + Joined(b)) == a[0] + Joined(a[1..]) + Joined(b);
    }
  }

  lemma JoinedOne(rec: ByteString)
    ensures Joined([rec]) == rec
  {
    assert [rec][1..] == [];
  }

  /** A record keeps its length whatever follows it. */
  lemma RecordIsSelfDelimiting(nsym: nat, rec: ByteString, rest: ByteString)
    requires nsym < 255 && IsRecord(nsym, rec)
    ensures RecordLen(nsym, rec + rest) == Some(|rec|)
  {
    hide FromLe, Ecc.ParityLen;
    assert (rec + rest)[..LEN_PREFIX] == rec[..LEN_PREFIX];
  }

  /** The sweep finds exactly the records written, then whatever the tail still parses as. */
  lemma {:induction false} SweepFindsRecords(nsym: nat, recs: seq<ByteString>, tail: ByteString)
    requires nsym < 255 && AreRecords(nsym, recs)
    ensures Swept(nsym, Joined(recs) + tail) == recs + Swept(nsym, tail)
  {
    hide RecordLen;
    if recs == [] {
      assert Joined(recs) + tail == tail;
    } else {
      var rest := Joined(recs[1..]) + tail;
      assert Joined(recs) + tail == recs[0] + rest;
      assert IsRecord(nsym, recs[0]);
      RecordIsSelfDelimiting(nsym, recs[0], rest);
      RecordsUnfold(nsym, recs[0], rest);
      SweepFindsRecords(nsym, recs[1..], tail);
      assert recs == [recs[0]] + recs[1..];
    }
  }

  lemma RecordsUnfold(nsym: nat, rec: ByteString, rest: ByteString)
    requires nsym < 255 && RecordLen(nsym, rec + rest) == Some(|rec|)
    ensures Swept(nsym, rec + rest) == [rec] + Swept(nsym, rest)
  {
    hide RecordLen;
    assert (rec + rest)[..|rec|] == rec && (rec + rest)[|rec|..] == rest;
  }

  lemma {:induction false} SweptAreRecords(nsym: nat, file: ByteString)
    requires nsym < 255
    ensures AreRecords(nsym, Swept(nsym, file))
    ensures Joined(Swept(nsym, file)) <= file
    decreases |file|
  {
    match RecordLen(nsym, file)
    case None =>
    case Some(n) =>
      SweptAreRecords(nsym, file[n..]);
      PrefixIsRecord(nsym, file, n);
      var rest := Swept(nsym, file[n..]);
      assert Swept(nsym, file)[1..] == rest;
      assert file == file[..n] + file[n..];
  }

  lemma PrefixIsRecord(nsym: nat, file: ByteString, n: nat)
    requires nsym < 255 && RecordLen(nsym, file) == Some(n)
    ensures IsRecord(nsym, file[..n])
  {
    hide FromLe, Ecc.ParityLen;
    assert file[..n][..LEN_PREFIX] == file[..LEN_PREFIX];
  }

  function PayloadOf(nsym: nat, rec: ByteString): (s: ByteString)
    requires nsym < 255 && IsRecord(nsym, rec)
    ensures |s| >= CRYPTO_RESERVE && |rec| == LEN_PREFIX + |s| + ParityAfter(nsym, |s|)
  {
    rec[LEN_PREFIX..LEN_PREFIX + FromLe(rec[..LEN_PREFIX])]
  }

  function ParityOf(nsym: nat, rec: ByteString): (s: ByteString)
    requires nsym < 255 && IsRecord(nsym, rec)
    ensures |s| == ParityAfter(nsym, |PayloadOf(nsym, rec)|)
  {
    rec[LEN_PREFIX + |PayloadOf(nsym, rec)|..]
  }

  // --------------------------------------------------------- body and record

  /** `open_with_ecc`: the payload as it is, or else as corrected, and then authenticated again. */
  ghost function Opened(cfg: Config, payload: ByteString, parity: ByteString, id: nat): (r: Option<ByteString>)
    requires cfg.nsym < 255
  {
    if cfg.cipher.open(payload, id).Some? || cfg.nsym == 0 then cfg.cipher.open(payload, id)
    else
      var fixed := Corrected(payload, parity, cfg.nsym);
      if fixed.None? then None else cfg.cipher.open(fixed.value, id)
  }

  /** Undoes `body_to_seal`. */
  function DecodeBody(cfg: Config, plain: ByteString): (r: Option<ByteString>) {
    if !cfg.compressed then Some(plain)
    else if |plain| == 0 then None
    else if plain[0] == METHOD_RAW then Some(plain[1..])
    else if plain[0] == METHOD_DENSA then Densa.Decompressed(plain[1..])
    else None
  }

  /** The body with its zeros back.  A longer one than a page is refused. */
  function Padded(body: ByteString): (r: Option<ByteString>)
    ensures r.Some? ==> |r.value| == BODY_SIZE
  {
    if |body| > BODY_SIZE then None else Some(body + Zeros(BODY_SIZE - |body|))
  }

  /** What reading the record as page `id` gives. */
  ghost function PageIn(cfg: Config, rec: ByteString, id: nat): (r: Option<ByteString>)
    requires cfg.nsym < 255 && IsRecord(cfg.nsym, rec)
    ensures r.Some? ==> |r.value| == BODY_SIZE
  {
    var plain := Opened(cfg, PayloadOf(cfg.nsym, rec), ParityOf(cfg.nsym, rec), id);
    if plain.None? then None
    else
      var body := DecodeBody(cfg, plain.value);
      if body.None? then None else Padded(body.value)
  }

  /** The record is what writing `body` as page `id` leaves on disk. */
  ghost predicate IsPage(cfg: Config, rec: ByteString, id: nat, body: ByteString) {
    && cfg.nsym < 255 && IsRecord(cfg.nsym, rec)
    && (cfg.nsym > 0 ==> Ecc.IsParityOf(ToPoly(ParityOf(cfg.nsym, rec)), ToPoly(PayloadOf(cfg.nsym, rec)), cfg.nsym))
    && cfg.cipher.open(PayloadOf(cfg.nsym, rec), id).Some?
    && PageIn(cfg, rec, id) == Some(body)
  }

  method TrimTrailingZeros(body: ByteString) returns (r: ByteString)
    ensures r <= body && body == r + Zeros(|body| - |r|)
    ensures r == [] || r[|r| - 1] != 0
  {
    var end := |body|;
    assert body == body[..end] + Zeros(0);
    while end > 0 && body[end - 1] == 0
      invariant end <= |body| && body == body[..end] + Zeros(|body| - end)
    {
      assert body[..end] == body[..end - 1] + [0];
      assert [0] + Zeros(|body| - end) == Zeros(|body| - (end - 1));
      end := end - 1;
    }
    return body[..end];
  }

  method BodyToSeal(cfg: Config, trimmed: ByteString) returns (out: ByteString)
    ensures |trimmed| < TWO_64 ==> DecodeBody(cfg, out) == Some(trimmed)
    ensures |out| <= |trimmed| + 1
    ensures !cfg.compressed ==> out == trimmed
    ensures cfg.compressed ==> out == [METHOD_RAW] + trimmed || (1 <= |out| <= |trimmed| && out[0] == METHOD_DENSA)
  {
    hide Densa.Decompressed;
    if !cfg.compressed {
      return trimmed;
    }
    var c, _ := Densa.CompressDensa(trimmed);
    if c.Some? {
      out := [METHOD_DENSA] + c.value;
      assert out[1..] == c.value;
    } else {
      out := [METHOD_RAW] + trimmed;
      assert out[1..] == trimmed;
    }
  }

  /** The length, the payload, and its parity. */
  method FramedRecord(nsym: nat, stored: ByteString) returns (rec: ByteString)
    requires nsym < 255 && CRYPTO_RESERVE <= |stored| < TWO_32
    ensures IsRecord(nsym, rec) && PayloadOf(nsym, rec) == stored
    ensures nsym > 0 ==> Ecc.IsParityOf(ToPoly(ParityOf(nsym, rec)), ToPoly(stored), nsym)
    ensures |rec| == LEN_PREFIX + |stored| + ParityAfter(nsym, |stored|)
  {
    hide Le, FromLe, Ecc.IsParityOf, Ecc.ParityLen;
    rec := Le(|stored|, 4) + stored;
    LeRoundTrip32(|stored|);
    if nsym > 0 {
      var parity := Ecc.Parity(ToPoly(stored), nsym);
      rec := rec + FromPoly(parity);
      ParityReadsBack(rec, Le(|stored|, 4) + stored, parity);
    }
    assert rec[..LEN_PREFIX] == Le(|stored|, 4);
    assert rec[LEN_PREFIX..LEN_PREFIX + |stored|] == stored;
  }

  lemma ParityReadsBack(rec: ByteString, front: ByteString, parity: P.Poly)
    requires rec == front + FromPoly(parity)
    ensures ToPoly(rec[|front|..]) == parity
  {
    assert rec[|front|..] == FromPoly(parity);
    forall i | 0 <= i < |parity|
      ensures ToBits(FromBits(parity[i])) == parity[i]
    {
      ByteRoundTrip(parity[i]);
    }
  }

  /** What the record holds was sealed for this page under this value of the nonce counter. */
  ghost predicate SealedWith(cfg: Config, rec: ByteString, id: nat, counter: nat) {
    && cfg.nsym < 255 && IsRecord(cfg.nsym, rec)
    && exists plain :: PayloadOf(cfg.nsym, rec) == cfg.cipher.seal(plain, id, counter)
  }

  /** Writing a page: trimmed, compressed if that helps, sealed, framed. */
  method SealPage(cfg: Config, id: nat, body: ByteString, counter: nat) returns (rec: ByteString)
    requires ValidConfig(cfg) && |body| == BODY_SIZE
    ensures IsPage(cfg, rec, id, body) && SealedWith(cfg, rec, id, counter)
  {
    hide Ecc.IsParityOf, Ecc.ParityLen, DecodeBody;
    var trimmed := TrimTrailingZeros(body);
    var toSeal := BodyToSeal(cfg, trimmed);
    var stored := cfg.cipher.seal(toSeal, id, counter);
    rec := FramedRecord(cfg.nsym, stored);
  }

  /** Reading a page's record, through correction if the seal does not open. */
  method ReadRecord(cfg: Config, payload: ByteString, parity: ByteString, id: nat, ghost rec: ByteString)
    returns (r: Option<ByteString>)
    requires cfg.nsym < 255 && IsRecord(cfg.nsym, rec)
    requires payload == PayloadOf(cfg.nsym, rec) && parity == ParityOf(cfg.nsym, rec)
    ensures r == PageIn(cfg, rec, id)
  {
    hide Corrected, Ecc.ParityLen, Densa.Decompressed;
    var plain := cfg.cipher.open(payload, id);
    if plain.None? {
      if cfg.nsym == 0 {
        return None;
      }
      var fixed := CorrectPayload(payload, parity, cfg.nsym);
      if fixed.None? {
        return None;
      }
      plain := cfg.cipher.open(fixed.value, id);
      if plain.None? {
        return None;
      }
    }
    var body := Undone(cfg, plain.value);
    if body.None? {
      return None;
    }
    return Padded(body.value);
  }

  method Undone(cfg: Config, plain: ByteString) returns (r: Option<ByteString>)
    ensures r == DecodeBody(cfg, plain)
  {
    hide Densa.Decompressed;
    if !cfg.compressed {
      return Some(plain);
    }
    if |plain| == 0 {
      return None;
    }
    if plain[0] == METHOD_RAW {
      return Some(plain[1..]);
    }
    if plain[0] == METHOD_DENSA {
      r := Densa.DecompressDensa(plain[1..]);
    } else {
      r := None;
    }
  }

  /**
    Bit rot is repaired end to end: a page written with ECC, then damaged in at most
    half of nsym bytes of each codeword, payload or parity, still reads as written, as
    long as the seal does not open on the damaged payload.
  */
  lemma DamagedPageReads(cfg: Config, rec: ByteString, id: nat, body: ByteString, damaged: ByteString)
    requires IsPage(cfg, rec, id, body) && cfg.nsym > 0
    requires IsRecord(cfg.nsym, damaged) && |PayloadOf(cfg.nsym, damaged)| == |PayloadOf(cfg.nsym, rec)|
    requires Ecc.WithinBudget(ToPoly(PayloadOf(cfg.nsym, damaged)), ToPoly(ParityOf(cfg.nsym, damaged)),
                              ToPoly(PayloadOf(cfg.nsym, rec)), ToPoly(ParityOf(cfg.nsym, rec)), cfg.nsym)
    requires cfg.cipher.open(PayloadOf(cfg.nsym, damaged), id).None?
    ensures PageIn(cfg, damaged, id) == Some(body)
  {
    hide Ecc.IsParityOf, Ecc.WithinBudget, Ecc.ParityLen, DecodeBody, Ecc.Recoverable;
    var p, q := PayloadOf(cfg.nsym, damaged), ParityOf(cfg.nsym, damaged);
    var original := ToPoly(PayloadOf(cfg.nsym, rec));
    RecoverableFrom(original, ToPoly(ParityOf(cfg.nsym, rec)), ToPoly(p), ToPoly(q), cfg.nsym);
    OnlyOneRecoverable(ToPoly(p), ToPoly(q), original, cfg.nsym);
    PolyRoundTrip(PayloadOf(cfg.nsym, rec));
  }

  lemma RecoverableFrom(original: P.Poly, parity: P.Poly, data: P.Poly, parity': P.Poly, nsym: nat)
    requires 1 <= nsym < 255
    requires Ecc.IsParityOf(parity, original, nsym) && Ecc.WithinBudget(data, parity', original, parity, nsym)
    ensures Ecc.Recoverable(original, data, parity', nsym)
  {
  }

  /** No damage is within the budget of two different pages. */
  lemma OnlyOneRecoverable(data: P.Poly, parity: P.Poly, a: P.Poly, nsym: nat)
    requires 1 <= nsym < 255 && Ecc.Recoverable(a, data, parity, nsym)
    ensures forall b: P.Poly :: Ecc.Recoverable(b, data, parity, nsym) ==> b == a
  {
    hide Ecc.Recoverable;
    forall b: P.Poly | Ecc.Recoverable(b, data, parity, nsym)
      ensures b == a
    {
      Ecc.SameRecoverable(a, b, data, parity, nsym);
    }
  }
}
