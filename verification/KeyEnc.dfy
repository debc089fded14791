/** Memcomparable keys (`src/keyenc.rs`): byte strings that sort as the values they stand for. */
module KeyEnc {
  import opened Options
  import opened Bytes
  import opened LittleEndian

  const TWO_63: int := 0x8000_0000_0000_0000

  type I64 = v: int | -TWO_63 <= v < TWO_63

  // ----------------------------------------------------------- byte order

  /** The b-tree's order of keys. */
  predicate Less(a: ByteString, b: ByteString) {
    b != [] && (a == [] || a[0] < b[0] || (a[0] == b[0] && Less(a[1..], b[1..])))
  }

  /** a sorts before b whatever follows either: they differ before one of them ends. */
  predicate Before(a: ByteString, b: ByteString) {
    a != [] && b != [] && (a[0] < b[0] || (a[0] == b[0] && Before(a[1..], b[1..])))
  }

  /** Bytes in dictionary order: at the first difference, or at the end of the shorter. */
  ghost predicate DictionaryBefore(a: ByteString, b: ByteString) {
    exists k: nat :: DecidedAt(a, b, k)
  }

  predicate DecidedAt(a: ByteString, b: ByteString, k: nat) {
    k <= |a| && k < |b| && a[..k] == b[..k] && (k == |a| || a[k] < b[k])
  }

  lemma DecidedAtOnce(a: ByteString, b: ByteString)
    ensures DecidedAt(a, b, 0) <==> b != [] && (a == [] || a[0] < b[0])
  {
    assert a[..0] == [] && b[..0] == [];
  }

  lemma DecidedLater(a: ByteString, b: ByteString, k: nat)
    requires a != [] && b != []
    ensures DecidedAt(a, b, k + 1) <==> a[0] == b[0] && DecidedAt(a[1..], b[1..], k)
  {
    if k + 1 <= |a| && k + 1 <= |b| {
      assert a[..k + 1] == [a[0]] + a[1..][..k] && b[..k + 1] == [b[0]] + b[1..][..k];
    }
  }

  lemma {:induction false} LessMeans(a: ByteString, b: ByteString)
    ensures Less(a, b) <==> DictionaryBefore(a, b)
  {
    hide DecidedAt;
    DecidedAtOnce(a, b);
    if a == [] || b == [] {
      NoneDecided(a, b);
    } else {
      LessMeans(a[1..], b[1..]);
      if DictionaryBefore(a, b) {
        var k: nat :| DecidedAt(a, b, k);
        if k > 0 {
          DecidedLater(a, b, k - 1);
        }
      }
      if DictionaryBefore(a[1..], b[1..]) {
        var k: nat :| DecidedAt(a[1..], b[1..], k);
        DecidedLater(a, b, k);
      }
    }
  }

  lemma NoneDecided(a: ByteString, b: ByteString)
    requires a == [] || b == []
    ensures DictionaryBefore(a, b) <==> b != []
  {
    if b != [] {
      DecidedAtOnce(a, b);
    }
  }

  lemma {:induction false} LessTotal(a: ByteString, b: ByteString)
    ensures Less(a, b) || a == b || Less(b, a)
  {
    if a != [] && b != [] {
      LessTotal(a[1..], b[1..]);
      assert a == [a[0]] + a[1..] && b == [b[0]] + b[1..];
    }
  }

  lemma {:induction false} LessAsymmetric(a: ByteString, b: ByteString)
    requires Less(a, b)
    ensures !Less(b, a) && a != b
  {
    if a != [] && a[0] == b[0] {
      LessAsymmetric(a[1..], b[1..]);
    }
  }

  lemma {:induction false} LessTransitive(a: ByteString, b: ByteString, c: ByteString)
    requires Less(a, b) && Less(b, c)
    ensures Less(a, c)
  {
    if a != [] && a[0] == b[0] && b[0] == c[0] {
      LessTransitive(a[1..], b[1..], c[1..]);
    }
  }

  /** Codes that are apart stay apart, whatever is appended. */
  lemma {:induction false} BeforeExtends(a: ByteString, b: ByteString, x: ByteString, y: ByteString)
    requires Before(a, b)
    ensures Before(a + x, b + y) && Less(a + x, b + y)
  {
    assert (a + x)[1..] == a[1..] + x && (b + y)[1..] == b[1..] + y;
    if a[0] == b[0] {
      BeforeExtends(a[1..], b[1..], x, y);
    }
  }

  lemma {:induction false} BeforeAfter(x: ByteString, a: ByteString, b: ByteString)
    requires Before(a, b)
    ensures Before(x + a, x + b)
  {
    if x == [] {
      assert x + a == a && x + b == b;
    } else {
      BeforeAfter(x[1..], a, b);
      assert (x + a)[1..] == x[1..] + a && (x + b)[1..] == x[1..] + b;
    }
  }

  lemma {:induction false} BeforeIsApart(a: ByteString, b: ByteString)
    requires Before(a, b)
    ensures !(a <= b) && !(b <= a) && !Before(b, a)
  {
    if a[0] == b[0] {
      BeforeIsApart(a[1..], b[1..]);
    }
    PrefixTail(a, b);
    PrefixTail(b, a);
  }

  lemma PrefixTail(a: ByteString, b: ByteString)
    requires a != [] && b != []
    ensures a <= b ==> a[0] == b[0] && a[1..] <= b[1..]
  {
  }

  // ------------------------------------------------------------ big-endian

  /** The n low bytes of v, most significant first. */
  function Be(v: nat, n: nat): (s: ByteString)
    ensures |s| == n
  {
    if n == 0 then [] else Be(v / 256, n - 1) + [v % 256]
  }

  function FromBe(s: ByteString): (r: nat) {
    if s == [] then 0 else 256 * FromBe(s[..|s| - 1]) + s[|s| - 1]
  }

  lemma {:induction false} BeRoundTrip(v: nat, n: nat)
    requires v < Pow256(n)
    ensures FromBe(Be(v, n)) == v
  {
    if n > 0 {
      BeRoundTrip(v / 256, n - 1);
      assert Be(v, n)[..n - 1] == Be(v / 256, n - 1);
    }
  }

  lemma {:induction false} FromBeBound(s: ByteString)
    ensures FromBe(s) < Pow256(|s|)
  {
    if s != [] {
      FromBeBound(s[..|s| - 1]);
    }
  }

  /** Big-endian of one width sorts by value. */
  lemma {:induction false} BeSorts(u: nat, v: nat, n: nat)
    requires u < v < Pow256(n)
    ensures Before(Be(u, n), Be(v, n))
  {
    var x, y := Be(u / 256, n - 1), Be(v / 256, n - 1);
    if u / 256 < v / 256 {
      BeSorts(u / 256, v / 256, n - 1);
      BeforeExtends(x, y, [u % 256], [v % 256]);
    } else {
      assert u / 256 == v / 256 && u % 256 < v % 256;
      assert Before([u % 256], [v % 256]);
      BeforeAfter(x, [u % 256], [v % 256]);
    }
  }

  function Complement(s: ByteString): (r: ByteString)
    ensures |r| == |s| && forall i :: 0 <= i < |s| ==> r[i] == 255 - s[i]
  {
    seq(|s|, i requires 0 <= i < |s| => 255 - s[i])
  }

  lemma {:induction false} ComplementReverses(a: ByteString, b: ByteString)
    requires Before(a, b)
    ensures Before(Complement(b), Complement(a))
  {
    if a[0] == b[0] {
      ComplementReverses(a[1..], b[1..]);
      assert Complement(a)[1..] == Complement(a[1..]) && Complement(b)[1..] == Complement(b[1..]);
    }
  }

  // -------------------------------------------------- variable-length integers

  /** How many bytes v needs. */
  function ByteLen(v: nat): (r: nat) {
    if v == 0 then 0 else 1 + ByteLen(v / 256)
  }

  lemma {:induction false} ByteLenFits(v: nat)
    ensures v < Pow256(ByteLen(v))
  {
    if v > 0 {
      ByteLenFits(v / 256);
    }
  }

  lemma {:induction false} ByteLenMonotone(u: nat, v: nat)
    requires u <= v
    ensures ByteLen(u) <= ByteLen(v)
  {
    if u > 0 {
      ByteLenMonotone(u / 256, v / 256);
    }
  }

  lemma {:induction false} ByteLenBound(v: nat, n: nat)
    requires v < Pow256(n)
    ensures ByteLen(v) <= n
  {
    if v > 0 {
      ByteLenBound(v / 256, n - 1);
    }
  }

  /** A header with the sign and the length, and then as many bytes; negative ones complemented. */
  function Oint(v: I64): (s: ByteString)
    ensures s != []
  {
    var m: nat := if v >= 0 then v else -1 - v;
    OintFits(m);
    var n := ByteLen(m);
    if v >= 0 then [0x80 + n] + Be(m, n) else [0x7F - n] + Complement(Be(m, n))
  }

  lemma OintFits(m: nat)
    requires m < TWO_63
    ensures ByteLen(m) <= 8
  {
    Pow256Of8();
    ByteLenBound(m, 8);
  }

  /** The integer code sorts by value, and no code is the beginning of another. */
  lemma OintSorts(u: I64, v: I64)
    requires u < v
    ensures Before(Oint(u), Oint(v))
  {
    hide Be, Complement;
    var a: nat, b: nat := if u >= 0 then u else -1 - u, if v >= 0 then v else -1 - v;
    OintFits(a);
    OintFits(b);
    if u >= 0 {
      MagnitudesSort(a, b, 0x80);
    } else if v < 0 {
      NegativesSort(a, b);
    }
  }

  lemma MagnitudesSort(a: nat, b: nat, header: nat)
    requires a < b && ByteLen(b) <= 8 && ByteLen(a) <= 8 && header <= 0x80
    ensures Before([header + ByteLen(a)] + Be(a, ByteLen(a)), [header + ByteLen(b)] + Be(b, ByteLen(b)))
  {
    hide Be, ByteLen;
    ByteLenMonotone(a, b);
    ByteLenFits(b);
    if ByteLen(a) == ByteLen(b) {
      BeSorts(a, b, ByteLen(b));
      BeforeAfter([header + ByteLen(a)], Be(a, ByteLen(a)), Be(b, ByteLen(b)));
    }
  }

  lemma NegativesSort(a: nat, b: nat)
    requires b < a && ByteLen(b) <= 8 && ByteLen(a) <= 8
    ensures Before([0x7F - ByteLen(a)] + Complement(Be(a, ByteLen(a))), [0x7F - ByteLen(b)] + Complement(Be(b, ByteLen(b))))
  {
    hide Be, ByteLen, Complement;
    ByteLenMonotone(b, a);
    ByteLenFits(a);
    if ByteLen(a) == ByteLen(b) {
      BeSorts(b, a, ByteLen(a));
      ComplementReverses(Be(b, ByteLen(b)), Be(a, ByteLen(a)));
      BeforeAfter([0x7F - ByteLen(a)], Complement(Be(a, ByteLen(a))), Complement(Be(b, ByteLen(b))));
    }
  }

  method EncodeOint(v: I64, out: ByteString) returns (r: ByteString)
    ensures r == out + Oint(v)
  {
    hide ByteLen;
    if v >= 0 {
      OintFits(v);
      var n := ByteLen(v);
      r := out + [0x80 + n] + Be(v, n);
      assert r == out + ([0x80 + n] + Be(v, n));
    } else {
      var c: nat := -1 - v;
      OintFits(c);
      var n := ByteLen(c);
      var bytes := Be(c, n);
      r := out + [0x7F - n];
      var i := 0;
      while i < n
        invariant i <= n && r == out + [0x7F - n] + Complement(bytes[..i])
      {
        assert Complement(bytes[..i + 1]) == Complement(bytes[..i]) + [255 - bytes[i]];
        r := r + [255 - bytes[i]];
        i := i + 1;
      }
      assert bytes[..n] == bytes;
      assert r == out + ([0x7F - n] + Complement(bytes));
    }
  }

  /** A 64-bit word read as a signed number. */
  function AsI64(u: nat): (v: I64)
    requires u < TWO_64
  {
    if u < TWO_63 then u else u - TWO_64
  }

  datatype TakenInt = TakenInt(value: I64, length: nat)

  /** The integer at the front of s; None on a bad header or too few bytes. */
  function TakeOint(s: ByteString): (r: Option<TakenInt>)
    ensures r.Some? ==> 1 <= r.value.length <= |s|
  {
    if s == [] then None
    else
      var n := if s[0] >= 0x80 then s[0] - 0x80 else 0x7F - s[0];
      if n > 8 || |s| < 1 + n then None
      else
        var bytes := s[1..1 + n];
        Word(bytes);
        Word(Complement(bytes));
        if s[0] >= 0x80 then Some(TakenInt(AsI64(FromBe(bytes)), 1 + n))
        else Some(TakenInt(AsI64(TWO_64 - 1 - FromBe(Complement(bytes))), 1 + n))
  }

  lemma Word(bytes: ByteString)
    requires |bytes| <= 8
    ensures FromBe(bytes) < TWO_64
  {
    Pow256Of8();
    FromBeBound(bytes);
    Pow256Monotone(|bytes|, 8);
  }

  lemma {:induction false} Pow256Monotone(m: nat, n: nat)
    requires m <= n
    ensures Pow256(m) <= Pow256(n)
  {
    if m > 0 {
      Pow256Monotone(m - 1, n - 1);
    }
  }

  method DecodeOint(buf: ByteString, pos: nat) returns (r: Option<I64>, next: nat)
    requires pos <= |buf|
    ensures var t := TakeOint(buf[pos..]);
      if t.Some? then r == Some(t.value.value) && next == pos + t.value.length else r == None
    ensures pos <= next <= |buf|
  {
    hide FromBe;
    next := pos;
    if pos >= |buf| {
      return None, next;
    }
    var header := buf[pos];
    next := pos + 1;
    var n := if header >= 0x80 then header - 0x80 else 0x7F - header;
    if n > 8 || next + n > |buf| {
      return None, next;
    }
    var bytes := buf[next..next + n];
    assert bytes == buf[pos..][1..1 + n];
    next := next + n;
    Word(bytes);
    if header >= 0x80 {
      return Some(AsI64(FromBe(bytes))), next;
    }
    var c: ByteString := [];
    var i := 0;
    while i < n
      invariant i <= n && c == Complement(bytes[..i])
    {
      assert Complement(bytes[..i + 1]) == Complement(bytes[..i]) + [255 - bytes[i]];
      c := c + [255 - bytes[i]];
      i := i + 1;
    }
    assert bytes[..n] == bytes;
    Word(c);
    return Some(AsI64(TWO_64 - 1 - FromBe(c))), next;
  }

  /** Every 64-bit integer reads back, whatever follows, with exactly its own bytes taken. */
  lemma OintRoundTrip(v: I64, rest: ByteString)
    ensures TakeOint(Oint(v) + rest) == Some(TakenInt(v, |Oint(v)|))
  {
    hide ByteLen, Be, FromBe;
    var m: nat := if v >= 0 then v else -1 - v;
    OintFits(m);
    ByteLenFits(m);
    var n := ByteLen(m);
    BeRoundTrip(m, n);
    var s := Oint(v) + rest;
    var bytes := Be(m, n);
    if v >= 0 {
      assert s[1..1 + n] == bytes;
    } else {
      assert s[1..1 + n] == Complement(bytes);
      assert Complement(Complement(bytes)) == bytes;
    }
  }

  // ------------------------------------------------- variable-length strings

  /** Zero bytes are followed by 0xFF. */
  function Escaped(b: ByteString): (s: ByteString) {
    if b == [] then []
    else if b[0] == 0 then [0, 0xFF] + Escaped(b[1..])
    else [b[0]] + Escaped(b[1..])
  }

  function Terminator(): (r: ByteString) {
    [0, 0]
  }

  function EncodedBytes(b: ByteString): (r: ByteString) {
    Escaped(b) + Terminator()
  }

  lemma {:induction false} EscapedAppend(b: ByteString, x: Byte)
    ensures Escaped(b + [x]) == Escaped(b) + if x == 0 then [0, 0xFF] else [x]
  {
    if b == [] {
      assert [x][1..] == [];
    } else {
      EscapedAppend(b[1..], x);
      assert (b + [x])[1..] == b[1..] + [x];
    }
  }

  /** The escaping loop that both string encoders share. */
  method EncodeBytes(b: ByteString, out: ByteString) returns (r: ByteString)
    ensures r == out + EncodedBytes(b)
  {
    r := EscapeInto(b, out);
    r := r + [0] + [0];
    assert r == out + (Escaped(b) + [0, 0]);
  }

  method EscapeInto(b: ByteString, out: ByteString) returns (r: ByteString)
    ensures r == out + Escaped(b)
  {
    r := out;
    var i := 0;
    while i < |b|
      invariant i <= |b| && r == out + Escaped(b[..i])
    {
      assert b[..i + 1] == b[..i] + [b[i]];
      EscapedAppend(b[..i], b[i]);
      r := r + [b[i]];
      if b[i] == 0 {
        r := r + [0xFF];
      }
      i := i + 1;
    }
    assert b[..i] == b;
  }

  /** The head of an encoded string. */
  lemma EncodedUnfold(b: ByteString)
    ensures b == [] ==> EncodedBytes(b) == [0, 0]
    ensures b != [] && b[0] == 0 ==> EncodedBytes(b) == [0, 0xFF] + EncodedBytes(b[1..])
    ensures b != [] && b[0] != 0 ==> EncodedBytes(b) == [b[0]] + EncodedBytes(b[1..])
  {
    assert b != [] ==> EncodedBytes(b[1..]) == Escaped(b[1..]) + [0, 0];
  }

  /** Encoded strings sort as the strings, an extension after what it extends, and none begins another. */
  lemma {:induction false} EncodedBytesSort(a: ByteString, b: ByteString)
    requires Less(a, b)
    ensures Before(EncodedBytes(a), EncodedBytes(b))
  {
    hide EncodedBytes;
    EncodedUnfold(a);
    EncodedUnfold(b);
    if a != [] && a[0] == b[0] {
      EncodedBytesSort(a[1..], b[1..]);
      var head := if a[0] == 0 then [0, 0xFF] else [a[0]];
      BeforeAfter(head, EncodedBytes(a[1..]), EncodedBytes(b[1..]));
    } else {
      EncodedStart(a, b);
    }
  }

  lemma EncodedStart(a: ByteString, b: ByteString)
    requires b != [] && (a == [] || a[0] < b[0])
    ensures Before(EncodedBytes(a), EncodedBytes(b))
  {
    hide EncodedBytes;
    EncodedUnfold(a);
    EncodedUnfold(b);
    var x, y := EncodedBytes(a), EncodedBytes(b);
    if a == [] && b[0] == 0 {
      assert x[1..] == [0] && y[1..] == [0xFF] + EncodedBytes(b[1..]);
    }
  }

  /** A prefix scan hits exactly the extensions. */
  lemma {:induction false} PrefixScanHits(s: ByteString, t: ByteString)
    ensures Escaped(s) <= EncodedBytes(t) <==> s <= t
  {
    EncodedUnfold(t);
    if s != [] {
      if t == [] {
        NotAnEnd(s);
      } else {
        PrefixScanHits(s[1..], t[1..]);
        PrefixTail(s, t);
        EscapedStep(s, t);
      }
    }
  }

  lemma NotAnEnd(s: ByteString)
    requires s != []
    ensures !(Escaped(s) <= [0, 0]) && !(s <= [])
  {
    var e := Escaped(s);
    assert s[0] == 0 ==> e[1] == 0xFF;
    assert s[0] != 0 ==> e[0] == s[0];
  }

  lemma EscapedStep(s: ByteString, t: ByteString)
    requires s != [] && t != []
    ensures Escaped(s) <= EncodedBytes(t) <==> s[0] == t[0] && Escaped(s[1..]) <= EncodedBytes(t[1..])
    ensures s <= t <==> s[0] == t[0] && s[1..] <= t[1..]
  {
    hide Escaped, EncodedBytes;
    EscapedUnfold(s);
    EncodedUnfold(t);
    assert s == [s[0]] + s[1..] && t == [t[0]] + t[1..];
    PrefixOfCons(s[0], s[1..], t[0], t[1..]);
    var x, y := Escaped(s[1..]), EncodedBytes(t[1..]);
    PrefixOfCons(s[0], x, t[0], y);
    PrefixOfCons(0, [0xFF] + x, t[0], y);
    PrefixOfCons(s[0], x, 0, [0xFF] + y);
    PrefixOfCons(0, [0xFF] + x, 0, [0xFF] + y);
    PrefixOfCons(0xFF, x, 0xFF, y);
    assert [0] + ([0xFF] + x) == [0, 0xFF] + x && [0] + ([0xFF] + y) == [0, 0xFF] + y;
  }

  lemma EscapedUnfold(s: ByteString)
    requires s != []
    ensures Escaped(s) == (if s[0] == 0 then [0, 0xFF] else [s[0]]) + Escaped(s[1..])
  {
  }

  lemma PrefixOfCons(a: Byte, x: ByteString, b: Byte, y: ByteString)
    ensures [a] + x <= [b] + y <==> a == b && x <= y
  {
    assert ([a] + x)[0] == a && ([b] + y)[0] == b;
    assert ([a] + x)[1..] == x && ([b] + y)[1..] == y;
    PrefixTail([a] + x, [b] + y);
    if a == b && x <= y {
      assert y == x + y[|x|..];
      assert [b] + y == ([a] + x) + y[|x|..];
    }
  }
}
