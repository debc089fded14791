/** The bytes of keys and posting cells, field by field (`src/keyenc.rs`, `src/catalog.rs`). */
module KeyFormats {
  import opened Options
  import opened Bytes
  import opened LittleEndian
  import opened KeyEnc
  import opened Keys
  import opened PostingCodec

  /** The number v in n bytes at a place, most significant byte first. */
  ghost predicate BigEndianAt(s: ByteString, at: nat, n: nat, v: nat) {
    at + n <= |s| && forall i :: 0 <= i < n ==> s[at + n - 1 - i] == v / Pow256(i) % 256
  }

  lemma {:induction false} BeDigit(v: nat, n: nat, i: nat)
    requires i < n
    ensures Be(v, n)[i] == v / Pow256(n - 1 - i) % 256
  {
    if i < n - 1 {
      BeDigit(v / 256, n - 1, i);
      QuotientOfQuotient(v, 256, Pow256(n - 2 - i));
    } else {
      assert Pow256(0) == 1;
    }
  }

  lemma WritesBigEndian(s: ByteString, at: nat, n: nat, v: nat)
    requires at + n <= |s| && s[at..at + n] == Be(v, n)
    ensures BigEndianAt(s, at, n, v)
  {
    forall i | 0 <= i < n
      ensures s[at + n - 1 - i] == v / Pow256(i) % 256
    {
      BeDigit(v, n, n - 1 - i);
      assert s[at..at + n][n - 1 - i] == s[at + n - 1 - i];
    }
  }

  // ----------------------------------------------------------------- integers

  /** v in n bytes and not in fewer. */
  ghost predicate NeedsBytes(v: nat, n: nat) {
    v < Pow256(n) && (n > 0 ==> v >= Pow256(n - 1))
  }

  lemma {:induction false} ByteLenMeans(v: nat)
    ensures NeedsBytes(v, ByteLen(v))
  {
    if v > 0 {
      ByteLenMeans(v / 256);
    }
  }

  ghost predicate IsComplement(c: ByteString, s: ByteString) {
    |s| == |c| && forall i :: 0 <= i < |c| ==> s[i] == 255 - c[i]
  }

  /**
    An integer's code: a header that says the sign and the number of bytes behind it, and
    in as few bytes as it takes the number, or for a negative one the complement of -1 - v.
  */
  lemma OintMeans(v: I64)
    ensures var s := Oint(v);
      var n := |s| - 1;
      && n <= 8
      && (v >= 0 ==> s[0] == 0x80 + n && NeedsBytes(v, n) && BigEndianAt(s, 1, n, v))
      && (v < 0 ==> s[0] == 0x7F - n && NeedsBytes(-1 - v, n) && exists c :: BigEndianAt(c, 0, n, -1 - v) && IsComplement(c, s[1..]))
  {
    hide Be, BigEndianAt, NeedsBytes;
    var m: nat := if v >= 0 then v else -1 - v;
    OintFits(m);
    ByteLenMeans(m);
    var s, n := Oint(v), ByteLen(m);
    if v >= 0 {
      assert s[1..1 + n] == Be(m, n);
      WritesBigEndian(s, 1, n, m);
    } else {
      var c := Be(m, n);
      assert c[0..n] == c;
      WritesBigEndian(c, 0, n, m);
      assert s[1..] == Complement(c);
      assert BigEndianAt(c, 0, n, -1 - v) && IsComplement(c, s[1..]);
    }
  }

  // ------------------------------------------------------------------ values

  /** Escaping goes byte by byte: a zero becomes 0x00 0xFF, and any other byte itself. */
  lemma {:induction false} EscapedMeans(a: ByteString, b: ByteString, x: Byte)
    ensures Escaped(a + b) == Escaped(a) + Escaped(b)
    ensures Escaped([]) == [] && Escaped([0]) == [0, 255] && (x != 0 ==> Escaped([x]) == [x])
    ensures EncodedBytes(a) == Escaped(a) + [0, 0]
  {
    if a == [] {
      assert a + b == b;
    } else {
      EscapedMeans(a[1..], b, x);
      assert (a + b)[1..] == a[1..] + b;
      assert [a[0]] + (Escaped(a[1..]) + Escaped(b)) == [a[0]] + Escaped(a[1..]) + Escaped(b);
      assert [0, 0xFF] + (Escaped(a[1..]) + Escaped(b)) == [0, 0xFF] + Escaped(a[1..]) + Escaped(b);
    }
  }

  lemma EightBytes(s: ByteString, n: nat)
    requires s == [1] + Be(n, 8)
    ensures |s| == 9 && s[0] == 1 && BigEndianAt(s, 1, 8, n)
  {
    hide Be;
    assert s[1..9] == Be(n, 8);
    WritesBigEndian(s, 1, 8, n);
  }

  lemma TextValue(text: ByteString)
    ensures [1] + EncodedBytes(text) == [1] + Escaped(text) + [0, 0]
  {
    hide Escaped;
  }

  /**
    An indexed value: 0 for NULL, and otherwise 1 and then eight bytes of an integer with
    its sign bit flipped, of a real with its sign bit or all its bits flipped, a byte for a
    BOOLEAN, or an escaped string.
  */
  lemma ValueMeans(v: Value)
    requires v.Real? ==> v.bits < TWO_64
    ensures var s := Encoded(v);
      match v
      case Null => s == [0]
      case Integer(n) => |s| == 9 && s[0] == 1 && BigEndianAt(s, 1, 8, n + 0x8000_0000_0000_0000)
      case Real(bits) =>
        && |s| == 9 && s[0] == 1
        && BigEndianAt(s, 1, 8, if bits < 0x8000_0000_0000_0000 then bits + 0x8000_0000_0000_0000 else 0xFFFF_FFFF_FFFF_FFFF - bits)
      case Bool(b) => s == if b then [1, 1] else [1, 0]
      case Text(text) => s == [1] + Escaped(text) + [0, 0]
      case Blob(blob) => s == [1] + Escaped(blob) + [0, 0]
  {
    hide Be, BigEndianAt, Escaped, EncodedBytes;
    match v
    case Integer(n) => EightBytes(Encoded(v), n + TWO_63);
    case Real(bits) => EightBytes(Encoded(v), RealWord(bits));
    case Text(text) => TextValue(text);
    case Blob(blob) => TextValue(blob);
    case _ =>
  }

  // -------------------------------------------------------------------- keys

  /** An index entry: 0x02, the index's id in four bytes, the values, and the rowid with its sign bit flipped in eight. */
  lemma IndexKeyMeans(id: nat, vs: seq<Value>, ts: seq<ColType>, rowid: I64)
    requires AllFit(vs, ts) && id < TWO_32
    ensures var k := IndexKey(id, vs, ts, rowid);
      && |k| >= 13 && k[0] == 2 && BigEndianAt(k, 1, 4, id)
      && k[5..|k| - 8] == EncodedValues(vs, ts) && BigEndianAt(k, |k| - 8, 8, rowid + 0x8000_0000_0000_0000)
  {
    hide Be, BigEndianAt, EncodedValues;
    var k := IndexKey(id, vs, ts, rowid);
    assert k[1..5] == Be(id, 4) && k[|k| - 8..|k|] == Be(rowid + TWO_63, 8);
    WritesBigEndian(k, 1, 4, id);
    WritesBigEndian(k, |k| - 8, 8, rowid + TWO_63);
  }

  /** The values of an entry, one after the other. */
  lemma ValuesMean(vs: seq<Value>, v: Value, ts: seq<ColType>)
    requires AllFit(vs + [v], ts)
    ensures AllFit(vs, ts) && (v.Real? ==> v.bits < TWO_64)
    ensures EncodedValues([], ts) == [] && EncodedValues(vs + [v], ts) == EncodedValues(vs, ts) + Encoded(v)
  {
    assert forall i :: 0 <= i < |vs| ==> (vs + [v])[i] == vs[i];
    assert (vs + [v])[|vs|] == v;
    Keys.EncodedAppend(vs, v, ts);
  }

  /** What follows the six bytes that say the index and the kind of a full-text entry. */
  ghost predicate IsFtsTail(k: FtsKey, tail: ByteString)
    requires k.Posting? ==> k.termId < TWO_32
  {
    match k
    case Posting(termId, rowid) => tail == Oint(termId) + Oint(rowid)
    case Doclen(docid) => |tail| == 8 && BigEndianAt(tail, 0, 8, docid + 0x8000_0000_0000_0000)
    case Global => tail == []
    case Df(term) => tail == [1] + Escaped(term) + [0, 0]
    case Dict(word) => tail == [1] + Escaped(word) + [0, 0]
    case Counter => tail == []
  }

  /** A full-text entry: 0x03, the index's id in four bytes, the kind, and what there is to find it by. */
  lemma FtsKeyMeans(ftsId: nat, k: FtsKey)
    requires k.Posting? ==> k.termId < TWO_32
    ensures var s := FtsBytes(ftsId, k);
      && |s| >= 6 && s[0] == 3 && BigEndianAt(s, 1, 4, ftsId)
      && s[5] == (match k case Posting(_, _) => 0 case Doclen(_) => 1 case Global => 2 case Df(_) => 3 case Dict(_) => 4 case Counter => 5)
      && IsFtsTail(k, s[6..])
  {
    hide Be, BigEndianAt, FtsTail, IsFtsTail;
    var s := FtsBytes(ftsId, k);
    assert s[1..5] == Be(ftsId, 4);
    WritesBigEndian(s, 1, 4, ftsId);
    assert s[6..] == FtsTail(k);
    FtsTailMeans(k);
  }

  lemma FtsTailMeans(k: FtsKey)
    requires k.Posting? ==> k.termId < TWO_32
    ensures IsFtsTail(k, FtsTail(k))
  {
    hide Be, BigEndianAt, Oint, Escaped, EncodedBytes;
    match k
    case Doclen(docid) =>
      assert FtsTail(k)[0..8] == FtsTail(k);
      WritesBigEndian(FtsTail(k), 0, 8, docid + TWO_63);
    case Df(term) => TextValue(term);
    case Dict(word) => TextValue(word);
    case _ =>
  }

  // ------------------------------------------------------------ posting cells

  /** Varints one after the other. */
  function Varints(ns: seq<nat>): (s: ByteString) {
    if ns == [] then [] else Varint(ns[0]) + Varints(ns[1..])
  }

  /** How far a position is from the one before, in 32 bits; the first one from `prev`. */
  function Distance(ps: seq<U32>, prev: U32, i: nat): (n: nat)
    requires i < |ps|
  {
    var before: int := if i == 0 then prev else ps[i - 1];
    (ps[i] - before) % 0x1_0000_0000
  }

  ghost predicate AreDistances(ns: seq<nat>, ps: seq<U32>, prev: U32) {
    |ns| == |ps| && forall i :: 0 <= i < |ps| ==> ns[i] == Distance(ps, prev, i)
  }

  lemma TailDistances(ps: seq<U32>, prev: U32, ns: seq<nat>)
    requires ps != [] && AreDistances(ns, ps, prev)
    ensures AreDistances(ns[1..], ps[1..], ps[0]) && ns[0] == Gap(ps[0], prev)
  {
    assert ns[0] == Distance(ps, prev, 0);
    forall i | 0 <= i < |ps| - 1
      ensures ns[1..][i] == Distance(ps[1..], ps[0], i)
    {
      assert ns[1..][i] == ns[i + 1] == Distance(ps, prev, i + 1);
    }
  }

  lemma {:induction false} GapsMean(ps: seq<U32>, prev: U32, ns: seq<nat>)
    requires AreDistances(ns, ps, prev)
    ensures Gaps(ps, prev) == Varints(ns)
  {
    hide Varint;
    if ps != [] {
      TailDistances(ps, prev, ns);
      GapsMean(ps[1..], ps[0], ns[1..]);
    }
  }

  /** The distances themselves. */
  function Distances(ps: seq<U32>): (ns: seq<nat>)
    ensures AreDistances(ns, ps, 0)
  {
    seq(|ps|, i requires 0 <= i < |ps| => Distance(ps, 0, i))
  }

  /** A field in a cell: its number, how many positions there are, and their distances; the fields follow one another. */
  lemma FieldMeans(fields: seq<FieldPositions>, f: FieldPositions)
    ensures EncodedField(f) == [f.field] + Varint(|f.positions|) + Varints(Distances(f.positions))
    ensures EncodedCell([]) == [] && EncodedCell(fields + [f]) == EncodedCell(fields) + EncodedField(f)
  {
    hide Varint, Varints;
    GapsMean(f.positions, 0, Distances(f.positions));
    PostingCodec.EncodedAppend(fields, f);
  }
}
