/** Row, index and full-text keys (`src/catalog.rs`), built from the codes of `KeyEnc`. */
module Keys {
  import opened Options
  import opened Bytes
  import opened LittleEndian
  import opened KeyEnc

  /** A real is its IEEE 754 bit pattern. */
  datatype Value =
    | Null
    | Integer(n: I64)
    | Real(bits: nat)
    | Bool(b: bool)
    | Text(text: ByteString)
    | Blob(blob: ByteString)

  datatype ColType = IntegerCol | RealCol | BoolCol | TextCol | BlobCol

  predicate Fits(v: Value, t: ColType) {
    match v
    case Null => true
    case Integer(_) => t.IntegerCol?
    case Real(bits) => t.RealCol? && bits < TWO_64
    case Bool(_) => t.BoolCol?
    case Text(_) => t.TextCol?
    case Blob(_) => t.BlobCol?
  }

  /** The place of a real in the total order of IEEE 754-2008, section 5.10. */
  function TotalOrder(bits: nat): (r: int) {
    if bits < TWO_63 then bits else TWO_63 - 1 - bits
  }

  /** NULL first, then by value. */
  predicate ValueLess(v: Value, w: Value) {
    match (v, w)
    case (_, Null) => false
    case (Null, _) => true
    case (Integer(m), Integer(n)) => m < n
    case (Real(x), Real(y)) => TotalOrder(x) < TotalOrder(y)
    case (Bool(x), Bool(y)) => !x && y
    case (Text(x), Text(y)) => Less(x, y)
    case (Blob(x), Blob(y)) => Less(x, y)
    case _ => false
  }

  /** The sign bit flipped, or every bit of a negative real. */
  function RealWord(bits: nat): (w: nat)
    requires bits < TWO_64
    ensures w < TWO_64
  {
    if bits >= TWO_63 then TWO_64 - 1 - bits else bits + TWO_63
  }

  function RowidBe(rowid: I64): (r: ByteString) {
    Be(rowid + TWO_63, 8)
  }

  function Encoded(v: Value): (r: ByteString)
    requires v.Real? ==> v.bits < TWO_64
  {
    match v
    case Null => [0]
    case Integer(n) => [1] + RowidBe(n)
    case Real(bits) => [1] + Be(RealWord(bits), 8)
    case Bool(b) => [1] + [if b then 1 else 0]
    case Text(text) => [1] + EncodedBytes(text)
    case Blob(blob) => [1] + EncodedBytes(blob)
  }

  method EncodeIndexValue(v: Value, out: ByteString) returns (r: ByteString)
    requires v.Real? ==> v.bits < TWO_64
    ensures r == out + Encoded(v)
  {
    hide EncodedBytes, Be;
    match v {
      case Null => r := out + [0];
      case Integer(n) => r := out + [1] + RowidBe(n);
      case Real(bits) => r := out + [1] + Be(RealWord(bits), 8);
      case Bool(b) => r := out + [1] + [if b then 1 else 0];
      case Text(text) => r := EncodeBytes(text, out + [1]);
      case Blob(blob) => r := EncodeBytes(blob, out + [1]);
    }
    assert r == out + Encoded(v) by {
      JoinThree(out, [1], Encoded(v));
    }
  }

  lemma JoinThree(a: ByteString, b: ByteString, c: ByteString)
    ensures b <= c ==> a + b + c[|b|..] == a + c
  {
  }

  /** The encoding of values keeps their order. */
  lemma ValueSorts(v: Value, w: Value, t: ColType)
    requires Fits(v, t) && Fits(w, t) && ValueLess(v, w)
    ensures Before(Encoded(v), Encoded(w))
  {
    hide EncodedBytes, Be;
    LittleEndian.Pow256Of8();
    match (v, w) {
      case (Null, _) =>
      case (Integer(m), Integer(n)) =>
        BeSorts(m + TWO_63, n + TWO_63, 8);
        BeforeAfter([1], RowidBe(m), RowidBe(n));
      case (Real(x), Real(y)) =>
        BeSorts(RealWord(x), RealWord(y), 8);
        BeforeAfter([1], Be(RealWord(x), 8), Be(RealWord(y), 8));
      case (Bool(x), Bool(y)) =>
        assert Before([0], [1]);
        BeforeAfter([1], [0], [1]);
      case (Text(x), Text(y)) =>
        EncodedBytesSort(x, y);
        BeforeAfter([1], EncodedBytes(x), EncodedBytes(y));
      case (Blob(x), Blob(y)) =>
        EncodedBytesSort(x, y);
        BeforeAfter([1], EncodedBytes(x), EncodedBytes(y));
    }
  }

  lemma ValueTotal(v: Value, w: Value, t: ColType)
    requires Fits(v, t) && Fits(w, t)
    ensures ValueLess(v, w) || v == w || ValueLess(w, v)
  {
    match (v, w) {
      case (Text(x), Text(y)) => LessTotal(x, y);
      case (Blob(x), Blob(y)) => LessTotal(x, y);
      case _ =>
    }
  }

  // ------------------------------------------------------------ index entries

  predicate AllFit(vs: seq<Value>, ts: seq<ColType>) {
    |vs| <= |ts| && forall i :: 0 <= i < |vs| ==> Fits(vs[i], ts[i])
  }

  function EncodedValues(vs: seq<Value>, ts: seq<ColType>): (r: ByteString)
    requires AllFit(vs, ts)
  {
    if vs == [] then []
    else
      assert Fits(vs[0], ts[0]);
      Encoded(vs[0]) + EncodedValues(vs[1..], ts[1..])
  }

  /** Tuples compare column by column. */
  predicate TupleLess(vs: seq<Value>, ws: seq<Value>) {
    vs != [] && ws != [] && (ValueLess(vs[0], ws[0]) || (vs[0] == ws[0] && TupleLess(vs[1..], ws[1..])))
  }

  lemma {:induction false} TuplesSort(vs: seq<Value>, ws: seq<Value>, ts: seq<ColType>)
    requires AllFit(vs, ts) && AllFit(ws, ts) && TupleLess(vs, ws)
    ensures Before(EncodedValues(vs, ts), EncodedValues(ws, ts))
  {
    hide Encoded;
    var x, y := EncodedValues(vs[1..], ts[1..]), EncodedValues(ws[1..], ts[1..]);
    if ValueLess(vs[0], ws[0]) {
      ValueSorts(vs[0], ws[0], ts[0]);
      BeforeExtends(Encoded(vs[0]), Encoded(ws[0]), x, y);
    } else {
      TuplesSort(vs[1..], ws[1..], ts[1..]);
      BeforeAfter(Encoded(vs[0]), x, y);
    }
  }

  lemma {:induction false} TupleTotal(vs: seq<Value>, ws: seq<Value>, ts: seq<ColType>)
    requires AllFit(vs, ts) && AllFit(ws, ts) && |vs| == |ws|
    ensures TupleLess(vs, ws) || vs == ws || TupleLess(ws, vs)
  {
    if vs != [] {
      ValueTotal(vs[0], ws[0], ts[0]);
      TupleTotal(vs[1..], ws[1..], ts[1..]);
      assert vs == [vs[0]] + vs[1..] && ws == [ws[0]] + ws[1..];
    }
  }

  function IndexPrefix(id: nat, vs: seq<Value>, ts: seq<ColType>): (r: ByteString)
    requires AllFit(vs, ts)
  {
    [0x02] + Be(id, 4) + EncodedValues(vs, ts)
  }

  function IndexKey(id: nat, vs: seq<Value>, ts: seq<ColType>, rowid: I64): (r: ByteString)
    requires AllFit(vs, ts)
  {
    IndexPrefix(id, vs, ts) + RowidBe(rowid)
  }

  method IndexEntryKey(id: nat, vs: seq<Value>, ghost ts: seq<ColType>, rowid: I64) returns (k: ByteString)
    requires AllFit(vs, ts)
    ensures k == IndexKey(id, vs, ts, rowid)
  {
    hide Be, Encoded;
    k := [0x02] + Be(id, 4);
    ghost var head := k;
    for i := 0 to |vs|
      invariant AllFit(vs[..i], ts)
      invariant k == head + EncodedValues(vs[..i], ts)
    {
      assert Fits(vs[i], ts[i]);
      ghost var before := k;
      k := EncodeIndexValue(vs[i], k);
      assert vs[..i + 1] == vs[..i] + [vs[i]];
      EncodedAppend(vs[..i], vs[i], ts);
      assert head + (EncodedValues(vs[..i], ts) + Encoded(vs[i])) == head + EncodedValues(vs[..i], ts) + Encoded(vs[i]);
    }
    assert vs[..|vs|] == vs;
    k := k + RowidBe(rowid);
  }

  lemma {:induction false} EncodedAppend(vs: seq<Value>, v: Value, ts: seq<ColType>)
    requires AllFit(vs, ts) && |vs| < |ts| && Fits(v, ts[|vs|])
    ensures AllFit(vs + [v], ts) && EncodedValues(vs + [v], ts) == EncodedValues(vs, ts) + Encoded(v)
  {
    hide Encoded;
    if vs == [] {
      assert [v][1..] == [];
    } else {
      EncodedAppend(vs[1..], v, ts[1..]);
      assert (vs + [v])[1..] == vs[1..] + [v];
      assert Fits(vs[0], ts[0]);
    }
  }

  lemma RowidsSort(r: I64, q: I64)
    requires r < q
    ensures Before(RowidBe(r), RowidBe(q))
  {
    Pow256Of8();
    BeSorts(r + TWO_63, q + TWO_63, 8);
  }

  /** One direction: smaller tuples, then smaller rowids, have smaller keys. */
  lemma IndexKeyBefore(id: nat, vs: seq<Value>, ws: seq<Value>, ts: seq<ColType>, r: I64, q: I64)
    requires AllFit(vs, ts) && AllFit(ws, ts) && |vs| == |ws|
    requires TupleLess(vs, ws) || (vs == ws && r < q)
    ensures Less(IndexKey(id, vs, ts, r), IndexKey(id, ws, ts, q))
  {
    hide EncodedValues, Be, TupleLess;
    var head := [0x02] + Be(id, 4);
    if TupleLess(vs, ws) {
      TuplesSort(vs, ws, ts);
      BeforeAfter(head, EncodedValues(vs, ts), EncodedValues(ws, ts));
      BeforeExtends(IndexPrefix(id, vs, ts), IndexPrefix(id, ws, ts), RowidBe(r), RowidBe(q));
    } else {
      RowidsSort(r, q);
      BeforeAfter(IndexPrefix(id, vs, ts), RowidBe(r), RowidBe(q));
      BeforeExtends(IndexKey(id, vs, ts, r), IndexKey(id, ws, ts, q), [], []);
      assert IndexKey(id, vs, ts, r) + [] == IndexKey(id, vs, ts, r) && IndexKey(id, ws, ts, q) + [] == IndexKey(id, ws, ts, q);
    }
  }

  /** Index entries sort exactly as (values, rowid), and only equal entries have equal keys. */
  lemma IndexKeysSort(id: nat, vs: seq<Value>, ws: seq<Value>, ts: seq<ColType>, r: I64, q: I64)
    requires AllFit(vs, ts) && AllFit(ws, ts) && |vs| == |ws|
    ensures Less(IndexKey(id, vs, ts, r), IndexKey(id, ws, ts, q)) <==> TupleLess(vs, ws) || (vs == ws && r < q)
    ensures IndexKey(id, vs, ts, r) == IndexKey(id, ws, ts, q) <==> vs == ws && r == q
  {
    hide IndexKey, TupleLess;
    TupleTotal(vs, ws, ts);
    if TupleLess(vs, ws) || (vs == ws && r < q) {
      IndexKeyBefore(id, vs, ws, ts, r, q);
      LessAsymmetric(IndexKey(id, vs, ts, r), IndexKey(id, ws, ts, q));
    } else if TupleLess(ws, vs) || (vs == ws && q < r) {
      IndexKeyBefore(id, ws, vs, ts, q, r);
      LessAsymmetric(IndexKey(id, ws, ts, q), IndexKey(id, vs, ts, r));
      TupleAsymmetric(ws, vs, ts);
    } else {
      LessIrreflexive(IndexKey(id, vs, ts, r));
    }
  }

  lemma LessIrreflexive(a: ByteString)
    ensures !Less(a, a)
  {
    if Less(a, a) {
      LessAsymmetric(a, a);
    }
  }

  lemma TupleAsymmetric(vs: seq<Value>, ws: seq<Value>, ts: seq<ColType>)
    requires AllFit(vs, ts) && AllFit(ws, ts)
    ensures TupleLess(vs, ws) ==> !TupleLess(ws, vs) && vs != ws
  {
    if TupleLess(vs, ws) {
      TuplesSort(vs, ws, ts);
      BeforeIsApart(EncodedValues(vs, ts), EncodedValues(ws, ts));
      if TupleLess(ws, vs) {
        TuplesSort(ws, vs, ts);
      }
    }
  }

  lemma {:induction false} EncodedConcat(vs: seq<Value>, ws: seq<Value>, ts: seq<ColType>)
    requires AllFit(vs, ts) && AllFit(vs + ws, ts)
    ensures AllFit(ws, ts[|vs|..])
    ensures EncodedValues(vs + ws, ts) == EncodedValues(vs, ts) + EncodedValues(ws, ts[|vs|..])
  {
    hide Encoded;
    assert forall i :: 0 <= i < |ws| ==> ws[i] == (vs + ws)[|vs| + i];
    if vs == [] {
      assert vs + ws == ws && ts[0..] == ts;
    } else {
      var all := vs + ws;
      assert all[1..] == vs[1..] + ws;
      EncodedConcat(vs[1..], ws, ts[1..]);
      assert ts[1..][|vs| - 1..] == ts[|vs|..];
    }
  }

  lemma PrefixOfConcat(head: ByteString, x: ByteString, y: ByteString)
    ensures head + x <= head + y <==> x <= y
  {
    assert (head + x)[|head|..] == x && (head + y)[|head|..] == y;
    if head + x <= head + y {
      assert (head + y)[..|head + x|] == head + x;
      assert y[..|x|] == (head + y)[|head|..|head| + |x|] == x;
    }
    if x <= y {
      assert head + y == (head + x) + y[|x|..];
    }
  }

  /** A scan for the first columns' values hits exactly the entries that have those values. */
  lemma IndexScanHits(id: nat, us: seq<Value>, vs: seq<Value>, ts: seq<ColType>, r: I64)
    requires AllFit(us, ts) && AllFit(vs, ts) && |us| <= |vs|
    ensures IndexPrefix(id, us, ts) <= IndexKey(id, vs, ts, r) <==> us == vs[..|us|]
  {
    hide EncodedValues, Be, TupleLess;
    var ws, rest := vs[..|us|], vs[|us|..];
    assert vs == ws + rest;
    EncodedConcat(ws, rest, ts);
    var head, x := [0x02] + Be(id, 4), EncodedValues(us, ts);
    var tail := EncodedValues(rest, ts[|ws|..]) + RowidBe(r);
    var key := EncodedValues(ws, ts) + tail;
    assert IndexKey(id, vs, ts, r) == head + key;
    PrefixOfConcat(head, x, key);
    TupleTotal(us, ws, ts);
    if us == ws {
      assert x <= key;
    } else if TupleLess(us, ws) {
      TuplesSort(us, ws, ts);
      ApartFromExtension(x, EncodedValues(ws, ts), tail);
    } else {
      TuplesSort(ws, us, ts);
      ApartFromExtension(x, EncodedValues(ws, ts), tail);
    }
  }

  lemma ApartFromExtension(x: ByteString, y: ByteString, tail: ByteString)
    requires Before(x, y) || Before(y, x)
    ensures !(x <= y + tail)
  {
    if Before(x, y) {
      BeforeExtends(x, y, [], tail);
      assert x + [] == x;
      BeforeIsApart(x, y + tail);
    } else {
      BeforeExtends(y, x, tail, []);
      assert x + [] == x;
      BeforeIsApart(y + tail, x);
    }
  }

  // ----------------------------------------------------------------- row keys

  function RowKey(tableId: nat, rowid: I64): (r: ByteString)
    requires tableId < TWO_32
  {
    Oint(tableId) + Oint(rowid)
  }

  lemma RowKeyBefore(t: nat, u: nat, r: I64, q: I64)
    requires t < TWO_32 && u < TWO_32 && (t < u || (t == u && r < q))
    ensures Less(RowKey(t, r), RowKey(u, q))
  {
    hide Oint;
    if t < u {
      OintSorts(t, u);
      BeforeExtends(Oint(t), Oint(u), Oint(r), Oint(q));
    } else {
      OintSorts(r, q);
      BeforeAfter(Oint(t), Oint(r), Oint(q));
      BeforeExtends(RowKey(t, r), RowKey(u, q), [], []);
      assert RowKey(t, r) + [] == RowKey(t, r) && RowKey(u, q) + [] == RowKey(u, q);
    }
  }

  /** Row keys sort exactly by table, then rowid. */
  lemma RowKeysSort(t: nat, u: nat, r: I64, q: I64)
    requires t < TWO_32 && u < TWO_32
    ensures Less(RowKey(t, r), RowKey(u, q)) <==> t < u || (t == u && r < q)
    ensures RowKey(t, r) == RowKey(u, q) <==> t == u && r == q
  {
    hide RowKey;
    if t < u || (t == u && r < q) {
      RowKeyBefore(t, u, r, q);
      LessAsymmetric(RowKey(t, r), RowKey(u, q));
    } else if u < t || (t == u && q < r) {
      RowKeyBefore(u, t, q, r);
      LessAsymmetric(RowKey(u, q), RowKey(t, r));
    } else {
      LessIrreflexive(RowKey(t, r));
    }
  }

  /** `decode_row_key`. */
  function DecodeRowKey(key: ByteString): (r: Option<(nat, I64)>) {
    if key == [] || key[0] < 0x80 then None
    else
      var t := TakeOint(key);
      if t.None? then None
      else
        var r := TakeOint(key[t.value.length..]);
        if r.None? || t.value.value < 0 || t.value.value >= TWO_32 then None
        else Some((t.value.value, r.value.value))
  }

  lemma RowKeyRoundTrip(tableId: nat, rowid: I64)
    requires tableId < TWO_32
    ensures DecodeRowKey(RowKey(tableId, rowid)) == Some((tableId, rowid))
  {
    hide TakeOint, ByteLen, Be;
    OintRoundTrip(tableId, Oint(rowid));
    OintRoundTrip(rowid, []);
    assert Oint(rowid) + [] == Oint(rowid);
    assert RowKey(tableId, rowid)[|Oint(tableId)|..] == Oint(rowid);
    NonNegativeHeader(tableId, Oint(rowid));
  }

  lemma NonNegativeHeader(v: I64, rest: ByteString)
    requires v >= 0
    ensures (Oint(v) + rest)[0] >= 0x80
  {
    OintFits(v);
  }

  // ----------------------------------------------------------- full-text keys

  datatype FtsKey =
    | Posting(termId: nat, rowid: I64)
    | Doclen(docid: I64)
    | Global
    | Df(term: ByteString)
    | Dict(word: ByteString)
    | Counter

  function FtsPrefix(ftsId: nat, sub: Byte): (s: ByteString)
    ensures |s| == 6 && s[5] == sub
  {
    [0x03] + Be(ftsId, 4) + [sub]
  }

  function TermPrefix(ftsId: nat, termId: nat): (r: ByteString)
    requires termId < TWO_32
  {
    FtsPrefix(ftsId, 0) + Oint(termId)
  }

  /** The part of a key after its kind. */
  function FtsTail(k: FtsKey): (r: ByteString)
    requires k.Posting? ==> k.termId < TWO_32
  {
    match k
    case Posting(termId, rowid) => Oint(termId) + Oint(rowid)
    case Doclen(rowid) => RowidBe(rowid)
    case Global => []
    case Df(term) => Encoded(Text(term))
    case Dict(term) => Encoded(Text(term))
    case Counter => []
  }

  function FtsKind(k: FtsKey): (r: Byte) {
    match k
    case Posting(_, _) => 0
    case Doclen(_) => 1
    case Global => 2
    case Df(_) => 3
    case Dict(_) => 4
    case Counter => 5
  }

  function FtsBytes(ftsId: nat, k: FtsKey): (r: ByteString)
    requires k.Posting? ==> k.termId < TWO_32
  {
    FtsPrefix(ftsId, FtsKind(k)) + FtsTail(k)
  }

  lemma KindDecides(ftsId: nat, a: Byte, b: Byte, x: ByteString, y: ByteString)
    requires FtsPrefix(ftsId, a) + x <= FtsPrefix(ftsId, b) + y
    ensures a == b && x <= y
  {
    hide Be;
    var p, q := FtsPrefix(ftsId, a) + x, FtsPrefix(ftsId, b) + y;
    assert p[5] == a && q[5] == b;
    PrefixOfConcat(FtsPrefix(ftsId, a), x, y);
  }

  lemma TextInjective(a: ByteString, b: ByteString)
    requires Encoded(Text(a)) == Encoded(Text(b))
    ensures a == b
  {
    hide Before, Encoded;
    ValueTotal(Text(a), Text(b), TextCol);
    if a != b {
      if ValueLess(Text(a), Text(b)) {
        ValueSorts(Text(a), Text(b), TextCol);
        BeforeIsApart(Encoded(Text(a)), Encoded(Text(b)));
      } else {
        ValueSorts(Text(b), Text(a), TextCol);
        BeforeIsApart(Encoded(Text(b)), Encoded(Text(a)));
      }
    }
  }

  lemma RowidInjective(r: I64, q: I64)
    requires RowidBe(r) == RowidBe(q)
    ensures r == q
  {
    if r < q {
      RowidsSort(r, q);
      BeforeIsApart(RowidBe(r), RowidBe(q));
    } else if q < r {
      RowidsSort(q, r);
      BeforeIsApart(RowidBe(q), RowidBe(r));
    }
  }

  lemma TwoOintsInjective(a: I64, b: I64, r: I64, q: I64)
    requires Oint(a) + Oint(r) == Oint(b) + Oint(q)
    ensures a == b && r == q
  {
    hide Oint, TakeOint;
    OintRoundTrip(a, Oint(r));
    OintRoundTrip(b, Oint(q));
    assert a == b;
    PrefixOfConcat(Oint(a), Oint(r), Oint(q));
    PrefixOfConcat(Oint(a), Oint(q), Oint(r));
    SamePrefixes(Oint(r), Oint(q));
    OintRoundTrip(r, []);
    OintRoundTrip(q, []);
    assert Oint(r) + [] == Oint(r) && Oint(q) + [] == Oint(q);
  }

  /** No two things of a full-text index share a key. */
  lemma FtsKeysInjective(ftsId: nat, k: FtsKey, l: FtsKey)
    requires (k.Posting? ==> k.termId < TWO_32) && (l.Posting? ==> l.termId < TWO_32)
    requires FtsBytes(ftsId, k) == FtsBytes(ftsId, l)
    ensures k == l
  {
    hide FtsPrefix, Encoded, Oint, RowidBe;
    KindDecides(ftsId, FtsKind(k), FtsKind(l), FtsTail(k), FtsTail(l));
    KindDecides(ftsId, FtsKind(l), FtsKind(k), FtsTail(l), FtsTail(k));
    SamePrefixes(FtsTail(k), FtsTail(l));
    match (k, l) {
      case (Posting(a, r), Posting(b, q)) => TwoOintsInjective(a, b, r, q);
      case (Doclen(r), Doclen(q)) => RowidInjective(r, q);
      case (Df(a), Df(b)) => TextInjective(a, b);
      case (Dict(a), Dict(b)) => TextInjective(a, b);
      case _ =>
    }
  }

  lemma SamePrefixes(x: ByteString, y: ByteString)
    requires x <= y && y <= x
    ensures x == y
  {
  }

  /** The scan for one term's postings hits exactly those. */
  lemma PostingScanHits(ftsId: nat, termId: nat, k: FtsKey)
    requires termId < TWO_32 && (k.Posting? ==> k.termId < TWO_32)
    ensures TermPrefix(ftsId, termId) <= FtsBytes(ftsId, k) <==> k.Posting? && k.termId == termId
  {
    hide FtsPrefix, Encoded, Oint, RowidBe, Before;
    if TermPrefix(ftsId, termId) <= FtsBytes(ftsId, k) {
      KindDecides(ftsId, 0, FtsKind(k), Oint(termId), FtsTail(k));
    }
    if k.Posting? {
      PrefixOfConcat(FtsPrefix(ftsId, 0), Oint(termId), FtsTail(k));
      if k.termId == termId {
        assert Oint(termId) <= FtsTail(k);
      } else if termId < k.termId {
        OintSorts(termId, k.termId);
        ApartFromExtension(Oint(termId), Oint(k.termId), Oint(k.rowid));
      } else {
        OintSorts(k.termId, termId);
        ApartFromExtension(Oint(termId), Oint(k.termId), Oint(k.rowid));
      }
    }
  }

  /** Within a term, postings come in rowid order. */
  lemma PostingsSort(ftsId: nat, termId: nat, r: I64, q: I64)
    requires termId < TWO_32 && r < q
    ensures Less(FtsBytes(ftsId, Posting(termId, r)), FtsBytes(ftsId, Posting(termId, q)))
  {
    hide FtsPrefix, Oint;
    OintSorts(r, q);
    var head := FtsPrefix(ftsId, 0);
    BeforeAfter(Oint(termId), Oint(r), Oint(q));
    BeforeAfter(head, Oint(termId) + Oint(r), Oint(termId) + Oint(q));
    var x, y := FtsBytes(ftsId, Posting(termId, r)), FtsBytes(ftsId, Posting(termId, q));
    BeforeExtends(x, y, [], []);
    assert x + [] == x && y + [] == y;
  }

  /** `encode_text_prefix`, under the dictionary's kind. */
  function DictPrefix(ftsId: nat, s: ByteString): (r: ByteString) {
    FtsPrefix(ftsId, 4) + ([1] + Escaped(s))
  }

  method EncodeTextPrefix(s: ByteString, out: ByteString) returns (r: ByteString)
    ensures r == out + ([1] + Escaped(s))
  {
    r := EscapeInto(s, out + [1]);
    assert out + [1] + Escaped(s) == out + ([1] + Escaped(s));
  }

  /** The scan for `s*` in the dictionary hits exactly the words that begin with s. */
  lemma DictScanHits(ftsId: nat, s: ByteString, k: FtsKey)
    requires k.Posting? ==> k.termId < TWO_32
    ensures DictPrefix(ftsId, s) <= FtsBytes(ftsId, k) <==> k.Dict? && s <= k.word
  {
    hide FtsPrefix, Escaped, EncodedBytes, Oint, RowidBe;
    if DictPrefix(ftsId, s) <= FtsBytes(ftsId, k) {
      KindDecides(ftsId, 4, FtsKind(k), [1] + Escaped(s), FtsTail(k));
    }
    if k.Dict? {
      PrefixOfConcat(FtsPrefix(ftsId, 4), [1] + Escaped(s), FtsTail(k));
      PrefixOfConcat([1], Escaped(s), EncodedBytes(k.word));
      PrefixScanHits(s, k.word);
    }
  }
}
