/** The value of a posting cell as bytes (`encode_posting_value` of `src/catalog.rs`): fields, counts, and position gaps. */
module PostingCodec {
  import opened Options
  import opened Bytes
  import opened LittleEndian

  type U32 = n: int | 0 <= n < TWO_32

  datatype FieldPositions = FieldPositions(field: Byte, positions: seq<U32>)

  datatype Place = Place(field: Byte, pos: U32)

  /** The gap to the previous position, on 32-bit words. */
  function Gap(p: U32, prev: U32): (d: U32) {
    (p - prev) % TWO_32
  }

  function Gaps(ps: seq<U32>, prev: U32): (r: ByteString) {
    if ps == [] then [] else Varint(Gap(ps[0], prev)) + Gaps(ps[1..], ps[0])
  }

  function EncodedField(f: FieldPositions): (r: ByteString) {
    [f.field] + Varint(|f.positions|) + Gaps(f.positions, 0)
  }

  function EncodedCell(fields: seq<FieldPositions>): (r: ByteString) {
    if fields == [] then [] else EncodedField(fields[0]) + EncodedCell(fields[1..])
  }

  function Places(f: FieldPositions): (r: seq<Place>)
    ensures |r| == |f.positions|
  {
    seq(|f.positions|, i requires 0 <= i < |f.positions| => Place(f.field, f.positions[i]))
  }

  function AllPlaces(fields: seq<FieldPositions>): (r: seq<Place>) {
    if fields == [] then [] else Places(fields[0]) + AllPlaces(fields[1..])
  }

  datatype Run = Run(places: seq<Place>, length: nat)

  /** `n` positions of a field, each a gap from the last. */
  function TakeGaps(s: ByteString, field: Byte, n: nat, prev: U32): (r: Option<Run>)
    ensures r.Some? ==> r.value.length <= |s|
    decreases n
  {
    if n == 0 then Some(Run([], 0))
    else
      var t := TakeVarintFrom(s, 0);
      if t.None? then None
      else
        var abs: U32 := (prev + t.value.value % TWO_32) % TWO_32;
        var rest := TakeGaps(s[t.value.length..], field, n - 1, abs);
        if rest.None? then None
        else Some(Run([Place(field, abs)] + rest.value.places, t.value.length + rest.value.length))
  }

  function TakeField(s: ByteString): (r: Option<Run>)
    ensures r.Some? ==> 1 <= r.value.length <= |s|
  {
    if s == [] then None
    else
      var count := TakeVarintFrom(s[1..], 0);
      if count.None? then None
      else
        var run := TakeGaps(s[1 + count.value.length..], s[0], count.value.value, 0);
        if run.None? then None
        else Some(Run(run.value.places, 1 + count.value.length + run.value.length))
  }

  /** `decode_posting_value`: fields until the value ends. */
  function DecodedCell(s: ByteString): (r: Option<seq<Place>>)
    decreases |s|
  {
    if s == [] then Some([])
    else
      var f := TakeField(s);
      if f.None? then None
      else
        var rest := DecodedCell(s[f.value.length..]);
        if rest.None? then None else Some(f.value.places + rest.value)
  }

  lemma GapCloses(p: U32, prev: U32)
    ensures (prev + Gap(p, prev) % TWO_32) % TWO_32 == p
  {
    if p >= prev {
      assert Gap(p, prev) == p - prev;
    } else {
      assert Gap(p, prev) == p - prev + TWO_32;
    }
  }

  lemma {:induction false} GapsRoundTrip(ps: seq<U32>, field: Byte, prev: U32, rest: ByteString)
    ensures TakeGaps(Gaps(ps, prev) + rest, field, |ps|, prev) == Some(Run(Places(FieldPositions(field, ps)), |Gaps(ps, prev)|))
    decreases |ps|
  {
    hide TakeVarintFrom, Varint;
    var s := Gaps(ps, prev) + rest;
    if ps != [] {
      var d := Gap(ps[0], prev);
      var tail := Gaps(ps[1..], ps[0]) + rest;
      assert s == Varint(d) + tail;
      VarintRoundTrip(d, tail);
      assert s[|Varint(d)|..] == tail;
      GapCloses(ps[0], prev);
      GapsRoundTrip(ps[1..], field, ps[0], rest);
      assert Places(FieldPositions(field, ps)) == [Place(field, ps[0])] + Places(FieldPositions(field, ps[1..]));
    } else {
      assert Places(FieldPositions(field, ps)) == [];
    }
  }

  lemma FieldRoundTrip(f: FieldPositions, rest: ByteString)
    requires |f.positions| < TWO_64
    ensures TakeField(EncodedField(f) + rest) == Some(Run(Places(f), |EncodedField(f)|))
  {
    hide TakeVarintFrom, Varint, TakeGaps, Gaps;
    var s := EncodedField(f) + rest;
    var count, gaps := Varint(|f.positions|), Gaps(f.positions, 0);
    assert s[0] == f.field;
    assert s[1..] == count + (gaps + rest);
    VarintRoundTrip(|f.positions|, gaps + rest);
    assert s[1 + |count|..] == gaps + rest;
    GapsRoundTrip(f.positions, f.field, 0, rest);
  }

  /** A cell's value decodes to exactly the places it was made from, field by field, in order. */
  lemma {:induction false} CellRoundTrip(fields: seq<FieldPositions>)
    requires forall i :: 0 <= i < |fields| ==> |fields[i].positions| < TWO_64
    ensures DecodedCell(EncodedCell(fields)) == Some(AllPlaces(fields))
  {
    hide TakeField, EncodedField;
    if fields != [] {
      var s, rest := EncodedCell(fields), EncodedCell(fields[1..]);
      FieldRoundTrip(fields[0], rest);
      assert s == EncodedField(fields[0]) + rest;
      assert s[|EncodedField(fields[0])|..] == rest;
      CellRoundTrip(fields[1..]);
    }
  }

  lemma FirstGap(p: U32)
    ensures Gap(p, 0) == p
  {
  }

  /** The encoding loop over one field's positions: the first as it is, the others as gaps. */
  method EncodePositions(out: ByteString, ps: seq<U32>) returns (r: ByteString)
    ensures r == out + Gaps(ps, 0)
  {
    hide Varint, Gap;
    r := out;
    var prev: U32 := 0;
    assert ps[0..] == ps;
    for i := 0 to |ps|
      invariant (i == 0 ==> prev == 0) && r + Gaps(ps[i..], prev) == out + Gaps(ps, 0)
    {
      assert ps[i..][0] == ps[i] && ps[i..][1..] == ps[i + 1..];
      FirstGap(ps[i]);
      ghost var gap := Varint(Gap(ps[i], prev));
      assert r + (gap + Gaps(ps[i + 1..], ps[i])) == r + gap + Gaps(ps[i + 1..], ps[i]);
      r := PutVarint(r, if i == 0 then ps[i] else Gap(ps[i], prev));
      prev := ps[i];
    }
    assert r + [] == r;
  }

  lemma {:induction false} EncodedAppend(fields: seq<FieldPositions>, f: FieldPositions)
    ensures EncodedCell(fields + [f]) == EncodedCell(fields) + EncodedField(f)
  {
    hide EncodedField;
    if fields == [] {
      assert [f][1..] == [];
    } else {
      EncodedAppend(fields[1..], f);
      assert (fields + [f])[1..] == fields[1..] + [f];
    }
  }

  method EncodePostingValue(fields: seq<FieldPositions>) returns (r: ByteString)
    ensures r == EncodedCell(fields)
  {
    hide Varint, Gaps;
    r := [];
    for k := 0 to |fields|
      invariant r == EncodedCell(fields[..k])
    {
      var f := fields[k];
      ghost var before := r;
      r := r + [f.field];
      r := PutVarint(r, |f.positions|);
      r := EncodePositions(r, f.positions);
      assert r == before + EncodedField(f);
      assert fields[..k + 1] == fields[..k] + [f];
      EncodedAppend(fields[..k], f);
    }
    assert fields[..|fields|] == fields;
  }

  /** A reading with places already taken before it. */
  function Onto(places: seq<Place>, at: nat, run: Option<Run>): (r: Option<(seq<Place>, nat)>) {
    if run.None? then None else Some((places + run.value.places, at + run.value.length))
  }

  lemma TakeGapsUnfold(s: ByteString, field: Byte, n: nat, prev: U32, places: seq<Place>, at: nat)
    ensures n == 0 ==> Onto(places, at, TakeGaps(s, field, n, prev)) == Some((places, at))
    ensures n > 0 && TakeVarintFrom(s, 0).None? ==> TakeGaps(s, field, n, prev).None?
    ensures n > 0 && TakeVarintFrom(s, 0).Some? ==>
      var t := TakeVarintFrom(s, 0).value;
      var abs: U32 := (prev + t.value % TWO_32) % TWO_32;
      Onto(places, at, TakeGaps(s, field, n, prev)) ==
        Onto(places + [Place(field, abs)], at + t.length, TakeGaps(s[t.length..], field, n - 1, abs))
  {
    hide TakeVarintFrom;
    assert n == 0 ==> places + [] == places;
    if n > 0 && TakeVarintFrom(s, 0).Some? {
      var t := TakeVarintFrom(s, 0).value;
      var abs: U32 := (prev + t.value % TWO_32) % TWO_32;
      var rest := TakeGaps(s[t.length..], field, n - 1, abs);
      assert rest.Some? ==> places + ([Place(field, abs)] + rest.value.places) == places + [Place(field, abs)] + rest.value.places;
    }
  }

  /** The decoding loop over one field's positions. */
  method DecodePositions(val: ByteString, p: nat, field: Byte, count: nat, out: seq<Place>)
    returns (r: Option<seq<Place>>, next: nat)
    requires p <= |val|
    ensures var run := Onto(out, p, TakeGaps(val[p..], field, count, 0));
      if run.Some? then r == Some(run.value.0) && next == run.value.1 else r == None
    ensures p <= next <= |val|
  {
    hide TakeVarintFrom, TakeGaps;
    next := p;
    var places := out;
    var abs: U32 := 0;
    for i := 0 to count
      invariant p <= next <= |val| && (i == 0 ==> abs == 0)
      invariant Onto(places, next, TakeGaps(val[next..], field, count - i, abs)) == Onto(out, p, TakeGaps(val[p..], field, count, 0))
    {
      TakeGapsUnfold(val[next..], field, count - i, abs, places, next);
      var before := next;
      var d: Option<nat>;
      d, next := TakeVarint(val, next);
      if d.None? {
        return None, next;
      }
      assert val[before..][next - before..] == val[next..];
      abs := if i == 0 then d.value % TWO_32 else (abs + d.value % TWO_32) % TWO_32;
      places := places + [Place(field, abs)];
    }
    TakeGapsUnfold(val[next..], field, 0, abs, places, next);
    return Some(places), next;
  }

  method DecodePostingValue(val: ByteString) returns (r: Option<seq<Place>>)
    ensures r == DecodedCell(val)
  {
    hide TakeVarintFrom, TakeGaps;
    var places: seq<Place> := [];
    var p := 0;
    assert val[0..] == val;
    PrependNothing(DecodedCell(val));
    while p < |val|
      invariant p <= |val| && DecodedCell(val) == Prepend(places, DecodedCell(val[p..]))
      decreases |val| - p
    {
      var start := p;
      var field := val[p];
      p := p + 1;
      var count: Option<nat>;
      assert val[start..][1..] == val[p..];
      count, p := TakeVarint(val, p);
      if count.None? {
        return None;
      }
      assert val[start..][p - start..] == val[p..];
      var more: Option<seq<Place>>;
      var counted := p;
      more, p := DecodePositions(val, p, field, count.value, []);
      ghost var run := TakeGaps(val[counted..], field, count.value, 0);
      if more.None? {
        return None;
      }
      assert run.Some? ==> [] + run.value.places == run.value.places;
      assert TakeField(val[start..]) == Some(Run(more.value, p - start));
      assert val[start..][p - start..] == val[p..];
      PrependMore(places, more.value, DecodedCell(val[p..]));
      places := places + more.value;
    }
    assert val[p..] == [];
    assert places + [] == places;
    return Some(places);
  }

  function Prepend(front: seq<Place>, rest: Option<seq<Place>>): (r: Option<seq<Place>>) {
    if rest.None? then None else Some(front + rest.value)
  }

  lemma PrependNothing(rest: Option<seq<Place>>)
    ensures Prepend([], rest) == rest
  {
    assert rest.Some? ==> [] + rest.value == rest.value;
  }

  lemma PrependMore(a: seq<Place>, b: seq<Place>, rest: Option<seq<Place>>)
    ensures Prepend(a, Prepend(b, rest)) == Prepend(a + b, rest)
  {
    assert rest.Some? ==> a + (b + rest.value) == a + b + rest.value;
  }
}
