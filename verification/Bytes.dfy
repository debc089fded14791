/** Bytes as numbers, and the unsigned LEB128 varints of `src/format.rs` (DWARF 5, section 7.6). */
module Bytes {
  import opened Options

  type Byte = b: int | 0 <= b < 256
  type ByteString = seq<Byte>

  const TWO_32: nat := 0x1_0000_0000
  const TWO_64: nat := 0x1_0000_0000_0000_0000

  function SaturatingSub(a: nat, b: nat): (r: nat) {
    if a < b then 0 else a - b
  }

  /** 128^k: the weight of the k-th varint byte. */
  function Weight(k: nat): (w: nat)
    ensures w > 0
  {
    if k == 0 then 1 else 128 * Weight(k - 1)
  }

  function Varint(v: nat): (s: ByteString)
    ensures |s| > 0
  {
    if v < 128 then [v] else [v % 128 + 128] + Varint(v / 128)
  }

  lemma VarintUnfold(v: nat)
    ensures v < 128 ==> Varint(v) == [v]
    ensures v >= 128 ==> Varint(v) == [v % 128 + 128] + Varint(v / 128)
  {
  }

  lemma Regroup(a: ByteString, b: ByteString, c: ByteString)
    ensures a + (b + c) == a + b + c
  {
  }

  method PutVarint(out: ByteString, value: nat) returns (r: ByteString)
    ensures r == out + Varint(value)
  {
    hide Varint;
    r := out;
    var v := value;
    while true
      invariant r + Varint(v) == out + Varint(value)
      decreases v
    {
      VarintUnfold(v);
      var b := v % 128;
      v := v / 128;
      if v == 0 {
        r := r + [b];
        return;
      }
      Regroup(r, [b + 128], Varint(v));
      r := r + [b + 128];
    }
  }

  datatype Taken = Taken(value: nat, length: nat)

  /** The seven bits of b at weight 128^k, as far as they fit in 64 bits. */
  function Part(b: Byte, k: nat): (r: nat) {
    (b % 128 * Weight(k)) % TWO_64
  }

  /**
    The varint at the front of s, whose first byte has weight 128^k.  The source
    shifts inside 64 bits, so high bits of a tenth byte are lost; an eleventh byte, or
    the end of the buffer, is a failure.
  */
  function TakeVarintFrom(s: ByteString, k: nat): (r: Option<Taken>)
    requires k <= 9
    ensures r.Some? ==> 1 <= r.value.length <= |s|
    decreases 9 - k
  {
    if |s| == 0 then None
    else
      var part := Part(s[0], k);
      if s[0] < 128 then Some(Taken(part, 1))
      else if k == 9 then None
      else
        match TakeVarintFrom(s[1..], k + 1)
        case None => None
        case Some(t) => Some(Taken(part + t.value, t.length + 1))
  }

  /** A reading with v and k already taken before it. */
  function Plus(r: Option<Taken>, v: nat, k: nat): (t: Option<Taken>) {
    if r.None? then None else Some(Taken(v + r.value.value, k + r.value.length))
  }

  lemma TakeVarintUnfold(s: ByteString, k: nat, v: nat)
    requires k <= 9
    ensures |s| == 0 ==> TakeVarintFrom(s, k) == None
    ensures |s| > 0 && s[0] < 128 ==> TakeVarintFrom(s, k) == Some(Taken(Part(s[0], k), 1))
    ensures |s| > 0 && s[0] >= 128 && k == 9 ==> TakeVarintFrom(s, k) == None
    ensures |s| > 0 && s[0] >= 128 && k < 9 ==>
      Plus(TakeVarintFrom(s, k), v, k) == Plus(TakeVarintFrom(s[1..], k + 1), v + Part(s[0], k), k + 1)
  {
  }

  /** The value is accumulated with `|=` in the source; the bits are disjoint, so it is a sum. */
  method TakeVarint(buf: ByteString, pos: nat) returns (r: Option<nat>, next: nat)
    requires pos <= |buf|
    ensures var t := TakeVarintFrom(buf[pos..], 0);
      if t.Some? then r == Some(t.value.value) && next == pos + t.value.length else r == None
    ensures pos <= next <= |buf|
  {
    hide Part, Weight, TakeVarintFrom;
    var v: nat, k: nat := 0, 0;
    next := pos;
    ghost var whole := TakeVarintFrom(buf[pos..], 0);
    while true
      invariant k <= 9 && next == pos + k <= |buf|
      invariant whole == Plus(TakeVarintFrom(buf[next..], k), v, k)
      decreases 9 - k
    {
      TakeVarintUnfold(buf[next..], k, v);
      if next >= |buf| {
        return None, next;
      }
      var b := buf[next];
      assert buf[next..][1..] == buf[next + 1..];
      v := v + Part(b, k);
      next := next + 1;
      if b < 128 {
        return Some(v), next;
      }
      if 7 * (k + 1) >= 64 {
        return None, next;
      }
      k := k + 1;
    }
  }

  lemma WeightOfTen()
    ensures Weight(10) > TWO_64
  {
    assert Weight(2) == 16384;
    assert Weight(4) == 268435456;
    assert Weight(6) == 4398046511104;
    assert Weight(8) == 72057594037927936;
    assert Weight(10) == 1180591620717411303424;
  }

  lemma MulMonotone(a: nat, b: nat, w: nat)
    requires a >= b
    ensures a * w >= b * w
  {
    assert a * w == b * w + (a - b) * w;
  }

  /** No number below 2^64 has a tenth byte that continues. */
  lemma TenBytesAreEnough(v: nat)
    requires v * Weight(9) < TWO_64
    ensures v < 128
  {
    WeightOfTen();
    if v >= 128 {
      MulMonotone(v, 128, Weight(9));
    }
  }

  lemma SplitProduct(v: nat, w: nat)
    ensures v * w == v % 128 * w + v / 128 * (128 * w)
    ensures 0 <= v % 128 * w && 0 <= v / 128 * (128 * w)
  {
    var lo, hi := v % 128, v / 128;
    assert v == lo + 128 * hi;
    assert (lo + 128 * hi) * w == lo * w + 128 * hi * w;
  }

  lemma {:induction false} VarintRoundTripFrom(v: nat, rest: ByteString, k: nat)
    requires k <= 9 && v * Weight(k) < TWO_64
    ensures TakeVarintFrom(Varint(v) + rest, k) == Some(Taken(v * Weight(k), |Varint(v)|))
    decreases v
  {
    hide Part, Weight, Varint, TakeVarintFrom;
    SplitProduct(v, Weight(k));
    PartFits(v % 128, k);
    PartFits(v % 128 + 128, k);
    VarintHead(v, rest);
    TakeVarintHead(Varint(v) + rest, k);
    if v >= 128 {
      assert k < 9 by {
        if k == 9 {
          TenBytesAreEnough(v);
        }
      }
      WeightStep(k);
      VarintRoundTripFrom(v / 128, rest, k + 1);
    }
  }

  /** The first byte of a code, and what follows it. */
  lemma VarintHead(v: nat, rest: ByteString)
    ensures var s := Varint(v) + rest;
      && |s| > 0 && (v < 128 ==> s[0] == v && |Varint(v)| == 1)
      && (v >= 128 ==> s[0] == v % 128 + 128 && s[1..] == Varint(v / 128) + rest && |Varint(v)| == |Varint(v / 128)| + 1)
  {
  }

  lemma TakeVarintHead(s: ByteString, k: nat)
    requires k <= 9 && |s| > 0
    ensures s[0] < 128 ==> TakeVarintFrom(s, k) == Some(Taken(Part(s[0], k), 1))
    ensures s[0] >= 128 && k < 9 ==> TakeVarintFrom(s, k) == Plus(TakeVarintFrom(s[1..], k + 1), Part(s[0], k), 1)
  {
  }

  lemma WeightStep(k: nat)
    ensures Weight(k + 1) == 128 * Weight(k)
  {
  }

  lemma PartFits(b: Byte, k: nat)
    ensures b % 128 * Weight(k) < TWO_64 ==> Part(b, k) == b % 128 * Weight(k)
  {
  }

  /** Every 64-bit value reads back, with exactly its own bytes consumed. */
  lemma VarintRoundTrip(v: nat, rest: ByteString)
    requires v < TWO_64
    ensures TakeVarintFrom(Varint(v) + rest, 0) == Some(Taken(v, |Varint(v)|))
  {
    assert Weight(0) == 1;
    VarintRoundTripFrom(v, rest, 0);
  }
}
