/** Fixed-width little-endian numbers, as `to_le_bytes` and `from_le_bytes` write and read them. */
module LittleEndian {
  import opened Bytes

  function Pow256(n: nat): (p: nat)
    ensures p > 0
  {
    if n == 0 then 1 else 256 * Pow256(n - 1)
  }

  function Le(v: nat, n: nat): (s: ByteString)
    ensures |s| == n
  {
    if n == 0 then [] else [v % 256] + Le(v / 256, n - 1)
  }

  function FromLe(s: ByteString): (r: nat) {
    if s == [] then 0 else s[0] + 256 * FromLe(s[1..])
  }

  lemma {:induction false} LeRoundTrip(v: nat, n: nat)
    requires v < Pow256(n)
    ensures FromLe(Le(v, n)) == v
  {
    if n > 0 {
      LeRoundTrip(v / 256, n - 1);
      assert Le(v, n)[1..] == Le(v / 256, n - 1);
    }
  }

  lemma {:induction false} FromLeBound(s: ByteString)
    ensures FromLe(s) < Pow256(|s|)
  {
    if s != [] {
      FromLeBound(s[1..]);
    }
  }

  lemma Pow256Of4()
    ensures Pow256(4) == TWO_32
  {
    assert Pow256(2) == 65536;
  }

  lemma Pow256Of8()
    ensures Pow256(8) == TWO_64
  {
    assert Pow256(2) == 65536;
    assert Pow256(4) == 4294967296;
    assert Pow256(6) == 281474976710656;
  }

  lemma LeRoundTrip32(v: nat)
    requires v < TWO_32
    ensures FromLe(Le(v, 4)) == v
  {
    Pow256Of4();
    LeRoundTrip(v, 4);
  }

  lemma LeRoundTrip64(v: nat)
    requires v < TWO_64
    ensures FromLe(Le(v, 8)) == v
  {
    Pow256Of8();
    LeRoundTrip(v, 8);
  }

  lemma FromLeBound64(s: ByteString)
    requires |s| == 8
    ensures FromLe(s) < TWO_64
  {
    Pow256Of8();
    FromLeBound(s);
  }

  /** Fixed width makes the encoding unambiguous. */
  lemma LeInjective64(a: nat, b: nat)
    requires a < TWO_64 && b < TWO_64 && Le(a, 8) == Le(b, 8)
    ensures a == b
  {
    LeRoundTrip64(a);
    LeRoundTrip64(b);
  }

  // ------------------------------------------------------------- digits

  lemma QuotientIs(x: nat, d: nat, q: nat, r: nat)
    requires r < d && x == d * q + r
    ensures x / d == q && x % d == r
  {
    var e := x / d - q;
    assert d * (x / d) - d * q == d * e;
    assert d * e == r - x % d;
    assert e >= 1 ==> d * e >= d;
    assert e <= -1 ==> d * e + d <= 0;
  }

  lemma Distributes(b: nat, p: nat, q: nat, t: nat)
    requires t < p
    ensures b * (p * q + t) == b * p * q + b * t && b * t + b <= b * p
  {
    assert b * (p * q) == b * p * q;
    assert b * (t + 1) <= b * p;
  }

  /** Dividing in two steps. */
  lemma QuotientOfQuotient(x: nat, b: nat, p: nat)
    requires b > 0 && p > 0
    ensures b * p > 0 && x / (b * p) == x / b / p
  {
    var y, r := x / b, x % b;
    var q, t := y / p, y % p;
    Distributes(b, p, q, t);
    QuotientIs(x, b * p, q, b * t + r);
  }

  /** The number v in n bytes at a place, least significant byte first. */
  ghost predicate LittleEndianAt(s: ByteString, at: nat, n: nat, v: nat) {
    at + n <= |s| && forall i :: 0 <= i < n ==> s[at + i] == v / Pow256(i) % 256
  }

  lemma {:induction false} FromLeDigit(s: ByteString, i: nat)
    requires i < |s|
    ensures s[i] == FromLe(s) / Pow256(i) % 256
  {
    var v, rest := FromLe(s), FromLe(s[1..]);
    QuotientIs(v, 256, rest, s[0]);
    if i > 0 {
      FromLeDigit(s[1..], i - 1);
      QuotientOfQuotient(v, 256, Pow256(i - 1));
    }
  }

  lemma {:induction false} LeDigit(v: nat, n: nat, i: nat)
    requires i < n
    ensures Le(v, n)[i] == v / Pow256(i) % 256
  {
    if i > 0 {
      LeDigit(v / 256, n - 1, i - 1);
      QuotientOfQuotient(v, 256, Pow256(i - 1));
    }
  }

  /** What is read from a place is the number written there, least significant byte first. */
  lemma ReadsLittleEndian(s: ByteString, at: nat, n: nat)
    requires at + n <= |s|
    ensures LittleEndianAt(s, at, n, FromLe(s[at..at + n]))
  {
    forall i | 0 <= i < n
      ensures s[at + i] == FromLe(s[at..at + n]) / Pow256(i) % 256
    {
      FromLeDigit(s[at..at + n], i);
    }
  }

  lemma WritesLittleEndian(s: ByteString, at: nat, n: nat, v: nat)
    requires at + n <= |s| && s[at..at + n] == Le(v, n)
    ensures LittleEndianAt(s, at, n, v)
  {
    forall i | 0 <= i < n
      ensures s[at + i] == v / Pow256(i) % 256
    {
      LeDigit(v, n, i);
      assert s[at..at + n][i] == s[at + i];
    }
  }
}
