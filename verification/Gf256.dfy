/**
  The field GF(256) of `src/ecc.rs`: addition is xor, multiplication goes through
  the powers of the generator 2 modulo x^8 + x^4 + x^3 + x^2 + 1 (0x11D).

  The source multiplies by table lookup.  Here the tables are the functions `Exp`
  and `Log`, `BuildTables` is the loop that fills them, and the field laws are
  derived from two facts: doubling (`Twice`) is linear over xor, and the powers of
  the generator run through all 255 nonzero bytes.
*/
module Gf256 {

  // ---------- the generator and its powers ----------

  /** One step of the table loop on a byte: shift left, reduce by 0x11D. */
  function Twice(a: bv8): (r: bv8) {
    if a & 0x80 != 0 then (a << 1) ^ 0x1D else a << 1
  }

  function TwiceTimes(n: nat, a: bv8): (r: bv8) {
    if n == 0 then a else Twice(TwiceTimes(n - 1, a))
  }

  /** The generator to the power n. */
  function Exp(n: nat): (r: bv8) {
    TwiceTimes(n, 1)
  }

  /** The first exponent at or after i whose power is a, or 255. */
  function LogFrom(a: bv8, i: nat): (r: nat)
    requires i <= 255
    ensures i <= r <= 255
    ensures r < 255 ==> Exp(r) == a
    ensures forall k :: i <= k < r ==> Exp(k) != a
    decreases 255 - i
  {
    if i < 255 && Exp(i) != a then LogFrom(a, i + 1) else i
  }

  function Log(a: bv8): (r: nat)
    ensures r <= 255
  {
    LogFrom(a, 0)
  }

  lemma ShiftLinear(a: bv8, b: bv8)
    ensures (a ^ b) << 1 == (a << 1) ^ (b << 1)
  {
  }

  lemma HighBitLinear(a: bv8, b: bv8)
    ensures (a ^ b) & 0x80 == (a & 0x80) ^ (b & 0x80)
    ensures a & 0x80 == 0 || a & 0x80 == 0x80
  {
  }

  lemma TwiceLinear(a: bv8, b: bv8)
    ensures Twice(a ^ b) == Twice(a) ^ Twice(b)
  {
    ShiftLinear(a, b);
    HighBitLinear(a, b);
    HighBitLinear(b, a);
  }

  /** Multiplication by x in the polynomials over GF(2), with x^8 = x^4 + x^3 + x^2 + 1. */
  lemma TwiceMeans(a: bv8, b: bv8)
    ensures Twice(a ^ b) == Twice(a) ^ Twice(b)
    ensures a < 0x80 ==> Twice(a) == a << 1
    ensures Twice(0x80) == 0x10 ^ 0x08 ^ 0x04 ^ 0x01
  {
    hide Twice;
    TwiceLinear(a, b);
    TwiceSmall(a);
  }

  lemma TwiceSmall(a: bv8)
    ensures a < 0x80 ==> Twice(a) == a << 1
    ensures Twice(0x80) == 0x10 ^ 0x08 ^ 0x04 ^ 0x01
  {
  }

  lemma TwiceInjective(a: bv8, b: bv8)
    requires Twice(a) == Twice(b)
    ensures a == b
  {
  }

  lemma {:induction false} TwiceTimesLinear(n: nat, a: bv8, b: bv8)
    ensures TwiceTimes(n, a ^ b) == TwiceTimes(n, a) ^ TwiceTimes(n, b)
  {
    hide Twice;
    if n > 0 {
      TwiceTimesLinear(n - 1, a, b);
      TwiceLinear(TwiceTimes(n - 1, a), TwiceTimes(n - 1, b));
    }
  }

  lemma {:induction false} TwiceTimesInjective(n: nat, a: bv8, b: bv8)
    requires TwiceTimes(n, a) == TwiceTimes(n, b)
    ensures a == b
  {
    hide Twice;
    if n > 0 {
      TwiceInjective(TwiceTimes(n - 1, a), TwiceTimes(n - 1, b));
      TwiceTimesInjective(n - 1, a, b);
    }
  }

  lemma {:induction false} TwiceTimesAdd(m: nat, n: nat, a: bv8)
    ensures TwiceTimes(m + n, a) == TwiceTimes(m, TwiceTimes(n, a))
  {
    hide Twice;
    if m > 0 {
      TwiceTimesAdd(m - 1, n, a);
    }
  }

  lemma {:induction false} TwiceTimesZero(n: nat)
    ensures TwiceTimes(n, 0) == 0
  {
    if n > 0 {
      TwiceTimesZero(n - 1);
    }
  }

  lemma ExpNonzero(n: nat)
    ensures Exp(n) != 0
  {
    if Exp(n) == 0 {
      TwiceTimesZero(n);
      TwiceTimesInjective(n, 1, 0);
    }
  }

  // ---------- the generator has order 255 ----------

  lemma Power15()
    ensures Exp(15) == 0x26
  {
    assert Exp(8) == 0x1D;
  }

  lemma Power51()
    requires Exp(15) == 0x26
    ensures Exp(51) == 0x0A
  {
    assert Exp(23) == 0xC9;
    assert Exp(31) == 0xC0;
    assert Exp(39) == 0x35;
    assert Exp(47) == 0x23;
  }

  lemma Power85()
    requires Exp(51) == 0x0A
    ensures Exp(85) == 0xD6
  {
    assert Exp(59) == 0xD2;
    assert Exp(67) == 0xC2;
    assert Exp(75) == 0x0F;
    assert Exp(83) == 0xBB;
  }

  lemma Power119()
    requires Exp(85) == 0xD6
    ensures Exp(119) == 0x93
  {
    assert Exp(93) == 0xB6;
    assert Exp(101) == 0x22;
    assert Exp(109) == 0xBD;
    assert Exp(117) == 0xED;
  }

  lemma Power153()
    requires Exp(119) == 0x93
    ensures Exp(153) == 0x92
  {
    assert Exp(127) == 0xCC;
    assert Exp(135) == 0xA9;
    assert Exp(143) == 0x54;
    assert Exp(151) == 0xAA;
  }

  lemma Power187()
    requires Exp(153) == 0x92
    ensures Exp(187) == 0xDC
  {
    assert Exp(161) == 0xD1;
    assert Exp(169) == 0xE5;
    assert Exp(177) == 0xDB;
    assert Exp(185) == 0x37;
  }

  lemma Power221()
    requires Exp(187) == 0xDC
    ensures Exp(221) == 0x45
  {
    assert Exp(195) == 0x64;
    assert Exp(203) == 0xE0;
    assert Exp(211) == 0xB2;
    assert Exp(219) == 0x56;
  }

  lemma Power255()
    requires Exp(221) == 0x45
    ensures Exp(255) == 0x01
  {
    assert Exp(229) == 0x7A;
    assert Exp(237) == 0x8B;
    assert Exp(245) == 0xE9;
    assert Exp(253) == 0x47;
  }

  /** 255 is a period of the powers; 15, 51 and 85, its largest proper divisors, are not. */
  lemma OrderLandmarks()
    ensures Exp(255) == 1 && Exp(15) != 1 && Exp(51) != 1 && Exp(85) != 1
  {
    Power15(); Power51(); Power85(); Power119(); Power153(); Power187(); Power221(); Power255();
  }

  lemma ExpAdd(m: nat, n: nat)
    ensures Exp(m + n) == TwiceTimes(m, Exp(n))
  {
    TwiceTimesAdd(m, n, 1);
  }

  lemma {:induction false} PeriodMultiple(d: nat, k: nat)
    requires Exp(d) == 1
    ensures Exp(d * k) == 1
  {
    if k > 0 {
      PeriodMultiple(d, k - 1);
      ExpAdd(d, d * (k - 1));
      assert d + d * (k - 1) == d * k;
    }
  }

  /** Exponents count modulo 255. */
  lemma {:induction false} ExpMod(n: nat)
    ensures Exp(n) == Exp(n % 255)
    decreases n
  {
    hide TwiceTimes;
    if n >= 255 {
      OrderLandmarks();
      ExpAdd(n - 255, 255);
      ExpMod(n - 255);
      assert n % 255 == (n - 255) % 255;
    }
  }

  /** No exponent strictly between 0 and 255 gives 1. */
  lemma OrderIs255(d: nat)
    requires 0 < d < 255
    ensures Exp(d) != 1
  {
    hide *;
    if Exp(d) == 1 {
      // The smallest period divides 255, so it divides 15, 51 or 85, which are not periods.
      var g := SmallestPeriod(d);
      OrderLandmarks();
      PeriodDivides(g, 255);
      DivisorsOf255(g, 255 / g);
      PeriodOfMultiple(g, 15);
      PeriodOfMultiple(g, 51);
      PeriodOfMultiple(g, 85);
    }
  }

  lemma PeriodOfMultiple(g: nat, h: nat)
    requires 0 < g && Exp(g) == 1
    ensures h % g == 0 ==> Exp(h) == 1
  {
    if h % g == 0 {
      PeriodMultiple(g, h / g);
      assert g * (h / g) == h;
    }
  }

  lemma SmallestPeriod(d: nat) returns (g: nat)
    requires 0 < d && Exp(d) == 1
    ensures 0 < g <= d && Exp(g) == 1
    ensures forall k :: 0 < k < g ==> Exp(k) != 1
  {
    g := 1;
    while Exp(g) != 1
      invariant 0 < g <= d
      invariant forall k :: 0 < k < g ==> Exp(k) != 1
      decreases d - g
    {
      g := g + 1;
    }
  }

  lemma PeriodDivides(g: nat, n: nat)
    requires 0 < g && Exp(g) == 1 && Exp(n) == 1
    requires forall k :: 0 < k < g ==> Exp(k) != 1
    ensures n % g == 0
  {
    var q, r := n / g, n % g;
    assert n == r + g * q;
    PeriodMultiple(g, q);
    ExpAdd(r, g * q);
    assert Exp(r) == 1;
  }

  lemma DivisorsOf255(g: nat, k: nat)
    requires g * k == 255 && 0 < g < 255
    ensures 15 % g == 0 || 51 % g == 0 || 85 % g == 0
  {
    assert k > 1;
    if k < 17 {
      assert k == 3 || k == 5 || k == 15 by { SmallFactor(k, g); }
    } else {
      assert g < 16 by { if g >= 16 { MulAtLeast(g, 16, k, 17); } }
      assert g == 1 || g == 3 || g == 5 || g == 15 by { SmallFactor(g, k); }
    }
  }

  lemma MulAtLeast(a: nat, m: nat, b: nat, n: nat)
    requires a >= m && b >= n
    ensures a * b >= m * n
  {
    assert a * b == m * n + m * (b - n) + (a - m) * b;
  }

  lemma SmallFactor(a: nat, b: nat)
    requires a * b == 255 && a < 17
    ensures a == 1 || a == 3 || a == 5 || a == 15
  {
    assert 255 % a == 0 by { assert a > 0; assert b == 255 / a; }
  }

  lemma ExpInjective(i: nat, j: nat)
    requires i < 255 && j < 255 && Exp(i) == Exp(j)
    ensures i == j
  {
    if i < j {
      ExpAdd(i, j - i);
      TwiceTimesInjective(i, Exp(j - i), 1);
      OrderIs255(j - i);
    } else if j < i {
      ExpInjective(j, i);
    }
  }

  // ---------- every nonzero byte is a power ----------

  /** The nonzero bytes whose value as a number is at most n. */
  function Bytes(n: nat): (r: set<bv8>)
    requires n <= 255
    ensures |r| <= n
  {
    if n == 0 then {} else Bytes(n - 1) + {n as bv8}
  }

  lemma {:induction false} BytesContain(n: nat, b: bv8)
    requires 1 <= b as int <= n <= 255
    ensures b in Bytes(n)
  {
    if b as int < n {
      BytesContain(n - 1, b);
    }
  }

  function Powers(n: nat): (r: set<bv8>) {
    set i | 0 <= i < n :: Exp(i)
  }

  lemma {:induction false} PowersCount(n: nat)
    requires n <= 255
    ensures |Powers(n)| == n
  {
    if n == 0 {
      assert Powers(0) == {};
    } else {
      PowersCount(n - 1);
      assert Powers(n) == Powers(n - 1) + {Exp(n - 1)};
      if Exp(n - 1) in Powers(n - 1) {
        var i :| 0 <= i < n - 1 && Exp(i) == Exp(n - 1);
        ExpInjective(i, n - 1);
      }
    }
  }

  lemma SubsetOfSameSize<T>(a: set<T>, b: set<T>)
    requires a <= b && |b| <= |a|
    ensures a == b
  {
    assert |b| == |a| + |b - a|;
    assert b == a + (b - a);
  }

  lemma EveryNonzeroIsAPower(a: bv8)
    requires a != 0
    ensures exists i :: 0 <= i < 255 && Exp(i) == a
  {
    hide Exp;
    PowersCount(255);
    forall i | 0 <= i < 255 ensures Exp(i) in Bytes(255) {
      ExpNonzero(i);
      BytesContain(255, Exp(i));
    }
    assert Powers(255) <= Bytes(255);
    SubsetOfSameSize(Powers(255), Bytes(255));
    BytesContain(255, a);
    assert a in Powers(255);
  }

  /** `Log` inverts the powers: the table entry of a nonzero byte is its exponent. */
  lemma LogOfNonzero(a: bv8)
    requires a != 0
    ensures Log(a) < 255 && Exp(Log(a)) == a
  {
    EveryNonzeroIsAPower(a);
  }

  lemma LogOfExp(n: nat)
    ensures Log(Exp(n)) == n % 255
  {
    ExpNonzero(n);
    LogOfNonzero(Exp(n));
    ExpMod(n);
    ExpInjective(Log(Exp(n)), n % 255);
  }

  // ---------- the operations ----------

  /** Addition, and subtraction: the field has characteristic 2. */
  function Add(a: bv8, b: bv8): (r: bv8) {
    a ^ b
  }

  function Mul(a: bv8, b: bv8): (r: bv8) {
    if a == 0 || b == 0 then 0 else Exp(Log(a) + Log(b))
  }

  /** The source asks its callers for b != 0. */
  function Div(a: bv8, b: bv8): (r: bv8)
    requires b != 0
  {
    if a == 0 then 0 else Exp((Log(a) - Log(b)) % 255)
  }

  function Inv(a: bv8): (r: bv8)
    requires a != 0
  {
    Exp(255 - Log(a))
  }

  /** The generator to a signed power. */
  function Pow(n: int): (r: bv8) {
    Exp(n % 255)
  }

  // ---------- field laws ----------

  lemma SumModulo(i: nat, j: nat)
    ensures (i % 255 + j % 255) % 255 == (i + j) % 255
  {
  }

  lemma MulExp(i: nat, j: nat)
    ensures Mul(Exp(i), Exp(j)) == Exp(i + j)
  {
    hide Exp, Log;
    ExpNonzero(i);
    ExpNonzero(j);
    LogOfExp(i);
    LogOfExp(j);
    ExpMod(i % 255 + j % 255);
    ExpMod(i + j);
    SumModulo(i, j);
  }

  lemma MulIsTwiceTimes(i: nat, b: bv8)
    ensures Mul(Exp(i), b) == TwiceTimes(i, b)
  {
    hide TwiceTimes, LogFrom;
    if b == 0 {
      TwiceTimesZero(i);
    } else {
      LogOfNonzero(b);
      MulExp(i, Log(b));
      ExpAdd(i, Log(b));
    }
  }

  lemma MulNonzero(a: bv8, b: bv8)
    ensures Mul(a, b) == 0 <==> a == 0 || b == 0
  {
    hide LogFrom, Exp;
    if a != 0 && b != 0 {
      ExpNonzero(Log(a) + Log(b));
    }
  }

  lemma MulCommutes(a: bv8, b: bv8)
    ensures Mul(a, b) == Mul(b, a)
  {
  }

  lemma MulAssociates(a: bv8, b: bv8, c: bv8)
    ensures Mul(Mul(a, b), c) == Mul(a, Mul(b, c))
  {
    hide TwiceTimes, LogFrom;
    if a != 0 && b != 0 && c != 0 {
      LogOfNonzero(a);
      LogOfNonzero(b);
      LogOfNonzero(c);
      MulExp(Log(a), Log(b));
      MulExp(Log(b), Log(c));
      MulExp(Log(a) + Log(b), Log(c));
      MulExp(Log(a), Log(b) + Log(c));
    }
  }

  lemma AddLaws(a: bv8, b: bv8, c: bv8)
    ensures Add(a, b) == Add(b, a)
    ensures Add(Add(a, b), c) == Add(a, Add(b, c))
    ensures Add(a, 0) == a && Add(0, a) == a
    ensures Add(a, a) == 0
    ensures Add(a, Add(a, b)) == b
    ensures Add(a, b) == 0 <==> a == b
  {
  }

  /** (a + b) + (c + d) == (a + c) + (b + d) */
  lemma AddExchange(a: bv8, b: bv8, c: bv8, d: bv8)
    ensures Add(Add(a, b), Add(c, d)) == Add(Add(a, c), Add(b, d))
  {
    hide Add;
    AddLaws(a, b, Add(c, d));
    AddLaws(b, c, d);
    AddLaws(c, b, d);
    AddLaws(a, c, Add(b, d));
  }

  lemma MulDistributes(a: bv8, b: bv8, c: bv8)
    ensures Mul(a, Add(b, c)) == Add(Mul(a, b), Mul(a, c))
    ensures Mul(Add(b, c), a) == Add(Mul(b, a), Mul(c, a))
  {
    if a == 0 {
      AddLaws(0, 0, 0);
    } else {
      LogOfNonzero(a);
      MulIsTwiceTimes(Log(a), b);
      MulIsTwiceTimes(Log(a), c);
      MulIsTwiceTimes(Log(a), Add(b, c));
      TwiceTimesLinear(Log(a), b, c);
    }
    MulCommutes(a, Add(b, c));
    MulCommutes(a, b);
    MulCommutes(a, c);
  }

  lemma MulOne(a: bv8)
    ensures Mul(1, a) == a && Mul(a, 1) == a
  {
    MulIsTwiceTimes(0, a);
    MulCommutes(a, 1);
  }

  lemma MulInv(a: bv8)
    requires a != 0
    ensures Inv(a) != 0 && Mul(a, Inv(a)) == 1
  {
    LogOfNonzero(a);
    ExpNonzero(255 - Log(a));
    MulExp(Log(a), 255 - Log(a));
    OrderLandmarks();
  }

  lemma DivIsInverseOfMul(a: bv8, b: bv8)
    requires b != 0
    ensures Mul(Div(a, b), b) == a
  {
    hide Exp, Log;
    if a != 0 {
      LogOfNonzero(a);
      LogOfNonzero(b);
      ExpNonzero(Log(a));
      var d := (Log(a) - Log(b)) % 255;
      MulExp(d, Log(b));
      ExpMod(d + Log(b));
      assert (d + Log(b)) % 255 == Log(a);
    }
  }

  lemma MulCancels(a: bv8, b: bv8, c: bv8)
    requires a != 0 && Mul(a, b) == Mul(a, c)
    ensures b == c
  {
    MulDistributes(a, b, c);
    MulNonzero(a, Add(b, c));
    AddLaws(b, c, 0);
  }

  lemma PowAdd(m: int, n: int)
    ensures Mul(Pow(m), Pow(n)) == Pow(m + n)
  {
    hide Exp, Log, Mul;
    MulExp(m % 255, n % 255);
    ExpMod(m % 255 + n % 255);
    assert (m % 255 + n % 255) % 255 == (m + n) % 255;
  }

  lemma PowInjective(m: int, n: int)
    requires Pow(m) == Pow(n) && 0 <= m < 255 && 0 <= n < 255
    ensures m == n
  {
    ExpInjective(m, n);
  }

  lemma ExpOfZero()
    ensures Exp(0) == 1
  {
  }

  lemma PowNonzero(n: int)
    ensures Pow(n) != 0 && Inv(Pow(n)) == Pow(-n)
  {
    hide Exp, Log, Inv, Mul;
    ExpNonzero(n % 255);
    ExpNonzero((-n) % 255);
    MulInv(Pow(n));
    assert Pow(0) == 1 by { ExpOfZero(); }
    PowAdd(n, -n);
    MulCancels(Pow(n), Inv(Pow(n)), Pow(-n));
  }

  // ---------- multiplication is carry-less multiplication modulo 0x11D ----------

  /** The contribution of bit i of b to the shift-and-add product. */
  function PartialProduct(a: bv8, b: bv8, i: nat): (r: bv8)
    requires i < 8
  {
    if b & (1 << i) != 0 then TwiceTimes(i, a) else 0
  }

  /** The xor of a * x^i over the bits i of b, from bit n up. */
  function ShiftAndAdd(a: bv8, b: bv8, n: nat): (r: bv8)
    requires n <= 8
    decreases 8 - n
  {
    if n == 8 then 0 else Add(PartialProduct(a, b, n), ShiftAndAdd(a, b, n + 1))
  }

  /** The bits of b from bit n up. */
  function HighBits(b: bv8, n: nat): (r: bv8)
    requires n <= 8
  {
    (b >> n) << n
  }

  lemma HighBitsSplit(b: bv8, n: nat)
    requires n < 8
    ensures HighBits(b, n) == Add(b & (1 << n), HighBits(b, n + 1))
    ensures b & (1 << n) == 0 || b & (1 << n) == 1 << n
  {
    if n == 0 {} else if n == 1 {} else if n == 2 {} else if n == 3 {}
    else if n == 4 {} else if n == 5 {} else if n == 6 {} else {}
  }

  lemma SmallPowers(n: nat)
    requires n < 8
    ensures Exp(n) == 1 << n
  {
    if n > 0 {
      SmallPowers(n - 1);
    }
  }

  lemma {:induction false} ShiftAndAddFrom(a: bv8, b: bv8, n: nat)
    requires n <= 8
    ensures Mul(a, HighBits(b, n)) == ShiftAndAdd(a, b, n)
    decreases 8 - n
  {
    hide Mul, Add, Exp, HighBits;
    if n == 8 {
      assert HighBits(b, 8) == 0 by { NoHighBits(b); }
      MulNonzero(a, 0);
    } else {
      ShiftAndAddFrom(a, b, n + 1);
      HighBitsSplit(b, n);
      MulDistributes(a, b & (1 << n), HighBits(b, n + 1));
      SmallPowers(n);
      MulIsTwiceTimes(n, a);
      MulCommutes(a, Exp(n));
      MulNonzero(a, 0);
    }
  }

  lemma NoHighBits(b: bv8)
    ensures HighBits(b, 8) == 0 && HighBits(b, 0) == b
  {
  }

  /** Multiplication by logarithms is multiplication of bit polynomials modulo 0x11D. */
  lemma MulIsCarryless(a: bv8, b: bv8)
    ensures Mul(a, b) == ShiftAndAdd(a, b, 0)
  {
    hide Mul, HighBits;
    ShiftAndAddFrom(a, b, 0);
    NoHighBits(b);
  }

  // ---------- the tables ----------

  predicate ExpUpTo(exp: seq<bv8>, n: nat) {
    n <= |exp| && forall i :: 0 <= i < n ==> exp[i] == Exp(i)
  }

  predicate LogUpTo(log: seq<bv8>, n: nat) {
    |log| == 256 && forall k :: 0 <= k < n ==> log[Exp(k) as int] as int == k
  }

  predicate TablesFilled(exp: array<bv8>, log: array<bv8>)
    reads exp, log
  {
    exp.Length == 512 && ExpUpTo(exp[..], 510) && LogUpTo(log[..], 255)
  }

  lemma LogUpToStart(log: seq<bv8>)
    requires |log| == 256
    ensures LogUpTo(log, 0)
  {
  }

  lemma ExpDiffers(k: nat, n: nat)
    requires k < n < 255
    ensures Exp(k) as int != Exp(n) as int
  {
    hide Exp;
    BytesAsNumbers(Exp(k), Exp(n));
    if Exp(k) == Exp(n) {
      ExpInjective(k, n);
    }
  }

  lemma LogUpToStep(log: seq<bv8>, n: nat)
    requires n < 255 && LogUpTo(log, n)
    ensures LogUpTo(log[Exp(n) as int := n as bv8], n + 1)
  {
    hide Exp;
    forall k | 0 <= k < n ensures Exp(k) as int != Exp(n) as int {
      ExpDiffers(k, n);
    }
    assert (n as bv8) as int == n;
  }

  /** The table loop's step on its 16-bit counter. */
  function NextPower(x: bv16): (r: bv16) {
    var y := x << 1;
    if y & 0x100 != 0 then y ^ 0x11D else y
  }

  lemma WideStep(x: bv16)
    requires x < 0x100
    ensures NextPower(x) < 0x100 && NextPower(x) as bv8 == Twice(x as bv8)
  {
  }

  lemma BytesAsNumbers(a: bv8, b: bv8)
    ensures a as int == b as int ==> a == b
  {
  }

  lemma NarrowedIndex(x: bv16)
    requires x < 0x100
    ensures x as int == (x as bv8) as int
  {
  }

  /**
    Fills the tables.  The powers are then copied behind themselves so that a sum of two
    logarithms needs no reduction; the last two entries stay zero and no sum reaches them.
  */
  method BuildTables() returns (exp: array<bv8>, log: array<bv8>)
    ensures TablesFilled(exp, log) && exp[510] == 0 && exp[511] == 0
  {
    hide Exp, Twice, NextPower, LogUpTo;
    exp := new bv8[512](i => 0);
    log := new bv8[256](i => 0);
    var x: bv16 := 1;
    ExpOfZero();
    LogUpToStart(log[..]);
    for i := 0 to 255
      invariant x < 0x100 && x as bv8 == Exp(i)
      invariant ExpUpTo(exp[..], i) && LogUpTo(log[..], i)
      invariant exp[255] == 0 && exp[256] == 0 && exp[510] == 0 && exp[511] == 0
    {
      LogUpToStep(log[..], i);
      NarrowedIndex(x);
      exp[i] := x as bv8;
      log[x as int] := i as bv8;
      ExpStep(i);
      WideStep(x);
      x := NextPower(x);
    }
    var front := exp[..257];
    for j := 0 to 257
      invariant ExpUpTo(front, 255) && LogUpTo(log[..], 255)
      invariant ExpUpTo(exp[..], if j < 255 then 255 + j else 510)
      invariant front[255] == 0 && front[256] == 0 && exp[510] == 0 && exp[511] == 0
    {
      if j < 255 {
        ExpMod(255 + j);
        assert (255 + j) % 255 == j % 255 == j;
      }
      exp[255 + j] := front[j];
    }
  }

  lemma ExpStep(n: nat)
    ensures Exp(n + 1) == Twice(Exp(n))
  {
  }

  /** The source's `mul`, by lookup. */
  method LookupMul(exp: array<bv8>, log: array<bv8>, a: bv8, b: bv8) returns (r: bv8)
    requires TablesFilled(exp, log)
    ensures r == Mul(a, b)
  {
    hide Exp, Log;
    if a == 0 || b == 0 {
      return 0;
    }
    LogOfNonzero(a);
    LogOfNonzero(b);
    return exp[log[a as int] as int + log[b as int] as int];
  }
}
