/**
  Polynomials over GF(256) as `src/ecc.rs` writes them: a sequence of coefficients,
  index 0 is the highest degree.  Spec functions and the algebra that the codec's
  correctness rests on: root counting, and the fact that a power sum with distinct
  bases cannot vanish on a long enough window of exponents.
*/
module Polynomials {
  import opened Gf256

  type Poly = seq<bv8>

  function Zeros(n: nat): (z: Poly)
    ensures |z| == n && forall i :: 0 <= i < n ==> z[i] == 0
  {
    seq(n, i => 0)
  }

  predicate AllZero(p: Poly) {
    forall i :: 0 <= i < |p| ==> p[i] == 0
  }

  predicate Distinct(xs: Poly) {
    forall i, j :: 0 <= i < j < |xs| ==> xs[i] != xs[j]
  }

  predicate NoZero(xs: Poly) {
    forall i :: 0 <= i < |xs| ==> xs[i] != 0
  }

  /** Horner's rule. */
  function Eval(p: Poly, x: bv8): (r: bv8) {
    if |p| == 0 then 0 else Add(Mul(Eval(p[..|p| - 1], x), x), p[|p| - 1])
  }

  function Scaled(p: Poly, c: bv8): (r: Poly)
    ensures |r| == |p|
    ensures forall i :: 0 <= i < |p| ==> r[i] == Mul(p[i], c)
  {
    seq(|p|, i requires 0 <= i < |p| => Mul(p[i], c))
  }

  /** Sum with the constant terms aligned. */
  function Sum(p: Poly, q: Poly): (r: Poly)
    ensures |r| == if |p| >= |q| then |p| else |q|
  {
    if |p| == 0 then q
    else if |q| == 0 then p
    else Sum(p[..|p| - 1], q[..|q| - 1]) + [Add(p[|p| - 1], q[|q| - 1])]
  }

  /** The product, built one coefficient of q at a time. */
  function Product(p: Poly, q: Poly): (r: Poly)
    requires |p| > 0
    ensures |q| > 0 ==> |r| == |p| + |q| - 1
    ensures |q| == 0 ==> |r| == 0
  {
    if |q| == 0 then []
    else if |q| == 1 then Scaled(p, q[0])
    else Sum(Product(p, q[..|q| - 1]) + [0], Scaled(p, q[|q| - 1]))
  }

  function Power(x: bv8, n: nat): (r: bv8) {
    if n == 0 then 1 else Mul(Power(x, n - 1), x)
  }

  // ---------- evaluation is a ring homomorphism ----------

  lemma MulSwap(a: bv8, b: bv8, c: bv8)
    ensures Mul(Mul(a, b), c) == Mul(Mul(a, c), b)
  {
    hide Mul, Add;
    MulAssociates(a, b, c);
    MulCommutes(b, c);
    MulAssociates(a, c, b);
  }

  lemma {:induction false} EvalSum(p: Poly, q: Poly, x: bv8)
    ensures Eval(Sum(p, q), x) == Add(Eval(p, x), Eval(q, x))
  {
    hide Mul, Add;
    AddLaws(Eval(p, x), 0, 0);
    AddLaws(Eval(q, x), 0, 0);
    if |p| > 0 && |q| > 0 {
      var p', q' := p[..|p| - 1], q[..|q| - 1];
      EvalSum(p', q', x);
      assert Sum(p, q)[..|Sum(p, q)| - 1] == Sum(p', q');
      MulDistributes(x, Eval(p', x), Eval(q', x));
      AddExchange(Mul(Eval(p', x), x), Mul(Eval(q', x), x), p[|p| - 1], q[|q| - 1]);
    }
  }

  lemma {:induction false} EvalScaled(p: Poly, c: bv8, x: bv8)
    ensures Eval(Scaled(p, c), x) == Mul(Eval(p, x), c)
  {
    hide Mul, Add;
    if |p| == 0 {
      MulNonzero(0, c);
    } else {
      var p' := p[..|p| - 1];
      EvalScaled(p', c, x);
      assert Scaled(p, c)[..|p| - 1] == Scaled(p', c);
      MulSwap(Eval(p', x), c, x);
      MulDistributes(c, Mul(Eval(p', x), x), p[|p| - 1]);
    }
  }

  lemma EvalAppend(p: Poly, c: bv8, x: bv8)
    ensures Eval(p + [c], x) == Add(Mul(Eval(p, x), x), c)
  {
    assert (p + [c])[..|p|] == p;
  }

  lemma EvalOne(c: bv8, x: bv8)
    ensures Eval([c], x) == c && Eval([], x) == 0 && Mul(c, Power(x, 0)) == c
  {
    hide Mul;
    EvalAppend([], c, x);
    assert [] + [c] == [c];
    ZeroTimes(x);
    MulOne(c);
  }

  lemma ZeroTimes(x: bv8)
    ensures Mul(0, x) == 0 && forall c: bv8 :: Add(0, c) == c && Add(c, 0) == c
  {
  }

  /** The place value of a coefficient: the first of n + 1 stands for its product with x to the n. */
  lemma {:induction false} EvalLeading(c: bv8, p: Poly, x: bv8)
    ensures Eval([c] + p, x) == Add(Mul(c, Power(x, |p|)), Eval(p, x))
  {
    hide Mul, Add, Eval;
    if p == [] {
      assert [c] + p == [c];
      EvalOne(c, x);
      ZeroTimes(x);
    } else {
      var front, last := p[..|p| - 1], p[|p| - 1];
      EvalLeading(c, front, x);
      assert [c] + p == ([c] + front) + [last] && front + [last] == p;
      EvalAppend([c] + front, last, x);
      EvalAppend(front, last, x);
      MulDistributes(x, Mul(c, Power(x, |front|)), Eval(front, x));
      MulAssociates(c, Power(x, |front|), x);
      AddThree(Mul(Mul(c, Power(x, |front|)), x), Mul(Eval(front, x), x), last);
    }
  }

  lemma AddThree(a: bv8, b: bv8, c: bv8)
    ensures Add(Add(a, b), c) == Add(a, Add(b, c))
  {
  }

  lemma {:induction false} EvalProduct(p: Poly, q: Poly, x: bv8)
    requires |p| > 0
    ensures Eval(Product(p, q), x) == Mul(Eval(p, x), Eval(q, x))
  {
    hide Mul, Add;
    if |q| == 0 {
      MulNonzero(Eval(p, x), 0);
    } else {
      var q', c := q[..|q| - 1], q[|q| - 1];
      assert q == q' + [c];
      EvalScaled(p, c, x);
      if |q| == 1 {
        MulNonzero(0, x);
        AddLaws(c, 0, 0);
        assert Eval(q', x) == 0;
        assert Eval(q, x) == c;
      } else {
        EvalProduct(p, q', x);
        var r := Product(p, q');
        EvalSum(r + [0], Scaled(p, c), x);
        EvalAppend(r, 0, x);
        AddLaws(Mul(Eval(r, x), x), 0, 0);
        MulAssociates(Eval(p, x), Eval(q', x), x);
        MulDistributes(Eval(p, x), Mul(Eval(q', x), x), c);
      }
    }
  }

  lemma {:induction false} EvalZeros(p: Poly, x: bv8)
    requires AllZero(p)
    ensures Eval(p, x) == 0
  {
    if |p| > 0 {
      EvalZeros(p[..|p| - 1], x);
    }
  }

  // ---------- powers ----------

  lemma {:induction false} PowerAdd(x: bv8, m: nat, n: nat)
    ensures Power(x, m + n) == Mul(Power(x, m), Power(x, n))
  {
    hide Mul, Add;
    if n == 0 {
      MulOne(Power(x, m));
    } else {
      PowerAdd(x, m, n - 1);
      MulAssociates(Power(x, m), Power(x, n - 1), x);
    }
  }

  lemma {:induction false} PowerNonzero(x: bv8, n: nat)
    requires x != 0
    ensures Power(x, n) != 0
  {
    hide Mul, Add;
    if n > 0 {
      PowerNonzero(x, n - 1);
      MulNonzero(Power(x, n - 1), x);
    }
  }

  lemma PowZero()
    ensures Pow(0) == 1
  {
  }

  lemma {:induction false} PowerOfPow(d: int, n: nat)
    ensures Power(Pow(d), n) == Pow(d * n)
  {
    hide Mul, Add, Exp, Pow;
    if n == 0 {
      assert d * n == 0;
      PowZero();
    } else {
      PowerOfPow(d, n - 1);
      PowAdd(d * (n - 1), d);
      assert d * (n - 1) + d == d * n;
    }
  }

  // ---------- dividing out a root ----------

  /** Synthetic division by (x - r): the prefixes of p evaluated at r, remainder dropped. */
  function Quotient(p: Poly, r: bv8): (q: Poly)
    requires |p| > 0
    ensures |q| == |p| - 1
  {
    seq(|p| - 1, i requires 0 <= i < |p| - 1 => Eval(p[..i + 1], r))
  }

  lemma QuotientAppend(p: Poly, c: bv8, r: bv8)
    requires |p| > 0
    ensures Quotient(p + [c], r) == Quotient(p, r) + [Eval(p, r)]
  {
    var pc := p + [c];
    assert pc[..|p|] == p;
    forall i | 0 <= i < |p| - 1 ensures Quotient(pc, r)[i] == Quotient(p, r)[i] {
      assert pc[..i + 1] == p[..i + 1];
    }
  }

  lemma QuotientStep(q: bv8, v: bv8, c: bv8, x: bv8, r: bv8)
    ensures Add(Mul(Add(Mul(q, Add(x, r)), v), x), c)
         == Add(Mul(Add(Mul(q, x), v), Add(x, r)), Add(Mul(v, r), c))
  {
    hide Mul, Add;
    var d := Mul(Mul(q, x), Add(x, r));
    var vx, vr := Mul(v, x), Mul(v, r);
    MulDistributes(x, Mul(q, Add(x, r)), v);
    MulSwap(q, Add(x, r), x);
    MulDistributes(Add(x, r), Mul(q, x), v);
    MulDistributes(v, x, r);
    AddLaws(d, Add(vx, vr), Add(vr, c));
    AddLaws(vx, vr, Add(vr, c));
    AddLaws(vr, c, c);
    AddLaws(d, vx, c);
  }

  lemma {:induction false} EvalQuotient(p: Poly, r: bv8, x: bv8)
    requires |p| > 0
    ensures Eval(p, x) == Add(Mul(Eval(Quotient(p, r), x), Add(x, r)), Eval(p, r))
  {
    hide Mul, Add;
    var p', c := p[..|p| - 1], p[|p| - 1];
    assert p == p' + [c];
    if |p'| == 0 {
      MulNonzero(0, x);
      MulNonzero(0, r);
      MulNonzero(0, Add(x, r));
      AddLaws(0, c, c);
      AddLaws(c, 0, 0);
    } else {
      EvalQuotient(p', r, x);
      QuotientAppend(p', c, r);
      EvalAppend(Quotient(p', r), Eval(p', r), x);
      QuotientStep(Eval(Quotient(p', r), x), Eval(p', r), c, x, r);
    }
  }

  ghost predicate PrefixesVanish(p: Poly, r: bv8) {
    forall i {:trigger p[..i]} :: 0 <= i <= |p| ==> Eval(p[..i], r) == 0
  }

  lemma PrefixesVanishAllZero(p: Poly, r: bv8)
    requires PrefixesVanish(p, r)
    ensures AllZero(p)
  {
    hide Mul, Add;
    forall i | 0 <= i < |p| ensures p[i] == 0 {
      var q := p[..i + 1];
      assert q[..|q| - 1] == p[..i];
      assert Eval(q, r) == Add(Mul(Eval(p[..i], r), r), p[i]);
      MulNonzero(0, r);
      AddLaws(p[i], 0, 0);
    }
  }

  /** A polynomial with at least as many distinct roots as coefficients is zero. */
  lemma {:induction false} TooManyRoots(p: Poly, roots: Poly)
    requires Distinct(roots) && |roots| >= |p|
    requires forall k :: 0 <= k < |roots| ==> Eval(p, roots[k]) == 0
    ensures AllZero(p)
    decreases |p|
  {
    hide Mul, Add;
    if |p| > 0 {
      var m := |roots| - 1;
      var r := roots[m];
      var q := Quotient(p, r);
      forall k | 0 <= k < m ensures Eval(q, roots[k]) == 0 {
        EvalQuotient(p, r, roots[k]);
        AddLaws(Mul(Eval(q, roots[k]), Add(roots[k], r)), 0, 0);
        AddLaws(roots[k], r, 0);
        MulNonzero(Eval(q, roots[k]), Add(roots[k], r));
      }
      TooManyRoots(q, roots[..m]);
      assert PrefixesVanish(p, r) by {
        forall i | 0 <= i <= |p| ensures Eval(p[..i], r) == 0 {
          if i == |p| {
            assert p[..i] == p;
          } else if i > 0 {
            assert q[i - 1] == Eval(p[..i], r);
          }
        }
      }
      PrefixesVanishAllZero(p, r);
    }
  }

  // ---------- power sums ----------

  /** The sum over k of ys[k] * xs[k]^n. */
  function PowerSum(ys: Poly, xs: Poly, n: nat): (r: bv8)
    requires |ys| == |xs|
  {
    if |ys| == 0 then 0
    else
      var m := |ys| - 1;
      Add(PowerSum(ys[..m], xs[..m], n), Mul(ys[m], Power(xs[m], n)))
  }

  /** ys[k] * (xs[k] - r) */
  function TimesDifference(ys: Poly, xs: Poly, r: bv8): (cs: Poly)
    requires |ys| == |xs|
    ensures |cs| == |ys|
  {
    seq(|ys|, k requires 0 <= k < |ys| => Mul(ys[k], Add(xs[k], r)))
  }

  lemma DifferenceStep(y: bv8, x: bv8, r: bv8, p: bv8)
    ensures Mul(Mul(y, Add(x, r)), p) == Add(Mul(y, Mul(p, x)), Mul(r, Mul(y, p)))
  {
    hide Mul, Add;
    MulDistributes(y, x, r);
    MulDistributes(p, Mul(y, x), Mul(y, r));
    MulAssociates(y, x, p);
    MulCommutes(x, p);
    MulCommutes(y, r);
    MulAssociates(r, y, p);
  }

  lemma {:induction false} PowerSumDifference(ys: Poly, xs: Poly, r: bv8, n: nat)
    requires |ys| == |xs|
    ensures PowerSum(TimesDifference(ys, xs, r), xs, n)
         == Add(PowerSum(ys, xs, n + 1), Mul(r, PowerSum(ys, xs, n)))
    decreases |ys|
  {
    hide Mul, Add;
    if |ys| == 0 {
      MulNonzero(r, 0);
      AddLaws(0, 0, 0);
    } else {
      var m := |ys| - 1;
      PowerSumDifference(ys[..m], xs[..m], r, n);
      assert TimesDifference(ys, xs, r)[..m] == TimesDifference(ys[..m], xs[..m], r);
      var y, x, p := ys[m], xs[m], Power(xs[m], n);
      DifferenceStep(y, x, r, p);
      MulDistributes(r, PowerSum(ys[..m], xs[..m], n), Mul(y, p));
      AddExchange(PowerSum(ys[..m], xs[..m], n + 1), Mul(r, PowerSum(ys[..m], xs[..m], n)),
                  Mul(y, Mul(p, x)), Mul(r, Mul(y, p)));
    }
  }

  lemma {:induction false} PowerSumOfZeros(ys: Poly, xs: Poly, n: nat)
    requires |ys| == |xs| && AllZero(ys)
    ensures PowerSum(ys, xs, n) == 0
    decreases |ys|
  {
    hide Mul, Add;
    if |ys| > 0 {
      PowerSumOfZeros(ys[..|ys| - 1], xs[..|ys| - 1], n);
      MulNonzero(0, Power(xs[|ys| - 1], n));
      AddLaws(0, 0, 0);
    }
  }

  /** If |xs| consecutive power sums over distinct nonzero bases vanish, every weight is zero. */
  lemma {:induction false} PowerSumsVanish(ys: Poly, xs: Poly, a: nat)
    requires |ys| == |xs| && Distinct(xs) && NoZero(xs)
    requires forall n :: a <= n < a + |xs| ==> PowerSum(ys, xs, n) == 0
    ensures AllZero(ys)
    decreases |xs|
  {
    hide Mul, Add;
    if |xs| > 0 {
      var m := |xs| - 1;
      var r := xs[m];
      var cs := TimesDifference(ys, xs, r);
      AddLaws(r, 0, 0);
      MulNonzero(ys[m], 0);
      forall n | a <= n < a + m ensures PowerSum(cs[..m], xs[..m], n) == 0 {
        PowerSumDifference(ys, xs, r, n);
        MulNonzero(r, 0);
        AddLaws(0, 0, 0);
        MulNonzero(0, Power(r, n));
        AddLaws(PowerSum(cs[..m], xs[..m], n), 0, 0);
      }
      PowerSumsVanish(cs[..m], xs[..m], a);
      forall k | 0 <= k < m ensures ys[k] == 0 {
        assert cs[..m][k] == Mul(ys[k], Add(xs[k], r));
        AddLaws(xs[k], r, 0);
        MulNonzero(ys[k], Add(xs[k], r));
      }
      PowerSumOfZeros(ys[..m], xs[..m], a);
      assert PowerSum(ys, xs, a) == 0;
      AddLaws(Mul(ys[m], Power(r, a)), 0, 0);
      PowerNonzero(r, a);
      MulNonzero(ys[m], Power(r, a));
    }
  }
}
