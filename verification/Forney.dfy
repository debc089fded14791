/** Forney's error values, `correct_errata` in `src/ecc.rs`. */
module Forney {
  import opened Gf256
  import opened Polynomials
  import opened PolynomialLoops
  import opened Syndromes
  import opened Codewords

  // ---------- the locator polynomial built from the positions ----------

  /** The product of (x_j z + 1). */
  function FromLocators(xs: Poly): (e: Poly)
    ensures |e| == |xs| + 1
  {
    if |xs| == 0 then [1]
    else Product(FromLocators(xs[..|xs| - 1]), [xs[|xs| - 1], 1])
  }

  /** The product of (x + x_j) over j below n, j != skip. */
  function ProductOver(xs: Poly, skip: int, n: nat, x: bv8): (r: bv8)
    requires n <= |xs|
  {
    if n == 0 then 1
    else if n - 1 == skip then ProductOver(xs, skip, n - 1, x)
    else Mul(ProductOver(xs, skip, n - 1, x), Add(x, xs[n - 1]))
  }

  /** The product of (1 + z x_j) over j below n, j != skip: the source's denominator loop. */
  function Denominator(xs: Poly, skip: int, n: nat, z: bv8): (r: bv8)
    requires n <= |xs|
  {
    if n == 0 then 1
    else if n - 1 == skip then Denominator(xs, skip, n - 1, z)
    else Mul(Denominator(xs, skip, n - 1, z), Add(1, Mul(z, xs[n - 1])))
  }

  function FactorsOver(skip: int, n: nat): (r: nat) {
    if 0 <= skip < n then n - 1 else n
  }

  /** x (x_j / x + 1) == x + x_j */
  lemma FactorAtInverse(x: bv8, xj: bv8)
    requires x != 0
    ensures Mul(x, Add(1, Mul(Inv(x), xj))) == Add(x, xj)
    ensures Mul(x, Add(Mul(xj, Inv(x)), 1)) == Add(x, xj)
  {
    hide Mul, Add, Inv;
    MulDistributes(x, 1, Mul(Inv(x), xj));
    MulOne(x);
    MulInv(x);
    MulAssociates(x, Inv(x), xj);
    MulOne(xj);
    MulCommutes(xj, Inv(x));
    AddLaws(Mul(Inv(x), xj), 1, 0);
  }

  lemma {:induction false} DenominatorScaled(xs: Poly, skip: int, n: nat, x: bv8)
    requires n <= |xs| && x != 0
    ensures Mul(Power(x, FactorsOver(skip, n)), Denominator(xs, skip, n, Inv(x))) == ProductOver(xs, skip, n, x)
  {
    hide Mul, Add, Inv;
    if n == 0 {
      MulOne(1);
    } else {
      DenominatorScaled(xs, skip, n - 1, x);
      if n - 1 != skip {
        var p, d, f := Power(x, FactorsOver(skip, n - 1)), Denominator(xs, skip, n - 1, Inv(x)), Add(1, Mul(Inv(x), xs[n - 1]));
        FactorAtInverse(x, xs[n - 1]);
        // (p x) (d f) == (p d) (x f)
        MulAssociates(p, x, Mul(d, f));
        MulAssociates(x, d, f);
        MulCommutes(x, d);
        MulAssociates(d, x, f);
        MulAssociates(p, d, Mul(x, f));
      }
    }
  }

  lemma {:induction false} ProductOverNonzero(xs: Poly, skip: int, n: nat, x: bv8)
    requires n <= |xs|
    requires forall j :: 0 <= j < n && j != skip ==> xs[j] != x
    ensures ProductOver(xs, skip, n, x) != 0
  {
    hide Mul, Add;
    if n > 0 {
      ProductOverNonzero(xs, skip, n - 1, x);
      if n - 1 != skip {
        AddLaws(x, xs[n - 1], 0);
        MulNonzero(ProductOver(xs, skip, n - 1, x), Add(x, xs[n - 1]));
      }
    }
  }

  lemma {:induction false} ProductOverSkip(xs: Poly, i: nat, n: nat, x: bv8)
    requires i < n <= |xs|
    ensures ProductOver(xs, -1, n, x) == Mul(ProductOver(xs, i, n, x), Add(x, xs[i]))
  {
    hide Mul, Add;
    if n - 1 == i {
      ProductOverSame(xs, i, n - 1, x);
    } else {
      ProductOverSkip(xs, i, n - 1, x);
      MulSwap(ProductOver(xs, i, n - 1, x), Add(x, xs[i]), Add(x, xs[n - 1]));
    }
  }

  lemma {:induction false} ProductOverSame(xs: Poly, i: nat, n: nat, x: bv8)
    requires n <= i && n <= |xs|
    ensures ProductOver(xs, -1, n, x) == ProductOver(xs, i, n, x)
  {
    if n > 0 {
      ProductOverSame(xs, i, n - 1, x);
    }
  }

  lemma {:induction false} ProductOverPrefix(xs: Poly, skip: int, n: nat, x: bv8)
    requires n <= |xs|
    ensures ProductOver(xs, skip, n, x) == ProductOver(xs[..n], skip, n, x)
  {
    hide Mul, Add;
    ProductOverAgrees(xs, xs[..n], skip, n, x);
  }

  lemma {:induction false} ProductOverAgrees(xs: Poly, ys: Poly, skip: int, n: nat, x: bv8)
    requires n <= |xs| && n <= |ys| && xs[..n] == ys[..n]
    ensures ProductOver(xs, skip, n, x) == ProductOver(ys, skip, n, x)
  {
    hide Mul, Add;
    if n > 0 {
      assert xs[n - 1] == xs[..n][n - 1] == ys[n - 1];
      assert xs[..n - 1] == xs[..n][..n - 1] == ys[..n - 1];
      ProductOverAgrees(xs, ys, skip, n - 1, x);
    }
  }

  lemma EvalPair(a: bv8, b: bv8, z: bv8)
    ensures Eval([a, b], z) == Add(Mul(a, z), b)
  {
    hide Mul, Add;
    EvalAppend([a], b, z);
    assert [a] + [b] == [a, b];
    EvalAppend([], a, z);
    assert [] + [a] == [a];
    MulNonzero(0, z);
    AddLaws(a, 0, 0);
  }

  /** The reversed locator polynomial has the locators as its roots. */
  lemma {:induction false} RecipOfLocators(xs: Poly, x: bv8)
    requires x != 0
    ensures Recip(FromLocators(xs), x) == ProductOver(xs, -1, |xs|, x)
  {
    hide Mul, Add, Inv, Product, Eval, Recip;
    var e := FromLocators(xs);
    RecipIsEvalAtInverse(e, x);
    if |xs| == 0 {
      assert Power(x, 0) == 1;
      EvalAppend([], 1, Inv(x));
      assert [] + [1 as bv8] == [1];
      assert Eval([], Inv(x)) == 0 by { EvalZeros([], Inv(x)); }
      MulNonzero(0, Inv(x));
      AddLaws(1, 0, 0);
      MulOne(1);
    } else {
      var l := |xs| - 1;
      var e', r := FromLocators(xs[..l]), xs[l];
      RecipOfLocators(xs[..l], x);
      RecipIsEvalAtInverse(e', x);
      EvalProduct(e', [r, 1], Inv(x));
      EvalPair(r, 1, Inv(x));
      FactorAtInverse(x, r);
      ProductOverPrefix(xs, -1, l, x);
      var p, d, f := Power(x, l), Eval(e', Inv(x)), Add(Mul(r, Inv(x)), 1);
      MulAssociates(p, x, Mul(d, f));
      MulAssociates(x, d, f);
      MulCommutes(x, d);
      MulAssociates(d, x, f);
      MulAssociates(p, d, Mul(x, f));
    }
  }

  // ---------- reversal ----------

  function Reversed(p: Poly): (r: Poly)
    ensures |r| == |p|
    ensures forall i :: 0 <= i < |p| ==> r[i] == p[|p| - 1 - i]
  {
    seq(|p|, i requires 0 <= i < |p| => p[|p| - 1 - i])
  }

  lemma EvalPrepend(c: bv8, p: Poly, x: bv8)
    ensures Eval([c] + p, x) == Add(Mul(c, Power(x, |p|)), Eval(p, x))
    decreases |p|
  {
    hide Mul, Add;
    if |p| == 0 {
      assert [c] + p == [] + [c];
      EvalAppend([], c, x);
      MulNonzero(0, x);
      MulOne(c);
      AddLaws(c, 0, 0);
    } else {
      var l := |p| - 1;
      EvalPrepend(c, p[..l], x);
      assert ([c] + p)[..l + 1] == [c] + p[..l];
      MulDistributes(x, Mul(c, Power(x, l)), Eval(p[..l], x));
      MulAssociates(c, Power(x, l), x);
      AddLaws(Mul(c, Power(x, l + 1)), Mul(Eval(p[..l], x), x), p[l]);
    }
  }

  lemma {:induction false} EvalReversed(p: Poly, x: bv8)
    ensures Eval(Reversed(p), x) == Recip(p, x)
    decreases |p|
  {
    hide Mul, Add;
    if |p| > 0 {
      var l := |p| - 1;
      EvalReversed(p[..l], x);
      assert Reversed(p) == [p[l]] + Reversed(p[..l]);
      EvalPrepend(p[l], Reversed(p[..l]), x);
    }
  }

  // ---------- the quotient by (x - x_i), at x_i ----------

  /** The polynomial with value ProductOver(xs, skip, n, x). */
  function FromRoots(xs: Poly, skip: int, n: nat): (g: Poly)
    requires n <= |xs|
    ensures |g| == FactorsOver(skip, n) + 1
  {
    if n == 0 then [1]
    else if n - 1 == skip then FromRoots(xs, skip, n - 1)
    else Product(FromRoots(xs, skip, n - 1), [1, xs[n - 1]])
  }

  lemma {:induction false} EvalFromRoots(xs: Poly, skip: int, n: nat, x: bv8)
    requires n <= |xs|
    ensures Eval(FromRoots(xs, skip, n), x) == ProductOver(xs, skip, n, x)
  {
    hide Mul, Add, Product, Eval;
    if n == 0 {
      EvalAppend([], 1, x);
      assert [] + [1 as bv8] == [1];
      assert Eval([], x) == 0 by { EvalZeros([], x); }
      MulNonzero(0, x);
      AddLaws(1, 0, 0);
    } else {
      EvalFromRoots(xs, skip, n - 1, x);
      if n - 1 != skip {
        EvalProduct(FromRoots(xs, skip, n - 1), [1, xs[n - 1]], x);
        EvalPair(1, xs[n - 1], x);
        MulOne(x);
      }
    }
  }

  /** The power k + 1 places after the a-th, round the 255 there are. */
  function PowerAfter(a: nat, k: nat): (r: bv8) {
    Pow((a + 1 + k) % 255)
  }

  lemma PowersAfterDiffer(a: nat, j: nat, k: nat)
    requires j < k < 254
    ensures PowerAfter(a, j) != PowerAfter(a, k)
  {
    hide Pow;
    if PowerAfter(a, j) == PowerAfter(a, k) {
      PowInjective((a + 1 + j) % 255, (a + 1 + k) % 255);
    }
  }

  lemma PowerAfterIsOther(a: nat, k: nat)
    requires a < 255 && k < 254
    ensures PowerAfter(a, k) != 0 && PowerAfter(a, k) != Pow(a)
  {
    hide Pow;
    PowNonzero((a + 1 + k) % 255);
    if PowerAfter(a, k) == Pow(a) {
      PowInjective((a + 1 + k) % 255, a);
    }
  }

  /** Up to 254 distinct nonzero points avoiding r. */
  lemma PointsAvoiding(r: bv8, n: nat) returns (points: Poly)
    requires r != 0 && n <= 254
    ensures |points| == n && Distinct(points) && NoZero(points)
    ensures forall k :: 0 <= k < n ==> points[k] != r
  {
    hide Exp, LogFrom, PowerAfter;
    LogOfNonzero(r);
    var a := Log(r);
    points := seq(n, k requires 0 <= k < n => PowerAfter(a, k));
    forall k | 0 <= k < n
      ensures points[k] != r && points[k] != 0
    {
      PowerAfterIsOther(a, k);
    }
    forall j, k | 0 <= j < k < n
      ensures points[j] != points[k]
    {
      PowersAfterDiffer(a, j, k);
    }
  }

  /** Dividing by (x - x_i) and evaluating at x_k: zero for k != i, the other factors for k == i. */
  lemma QuotientAtLocator(f: Poly, xs: Poly, i: nat, k: nat)
    requires i < |xs| && k < |xs| && |f| == |xs| + 1 <= 255
    requires Distinct(xs) && NoZero(xs)
    requires forall x: bv8 :: x != 0 ==> Eval(f, x) == ProductOver(xs, -1, |xs|, x)
    ensures Eval(Quotient(f, xs[i]), xs[k]) == if i == k then ProductOver(xs, i, |xs|, xs[i]) else 0
  {
    hide Mul, Add, Eval, Quotient;
    var r, n := xs[i], |xs|;
    RootOfAll(f, xs, i);
    if i != k {
      RootOfAll(f, xs, k);
      EvalQuotient(f, r, xs[k]);
      var q := Eval(Quotient(f, r), xs[k]);
      AddLaws(Mul(q, Add(xs[k], r)), 0, 0);
      AddLaws(xs[k], r, 0);
      MulNonzero(q, Add(xs[k], r));
      assert xs[k] != r;
    } else {
      var q, g := Quotient(f, r), FromRoots(xs, i, n);
      var points := PointsAvoiding(r, n);
      var d := Sum(q, g);
      forall m | 0 <= m < n ensures Eval(d, points[m]) == 0 {
        var x := points[m];
        EvalSum(q, g, x);
        EvalQuotient(f, r, x);
        EvalFromRoots(xs, i, n, x);
        ProductOverSkip(xs, i, n, x);
        AddLaws(Mul(Eval(q, x), Add(x, r)), 0, 0);
        AddLaws(x, r, 0);
        MulCommutes(Eval(q, x), Add(x, r));
        MulCommutes(Eval(g, x), Add(x, r));
        MulCancels(Add(x, r), Eval(q, x), Eval(g, x));
        AddLaws(Eval(q, x), Eval(g, x), 0);
      }
      TooManyRoots(d, points);
      EvalZeros(d, r);
      EvalSum(q, g, r);
      AddLaws(Eval(q, r), Eval(g, r), 0);
      EvalFromRoots(xs, i, n, r);
    }
  }

  lemma RootOfAll(f: Poly, xs: Poly, i: nat)
    requires i < |xs| && NoZero(xs)
    requires forall x: bv8 :: x != 0 ==> Eval(f, x) == ProductOver(xs, -1, |xs|, x)
    ensures Eval(f, xs[i]) == 0
  {
    hide Mul, Add, Eval;
    ProductOverSkip(xs, i, |xs|, xs[i]);
    AddLaws(xs[i], xs[i], 0);
    MulNonzero(ProductOver(xs, i, |xs|, xs[i]), 0);
  }

  // ---------- the error evaluator ----------

  lemma {:induction false} ProductLowCoefficient(s: Poly, q: Poly, t: nat)
    requires |q| > 0 && t < |s|
    ensures At(Product(Reversed(s), q), |s| + |q| - 2 - t) == Conv(q, s, t)
    decreases |q|
  {
    hide Mul, Add, Sum, Scaled, Conv, Product;
    var p, c, q' := Reversed(s), q[|q| - 1], q[..|q| - 1];
    assert q == q' + [c];
    ConvLast(q, s, t);
    MulCommutes(s[t], c);
    if |q| == 1 {
      ProductOfOne(p, q);
      ConvNothing(q', s, t - 1);
      AddLaws(Mul(c, s[t]), 0, 0);
    } else {
      ProductUnfold(p, q', c);
      var a, b := Product(p, q') + [0], Scaled(p, c);
      SumAt(a, b, |a| - 1 - t);
      if t == 0 {
        ConvNothing(q', s, -1);
      } else {
        ProductLowCoefficient(s, q', t - 1);
      }
      AddLaws(Conv(q', s, t - 1), Mul(c, s[t]), 0);
    }
  }

  lemma ConvLast(q: Poly, s: Poly, t: nat)
    requires |q| > 0 && t < |s|
    ensures Conv(q, s, t) == Add(Mul(q[|q| - 1], s[t]), Conv(q[..|q| - 1], s, t - 1))
  {
  }

  lemma ConvNothing(q: Poly, s: Poly, t: int)
    requires t < |s| && (|q| == 0 || t < 0)
    ensures Conv(q, s, t) == 0
  {
  }

  lemma ProductOfOne(p: Poly, q: Poly)
    requires |p| > 0 && |q| == 1
    ensures Product(p, q) == Scaled(p, q[0])
  {
  }

  /** The part of e that meets the first n syndromes. */
  lemma {:induction false} ConvSuffix(e: Poly, synd: Poly, n: nat)
    requires n < |synd| && n < |e| && synd[0] == 0
    ensures Conv(e, synd, n) == Conv(e[|e| - n..], synd, n)
    decreases n
  {
    hide Mul, Add;
    var l := |e| - 1;
    if n == 0 {
      MulNonzero(e[l], 0);
      AddLaws(0, 0, 0);
    } else {
      ConvSuffix(e[..l], synd, n - 1);
      assert e[|e| - n..][..n - 1] == e[..l][l - (n - 1)..];
    }
  }

  /** The combination of quotients that the error evaluator is. */
  function Evaluator(ys: Poly, xs: Poly, f: Poly): (w: Poly)
    requires |ys| == |xs| && |f| > 0
    ensures |w| == |f| - 1
  {
    if |ys| == 0 then Zeros(|f| - 1)
    else
      var m := |ys| - 1;
      Sum(Evaluator(ys[..m], xs[..m], f), Scaled(Quotient(f, xs[m]), ys[m]))
  }

  lemma {:induction false} EvaluatorCoefficient(ys: Poly, xs: Poly, e: Poly, n: nat)
    requires |ys| == |xs| && 0 < n < |e|
    ensures Evaluator(ys, xs, Reversed(e))[n - 1] == PowerSum(Weights(e[|e| - n..], ys, xs), xs, 0)
    decreases |ys|
  {
    hide Mul, Add, Eval, Sum, Scaled, Recip, Reversed;
    var f, p := Reversed(e), e[|e| - n..];
    if |ys| > 0 {
      var m := |ys| - 1;
      EvaluatorCoefficient(ys[..m], xs[..m], e, n);
      assert Weights(p, ys, xs)[..m] == Weights(p, ys[..m], xs[..m]);
      SumAt(Evaluator(ys[..m], xs[..m], f), Scaled(Quotient(f, xs[m]), ys[m]), n - 1);
      assert f[..n] == Reversed(p);
      EvalReversed(p, xs[m]);
      MulCommutes(ys[m], Recip(p, xs[m]));
      MulOne(Mul(ys[m], Recip(p, xs[m])));
      assert Power(xs[m], 0) == 1;
    }
  }

  /** The evaluator at x_i keeps only the i-th term. */
  lemma {:induction false} EvaluatorAtLocator(ys: Poly, xs: Poly, all: Poly, f: Poly, i: nat)
    requires |ys| == |xs| <= |all| && xs == all[..|xs|] && i < |all| && |f| == |all| + 1 <= 255
    requires Distinct(all) && NoZero(all)
    requires forall x: bv8 :: x != 0 ==> Eval(f, x) == ProductOver(all, -1, |all|, x)
    ensures Eval(Evaluator(ys, xs, f), all[i])
         == if i < |xs| then Mul(ProductOver(all, i, |all|, all[i]), ys[i]) else 0
    decreases |ys|
  {
    hide Mul, Add, Eval, Sum, Scaled, Quotient;
    if |ys| == 0 {
      EvalZeros(Zeros(|f| - 1), all[i]);
    } else {
      var m := |ys| - 1;
      assert xs[m] == all[m];
      assert xs[..m] == all[..m];
      EvaluatorAtLocator(ys[..m], xs[..m], all, f, i);
      EvalSum(Evaluator(ys[..m], xs[..m], f), Scaled(Quotient(f, xs[m]), ys[m]), all[i]);
      EvalScaled(Quotient(f, xs[m]), ys[m], all[i]);
      QuotientAtLocator(f, all, m, i);
      MulNonzero(0, ys[m]);
      AddLaws(Mul(ProductOver(all, i, |all|, all[i]), ys[m]), 0, 0);
      if i < m {
        AddLaws(Mul(ProductOver(all, i, |all|, all[i]), ys[i]), 0, 0);
      }
      AddLaws(0, 0, 0);
    }
  }

  /** The low coefficients of the product of reversed syndromes and locator polynomial. */
  ghost predicate IsEvaluator(w: Poly, e: Poly, synd: Poly)
    requires |e| <= |synd|
  {
    |w| == |e| && forall t :: 0 <= t < |e| ==> w[|e| - 1 - t] == Conv(e, synd, t)
  }

  /** What the evaluator is worth at the inverse of a locator. */
  lemma EvaluatorAtInverse(w: Poly, synd: Poly, ys: Poly, xs: Poly, i: nat)
    requires |synd| > |xs| && i < |xs| <= 254 && synd[0] == 0
    requires Explains(ys, xs, synd)
    requires IsEvaluator(w, FromLocators(xs), synd)
    ensures xs[i] != 0
    ensures Mul(Power(xs[i], |xs|), Eval(w, Inv(xs[i]))) == Mul(ProductOver(xs, i, |xs|, xs[i]), ys[i])
  {
    hide Mul, Add, Eval, Recip, Conv, PowerSum, FromLocators, Inv, Evaluator, Reversed, Weights;
    var e, x, v := FromLocators(xs), xs[i], |xs|;
    var f := Reversed(e);
    var omega := Evaluator(ys, xs, f);
    forall z: bv8 | z != 0 ensures Eval(f, z) == ProductOver(xs, -1, |xs|, z) {
      EvalReversed(e, z);
      RecipOfLocators(xs, z);
    }
    forall n | 0 < n <= v ensures Conv(e, synd, n) == omega[n - 1] {
      ConvSuffix(e, synd, n);
      ConvIsPowerSum(e[|e| - n..], synd, n, ys, xs);
      EvaluatorCoefficient(ys, xs, e, n);
    }
    ConvSuffix(e, synd, 0);
    ConvNothing(e[|e|..], synd, 0);
    var back := Reversed(w);
    assert back == [0] + omega by {
      forall t | 0 <= t < |back| ensures back[t] == ([0] + omega)[t] {
        assert w[|e| - 1 - t] == Conv(e, synd, t);
      }
    }
    EvalReversed(w, x);
    RecipIsEvalAtInverse(w, x);
    EvalPrepend(0, omega, x);
    MulNonzero(0, Power(x, |omega|));
    AddLaws(Eval(omega, x), 0, 0);
    assert xs == xs[..|xs|];
    EvaluatorAtLocator(ys, xs, xs, f, i);
  }

  /** Forney's formula: the quotient computed by the source is the error value. */
  lemma ForneyValue(w: Poly, synd: Poly, ys: Poly, xs: Poly, i: nat)
    requires |synd| > |xs| && i < |xs| <= 254 && synd[0] == 0
    requires Explains(ys, xs, synd)
    requires IsEvaluator(w, FromLocators(xs), synd)
    ensures xs[i] != 0
    ensures Denominator(xs, i, |xs|, Inv(xs[i])) != 0
    ensures Div(Mul(xs[i], Eval(w, Inv(xs[i]))), Denominator(xs, i, |xs|, Inv(xs[i]))) == ys[i]
  {
    hide Mul, Add, Eval, Inv, PowerSum, FromLocators, Div, IsEvaluator, Denominator, ProductOver;
    EvaluatorAtInverse(w, synd, ys, xs, i);
    var x, v := xs[i], |xs|;
    var y0, d := Eval(w, Inv(x)), Denominator(xs, i, v, Inv(x));
    var p := Power(x, v - 1);
    DenominatorScaled(xs, i, v, x);
    DenominatorNonzero(xs, i);
    PowerNonzero(x, v - 1);
    // p (x y0) == x^v y0 == (p d) y_i == p (d y_i)
    MulAssociates(p, x, y0);
    MulAssociates(p, d, ys[i]);
    MulCancels(p, Mul(x, y0), Mul(d, ys[i]));
    var q := Div(Mul(x, y0), d);
    DivIsInverseOfMul(Mul(x, y0), d);
    MulCommutes(q, d);
    MulCancels(d, q, ys[i]);
  }

  lemma DenominatorNonzero(xs: Poly, i: nat)
    requires i < |xs| && Distinct(xs) && NoZero(xs)
    ensures Denominator(xs, i, |xs|, Inv(xs[i])) != 0
  {
    hide Mul, Inv, Denominator, ProductOver;
    var x := xs[i];
    DenominatorScaled(xs, i, |xs|, x);
    forall j | 0 <= j < |xs| && j != i ensures xs[j] != x {
      if j < i { assert xs[j] != xs[i]; } else { assert xs[i] != xs[j]; }
    }
    ProductOverNonzero(xs, i, |xs|, x);
    MulNonzero(Power(x, FactorsOver(i, |xs|)), Denominator(xs, i, |xs|, Inv(x)));
  }
}
