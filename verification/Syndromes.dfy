/**
  What a received word says about its errors: syndromes are power sums of the error
  locators, and filtering the syndromes through a polynomial weighs every locator by
  the polynomial's value there.  Berlekamp-Massey and Forney both rest on this.
*/
module Syndromes {
  import opened Gf256
  import opened Polynomials

  /** The convolution of p with s ending at index n (constant term of p meets s[n]). */
  function Conv(p: Poly, s: Poly, n: int): (r: bv8)
    requires n < |s|
  {
    if |p| == 0 || n < 0 then 0
    else Add(Mul(p[|p| - 1], s[n]), Conv(p[..|p| - 1], s, n - 1))
  }

  /** p with its coefficients reversed, evaluated at x. */
  function Recip(p: Poly, x: bv8): (r: bv8) {
    if |p| == 0 then 0
    else Add(Mul(p[|p| - 1], Power(x, |p| - 1)), Recip(p[..|p| - 1], x))
  }

  /** The weights ys[k] * Recip(p, xs[k]). */
  function Weights(p: Poly, ys: Poly, xs: Poly): (w: Poly)
    requires |ys| == |xs|
    ensures |w| == |ys|
  {
    seq(|ys|, k requires 0 <= k < |ys| => Mul(ys[k], Recip(p, xs[k])))
  }

  /**
    The syndrome vector (one leading zero, then nsym syndromes) is what errors of
    values ys at locators xs produce.
  */
  ghost predicate Explains(ys: Poly, xs: Poly, synd: Poly)
    requires |synd| >= 1
  {
    && |ys| == |xs|
    && Distinct(xs) && NoZero(xs) && NoZero(ys)
    && forall n :: 1 <= n < |synd| ==> synd[n] == PowerSum(ys, xs, n - 1)
  }

  // ---------- Conv is bilinear ----------

  lemma {:induction false} ConvSum(p: Poly, q: Poly, s: Poly, n: int)
    requires n < |s|
    ensures Conv(Sum(p, q), s, n) == Add(Conv(p, s, n), Conv(q, s, n))
    decreases |p|
  {
    hide Mul, Add;
    AddLaws(Conv(p, s, n), 0, 0);
    AddLaws(Conv(q, s, n), 0, 0);
    if |p| > 0 && |q| > 0 && n >= 0 {
      var p', q', a, b := p[..|p| - 1], q[..|q| - 1], p[|p| - 1], q[|q| - 1];
      ConvSum(p', q', s, n - 1);
      assert Sum(p, q)[..|Sum(p, q)| - 1] == Sum(p', q');
      MulDistributes(s[n], a, b);
      AddExchange(Mul(a, s[n]), Mul(b, s[n]), Conv(p', s, n - 1), Conv(q', s, n - 1));
    }
  }

  lemma {:induction false} ConvScaled(p: Poly, c: bv8, s: Poly, n: int)
    requires n < |s|
    ensures Conv(Scaled(p, c), s, n) == Mul(Conv(p, s, n), c)
    decreases |p|
  {
    hide Mul, Add;
    MulNonzero(0, c);
    if |p| > 0 && n >= 0 {
      var p', a := p[..|p| - 1], p[|p| - 1];
      ConvScaled(p', c, s, n - 1);
      assert Scaled(p, c)[..|p| - 1] == Scaled(p', c);
      MulDistributes(c, Mul(a, s[n]), Conv(p', s, n - 1));
      MulSwap(a, c, s[n]);
    }
  }

  lemma ConvShift(p: Poly, s: Poly, n: int)
    requires n < |s|
    ensures Conv(p + [0], s, n) == if n < 0 then 0 else Conv(p, s, n - 1)
  {
    hide Mul, Add;
    if n >= 0 {
      assert (p + [0])[..|p|] == p;
      MulNonzero(0, s[n]);
      AddLaws(Conv(p, s, n - 1), 0, 0);
    }
  }

  // ---------- Conv of a syndrome vector is again a power sum ----------

  lemma {:induction false} WeightsStep(p: Poly, ys: Poly, xs: Poly, n: nat)
    requires |ys| == |xs| && |p| > 0
    ensures PowerSum(Weights(p, ys, xs), xs, n)
         == Add(Mul(p[|p| - 1], PowerSum(ys, xs, n + |p| - 1)), PowerSum(Weights(p[..|p| - 1], ys, xs), xs, n))
    decreases |ys|
  {
    hide Mul, Add;
    var d, c, p' := |p| - 1, p[|p| - 1], p[..|p| - 1];
    if |ys| == 0 {
      MulNonzero(c, 0);
      AddLaws(0, 0, 0);
    } else {
      var m := |ys| - 1;
      var y, x := ys[m], xs[m];
      WeightsStep(p, ys[..m], xs[..m], n);
      assert Weights(p, ys, xs)[..m] == Weights(p, ys[..m], xs[..m]);
      assert Weights(p', ys, xs)[..m] == Weights(p', ys[..m], xs[..m]);
      // y (c x^d + r) x^n == c (y x^(n+d)) + (y r) x^n
      WeightTerm(y, c, x, d, n, Recip(p', x));
      MulDistributes(c, PowerSum(ys[..m], xs[..m], n + d), Mul(y, Power(x, n + d)));
      AddExchange(Mul(c, PowerSum(ys[..m], xs[..m], n + d)), PowerSum(Weights(p', ys[..m], xs[..m]), xs[..m], n),
                  Mul(c, Mul(y, Power(x, n + d))), Mul(Mul(y, Recip(p', x)), Power(x, n)));
    }
  }

  lemma WeightTerm(y: bv8, c: bv8, x: bv8, d: nat, n: nat, r: bv8)
    ensures Mul(Mul(y, Add(Mul(c, Power(x, d)), r)), Power(x, n))
         == Add(Mul(c, Mul(y, Power(x, n + d))), Mul(Mul(y, r), Power(x, n)))
  {
    hide Mul, Add;
    var xd, xn := Power(x, d), Power(x, n);
    MulDistributes(y, Mul(c, xd), r);
    MulDistributes(xn, Mul(y, Mul(c, xd)), Mul(y, r));
    PowerAdd(x, n, d);
    MulCommutes(xn, xd);
    // (y (c xd)) xn == c (y (xd xn))
    MulAssociates(y, c, xd);
    MulCommutes(y, c);
    MulAssociates(c, y, xd);
    MulAssociates(c, Mul(y, xd), xn);
    MulAssociates(y, xd, xn);
  }

  lemma {:induction false} ConvIsPowerSum(p: Poly, synd: Poly, n: nat, ys: Poly, xs: Poly)
    requires |p| <= n < |synd| && |ys| == |xs|
    requires forall i :: 1 <= i < |synd| ==> synd[i] == PowerSum(ys, xs, i - 1)
    ensures Conv(p, synd, n) == PowerSum(Weights(p, ys, xs), xs, n - |p|)
    decreases |p|
  {
    hide Mul, Add;
    if |p| == 0 {
      forall k | 0 <= k < |ys| ensures Weights(p, ys, xs)[k] == 0 {
        MulNonzero(ys[k], 0);
      }
      PowerSumOfZeros(Weights(p, ys, xs), xs, n);
    } else {
      ConvIsPowerSum(p[..|p| - 1], synd, n - 1, ys, xs);
      WeightsStep(p, ys, xs, n - |p|);
    }
  }

  lemma {:induction false} RecipIsEvalAtInverse(p: Poly, x: bv8)
    requires |p| > 0 && x != 0
    ensures Recip(p, x) == Mul(Power(x, |p| - 1), Eval(p, Inv(x)))
    decreases |p|
  {
    hide Mul, Add, Inv;
    var p', c, d := p[..|p| - 1], p[|p| - 1], |p| - 1;
    var e := Eval(p', Inv(x));
    MulInv(x);
    MulDistributes(Power(x, d), Mul(e, Inv(x)), c);
    MulCommutes(Power(x, d), c);
    if d == 0 {
      MulNonzero(0, Inv(x));
      MulNonzero(Power(x, d), 0);
      AddLaws(Mul(c, Power(x, d)), 0, 0);
    } else {
      RecipIsEvalAtInverse(p', x);
      // x^d (e / x) == x^(d-1) e
      MulCommutes(e, Inv(x));
      MulAssociates(Power(x, d), Inv(x), e);
      MulAssociates(Power(x, d - 1), x, Inv(x));
      MulOne(Power(x, d - 1));
      AddLaws(Mul(Power(x, d - 1), e), Mul(c, Power(x, d)), 0);
    }
  }

  // ---------- the two facts Berlekamp-Massey needs ----------

  /** p annihilates the syndromes at every index from |p| up to and including n. */
  ghost predicate Annihilates(p: Poly, synd: Poly, n: int)
    requires n < |synd|
  {
    forall i :: |p| <= i <= n ==> Conv(p, synd, i) == 0
  }

  /** If p annihilates as many syndromes as there are errors, it vanishes at every inverse locator. */
  lemma AnnihilatorHasTheRoots(p: Poly, synd: Poly, n: nat, ys: Poly, xs: Poly)
    requires |synd| >= 1 && Explains(ys, xs, synd)
    requires n < |synd| && |p| > 0 && n + 1 - |p| >= |xs|
    requires Annihilates(p, synd, n)
    ensures AllZero(Weights(p, ys, xs))
    ensures forall k :: 0 <= k < |xs| ==> xs[k] != 0 && Eval(p, Inv(xs[k])) == 0
  {
    hide Mul, Add, Inv;
    var w := Weights(p, ys, xs);
    forall i | 0 <= i < |xs| ensures PowerSum(w, xs, i) == 0 {
      ConvIsPowerSum(p, synd, i + |p|, ys, xs);
    }
    PowerSumsVanish(w, xs, 0);
    forall k | 0 <= k < |xs| ensures xs[k] != 0 && Eval(p, Inv(xs[k])) == 0 {
      assert w[k] == 0;
      MulNonzero(ys[k], Recip(p, xs[k]));
      RecipIsEvalAtInverse(p, xs[k]);
      PowerNonzero(xs[k], |p| - 1);
      MulNonzero(Power(xs[k], |p| - 1), Eval(p, Inv(xs[k])));
    }
  }

  /** Massey's bound: after that many annihilated syndromes the next one is annihilated too. */
  lemma NoDiscrepancyAfterEnough(p: Poly, synd: Poly, n: nat, ys: Poly, xs: Poly)
    requires |synd| >= 1 && Explains(ys, xs, synd)
    requires n + 1 < |synd| && |p| > 0 && n + 1 - |p| >= |xs|
    requires Annihilates(p, synd, n)
    ensures Conv(p, synd, n + 1) == 0
  {
    hide Conv, PowerSum, Weights, Eval, Inv;
    AnnihilatorHasTheRoots(p, synd, n, ys, xs);
    ConvIsPowerSum(p, synd, n + 1, ys, xs);
    PowerSumOfZeros(Weights(p, ys, xs), xs, n + 1 - |p|);
  }
}
