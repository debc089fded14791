/**
  The error locator of `src/ecc.rs`: Berlekamp-Massey on the syndromes, then the Chien
  search for its roots.
*/
module BerlekampMassey {
  import opened Options
  import opened Gf256
  import opened Polynomials
  import opened PolynomialLoops
  import opened Syndromes
  import opened Codewords

  // ---------- the loop invariant of Berlekamp-Massey ----------

  /**
    After k syndromes: the current locator annihilates them, and the old one, still to
    be shifted, annihilates all but the last, on which it gives exactly 1.  The two
    lengths always add up to k + 2.
  */
  ghost predicate Invariant(err: Poly, old_: Poly, synd: Poly, k: nat)
    requires k < |synd|
  {
    && |err| + |old_| == k + 2
    && 1 <= |err| <= k + 1
    && err[|err| - 1] == 1
    && Annihilates(err, synd, k)
    && Annihilates(old_, synd, k - 1)
    && (|old_| <= k ==> Conv(old_, synd, k) == 1)
  }

  /** No locator is longer than the errors call for. */
  ghost predicate Minimal(err: Poly, synd: Poly)
    requires |synd| >= 1
  {
    forall ys, xs :: Explains(ys, xs, synd) ==> |err| - 1 <= |xs|
  }

  lemma ShiftedOld(old_: Poly, synd: Poly, k: nat)
    requires k + 1 < |synd|
    requires Annihilates(old_, synd, k - 1)
    requires |old_| <= k ==> Conv(old_, synd, k) == 1
    ensures Annihilates(old_ + [0], synd, k)
    ensures |old_| <= k ==> Conv(old_ + [0], synd, k + 1) == 1
  {
    hide Conv;
    forall i | |old_| + 1 <= i <= k ensures Conv(old_ + [0], synd, i) == 0 {
      ConvShift(old_, synd, i);
      assert Conv(old_, synd, i - 1) == 0;
    }
    ConvShift(old_, synd, k + 1);
  }

  /** err + delta * shifted annihilates one syndrome more than err did. */
  lemma CorrectedLocator(err: Poly, shifted: Poly, synd: Poly, k: nat, delta: bv8, next: Poly)
    requires k + 1 < |synd| && |err| >= 1 && |shifted| >= 2
    requires err[|err| - 1] == 1 && shifted[|shifted| - 1] == 0
    requires Annihilates(err, synd, k) && Annihilates(shifted, synd, k)
    requires |err| <= k + 1 && delta == Conv(err, synd, k + 1)
    requires |shifted| <= k + 1 ==> Conv(shifted, synd, k + 1) == 1
    requires next == Sum(err, Scaled(shifted, delta)) || next == Sum(Scaled(shifted, delta), err)
    ensures next[|next| - 1] == 1
    ensures Annihilates(next, synd, k + 1)
  {
    hide Conv, Mul, Add, Sum, Scaled;
    var step := Scaled(shifted, delta);
    MulNonzero(0, delta);
    AddLaws(0, 1, 0);
    AddLaws(1, 0, 0);
    SumAt(err, step, |next| - 1);
    SumAt(step, err, |next| - 1);
    AddLaws(delta, delta, 0);
    AddLaws(0, 0, 0);
    MulOne(delta);
    forall i | |next| <= i <= k + 1 ensures Conv(next, synd, i) == 0 {
      ConvSum(err, step, synd, i);
      ConvSum(step, err, synd, i);
      ConvScaled(shifted, delta, synd, i);
      AddLaws(Conv(err, synd, i), Conv(step, synd, i), 0);
    }
  }

  lemma RescaledOld(err: Poly, synd: Poly, k: nat, delta: bv8)
    requires k + 1 < |synd| && |err| <= k + 1 && delta != 0
    requires Annihilates(err, synd, k) && delta == Conv(err, synd, k + 1)
    ensures Annihilates(Scaled(err, Inv(delta)), synd, k)
    ensures Conv(Scaled(err, Inv(delta)), synd, k + 1) == 1
  {
    hide Conv, Mul, Scaled, Inv;
    forall i | |err| <= i <= k ensures Conv(Scaled(err, Inv(delta)), synd, i) == 0 {
      ConvScaled(err, Inv(delta), synd, i);
      MulNonzero(0, Inv(delta));
    }
    ConvScaled(err, Inv(delta), synd, k + 1);
    MulInv(delta);
  }

  lemma ScaledBack(p: Poly, c: bv8)
    requires c != 0
    ensures Scaled(Scaled(p, Inv(c)), c) == p
  {
    hide Mul, Inv;
    MulInv(c);
    forall i | 0 <= i < |p| ensures Scaled(Scaled(p, Inv(c)), c)[i] == p[i] {
      MulAssociates(p[i], Inv(c), c);
      MulCommutes(Inv(c), c);
      MulOne(p[i]);
    }
  }

  /** Massey's bound on the new length when the locator is replaced. */
  lemma StaysMinimal(err: Poly, synd: Poly, k: nat, next: Poly)
    requires k + 1 < |synd| && |err| >= 1 && Minimal(err, synd)
    requires Annihilates(err, synd, k) && Conv(err, synd, k + 1) != 0
    requires |next| == k + 3 - |err|
    ensures Minimal(next, synd)
  {
    hide Conv;
    forall ys, xs | Explains(ys, xs, synd) ensures |next| - 1 <= |xs| {
      if k + 1 - |err| >= |xs| {
        NoDiscrepancyAfterEnough(err, synd, k, ys, xs);
      }
    }
  }

  lemma ConvUnfold(p: Poly, s: Poly, k: nat, j: nat)
    requires 0 < j <= |p| && k < |s| && j <= k
    ensures Conv(p[..j], s, k - (|p| - j)) == Add(Mul(p[j - 1], s[k - (|p| - j)]), Conv(p[..j - 1], s, k - (|p| - j) - 1))
    requires |p| - j <= k
  {
    assert p[..j][..j - 1] == p[..j - 1];
  }

  /** The discrepancy: the next syndrome seen through the current locator. */
  method Discrepancy(err: Poly, synd: Poly, k: nat) returns (delta: bv8)
    requires 1 <= |err| <= k < |synd| && err[|err| - 1] == 1
    ensures delta == Conv(err, synd, k)
  {
    hide Conv, Mul, Add;
    delta := synd[k];
    ConvUnfold(err, synd, k, |err|);
    assert err[..|err|] == err;
    MulOne(synd[k]);
    ghost var target := Conv(err, synd, k);
    for j := 1 to |err|
      invariant target == Add(delta, Conv(err[..|err| - j], synd, k - j))
    {
      ConvUnfold(err, synd, k, |err| - j);
      AddLaws(delta, Mul(err[|err| - 1 - j], synd[k - j]), Conv(err[..|err| - j - 1], synd, k - j - 1));
      delta := Add(delta, Mul(err[|err| - 1 - j], synd[k - j]));
    }
    assert Conv(err[..0], synd, k - |err|) == 0 by { ConvEmpty(err[..0], synd, k - |err|); }
    AddLaws(delta, 0, 0);
  }

  lemma ConvEmpty(p: Poly, s: Poly, n: int)
    requires |p| == 0 && n < |s|
    ensures Conv(p, s, n) == 0
  {
  }

  /** The initial locator pair, before any syndrome is read. */
  lemma InvariantStarts(synd: Poly)
    requires |synd| >= 1
    ensures Invariant([1], [1], synd, 0)
    ensures Minimal([1], synd)
  {
  }

  method Iterate(synd: Poly, nsym: nat) returns (err: Poly)
    requires |synd| == nsym + 1
    ensures 1 <= |err| <= nsym + 1 && err[|err| - 1] == 1
    ensures Annihilates(err, synd, nsym)
    ensures Minimal(err, synd)
  {
    hide Conv, Mul, Add, Sum, Scaled, Inv, Explains, Annihilates;
    err := [1];
    var old_ := [1];
    InvariantStarts(synd);
    for i := 0 to nsym
      invariant Invariant(err, old_, synd, i)
      invariant Minimal(err, synd)
    {
      var k := i + 1;
      var delta := Discrepancy(err, synd, k);
      ShiftedOld(old_, synd, i);
      old_ := old_ + [0];
      if delta != 0 {
        ghost var before, shifted := err, old_;
        if |old_| > |err| {
          StaysMinimal(err, synd, i, shifted);
          RescaledOld(err, synd, i, delta);
          ScaledBack(err, delta);
          var newLoc := Scaled(old_, delta);
          old_ := Scaled(err, Inv(delta));
          err := newLoc;
        }
        err := PolyAdd(err, Scaled(old_, delta));
        CorrectedLocator(before, shifted, synd, i, delta, err);
      } else {
        ExtendAnnihilation(err, synd, i);
      }
    }
  }

  lemma ExtendAnnihilation(p: Poly, synd: Poly, k: nat)
    requires k + 1 < |synd| && Annihilates(p, synd, k) && Conv(p, synd, k + 1) == 0
    ensures Annihilates(p, synd, k + 1)
  {
  }

  // ---------- the locator found ----------

  /** p is zero at the inverse of every locator. */
  ghost predicate Locates(p: Poly, xs: Poly) {
    forall k :: 0 <= k < |xs| ==> xs[k] != 0 && Eval(p, Inv(xs[k])) == 0
  }

  /** A polynomial with a nonzero leading coefficient that locates xs has at least |xs| + 1 coefficients. */
  lemma LocatorIsLongEnough(p: Poly, xs: Poly)
    requires |p| > 0 && p[0] != 0 && Distinct(xs) && Locates(p, xs)
    ensures |p| >= |xs| + 1
  {
    hide Inv, Eval;
    if |p| <= |xs| {
      var roots := seq(|xs|, k requires 0 <= k < |xs| => Inv(xs[k]));
      forall j, k | 0 <= j < k < |roots| ensures roots[j] != roots[k] {
        InvInjective(xs[j], xs[k]);
      }
      TooManyRoots(p, roots);
    }
  }

  lemma InvInjective(a: bv8, b: bv8)
    requires a != 0 && b != 0
    ensures Inv(a) == Inv(b) ==> a == b
  {
    hide Mul, Inv;
    MulInv(a);
    MulInv(b);
    if Inv(a) == Inv(b) {
      MulCommutes(a, Inv(a));
      MulCommutes(b, Inv(a));
      MulCancels(Inv(a), a, b);
    }
  }

  lemma DropLeadingZero(p: Poly, x: bv8)
    requires |p| > 0 && p[0] == 0
    ensures Eval(p, x) == Eval(p[1..], x)
  {
    hide Eval;
    assert Pending(p, 1) == p by {
      assert Pending(p, 1) == Zeros(1) + p[1..];
    }
    DivisionEnds(p, 1, x);
  }

  method ErrorLocator(synd: Poly, nsym: nat) returns (r: Option<Poly>)
    requires |synd| == nsym + 1
    ensures r.Some? ==> |r.value| > 0 && r.value[0] != 0 && 2 * (|r.value| - 1) <= nsym
    ensures forall ys, xs :: Explains(ys, xs, synd) && 2 * |xs| <= nsym ==>
      r.Some? && |r.value| == |xs| + 1 && Locates(r.value, xs)
  {
    hide Conv, Mul, Add, Inv, Eval, Explains, Annihilates;
    var err := Iterate(synd, nsym);
    ghost var full := err;
    while |err| > 0 && err[0] == 0
      invariant 1 <= |err| <= |full| && err[|err| - 1] == 1
      invariant forall x {:trigger Eval(full, x)} :: Eval(err, x) == Eval(full, x)
    {
      forall x ensures Eval(err[1..], x) == Eval(full, x) {
        DropLeadingZero(err, x);
      }
      err := err[1..];
    }
    forall ys, xs | Explains(ys, xs, synd) && 2 * |xs| <= nsym
      ensures |err| == |xs| + 1 && Locates(err, xs)
    {
      ExplainedBy(ys, xs, synd);
      AnnihilatorHasTheRoots(full, synd, nsym, ys, xs);
      LocatorIsLongEnough(err, xs);
    }
    var errs := |err| - 1;
    if errs * 2 > nsym {
      return None;
    }
    return Some(err);
  }

  lemma ExplainedBy(ys: Poly, xs: Poly, synd: Poly)
    requires |synd| >= 1 && Explains(ys, xs, synd)
    ensures |ys| == |xs| && Distinct(xs) && NoZero(xs)
  {
  }

  // ---------- the Chien search ----------

  predicate IsErrorPosition(err: Poly, nmess: nat, p: int) {
    0 <= p < nmess && Eval(err, Pow(-(nmess - 1 - p))) == 0
  }

  method ErrorPositions(err: Poly, nmess: nat) returns (r: Option<seq<nat>>)
    requires |err| > 0
    ensures var roots := Where(nmess, p => IsErrorPosition(err, nmess, p));
      r == if |roots| == |err| - 1 then Some(roots) else None
  {
    hide Eval, Pow;
    var errs := |err| - 1;
    var pos: seq<nat> := [];
    for p := 0 to nmess
      invariant pos == Where(p, q => IsErrorPosition(err, nmess, q))
    {
      var xInv := Pow(-(nmess - 1 - p));
      var value := PolyEval(err, xInv);
      if value == 0 {
        pos := pos + [p];
      }
    }
    return if |pos| == errs then Some(pos) else None;
  }

  /** A locator of the right length finds exactly the damaged positions. */
  lemma ChienFindsTheErrors(err: Poly, nmess: nat, ps: seq<nat>)
    requires |err| == |ps| + 1 && nmess <= BLOCK && err[0] != 0
    requires Increasing(ps, nmess)
    requires Locates(err, Locators(ps, nmess))
    ensures Where(nmess, p => IsErrorPosition(err, nmess, p)) == ps
  {
    hide Eval, Pow, Inv;
    var found := Where(nmess, p => IsErrorPosition(err, nmess, p));
    WhereLists(nmess, p => IsErrorPosition(err, nmess, p));
    LocatorsAreDistinct(found, nmess);
    forall k | 0 <= k < |found| ensures Locators(found, nmess)[k] != 0 && Eval(err, Inv(Locators(found, nmess)[k])) == 0 {
      assert IsErrorPosition(err, nmess, found[k]);
      PowNonzero(nmess - 1 - found[k]);
    }
    LocatorIsLongEnough(err, Locators(found, nmess));
    forall k | 0 <= k < |ps| ensures IsErrorPosition(err, nmess, ps[k]) {
      assert Eval(err, Inv(Locators(ps, nmess)[k])) == 0;
      PowNonzero(nmess - 1 - ps[k]);
    }
    IncreasingListOf(nmess, ps, p => IsErrorPosition(err, nmess, p));
  }

  /** An increasing list of numbers satisfying p is at most what `Where` lists. */
  lemma {:induction false} IncreasingListOf(n: nat, ps: seq<nat>, p: int -> bool)
    requires Increasing(ps, n) && forall k :: 0 <= k < |ps| ==> p(ps[k])
    ensures |ps| <= |Where(n, p)|
    ensures |ps| == |Where(n, p)| ==> ps == Where(n, p)
  {
    if n > 0 {
      var found := Where(n - 1, p);
      if |ps| > 0 && ps[|ps| - 1] == n - 1 {
        var qs := ps[..|ps| - 1];
        assert ps == qs + [n - 1];
        IncreasingListOf(n - 1, qs, p);
        assert Where(n, p) == found + [n - 1];
      } else {
        forall k | 0 <= k < |ps| ensures ps[k] < n - 1 {
          assert ps[k] <= ps[|ps| - 1];
        }
        IncreasingListOf(n - 1, ps, p);
        assert |ps| <= |found|;
      }
    }
  }
}
