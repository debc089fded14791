/**
  The Reed-Solomon code itself, with no algorithm in sight: which words are codewords,
  how far apart they are, and what the syndromes of a damaged codeword look like.
*/
module Codewords {
  import opened Gf256
  import opened Polynomials
  import opened Syndromes

  /** The block length: 255 symbols. */
  const BLOCK: nat := 255

  /** All syndromes vanish. */
  ghost predicate IsCodeword(c: Poly, nsym: nat) {
    forall n :: 0 <= n < nsym ==> Eval(c, Pow(n)) == 0
  }

  /** The positions below n that satisfy p, in increasing order. */
  function Where(n: nat, p: int -> bool): (r: seq<nat>) {
    if n == 0 then []
    else if p(n - 1) then Where(n - 1, p) + [n - 1]
    else Where(n - 1, p)
  }

  predicate Increasing(ps: seq<nat>, n: nat) {
    && (forall k :: 0 <= k < |ps| ==> ps[k] < n)
    && (forall j, k :: 0 <= j < k < |ps| ==> ps[j] < ps[k])
  }

  lemma {:induction false} WhereLists(n: nat, p: int -> bool)
    ensures |Where(n, p)| <= n
    ensures Increasing(Where(n, p), n)
    ensures forall k :: 0 <= k < |Where(n, p)| ==> p(Where(n, p)[k])
    ensures forall i :: 0 <= i < n && p(i) ==> i in Where(n, p)
  {
    if n > 0 {
      WhereLists(n - 1, p);
    }
  }

  lemma {:induction false} WhereMonotone(n: nat, p: int -> bool, q: int -> bool)
    requires forall i :: 0 <= i < n && p(i) ==> q(i)
    ensures |Where(n, p)| <= |Where(n, q)|
    ensures |Where(n, p)| == |Where(n, q)| ==> Where(n, p) == Where(n, q)
  {
    if n > 0 {
      WhereMonotone(n - 1, p, q);
    }
  }

  function Errors(a: Poly, b: Poly): (ps: seq<nat>)
    requires |a| == |b|
    ensures Increasing(ps, |a|)
  {
    WhereLists(|a|, i => 0 <= i < |a| && a[i] != b[i]);
    Where(|a|, i => 0 <= i < |a| && a[i] != b[i])
  }

  lemma ErrorsAreTheDifferences(a: Poly, b: Poly)
    requires |a| == |b|
    ensures forall k :: 0 <= k < |Errors(a, b)| ==> a[Errors(a, b)[k]] != b[Errors(a, b)[k]]
    ensures forall i :: 0 <= i < |a| && a[i] != b[i] ==> i in Errors(a, b)
  {
    WhereLists(|a|, i => 0 <= i < |a| && a[i] != b[i]);
  }

  /** The number of positions in which two words of the same length differ. */
  function Distance(a: Poly, b: Poly): (r: nat)
    requires |a| == |b|
  {
    |Errors(a, b)|
  }

  /** The locators of a list of positions in a word of length n. */
  function Locators(ps: seq<nat>, n: nat): (xs: Poly)
    ensures |xs| == |ps|
    ensures forall k :: 0 <= k < |xs| ==> xs[k] == Pow(n - 1 - ps[k])
  {
    seq(|ps|, k requires 0 <= k < |ps| => Pow(n - 1 - ps[k]))
  }

  /** The differences of two words at a list of positions. */
  function Values(a: Poly, b: Poly, ps: seq<nat>): (ys: Poly)
    requires |a| == |b| && forall k :: 0 <= k < |ps| ==> ps[k] < |a|
    ensures |ys| == |ps|
    ensures forall k :: 0 <= k < |ys| ==> ys[k] == Add(a[ps[k]], b[ps[k]])
  {
    seq(|ps|, k requires 0 <= k < |ps| => Add(a[ps[k]], b[ps[k]]))
  }

  lemma LocatorsAreDistinct(ps: seq<nat>, n: nat)
    requires n <= BLOCK
    requires Increasing(ps, n)
    ensures Distinct(Locators(ps, n)) && NoZero(Locators(ps, n))
  {
    hide Pow;
    var xs := Locators(ps, n);
    forall k | 0 <= k < |xs| ensures xs[k] != 0 {
      PowNonzero(n - 1 - ps[k]);
    }
    forall j, k | 0 <= j < k < |xs| ensures xs[j] != xs[k] {
      if xs[j] == xs[k] {
        PowInjective(n - 1 - ps[j], n - 1 - ps[k]);
      }
    }
  }

  /** The weighted powers of z at the degrees of the differing positions, shifted up by m. */
  function DamageAt(a: Poly, b: Poly, ps: seq<nat>, d: nat, z: bv8): (r: bv8)
    requires |a| == |b| <= d && forall k :: 0 <= k < |ps| ==> ps[k] < |a|
  {
    if |ps| == 0 then 0
    else
      var k := |ps| - 1;
      Add(DamageAt(a, b, ps[..k], d, z), Mul(Add(a[ps[k]], b[ps[k]]), Power(z, d - 1 - ps[k])))
  }

  lemma {:induction false} DamagePrefix(a: Poly, b: Poly, ps: seq<nat>, d: nat, z: bv8, n: nat)
    requires n <= |a| == |b| <= d && forall k :: 0 <= k < |ps| ==> ps[k] < n
    ensures DamageAt(a, b, ps, d, z) == DamageAt(a[..n], b[..n], ps, d, z)
  {
    hide Mul, Add;
    if |ps| > 0 {
      DamagePrefix(a, b, ps[..|ps| - 1], d, z, n);
    }
  }

  lemma WhereExtensional(n: nat, p: int -> bool, q: int -> bool)
    requires forall i :: 0 <= i < n ==> p(i) == q(i)
    ensures Where(n, p) == Where(n, q)
  {
    WhereMonotone(n, p, q);
    WhereMonotone(n, q, p);
  }

  /** ((u z + a) + (v z + b)) w == (u + v) (w z) + (a + b) w */
  lemma DamageTerm(u: bv8, a: bv8, v: bv8, b: bv8, z: bv8, w: bv8)
    ensures Mul(Add(Add(Mul(u, z), a), Add(Mul(v, z), b)), w)
         == Add(Mul(Add(u, v), Mul(w, z)), Mul(Add(a, b), w))
  {
    hide Mul, Add;
    AddExchange(Mul(u, z), a, Mul(v, z), b);
    MulDistributes(z, u, v);
    MulDistributes(w, Mul(Add(u, v), z), Add(a, b));
    MulAssociates(Add(u, v), z, w);
    MulCommutes(z, w);
  }

  lemma ErrorsOfEmpty(a: Poly, b: Poly)
    requires |a| == |b| == 0
    ensures Errors(a, b) == []
  {
  }

  lemma ErrorsAppend(a: Poly, b: Poly)
    requires |a| == |b| > 0
    ensures var l := |a| - 1;
      Errors(a, b) == Errors(a[..l], b[..l]) + (if a[l] != b[l] then [l] else [])
  {
    var l := |a| - 1;
    WhereExtensional(l, i => 0 <= i < |a| && a[i] != b[i], i => 0 <= i < |a[..l]| && a[..l][i] != b[..l][i]);
  }

  lemma EvalStep(a: Poly, z: bv8)
    requires |a| > 0
    ensures Eval(a, z) == Add(Mul(Eval(a[..|a| - 1], z), z), a[|a| - 1])
  {
  }

  /** The last position counts with the difference there, which is zero if there is no error. */
  lemma LastDamage(a: Poly, b: Poly, d: nat, z: bv8)
    requires 0 < |a| == |b| <= d
    ensures var l := |a| - 1; var ps := Errors(a[..l], b[..l]);
      DamageAt(a, b, Errors(a, b), d, z) == Add(DamageAt(a[..l], b[..l], ps, d, z), Mul(Add(a[l], b[l]), Power(z, d - |a|)))
  {
    hide Mul, Add, Errors, Power;
    var l := |a| - 1;
    var ps := Errors(a[..l], b[..l]);
    ErrorsAppend(a, b);
    DamagePrefix(a, b, ps, d, z, l);
    if a[l] != b[l] {
      assert (ps + [l])[..|ps|] == ps;
    } else {
      assert ps + [] == ps;
      AddLaws(a[l], b[l], 0);
      MulNonzero(0, Power(z, d - |a|));
      AddLaws(DamageAt(a[..l], b[..l], ps, d, z), 0, 0);
    }
  }

  /** The difference of two words, evaluated, only sees the differing positions. */
  lemma {:induction false} EvalOfDamage(a: Poly, b: Poly, z: bv8, m: nat)
    requires |a| == |b|
    ensures Mul(Add(Eval(a, z), Eval(b, z)), Power(z, m)) == DamageAt(a, b, Errors(a, b), |a| + m, z)
    decreases |a|
  {
    hide Mul, Add, Errors, DamageAt;
    if |a| == 0 {
      NoDamage(a, b, z, m);
    } else {
      var l := |a| - 1;
      EvalOfDamage(a[..l], b[..l], z, m + 1);
      LastDamage(a, b, |a| + m, z);
      hide Eval;
      EvalStep(a, z);
      EvalStep(b, z);
      DamageTerm(Eval(a[..l], z), a[l], Eval(b[..l], z), b[l], z, Power(z, m));
    }
  }

  lemma NoDamage(a: Poly, b: Poly, z: bv8, m: nat)
    requires |a| == |b| == 0
    ensures Mul(Add(Eval(a, z), Eval(b, z)), Power(z, m)) == DamageAt(a, b, Errors(a, b), |a| + m, z)
  {
    hide Mul, Add, Errors, Power;
    AddLaws(0, 0, 0);
    MulNonzero(0, Power(z, m));
    ErrorsOfEmpty(a, b);
  }

  lemma {:induction false} DamageIsPowerSum(a: Poly, b: Poly, ps: seq<nat>, n: nat)
    requires |a| == |b| && forall k :: 0 <= k < |ps| ==> ps[k] < |a|
    ensures DamageAt(a, b, ps, |a|, Pow(n)) == PowerSum(Values(a, b, ps), Locators(ps, |a|), n)
    decreases |ps|
  {
    hide Mul, Add, Pow;
    if |ps| > 0 {
      var k := |ps| - 1;
      DamageIsPowerSum(a, b, ps[..k], n);
      assert Values(a, b, ps)[..k] == Values(a, b, ps[..k]);
      assert Locators(ps, |a|)[..k] == Locators(ps[..k], |a|);
      var d := |a| - 1 - ps[k];
      PowerOfPow(n, d);
      PowerOfPow(d, n);
      assert n * d == d * n;
    }
  }

  /** The syndrome vector of a word: a leading zero, then the values at the roots. */
  ghost predicate IsSyndromeOf(synd: Poly, word: Poly, nsym: nat) {
    && |synd| == nsym + 1 && synd[0] == 0
    && forall n :: 0 <= n < nsym ==> synd[n + 1] == Eval(word, Pow(n))
  }

  /** The syndromes of a damaged codeword depend on the damage only. */
  lemma SyndromesExplained(word: Poly, codeword: Poly, synd: Poly, nsym: nat)
    requires |word| == |codeword| <= BLOCK
    requires IsCodeword(codeword, nsym) && IsSyndromeOf(synd, word, nsym)
    ensures var ps := Errors(word, codeword);
            Explains(Values(word, codeword, ps), Locators(ps, |word|), synd)
  {
    hide Mul, Add, Pow, Eval;
    var ps := Errors(word, codeword);
    var ys := Values(word, codeword, ps);
    LocatorsAreDistinct(ps, |word|);
    ErrorsAreTheDifferences(word, codeword);
    forall k | 0 <= k < |ys| ensures ys[k] != 0 {
      AddLaws(word[ps[k]], codeword[ps[k]], 0);
    }
    forall n | 1 <= n < |synd| ensures synd[n] == PowerSum(ys, Locators(ps, |word|), n - 1) {
      assert synd[(n - 1) + 1] == Eval(word, Pow(n - 1));
      EvalOfDamage(word, codeword, Pow(n - 1), 0);
      MulOne(Add(Eval(word, Pow(n - 1)), 0));
      AddLaws(Eval(word, Pow(n - 1)), 0, 0);
      DamageIsPowerSum(word, codeword, ps, n - 1);
    }
  }

  lemma SomeZero(ys: Poly)
    requires |ys| > 0 && AllZero(ys)
    ensures !NoZero(ys)
  {
    assert ys[0] == 0;
  }

  lemma CloseCodewordsAreEqual(a: Poly, b: Poly, nsym: nat)
    requires |a| == |b| <= BLOCK && IsCodeword(a, nsym) && IsCodeword(b, nsym)
    requires Distance(a, b) <= nsym
    ensures a == b
  {
    hide Pow, Eval, PowerSum;
    var synd := Zeros(nsym + 1);
    var ps := Errors(a, b);
    SyndromesExplained(a, b, synd, nsym);
    var ys, xs := Values(a, b, ps), Locators(ps, |a|);
    forall n | 0 <= n < |xs| ensures PowerSum(ys, xs, n) == 0 {
      assert synd[n + 1] == PowerSum(ys, xs, n);
    }
    PowerSumsVanish(ys, xs, 0);
    if |ys| > 0 {
      SomeZero(ys);
    }
    ErrorsAreTheDifferences(a, b);
    forall i | 0 <= i < |a| ensures a[i] == b[i] {
      assert i !in ps;
    }
  }

  /** Distinct codewords of at most 255 symbols differ in at least nsym + 1 places. */
  lemma MinimumDistance(a: Poly, b: Poly, nsym: nat)
    requires |a| == |b| <= BLOCK && IsCodeword(a, nsym) && IsCodeword(b, nsym)
    requires a != b
    ensures Distance(a, b) >= nsym + 1
  {
    if Distance(a, b) <= nsym {
      CloseCodewordsAreEqual(a, b, nsym);
    }
  }

  // ---------- distance is a metric ----------

  lemma DistanceSymmetric(a: Poly, b: Poly)
    requires |a| == |b|
    ensures Distance(a, b) == Distance(b, a)
  {
    WhereExtensional(|a|, i => 0 <= i < |a| && a[i] != b[i], i => 0 <= i < |b| && b[i] != a[i]);
  }

  lemma {:induction false} WhereCovered(n: nat, p: int -> bool, q: int -> bool, r: int -> bool)
    requires forall i :: 0 <= i < n && p(i) ==> q(i) || r(i)
    ensures |Where(n, p)| <= |Where(n, q)| + |Where(n, r)|
  {
    if n > 0 {
      WhereCovered(n - 1, p, q, r);
    }
  }

  lemma TriangleInequality(a: Poly, b: Poly, c: Poly)
    requires |a| == |b| == |c|
    ensures Distance(a, c) <= Distance(a, b) + Distance(b, c)
  {
    WhereCovered(|a|, i => 0 <= i < |a| && a[i] != c[i],
      i => 0 <= i < |a| && a[i] != b[i], i => 0 <= i < |b| && b[i] != c[i]);
  }

  /** A word has at most one codeword within nsym / 2 of it. */
  lemma NearestCodewordIsUnique(word: Poly, a: Poly, b: Poly, nsym: nat)
    requires |word| == |a| == |b| <= BLOCK && IsCodeword(a, nsym) && IsCodeword(b, nsym)
    requires 2 * Distance(word, a) <= nsym && 2 * Distance(word, b) <= nsym
    ensures a == b
  {
    hide Distance;
    TriangleInequality(a, word, b);
    DistanceSymmetric(a, word);
    CloseCodewordsAreEqual(a, b, nsym);
  }
}
