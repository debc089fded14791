/**
  The decoder and the per-page entry points of `src/ecc.rs`, with the guarantees the
  page path relies on: within the budget the original data comes back, and whatever
  comes back is the data of a codeword within the budget of what was read.
*/
module Ecc {
  import opened Options
  import opened Gf256
  import opened Polynomials
  import opened PolynomialLoops
  import opened Syndromes
  import opened Codewords
  import opened BerlekampMassey
  import opened Forney
  import opened Encoder

  // ---------- syndromes ----------

  method SyndromesOf(codeword: Poly, nsym: nat) returns (synd: Poly)
    requires |codeword| > 0
    ensures IsSyndromeOf(synd, codeword, nsym)
  {
    hide Eval, Pow;
    var s := new bv8[nsym + 1](i => 0);
    for i := 0 to nsym
      invariant s[0] == 0
      invariant forall n :: 0 <= n < i ==> s[n + 1] == Eval(codeword, Pow(n))
    {
      s[i + 1] := PolyEval(codeword, Pow(i));
    }
    synd := s[..];
  }

  lemma ZeroSyndromesMeanCodeword(synd: Poly, word: Poly, nsym: nat)
    requires IsSyndromeOf(synd, word, nsym)
    ensures AllZero(synd) <==> IsCodeword(word, nsym)
  {
    hide Eval, Pow;
    if IsCodeword(word, nsym) {
      forall n | 0 <= n < |synd| ensures synd[n] == 0 {
        if n > 0 {
          assert synd[(n - 1) + 1] == Eval(word, Pow(n - 1));
        }
      }
    }
  }

  // ---------- correcting the errors ----------

  method LocatorFromPositions(coefPos: seq<nat>) returns (eLoc: Poly, xs: Poly)
    ensures |xs| == |coefPos| && forall k :: 0 <= k < |xs| ==> xs[k] == Pow(coefPos[k])
    ensures eLoc == FromLocators(xs)
  {
    hide Pow, Product;
    eLoc, xs := [1], [];
    for k := 0 to |coefPos|
      invariant |xs| == k && forall j :: 0 <= j < k ==> xs[j] == Pow(coefPos[j])
      invariant eLoc == FromLocators(xs)
    {
      var x := Pow(coefPos[k]);
      var factor := PolyAdd([1], [x, 0]);
      assert factor == [x, 1] by { LinearFactor(x); }
      eLoc := PolyMul(eLoc, factor);
      assert (xs + [x])[..|xs|] == xs;
      xs := xs + [x];
    }
  }

  lemma LinearFactor(x: bv8)
    ensures Sum([1], [x, 0]) == [x, 1]
  {
    AddLaws(1, 0, 0);
    assert [x, 0][..1] == [x];
  }

  /** The low coefficients of reversed syndromes times locator, by division by a power of x. */
  method ErrorEvaluator(synd: Poly, eLoc: Poly) returns (errEval: Poly)
    requires 0 < |eLoc| <= |synd|
    ensures |errEval| == |eLoc|
    ensures IsEvaluator(errEval, eLoc, synd)
  {
    hide Conv, Product, Reversed;
    var product := PolyMul(Reversed(synd), eLoc);
    var divisor := [1] + Zeros(|eLoc|);
    assert divisor[1..] == Zeros(|eLoc|);
    var quotient, remainder := PolyDiv(product, divisor);
    errEval := remainder;
    forall t | 0 <= t < |eLoc| ensures remainder[|eLoc| - 1 - t] == Conv(eLoc, synd, t) {
      ProductLowCoefficient(synd, eLoc, t);
      assert (quotient + remainder)[|quotient| + (|eLoc| - 1 - t)] == remainder[|eLoc| - 1 - t];
    }
  }

  /** The denominator loop. */
  method DerivativeAt(xs: Poly, i: nat, xiInv: bv8) returns (prime: bv8)
    requires i < |xs|
    ensures prime == Denominator(xs, i, |xs|, xiInv)
  {
    hide Mul, Add;
    prime := 1;
    for j := 0 to |xs|
      invariant prime == Denominator(xs, i, j, xiInv)
    {
      if j != i {
        prime := Mul(prime, Add(1, Mul(xiInv, xs[j])));
      }
    }
  }

  /** The word with the errors at the first n positions taken out. */
  function Repaired(word: Poly, codeword: Poly, ps: seq<nat>, n: nat): (r: Poly)
    requires |word| == |codeword| && n <= |ps| && Increasing(ps, |word|)
    ensures |r| == |word|
    ensures forall i :: 0 <= i < |r| ==> r[i] == if i in ps[..n] then codeword[i] else word[i]
  {
    seq(|word|, i requires 0 <= i < |word| => if i in ps[..n] then codeword[i] else word[i])
  }

  lemma RepairedAll(word: Poly, codeword: Poly)
    requires |word| == |codeword|
    ensures Repaired(word, codeword, Errors(word, codeword), |Errors(word, codeword)|) == codeword
  {
    var ps := Errors(word, codeword);
    ErrorsAreTheDifferences(word, codeword);
    assert ps[..|ps|] == ps;
    forall i | 0 <= i < |word| ensures Repaired(word, codeword, ps, |ps|)[i] == codeword[i] {
      if i !in ps {
        assert word[i] == codeword[i];
      }
    }
  }

  lemma RepairStep(word: Poly, codeword: Poly, ps: seq<nat>, n: nat, next: Poly)
    requires |word| == |codeword| == |next| && n < |ps| && Increasing(ps, |word|)
    requires forall i :: 0 <= i < |next| ==>
      next[i] == if i == ps[n] then Add(Repaired(word, codeword, ps, n)[i], Add(word[i], codeword[i]))
                 else Repaired(word, codeword, ps, n)[i]
    ensures next == Repaired(word, codeword, ps, n + 1)
  {
    hide Add, Repaired;
    assert ps[..n + 1] == ps[..n] + [ps[n]];
    assert ps[n] !in ps[..n];
    AddLaws(word[ps[n]], codeword[ps[n]], 0);
  }

  /** The word is the codeword c damaged at exactly the positions ps. */
  ghost predicate IsDamaged(word: Poly, c: Poly, ps: seq<nat>, nsym: nat) {
    |c| == |word| && IsCodeword(c, nsym) && Errors(word, c) == ps
  }

  /**
    Forney's correction in place.  Only the given positions change; and when they are
    the positions in which the message differs from a codeword, the message becomes it.
  */
  method CorrectErrata(msg: array<bv8>, synd: Poly, errPos: seq<nat>, ghost nsym: nat)
    requires 0 < msg.Length <= BLOCK && Increasing(errPos, msg.Length)
    requires 2 * |errPos| <= nsym < BLOCK
    requires IsSyndromeOf(synd, msg[..], nsym)
    modifies msg
    ensures forall i :: 0 <= i < msg.Length && i !in errPos ==> msg[i] == old(msg[i])
    ensures forall c: Poly :: IsDamaged(old(msg[..]), c, errPos, nsym) ==> msg[..] == c
  {
    hide Mul, Add, Eval, Pow, Inv, Div, Denominator, FromLocators, IsEvaluator, Errors, Explains, IsCodeword;
    ghost var word := msg[..];
    var coefPos := seq(|errPos|, k requires 0 <= k < |errPos| => msg.Length - 1 - errPos[k]);
    var eLoc, xs := LocatorFromPositions(coefPos);
    assert xs == Locators(errPos, msg.Length);
    var errEval := ErrorEvaluator(synd, eLoc);
    LocatorsAreDistinct(errPos, msg.Length);
    for i := 0 to |xs|
      invariant forall j :: 0 <= j < msg.Length && j !in errPos ==> msg[j] == word[j]
      invariant forall c: Poly :: IsDamaged(word, c, errPos, nsym) ==>
        msg[..] == Repaired(word, c, errPos, i)
    {
      var xi := xs[i];
      assert xi != 0;
      var xiInv := Inv(xi);
      var prime := DerivativeAt(xs, i, xiInv);
      DenominatorNonzero(xs, i);
      var y := PolyEval(errEval, xiInv);
      y := Mul(xi, y);
      var magnitude := Div(y, prime);
      ghost var before := msg[..];
      msg[errPos[i]] := Add(msg[errPos[i]], magnitude);
      forall c: Poly | IsDamaged(word, c, errPos, nsym)
        ensures msg[..] == Repaired(word, c, errPos, i + 1)
      {
        SyndromesExplained(word, c, synd, nsym);
        ForneyValue(errEval, synd, Values(word, c, errPos), xs, i);
        assert magnitude == Add(word[errPos[i]], c[errPos[i]]);
        assert before == Repaired(word, c, errPos, i);
        RepairStep(word, c, errPos, i, msg[..]);
      }
    }
    forall c: Poly | IsDamaged(word, c, errPos, nsym)
      ensures msg[..] == c
    {
      RepairedAll(word, c);
    }
  }

  // ---------- one block ----------

  /** The data of a codeword within the budget of the word read. */
  ghost predicate Plausible(data: Poly, word: Poly, nsym: nat)
    requires nsym <= |word|
  {
    exists c: Poly :: |c| == |word| && IsCodeword(c, nsym) && 2 * Distance(word, c) <= nsym
      && data == c[..|word| - nsym]
  }

  lemma ErrorsAmong(word: Poly, c: Poly, p: int -> bool)
    requires |word| == |c|
    requires forall i :: 0 <= i < |word| && !p(i) ==> c[i] == word[i]
    ensures Distance(word, c) <= |Where(|word|, p)|
  {
    WhereMonotone(|word|, i => 0 <= i < |word| && word[i] != c[i], p);
  }

  /**
    One block.  A result is always plausible; and if some codeword is within the
    budget of the word read, the result is exactly that codeword's data.
  */
  method DecodeBlock(data: Poly, parity: Poly) returns (r: Option<Poly>)
    requires 0 < |data| && 1 <= |parity| && |data| + |parity| <= BLOCK
    ensures r.Some? ==> Plausible(r.value, data + parity, |parity|)
    ensures forall d: Poly :: Plausible(d, data + parity, |parity|) ==> r == Some(d)
  {
    hide IsCodeword, Distance, Explains, Errors, Locates, IsErrorPosition, Where, AllZero;
    var nsym := |parity|;
    ghost var word := data + parity;
    var msg := new bv8[|data| + nsym](i requires 0 <= i < |data| + nsym =>
      if i < |data| then data[i] else parity[i - |data|]);
    assert msg[..] == word;
    var synd := SyndromesOf(msg[..], nsym);
    ZeroSyndromesMeanCodeword(synd, word, nsym);
    if AllZero(synd) {
      assert data == word[..|data|];
      CodewordDecodesToItself(word, nsym);
      OnlyOnePlausible(word, nsym, data);
      return Some(data);
    }
    var loc := ErrorLocator(synd, nsym);
    if loc.None? {
      forall d: Poly | Plausible(d, word, nsym) ensures false {
        var c := PlausibleErrors(d, word, synd, nsym);
      }
      return None;
    }
    var pos := ErrorPositions(loc.value, msg.Length);
    if pos.None? {
      forall d: Poly | Plausible(d, word, nsym) ensures false {
        var c := PlausibleErrors(d, word, synd, nsym);
        ChienFindsTheErrors(loc.value, |word|, Errors(word, c));
      }
      return None;
    }
    WhereLists(msg.Length, p => IsErrorPosition(loc.value, msg.Length, p));
    CorrectErrata(msg, synd, pos.value, nsym);
    ghost var fixed := msg[..];
    var again := SyndromesOf(msg[..], nsym);
    ZeroSyndromesMeanCodeword(again, fixed, nsym);
    forall d: Poly | Plausible(d, word, nsym) ensures IsCodeword(fixed, nsym) && d == fixed[..|data|] {
      var c := PlausibleErrors(d, word, synd, nsym);
      ChienFindsTheErrors(loc.value, |word|, Errors(word, c));
      assert IsDamaged(word, c, pos.value, nsym);
    }
    if !AllZero(again) {
      return None;
    }
    ErrorsAmong(word, fixed, p => IsErrorPosition(loc.value, msg.Length, p));
    assert Plausible(fixed[..|data|], word, nsym);
    return Some(msg[..][..|data|]);
  }

  lemma CodewordDecodesToItself(word: Poly, nsym: nat)
    requires IsCodeword(word, nsym) && nsym <= |word| <= BLOCK
    ensures Plausible(word[..|word| - nsym], word, nsym)
  {
    hide IsCodeword;
    WhereNone(|word|, i => 0 <= i < |word| && word[i] != word[i]);
  }

  lemma {:induction false} WhereNone(n: nat, p: int -> bool)
    requires forall i :: 0 <= i < n ==> !p(i)
    ensures Where(n, p) == []
  {
    if n > 0 {
      WhereNone(n - 1, p);
    }
  }

  lemma OnlyOnePlausible(word: Poly, nsym: nat, data: Poly)
    requires nsym <= |word| <= BLOCK && Plausible(data, word, nsym)
    ensures forall d: Poly :: Plausible(d, word, nsym) ==> d == data
  {
    hide IsCodeword, Distance;
    var a: Poly :| |a| == |word| && IsCodeword(a, nsym) && 2 * Distance(word, a) <= nsym && data == a[..|word| - nsym];
    forall d: Poly | Plausible(d, word, nsym) ensures d == data {
      var b: Poly :| |b| == |word| && IsCodeword(b, nsym) && 2 * Distance(word, b) <= nsym && d == b[..|word| - nsym];
      NearestCodewordIsUnique(word, a, b, nsym);
    }
  }

  /** A plausible reading comes with an explanation of the syndromes. */
  lemma PlausibleErrors(d: Poly, word: Poly, synd: Poly, nsym: nat) returns (c: Poly)
    requires nsym <= |word| <= BLOCK && Plausible(d, word, nsym) && IsSyndromeOf(synd, word, nsym)
    ensures |c| == |word| && IsCodeword(c, nsym) && d == c[..|word| - nsym]
    ensures var ps := Errors(word, c);
      2 * |ps| <= nsym && Explains(Values(word, c, ps), Locators(ps, |word|), synd)
  {
    hide IsCodeword, Explains, Errors;
    c :| |c| == |word| && IsCodeword(c, nsym) && 2 * Distance(word, c) <= nsym && d == c[..|word| - nsym];
    SyndromesExplained(word, c, synd, nsym);
  }

  // ---------- a page: blocks of 255 - nsym data bytes ----------

  function DataPerBlock(nsym: nat): (r: nat)
    requires nsym <= BLOCK
  {
    BLOCK - nsym
  }

  function DivCeil(n: nat, k: nat): (r: nat)
    requires k > 0
  {
    (n + k - 1) / k
  }

  function ParityLen(dataLen: nat, nsym: nat): (r: nat)
    requires 1 <= nsym < BLOCK
  {
    DivCeil(dataLen, DataPerBlock(nsym)) * nsym
  }

  /** The length of the first block. */
  function FirstBlock(dataLen: nat, nsym: nat): (m: nat)
    requires 1 <= nsym < BLOCK
    ensures m <= dataLen && (dataLen > 0 ==> m > 0) && m + nsym <= BLOCK
  {
    if dataLen < DataPerBlock(nsym) then dataLen else DataPerBlock(nsym)
  }

  lemma ParityLenStep(n: nat, nsym: nat)
    requires 1 <= nsym < BLOCK
    ensures ParityLen(0, nsym) == 0
    ensures n > 0 ==> ParityLen(n, nsym) == nsym + ParityLen(n - FirstBlock(n, nsym), nsym)
  {
    hide DivCeil;
    var k := DataPerBlock(nsym);
    DivCeilSmall(n, k);
    DivCeilSmall(0, k);
    if n > k {
      var c := DivCeil(n - k, k);
      DivCeilStep(n, k);
      assert (c + 1) * nsym == nsym + c * nsym;
    }
  }

  lemma DivCeilSmall(n: nat, k: nat)
    requires k > 0
    ensures n == 0 ==> DivCeil(n, k) == 0
    ensures 0 < n <= k ==> DivCeil(n, k) == 1
  {
    if n == 0 {
      QuotientIs(n + k - 1, k, 0, k - 1);
    } else if n <= k {
      QuotientIs(n + k - 1, k, 1, n - 1);
    }
  }

  lemma DivCeilStep(n: nat, k: nat)
    requires n >= k > 0
    ensures DivCeil(n, k) == DivCeil(n - k, k) + 1
  {
    var a := n + k - 1;
    var q, r := (a - k) / k, (a - k) % k;
    assert a == (q + 1) * k + r;
    QuotientIs(a, k, q + 1, r);
  }

  lemma QuotientIs(a: nat, k: nat, q: nat, r: nat)
    requires 0 <= r < k && a == q * k + r
    ensures a / k == q
  {
    var q', r' := a / k, a % k;
    assert a == k * q' + r';
    assert (q' - q) * k == k * q' - q * k;
    SmallMultiple(q' - q, k, r - r');
  }

  lemma SmallMultiple(d: int, k: int, e: int)
    requires d * k == e && -k < e < k
    ensures d == 0
  {
    if d > 0 {
      MulAtLeast(d, 1, k, k);
    }
  }

  /** Block by block, data and parity form codewords. */
  ghost predicate IsParityOf(parity: Poly, data: Poly, nsym: nat)
    requires 1 <= nsym < BLOCK
    decreases |data|
  {
    if |data| == 0 then parity == []
    else
      var m := FirstBlock(|data|, nsym);
      |parity| >= nsym && IsCodeword(data[..m] + parity[..nsym], nsym) && IsParityOf(parity[nsym..], data[m..], nsym)
  }

  /** Two pages differ in at most nsym / 2 bytes of each codeword, data or parity. */
  ghost predicate WithinBudget(data: Poly, parity: Poly, data': Poly, parity': Poly, nsym: nat)
    requires 1 <= nsym < BLOCK
    decreases |data|
  {
    && |data| == |data'| && |parity| == |parity'|
    && (|data| > 0 ==>
      var m := FirstBlock(|data|, nsym);
      && |parity| >= nsym
      && 2 * Distance(data[..m] + parity[..nsym], data'[..m] + parity'[..nsym]) <= nsym
      && WithinBudget(data[m..], parity[nsym..], data'[m..], parity'[nsym..], nsym))
  }

  /** The bytes of a page that the parity puts beyond doubt: block by block plausible. */
  ghost predicate PlausiblePage(result: Poly, data: Poly, parity: Poly, nsym: nat)
    requires 1 <= nsym < BLOCK
    decreases |data|
  {
    && |result| == |data|
    && (|data| > 0 ==>
      var m := FirstBlock(|data|, nsym);
      && |parity| >= nsym
      && Plausible(result[..m], data[..m] + parity[..nsym], nsym)
      && PlausiblePage(result[m..], data[m..], parity[nsym..], nsym))
  }

  /** Parity for the rest of the page, appended to what is encoded, is parity for the page. */
  ghost predicate EncodedSoFar(out: Poly, data: Poly, at: nat, nsym: nat)
    requires 1 <= nsym < BLOCK && at <= |data|
  {
    forall rest: Poly {:trigger out + rest} ::
      IsParityOf(rest, data[at..], nsym) ==> IsParityOf(out + rest, data, nsym)
  }

  lemma EncodingStarts(data: Poly, nsym: nat)
    requires 1 <= nsym < BLOCK
    ensures EncodedSoFar([], data, 0, nsym)
  {
    hide IsParityOf;
    assert data[0..] == data;
    forall rest: Poly ensures [] + rest == rest {}
  }

  lemma EncodingAdvances(out: Poly, data: Poly, at: nat, nsym: nat, p: Poly)
    requires 1 <= nsym < BLOCK && at < |data| && |p| == nsym
    requires EncodedSoFar(out, data, at, nsym)
    requires IsCodeword(data[at..at + FirstBlock(|data| - at, nsym)] + p, nsym)
    ensures EncodedSoFar(out + p, data, at + FirstBlock(|data| - at, nsym), nsym)
  {
    hide IsCodeword, FirstBlock;
    var m := FirstBlock(|data| - at, nsym);
    assert data[at..][..m] == data[at..at + m] && data[at..][m..] == data[at + m..];
    forall rest: Poly | IsParityOf(rest, data[at + m..], nsym)
      ensures IsParityOf(out + p + rest, data, nsym)
    {
      assert (p + rest)[..nsym] == p && (p + rest)[nsym..] == rest;
      assert IsParityOf(p + rest, data[at..], nsym);
      assert out + (p + rest) == out + p + rest;
    }
  }

  lemma EncodingEnds(out: Poly, data: Poly, nsym: nat)
    requires 1 <= nsym < BLOCK
    requires EncodedSoFar(out, data, |data|, nsym)
    ensures IsParityOf(out, data, nsym)
  {
    assert IsParityOf([], data[|data|..], nsym);
    assert out + [] == out;
  }

  /** The parity of a page; the contract fixes it completely (`ParityIsUnique`). */
  method Parity(data: Poly, nsym: nat) returns (out: Poly)
    requires 1 <= nsym < BLOCK
    ensures |out| == ParityLen(|data|, nsym)
    ensures IsParityOf(out, data, nsym)
  {
    hide IsCodeword, EncodedSoFar, IsParityOf;
    out := [];
    var at := 0;
    EncodingStarts(data, nsym);
    ParityLenStep(|data|, nsym);
    while at < |data|
      invariant at <= |data|
      invariant |out| + ParityLen(|data| - at, nsym) == ParityLen(|data|, nsym)
      invariant EncodedSoFar(out, data, at, nsym)
    {
      var m := FirstBlock(|data| - at, nsym);
      var p := EncodeBlock(data[at..at + m], nsym);
      ParityLenStep(|data| - at, nsym);
      EncodingAdvances(out, data, at, nsym, p);
      out := out + p;
      at := at + m;
    }
    ParityLenStep(0, nsym);
    EncodingEnds(out, data, nsym);
  }

  lemma {:induction false} ParityIsUnique(p: Poly, q: Poly, data: Poly, nsym: nat)
    requires 1 <= nsym < BLOCK
    requires IsParityOf(p, data, nsym) && IsParityOf(q, data, nsym)
    ensures p == q
    decreases |data|
  {
    hide IsCodeword;
    if |data| > 0 {
      var m := FirstBlock(|data|, nsym);
      var a, b := data[..m] + p[..nsym], data[..m] + q[..nsym];
      WhereMonotone(|a|, i => 0 <= i < |a| && a[i] != b[i], i => m <= i);
      CountFrom(|a|, m);
      CloseCodewordsAreEqual(a, b, nsym);
      assert p[..nsym] == a[m..] && q[..nsym] == b[m..];
      ParityIsUnique(p[nsym..], q[nsym..], data[m..], nsym);
      assert p == p[..nsym] + p[nsym..] && q == q[..nsym] + q[nsym..];
    }
  }

  lemma {:induction false} CountFrom(n: nat, m: nat)
    requires m <= n
    ensures |Where(n, i => m <= i)| == n - m
  {
    if n > m {
      CountFrom(n - 1, m);
    } else {
      WhereNone(n, i => m <= i);
    }
  }

  /** The words read are a damaged form of an encoded page, within the budget. */
  ghost predicate Recoverable(original: Poly, data: Poly, parity: Poly, nsym: nat)
    requires 1 <= nsym < BLOCK
  {
    exists p: Poly :: IsParityOf(p, original, nsym) && WithinBudget(data, parity, original, p, nsym)
  }

  lemma RecoverableStep(original: Poly, data: Poly, parity: Poly, nsym: nat)
    requires 1 <= nsym < BLOCK && |data| > 0 && Recoverable(original, data, parity, nsym)
    ensures var m := FirstBlock(|data|, nsym);
      && |original| == |data| && |parity| >= nsym
      && Plausible(original[..m], data[..m] + parity[..nsym], nsym)
      && Recoverable(original[m..], data[m..], parity[nsym..], nsym)
  {
    hide IsCodeword, Distance;
    var p: Poly :| IsParityOf(p, original, nsym) && WithinBudget(data, parity, original, p, nsym);
    var m := FirstBlock(|data|, nsym);
    var c := original[..m] + p[..nsym];
    assert c[..m] == original[..m];
    assert IsParityOf(p[nsym..], original[m..], nsym);
  }

  /**
    A page read back.  Within the budget the original data is returned; whatever is
    returned is plausible; the only failures are a parity of the wrong length and a
    block with nothing plausible in reach.
  */
  method Correct(data: Poly, parity: Poly, nsym: nat) returns (r: Option<Poly>)
    requires 1 <= nsym < BLOCK
    ensures forall original: Poly :: Recoverable(original, data, parity, nsym) ==> r == Some(original)
    ensures r.Some? ==> PlausiblePage(r.value, data, parity, nsym)
    ensures |data| > 0 && |parity| != ParityLen(|data|, nsym) ==> r.None?
    ensures |data| == 0 ==> r == if |parity| == 0 || |parity| == nsym then Some([]) else None
  {
    hide IsCodeword, Plausible, Recoverable, CorrectSoFar, PlausiblePage;
    var k := DataPerBlock(nsym);
    var c := DivCeil(|data|, k);
    var nblocks := if c > 1 then c else 1;
    forall original: Poly | Recoverable(original, data, parity, nsym)
      ensures |original| == |data| && |parity| == ParityLen(|data|, nsym)
    {
      RecoverableLengths(original, data, parity, nsym);
    }
    ParityLenStep(|data|, nsym);
    if |parity| != nblocks * nsym && !(|data| == 0 && |parity| == 0) {
      return None;
    }
    if |data| == 0 {
      CorrectionStarts(data, parity, nsym);
      CorrectionEnds([], data, parity, 0, nsym);
      return Some([]);
    }
    assert |parity| == ParityLen(|data|, nsym);
    var out: Poly := [];
    var at, pat := 0, 0;
    CorrectionStarts(data, parity, nsym);
    while at < |data|
      invariant at <= |data| && pat <= |parity|
      invariant |parity| - pat == ParityLen(|data| - at, nsym)
      invariant CorrectSoFar(out, data, at, parity, pat, nsym)
    {
      var m := FirstBlock(|data| - at, nsym);
      ParityLenStep(|data| - at, nsym);
      var fixed := DecodeBlock(data[at..at + m], parity[pat..pat + nsym]);
      CorrectionAdvances(out, data, at, parity, pat, nsym, fixed);
      if fixed.None? {
        return None;
      }
      out := out + fixed.value;
      at, pat := at + m, pat + nsym;
    }
    CorrectionEnds(out, data, parity, pat, nsym);
    return Some(out);
  }

  /** What is settled once the blocks before `at` are corrected. */
  ghost predicate CorrectSoFar(out: Poly, data: Poly, at: nat, parity: Poly, pat: nat, nsym: nat)
    requires 1 <= nsym < BLOCK && at <= |data| && pat <= |parity|
  {
    && (forall original: Poly :: Recoverable(original, data, parity, nsym) ==>
      && |original| == |data| && out == original[..at]
      && Recoverable(original[at..], data[at..], parity[pat..], nsym))
    && (forall rest: Poly {:trigger out + rest} ::
      PlausiblePage(rest, data[at..], parity[pat..], nsym) ==> PlausiblePage(out + rest, data, parity, nsym))
  }

  lemma CorrectionStarts(data: Poly, parity: Poly, nsym: nat)
    requires 1 <= nsym < BLOCK
    ensures CorrectSoFar([], data, 0, parity, 0, nsym)
  {
    hide Recoverable, PlausiblePage;
    assert data[0..] == data && parity[0..] == parity;
    forall original: Poly | Recoverable(original, data, parity, nsym) ensures |original| == |data| {
      RecoverableLengths(original, data, parity, nsym);
    }
    forall original: Poly | Recoverable(original, data, parity, nsym)
      ensures Recoverable(original[0..], data[0..], parity[0..], nsym) && original[..0] == []
    {
      assert original[0..] == original;
    }
    forall rest: Poly ensures [] + rest == rest {}
  }

  lemma CorrectionAdvances(out: Poly, data: Poly, at: nat, parity: Poly, pat: nat, nsym: nat, fixed: Option<Poly>)
    requires 1 <= nsym < BLOCK && at < |data| && pat + nsym <= |parity|
    requires CorrectSoFar(out, data, at, parity, pat, nsym)
    requires var m := FirstBlock(|data| - at, nsym);
      var word := data[at..at + m] + parity[pat..pat + nsym];
      && (fixed.Some? ==> Plausible(fixed.value, word, nsym))
      && (forall d: Poly :: Plausible(d, word, nsym) ==> fixed == Some(d))
    ensures fixed.None? ==> forall original: Poly :: !Recoverable(original, data, parity, nsym)
    ensures fixed.Some? ==>
      CorrectSoFar(out + fixed.value, data, at + FirstBlock(|data| - at, nsym), parity, pat + nsym, nsym)
  {
    hide Recoverable, PlausiblePage, Plausible, FirstBlock;
    var m := FirstBlock(|data| - at, nsym);
    var at', pat' := at + m, pat + nsym;
    assert data[at..][..m] == data[at..at'] && data[at..][m..] == data[at'..];
    assert parity[pat..][..nsym] == parity[pat..pat'] && parity[pat..][nsym..] == parity[pat'..];
    forall original: Poly | Recoverable(original, data, parity, nsym)
      ensures fixed == Some(original[at..at'])
      ensures |original| == |data| && Recoverable(original[at'..], data[at'..], parity[pat'..], nsym)
      ensures out + original[at..at'] == original[..at']
    {
      RecoverableStep(original[at..], data[at..], parity[pat..], nsym);
      assert original[at..][..m] == original[at..at'] && original[at..][m..] == original[at'..];
    }
    if fixed.Some? {
      PlausibleLength(fixed.value, data[at..at'] + parity[pat..pat'], nsym);
      forall rest: Poly | PlausiblePage(rest, data[at'..], parity[pat'..], nsym)
        ensures PlausiblePage(out + fixed.value + rest, data, parity, nsym)
      {
        PlausiblePageStep(fixed.value, rest, data[at..], parity[pat..], nsym);
        assert out + (fixed.value + rest) == out + fixed.value + rest;
      }
    }
  }

  lemma PlausiblePageStep(d: Poly, rest: Poly, data: Poly, parity: Poly, nsym: nat)
    requires 1 <= nsym < BLOCK && |data| > 0 && |parity| >= nsym
    requires var m := FirstBlock(|data|, nsym);
      && |d| == m && Plausible(d, data[..m] + parity[..nsym], nsym)
      && PlausiblePage(rest, data[m..], parity[nsym..], nsym)
    ensures PlausiblePage(d + rest, data, parity, nsym)
  {
    hide Plausible;
    var m := FirstBlock(|data|, nsym);
    assert (d + rest)[..m] == d && (d + rest)[m..] == rest;
  }

  lemma CorrectionEnds(out: Poly, data: Poly, parity: Poly, pat: nat, nsym: nat)
    requires 1 <= nsym < BLOCK && pat <= |parity|
    requires CorrectSoFar(out, data, |data|, parity, pat, nsym)
    ensures forall original: Poly :: Recoverable(original, data, parity, nsym) ==> out == original
    ensures PlausiblePage(out, data, parity, nsym)
  {
    hide Recoverable;
    assert PlausiblePage([], data[|data|..], parity[pat..], nsym);
    assert out + [] == out;
    forall original: Poly | Recoverable(original, data, parity, nsym) ensures out == original {
      assert original[..|data|] == original;
    }
  }

  lemma PlausibleLength(d: Poly, word: Poly, nsym: nat)
    requires nsym <= |word| && Plausible(d, word, nsym)
    ensures |d| == |word| - nsym
  {
  }

  lemma {:induction false} RecoverableLengths(original: Poly, data: Poly, parity: Poly, nsym: nat)
    requires 1 <= nsym < BLOCK && Recoverable(original, data, parity, nsym)
    ensures |original| == |data| && |parity| == ParityLen(|data|, nsym)
  {
    hide IsCodeword, Distance;
    var p: Poly :| IsParityOf(p, original, nsym) && WithinBudget(data, parity, original, p, nsym);
    ParityHasItsLength(p, original, nsym);
  }

  lemma {:induction false} ParityHasItsLength(p: Poly, data: Poly, nsym: nat)
    requires 1 <= nsym < BLOCK && IsParityOf(p, data, nsym)
    ensures |p| == ParityLen(|data|, nsym)
    decreases |data|
  {
    hide IsCodeword;
    ParityLenStep(|data|, nsym);
    if |data| > 0 {
      ParityHasItsLength(p[nsym..], data[FirstBlock(|data|, nsym)..], nsym);
    }
  }

  /** Whatever correction can return is an encoded page that the damage left within the budget. */
  lemma {:induction false} PlausibleIsRecoverable(d: Poly, data: Poly, parity: Poly, nsym: nat)
    requires 1 <= nsym < BLOCK && |parity| == ParityLen(|data|, nsym) && PlausiblePage(d, data, parity, nsym)
    ensures Recoverable(d, data, parity, nsym)
    decreases |data|
  {
    hide IsCodeword, Distance, ParityLen;
    ParityLenStep(|data|, nsym);
    if |data| == 0 {
      assert IsParityOf([], d, nsym) && WithinBudget(data, parity, d, [], nsym);
    } else {
      var m := FirstBlock(|data|, nsym);
      PlausibleIsRecoverable(d[m..], data[m..], parity[nsym..], nsym);
      var p: Poly :| IsParityOf(p, d[m..], nsym) && WithinBudget(data[m..], parity[nsym..], d[m..], p, nsym);
      var word := data[..m] + parity[..nsym];
      var c: Poly :| |c| == |word| && IsCodeword(c, nsym) && 2 * Distance(word, c) <= nsym && d[..m] == c[..|word| - nsym];
      var q := c[m..] + p;
      assert q[..nsym] == c[m..] && q[nsym..] == p;
      assert d[..m] + q[..nsym] == c;
      assert IsParityOf(q, d, nsym) && WithinBudget(data, parity, d, q, nsym);
    }
  }

  /** No damage is within the budget of two different pages. */
  lemma {:induction false} SameRecoverable(a: Poly, b: Poly, data: Poly, parity: Poly, nsym: nat)
    requires 1 <= nsym < BLOCK && Recoverable(a, data, parity, nsym) && Recoverable(b, data, parity, nsym)
    ensures a == b
    decreases |data|
  {
    hide IsCodeword, Distance, Recoverable, Plausible;
    RecoverableLengths(a, data, parity, nsym);
    RecoverableLengths(b, data, parity, nsym);
    if |data| > 0 {
      RecoverableStep(a, data, parity, nsym);
      RecoverableStep(b, data, parity, nsym);
      var m := FirstBlock(|data|, nsym);
      OnlyOnePlausible(data[..m] + parity[..nsym], nsym, a[..m]);
      SameRecoverable(a[m..], b[m..], data[m..], parity[nsym..], nsym);
      assert a == a[..m] + a[m..] && b == b[..m] + b[m..];
    }
  }
}
