/** The systematic encoder of `src/ecc.rs`: the generator polynomial and division by it. */
module Encoder {
  import opened Gf256
  import opened Polynomials
  import opened PolynomialLoops
  import opened Codewords

  /** The product of (x - GEN^i) for i below nsym. */
  function Generator(nsym: nat): (g: Poly)
    ensures |g| == nsym + 1
  {
    if nsym == 0 then [1] else Product(Generator(nsym - 1), [1, Pow(nsym - 1)])
  }

  lemma {:induction false} GeneratorIsMonic(nsym: nat)
    ensures Generator(nsym)[0] == 1
  {
    hide Mul, Add, Sum, Scaled, Pow;
    if nsym > 0 {
      GeneratorIsMonic(nsym - 1);
      var g, r := Generator(nsym - 1), Pow(nsym - 1);
      assert [1, r] == [1] + [r];
      ProductUnfold(g, [1], r);
      assert Product(g, [1]) == Scaled(g, 1);
      SumAt(Scaled(g, 1) + [0], Scaled(g, r), 0);
      MulOne(1);
      AddLaws(1, 0, 0);
    }
  }

  lemma EvalLinear(r: bv8, x: bv8)
    ensures Eval([1, r], x) == Add(x, r)
  {
    hide Mul, Add;
    EvalAppend([1], r, x);
    assert [1] + [r] == [1, r];
    EvalAppend([], 1, x);
    assert [] + [1 as bv8] == [1];
    MulNonzero(0, x);
    AddLaws(1, 0, 0);
    MulOne(x);
  }

  /** The first nsym powers of the generator are its roots. */
  lemma {:induction false} GeneratorRoots(nsym: nat, n: nat)
    requires n < nsym
    ensures Eval(Generator(nsym), Pow(n)) == 0
  {
    hide Mul, Add, Product, Pow, Eval;
    var r, x := Pow(nsym - 1), Pow(n);
    EvalProduct(Generator(nsym - 1), [1, r], x);
    EvalLinear(r, x);
    MulNonzero(Eval(Generator(nsym - 1), x), Add(x, r));
    if n == nsym - 1 {
      AddLaws(x, x, 0);
    } else {
      GeneratorRoots(nsym - 1, n);
    }
  }

  method GenPoly(nsym: nat) returns (g: Poly)
    ensures g == Generator(nsym)
  {
    g := [1];
    for i := 0 to nsym
      invariant g == Generator(i)
    {
      g := PolyMul(g, [1, Pow(i)]);
    }
  }

  lemma PartAt(data: Poly, parity: Poly, i: nat)
    requires i < |data| + |parity|
    ensures (data + parity)[i] == Add(At(data + Zeros(|parity|), i), At(Zeros(|data|) + parity, i))
  {
    hide Mul, Add;
    if i < |data| {
      AddLaws(data[i], 0, 0);
    } else {
      AddLaws(parity[i - |data|], 0, 0);
    }
  }

  lemma SumOfSameLength(a: Poly, b: Poly, r: Poly)
    requires |a| == |b| == |r|
    requires forall i :: 0 <= i < |r| ==> r[i] == Add(At(a, i), At(b, i))
    ensures r == Sum(a, b)
  {
    hide Add, Sum, At;
    SumIsPointwise(a, b, r);
  }

  /** Where one of two polynomials is zero, their sum is the other. */
  lemma SumOfParts(data: Poly, parity: Poly)
    ensures Sum(data + Zeros(|parity|), Zeros(|data|) + parity) == data + parity
  {
    hide Mul, Add, Sum, At, Zeros;
    forall i | 0 <= i < |data + parity|
      ensures (data + parity)[i] == Add(At(data + Zeros(|parity|), i), At(Zeros(|data|) + parity, i))
    {
      PartAt(data, parity, i);
    }
    SumOfSameLength(data + Zeros(|parity|), Zeros(|data|) + parity, data + parity);
  }

  lemma ParityCompletes(data: Poly, parity: Poly, x: bv8)
    requires Eval(Zeros(|data|) + parity, x) == Eval(data + Zeros(|parity|), x)
    ensures Eval(data + parity, x) == 0
  {
    hide Mul, Add, Sum, Eval, Zeros;
    var a, b := data + Zeros(|parity|), Zeros(|data|) + parity;
    SumOfParts(data, parity);
    EvalSum(a, b, x);
    AddLaws(Eval(a, x), Eval(b, x), 0);
  }

  /** Dividing leaves the value at every root of the divisor unchanged. */
  ghost predicate SameAtRoots(word: Poly, g: Poly, out: Poly, i: nat)
    requires i <= |out|
  {
    forall x {:trigger Eval(word, x)} :: Eval(g, x) == 0 ==> Eval(Pending(out, i), x) == Eval(word, x)
  }

  lemma DivisionKeepsRootValues(word: Poly, g: Poly, out: Poly, out': Poly, i: nat)
    requires |g| > 0 && g[0] == 1 && i + |g| <= |out| == |out'|
    requires SameAtRoots(word, g, out, i)
    requires out' == AddRow(out, g[1..], out[i], i + 1)
    ensures SameAtRoots(word, g, out', i + 1)
  {
    hide Mul, Add, AddRow, Eval, Pending;
    DivisionStep(out, out', g, i);
    forall x | Eval(g, x) == 0 ensures Eval(Pending(out', i + 1), x) == Eval(word, x) {
      EvalAddRow(Pending(out, i), g, out[i], i, x);
      MulNonzero(0, out[i]);
      MulNonzero(0, Power(x, |out| - i - |g|));
      AddLaws(Eval(Pending(out, i), x), 0, 0);
    }
  }

  /** The parity of a block completes it to a codeword. */
  method EncodeBlock(data: Poly, nsym: nat) returns (parity: Poly)
    ensures |parity| == nsym
    ensures IsCodeword(data + parity, nsym)
  {
    hide Mul, Add, AddRow, Eval, Pending, Generator;
    var gp := GenPoly(nsym);
    GeneratorIsMonic(nsym);
    ghost var word := data + Zeros(nsym);
    var out := new bv8[|data| + nsym](i requires 0 <= i < |data| + nsym => if i < |data| then data[i] else 0);
    assert out[..] == word;
    PendingStarts(word);
    for i := 0 to |data|
      invariant SameAtRoots(word, gp, out[..], i)
    {
      ghost var before := out[..];
      var coef := out[i];
      if coef != 0 {
        AddRowInPlace(out, gp[1..], coef, i + 1);
      } else {
        AddRowOfZero(before, gp[1..], coef, i + 1);
      }
      DivisionKeepsRootValues(word, gp, before, out[..], i);
    }
    parity := out[|data|..];
    PendingEnds(out[..], |data|, parity);
    forall n | 0 <= n < nsym ensures Eval(data + parity, Pow(n)) == 0 {
      GeneratorRoots(nsym, n);
      assert Eval(word, Pow(n)) == Eval(Pending(out[..], |data|), Pow(n));
      ParityCompletes(data, parity, Pow(n));
    }
  }

  lemma PendingStarts(word: Poly)
    ensures Pending(word, 0) == word
  {
  }

  lemma PendingEnds(out: Poly, k: nat, parity: Poly)
    requires k <= |out| && parity == out[k..]
    ensures Pending(out, k) == Zeros(k) + parity
  {
  }
}
