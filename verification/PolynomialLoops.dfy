/** The polynomial loops of `src/ecc.rs`, each proved to compute its specification function. */
module PolynomialLoops {
  import opened Gf256
  import opened Polynomials

  function At(p: Poly, i: int): (r: bv8) {
    if 0 <= i < |p| then p[i] else 0
  }

  lemma {:induction false} SumAt(p: Poly, q: Poly, i: nat)
    requires i < |Sum(p, q)|
    ensures Sum(p, q)[i] == Add(At(p, i - (|Sum(p, q)| - |p|)), At(q, i - (|Sum(p, q)| - |q|)))
    decreases |p|
  {
    hide Add;
    AddLaws(At(p, i), 0, 0);
    AddLaws(At(q, i), 0, 0);
    if |p| > 0 && |q| > 0 && i < |Sum(p, q)| - 1 {
      SumAt(p[..|p| - 1], q[..|q| - 1], i);
    }
  }

  lemma SumIsPointwise(p: Poly, q: Poly, r: Poly)
    requires |r| == |Sum(p, q)|
    requires forall i :: 0 <= i < |r| ==> r[i] == Add(At(p, i - (|r| - |p|)), At(q, i - (|r| - |q|)))
    ensures r == Sum(p, q)
  {
    hide Add, At, Sum;
    forall i | 0 <= i < |r| ensures r[i] == Sum(p, q)[i] {
      SumAt(p, q, i);
    }
  }

  method PolyAdd(p: Poly, q: Poly) returns (sum: Poly)
    ensures sum == Sum(p, q)
  {
    hide Add;
    var n := if |p| >= |q| then |p| else |q|;
    var r := new bv8[n](i => 0);
    for i := 0 to |p|
      invariant forall k :: 0 <= k < n ==>
        r[k] == if n - |p| <= k < i + n - |p| then p[k - (n - |p|)] else 0
    {
      r[i + n - |p|] := p[i];
    }
    assert forall k :: 0 <= k < n ==> r[k] == At(p, k - (n - |p|));
    for i := 0 to |q|
      invariant forall k :: 0 <= k < n ==>
        r[k] == if n - |q| <= k < i + n - |q| then Add(At(p, k - (n - |p|)), q[k - (n - |q|)])
                else At(p, k - (n - |p|))
    {
      r[i + n - |q|] := Add(r[i + n - |q|], q[i]);
    }
    sum := r[..];
    forall k | 0 <= k < n ensures sum[k] == Add(At(p, k - (n - |p|)), At(q, k - (n - |q|))) {
      AddLaws(At(p, k - (n - |p|)), 0, 0);
    }
    SumIsPointwise(p, q, sum);
  }

  method PolyEval(poly: Poly, x: bv8) returns (y: bv8)
    requires |poly| > 0
    ensures y == Eval(poly, x)
  {
    hide Mul, Add;
    y := poly[0];
    MulNonzero(0, x);
    AddLaws(y, 0, 0);
    assert poly[..1] == [] + [poly[0]];
    EvalAppend([], poly[0], x);
    for i := 1 to |poly|
      invariant y == Eval(poly[..i], x)
    {
      assert poly[..i + 1] == poly[..i] + [poly[i]];
      EvalAppend(poly[..i], poly[i], x);
      y := Add(Mul(y, x), poly[i]);
    }
    assert poly[..|poly|] == poly;
  }

  /** The buffer after c * p has been added into it at index j. */
  function AddRow(buffer: Poly, p: Poly, c: bv8, j: nat): (r: Poly)
    ensures |r| == |buffer|
    ensures forall t :: 0 <= t < |r| ==>
      r[t] == if j <= t < j + |p| then Add(buffer[t], Mul(p[t - j], c)) else buffer[t]
  {
    seq(|buffer|, t requires 0 <= t < |buffer| =>
      if j <= t < j + |p| then Add(buffer[t], Mul(p[t - j], c)) else buffer[t])
  }

  lemma ProductUnfold(p: Poly, q: Poly, c: bv8)
    requires |p| > 0 && |q| > 0
    ensures Product(p, q + [c]) == Sum(Product(p, q) + [0], Scaled(p, c))
  {
    hide Sum, Scaled;
    assert (q + [c])[..|q|] == q;
  }

  lemma AddRowIsSum(a: Poly, p: Poly, c: bv8, j: nat, row: Poly)
    requires |a| == |row| == j + |p|
    requires forall t :: 0 <= t < |a| ==> row[t] == if j <= t then Add(a[t], Mul(p[t - j], c)) else a[t]
    ensures row == Sum(a, Scaled(p, c))
  {
    hide Mul, Add, Sum;
    forall t | 0 <= t < |a| ensures row[t] == Sum(a, Scaled(p, c))[t] {
      SumAt(a, Scaled(p, c), t);
      AddLaws(a[t], 0, 0);
    }
  }

  /** Zeros behind the row stay as they are. */
  lemma AddRowBeforeZeros(a: Poly, p: Poly, c: bv8, j: nat, n: nat)
    requires |a| == j + |p|
    ensures AddRow(a + Zeros(n), p, c, j) == Sum(a, Scaled(p, c)) + Zeros(n)
  {
    hide Mul, Add, Sum, Scaled;
    AddRowIsSum(a, p, c, j, AddRow(a, p, c, j));
    var row := AddRow(a + Zeros(n), p, c, j);
    forall t | 0 <= t < |row|
      ensures row[t] == (AddRow(a, p, c, j) + Zeros(n))[t]
    {
    }
  }

  lemma ProductAppend(p: Poly, q: Poly, c: bv8, n: nat)
    requires |p| > 0 && |q| > 0
    ensures AddRow(Product(p, q) + Zeros(n + 1), p, c, |q|) == Product(p, q + [c]) + Zeros(n)
  {
    hide Product, Sum, Mul, Add, AddRow, Scaled;
    var a := Product(p, q) + [0];
    assert Product(p, q) + Zeros(n + 1) == a + Zeros(n);
    AddRowBeforeZeros(a, p, c, |q|, n);
    ProductUnfold(p, q, c);
  }

  lemma ProductByConstant(p: Poly, c: bv8)
    requires |p| > 0
    ensures Product(p, [c]) == Scaled(p, c)
  {
  }

  lemma ProductStart(p: Poly, c: bv8, n: nat)
    requires |p| > 0
    ensures AddRow(Zeros(|p| + n), p, c, 0) == Product(p, [c]) + Zeros(n)
  {
    hide Mul, Add, Scaled, AddRow, Zeros, Product;
    ProductByConstant(p, c);
    forall t | 0 <= t < |p| ensures AddRow(Zeros(|p| + n), p, c, 0)[t] == Scaled(p, c)[t] {
      AddLaws(Mul(p[t], c), 0, 0);
    }
  }

  /** The inner loop of the product and division loops: row j of the buffer gains c * p. */
  method AddRowInPlace(r: array<bv8>, p: Poly, c: bv8, j: nat)
    requires j + |p| <= r.Length
    modifies r
    ensures r[..] == AddRow(old(r[..]), p, c, j)
  {
    hide Mul, Add;
    for i := 0 to |p|
      invariant forall t :: 0 <= t < r.Length ==>
        r[t] == if j <= t < j + i then Add(old(r[t]), Mul(p[t - j], c)) else old(r[t])
    {
      r[i + j] := Add(r[i + j], Mul(p[i], c));
    }
  }

  /** The buffer once the first j coefficients of q have been multiplied in. */
  function MulBuffer(p: Poly, q: Poly, j: nat): (r: Poly)
    requires |p| > 0 && j <= |q| && |q| > 0
  {
    if j == 0 then Zeros(|p| + (|q| - 1)) else Product(p, q[..j]) + Zeros(|q| - j)
  }

  lemma MulBufferStep(p: Poly, q: Poly, j: nat)
    requires |p| > 0 && j < |q|
    ensures AddRow(MulBuffer(p, q, j), p, q[j], j) == MulBuffer(p, q, j + 1)
  {
    hide Product, AddRow, Zeros;
    if j == 0 {
      ProductStart(p, q[0], |q| - 1);
      assert q[..1] == [q[0]];
    } else {
      ProductAppend(p, q[..j], q[j], |q| - j - 1);
      assert q[..j + 1] == q[..j] + [q[j]];
    }
  }

  lemma MulBufferEnds(p: Poly, q: Poly)
    requires |p| > 0 && |q| > 0
    ensures MulBuffer(p, q, |q|) == Product(p, q)
  {
    hide Product;
    assert q[..|q|] == q;
    assert Product(p, q) + Zeros(0) == Product(p, q);
  }

  method PolyMul(p: Poly, q: Poly) returns (product: Poly)
    requires |p| > 0 && |q| > 0
    ensures product == Product(p, q)
  {
    hide Mul, Add, Product, AddRow;
    var r := new bv8[|p| + |q| - 1](i => 0);
    assert r[..] == MulBuffer(p, q, 0);
    hide MulBuffer;
    for j := 0 to |q|
      invariant r[..] == MulBuffer(p, q, j)
    {
      MulBufferStep(p, q, j);
      AddRowInPlace(r, p, q[j], j);
    }
    MulBufferEnds(p, q);
    product := r[..];
  }

  // ---------- synthetic division ----------

  lemma {:induction false} EvalAddRow(a: Poly, p: Poly, c: bv8, j: nat, x: bv8)
    requires j + |p| <= |a|
    ensures Eval(AddRow(a, p, c, j), x)
         == Add(Eval(a, x), Mul(Mul(Eval(p, x), c), Power(x, |a| - j - |p|)))
    decreases |a|
  {
    hide Mul, Add, AddRow, Scaled, Sum;
    var row, last := AddRow(a, p, c, j), |a| - 1;
    var e := Mul(Eval(p, x), c);
    if |a| == j + |p| {
      AddRowIsSum(a, p, c, j, row);
      EvalSum(a, Scaled(p, c), x);
      EvalScaled(p, c, x);
      MulOne(e);
    } else {
      var pw := Power(x, |a| - 1 - j - |p|);
      EvalAddRow(a[..last], p, c, j, x);
      assert row[..last] == AddRow(a[..last], p, c, j);
      MulDistributes(x, Eval(a[..last], x), Mul(e, pw));
      MulAssociates(e, pw, x);
      AddLaws(Mul(Eval(a[..last], x), x), Mul(Mul(e, pw), x), a[last]);
      AddLaws(Mul(Mul(e, pw), x), a[last], 0);
      AddLaws(Mul(Eval(a[..last], x), x), a[last], Mul(Mul(e, pw), x));
    }
  }

  /** What remains to be divided once the first i coefficients are done. */
  function Pending(out: Poly, i: nat): (r: Poly)
    requires i <= |out|
    ensures |r| == |out|
  {
    Zeros(i) + out[i..]
  }

  /** One division step cancels coefficient i exactly when the divisor is monic. */
  lemma DivisionStep(out: Poly, out': Poly, d: Poly, i: nat)
    requires |d| > 0 && d[0] == 1 && i + |d| <= |out| == |out'|
    requires out' == AddRow(out, d[1..], out[i], i + 1)
    ensures out'[..i + 1] == out[..i + 1]
    ensures Pending(out', i + 1) == AddRow(Pending(out, i), d, out[i], i)
  {
    hide Mul, Add, AddRow;
    var a, b := Pending(out', i + 1), AddRow(Pending(out, i), d, out[i], i);
    MulOne(out[i]);
    AddLaws(out[i], out[i], 0);
    forall t | 0 <= t < |out| ensures a[t] == b[t] {
      if i < t < i + |d| {
        assert d[1..][t - (i + 1)] == d[t - i];
      }
    }
  }

  /** AddRow with the zero coefficients of p skipped, as the source's division loop does. */
  method ReduceRow(r: array<bv8>, p: Poly, c: bv8, j: nat)
    requires j + |p| <= r.Length
    modifies r
    ensures r[..] == AddRow(old(r[..]), p, c, j)
  {
    hide Mul, Add;
    for i := 0 to |p|
      invariant forall t :: 0 <= t < r.Length ==>
        r[t] == if j <= t < j + i then Add(old(r[t]), Mul(p[t - j], c)) else old(r[t])
    {
      MulNonzero(p[i], c);
      AddLaws(r[i + j], 0, 0);
      if p[i] != 0 {
        r[i + j] := Add(r[i + j], Mul(p[i], c));
      }
    }
  }

  lemma AddRowOfZero(a: Poly, p: Poly, c: bv8, j: nat)
    requires j + |p| <= |a|
    requires c == 0 || AllZero(p)
    ensures AddRow(a, p, c, j) == a
  {
    hide Mul, Add, AddRow;
    forall t | 0 <= t < |a| ensures AddRow(a, p, c, j)[t] == a[t] {
      AddLaws(a[t], 0, 0);
      if j <= t < j + |p| {
        MulNonzero(p[t - j], c);
      }
    }
  }

  /** dividend = quotient so far * divisor * x^m + what is pending */
  ghost predicate DivisionSoFar(dividend: Poly, divisor: Poly, out: Poly, i: nat)
    requires |divisor| > 0 && |out| == |dividend| && i + |divisor| - 1 <= |out|
  {
    forall x {:trigger Eval(dividend, x)} ::
      Eval(dividend, x) == Add(Eval(Pending(out, i), x),
        Mul(Mul(Eval(out[..i], x), Eval(divisor, x)), Power(x, |out| - i - (|divisor| - 1))))
  }

  lemma DivisionAdvances(dividend: Poly, d: Poly, out: Poly, out': Poly, i: nat)
    requires |d| > 0 && d[0] == 1 && i + |d| <= |out| == |out'| == |dividend|
    requires DivisionSoFar(dividend, d, out, i)
    requires out' == AddRow(out, d[1..], out[i], i + 1)
    ensures DivisionSoFar(dividend, d, out', i + 1)
  {
    hide Mul, Add, AddRow, Eval, Pending;
    DivisionStep(out, out', d, i);
    forall x ensures Eval(dividend, x) == Add(Eval(Pending(out', i + 1), x),
        Mul(Mul(Eval(out'[..i + 1], x), Eval(d, x)), Power(x, |out| - i - 1 - (|d| - 1))))
    {
      var m := |out| - i - |d|;
      EvalAddRow(Pending(out, i), d, out[i], i, x);
      assert out'[..i + 1] == out[..i] + [out[i]];
      EvalAppend(out[..i], out[i], x);
      QuotientAdvances(Eval(Pending(out, i), x), Eval(out[..i], x), Eval(d, x), out[i], x, m);
    }
  }

  lemma QuotientAdvances(rest: bv8, q: bv8, d: bv8, c: bv8, x: bv8, m: nat)
    ensures Add(rest, Mul(Mul(q, d), Power(x, m + 1)))
         == Add(Add(rest, Mul(Mul(d, c), Power(x, m))), Mul(Mul(Add(Mul(q, x), c), d), Power(x, m)))
  {
    hide Mul, Add;
    var pw := Power(x, m);
    var row := Mul(Mul(d, c), pw);
    var up := Mul(Mul(Mul(q, x), d), pw);
    MulDistributes(d, Mul(q, x), c);
    MulDistributes(pw, Mul(Mul(q, x), d), Mul(c, d));
    MulCommutes(c, d);
    // (q d) (pw x) == ((q x) d) pw
    MulSwap(q, x, d);
    MulAssociates(Mul(q, d), x, pw);
    MulCommutes(x, pw);
    AddLaws(rest, row, Add(up, row));
    AddLaws(up, row, row);
    AddLaws(row, Add(up, row), 0);
    AddLaws(row, row, up);
    AddLaws(row, up, 0);
    AddLaws(up, 0, 0);
  }

  method PolyDiv(dividend: Poly, divisor: Poly) returns (quotient: Poly, remainder: Poly)
    requires |divisor| > 0 && divisor[0] == 1 && |dividend| >= |divisor| - 1
    ensures |quotient| + |remainder| == |dividend| && |remainder| == |divisor| - 1
    ensures forall x {:trigger Eval(dividend, x)} ::
      Eval(dividend, x) == Add(Mul(Eval(quotient, x), Eval(divisor, x)), Eval(remainder, x))
    ensures AllZero(divisor[1..]) ==> quotient + remainder == dividend
  {
    hide Mul, Add, AddRow, Eval, Pending;
    var out := new bv8[|dividend|](i requires 0 <= i < |dividend| => dividend[i]);
    assert out[..] == dividend;
    var n := |dividend| - (|divisor| - 1);
    assert DivisionSoFar(dividend, divisor, out[..], 0) by { DivisionStarts(dividend, divisor); }
    for i := 0 to n
      invariant DivisionSoFar(dividend, divisor, out[..], i)
      invariant AllZero(divisor[1..]) ==> out[..] == dividend
    {
      ghost var before := out[..];
      var coef := out[i];
      if coef != 0 {
        ReduceRow(out, divisor[1..], coef, i + 1);
      } else {
        AddRowOfZero(before, divisor[1..], coef, i + 1);
      }
      if AllZero(divisor[1..]) {
        AddRowOfZero(before, divisor[1..], coef, i + 1);
      }
      DivisionAdvances(dividend, divisor, before, out[..], i);
    }
    quotient, remainder := out[..n], out[n..];
    assert quotient + remainder == out[..];
    forall x ensures Eval(dividend, x) == Add(Mul(Eval(quotient, x), Eval(divisor, x)), Eval(remainder, x)) {
      assert out[..][..n] == quotient;
      DivisionEnds(out[..], n, x);
      MulOne(Mul(Eval(quotient, x), Eval(divisor, x)));
      AddLaws(Eval(remainder, x), Mul(Eval(quotient, x), Eval(divisor, x)), 0);
    }
  }

  lemma DivisionStarts(dividend: Poly, divisor: Poly)
    requires |divisor| > 0 && |dividend| >= |divisor| - 1
    ensures DivisionSoFar(dividend, divisor, dividend, 0)
  {
    hide Mul, Add;
    assert Pending(dividend, 0) == dividend;
    forall x ensures Mul(Mul(Eval(dividend[..0], x), Eval(divisor, x)), Power(x, |dividend| - (|divisor| - 1))) == 0 {
      MulNonzero(0, Eval(divisor, x));
      MulNonzero(0, Power(x, |dividend| - (|divisor| - 1)));
    }
    forall x ensures Add(Eval(dividend, x), 0) == Eval(dividend, x) {
      AddLaws(Eval(dividend, x), 0, 0);
    }
  }

  /** Leading zeros do not change the value. */
  lemma {:induction false} DivisionEnds(out: Poly, n: nat, x: bv8)
    requires n <= |out|
    ensures Eval(Pending(out, n), x) == Eval(out[n..], x)
    decreases |out|
  {
    hide Mul, Add;
    var p := Pending(out, n);
    if |out| == n {
      EvalZeros(p, x);
    } else {
      var last := |out| - 1;
      DivisionEnds(out[..last], n, x);
      assert p[..last] == Pending(out[..last], n);
      assert out[n..][..last - n] == out[..last][n..];
    }
  }
}
