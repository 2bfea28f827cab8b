/**
 Inversion of a symmetric positive definite matrix through its Cholesky factor: the factor
 is inverted row by row, and the inverse is the product of the transposed and the plain
 inverse factor. The result is a symmetric two-sided inverse.
 */
module SpdInverse {
  import opened RealSums
  import opened Matrices
  import opened Cholesky
  import opened PositiveDefiniteness

  ghost predicate Divisible(l: Mat, n: nat) {
    LowerTriangular(l, n) && forall i :: 0 <= i < n ==> l(i, i) != 0.0
  }

  /** Rows before i of l x are rows of the identity, and row i is from column j on; the rest of x is zero. */
  ghost predicate Inverting(l: Mat, x: Mat, n: nat, i: int, j: int) {
    && (forall p, q :: 0 <= p < n && 0 <= q < n && (q > p || p > i || (p == i && q < j)) ==> x(p, q) == 0.0)
    && (forall p, q :: 0 <= p < n && 0 <= q < n && (p < i || (p == i && j <= q)) ==> Mul(l, x, n)(p, q) == Identity()(p, q))
  }

  /** How one written entry changes l x. */
  lemma MulSet(l: Mat, x: Mat, n: nat, i: nat, j: nat, v: real, p: nat, q: nat)
    requires i < n && x(i, j) == 0.0
    ensures Mul(l, Set(x, i, j, v), n)(p, q) == Mul(l, x, n)(p, q) + (if q == j then l(p, i) * v else 0.0)
  {
    if q == j {
      DotSet(Row(l, p), Column(x, j), i, v, n);
      DotEqual(Row(l, p), Column(Set(x, i, j, v), j), Row(l, p), SetVec(Column(x, j), i, v), n);
    } else {
      DotEqual(Row(l, p), Column(Set(x, i, j, v), q), Row(l, p), Column(x, q), n);
    }
  }

  lemma InvertStep(l: Mat, x: Mat, n: nat, i: nat, j: nat, v: real)
    requires Divisible(l, n) && j <= i < n && Inverting(l, x, n, i, j + 1)
    requires Mul(l, x, n)(i, j) + l(i, i) * v == Identity()(i, j)
    ensures Inverting(l, Set(x, i, j, v), n, i, j)
  {
    var x' := Set(x, i, j, v);
    forall p, q | 0 <= p < n && 0 <= q < n && (p < i || (p == i && j <= q))
      ensures Mul(l, x', n)(p, q) == Identity()(p, q)
    {
      MulSet(l, x, n, i, j, v, p, q);
      if p < i {
        TimesZero(l(p, i), v);
      }
    }
  }

  /** A product of two rows of zeros is zero: entries of l x above the diagonal, or in an untouched column of row i. */
  lemma ProductAbove(l: Mat, x: Mat, n: nat, i: nat, q: nat)
    requires LowerTriangular(l, n) && i <= q < n
    requires forall k :: 0 <= k < q && k < n ==> x(k, q) == 0.0
    requires i == q ==> x(q, q) == 0.0
    ensures Mul(l, x, n)(i, q) == 0.0
  {
    forall k | 0 <= k < n
      ensures Product(Row(l, i), Column(x, q))(k) == 0.0
    {
      if k < q || (k == q && i == q) {
        assert x(k, q) == 0.0;
      } else {
        assert l(i, k) == 0.0;
      }
      ProductZero(Row(l, i), Column(x, q), k);
    }
    SumZero(Product(Row(l, i), Column(x, q)), n);
  }

  lemma StartRow(l: Mat, x: Mat, n: nat, i: nat)
    requires Divisible(l, n) && i < n && Inverting(l, x, n, i, 0)
    ensures i + 1 < n ==> Inverting(l, x, n, i + 1, i + 2)
  {
    if i + 1 < n {
      forall p, q | 0 <= p < n && 0 <= q < n && (p < i + 1 || (p == i + 1 && i + 2 <= q))
        ensures Mul(l, x, n)(p, q) == Identity()(p, q)
      {
        if p == i + 1 {
          ProductAbove(l, x, n, p, q);
        }
      }
    }
  }

  lemma FirstRow(l: Mat, x: Mat, n: nat)
    requires Divisible(l, n) && 0 < n && forall p, q :: 0 <= p < n && 0 <= q < n ==> x(p, q) == 0.0
    ensures Inverting(l, x, n, 0, 1)
  {
    forall q | 1 <= q < n
      ensures Mul(l, x, n)(0, q) == Identity()(0, q)
    {
      ProductAbove(l, x, n, 0, q);
    }
  }

  /** The value that makes entry (i, j) of the product right. */
  ghost function Missing(l: Mat, x: Mat, n: nat, i: nat, j: nat): real
    requires l(i, i) != 0.0
  {
    (Identity()(i, j) - Mul(l, x, n)(i, j)) / l(i, i)
  }

  lemma MissingFits(l: Mat, x: Mat, n: nat, i: nat, j: nat)
    requires l(i, i) != 0.0
    ensures Mul(l, x, n)(i, j) + l(i, i) * Missing(l, x, n, i, j) == Identity()(i, j)
  {
    Quotient(Identity()(i, j) - Mul(l, x, n)(i, j), l(i, i));
  }

  lemma {:induction false} GrowInverse(l: Mat, n: nat, i: nat, j: nat) returns (x: Mat)
    requires Divisible(l, n) && i < n && j <= i + 1
    ensures Inverting(l, x, n, i, j)
    decreases i, i + 1 - j
  {
    if j == i + 1 {
      if i == 0 {
        x := (_, _) => 0.0;
        FirstRow(l, x, n);
      } else {
        x := GrowInverse(l, n, i - 1, 0);
        StartRow(l, x, n, i - 1);
      }
    } else {
      var x0 := GrowInverse(l, n, i, j + 1);
      var v := Missing(l, x0, n, i, j);
      MissingFits(l, x0, n, i, j);
      InvertStep(l, x0, n, i, j, v);
      x := Set(x0, i, j, v);
    }
  }

  lemma InverseDone(l: Mat, x: Mat, n: nat)
    requires Divisible(l, n) && (n > 0 ==> Inverting(l, x, n, n - 1, 0))
    ensures LowerTriangular(x, n) && Same(Mul(l, x, n), Identity(), n)
  {
  }

  /** A lower triangular matrix with a nonzero diagonal has a lower triangular right inverse. */
  lemma RightInverse(l: Mat, n: nat) returns (x: Mat)
    requires Divisible(l, n)
    ensures LowerTriangular(x, n) && Same(Mul(l, x, n), Identity(), n)
  {
    if n == 0 {
      x := Identity();
    } else {
      x := GrowInverse(l, n, n - 1, 0);
      InverseDone(l, x, n);
    }
  }

  /** The diagonal of a triangular right inverse is nonzero. */
  lemma InverseDivisible(l: Mat, x: Mat, n: nat)
    requires LowerTriangular(l, n) && LowerTriangular(x, n) && Same(Mul(l, x, n), Identity(), n)
    ensures Divisible(x, n)
  {
    forall i | 0 <= i < n
      ensures x(i, i) != 0.0
    {
      var f := Product(Row(l, i), Column(x, i));
      forall k | 0 <= k < n && k != i
        ensures f(k) == 0.0
      {
        ProductZero(Row(l, i), Column(x, i), k);
      }
      SumSingle(f, i, n);
      assert Mul(l, x, n)(i, i) == 1.0;
      if x(i, i) == 0.0 {
        ProductZero(Row(l, i), Column(x, i), i);
      }
    }
  }

  /** A triangular right inverse is a left inverse too. */
  lemma LeftInverse(l: Mat, x: Mat, n: nat)
    requires LowerTriangular(l, n) && LowerTriangular(x, n) && Same(Mul(l, x, n), Identity(), n)
    ensures Same(Mul(x, l, n), Identity(), n)
  {
    InverseDivisible(l, x, n);
    var y := RightInverse(x, n);
    MulIdentity(l, n);
    MulIdentity(y, n);
    MulSame(l, Mul(x, y, n), l, Identity(), n);
    MulAssociative(l, x, y, n);
    MulSame(Mul(l, x, n), y, Identity(), y, n);
    assert Same(l, y, n);
    MulSame(x, l, x, y, n);
  }

  /** Product of the transposed and the plain inverse factor. */
  ghost function InverseGram(x: Mat, n: nat): Mat { Mul(Transpose(x), x, n) }

  /** With l x = 1 for triangular l and x, the product of the grams is the identity on both sides. */
  lemma GramInverse(l: Mat, x: Mat, n: nat)
    requires LowerTriangular(l, n) && LowerTriangular(x, n) && Same(Mul(l, x, n), Identity(), n)
    ensures Same(Mul(Gram(l, n), InverseGram(x, n), n), Identity(), n)
    ensures Same(Mul(InverseGram(x, n), Gram(l, n), n), Identity(), n)
  {
    LeftInverse(l, x, n);
    TransposedInverse(l, x, n);
    TransposedInverse(x, l, n);
    Sandwich(l, Transpose(l), Transpose(x), x, n);
    Sandwich(Transpose(x), x, l, Transpose(l), n);
  }

  /** If b c = 1 and a d = 1 then (a b)(c d) = 1. */
  lemma Sandwich(a: Mat, b: Mat, c: Mat, d: Mat, n: nat)
    requires Same(Mul(b, c, n), Identity(), n) && Same(Mul(a, d, n), Identity(), n)
    ensures Same(Mul(Mul(a, b, n), Mul(c, d, n), n), Identity(), n)
  {
    MulAssociative(a, b, Mul(c, d, n), n);
    MulAssociative(b, c, d, n);
    MulSame(Mul(b, c, n), d, Identity(), d, n);
    MulIdentity(d, n);
    assert Same(Mul(b, Mul(c, d, n), n), d, n);
    MulSame(a, Mul(b, Mul(c, d, n), n), a, d, n);
  }

  lemma TransposedInverse(l: Mat, x: Mat, n: nat)
    requires Same(Mul(x, l, n), Identity(), n)
    ensures Same(Mul(Transpose(l), Transpose(x), n), Identity(), n)
  {
    TransposeMul(x, l, n);
    forall i, j | 0 <= i < n && 0 <= j < n
      ensures Mul(Transpose(l), Transpose(x), n)(i, j) == Identity()(i, j)
    {
      assert Transpose(Mul(x, l, n))(i, j) == Mul(Transpose(l), Transpose(x), n)(i, j);
      assert Mul(x, l, n)(j, i) == Identity()(j, i);
    }
  }

  /** r is a symmetric inverse of a on both sides. */
  ghost predicate IsInverse(a: Mat, r: Mat, n: nat) {
    && Symmetric(r, n)
    && Same(Mul(a, r, n), Identity(), n)
    && Same(Mul(r, a, n), Identity(), n)
  }

  lemma SymmetricInverseGram(x: Mat, n: nat)
    ensures Symmetric(InverseGram(x, n), n)
  {
    forall i, j | 0 <= i < n && 0 <= j < n
      ensures InverseGram(x, n)(i, j) == InverseGram(x, n)(j, i)
    {
      DotCommutes(Column(x, i), Column(x, j), n);
      DotEqual(Row(Transpose(x), i), Column(x, j), Column(x, i), Column(x, j), n);
      DotEqual(Row(Transpose(x), j), Column(x, i), Column(x, j), Column(x, i), n);
    }
  }

  /** The gram of the inverse factor inverts the factored matrix. */
  lemma FactorInverts(a: Mat, l: Mat, x: Mat, n: nat)
    requires IsFactor(a, l, n) && Symmetric(a, n)
    requires LowerTriangular(x, n) && Same(Mul(l, x, n), Identity(), n)
    ensures IsInverse(a, InverseGram(x, n), n)
  {
    var r := InverseGram(x, n);
    FactorGram(a, l, n);
    GramInverse(l, x, n);
    SymmetricInverseGram(x, n);
    MulSame(a, r, Gram(l, n), r, n);
    MulSame(r, a, r, Gram(l, n), n);
  }

  lemma InverseSame(a: Mat, b: Mat, r: Mat, s: Mat, n: nat)
    requires IsInverse(a, r, n) && Same(a, b, n) && Same(r, s, n)
    ensures IsInverse(b, s, n)
  {
    MulSame(a, r, b, s, n);
    MulSame(r, a, s, b, n);
  }

  // -------------------------------------------------------------------------- the methods

  /** The partial sum of row i of l against column j of the inverse, from k = j up to i. */
  method ColumnSum(m: array2<real>, ghost l: Mat, w: array2<real>, ghost x: Mat, n: nat, i: nat, j: nat) returns (sum: real)
    requires Holds(m, l, n) && Holds(w, x, n) && j < i < n
    requires LowerTriangular(l, n) && Inverting(l, x, n, i, j + 1)
    ensures sum == Mul(l, x, n)(i, j)
  {
    ghost var f := Product(Row(l, i), Column(x, j));
    forall k | 0 <= k < j
      ensures f(k) == 0.0
    {
      ProductZero(Row(l, i), Column(x, j), k);
    }
    SumZero(f, j);
    sum := 0.0;
    for k := j to i
      invariant sum == Sum(f, k)
    {
      sum := sum + m[i, k] * w[k, j];
    }
    forall k | i <= k < n
      ensures f(k) == 0.0
    {
      ProductZero(Row(l, i), Column(x, j), k);
    }
    SumTruncate(f, i, n);
  }

  /** Fills row i of the inverse factor, from the diagonal leftwards. */
  method InvertRow(m: array2<real>, ghost l: Mat, w: array2<real>, ghost x: Mat, n: nat, i: nat) returns (ghost x': Mat)
    requires m != w && Holds(m, l, n) && Holds(w, x, n) && i < n
    requires Divisible(l, n) && Inverting(l, x, n, i, i + 1)
    modifies w
    ensures Holds(w, x', n) && Inverting(l, x', n, i, 0)
  {
    var recip := 1.0 / m[i, i];
    ProductAbove(l, x, n, i, i);
    DiagonalStep(l(i, i), recip);
    InvertStep(l, x, n, i, i, recip);
    w[i, i] := recip;
    x' := Set(x, i, i, recip);
    var j := i;
    while j > 0
      invariant 0 <= j <= i
      invariant Holds(w, x', n) && Inverting(l, x', n, i, j)
    {
      j := j - 1;
      var v := OffDiagonal(m, l, w, x', n, i, j, recip);
      InvertStep(l, x', n, i, j, v);
      w[i, j] := v;
      x' := Set(x', i, j, v);
    }
  }

  /** The entry left of the diagonal that cancels the sum to its right. */
  method OffDiagonal(m: array2<real>, ghost l: Mat, w: array2<real>, ghost x: Mat, n: nat, i: nat, j: nat, recip: real) returns (v: real)
    requires Holds(m, l, n) && Holds(w, x, n) && j < i < n
    requires Divisible(l, n) && Inverting(l, x, n, i, j + 1) && recip == 1.0 / l(i, i)
    ensures Mul(l, x, n)(i, j) + l(i, i) * v == Identity()(i, j)
  {
    var sum := ColumnSum(m, l, w, x, n, i, j);
    OffDiagonalStep(l(i, i), recip, sum);
    v := -sum * recip;
  }

  lemma DiagonalStep(d: real, recip: real)
    requires d != 0.0 && recip == 1.0 / d
    ensures 0.0 + d * recip == 1.0
  {
  }

  lemma OffDiagonalStep(d: real, recip: real, sum: real)
    requires d != 0.0 && recip == 1.0 / d
    ensures sum + d * (-sum * recip) == 0.0
  {
    calc {
      d * (-sum * recip);
    ==
      -sum * (d * recip);
    == { DiagonalStep(d, recip); }
      -sum;
    }
  }

  /** The inverse of the factor. */
  method InvertFactor(m: array2<real>, ghost l: Mat, n: nat) returns (w: array2<real>, ghost x: Mat)
    requires Holds(m, l, n) && Divisible(l, n)
    ensures fresh(w) && Holds(w, x, n)
    ensures LowerTriangular(x, n) && Same(Mul(l, x, n), Identity(), n)
  {
    w := new real[n, n]((_, _) => 0.0);
    x := (_, _) => 0.0;
    if n > 0 {
      FirstRow(l, x, n);
    }
    for i := 0 to n
      invariant Holds(w, x, n)
      invariant i < n ==> Inverting(l, x, n, i, i + 1)
      invariant i == n > 0 ==> Inverting(l, x, n, n - 1, 0)
    {
      x := InvertRow(m, l, w, x, n, i);
      StartRow(l, x, n, i);
    }
    InverseDone(l, x, n);
  }

  /** The sum of products of columns i and j from row j on. */
  method ColumnProduct(w: array2<real>, ghost x: Mat, n: nat, i: nat, j: nat) returns (sum: real)
    requires Holds(w, x, n) && LowerTriangular(x, n) && i <= j < n
    ensures sum == InverseGram(x, n)(i, j)
  {
    ghost var f := Product(Column(x, i), Column(x, j));
    forall k | 0 <= k < j
      ensures f(k) == 0.0
    {
      ProductZero(Column(x, i), Column(x, j), k);
    }
    SumZero(f, j);
    sum := 0.0;
    for k := j to n
      invariant sum == Sum(f, k)
    {
      sum := sum + w[k, i] * w[k, j];
    }
    DotEqual(Column(x, i), Column(x, j), Row(Transpose(x), i), Column(x, j), n);
  }

  /** The first i rows and columns are filled in. */
  ghost predicate Filled(r: array2<real>, g: Mat, n: nat, i: nat)
    reads r
  {
    Square(r, n) && forall p, q :: 0 <= p < n && 0 <= q < n && (p < i || q < i) ==> r[p, q] == g(p, q)
  }

  /** Both triangles of the product, written from its upper triangle. */
  method FillSymmetric(w: array2<real>, ghost x: Mat, n: nat) returns (r: array2<real>)
    requires Holds(w, x, n) && LowerTriangular(x, n)
    ensures fresh(r) && Square(r, n) && Same(View(r), InverseGram(x, n), n)
  {
    ghost var g := InverseGram(x, n);
    SymmetricInverseGram(x, n);
    r := new real[n, n]((_, _) => 0.0);
    for i := 0 to n
      invariant Filled(r, g, n, i)
    {
      FillLine(w, x, g, r, n, i);
    }
  }

  method FillLine(w: array2<real>, ghost x: Mat, ghost g: Mat, r: array2<real>, n: nat, i: nat)
    requires Holds(w, x, n) && LowerTriangular(x, n) && g == InverseGram(x, n) && Symmetric(g, n)
    requires r != w && i < n && Filled(r, g, n, i)
    modifies r
    ensures Filled(r, g, n, i + 1)
  {
    for j := i to n
      invariant Filled(r, g, n, i)
      invariant forall q :: i <= q < j ==> r[i, q] == g(i, q) && r[q, i] == g(q, i)
    {
      var sum := ColumnProduct(w, x, n, i, j);
      assert g(i, j) == sum && g(j, i) == sum;
      r[i, j] := sum;
      r[j, i] := sum;
    }
  }

  /** The symmetric matrix with the lower triangle of a; factoring reads nothing else of a. */
  function Mirrored(a: Mat): Mat { (i, j) => if i < j then a(j, i) else a(i, j) }

  lemma FactorOfMirrored(a: Mat, l: Mat, n: nat)
    requires IsFactor(a, l, n)
    ensures IsFactor(Mirrored(a), l, n) && Symmetric(Mirrored(a), n)
  {
    forall i, j | 0 <= j <= i < n
      ensures Dot(Row(l, i), Row(l, j), n) == Mirrored(a)(i, j)
    {
    }
  }

  lemma MirroredSymmetric(a: Mat, n: nat)
    requires Symmetric(a, n)
    ensures Same(Mirrored(a), a, n)
  {
  }

  /**
   Inverts a matrix through its lower triangle; refuses exactly when it has no acceptable
   Cholesky factor. A symmetric matrix is its own mirror, so the result is its inverse.
   */
  method InverseSpd(a: array2<real>, sqrt: real -> real) returns (ok: bool, r: array2<real>)
    requires a.Length0 == a.Length1 && IsSqrt(sqrt)
    ensures fresh(r) && Square(r, a.Length0)
    ensures ok <==> Factorable(View(a), a.Length0)
    ensures ok ==> IsInverse(Mirrored(View(a)), View(r), a.Length0)
    ensures ok && Symmetric(View(a), a.Length0) ==> IsInverse(View(a), View(r), a.Length0)
  {
    var n := a.Length0;
    ghost var target := View(a);
    var m;
    ok, m := Factorise(a, sqrt);
    if !ok {
      r := m;
      return;
    }
    ghost var l := View(m);
    ghost var x;
    var w;
    w, x := InvertFactor(m, l, n);
    r := FillSymmetric(w, x, n);
    FactorOfMirrored(target, l, n);
    FactorInverts(Mirrored(target), l, x, n);
    InverseSame(Mirrored(target), Mirrored(View(a)), InverseGram(x, n), View(r), n);
    if Symmetric(View(a), n) {
      MirroredSymmetric(View(a), n);
      InverseSame(Mirrored(View(a)), View(a), View(r), View(r), n);
    }
  }
}
