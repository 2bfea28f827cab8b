/**
 What a Cholesky factor means: a factored symmetric matrix is positive definite, and
 adding a positive semidefinite matrix to a factorable one keeps it factorable, because
 no pivot can fall below the pivot of the factorable part.
 */
module PositiveDefiniteness {
  import opened RealSums
  import opened Matrices
  import opened Cholesky

  ghost function Gram(l: Mat, n: nat): Mat { Mul(l, Transpose(l), n) }

  /** x . (L L^T x) is the squared length of L^T x. */
  lemma QuadGram(l: Mat, x: Vec, n: nat)
    ensures var y := MatVec(Transpose(l), x, n);
            Quad(Gram(l, n), x, n) == Dot(y, y, n)
  {
    var lt := Transpose(l);
    var y := MatVec(lt, x, n);
    forall i
      ensures MatVec(Gram(l, n), x, n)(i) == MatVec(l, y, n)(i)
    {
      MulVec(l, lt, x, n, i);
    }
    DotEqual(x, MatVec(Gram(l, n), x, n), x, MatVec(l, y, n), n);
    Adjoint(l, x, y, n);
  }

  lemma GramEntry(l: Mat, n: nat, i: int, j: int)
    ensures Gram(l, n)(i, j) == Dot(Row(l, i), Row(l, j), n)
  {
    DotEqual(Row(l, i), Column(Transpose(l), j), Row(l, i), Row(l, j), n);
  }

  lemma FactorGram(a: Mat, l: Mat, n: nat)
    requires IsFactor(a, l, n) && Symmetric(a, n)
    ensures Same(a, Gram(l, n), n)
  {
    forall i, j | 0 <= i < n && 0 <= j < n
      ensures a(i, j) == Gram(l, n)(i, j)
    {
      GramEntry(l, n, i, j);
      if j > i {
        DotCommutes(Row(l, i), Row(l, j), n);
      }
    }
  }

  lemma SquareNonNegative(x: real)
    ensures x * x >= 0.0
  {
  }

  lemma SquaresBound(y: Vec, n: nat)
    ensures Dot(y, y, n) >= 0.0
    ensures forall k :: 0 <= k < n ==> Dot(y, y, n) >= y(k) * y(k)
  {
    forall k
      ensures Product(y, y)(k) >= 0.0
    {
      SquareNonNegative(y(k));
    }
    SumNonNegative(Product(y, y), n);
    forall k | 0 <= k < n
      ensures Dot(y, y, n) >= y(k) * y(k)
    {
      assert Product(y, y)(k) == y(k) * y(k);
    }
  }

  /** If x vanishes after m, entry m of L^T x is the diagonal entry times x(m). */
  lemma LastEntry(l: Mat, x: Vec, n: nat, m: nat)
    requires LowerTriangular(l, n) && m < n && forall i :: m < i < n ==> x(i) == 0.0
    ensures MatVec(Transpose(l), x, n)(m) == l(m, m) * x(m)
  {
    var f := Product(Row(Transpose(l), m), x);
    forall i | 0 <= i < n && i != m
      ensures f(i) == 0.0
    {
      ProductZero(Row(Transpose(l), m), x, i);
    }
    SumSingle(f, m, n);
  }

  /** The quadratic form is at least the square of any last entry of L^T x. */
  lemma FactorLower(a: Mat, l: Mat, x: Vec, n: nat, m: nat)
    requires IsFactor(a, l, n) && Symmetric(a, n)
    requires m < n && forall i :: m < i < n ==> x(i) == 0.0
    ensures Quad(a, x, n) >= (l(m, m) * x(m)) * (l(m, m) * x(m))
  {
    var y := MatVec(Transpose(l), x, n);
    FactorGram(a, l, n);
    QuadSame(a, Gram(l, n), x, x, n);
    QuadGram(l, x, n);
    SquaresBound(y, n);
    LastEntry(l, x, n, m);
    assert y(m) == l(m, m) * x(m);
    assert Dot(y, y, n) >= y(m) * y(m);
  }

  lemma {:induction false} LastNonZero(x: Vec, n: nat) returns (m: nat)
    requires NonZero(x, n)
    ensures m < n && x(m) != 0.0 && forall i :: m < i < n ==> x(i) == 0.0
  {
    if x(n - 1) != 0.0 {
      m := n - 1;
    } else {
      var i :| 0 <= i < n && x(i) != 0.0;
      assert NonZero(x, n - 1);
      m := LastNonZero(x, n - 1);
    }
  }

  lemma ProductNonZero(x: real, y: real)
    requires x != 0.0 && y != 0.0
    ensures (x * y) * (x * y) > 0.0
  {
    assert x * y != 0.0;
  }

  /** A factored symmetric matrix is positive definite. */
  lemma FactorableDefinite(a: Mat, n: nat)
    requires Factorable(a, n) && Symmetric(a, n)
    ensures PositiveDefinite(a, n) && PositiveSemidefinite(a, n)
  {
    var l: Mat :| IsFactor(a, l, n);
    forall x: Vec
      ensures Quad(a, x, n) >= 0.0
    {
      FactorGram(a, l, n);
      QuadSame(a, Gram(l, n), x, x, n);
      QuadGram(l, x, n);
      SquaresBound(MatVec(Transpose(l), x, n), n);
    }
    forall x: Vec | NonZero(x, n)
      ensures Quad(a, x, n) > 0.0
    {
      var m := LastNonZero(x, n);
      FactorLower(a, l, x, n, m);
      calc {
        Quad(a, x, n);
      >=
        (l(m, m) * x(m)) * (l(m, m) * x(m));
      > { ProductNonZero(l(m, m), x(m)); }
        0.0;
      }
    }
  }

  // ------------------------------------------------------------------ back substitution

  ghost function SetVec(x: Vec, k: int, v: real): Vec { i => if i == k then v else x(i) }

  lemma DotSet(f: Vec, x: Vec, k: nat, v: real, n: nat)
    requires k < n && x(k) == 0.0
    ensures Dot(f, SetVec(x, k, v), n) == Dot(f, x, n) + f(k) * v
  {
    var bump: Vec := SetVec(_ => 0.0, k, v);
    forall i
      ensures SetVec(x, k, v)(i) == Plus(x, bump)(i)
    {
    }
    DotEqual(f, SetVec(x, k, v), f, Plus(x, bump), n);
    DotPlus(f, x, bump, n);
    forall i | 0 <= i < n && i != k
      ensures Product(f, bump)(i) == 0.0
    {
      ProductZero(f, bump, i);
    }
    SumSingle(Product(f, bump), k, n);
  }

  /** x ends in a one at m, starts at k, and L^T x vanishes from k up to m. */
  ghost predicate Solves(l: Mat, x: Vec, n: nat, m: int, k: int) {
    && x(m) == 1.0
    && (forall i :: 0 <= i < n && (i < k || i > m) ==> x(i) == 0.0)
    && (forall q :: k <= q < m ==> MatVec(Transpose(l), x, n)(q) == 0.0)
  }

  lemma {:induction false} BackSolve(l: Mat, n: nat, m: nat, k: nat) returns (x: Vec)
    requires k <= m < n && LowerTriangular(l, n)
    requires forall q :: 0 <= q < m ==> l(q, q) > 0.0
    ensures Solves(l, x, n, m, k)
    decreases m - k
  {
    if k == m {
      x := SetVec(_ => 0.0, m, 1.0);
    } else {
      var y := BackSolve(l, n, m, k + 1);
      var rest := MatVec(Transpose(l), y, n)(k);
      var v := -rest / l(k, k);
      x := SetVec(y, k, v);
      forall q | k <= q < m
        ensures MatVec(Transpose(l), x, n)(q) == 0.0
      {
        DotSet(Row(Transpose(l), q), y, k, v, n);
        if q == k {
          calc {
            MatVec(Transpose(l), x, n)(q);
          ==
            rest + l(k, k) * v;
          == { Cancel(rest, l(k, k)); }
            0.0;
          }
        } else {
          calc {
            MatVec(Transpose(l), x, n)(q);
          ==
            MatVec(Transpose(l), y, n)(q) + l(k, q) * v;
          == { TimesZero(l(k, q), v); }
            0.0;
          }
        }
      }
    }
  }

  lemma Cancel(rest: real, d: real)
    requires d != 0.0
    ensures rest + d * (-rest / d) == 0.0
  {
  }

  lemma TimesZero(x: real, v: real)
    requires x == 0.0
    ensures x * v == 0.0
  {
  }

  // -------------------------------------------------------------- no pivot falls too low

  /** Matrices that agree up to m have the same form at vectors that vanish after m. */
  lemma QuadSupport(a: Mat, b: Mat, x: Vec, n: nat, m: nat)
    requires m < n && (forall i :: m < i < n ==> x(i) == 0.0)
    requires forall i, j :: 0 <= i <= m && 0 <= j <= m ==> a(i, j) == b(i, j)
    ensures Quad(a, x, n) == Quad(b, x, n)
  {
    var u, v := MatVec(a, x, n), MatVec(b, x, n);
    forall i | 0 <= i < n
      ensures Product(x, u)(i) == Product(x, v)(i)
    {
      if i <= m {
        forall j | 0 <= j < n
          ensures Product(Row(a, i), x)(j) == Product(Row(b, i), x)(j)
        {
          if j <= m {
            ProductEqual(Row(a, i), x, Row(b, i), x, j);
          } else {
            ProductZero(Row(a, i), x, j);
            ProductZero(Row(b, i), x, j);
          }
        }
        SumEqual(Product(Row(a, i), x), Product(Row(b, i), x), n);
        ProductEqual(x, u, x, v, i);
      } else {
        ProductZero(x, u, i);
        ProductZero(x, v, i);
      }
    }
    SumEqual(Product(x, u), Product(x, v), n);
  }

  /** The matrix with the single entry val at (m, m). */
  ghost function Corner(m: int, val: real): Mat { (i, j) => if i == m && j == m then val else 0.0 }

  lemma QuadCorner(x: Vec, n: nat, m: nat, val: real)
    requires m < n && x(m) == 1.0
    ensures Quad(Corner(m, val), x, n) == val
  {
    var c := Corner(m, val);
    var u := MatVec(c, x, n);
    forall i | 0 <= i < n
      ensures u(i) == if i == m then val else 0.0
    {
      forall j | 0 <= j < n && j != m
        ensures Product(Row(c, i), x)(j) == 0.0
      {
        ProductZero(Row(c, i), x, j);
      }
      SumSingle(Product(Row(c, i), x), m, n);
    }
    forall i | 0 <= i < n && i != m
      ensures Product(x, u)(i) == 0.0
    {
      ProductZero(x, u, i);
    }
    SumSingle(Product(x, u), m, n);
  }

  /** What is left for the next pivot once row m is filled up to the diagonal. */
  ghost function Pivot(s: Mat, l: Mat, m: nat): real { s(m, m) - Inner(l, m, m) }

  /** At the vector that eliminates the earlier rows, the form is exactly the next pivot. */
  lemma FormIsPivot(s: Mat, l: Mat, x: Vec, n: nat, m: nat)
    requires m < n && Partial(s, l, n, m, m) && Symmetric(s, n) && Solves(l, x, n, m, 0)
    ensures Quad(s, x, n) == Pivot(s, l, m)
  {
    var val := Pivot(s, l, m);
    var t := Add(Gram(l, n), Corner(m, val));
    forall i, j | 0 <= i <= m && 0 <= j <= m
      ensures s(i, j) == t(i, j)
    {
      GramMatches(s, l, n, m, i, j);
    }
    QuadSupport(s, t, x, n, m);
    QuadAdd(Gram(l, n), Corner(m, val), x, n);
    QuadCorner(x, n, m, val);
    var y := MatVec(Transpose(l), x, n);
    forall k | 0 <= k < n
      ensures y(k) == 0.0
    {
      EliminatedEntry(s, l, x, n, m, k);
    }
    QuadGram(l, x, n);
    forall k | 0 <= k < n
      ensures Product(y, y)(k) == 0.0
    {
      ProductZero(y, y, k);
    }
    SumZero(Product(y, y), n);
  }

  lemma GramMatches(s: Mat, l: Mat, n: nat, m: nat, i: nat, j: nat)
    requires m < n && Partial(s, l, n, m, m) && Symmetric(s, n) && i <= m && j <= m
    ensures s(i, j) == Gram(l, n)(i, j) + Corner(m, Pivot(s, l, m))(i, j)
  {
    GramEntry(l, n, i, j);
    if i == m && j == m {
      forall k | m <= k < n
        ensures Product(Row(l, m), Row(l, m))(k) == 0.0
      {
        ProductZero(Row(l, m), Row(l, m), k);
      }
      SumTruncate(Product(Row(l, m), Row(l, m)), m, n);
    } else if j <= i {
      assert Done(i, j, m, m);
    } else {
      assert Done(j, i, m, m);
      DotCommutes(Row(l, i), Row(l, j), n);
    }
  }

  lemma EliminatedEntry(s: Mat, l: Mat, x: Vec, n: nat, m: nat, k: nat)
    requires m < n && k < n && Partial(s, l, n, m, m) && Solves(l, x, n, m, 0)
    ensures MatVec(Transpose(l), x, n)(k) == 0.0
  {
    if k >= m {
      forall i | 0 <= i < n
        ensures Product(Row(Transpose(l), k), x)(i) == 0.0
      {
        assert i <= m ==> l(i, k) == 0.0;
        ProductZero(Row(Transpose(l), k), x, i);
      }
      SumZero(Product(Row(Transpose(l), k), x), n);
    }
  }

  /** The pivot of P + R is at least the square of the matching diagonal entry of R's factor. */
  lemma PivotBound(p: Mat, r: Mat, f: Mat, l: Mat, n: nat, m: nat)
    requires PositiveSemidefinite(p, n) && Symmetric(p, n)
    requires IsFactor(r, f, n) && Symmetric(r, n)
    requires m < n && Partial(Add(p, r), l, n, m, m)
    ensures Pivot(Add(p, r), l, m) >= f(m, m) * f(m, m)
  {
    forall q | 0 <= q < m
      ensures l(q, q) > 0.0
    {
      assert Done(q, q, m, m);
    }
    var x := BackSolve(l, n, m, 0);
    FormIsPivot(Add(p, r), l, x, n, m);
    QuadAdd(p, r, x, n);
    FactorLower(r, f, x, n, m);
    assert f(m, m) * x(m) == f(m, m);
    assert Quad(p, x, n) >= 0.0;
  }

  // --------------------------------------------------------------------- growing a factor

  /** Fills row i from column j on, given usable divisors. */
  lemma {:induction false} GrowRow(s: Mat, l: Mat, n: nat, i: nat, j: nat) returns (l': Mat)
    requires j <= i < n && Partial(s, l, n, i, j)
    requires forall q :: 0 <= q < i ==> l(q, q) >= TINY
    ensures Partial(s, l', n, i, i)
    ensures forall q :: 0 <= q < i ==> l'(q, q) == l(q, q)
    decreases i - j
  {
    if j == i {
      l' := l;
    } else {
      var v := (s(i, j) - Inner(l, i, j)) / l(j, j);
      Quotient(s(i, j) - Inner(l, i, j), l(j, j));
      SetKeepsPartial(s, l, n, i, j, v);
      l' := GrowRow(s, Set(l, i, j, v), n, i, j + 1);
    }
  }

  lemma RootOrder(v: real, f: real)
    requires v > 0.0 && f > 0.0 && v * v >= f * f
    ensures v >= f
  {
    if v < f {
      SquareLess(v, f);
    }
  }

  lemma SquareLess(v: real, f: real)
    requires 0.0 < v < f
    ensures v * v < f * f
  {
    assert v * v < v * f;
    assert v * f < f * f;
  }

  /** A factor of the first m rows of P + R whose diagonal dominates that of R's factor. */
  lemma {:induction false} GrowFactor(p: Mat, r: Mat, f: Mat, n: nat, m: nat, sqrt: real -> real) returns (l: Mat)
    requires PositiveSemidefinite(p, n) && Symmetric(p, n) && IsSqrt(sqrt)
    requires IsFactor(r, f, n) && Symmetric(r, n) && m <= n
    ensures Partial(Add(p, r), l, n, m, 0)
    ensures forall q :: 0 <= q < m ==> l(q, q) >= f(q, q)
  {
    var s := Add(p, r);
    if m == 0 {
      l := (_, _) => 0.0;
    } else {
      var i := m - 1;
      var l0 := GrowFactor(p, r, f, n, i, sqrt);
      forall q | 0 <= q < i
        ensures l0(q, q) >= TINY
      {
        assert f(q, q) >= TINY;
      }
      var l1 := GrowRow(s, l0, n, i, 0);
      PivotBound(p, r, f, l1, n, i);
      GrowDiagonal(s, l1, f, n, i, sqrt);
      l := Set(l1, i, i, sqrt(Pivot(s, l1, i)));
      NextRow(s, l, n, i);
    }
  }

  lemma GrowDiagonal(s: Mat, l: Mat, f: Mat, n: nat, i: nat, sqrt: real -> real)
    requires i < n && Partial(s, l, n, i, i) && IsSqrt(sqrt) && f(i, i) > 0.0
    requires Pivot(s, l, i) >= f(i, i) * f(i, i)
    ensures Partial(s, Set(l, i, i, sqrt(Pivot(s, l, i))), n, i, i + 1)
    ensures sqrt(Pivot(s, l, i)) >= f(i, i)
  {
    var val := Pivot(s, l, i);
    PositiveSquare(val, f(i, i));
    var v := sqrt(val);
    assert v * v == val;
    SetKeepsPartial(s, l, n, i, i, v);
    RootOrder(v, f(i, i));
  }

  lemma PositiveSquare(val: real, x: real)
    requires x > 0.0 && val >= x * x
    ensures val > 0.0
  {
    calc {
      val;
    >=
      x * x;
    >
      0.0;
    }
  }

  /** Adding a positive semidefinite matrix to a factorable one keeps it factorable. */
  lemma SemidefinitePlusFactorable(p: Mat, r: Mat, n: nat, sqrt: real -> real)
    requires PositiveSemidefinite(p, n) && Symmetric(p, n) && IsSqrt(sqrt)
    requires Factorable(r, n) && Symmetric(r, n)
    ensures Factorable(Add(p, r), n)
  {
    var f: Mat :| IsFactor(r, f, n);
    var l := GrowFactor(p, r, f, n, n, sqrt);
    PartialDone(Add(p, r), l, n);
  }
}
