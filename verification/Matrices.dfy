/** Square matrices over exact reals as index functions, and their algebra up to a size n. */
module Matrices {
  import opened RealSums

  type Mat = (int, int) -> real

  function Row(a: Mat, i: int): Vec { j => a(i, j) }

  function Column(a: Mat, j: int): Vec { i => a(i, j) }

  function Add(a: Mat, b: Mat): Mat { (i, j) => a(i, j) + b(i, j) }

  function Sub(a: Mat, b: Mat): Mat { (i, j) => a(i, j) - b(i, j) }

  function Scale(c: real, a: Mat): Mat { (i, j) => c * a(i, j) }

  function Transpose(a: Mat): Mat { (i, j) => a(j, i) }

  function Identity(): Mat { (i, j) => if i == j then 1.0 else 0.0 }

  function Outer(v: Vec): Mat { (i, j) => v(i) * v(j) }

  function MatVec(a: Mat, x: Vec, n: nat): Vec { i => Dot(Row(a, i), x, n) }

  function Mul(a: Mat, b: Mat, n: nat): Mat { (i, j) => Dot(Row(a, i), Column(b, j), n) }

  function Quad(a: Mat, x: Vec, n: nat): real { Dot(x, MatVec(a, x, n), n) }

  ghost predicate Same(a: Mat, b: Mat, n: nat) {
    forall i, j :: 0 <= i < n && 0 <= j < n ==> a(i, j) == b(i, j)
  }

  ghost predicate Symmetric(a: Mat, n: nat) {
    forall i, j :: 0 <= i < n && 0 <= j < n ==> a(i, j) == a(j, i)
  }

  /** The quadratic form is nowhere negative. */
  ghost predicate PositiveSemidefinite(a: Mat, n: nat) {
    forall x: Vec :: Quad(a, x, n) >= 0.0
  }

  ghost predicate NonZero(x: Vec, n: nat) {
    exists i :: 0 <= i < n && x(i) != 0.0
  }

  ghost predicate PositiveDefinite(a: Mat, n: nat) {
    forall x: Vec :: NonZero(x, n) ==> Quad(a, x, n) > 0.0
  }

  // ------------------------------------------------------------------ products and vectors

  lemma MatVecSame(a: Mat, b: Mat, x: Vec, y: Vec, n: nat, i: int)
    requires Same(a, b, n) && 0 <= i < n && forall k :: 0 <= k < n ==> x(k) == y(k)
    ensures MatVec(a, x, n)(i) == MatVec(b, y, n)(i)
  {
    DotEqual(Row(a, i), x, Row(b, i), y, n);
  }

  lemma MulSame(a: Mat, b: Mat, c: Mat, d: Mat, n: nat)
    requires Same(a, c, n) && Same(b, d, n)
    ensures Same(Mul(a, b, n), Mul(c, d, n), n)
  {
    forall i, j | 0 <= i < n && 0 <= j < n
      ensures Mul(a, b, n)(i, j) == Mul(c, d, n)(i, j)
    {
      DotEqual(Row(a, i), Column(b, j), Row(c, i), Column(d, j), n);
    }
  }

  function ChainTerm(a: Mat, b: Mat, x: Vec, i: int): Mat { (j, k) => a(i, k) * b(k, j) * x(j) }

  /** (A B) x = A (B x), entry by entry. */
  lemma MulVec(a: Mat, b: Mat, x: Vec, n: nat, i: int)
    ensures MatVec(Mul(a, b, n), x, n)(i) == MatVec(a, MatVec(b, x, n), n)(i)
  {
    var F := ChainTerm(a, b, x, i);
    forall j
      ensures Product(Row(Mul(a, b, n), i), x)(j) == RowSums(F, n)(j)
    {
      var terms := Product(Row(a, i), Column(b, j));
      SumTimes(x(j), terms, n);
      SumEqual(Times(x(j), terms), k => F(j, k), n);
    }
    forall k
      ensures Product(Row(a, i), MatVec(b, x, n))(k) == ColumnSums(F, n)(k)
    {
      var terms := Product(Row(b, k), x);
      SumTimes(a(i, k), terms, n);
      forall j
        ensures Times(a(i, k), terms)(j) == F(j, k)
      {
        assert a(i, k) * (b(k, j) * x(j)) == a(i, k) * b(k, j) * x(j);
      }
      SumEqual(Times(a(i, k), terms), j => F(j, k), n);
    }
    SumSwap(F, n, n);
    SumEqual(Product(Row(Mul(a, b, n), i), x), RowSums(F, n), n);
    SumEqual(Product(Row(a, i), MatVec(b, x, n)), ColumnSums(F, n), n);
  }

  lemma MulAssociative(a: Mat, b: Mat, c: Mat, n: nat)
    ensures Same(Mul(Mul(a, b, n), c, n), Mul(a, Mul(b, c, n), n), n)
  {
    forall i, j | 0 <= i < n && 0 <= j < n
      ensures Mul(Mul(a, b, n), c, n)(i, j) == Mul(a, Mul(b, c, n), n)(i, j)
    {
      MulVec(a, b, Column(c, j), n, i);
      DotEqual(Row(a, i), MatVec(b, Column(c, j), n), Row(a, i), Column(Mul(b, c, n), j), n);
    }
  }

  lemma TransposeMul(a: Mat, b: Mat, n: nat)
    ensures Same(Transpose(Mul(a, b, n)), Mul(Transpose(b), Transpose(a), n), n)
  {
    forall i, j | 0 <= i < n && 0 <= j < n
      ensures Transpose(Mul(a, b, n))(i, j) == Mul(Transpose(b), Transpose(a), n)(i, j)
    {
      DotCommutes(Row(a, j), Column(b, i), n);
      DotEqual(Column(b, i), Row(a, j), Row(Transpose(b), i), Column(Transpose(a), j), n);
    }
  }

  lemma MulIdentity(a: Mat, n: nat)
    ensures Same(Mul(a, Identity(), n), a, n) && Same(Mul(Identity(), a, n), a, n)
  {
    forall i, j | 0 <= i < n && 0 <= j < n
      ensures Mul(a, Identity(), n)(i, j) == a(i, j) && Mul(Identity(), a, n)(i, j) == a(i, j)
    {
      SumSingle(Product(Row(a, i), Column(Identity(), j)), j, n);
      SumSingle(Product(Row(Identity(), i), Column(a, j)), i, n);
    }
  }

  // -------------------------------------------------------------------- quadratic forms

  function AdjointTerm(m: Mat, x: Vec, v: Vec): Mat { (i, j) => x(i) * m(i, j) * v(j) }

  /** x . (M v) = (M^T x) . v */
  lemma Adjoint(m: Mat, x: Vec, v: Vec, n: nat)
    ensures Dot(x, MatVec(m, v, n), n) == Dot(MatVec(Transpose(m), x, n), v, n)
  {
    var F := AdjointTerm(m, x, v);
    forall i
      ensures Product(x, MatVec(m, v, n))(i) == RowSums(F, n)(i)
    {
      var terms := Product(Row(m, i), v);
      SumTimes(x(i), terms, n);
      forall j
        ensures Times(x(i), terms)(j) == F(i, j)
      {
        assert x(i) * (m(i, j) * v(j)) == x(i) * m(i, j) * v(j);
      }
      SumEqual(Times(x(i), terms), j => F(i, j), n);
    }
    forall j
      ensures Product(MatVec(Transpose(m), x, n), v)(j) == ColumnSums(F, n)(j)
    {
      var terms := Product(Row(Transpose(m), j), x);
      SumTimes(v(j), terms, n);
      forall i
        ensures Times(v(j), terms)(i) == F(i, j)
      {
        assert v(j) * (m(i, j) * x(i)) == x(i) * m(i, j) * v(j);
      }
      SumEqual(Times(v(j), terms), i => F(i, j), n);
    }
    SumSwap(F, n, n);
    SumEqual(Product(x, MatVec(m, v, n)), RowSums(F, n), n);
    SumEqual(Product(MatVec(Transpose(m), x, n), v), ColumnSums(F, n), n);
  }

  lemma QuadSame(a: Mat, b: Mat, x: Vec, y: Vec, n: nat)
    requires Same(a, b, n) && forall k :: 0 <= k < n ==> x(k) == y(k)
    ensures Quad(a, x, n) == Quad(b, y, n)
  {
    forall i | 0 <= i < n
      ensures MatVec(a, x, n)(i) == MatVec(b, y, n)(i)
    {
      MatVecSame(a, b, x, y, n, i);
    }
    DotEqual(x, MatVec(a, x, n), y, MatVec(b, y, n), n);
  }

  lemma QuadAdd(a: Mat, b: Mat, x: Vec, n: nat)
    ensures Quad(Add(a, b), x, n) == Quad(a, x, n) + Quad(b, x, n)
  {
    var u, v := MatVec(a, x, n), MatVec(b, x, n);
    forall i
      ensures MatVec(Add(a, b), x, n)(i) == Plus(u, v)(i)
    {
      DotCommutes(Row(Add(a, b), i), x, n);
      DotCommutes(Row(a, i), x, n);
      DotCommutes(Row(b, i), x, n);
      DotPlus(x, Row(a, i), Row(b, i), n);
      DotEqual(x, Row(Add(a, b), i), x, Plus(Row(a, i), Row(b, i)), n);
    }
    DotEqual(x, MatVec(Add(a, b), x, n), x, Plus(u, v), n);
    DotPlus(x, u, v, n);
  }

  lemma QuadScale(c: real, a: Mat, x: Vec, n: nat)
    ensures Quad(Scale(c, a), x, n) == c * Quad(a, x, n)
  {
    var u := MatVec(a, x, n);
    forall i
      ensures MatVec(Scale(c, a), x, n)(i) == Times(c, u)(i)
    {
      DotCommutes(Row(Scale(c, a), i), x, n);
      DotCommutes(Row(a, i), x, n);
      DotTimes(c, x, Row(a, i), n);
      DotEqual(x, Row(Scale(c, a), i), x, Times(c, Row(a, i)), n);
    }
    DotEqual(x, MatVec(Scale(c, a), x, n), x, Times(c, u), n);
    DotTimes(c, x, u, n);
  }

  /** The congruence M A M^T. */
  function Congruence(m: Mat, a: Mat, n: nat): Mat { Mul(m, Mul(a, Transpose(m), n), n) }

  /** The quadratic form of a congruence is that of the inner matrix at M^T x. */
  lemma QuadCongruence(m: Mat, a: Mat, x: Vec, n: nat)
    ensures Quad(Congruence(m, a, n), x, n) == Quad(a, MatVec(Transpose(m), x, n), n)
  {
    var mt := Transpose(m);
    var y := MatVec(mt, x, n);
    var inner := Mul(a, mt, n);
    forall i
      ensures MatVec(Mul(m, inner, n), x, n)(i) == MatVec(m, MatVec(inner, x, n), n)(i)
    {
      MulVec(m, inner, x, n, i);
    }
    DotEqual(x, MatVec(Mul(m, inner, n), x, n), x, MatVec(m, MatVec(inner, x, n), n), n);
    Adjoint(m, x, MatVec(inner, x, n), n);
    forall i
      ensures MatVec(inner, x, n)(i) == MatVec(a, y, n)(i)
    {
      MulVec(a, mt, x, n, i);
    }
    DotEqual(y, MatVec(inner, x, n), y, MatVec(a, y, n), n);
  }

  lemma SymmetricCongruence(m: Mat, a: Mat, n: nat)
    requires Symmetric(a, n)
    ensures Symmetric(Congruence(m, a, n), n)
  {
    forall i, j | 0 <= i < n && 0 <= j < n
      ensures Congruence(m, a, n)(i, j) == Congruence(m, a, n)(j, i)
    {
      CongruenceEntry(m, a, n, i, j);
      CongruenceEntry(m, a, n, j, i);
      Adjoint(a, Row(m, i), Row(m, j), n);
      forall k | 0 <= k < n
        ensures MatVec(Transpose(a), Row(m, i), n)(k) == MatVec(a, Row(m, i), n)(k)
      {
        MatVecSame(Transpose(a), a, Row(m, i), Row(m, i), n, k);
      }
      DotEqual(MatVec(Transpose(a), Row(m, i), n), Row(m, j), MatVec(a, Row(m, i), n), Row(m, j), n);
      DotCommutes(MatVec(a, Row(m, i), n), Row(m, j), n);
    }
  }

  /** Entry (i, j) of M A M^T is row i of M against A times row j of M. */
  lemma CongruenceEntry(m: Mat, a: Mat, n: nat, i: int, j: int)
    ensures Congruence(m, a, n)(i, j) == Dot(Row(m, i), MatVec(a, Row(m, j), n), n)
  {
    forall k
      ensures Column(Mul(a, Transpose(m), n), j)(k) == MatVec(a, Row(m, j), n)(k)
    {
      DotEqual(Row(a, k), Column(Transpose(m), j), Row(a, k), Row(m, j), n);
    }
    DotEqual(Row(m, i), Column(Mul(a, Transpose(m), n), j), Row(m, i), MatVec(a, Row(m, j), n), n);
  }

  /** Congruence keeps positive semidefiniteness. */
  lemma CongruenceSemidefinite(m: Mat, a: Mat, n: nat)
    requires PositiveSemidefinite(a, n)
    ensures PositiveSemidefinite(Congruence(m, a, n), n)
  {
    forall x: Vec
      ensures Quad(Congruence(m, a, n), x, n) >= 0.0
    {
      QuadCongruence(m, a, x, n);
    }
  }

  lemma AddSemidefinite(a: Mat, b: Mat, n: nat)
    requires PositiveSemidefinite(a, n) && PositiveSemidefinite(b, n)
    ensures PositiveSemidefinite(Add(a, b), n)
  {
    forall x: Vec
      ensures Quad(Add(a, b), x, n) >= 0.0
    {
      QuadAdd(a, b, x, n);
    }
  }

  lemma ScaleSemidefinite(c: real, a: Mat, n: nat)
    requires PositiveSemidefinite(a, n) && c >= 0.0
    ensures PositiveSemidefinite(Scale(c, a), n)
  {
    forall x: Vec
      ensures Quad(Scale(c, a), x, n) >= 0.0
    {
      QuadScale(c, a, x, n);
    }
  }

  lemma SameSemidefinite(a: Mat, b: Mat, n: nat)
    requires PositiveSemidefinite(a, n) && Same(a, b, n)
    ensures PositiveSemidefinite(b, n)
  {
    forall x: Vec
      ensures Quad(b, x, n) >= 0.0
    {
      QuadSame(a, b, x, x, n);
    }
  }
}
