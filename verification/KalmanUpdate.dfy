/**
 The Kalman update in Joseph form over exact reals. For any gain the posterior covariance
 is symmetric positive semidefinite; with the gain built from the true inverse it is the
 smallest posterior any gain can give, so it never exceeds the predicted covariance nor
 the measurement noise.
 */
module KalmanUpdate {
  import opened RealSums
  import opened Matrices
  import opened SpdInverse

  /** 1 - M, entry by entry. */
  function NegAddIdentity(m: Mat): Mat {
    (i, j) => if i == j then -m(i, j) + 1.0 else -m(i, j)
  }

  /** (1 - K) P (1 - K)^T + K R K^T, multiplied out the way the update does. */
  function Joseph(k: Mat, p: Mat, r: Mat, n: nat): Mat {
    var ik := NegAddIdentity(k);
    var kt := Transpose(k);
    var ikt := NegAddIdentity(kt);
    Add(Mul(ik, Mul(p, ikt, n), n), Mul(k, Mul(r, kt, n), n))
  }

  lemma JosephCongruences(k: Mat, p: Mat, r: Mat, n: nat)
    ensures Same(Joseph(k, p, r, n), Add(Congruence(NegAddIdentity(k), p, n), Congruence(k, r, n)), n)
  {
    var ik := NegAddIdentity(k);
    MulSame(p, NegAddIdentity(Transpose(k)), p, Transpose(ik), n);
    MulSame(ik, Mul(p, NegAddIdentity(Transpose(k)), n), ik, Mul(p, Transpose(ik), n), n);
  }

  /** Whatever the gain, the posterior covariance is symmetric positive semidefinite. */
  lemma JosephSemidefinite(k: Mat, p: Mat, r: Mat, n: nat)
    requires Symmetric(p, n) && PositiveSemidefinite(p, n)
    requires Symmetric(r, n) && PositiveSemidefinite(r, n)
    ensures Symmetric(Joseph(k, p, r, n), n) && PositiveSemidefinite(Joseph(k, p, r, n), n)
  {
    var ik := NegAddIdentity(k);
    var left, right := Congruence(ik, p, n), Congruence(k, r, n);
    JosephCongruences(k, p, r, n);
    SymmetricCongruence(ik, p, n);
    SymmetricCongruence(k, r, n);
    CongruenceSemidefinite(ik, p, n);
    CongruenceSemidefinite(k, r, n);
    AddSemidefinite(left, right, n);
    SameSemidefinite(Add(left, right), Joseph(k, p, r, n), n);
  }

  // -------------------------------------------------------------- optimality of the gain

  function Minus(x: Vec, y: Vec): Vec { i => x(i) - y(i) }

  /** The posterior form as a function of y = K^T x. */
  ghost function Spread(p: Mat, r: Mat, x: Vec, y: Vec, n: nat): real {
    Quad(p, Minus(x, y), n) + Quad(r, y, n)
  }

  lemma JosephForm(k: Mat, p: Mat, r: Mat, x: Vec, n: nat)
    ensures Quad(Joseph(k, p, r, n), x, n) == Spread(p, r, x, MatVec(Transpose(k), x, n), n)
  {
    var ik := NegAddIdentity(k);
    var y := MatVec(Transpose(k), x, n);
    JosephCongruences(k, p, r, n);
    QuadSame(Joseph(k, p, r, n), Add(Congruence(ik, p, n), Congruence(k, r, n)), x, x, n);
    QuadAdd(Congruence(ik, p, n), Congruence(k, r, n), x, n);
    QuadCongruence(ik, p, x, n);
    QuadCongruence(k, r, x, n);
    forall i | 0 <= i < n
      ensures MatVec(Transpose(ik), x, n)(i) == Minus(x, y)(i)
    {
      ComplementEntry(k, x, n, i);
    }
    QuadSame(p, p, MatVec(Transpose(ik), x, n), Minus(x, y), n);
  }

  lemma ComplementEntry(k: Mat, x: Vec, n: nat, i: nat)
    requires i < n
    ensures MatVec(Transpose(NegAddIdentity(k)), x, n)(i) == x(i) - MatVec(Transpose(k), x, n)(i)
  {
    var row := Row(Transpose(NegAddIdentity(k)), i);
    var minus: Vec := Times(-1.0, Row(Transpose(k), i));
    var unit := Row(Identity(), i);
    DotCommutes(row, x, n);
    forall j
      ensures row(j) == Plus(minus, unit)(j)
    {
    }
    DotEqual(x, row, x, Plus(minus, unit), n);
    DotPlus(x, minus, unit, n);
    DotTimes(-1.0, x, Row(Transpose(k), i), n);
    DotCommutes(x, Row(Transpose(k), i), n);
    SumSingle(Product(x, unit), i, n);
  }

  ghost function Form(a: Mat, x: Vec, y: Vec, n: nat): real { Dot(x, MatVec(a, y, n), n) }

  lemma MatVecPlus(a: Mat, x: Vec, y: Vec, n: nat, i: int)
    ensures MatVec(a, Plus(x, y), n)(i) == MatVec(a, x, n)(i) + MatVec(a, y, n)(i)
  {
    DotPlus(Row(a, i), x, y, n);
  }

  lemma DotPlusLeft(f: Vec, g: Vec, h: Vec, n: nat)
    ensures Dot(Plus(f, g), h, n) == Dot(f, h, n) + Dot(g, h, n)
  {
    DotCommutes(Plus(f, g), h, n);
    DotPlus(h, f, g, n);
    DotCommutes(h, f, n);
    DotCommutes(h, g, n);
  }

  lemma FormSymmetric(a: Mat, x: Vec, y: Vec, n: nat)
    requires Symmetric(a, n)
    ensures Form(a, x, y, n) == Form(a, y, x, n)
  {
    Adjoint(a, x, y, n);
    forall i | 0 <= i < n
      ensures MatVec(Transpose(a), x, n)(i) == MatVec(a, x, n)(i)
    {
      MatVecSame(Transpose(a), a, x, x, n, i);
    }
    DotEqual(MatVec(Transpose(a), x, n), y, MatVec(a, x, n), y, n);
    DotCommutes(MatVec(a, x, n), y, n);
  }

  /** The quadratic form of a sum of vectors. */
  lemma QuadPlus(a: Mat, x: Vec, d: Vec, n: nat)
    requires Symmetric(a, n)
    ensures Quad(a, Plus(x, d), n) == Quad(a, x, n) + 2.0 * Form(a, d, x, n) + Quad(a, d, n)
  {
    var u, v := MatVec(a, x, n), MatVec(a, d, n);
    forall i
      ensures MatVec(a, Plus(x, d), n)(i) == Plus(u, v)(i)
    {
      MatVecPlus(a, x, d, n, i);
    }
    DotEqual(Plus(x, d), MatVec(a, Plus(x, d), n), Plus(x, d), Plus(u, v), n);
    DotPlus(Plus(x, d), u, v, n);
    DotPlusLeft(x, d, u, n);
    DotPlusLeft(x, d, v, n);
    FormSymmetric(a, x, d, n);
  }

  /** y solves S y = P x, with S = P + R. */
  ghost predicate Balances(p: Mat, r: Mat, x: Vec, y: Vec, n: nat) {
    forall i :: 0 <= i < n ==> MatVec(Add(p, r), y, n)(i) == MatVec(p, x, n)(i)
  }

  /** Away from the balancing vector the spread grows by a quadratic form in the distance. */
  lemma SpreadGrows(p: Mat, r: Mat, x: Vec, y: Vec, d: Vec, n: nat)
    requires Symmetric(p, n) && Symmetric(r, n) && Balances(p, r, x, y, n)
    ensures Spread(p, r, x, Plus(y, d), n) == Spread(p, r, x, y, n) + Quad(Add(p, r), d, n)
  {
    var e := Minus(x, y);
    var back: Vec := Times(-1.0, d);
    QuadPlus(p, e, back, n);
    QuadSame(p, p, Minus(x, Plus(y, d)), Plus(e, back), n);
    QuadNegated(p, d, n);
    FormNegated(p, d, e, n);
    QuadPlus(r, y, d, n);
    QuadAdd(p, r, d, n);
    FormMinus(p, d, x, y, n);
    FormAdd(p, r, d, y, n);
    DotEqual(d, MatVec(Add(p, r), y, n), d, MatVec(p, x, n), n);
  }

  lemma QuadNegated(a: Mat, d: Vec, n: nat)
    ensures Quad(a, Times(-1.0, d), n) == Quad(a, d, n)
  {
    var back: Vec := Times(-1.0, d);
    forall i
      ensures MatVec(a, back, n)(i) == Times(-1.0, MatVec(a, d, n))(i)
    {
      DotTimes(-1.0, Row(a, i), d, n);
    }
    DotEqual(back, MatVec(a, back, n), back, Times(-1.0, MatVec(a, d, n)), n);
    DotTimes(-1.0, back, MatVec(a, d, n), n);
    DotCommutes(back, MatVec(a, d, n), n);
    DotTimes(-1.0, MatVec(a, d, n), d, n);
    DotCommutes(MatVec(a, d, n), d, n);
  }

  lemma FormNegated(a: Mat, d: Vec, e: Vec, n: nat)
    ensures Form(a, Times(-1.0, d), e, n) == -Form(a, d, e, n)
  {
    var u := MatVec(a, e, n);
    DotCommutes(Times(-1.0, d), u, n);
    DotTimes(-1.0, u, d, n);
    DotCommutes(u, d, n);
  }

  lemma FormMinus(a: Mat, d: Vec, x: Vec, y: Vec, n: nat)
    ensures Form(a, d, Minus(x, y), n) == Form(a, d, x, n) - Form(a, d, y, n)
  {
    var back: Vec := Times(-1.0, y);
    forall i
      ensures MatVec(a, Minus(x, y), n)(i) == Plus(MatVec(a, x, n), Times(-1.0, MatVec(a, y, n)))(i)
    {
      DotEqual(Row(a, i), Minus(x, y), Row(a, i), Plus(x, back), n);
      DotPlus(Row(a, i), x, back, n);
      DotTimes(-1.0, Row(a, i), y, n);
    }
    DotEqual(d, MatVec(a, Minus(x, y), n), d, Plus(MatVec(a, x, n), Times(-1.0, MatVec(a, y, n))), n);
    DotPlus(d, MatVec(a, x, n), Times(-1.0, MatVec(a, y, n)), n);
    DotTimes(-1.0, d, MatVec(a, y, n), n);
  }

  lemma FormAdd(a: Mat, b: Mat, d: Vec, y: Vec, n: nat)
    ensures Form(Add(a, b), d, y, n) == Form(a, d, y, n) + Form(b, d, y, n)
  {
    forall i
      ensures MatVec(Add(a, b), y, n)(i) == Plus(MatVec(a, y, n), MatVec(b, y, n))(i)
    {
      DotCommutes(Row(Add(a, b), i), y, n);
      DotEqual(y, Row(Add(a, b), i), y, Plus(Row(a, i), Row(b, i)), n);
      DotPlus(y, Row(a, i), Row(b, i), n);
      DotCommutes(Row(a, i), y, n);
      DotCommutes(Row(b, i), y, n);
    }
    DotEqual(d, MatVec(Add(a, b), y, n), d, Plus(MatVec(a, y, n), MatVec(b, y, n)), n);
    DotPlus(d, MatVec(a, y, n), MatVec(b, y, n), n);
  }

  /** The gain built from the inverse of S makes K^T x the balancing vector. */
  lemma GainBalances(p: Mat, r: Mat, sInv: Mat, x: Vec, n: nat)
    requires Symmetric(p, n) && IsInverse(Add(p, r), sInv, n)
    ensures Balances(p, r, x, MatVec(Transpose(Mul(p, sInv, n)), x, n), n)
  {
    var s := Add(p, r);
    var u := MatVec(p, x, n);
    var y := MatVec(Transpose(Mul(p, sInv, n)), x, n);
    var w := MatVec(sInv, u, n);
    TransposeMul(p, sInv, n);
    MulSame(Transpose(sInv), Transpose(p), sInv, p, n);
    forall i | 0 <= i < n
      ensures y(i) == w(i)
    {
      MatVecSame(Transpose(Mul(p, sInv, n)), Mul(sInv, p, n), x, x, n, i);
      MulVec(sInv, p, x, n, i);
    }
    forall i | 0 <= i < n
      ensures MatVec(s, y, n)(i) == u(i)
    {
      MatVecSame(s, s, y, w, n, i);
      MulVec(s, sInv, u, n, i);
      MatVecSame(Mul(s, sInv, n), Identity(), u, u, n, i);
      SumSingle(Product(Row(Identity(), i), u), i, n);
    }
  }

  /** No gain gives a smaller posterior covariance than P S^-1. */
  lemma GainOptimal(p: Mat, r: Mat, sInv: Mat, other: Mat, x: Vec, n: nat)
    requires Symmetric(p, n) && PositiveSemidefinite(p, n)
    requires Symmetric(r, n) && PositiveSemidefinite(r, n)
    requires IsInverse(Add(p, r), sInv, n)
    ensures Quad(Joseph(Mul(p, sInv, n), p, r, n), x, n) <= Quad(Joseph(other, p, r, n), x, n)
  {
    var y := MatVec(Transpose(Mul(p, sInv, n)), x, n);
    var z := MatVec(Transpose(other), x, n);
    JosephForm(Mul(p, sInv, n), p, r, x, n);
    JosephForm(other, p, r, x, n);
    GainBalances(p, r, sInv, x, n);
    var d := Minus(z, y);
    SpreadGrows(p, r, x, y, d, n);
    QuadSame(p, p, Minus(x, Plus(y, d)), Minus(x, z), n);
    QuadSame(r, r, Plus(y, d), z, n);
    AddSemidefinite(p, r, n);
    assert Quad(Add(p, r), d, n) >= 0.0;
  }

  /** The posterior never exceeds the predicted covariance, nor the measurement noise. */
  lemma PosteriorShrinks(p: Mat, r: Mat, sInv: Mat, x: Vec, n: nat)
    requires Symmetric(p, n) && PositiveSemidefinite(p, n)
    requires Symmetric(r, n) && PositiveSemidefinite(r, n)
    requires IsInverse(Add(p, r), sInv, n)
    ensures Quad(Joseph(Mul(p, sInv, n), p, r, n), x, n) <= Quad(p, x, n)
    ensures Quad(Joseph(Mul(p, sInv, n), p, r, n), x, n) <= Quad(r, x, n)
  {
    var zero: Mat := (_, _) => 0.0;
    GainOptimal(p, r, sInv, zero, x, n);
    GainOptimal(p, r, sInv, Identity(), x, n);
    JosephForm(zero, p, r, x, n);
    JosephForm(Identity(), p, r, x, n);
    ZeroGain(p, r, x, n);
    FullGain(p, r, x, n);
  }

  lemma QuadOfZero(a: Mat, v: Vec, n: nat)
    requires forall i :: 0 <= i < n ==> v(i) == 0.0
    ensures Quad(a, v, n) == 0.0
  {
    forall i | 0 <= i < n
      ensures Product(v, MatVec(a, v, n))(i) == 0.0
    {
      ProductZero(v, MatVec(a, v, n), i);
    }
    SumZero(Product(v, MatVec(a, v, n)), n);
  }

  lemma ZeroGain(p: Mat, r: Mat, x: Vec, n: nat)
    ensures var zero: Mat := (_, _) => 0.0;
            Spread(p, r, x, MatVec(Transpose(zero), x, n), n) == Quad(p, x, n)
  {
    var zero: Mat := (_, _) => 0.0;
    var y := MatVec(Transpose(zero), x, n);
    forall i | 0 <= i < n
      ensures y(i) == 0.0
    {
      SumZero(Product(Row(Transpose(zero), i), x), n);
    }
    QuadOfZero(r, y, n);
    QuadSame(p, p, Minus(x, y), x, n);
  }

  lemma FullGain(p: Mat, r: Mat, x: Vec, n: nat)
    ensures Spread(p, r, x, MatVec(Transpose(Identity()), x, n), n) == Quad(r, x, n)
  {
    var y := MatVec(Transpose(Identity()), x, n);
    forall i | 0 <= i < n
      ensures y(i) == x(i)
    {
      SumSingle(Product(Row(Transpose(Identity()), i), x), i, n);
    }
    QuadOfZero(p, Minus(x, y), n);
    QuadSame(r, r, y, x, n);
  }
}
