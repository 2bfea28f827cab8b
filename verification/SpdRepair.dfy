/**
 The in-place repair that turns any matrix into one Cholesky accepts: leave it, symmetrise
 it, add growing multiples of the identity, or fall back to its floored diagonal.
 */
module SpdRepair {
  import opened Bounds
  import opened RealSums
  import opened Matrices
  import opened Cholesky

  const ROUNDS: nat := 10
  const NORM_FLOOR: real := 0.000000000000001

  ghost function Symmetrized(a: Mat): Mat {
    (i, j) => if i == j then a(i, j) else 0.5 * (a(i, j) + a(j, i))
  }

  ghost function AddDiagonal(a: Mat, c: real): Mat {
    (i, j) => if i == j then a(i, j) + c else a(i, j)
  }

  /** The largest absolute diagonal entry, but never below the norm floor. */
  ghost function DiagonalNorm(a: Mat, n: nat): (norm: real)
    ensures norm >= NORM_FLOOR
    ensures forall i :: 0 <= i < n ==> AbsReal(a(i, i)) <= norm
  {
    if n == 0 then NORM_FLOOR else MaxReal(DiagonalNorm(a, n - 1), AbsReal(a(n - 1, n - 1)))
  }

  /** The amount added in round k, growing tenfold. */
  function RoundStep(base: real, k: nat): real {
    if k == 0 then base else RoundStep(base, k - 1) * 10.0
  }

  /** The total added after k rounds. */
  ghost function RoundTotal(base: real, k: nat): real {
    if k == 0 then 0.0 else RoundTotal(base, k - 1) + RoundStep(base, k - 1)
  }

  /** The diagonal of a, floored. */
  ghost function FlooredDiagonal(a: Mat, floor: real): Mat {
    (i, j) => if i == j then MaxReal(a(i, i), floor) else 0.0
  }

  ghost function AfterRounds(s: Mat, n: nat, k: nat): Mat {
    AddDiagonal(s, RoundTotal(DiagonalNorm(s, n) * 0.000001, k))
  }

  /** The first k rounds all failed. */
  ghost predicate RoundsFail(s: Mat, n: nat, k: nat) {
    forall j :: 1 <= j <= k ==> !Factorable(AfterRounds(s, n, j), n)
  }

  /** Which matrix the repair of a is. */
  ghost predicate IsRepair(a: Mat, b: Mat, n: nat) {
    var s := Symmetrized(a);
    if Factorable(a, n) then Same(b, a, n)
    else if Factorable(s, n) then Same(b, s, n)
    else
      || (exists k :: 1 <= k <= ROUNDS && RoundsFail(s, n, k - 1) && Same(b, AfterRounds(s, n, k), n))
      || (RoundsFail(s, n, ROUNDS) && Same(b, FlooredDiagonal(AfterRounds(s, n, ROUNDS), DiagonalNorm(s, n) * 0.0001), n))
  }

  // ------------------------------------------------------------------ the final fallback

  ghost function RootDiagonal(d: Mat, sqrt: real -> real): Mat { (i, j) => if i == j then sqrt(d(i, i)) else 0.0 }

  lemma RootAboveTiny(root: real, d: real)
    requires root > 0.0 && root * root == d && d >= 0.0000000000000000001
    ensures root >= TINY
  {
    if root < TINY {
      TinySquare(root);
    }
  }

  lemma TinySquare(root: real)
    requires 0.0 < root < TINY
    ensures root * root < 0.0000000000000000001
  {
    calc {
      root * root;
    <
      root * TINY;
    <
      0.0000000000000000001;
    }
  }

  /** A diagonal matrix with entries of at least 1e-19 is accepted. */
  lemma DiagonalFactorable(d: Mat, n: nat, sqrt: real -> real)
    requires IsSqrt(sqrt)
    requires forall i, j :: 0 <= i < n && 0 <= j < n && i != j ==> d(i, j) == 0.0
    requires forall i :: 0 <= i < n ==> d(i, i) >= 0.0000000000000000001
    ensures Factorable(d, n)
  {
    var l := RootDiagonal(d, sqrt);
    forall i, j | 0 <= j <= i < n
      ensures Dot(Row(l, i), Row(l, j), n) == d(i, j)
    {
      forall k | 0 <= k < n && k != i
        ensures Product(Row(l, i), Row(l, j))(k) == 0.0
      {
        ProductZero(Row(l, i), Row(l, j), k);
      }
      SumSingle(Product(Row(l, i), Row(l, j)), i, n);
      if j < i {
        ProductZero(Row(l, i), Row(l, j), i);
      } else {
        assert d(i, i) > 0.0;
        assert l(i, i) * l(i, i) == d(i, i);
      }
    }
    forall j | 0 <= j < n
      ensures l(j, j) > 0.0 && l(j, j) >= TINY
    {
      assert d(j, j) > 0.0;
      RootAboveTiny(l(j, j), d(j, j));
    }
    assert IsFactor(d, l, n);
  }

  lemma FlooredAtLeast(a: Mat, floor: real, i: int)
    ensures FlooredDiagonal(a, floor)(i, i) >= floor
  {
    var entry := MaxReal(a(i, i), floor);
    assert entry >= floor;
    assert FlooredDiagonal(a, floor)(i, i) == entry;
  }

  lemma FlooredFactorable(s: Mat, n: nat, sqrt: real -> real)
    requires IsSqrt(sqrt)
    ensures Factorable(FlooredDiagonal(AfterRounds(s, n, ROUNDS), DiagonalNorm(s, n) * 0.0001), n)
  {
    var floor := DiagonalNorm(s, n) * 0.0001;
    assert floor >= 0.0000000000000000001;
    var d := FlooredDiagonal(AfterRounds(s, n, ROUNDS), floor);
    forall i | 0 <= i < n
      ensures d(i, i) >= 0.0000000000000000001
    {
      FlooredAtLeast(AfterRounds(s, n, ROUNDS), floor, i);
    }
    DiagonalFactorable(d, n, sqrt);
  }

  // ------------------------------------------------------------------------ the methods

  method Accepted(m: array2<real>, ghost a: Mat, n: nat, sqrt: real -> real) returns (ok: bool)
    requires Holds(m, a, n) && IsSqrt(sqrt)
    ensures ok <==> Factorable(a, n)
  {
    var l;
    ok, l := Factorise(m, sqrt);
    if Factorable(a, n) {
      SameFactorable(a, View(m), n);
    }
    if Factorable(View(m), n) {
      SameFactorable(View(m), a, n);
    }
  }

  method Symmetrize(m: array2<real>, ghost a: Mat, n: nat)
    requires Holds(m, a, n)
    modifies m
    ensures Holds(m, Symmetrized(a), n)
  {
    ghost var s := Symmetrized(a);
    for i := 0 to n
      invariant forall p, q :: 0 <= p < n && 0 <= q < n && (p < i || q < i) ==> m[p, q] == s(p, q)
      invariant forall p, q :: i <= p < n && i <= q < n ==> m[p, q] == a(p, q)
    {
      for j := i + 1 to n
        invariant forall p, q :: 0 <= p < n && 0 <= q < n && (p < i || q < i) ==> m[p, q] == s(p, q)
        invariant forall q :: i < q < j ==> m[i, q] == s(i, q) && m[q, i] == s(q, i)
        invariant forall p, q :: i <= p < n && i <= q < n && ((p != i && q != i) || (p == q) || p >= j || q >= j) ==> m[p, q] == a(p, q)
      {
        var avg := 0.5 * (m[i, j] + m[j, i]);
        m[i, j] := avg;
        m[j, i] := avg;
      }
    }
  }

  method AddToDiagonal(m: array2<real>, ghost a: Mat, n: nat, reg: real)
    requires Holds(m, a, n)
    modifies m
    ensures Holds(m, AddDiagonal(a, reg), n)
  {
    for i := 0 to n
      invariant forall p, q :: 0 <= p < n && 0 <= q < n ==> m[p, q] == if p == q && p < i then a(p, q) + reg else a(p, q)
    {
      m[i, i] := m[i, i] + reg;
    }
  }

  method DiagonalNormOf(m: array2<real>, ghost a: Mat, n: nat) returns (norm: real)
    requires Holds(m, a, n)
    ensures norm == DiagonalNorm(a, n)
  {
    norm := NORM_FLOOR;
    for i := 0 to n
      invariant norm == DiagonalNorm(a, i)
    {
      norm := MaxReal(norm, AbsReal(m[i, i]));
    }
  }

  method KeepFlooredDiagonal(m: array2<real>, ghost a: Mat, n: nat, floor: real)
    requires Holds(m, a, n)
    modifies m
    ensures Holds(m, FlooredDiagonal(a, floor), n)
  {
    for i := 0 to n
      invariant forall p, q :: 0 <= p < n && 0 <= q < n ==> m[p, q] == if p < i then FlooredDiagonal(a, floor)(p, q) else a(p, q)
    {
      for j := 0 to n
        invariant forall p, q :: 0 <= p < n && 0 <= q < n ==>
                    m[p, q] == if p < i || (p == i && q < j) then FlooredDiagonal(a, floor)(p, q) else a(p, q)
      {
        m[i, j] := if i == j then MaxReal(m[i, i], floor) else 0.0;
      }
    }
  }

  lemma NextRound(s: Mat, n: nat, k: nat)
    ensures var base := DiagonalNorm(s, n) * 0.000001;
            Same(AddDiagonal(AfterRounds(s, n, k), RoundStep(base, k)), AfterRounds(s, n, k + 1), n)
  {
  }

  /** The rounds of growing regularisation; k is the round that succeeded, or all of them failed. */
  method Regularize(m: array2<real>, ghost s: Mat, n: nat, norm: real, sqrt: real -> real) returns (ok: bool, ghost k: nat)
    requires Holds(m, s, n) && norm == DiagonalNorm(s, n) && IsSqrt(sqrt)
    modifies m
    ensures k <= ROUNDS && Holds(m, AfterRounds(s, n, k), n)
    ensures ok ==> k >= 1 && RoundsFail(s, n, k - 1) && Factorable(AfterRounds(s, n, k), n)
    ensures !ok ==> k == ROUNDS && RoundsFail(s, n, ROUNDS)
  {
    var reg := norm * 0.000001;
    k := 0;
    ok := false;
    for round := 0 to ROUNDS
      invariant k == round && reg == RoundStep(norm * 0.000001, round)
      invariant Holds(m, AfterRounds(s, n, round), n) && RoundsFail(s, n, round)
    {
      AddToDiagonal(m, AfterRounds(s, n, round), n, reg);
      NextRound(s, n, round);
      k := round + 1;
      ok := Accepted(m, AfterRounds(s, n, k), n, sqrt);
      if ok {
        return;
      }
      reg := reg * 10.0;
    }
  }

  /** Repairs m in place: afterwards Cholesky accepts it. */
  method EnforceSpd(m: array2<real>, ghost a: Mat, n: nat, sqrt: real -> real) returns (ghost b: Mat)
    requires Holds(m, a, n) && IsSqrt(sqrt)
    modifies m
    ensures Holds(m, b, n) && Factorable(b, n) && IsRepair(a, b, n)
  {
    var ok := Accepted(m, a, n, sqrt);
    if ok {
      return a;
    }
    ghost var s := Symmetrized(a);
    Symmetrize(m, a, n);
    ok := Accepted(m, s, n, sqrt);
    if ok {
      return s;
    }
    var norm := DiagonalNormOf(m, s, n);
    ghost var k;
    ok, k := Regularize(m, s, n, norm, sqrt);
    if ok {
      return AfterRounds(s, n, k);
    }
    KeepFlooredDiagonal(m, AfterRounds(s, n, ROUNDS), n, norm * 0.0001);
    FlooredFactorable(s, n, sqrt);
    return FlooredDiagonal(AfterRounds(s, n, ROUNDS), norm * 0.0001);
  }

  /** The repair of a symmetric matrix is symmetric. */
  lemma RepairSymmetric(a: Mat, b: Mat, n: nat)
    requires IsRepair(a, b, n) && Symmetric(a, n)
    ensures Symmetric(b, n)
  {
    var s := Symmetrized(a);
    assert Symmetric(s, n);
    forall k: nat
      ensures Symmetric(AfterRounds(s, n, k), n)
    {
    }
  }
}
