/**
 Cholesky factorisation over exact reals, entry by entry in place. The factoring method
 succeeds exactly on the matrices that have an acceptable factor, and returns it.
 */
module Cholesky {
  import opened RealSums
  import opened Matrices

  /** Divisors below this are rejected. */
  const TINY: real := 0.000000000000001

  ghost predicate IsSqrt(sqrt: real -> real) {
    forall x :: x > 0.0 ==> sqrt(x) > 0.0 && sqrt(x) * sqrt(x) == x
  }

  // ------------------------------------------------------------------------- factors

  ghost predicate LowerTriangular(l: Mat, n: nat) {
    forall i, j :: 0 <= i < j < n ==> l(i, j) == 0.0
  }

  /**
   l is lower triangular with positive diagonal, l times its transpose is a on and below
   the diagonal, and every diagonal entry that serves as a divisor is not tiny.
   */
  ghost predicate IsFactor(a: Mat, l: Mat, n: nat) {
    && LowerTriangular(l, n)
    && (forall i, j :: 0 <= j <= i < n ==> Dot(Row(l, i), Row(l, j), n) == a(i, j))
    && (forall j :: 0 <= j < n ==> l(j, j) > 0.0)
    && (forall j :: 0 <= j < n - 1 ==> l(j, j) >= TINY)
  }

  ghost predicate Factorable(a: Mat, n: nat) {
    exists l: Mat :: IsFactor(a, l, n)
  }

  /** Row-major order of the entries on and below the diagonal. */
  predicate Done(p: int, q: int, i: int, j: int) {
    p < i || (p == i && q < j)
  }

  /** The factor is right on the entries before (i, j) and zero everywhere else. */
  ghost predicate Partial(a: Mat, l: Mat, n: nat, i: int, j: int) {
    && (forall p, q :: 0 <= p < n && 0 <= q < n && (p < q || !Done(p, q, i, j)) ==> l(p, q) == 0.0)
    && (forall p, q :: 0 <= q <= p < n && Done(p, q, i, j) ==> Dot(Row(l, p), Row(l, q), n) == a(p, q))
    && (forall q :: 0 <= q < n && Done(q, q, i, j) ==> l(q, q) > 0.0)
    && (forall p, q :: 0 <= q < p < n && Done(p, q, i, j) ==> l(q, q) >= TINY)
  }

  function Set(l: Mat, i: int, j: int, v: real): Mat {
    (p, q) => if p == i && q == j then v else l(p, q)
  }

  /** The inner product of the first j entries of rows i and j. */
  ghost function Inner(l: Mat, i: int, j: nat): real {
    Dot(Row(l, i), Row(l, j), j)
  }

  /** Writing entry (i, j) completes the product of rows i and j. */
  lemma RowsAfterSet(l: Mat, n: nat, i: nat, j: nat, v: real)
    requires j <= i < n && forall k :: j < k < n ==> l(j, k) == 0.0
    ensures var l' := Set(l, i, j, v);
            Dot(Row(l', i), Row(l', j), n) == Inner(l, i, j) + v * l'(j, j)
  {
    var l' := Set(l, i, j, v);
    forall k | j < k < n
      ensures Product(Row(l', i), Row(l', j))(k) == 0.0
    {
      ProductZero(Row(l', i), Row(l', j), k);
    }
    forall k | 0 <= k < j
      ensures Product(Row(l', i), Row(l', j))(k) == Product(Row(l, i), Row(l, j))(k)
    {
      ProductEqual(Row(l', i), Row(l', j), Row(l, i), Row(l, j), k);
    }
    SumUpTo(Product(Row(l', i), Row(l', j)), Product(Row(l, i), Row(l, j)), j, n);
  }

  /** Writing entry (i, j) leaves the product of any earlier pair of rows alone. */
  lemma RowsBeforeSet(a: Mat, l: Mat, n: nat, i: nat, j: nat, v: real, p: nat, q: nat)
    requires Partial(a, l, n, i, j) && j <= i < n
    requires q <= p < n && Done(p, q, i, j)
    ensures var l' := Set(l, i, j, v);
            Dot(Row(l', p), Row(l', q), n) == Dot(Row(l, p), Row(l, q), n)
  {
    var l' := Set(l, i, j, v);
    forall k | 0 <= k < n
      ensures Product(Row(l', p), Row(l', q))(k) == Product(Row(l, p), Row(l, q))(k)
    {
      if p == i && k == j {
        assert l(q, j) == 0.0;
        ProductZero(Row(l', p), Row(l', q), k);
        ProductZero(Row(l, p), Row(l, q), k);
      } else {
        ProductEqual(Row(l', p), Row(l', q), Row(l, p), Row(l, q), k);
      }
    }
    SumEqual(Product(Row(l', p), Row(l', q)), Product(Row(l, p), Row(l, q)), n);
  }

  lemma SetKeepsPartial(a: Mat, l: Mat, n: nat, i: nat, j: nat, v: real)
    requires Partial(a, l, n, i, j) && j <= i < n
    requires Inner(l, i, j) + v * Set(l, i, j, v)(j, j) == a(i, j)
    requires if j == i then v > 0.0 else l(j, j) >= TINY
    ensures Partial(a, Set(l, i, j, v), n, i, j + 1)
  {
    var l' := Set(l, i, j, v);
    RowsAfterSet(l, n, i, j, v);
    forall p, q | 0 <= q <= p < n && Done(p, q, i, j + 1)
      ensures Dot(Row(l', p), Row(l', q), n) == a(p, q)
    {
      if Done(p, q, i, j) {
        RowsBeforeSet(a, l, n, i, j, v, p, q);
      }
    }
    forall p, q | 0 <= p < n && 0 <= q < n && (p < q || !Done(p, q, i, j + 1))
      ensures l'(p, q) == 0.0
    {
      assert p < q || !Done(p, q, i, j);
    }
    forall q | 0 <= q < n && Done(q, q, i, j + 1)
      ensures l'(q, q) > 0.0
    {
      assert Done(q, q, i, j) || (q == i && q == j);
    }
    SetKeepsDivisors(a, l, n, i, j, v);
  }

  lemma SetKeepsDivisors(a: Mat, l: Mat, n: nat, i: nat, j: nat, v: real)
    requires Partial(a, l, n, i, j) && j <= i < n
    requires if j == i then v > 0.0 else l(j, j) >= TINY
    ensures forall p, q {:trigger Set(l, i, j, v)(q, q), Done(p, q, i, j + 1)} ::
              0 <= q < p < n && Done(p, q, i, j + 1) ==> Set(l, i, j, v)(q, q) >= TINY
  {
    var l', k := Set(l, i, j, v), j + 1;
    forall p, q | 0 <= q < p < n && Done(p, q, i, k)
      ensures l'(q, q) >= TINY
    {
      assert Done(p, q, i, j) || (p == i && q == j);
    }
  }

  lemma NextRow(a: Mat, l: Mat, n: nat, i: nat)
    requires i < n && Partial(a, l, n, i, i + 1)
    ensures Partial(a, l, n, i + 1, 0)
  {
    var k := i + 1;
    forall p, q | 0 <= p < n && 0 <= q < n && (p < q || !Done(p, q, k, 0))
      ensures l(p, q) == 0.0
    {
      assert p < q || !Done(p, q, i, k);
    }
    forall p, q | 0 <= q <= p < n && Done(p, q, k, 0)
      ensures Dot(Row(l, p), Row(l, q), n) == a(p, q)
      ensures l(q, q) > 0.0
      ensures q < p ==> l(q, q) >= TINY
    {
      assert Done(p, q, i, k) && Done(q, q, i, k);
    }
  }

  lemma PartialDone(a: Mat, l: Mat, n: nat)
    requires Partial(a, l, n, n, 0)
    ensures IsFactor(a, l, n)
  {
    forall j | 0 <= j < n - 1
      ensures l(j, j) >= TINY
    {
      assert Done(j + 1, j, n, 0);
    }
  }

  // ------------------------------------------------------- the factor is determined

  /** l and f agree on the entries before (i, j). */
  ghost predicate Agree(l: Mat, f: Mat, n: nat, i: int, j: int) {
    forall p, q :: 0 <= q <= p < n && Done(p, q, i, j) ==> l(p, q) == f(p, q)
  }

  /** Any factor satisfies the defining equation of entry (i, j) in terms of what is already known. */
  lemma FactorEntry(a: Mat, l: Mat, f: Mat, n: nat, i: nat, j: nat)
    requires IsFactor(a, f, n) && Agree(l, f, n, i, j) && j <= i < n
    ensures Inner(l, i, j) + f(i, j) * f(j, j) == a(i, j)
  {
    var g := Product(Row(f, i), Row(f, j));
    SumTruncate(g, j + 1, n);
    forall k | 0 <= k < j
      ensures Product(Row(l, i), Row(l, j))(k) == g(k)
    {
      assert Done(i, k, i, j) && Done(j, k, i, j);
    }
    SumEqual(Product(Row(l, i), Row(l, j)), g, j);
  }

  /** Off the diagonal the entry is the quotient the method computes. */
  lemma FactorOffDiagonal(a: Mat, l: Mat, f: Mat, n: nat, i: nat, j: nat, v: real)
    requires IsFactor(a, f, n) && Agree(l, f, n, i, j) && j < i < n
    requires v * l(j, j) == a(i, j) - Inner(l, i, j) && l(j, j) != 0.0
    ensures v == f(i, j)
  {
    FactorEntry(a, l, f, n, i, j);
    assert Done(j, j, i, j);
    assert (v - f(i, j)) * l(j, j) == 0.0;
  }

  /** On the diagonal it is the positive root. */
  lemma FactorDiagonal(a: Mat, l: Mat, f: Mat, n: nat, j: nat, v: real)
    requires IsFactor(a, f, n) && Agree(l, f, n, j, j) && j < n
    requires v > 0.0 && v * v == a(j, j) - Inner(l, j, j)
    ensures v == f(j, j)
  {
    FactorEntry(a, l, f, n, j, j);
    assert (v - f(j, j)) * (v + f(j, j)) == v * v - f(j, j) * f(j, j);
  }

  lemma SquarePositive(x: real, sum: real, total: real)
    requires x != 0.0 && sum + x * x == total
    ensures total - sum > 0.0
  {
    calc {
      total - sum;
    ==
      x * x;
    >
      0.0;
    }
  }

  lemma PivotPositive(a: Mat, l: Mat, f: Mat, n: nat, j: nat)
    requires IsFactor(a, f, n) && Agree(l, f, n, j, j) && j < n
    ensures a(j, j) - Inner(l, j, j) > 0.0
  {
    FactorEntry(a, l, f, n, j, j);
    SquarePositive(f(j, j), Inner(l, j, j), a(j, j));
  }

  /** Every factor of a agrees with l before (i, j). */
  ghost predicate Determined(a: Mat, l: Mat, n: nat, i: int, j: int) {
    forall f: Mat :: IsFactor(a, f, n) ==> Agree(l, f, n, i, j)
  }

  lemma DeterminedNextRow(a: Mat, l: Mat, n: nat, i: nat)
    requires Determined(a, l, n, i, i + 1)
    ensures Determined(a, l, n, i + 1, 0)
  {
    forall f: Mat, p, q | IsFactor(a, f, n) && 0 <= q <= p < n && Done(p, q, i + 1, 0)
      ensures l(p, q) == f(p, q)
    {
      assert Agree(l, f, n, i, i + 1);
      assert Done(p, q, i, i + 1);
    }
  }

  // --------------------------------------------------------------------- buffers

  function Grid(m: array2<real>): seq<seq<real>>
    reads m
  {
    seq(m.Length0, i requires 0 <= i < m.Length0 reads m =>
      seq(m.Length1, j requires 0 <= j < m.Length1 reads m => m[i, j]))
  }

  function FromGrid(g: seq<seq<real>>): Mat {
    (i, j) => if 0 <= i < |g| && 0 <= j < |g[i]| then g[i][j] else 0.0
  }

  /** The matrix held by a buffer. */
  function View(m: array2<real>): (a: Mat)
    reads m
    ensures forall i, j :: 0 <= i < m.Length0 && 0 <= j < m.Length1 ==> a(i, j) == m[i, j]
  {
    FromGrid(Grid(m))
  }

  ghost predicate Square(m: array2<real>, n: nat) {
    m.Length0 == n && m.Length1 == n
  }

  /** The buffer holds l. */
  ghost predicate Holds(m: array2<real>, l: Mat, n: nat)
    reads m
  {
    Square(m, n) && forall p, q :: 0 <= p < n && 0 <= q < n ==> m[p, q] == l(p, q)
  }

  lemma SameFactor(a: Mat, b: Mat, l: Mat, k: Mat, n: nat)
    requires Same(a, b, n) && Same(l, k, n) && IsFactor(a, l, n)
    ensures IsFactor(b, k, n)
  {
    forall i, j | 0 <= j <= i < n
      ensures Dot(Row(k, i), Row(k, j), n) == b(i, j)
    {
      DotEqual(Row(l, i), Row(l, j), Row(k, i), Row(k, j), n);
    }
  }

  lemma SameFactorable(a: Mat, b: Mat, n: nat)
    requires Same(a, b, n) && Factorable(a, n)
    ensures Factorable(b, n)
  {
    var l: Mat :| IsFactor(a, l, n);
    SameFactor(a, b, l, l, n);
  }

  // --------------------------------------------------------------------- the method

  /** The sum of products of the first j entries of rows i and j. */
  method InnerProduct(m: array2<real>, ghost l: Mat, n: nat, i: nat, j: nat) returns (sum: real)
    requires Holds(m, l, n) && j <= i < n
    ensures sum == Inner(l, i, j)
  {
    sum := 0.0;
    for k := 0 to j
      invariant sum == Dot(Row(l, i), Row(l, j), k)
    {
      sum := sum + m[i, k] * m[j, k];
    }
  }

  /**
   Factors a in row-major order, giving up at a pivot that is not positive or a divisor
   that is tiny. It succeeds exactly when an acceptable factor exists.
   */
  method Factorise(a: array2<real>, sqrt: real -> real) returns (ok: bool, m: array2<real>)
    requires a.Length0 == a.Length1 && IsSqrt(sqrt)
    ensures fresh(m) && Square(m, a.Length0)
    ensures ok <==> Factorable(View(a), a.Length0)
    ensures ok ==> IsFactor(View(a), View(m), a.Length0)
  {
    var n := a.Length0;
    ghost var target := View(a);
    m := new real[n, n]((_, _) => 0.0);
    ghost var l: Mat := (_, _) => 0.0;
    ok := true;
    for i := 0 to n
      invariant Holds(m, l, n)
      invariant Partial(target, l, n, i, 0) && Determined(target, l, n, i, 0)
    {
      ok, l := FillRow(a, target, sqrt, m, l, n, i);
      if !ok {
        return;
      }
    }
    PartialDone(target, l, n);
    SameFactor(target, View(a), l, View(m), n);
  }

  /** Fills row i. */
  method FillRow(a: array2<real>, ghost target: Mat, sqrt: real -> real, m: array2<real>, ghost l: Mat, n: nat, i: nat)
    returns (ok: bool, ghost l': Mat)
    requires a != m && Holds(a, target, n) && IsSqrt(sqrt) && Holds(m, l, n) && i < n
    requires Partial(target, l, n, i, 0) && Determined(target, l, n, i, 0)
    modifies m
    ensures !ok ==> !Factorable(target, n)
    ensures ok ==> Holds(m, l', n) && Partial(target, l', n, i + 1, 0) && Determined(target, l', n, i + 1, 0)
  {
    l' := l;
    ok := true;
    for j := 0 to i + 1
      invariant Holds(m, l', n)
      invariant Partial(target, l', n, i, j) && Determined(target, l', n, i, j)
    {
      var v;
      ok, v := Entry(a, target, sqrt, m, l', n, i, j);
      if !ok {
        return;
      }
      SetKeepsPartial(target, l', n, i, j, v);
      EntryDetermined(target, l', n, i, j, v);
      m[i, j] := v;
      l' := Set(l', i, j, v);
    }
    NextRow(target, l', n, i);
    DeterminedNextRow(target, l', n, i);
  }

  /** The value of entry (i, j), or a refusal. */
  method Entry(a: array2<real>, ghost target: Mat, sqrt: real -> real, m: array2<real>, ghost l: Mat, n: nat, i: nat, j: nat)
    returns (ok: bool, v: real)
    requires Holds(a, target, n) && IsSqrt(sqrt) && Holds(m, l, n) && j <= i < n
    requires Partial(target, l, n, i, j) && Determined(target, l, n, i, j)
    ensures !ok ==> !Factorable(target, n)
    ensures ok ==> Inner(l, i, j) + v * Set(l, i, j, v)(j, j) == target(i, j)
    ensures ok ==> if j == i then v > 0.0 else l(j, j) >= TINY
  {
    var sum := InnerProduct(m, l, n, i, j);
    v := 0.0;
    if j == i {
      var val := a[j, j] - sum;
      if val <= 0.0 {
        NoFactorAtPivot(target, l, n, j);
        return false, v;
      }
      return true, sqrt(val);
    }
    DivisorPositive(target, l, n, i, j);
    var divisor := m[j, j];
    if (if divisor < 0.0 then -divisor else divisor) < TINY {
      NoFactorAtDivisor(target, l, n, i, j);
      return false, v;
    }
    Quotient(a[i, j] - sum, divisor);
    return true, (a[i, j] - sum) / divisor;
  }

  lemma DivisorPositive(a: Mat, l: Mat, n: nat, i: nat, j: nat)
    requires Partial(a, l, n, i, j) && j < i < n
    ensures l(j, j) > 0.0
  {
    assert Done(j, j, i, j);
  }

  lemma Quotient(x: real, y: real)
    requires y != 0.0
    ensures (x / y) * y == x
  {
  }

  lemma NoFactorAtPivot(a: Mat, l: Mat, n: nat, j: nat)
    requires j < n && a(j, j) - Inner(l, j, j) <= 0.0
    requires Determined(a, l, n, j, j)
    ensures !Factorable(a, n)
  {
    if Factorable(a, n) {
      var f: Mat :| IsFactor(a, f, n);
      PivotPositive(a, l, f, n, j);
    }
  }

  lemma NoFactorAtDivisor(a: Mat, l: Mat, n: nat, i: nat, j: nat)
    requires j < i < n && l(j, j) < TINY
    requires Determined(a, l, n, i, j)
    ensures !Factorable(a, n)
  {
    forall f: Mat | IsFactor(a, f, n)
      ensures l(j, j) == f(j, j)
    {
      assert Done(j, j, i, j);
    }
  }

  /** The value written is the entry of every factor. */
  lemma EntryDetermined(a: Mat, l: Mat, n: nat, i: nat, j: nat, v: real)
    requires j <= i < n
    requires Inner(l, i, j) + v * Set(l, i, j, v)(j, j) == a(i, j)
    requires if j == i then v > 0.0 else l(j, j) >= TINY
    requires Determined(a, l, n, i, j)
    ensures Determined(a, Set(l, i, j, v), n, i, j + 1)
  {
    forall f: Mat | IsFactor(a, f, n)
      ensures Agree(Set(l, i, j, v), f, n, i, j + 1)
    {
      assert Agree(l, f, n, i, j);
      if j == i {
        FactorDiagonal(a, l, f, n, j, v);
      } else {
        FactorOffDiagonal(a, l, f, n, i, j, v);
      }
      forall p, q | 0 <= q <= p < n && Done(p, q, i, j + 1)
        ensures Set(l, i, j, v)(p, q) == f(p, q)
      {
        assert Done(p, q, i, j) || (p == i && q == j);
      }
    }
  }
}
