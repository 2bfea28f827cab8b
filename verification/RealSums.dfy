/** Finite sums of reals over index functions, with the few laws matrix algebra needs. */
module RealSums {

  type Vec = int -> real

  function Sum(f: Vec, n: nat): real {
    if n == 0 then 0.0 else Sum(f, n - 1) + f(n - 1)
  }

  function Plus(f: Vec, g: Vec): Vec { i => f(i) + g(i) }

  function Times(c: real, f: Vec): Vec { i => c * f(i) }

  function Product(f: Vec, g: Vec): Vec { i => f(i) * g(i) }

  function Dot(f: Vec, g: Vec, n: nat): real {
    Sum(Product(f, g), n)
  }

  lemma {:induction false} SumEqual(f: Vec, g: Vec, n: nat)
    requires forall i :: 0 <= i < n ==> f(i) == g(i)
    ensures Sum(f, n) == Sum(g, n)
  {
    if n > 0 {
      SumEqual(f, g, n - 1);
    }
  }

  lemma {:induction false} SumPlus(f: Vec, g: Vec, n: nat)
    ensures Sum(Plus(f, g), n) == Sum(f, n) + Sum(g, n)
  {
    if n > 0 {
      SumPlus(f, g, n - 1);
    }
  }

  lemma {:induction false} SumTimes(c: real, f: Vec, n: nat)
    ensures Sum(Times(c, f), n) == c * Sum(f, n)
  {
    if n > 0 {
      SumTimes(c, f, n - 1);
      assert c * Sum(f, n) == c * Sum(f, n - 1) + c * f(n - 1);
    }
  }

  lemma {:induction false} SumZero(f: Vec, n: nat)
    requires forall i :: 0 <= i < n ==> f(i) == 0.0
    ensures Sum(f, n) == 0.0
  {
    if n > 0 {
      SumZero(f, n - 1);
    }
  }

  /** Terms from m on vanish. */
  lemma {:induction false} SumTruncate(f: Vec, m: nat, n: nat)
    requires m <= n && forall i :: m <= i < n ==> f(i) == 0.0
    ensures Sum(f, n) == Sum(f, m)
  {
    if m < n {
      SumTruncate(f, m, n - 1);
    }
  }

  lemma {:induction false} SumNonNegative(f: Vec, n: nat)
    requires forall i :: 0 <= i < n ==> f(i) >= 0.0
    ensures Sum(f, n) >= 0.0
    ensures forall k :: 0 <= k < n ==> Sum(f, n) >= f(k)
  {
    if n > 0 {
      SumNonNegative(f, n - 1);
    }
  }

  /** Only the term at k counts. */
  lemma {:induction false} SumSingle(f: Vec, k: nat, n: nat)
    requires k < n && forall i :: 0 <= i < n && i != k ==> f(i) == 0.0
    ensures Sum(f, n) == f(k)
  {
    SumTruncate(f, k + 1, n);
    SumZero(f, k);
  }

  /** A sum that agrees with g before j and vanishes after j. */
  lemma SumUpTo(f: Vec, g: Vec, j: nat, n: nat)
    requires j < n && (forall k :: 0 <= k < j ==> f(k) == g(k)) && (forall k :: j < k < n ==> f(k) == 0.0)
    ensures Sum(f, n) == Sum(g, j) + f(j)
  {
    SumTruncate(f, j + 1, n);
    SumEqual(f, g, j);
  }

  lemma ProductEqual(f: Vec, g: Vec, f': Vec, g': Vec, k: int)
    requires f(k) == f'(k) && g(k) == g'(k)
    ensures Product(f, g)(k) == Product(f', g')(k)
  {
  }

  lemma ProductZero(f: Vec, g: Vec, k: int)
    requires f(k) == 0.0 || g(k) == 0.0
    ensures Product(f, g)(k) == 0.0
  {
  }

  function RowSums(F: (int, int) -> real, m: nat): Vec { i => Sum(j => F(i, j), m) }

  function ColumnSums(F: (int, int) -> real, n: nat): Vec { j => Sum(i => F(i, j), n) }

  /** A double sum may be taken in either order. */
  lemma {:induction false} SumSwap(F: (int, int) -> real, n: nat, m: nat)
    ensures Sum(RowSums(F, m), n) == Sum(ColumnSums(F, n), m)
  {
    if n == 0 {
      SumZero(ColumnSums(F, 0), m);
    } else {
      SumSwap(F, n - 1, m);
      var last: Vec := j => F(n - 1, j);
      SumPlus(ColumnSums(F, n - 1), last, m);
      SumEqual(ColumnSums(F, n), Plus(ColumnSums(F, n - 1), last), m);
      SumEqual(j => F(n - 1, j), last, m);
    }
  }

  lemma DotEqual(f: Vec, g: Vec, f': Vec, g': Vec, n: nat)
    requires forall i :: 0 <= i < n ==> f(i) == f'(i) && g(i) == g'(i)
    ensures Dot(f, g, n) == Dot(f', g', n)
  {
    SumEqual(Product(f, g), Product(f', g'), n);
  }

  lemma DotCommutes(f: Vec, g: Vec, n: nat)
    ensures Dot(f, g, n) == Dot(g, f, n)
  {
    SumEqual(Product(f, g), Product(g, f), n);
  }

  lemma DotPlus(f: Vec, g: Vec, h: Vec, n: nat)
    ensures Dot(f, Plus(g, h), n) == Dot(f, g, n) + Dot(f, h, n)
  {
    SumPlus(Product(f, g), Product(f, h), n);
    forall i
      ensures Product(f, Plus(g, h))(i) == Plus(Product(f, g), Product(f, h))(i)
    {
      assert f(i) * (g(i) + h(i)) == f(i) * g(i) + f(i) * h(i);
    }
    SumEqual(Product(f, Plus(g, h)), Plus(Product(f, g), Product(f, h)), n);
  }

  lemma DotTimes(c: real, f: Vec, g: Vec, n: nat)
    ensures Dot(f, Times(c, g), n) == c * Dot(f, g, n)
  {
    SumTimes(c, Product(f, g), n);
    forall i
      ensures Product(f, Times(c, g))(i) == Times(c, Product(f, g))(i)
    {
      assert f(i) * (c * g(i)) == c * (f(i) * g(i));
    }
    SumEqual(Product(f, Times(c, g)), Times(c, Product(f, g)), n);
  }
}
