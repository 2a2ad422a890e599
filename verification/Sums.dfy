/** Finite integer sums over `0..n-1`, the arithmetic behind degrees, edge weights and modularity. */
module Sums {

  ghost predicate InRange(i: int, n: int) {
    0 <= i < n
  }

  ghost function Sum(n: nat, f: int -> int): int {
    if n == 0 then 0 else Sum(n - 1, f) + f(n - 1)
  }

  /** Row `i` of a matrix. */
  ghost function Row(f: (int, int) -> int, i: int): int -> int {
    j => f(i, j)
  }

  /** The row sums of a matrix, as a function of the row. */
  ghost function RowSums(m: nat, f: (int, int) -> int): int -> int {
    i => Sum(m, Row(f, i))
  }

  ghost function Sum2(n: nat, m: nat, f: (int, int) -> int): int {
    Sum(n, RowSums(m, f))
  }

  ghost function Flip(f: (int, int) -> int): (int, int) -> int {
    (i, j) => f(j, i)
  }

  lemma {:induction false} SumExt(n: nat, f: int -> int, g: int -> int)
    requires forall i | 0 <= i < n :: f(i) == g(i)
    ensures Sum(n, f) == Sum(n, g)
  {
    if n == 0 {
    } else {
      SumExt(n - 1, f, g);
    }
  }

  lemma {:induction false} SumAdd(n: nat, f: int -> int, g: int -> int, h: int -> int)
    requires forall i | 0 <= i < n :: h(i) == f(i) + g(i)
    ensures Sum(n, h) == Sum(n, f) + Sum(n, g)
  {
    if n == 0 {
    } else {
      SumAdd(n - 1, f, g, h);
    }
  }

  lemma {:induction false} SumScale(n: nat, k: int, f: int -> int, h: int -> int)
    requires forall i | 0 <= i < n :: h(i) == k * f(i)
    ensures Sum(n, h) == k * Sum(n, f)
  {
    if n == 0 {
    } else {
      SumScale(n - 1, k, f, h);
    }
  }

  lemma SumLinear(n: nat, a: int, f: int -> int, b: int, g: int -> int, h: int -> int)
    requires forall i | 0 <= i < n :: h(i) == a * f(i) + b * g(i)
    ensures Sum(n, h) == a * Sum(n, f) + b * Sum(n, g)
  {
    SumScale(n, a, f, Scaled(a, f));
    SumScale(n, b, g, Scaled(b, g));
    SumAdd(n, Scaled(a, f), Scaled(b, g), h);
  }

  ghost function Scaled(k: int, f: int -> int): int -> int {
    i => k * f(i)
  }

  lemma {:induction false} SumZero(n: nat, f: int -> int)
    requires forall i | 0 <= i < n :: f(i) == 0
    ensures Sum(n, f) == 0
  {
    if n == 0 {
    } else {
      SumZero(n - 1, f);
    }
  }

  lemma {:induction false} SumMono(n: nat, f: int -> int, g: int -> int)
    requires forall i | 0 <= i < n :: f(i) <= g(i)
    ensures Sum(n, f) <= Sum(n, g)
  {
    if n == 0 {
    } else {
      SumMono(n - 1, f, g);
    }
  }

  /** A change of one summand changes the sum by as much. */
  lemma {:induction false} SumDelta(n: nat, f: int -> int, h: int -> int, u: nat, d: int)
    requires u < n
    requires forall i | 0 <= i < n && i != u :: h(i) == f(i)
    requires h(u) == f(u) + d
    ensures Sum(n, h) == Sum(n, f) + d
  {
    if u == n - 1 { SumExt(n - 1, f, h); } else { SumDelta(n - 1, f, h, u, d); }
  }

  /** A sum of non-negative terms is at least each of them. */
  lemma {:induction false} SumTerm(n: nat, f: int -> int, u: nat)
    requires u < n
    requires forall i | 0 <= i < n :: f(i) >= 0
    ensures Sum(n, f) >= f(u)
  {
    var rest := i => if i == u then 0 else f(i);
    SumDelta(n, rest, f, u, f(u));
    SumMono(n, i => 0, rest);
    SumZero(n, i => 0);
  }

  lemma {:induction false} SumSwap(n: nat, m: nat, f: (int, int) -> int)
    ensures Sum2(n, m, f) == Sum2(m, n, Flip(f))
  {
    if n == 0 {
      SumZero(m, RowSums(0, Flip(f)));
    } else {
      SumSwap(n - 1, m, f);
      SumAdd(m, RowSums(n - 1, Flip(f)), Row(f, n - 1), RowSums(n, Flip(f)));
    }
  }

  lemma Sum2Ext(n: nat, m: nat, f: (int, int) -> int, g: (int, int) -> int)
    requires forall i, j | 0 <= i < n && 0 <= j < m :: f(i, j) == g(i, j)
    ensures Sum2(n, m, f) == Sum2(n, m, g)
  {
    forall i | 0 <= i < n ensures RowSums(m, f)(i) == RowSums(m, g)(i) {
      SumExt(m, Row(f, i), Row(g, i));
    }
    SumExt(n, RowSums(m, f), RowSums(m, g));
  }

  lemma Sum2Delta(n: nat, m: nat, f: (int, int) -> int, h: (int, int) -> int, u: nat, v: nat, d: int)
    requires u < n && v < m
    requires forall i, j | 0 <= i < n && 0 <= j < m && (i != u || j != v) :: h(i, j) == f(i, j)
    requires h(u, v) == f(u, v) + d
    ensures Sum2(n, m, h) == Sum2(n, m, f) + d
  {
    forall i | 0 <= i < n && i != u ensures RowSums(m, h)(i) == RowSums(m, f)(i) {
      SumExt(m, Row(f, i), Row(h, i));
    }
    SumDelta(m, Row(f, u), Row(h, u), v, d);
    SumDelta(n, RowSums(m, f), RowSums(m, h), u, d);
  }

  lemma Sum2Zero(n: nat, m: nat, f: (int, int) -> int)
    requires forall i, j | 0 <= i < n && 0 <= j < m :: f(i, j) == 0
    ensures Sum2(n, m, f) == 0
  {
    forall i | 0 <= i < n ensures RowSums(m, f)(i) == 0 {
      SumZero(m, Row(f, i));
    }
    SumZero(n, RowSums(m, f));
  }

  lemma Sum2Mono(n: nat, m: nat, f: (int, int) -> int, g: (int, int) -> int)
    requires forall i, j | 0 <= i < n && 0 <= j < m :: f(i, j) <= g(i, j)
    ensures Sum2(n, m, f) <= Sum2(n, m, g)
  {
    forall i | 0 <= i < n ensures RowSums(m, f)(i) <= RowSums(m, g)(i) {
      SumMono(m, Row(f, i), Row(g, i));
    }
    SumMono(n, RowSums(m, f), RowSums(m, g));
  }

  lemma Sum2Linear(n: nat, m: nat, a: int, f: (int, int) -> int, b: int, g: (int, int) -> int, h: (int, int) -> int)
    requires forall i, j | 0 <= i < n && 0 <= j < m :: h(i, j) == a * f(i, j) + b * g(i, j)
    ensures Sum2(n, m, h) == a * Sum2(n, m, f) + b * Sum2(n, m, g)
  {
    forall i | 0 <= i < n ensures RowSums(m, h)(i) == a * RowSums(m, f)(i) + b * RowSums(m, g)(i) {
      SumLinear(m, a, Row(f, i), b, Row(g, i), Row(h, i));
    }
    SumLinear(n, a, RowSums(m, f), b, RowSums(m, g), RowSums(m, h));
  }

  /** A symmetric matrix with an even diagonal has an even sum. */
  lemma {:induction false} EvenSum(n: nat, f: (int, int) -> int)
    requires forall i, j | 0 <= i < n && 0 <= j < n :: f(i, j) == f(j, i)
    requires forall i | 0 <= i < n :: f(i, i) % 2 == 0
    ensures Sum2(n, n, f) % 2 == 0
  {
    if n == 0 {
    } else {
      EvenSum(n - 1, f);
      forall i | 0 <= i < n - 1 ensures RowSums(n, f)(i) == RowSums(n - 1, f)(i) + Row(f, n - 1)(i) {
        assert Row(f, i)(n - 1) == Row(f, n - 1)(i);
      }
      SumAdd(n - 1, RowSums(n - 1, f), Row(f, n - 1), RowSums(n, f));
      assert Row(f, n - 1)(n - 1) % 2 == 0;
    }
  }

  /** The terms whose class under `p` is `c`. */
  ghost function Fibre(p: int -> int, f: int -> int, c: int): int -> int {
    i => if p(i) == c then f(i) else 0
  }

  ghost function FibreSums(n: nat, p: int -> int, f: int -> int): int -> int {
    c => Sum(n, Fibre(p, f, c))
  }

  /** Summing class by class sums everything once. */
  lemma {:induction false} SumByFibre(n: nat, k: nat, p: int -> int, f: int -> int)
    requires forall i | 0 <= i < n :: 0 <= p(i) < k
    ensures Sum(k, FibreSums(n, p, f)) == Sum(n, f)
  {
    if n == 0 {
      SumZero(k, FibreSums(0, p, f));
    } else {
      SumByFibre(n - 1, k, p, f);
      SumDelta(k, FibreSums(n - 1, p, f), FibreSums(n, p, f), p(n - 1), f(n - 1));
    }
  }
}
