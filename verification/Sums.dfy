/** Finite sums of reals over an index range. */
module Sums {

  /** f(0) + ... + f(n-1) */
  ghost function Sum(n: nat, f: int -> real): real {
    if n == 0 then 0.0 else Sum(n - 1, f) + f(n - 1)
  }

  lemma {:induction false} SumEqual(n: nat, f: int -> real, g: int -> real)
    requires forall i :: 0 <= i < n ==> f(i) == g(i)
    ensures Sum(n, f) == Sum(n, g)
  {
    if n > 0 { SumEqual(n - 1, f, g); }
  }

  lemma {:induction false} SumAdd(n: nat, f: int -> real, g: int -> real)
    ensures Sum(n, i => f(i) + g(i)) == Sum(n, f) + Sum(n, g)
  {
    if n > 0 { SumAdd(n - 1, f, g); }
  }

  lemma {:induction false} SumScale(n: nat, c: real, f: int -> real)
    ensures Sum(n, i => c * f(i)) == c * Sum(n, f)
  {
    if n > 0 { SumScale(n - 1, c, f); }
  }

  lemma {:induction false} SumZero(n: nat, f: int -> real)
    requires forall i :: 0 <= i < n ==> f(i) == 0.0
    ensures Sum(n, f) == 0.0
  {
    if n > 0 { SumZero(n - 1, f); }
  }

  /** Terms that vanish from `k` on do not count. */
  lemma {:induction false} SumTail(n: nat, k: nat, f: int -> real)
    requires k <= n && forall i :: k <= i < n ==> f(i) == 0.0
    ensures Sum(n, f) == Sum(k, f)
  {
    if k < n { SumTail(n - 1, k, f); }
  }

  /** Sums over the second, and over the first, index of a family. */
  ghost function Across(m: nat, f: (int, int) -> real): int -> real {
    i => Sum(m, j => f(i, j))
  }

  ghost function Down(n: nat, f: (int, int) -> real): int -> real {
    j => Sum(n, i => f(i, j))
  }

  /** Exchange of the order of summation. */
  lemma {:induction false} SumSwap(n: nat, m: nat, f: (int, int) -> real)
    ensures Sum(n, Across(m, f)) == Sum(m, Down(n, f))
  {
    if n == 0 {
      SumZero(m, Down(0, f));
    } else {
      SumSwap(n - 1, m, f);
      var last := (j: int) => f(n - 1, j);
      SumAdd(m, Down(n - 1, f), last);
      forall j | 0 <= j < m ensures Down(n - 1, f)(j) + last(j) == Down(n, f)(j) {
        SumEqual(n - 1, i => f(i, j), i => f(i, j));
      }
      SumEqual(m, j => Down(n - 1, f)(j) + last(j), Down(n, f));
      SumEqual(m, j => f(n - 1, j), last);
    }
  }

  // ----- inner products

  ghost function Dot(n: nat, f: int -> real, g: int -> real): real {
    Sum(n, i => f(i) * g(i))
  }

  lemma SumIsDot(n: nat, h: int -> real, f: int -> real, g: int -> real)
    requires forall i :: 0 <= i < n ==> h(i) == f(i) * g(i)
    ensures Sum(n, h) == Dot(n, f, g)
  {
    SumEqual(n, h, i => f(i) * g(i));
  }

  lemma DotEqual(n: nat, f: int -> real, g: int -> real, h: int -> real, k: int -> real)
    requires forall i :: 0 <= i < n ==> f(i) == h(i) && g(i) == k(i)
    ensures Dot(n, f, g) == Dot(n, h, k)
  {
    SumEqual(n, i => f(i) * g(i), i => h(i) * k(i));
  }

  ghost function RowOf(u: (int, int) -> real, t: int): int -> real { j => u(t, j) }
  ghost function ColumnOf(u: (int, int) -> real, j: int): int -> real { t => u(t, j) }

  /** The row vector l*u, and the column vector u*x, of a square family u. */
  ghost function LeftMul(n: nat, l: int -> real, u: (int, int) -> real): int -> real { j => Dot(n, l, ColumnOf(u, j)) }
  ghost function RightMul(n: nat, u: (int, int) -> real, x: int -> real): int -> real { t => Dot(n, RowOf(u, t), x) }

  lemma DotScaleRight(n: nat, f: int -> real, g: int -> real, c: real)
    ensures Dot(n, f, g) * c == Sum(n, i => f(i) * g(i) * c)
  {
    var h := (i: int) => f(i) * g(i);
    SumScale(n, c, h);
    SumEqual(n, i => c * h(i), i => f(i) * g(i) * c);
    SumEqual(n, h, i => f(i) * g(i));
  }

  lemma DotScaleLeft(n: nat, f: int -> real, g: int -> real, c: real)
    ensures c * Dot(n, f, g) == Sum(n, i => c * f(i) * g(i))
  {
    var h := (i: int) => f(i) * g(i);
    SumScale(n, c, h);
    SumEqual(n, i => c * h(i), i => c * f(i) * g(i));
    SumEqual(n, h, i => f(i) * g(i));
  }

  /** The products that make up (l*u)*x. */
  ghost function Products(l: int -> real, u: (int, int) -> real, x: int -> real): (int, int) -> real {
    (t, j) => l(t) * u(t, j) * x(j)
  }

  lemma LeftFirst(n: nat, l: int -> real, u: (int, int) -> real, x: int -> real)
    ensures Dot(n, LeftMul(n, l, u), x) == Sum(n, Down(n, Products(l, u, x)))
  {
    var f := Products(l, u, x);
    forall j | 0 <= j < n ensures LeftMul(n, l, u)(j) * x(j) == Down(n, f)(j) {
      DotScaleRight(n, l, ColumnOf(u, j), x(j));
      SumEqual(n, t => l(t) * ColumnOf(u, j)(t) * x(j), t => f(t, j));
    }
    SumEqual(n, j => LeftMul(n, l, u)(j) * x(j), Down(n, f));
  }

  lemma RightFirst(n: nat, l: int -> real, u: (int, int) -> real, x: int -> real)
    ensures Dot(n, l, RightMul(n, u, x)) == Sum(n, Across(n, Products(l, u, x)))
  {
    var f := Products(l, u, x);
    forall t | 0 <= t < n ensures l(t) * RightMul(n, u, x)(t) == Across(n, f)(t) {
      DotScaleLeft(n, RowOf(u, t), x, l(t));
      SumEqual(n, j => l(t) * RowOf(u, t)(j) * x(j), j => f(t, j));
    }
    SumEqual(n, t => l(t) * RightMul(n, u, x)(t), Across(n, f));
  }

  /** (l*u)*x == l*(u*x) */
  lemma Associative(n: nat, l: int -> real, u: (int, int) -> real, x: int -> real)
    ensures Dot(n, LeftMul(n, l, u), x) == Dot(n, l, RightMul(n, u, x))
  {
    hide Dot, LeftMul, RightMul, Sum, Down, Across, Products;
    LeftFirst(n, l, u, x);
    SumSwap(n, n, Products(l, u, x));
    RightFirst(n, l, u, x);
  }
}
