/** The algebra behind in-place LUP decomposition: what one pivoting and one elimination step keep. */
module LupMatrix {
  import opened RealFunctions
  import opened Sums

  type Matrix = seq<seq<real>>

  ghost predicate Square(m: Matrix, n: nat) {
    |m| == n && forall i :: 0 <= i < n ==> |m[i]| == n
  }

  function Get(m: Matrix, i: int, j: int): real {
    if 0 <= i < |m| && 0 <= j < |m[i]| then m[i][j] else 0.0
  }

  /** The unit lower and the upper triangle stored together in `m`. */
  function Lower(m: Matrix, i: int, t: int): real {
    if t < i then Get(m, i, t) else if t == i then 1.0 else 0.0
  }

  function Upper(m: Matrix, t: int, j: int): real {
    if t <= j then Get(m, t, j) else 0.0
  }

  ghost function Product(m: Matrix, i: int, j: int): int -> real {
    t => Lower(m, i, t) * Upper(m, t, j)
  }

  ghost predicate Permutation(p: seq<int>, n: nat) {
    && |p| == n
    && (forall i :: 0 <= i < n ==> 0 <= p[i] < n)
    && (forall i, j :: 0 <= i < j < n ==> p[i] != p[j])
    && (forall r :: 0 <= r < n ==> r in p)
  }

  /** Entry (i, j) of the row-permuted original is the product of the first `k` columns of L and rows
      of U, plus the part of `m` that is not yet decomposed. */
  ghost predicate EntrySplit(a: Matrix, p: seq<int>, m: Matrix, k: nat, i: int, j: int)
    requires 0 <= i < |p|
  {
    Get(a, p[i], j) == Sum(k, Product(m, i, j)) + (if i >= k && j >= k then Get(m, i, j) else 0.0)
  }

  /** The state of the decomposition after `k` columns. */
  ghost predicate Partial(a: Matrix, p: seq<int>, m: Matrix, n: nat, k: nat) {
    && k <= n && Square(m, n) && Permutation(p, n)
    && (forall i, j :: 0 <= i < n && 0 <= j < n ==> EntrySplit(a, p, m, k, i, j))
    && (forall t :: 0 <= t < k ==> Abs(m[t][t]) >= DELTA)
    && (forall t, i :: 0 <= t < k && t < i < n ==> Abs(m[i][t]) <= 1.0)
  }

  /** The state in which the decomposition stops: the rest of some pivot column is below the tolerance. */
  ghost predicate Stopped(a: Matrix, p: seq<int>, m: Matrix, n: nat) {
    exists k: nat :: k < n - 1 && Partial(a, p, m, n, k) && Tiny(m, n, k)
  }

  ghost predicate Tiny(m: Matrix, n: nat, k: nat) {
    forall i :: k <= i < n ==> Abs(Get(m, i, k)) < DELTA
  }

  // ----- pivoting

  function SwapRows<T>(m: seq<T>, k: nat, q: nat): (r: seq<T>)
    requires k < |m| && q < |m|
    ensures |r| == |m| && r[k] == m[q] && r[q] == m[k]
    ensures forall i :: 0 <= i < |m| && i != k && i != q ==> r[i] == m[i]
  {
    m[k := m[q]][q := m[k]]
  }

  lemma SwapPermutation(p: seq<int>, n: nat, k: nat, q: nat)
    requires Permutation(p, n) && k <= q < n
    ensures Permutation(SwapRows(p, k, q), n)
  {
    var s := SwapRows(p, k, q);
    forall r | 0 <= r < n ensures r in s {
      assert r in p;
      var i :| 0 <= i < n && p[i] == r;
      assert s[if i == k then q else if i == q then k else i] == r;
    }
  }

  lemma SwapEntry(a: Matrix, p: seq<int>, m: Matrix, n: nat, k: nat, q: nat, i: int, j: int)
    requires Partial(a, p, m, n, k) && k <= q < n && 0 <= i < n && 0 <= j < n
    ensures EntrySplit(a, SwapRows(p, k, q), SwapRows(m, k, q), k, i, j)
  {
    var from := if i == k then q else if i == q then k else i;
    assert EntrySplit(a, p, m, k, from, j);
    hide Partial;
    forall t | 0 <= t < k ensures Product(m, from, j)(t) == Product(SwapRows(m, k, q), i, j)(t) {
      SwapTerm(m, k, q, i, j, t);
    }
    hide Product;
    SumEqual(k, Product(m, from, j), Product(SwapRows(m, k, q), i, j));
  }

  lemma SwapTerm(m: Matrix, k: nat, q: nat, i: int, j: int, t: int)
    requires 0 <= t < k <= q < |m| && 0 <= i < |m|
    ensures Product(m, if i == k then q else if i == q then k else i, j)(t) == Product(SwapRows(m, k, q), i, j)(t)
  {
  }

  lemma SwapKeepsPartial(a: Matrix, p: seq<int>, m: Matrix, n: nat, k: nat, q: nat)
    requires Partial(a, p, m, n, k) && k <= q < n
    ensures Partial(a, SwapRows(p, k, q), SwapRows(m, k, q), n, k)
  {
    SwapPermutation(p, n, k, q);
    forall i, j | 0 <= i < n && 0 <= j < n ensures EntrySplit(a, SwapRows(p, k, q), SwapRows(m, k, q), k, i, j) {
      SwapEntry(a, p, m, n, k, q, i, j);
    }
  }

  // ----- elimination

  /** Row `i` of the next matrix: the multiplier in column k, the rest reduced by row k. */
  function ReducedRow(m: Matrix, n: nat, k: nat, i: nat): (r: seq<real>)
    requires k < n && i < n
    ensures |r| == n
  {
    if i <= k then seq(n, j => Get(m, i, j))
    else seq(n, j => if j < k then Get(m, i, j)
                     else if j == k then Ratio(Get(m, i, k), Get(m, k, k))
                     else Get(m, i, j) - Ratio(Get(m, i, k), Get(m, k, k)) * Get(m, k, j))
  }

  function Ratio(x: real, y: real): real { if y == 0.0 then 0.0 else x / y }

  function Eliminate(m: Matrix, n: nat, k: nat): (r: Matrix)
    requires k < n
    ensures |r| == n && forall i :: 0 <= i < n ==> |r[i]| == n
  {
    seq(n, i requires 0 <= i < n => ReducedRow(m, n, k, i))
  }

  /** The entries that the elimination of column `k` leaves behind. */
  lemma EliminatedAt(m: Matrix, n: nat, k: nat, i: int, j: int)
    requires Square(m, n) && k < n && 0 <= i < n && 0 <= j < n && m[k][k] != 0.0
    ensures Get(Eliminate(m, n, k), i, j) ==
            if i <= k || j < k then m[i][j]
            else if j == k then m[i][k] / m[k][k]
            else m[i][j] - (m[i][k] / m[k][k]) * m[k][j]
  {
    assert Eliminate(m, n, k)[i] == ReducedRow(m, n, k, i);
  }

  lemma SamePrefix(m: Matrix, n: nat, k: nat, i: int, j: int)
    requires Square(m, n) && k < n && 0 <= i < n && 0 <= j < n && m[k][k] != 0.0
    ensures Sum(k, Product(m, i, j)) == Sum(k, Product(Eliminate(m, n, k), i, j))
  {
    var r := Eliminate(m, n, k);
    forall t | 0 <= t < k ensures Product(m, i, j)(t) == Product(r, i, j)(t) {
      EliminatedAt(m, n, k, i, t); EliminatedAt(m, n, k, t, j);
    }
    SumEqual(k, Product(m, i, j), Product(r, i, j));
  }

  lemma EliminateEntry(a: Matrix, p: seq<int>, m: Matrix, n: nat, k: nat, i: int, j: int)
    requires Square(m, n) && k < n && 0 <= i < n && 0 <= j < n && m[k][k] != 0.0
    requires |p| == n && EntrySplit(a, p, m, k, i, j)
    ensures EntrySplit(a, p, Eliminate(m, n, k), k + 1, i, j)
  {
    hide Eliminate;
    var r := Eliminate(m, n, k);
    SamePrefix(m, n, k, i, j);
    EliminatedAt(m, n, k, i, j); EliminatedAt(m, n, k, i, k); EliminatedAt(m, n, k, k, j);
    assert Sum(k + 1, Product(r, i, j)) == Sum(k, Product(r, i, j)) + Lower(r, i, k) * Upper(r, k, j);
    LastTerm(m[i][k], m[k][k], m[k][j], m[i][j], i, j, k, Lower(r, i, k), Upper(r, k, j), Get(r, i, j));
  }

  /** Where the `k`-th product term and what is left of the entry come from. */
  lemma LastTerm(mik: real, mkk: real, mkj: real, mij: real, i: int, j: int, k: int, l: real, u: real, g: real)
    requires mkk != 0.0 && (i == k ==> mij == mkj) && (j == k ==> mij == mik && mkj == mkk)
    requires l == if k < i then mik / mkk else if k == i then 1.0 else 0.0
    requires u == if k <= j then mkj else 0.0
    requires i > k && j > k ==> g == mij - (mik / mkk) * mkj
    ensures (if i >= k && j >= k then mij else 0.0) == l * u + (if i >= k + 1 && j >= k + 1 then g else 0.0)
  {
    if i > k && j == k { assert (mik / mkk) * mkk == mik; }
  }

  /** Choosing the largest entry of the column as pivot keeps every multiplier within [-1, 1]. */
  lemma EliminateKeepsPartial(a: Matrix, p: seq<int>, m: Matrix, n: nat, k: nat)
    requires Partial(a, p, m, n, k) && k < n && Abs(m[k][k]) >= DELTA
    requires forall i :: k <= i < n ==> Abs(m[i][k]) <= Abs(m[k][k])
    ensures Partial(a, p, Eliminate(m, n, k), n, k + 1)
  {
    var r, next := Eliminate(m, n, k), k + 1;
    forall i, j | 0 <= i < n && 0 <= j < n ensures EntrySplit(a, p, r, next, i, j) {
      EliminateEntry(a, p, m, n, k, i, j);
    }
    forall t, i | 0 <= t < next && t < i < n ensures Abs(r[i][t]) <= 1.0 {
      EliminatedAt(m, n, k, i, t);
      if t == k { RatioBound(m[i][k], m[k][k]); }
    }
  }

  lemma RatioBound(x: real, y: real)
    requires y != 0.0 && Abs(x) <= Abs(y)
    ensures Abs(x / y) <= 1.0
  {
    var q := x / y;
    assert q * y == x;
    if q > 1.0 {
      LargerProduct(q, Abs(y));
    } else if q < -1.0 {
      LargerProduct(-q, Abs(y));
    }
  }

  lemma LargerProduct(q: real, y: real)
    requires q > 1.0 && y > 0.0
    ensures q * y > y && -q * -y == q * y && -q * y == q * -y == -(q * y)
  {
    assert (q - 1.0) * y > 0.0;
    assert (q - 1.0) * y == q * y - y;
  }

  // ----- the finished decomposition

  /** Row i of P*A equals row i of L*U, entry by entry. */
  ghost predicate Decomposed(a: Matrix, p: seq<int>, m: Matrix, n: nat) {
    && Square(m, n) && Permutation(p, n)
    && (forall i, j :: 0 <= i < n && 0 <= j < n ==> Get(a, p[i], j) == Sum(n, Product(m, i, j)))
    && (forall t :: 0 <= t < n - 1 ==> Abs(m[t][t]) >= DELTA)
    && (forall t, i :: 0 <= t < i < n ==> Abs(m[i][t]) <= 1.0)
  }

  /** The last column needs no elimination. */
  lemma PartialIsDecomposed(a: Matrix, p: seq<int>, m: Matrix, n: nat)
    requires n >= 1 && Partial(a, p, m, n, n - 1)
    ensures Decomposed(a, p, m, n)
  {
    forall i, j | 0 <= i < n && 0 <= j < n ensures Get(a, p[i], j) == Sum(n, Product(m, i, j)) {
      assert EntrySplit(a, p, m, n - 1, i, j);
    }
  }

  lemma StartIsPartial(a: Matrix, p: seq<int>, n: nat)
    requires Square(a, n) && |p| == n && forall i :: 0 <= i < n ==> p[i] == i
    ensures Partial(a, p, a, n, 0)
  {
    forall r | 0 <= r < n ensures r in p { assert p[r] == r; }
  }
}
