/** The dense solver: in-place LUP decomposition, forward and backward substitution, inverse. */
module Lup {
  import opened RealFunctions
  import opened Sums
  import opened LupMatrix

  /** The contents of a matrix buffer. */
  ghost function Rows(a: array2<real>): (m: Matrix)
    reads a
    ensures |m| == a.Length0 && forall i :: 0 <= i < |m| ==> |m[i]| == a.Length1
    ensures forall i, j :: 0 <= i < a.Length0 && 0 <= j < a.Length1 ==> m[i][j] == a[i, j]
  {
    seq(a.Length0, i requires 0 <= i < a.Length0 reads a =>
      seq(a.Length1, j requires 0 <= j < a.Length1 reads a => a[i, j]))
  }

  lemma RowsEqual(a: array2<real>, m: Matrix)
    requires Square(m, a.Length0) && a.Length0 == a.Length1
    requires forall i, j :: 0 <= i < a.Length0 && 0 <= j < a.Length1 ==> a[i, j] == m[i][j]
    ensures Rows(a) == m
  {
    forall i | 0 <= i < |m| ensures Rows(a)[i] == m[i] { assert |m[i]| == a.Length1; }
  }

  /** Largest entry, in absolute value, of column `k` from row `k` down. */
  method FindPivot(a: array2<real>, k: nat) returns (max: real, pivot: nat)
    requires k < a.Length0 && k < a.Length1
    ensures max >= 0.0 && (max > 0.0 ==> k <= pivot < a.Length0 && Abs(a[pivot, k]) == max)
    ensures forall i :: k <= i < a.Length0 ==> Abs(a[i, k]) <= max
  {
    max, pivot := 0.0, 0;
    for i := k to a.Length0
      invariant max >= 0.0 && (max > 0.0 ==> k <= pivot < i && Abs(a[pivot, k]) == max)
      invariant forall r :: k <= r < i ==> Abs(a[r, k]) <= max
    {
      if Abs(a[i, k]) > max {
        max := Abs(a[i, k]);
        pivot := i;
      }
    }
  }

  method SwapBufferRows(a: array2<real>, k: nat, q: nat)
    requires k < a.Length0 && q < a.Length0 && a.Length0 == a.Length1
    modifies a
    ensures Rows(a) == SwapRows(old(Rows(a)), k, q)
  {
    ghost var m := Rows(a);
    for i := 0 to a.Length1
      invariant forall r, j :: 0 <= r < a.Length0 && 0 <= j < a.Length1 ==>
        a[r, j] == if j < i then SwapRows(m, k, q)[r][j] else m[r][j]
    {
      a[k, i], a[q, i] := a[q, i], a[k, i];
    }
    RowsEqual(a, SwapRows(m, k, q));
  }

  method EliminateColumn(a: array2<real>, k: nat)
    requires a.Length0 == a.Length1 && k < a.Length0 && a[k, k] != 0.0
    modifies a
    ensures Rows(a) == Eliminate(old(Rows(a)), a.Length0, k)
  {
    hide Eliminate;
    ghost var m := Rows(a);
    var n := a.Length0;
    forall r, j | 0 <= r <= k && 0 <= j < n ensures Get(Eliminate(m, n, k), r, j) == m[r][j] {
      EliminatedAt(m, n, k, r, j);
    }
    for i := k + 1 to n
      invariant forall r, j :: 0 <= r < n && 0 <= j < n ==>
                  a[r, j] == if r < i then Get(Eliminate(m, n, k), r, j) else m[r][j]
    {
      ReduceRow(a, k, i, m);
    }
    RowsEqual(a, Eliminate(m, n, k));
  }

  method ReduceRow(a: array2<real>, k: nat, i: nat, ghost m: Matrix)
    requires a.Length0 == a.Length1 && k < i < a.Length0 && Square(m, a.Length0)
    requires forall j :: 0 <= j < a.Length1 ==> a[i, j] == m[i][j]
    requires forall j :: 0 <= j < a.Length1 ==> a[k, j] == m[k][j]
    requires m[k][k] != 0.0
    modifies a
    ensures forall r, j :: 0 <= r < a.Length0 && 0 <= j < a.Length1 ==>
      a[r, j] == if r == i then Get(Eliminate(m, a.Length0, k), r, j) else old(a[r, j])
  {
    hide Eliminate;
    var n := a.Length0;
    a[i, k] := a[i, k] / a[k, k];
    for j := k + 1 to n
      invariant forall r, c :: 0 <= r < n && 0 <= c < n && r != i ==> a[r, c] == old(a[r, c])
      invariant forall c :: 0 <= c < n ==>
        a[i, c] == if c == k then m[i][k] / m[k][k]
                   else if k < c < j then m[i][c] - (m[i][k] / m[k][k]) * m[k][c] else m[i][c]
    {
      a[i, j] := a[i, j] - a[i, k] * a[k, j];
    }
    forall j | 0 <= j < n ensures a[i, j] == Get(Eliminate(m, n, k), i, j) { EliminatedAt(m, n, k, i, j); }
  }

  method Identity(p: array<int>)
    modifies p
    ensures forall i :: 0 <= i < p.Length ==> p[i] == i
  {
    for i := 0 to p.Length
      invariant forall r :: 0 <= r < i ==> p[r] == r
    {
      p[i] := i;
    }
  }

  /** LUP decomposition in place. Returns false where the code stops with "singular matrix": the rest of
      some pivot column is below DELTA in absolute value. */
  method Lupdcmp(a: array2<real>, p: array<int>) returns (ok: bool)
    requires a.Length0 == a.Length1 == p.Length
    modifies a, p
    ensures ok ==> Decomposed(old(Rows(a)), p[..], Rows(a), p.Length)
    ensures !ok ==> Stopped(old(Rows(a)), p[..], Rows(a), p.Length)
  {
    ghost var a0 := Rows(a);
    var n := p.Length;
    Identity(p);
    StartIsPartial(a0, p[..], n);
    if n == 0 {
      return true;
    }
    for k := 0 to n - 1
      invariant Partial(a0, p[..], Rows(a), n, k)
    {
      ok := DecomposeColumn(a, p, k, a0);
      if !ok {
        return;
      }
    }
    PartialIsDecomposed(a0, p[..], Rows(a), n);
    return true;
  }

  /** One round of the decomposition: pivot, then eliminate. */
  method DecomposeColumn(a: array2<real>, p: array<int>, k: nat, ghost a0: Matrix) returns (ok: bool)
    requires a.Length0 == a.Length1 == p.Length && k < p.Length - 1 && Partial(a0, p[..], Rows(a), p.Length, k)
    modifies a, p
    ensures ok ==> Partial(a0, p[..], Rows(a), p.Length, k + 1)
    ensures !ok ==> Partial(a0, p[..], Rows(a), p.Length, k) && Tiny(Rows(a), p.Length, k)
  {
    hide Partial, Eliminate, SwapRows;
    var max, pivot := FindPivot(a, k);
    if Abs(max) < DELTA {
      return false;
    }
    ghost var m, q := Rows(a), p[..];
    p[k], p[pivot] := p[pivot], p[k];
    PermutedEntries(p[..], q, k, pivot);
    SwapBufferRows(a, k, pivot);
    SwapKeepsPartial(a0, q, m, p.Length, k, pivot);
    PivotOnTop(m, Rows(a), p.Length, k, pivot);
    EliminateKeepsPartial(a0, p[..], Rows(a), p.Length, k);
    EliminateColumn(a, k);
    return true;
  }

  lemma PermutedEntries(p: seq<int>, q: seq<int>, k: nat, pivot: nat)
    requires |p| == |q| && k < |p| && pivot < |p| && p == q[k := q[pivot]][pivot := q[k]]
    ensures p == SwapRows(q, k, pivot)
  {
  }

  lemma PivotOnTop(m: Matrix, r: Matrix, n: nat, k: nat, pivot: nat)
    requires Square(m, n) && k <= pivot < n && r == SwapRows(m, k, pivot)
    requires forall i :: k <= i < n ==> Abs(m[i][k]) <= Abs(m[pivot][k])
    ensures |r| == n && |r[k]| == n && r[k][k] == m[pivot][k]
    ensures forall i :: k <= i < n ==> |r[i]| == n && Abs(r[i][k]) <= Abs(r[k][k])
  {
  }

  // ----- substitution

  /** Row `i` of the unit lower, and of the upper, triangle of `m` times a vector. */
  ghost function LowerTerm(m: Matrix, y: seq<real>, i: int): int -> real {
    t => Lower(m, i, t) * At(y, t)
  }

  ghost function UpperTerm(m: Matrix, x: seq<real>, i: int): int -> real {
    j => Upper(m, i, j) * At(x, j)
  }

  ghost function RowTerm(a: Matrix, x: seq<real>, i: int): int -> real {
    j => Get(a, i, j) * At(x, j)
  }

  function At(v: seq<real>, i: int): real {
    if 0 <= i < |v| then v[i] else 0.0
  }

  /** A * x == b */
  ghost predicate Solves(a: Matrix, x: seq<real>, b: seq<real>, n: nat) {
    |x| == n && |b| == n && forall r :: 0 <= r < n ==> Sum(n, RowTerm(a, x, r)) == b[r]
  }

  /** From L*y = P*b and U*x = y to A*x = b. */
  lemma SubstitutionSolves(a: Matrix, p: seq<int>, m: Matrix, n: nat, y: seq<real>, x: seq<real>, b: seq<real>)
    requires Decomposed(a, p, m, n) && |y| == n && |x| == n && |b| == n
    requires forall i :: 0 <= i < n ==> Sum(n, LowerTerm(m, y, i)) == b[p[i]]
    requires forall t :: 0 <= t < n ==> Sum(n, UpperTerm(m, x, t)) == y[t]
    ensures Solves(a, x, b, n)
  {
    forall r | 0 <= r < n ensures Sum(n, RowTerm(a, x, r)) == b[r] {
      assert r in p;
      var i :| 0 <= i < n && p[i] == r;
      RowOfProduct(a, p, m, n, x, y, i);
    }
  }

  /** Row i of (L*U)*x is row i of L*(U*x). */
  lemma RowOfProduct(a: Matrix, p: seq<int>, m: Matrix, n: nat, x: seq<real>, y: seq<real>, i: nat)
    requires i < n && |p| == n && |y| == n
    requires forall j :: 0 <= j < n ==> Get(a, p[i], j) == Sum(n, Product(m, i, j))
    requires forall t :: 0 <= t < n ==> Sum(n, UpperTerm(m, x, t)) == y[t]
    ensures Sum(n, RowTerm(a, x, p[i])) == Sum(n, LowerTerm(m, y, i))
  {
    RowByLeft(a, p[i], m, n, x, i);
    Associative(n, LowerRow(m, i), Uppers(m), Components(x));
    RowByRight(m, n, x, y, i);
  }

  ghost function LowerRow(m: Matrix, i: int): int -> real { t => Lower(m, i, t) }

  ghost function Uppers(m: Matrix): (int, int) -> real { (t, j) => Upper(m, t, j) }

  ghost function Components(x: seq<real>): int -> real { j => At(x, j) }

  lemma RowByLeft(a: Matrix, r: int, m: Matrix, n: nat, x: seq<real>, i: nat)
    requires forall j :: 0 <= j < n ==> Get(a, r, j) == Sum(n, Product(m, i, j))
    ensures Sum(n, RowTerm(a, x, r)) == Dot(n, LeftMul(n, LowerRow(m, i), Uppers(m)), Components(x))
  {
    hide Dot, Sum;
    forall j | 0 <= j < n ensures Get(a, r, j) == LeftMul(n, LowerRow(m, i), Uppers(m))(j) {
      SumIsDot(n, Product(m, i, j), LowerRow(m, i), ColumnOf(Uppers(m), j));
    }
    SumIsDot(n, RowTerm(a, x, r), LeftMul(n, LowerRow(m, i), Uppers(m)), Components(x));
  }

  lemma RowByRight(m: Matrix, n: nat, x: seq<real>, y: seq<real>, i: nat)
    requires |y| == n && forall t :: 0 <= t < n ==> Sum(n, UpperTerm(m, x, t)) == y[t]
    ensures Sum(n, LowerTerm(m, y, i)) == Dot(n, LowerRow(m, i), RightMul(n, Uppers(m), Components(x)))
  {
    hide Dot, Sum;
    forall t | 0 <= t < n ensures At(y, t) == RightMul(n, Uppers(m), Components(x))(t) {
      SumIsDot(n, UpperTerm(m, x, t), RowOf(Uppers(m), t), Components(x));
    }
    SumIsDot(n, LowerTerm(m, y, i), LowerRow(m, i), RightMul(n, Uppers(m), Components(x)));
  }

  /** lusolve: solves a*x = b from the decomposition of a. The diagonal of U must not vanish; the C code
      would divide by zero. */
  method Lusolve(a: array2<real>, p: array<int>, b: array<real>, x: array<real>, ghost a0: Matrix)
    requires a.Length0 == a.Length1 == p.Length == b.Length == x.Length && x != b
    requires Decomposed(a0, p[..], Rows(a), p.Length)
    requires forall i :: 0 <= i < p.Length ==> a[i, i] != 0.0
    modifies x
    ensures Solves(a0, x[..], b[..], p.Length)
  {
    var n := p.Length;
    var y := ForwardSubstitute(a, p, b);
    BackSubstitute(a, y, x);
    SubstitutionSolves(a0, p[..], Rows(a), n, y[..], x[..], b[..]);
  }

  /** The part of row `i` left of the diagonal times y. */
  method DotBelow(a: array2<real>, y: array<real>, i: nat) returns (sum: real)
    requires a.Length0 == a.Length1 == y.Length && i < y.Length
    ensures sum == Sum(i, LowerTerm(Rows(a), y[..], i))
  {
    sum := 0.0;
    for j := 0 to i
      invariant sum == Sum(j, LowerTerm(Rows(a), y[..], i))
    {
      sum := sum + y[j] * a[i, j];
    }
  }

  lemma RowsKept(m: Matrix, before: seq<real>, after: seq<real>, i: nat)
    requires |before| == |after| && forall t :: 0 <= t < i && t < |before| ==> before[t] == after[t]
    requires i <= |before|
    ensures forall r :: 0 <= r <= i ==> Sum(r, LowerTerm(m, after, r)) == Sum(r, LowerTerm(m, before, r))
  {
    forall r | 0 <= r <= i ensures Sum(r, LowerTerm(m, after, r)) == Sum(r, LowerTerm(m, before, r)) {
      SumEqual(r, LowerTerm(m, after, r), LowerTerm(m, before, r));
    }
  }

  lemma LowerRowComplete(m: Matrix, y: seq<real>, n: nat, i: nat)
    requires i < n == |y|
    ensures Sum(n, LowerTerm(m, y, i)) == Sum(i, LowerTerm(m, y, i)) + y[i]
  {
    SumTail(n, i + 1, LowerTerm(m, y, i));
  }

  method ForwardSubstitute(a: array2<real>, p: array<int>, b: array<real>) returns (y: array<real>)
    requires a.Length0 == a.Length1 == p.Length == b.Length && forall i :: 0 <= i < p.Length ==> 0 <= p[i] < p.Length
    ensures fresh(y) && y.Length == p.Length
    ensures forall i :: 0 <= i < p.Length ==> Sum(p.Length, LowerTerm(Rows(a), y[..], i)) == b[p[i]]
  {
    hide LowerTerm, Sum, Rows;
    var n := p.Length;
    y := new real[n];
    ghost var m := Rows(a);
    for i := 0 to n
      invariant forall r :: 0 <= r < i ==> Sum(r, LowerTerm(m, y[..], r)) + y[r] == b[p[r]]
    {
      var sum := DotBelow(a, y, i);
      ghost var before := y[..];
      y[i] := b[p[i]] - sum;
      RowsKept(m, before, y[..], i);
    }
    forall i | 0 <= i < n ensures Sum(n, LowerTerm(m, y[..], i)) == b[p[i]] {
      LowerRowComplete(m, y[..], n, i);
    }
  }

  /** The part of row `i` right of the diagonal times x. */
  method DotAbove(a: array2<real>, x: array<real>, i: nat) returns (sum: real)
    requires a.Length0 == a.Length1 == x.Length && i < x.Length
    ensures sum == Sum(x.Length, AboveTerm(Rows(a), x[..], i))
  {
    sum := 0.0;
    SumZero(i + 1, AboveTerm(Rows(a), x[..], i));
    for j := i + 1 to x.Length
      invariant sum == Sum(j, AboveTerm(Rows(a), x[..], i))
    {
      sum := sum + x[j] * a[i, j];
    }
  }

  method BackSubstitute(a: array2<real>, y: array<real>, x: array<real>)
    requires a.Length0 == a.Length1 == y.Length == x.Length && x != y
        && forall i :: 0 <= i < y.Length ==> a[i, i] != 0.0
    modifies x
    ensures forall i :: 0 <= i < y.Length ==> Sum(y.Length, UpperTerm(Rows(a), x[..], i)) == y[i]
  {
    hide UpperTerm, AboveTerm, Sum, Times;
    var n := y.Length;
    ghost var m := Rows(a);
    for i := n downto 0
      invariant forall r :: i <= r < n ==> Sum(n, UpperTerm(m, x[..], r)) == y[r]
    {
      var sum := DotAbove(a, x, i);
      ghost var before := x[..];
      x[i] := (y[i] - sum) / a[i, i];
      QuotientTimes(y[i] - sum, a[i, i]);
      RowCompleted(m, before, x[..], n, i);
      RowsKeptAbove(m, before, x[..], n, i);
    }
  }

  lemma RowsKeptAbove(m: Matrix, before: seq<real>, after: seq<real>, n: nat, i: nat)
    requires i < n == |before| == |after| && after == before[i := after[i]]
    ensures forall r :: i < r < n ==> Sum(n, UpperTerm(m, after, r)) == Sum(n, UpperTerm(m, before, r))
  {
    forall r | i < r < n ensures Sum(n, UpperTerm(m, after, r)) == Sum(n, UpperTerm(m, before, r)) {
      SumEqual(n, UpperTerm(m, after, r), UpperTerm(m, before, r));
    }
  }

  /** The terms of row `i` right of the diagonal. */
  ghost function AboveTerm(m: Matrix, x: seq<real>, i: int): int -> real {
    j => if j > i then Upper(m, i, j) * At(x, j) else 0.0
  }

  lemma QuotientTimes(z: real, d: real)
    requires d != 0.0
    ensures Times(d, z / d) == z
  {
  }

  lemma AboveOrDiagonal(m: Matrix, before: seq<real>, after: seq<real>, i: nat, j: nat)
    requires i < |before| && j < |before| && |after| == |before| && after == before[i := after[i]]
    ensures UpperTerm(m, after, i)(j) ==
            AboveTerm(m, before, i)(j) + if j == i then Times(Get(m, i, i), after[i]) else 0.0
  {
  }

  lemma {:induction false} RowCompletedTo(m: Matrix, before: seq<real>, after: seq<real>, k: nat, i: nat)
    requires i < |before| && k <= |before| && |after| == |before| && after == before[i := after[i]]
    ensures Sum(k, UpperTerm(m, after, i)) == Sum(k, AboveTerm(m, before, i))
        + (if k > i then Times(Get(m, i, i), after[i]) else 0.0)
  {
    hide UpperTerm, AboveTerm, Times;
    if k > 0 {
      RowCompletedTo(m, before, after, k - 1, i);
      AboveOrDiagonal(m, before, after, i, k - 1);
    }
  }

  lemma RowCompleted(m: Matrix, before: seq<real>, after: seq<real>, n: nat, i: nat)
    requires i < n == |before| == |after| && after == before[i := after[i]]
    ensures Sum(n, UpperTerm(m, after, i)) == Sum(n, AboveTerm(m, before, i)) + Times(Get(m, i, i), after[i])
  {
    RowCompletedTo(m, before, after, n, i);
  }

  // ----- inverse

  /** Column `c` of a matrix, and of the identity. */
  function Column(m: Matrix, n: nat, c: int): (v: seq<real>)
    ensures |v| == n
  {
    seq(n, i => Get(m, i, c))
  }

  function UnitColumn(n: nat, c: int): (v: seq<real>)
    ensures |v| == n
  {
    seq(n, i => if i == c then 1.0 else 0.0)
  }

  /** A * inv == I, column by column. */
  ghost predicate IsInverse(a: Matrix, inv: Matrix, n: nat) {
    Square(inv, n) && forall c :: 0 <= c < n ==> Solves(a, Column(inv, n, c), UnitColumn(n, c), n)
  }

  datatype Inversion = Inverted | Singular | LastPivotZero

  /** matinv: overwrites `m` with its decomposition and fills `inv`. Where the last pivot is zero the C code
      divides by it; that outcome is reported instead. */
  method Matinv(inv: array2<real>, m: array2<real>) returns (r: Inversion)
    requires m.Length0 == m.Length1 == inv.Length0 == inv.Length1 && inv != m
    modifies inv, m
    ensures r == Inverted ==> IsInverse(old(Rows(m)), Rows(inv), m.Length0)
    ensures r == Singular ==> exists p :: Stopped(old(Rows(m)), p, Rows(m), m.Length0)
    ensures r == LastPivotZero ==> m.Length0 > 0 && m[m.Length0 - 1, m.Length0 - 1] == 0.0
                                   && exists p :: Decomposed(old(Rows(m)), p, Rows(m), m.Length0)
  {
    var n := m.Length0;
    ghost var a0 := Rows(m);
    var p := new int[n];
    var ok := Lupdcmp(m, p);
    if !ok {
      return Singular;
    }
    if n > 0 && m[n - 1, n - 1] == 0.0 {
      return LastPivotZero;
    }
    DiagonalNonzero(a0, p[..], Rows(m), n);
    FillInverse(inv, m, p, a0);
    return Inverted;
  }

  method FillInverse(inv: array2<real>, m: array2<real>, p: array<int>, ghost a0: Matrix)
    requires m.Length0 == m.Length1 == inv.Length0 == inv.Length1 == p.Length && inv != m
    requires Decomposed(a0, p[..], Rows(m), p.Length) && forall i :: 0 <= i < p.Length ==> m[i, i] != 0.0
    modifies inv
    ensures ColumnsSolved(a0, Rows(inv), p.Length, p.Length)
  {
    var n := p.Length;
    var col, work := new real[n], new real[n];
    for j := 0 to n
      invariant ColumnsSolved(a0, Rows(inv), n, j)
    {
      InvertColumn(inv, m, p, col, work, j, a0);
    }
  }

  ghost predicate ColumnsSolved(a: Matrix, inv: Matrix, n: nat, j: nat) {
    forall c :: 0 <= c < j ==> Solves(a, Column(inv, n, c), UnitColumn(n, c), n)
  }

  /** Solves for column `j` of the inverse and stores it. */
  method InvertColumn(inv: array2<real>, m: array2<real>, p: array<int>, col: array<real>, work: array<real>, j: nat,
      ghost a0: Matrix)
    requires m.Length0 == m.Length1 == inv.Length0 == inv.Length1 == p.Length == col.Length == work.Length
    requires inv != m && col != work && j < p.Length
    requires Decomposed(a0, p[..], Rows(m), p.Length) && forall i :: 0 <= i < p.Length ==> m[i, i] != 0.0
    requires ColumnsSolved(a0, Rows(inv), p.Length, j)
    modifies inv, col, work
    ensures ColumnsSolved(a0, Rows(inv), p.Length, j + 1)
  {
    hide Solves, Decomposed, Column, UnitColumn;
    SetUnit(col, j);
    Lusolve(m, p, col, work, a0);
    ghost var before := Rows(inv);
    StoreColumn(inv, work, j);
    ColumnsKept(before, Rows(inv), p.Length, j, work[..]);
  }

  lemma DiagonalNonzero(a: Matrix, p: seq<int>, m: Matrix, n: nat)
    requires Decomposed(a, p, m, n) && (n > 0 ==> Get(m, n - 1, n - 1) != 0.0)
    ensures forall i :: 0 <= i < n ==> Get(m, i, i) != 0.0
  {
  }

  method SetUnit(col: array<real>, j: nat)
    requires j < col.Length
    modifies col
    ensures col[..] == UnitColumn(col.Length, j)
  {
    for i := 0 to col.Length
      invariant forall r :: 0 <= r < i ==> col[r] == 0.0
    {
      col[i] := 0.0;
    }
    col[j] := 1.0;
  }

  method StoreColumn(inv: array2<real>, work: array<real>, j: nat)
    requires inv.Length0 == inv.Length1 == work.Length && j < work.Length
    modifies inv
    ensures forall i, c :: 0 <= i < work.Length && 0 <= c < work.Length ==>
              inv[i, c] == if c == j then work[i] else old(inv[i, c])
  {
    for i := 0 to work.Length
      invariant forall r, c :: 0 <= r < work.Length && 0 <= c < work.Length ==>
        inv[r, c] == if c == j && r < i then work[r] else old(inv[r, c])
    {
      inv[i, j] := work[i];
    }
  }

  lemma ColumnsKept(before: Matrix, after: Matrix, n: nat, j: nat, work: seq<real>)
    requires Square(before, n) && Square(after, n) && |work| == n && j < n
    requires forall i, c :: 0 <= i < n && 0 <= c < n ==> after[i][c] == if c == j then work[i] else before[i][c]
    ensures Column(after, n, j) == work
    ensures forall c :: 0 <= c < n && c != j ==> Column(after, n, c) == Column(before, n, c)
  {
  }
}
