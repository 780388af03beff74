/** A finished decomposition with a zero last pivot belongs to a matrix without an inverse. */
module LupSingular {
  import opened Sums
  import opened LupMatrix
  import opened Lup

  /** Column `t` of the unit lower triangle times the row vector z. */
  ghost function LeftTerm(m: Matrix, z: seq<real>, t: int): int -> real {
    i => At(z, i) * Lower(m, i, t)
  }

  /** z*L agrees with the last unit row from column `k` on, and z vanishes before `k`. */
  ghost predicate NullsFrom(m: Matrix, n: nat, z: seq<real>, k: nat) {
    && |z| == n
    && (forall i :: 0 <= i < k && i < n ==> z[i] == 0.0)
    && (forall t :: k <= t < n ==> Sum(n, LeftTerm(m, z, t)) == if t == n - 1 then 1.0 else 0.0)
  }

  /** Changing entry `k` of z changes z*L in column `t` by that much times L(k, t). */
  lemma {:induction false} EntryChanged(m: Matrix, z: seq<real>, k: nat, v: real, t: int, n: nat)
    requires k < |z| && z[k] == 0.0 && n <= |z|
    ensures Sum(n, LeftTerm(m, z[k := v], t)) == Sum(n, LeftTerm(m, z, t)) + (if n > k then v * Lower(m, k, t) else 0.0)
  {
    if n > 0 {
      EntryChanged(m, z, k, v, t, n - 1);
      assert LeftTerm(m, z[k := v], t)(n - 1) == if n - 1 == k then v * Lower(m, k, t) else LeftTerm(m, z, t)(n - 1);
      assert LeftTerm(m, z, t)(k) == 0.0;
    }
  }

  /** Solving z*L = (0 ... 0 1) from the last column backwards. */
  lemma {:induction false} LeftNull(m: Matrix, n: nat, k: nat) returns (z: seq<real>)
    requires k < n
    ensures NullsFrom(m, n, z, k) && z[n - 1] == 1.0
    decreases n - k
  {
    if k == n - 1 {
      var zero := seq(n, i => 0.0);
      z := zero[k := 1.0];
      EntryChanged(m, zero, k, 1.0, k, n);
      SumZero(n, LeftTerm(m, zero, k));
    } else {
      var y := LeftNull(m, n, k + 1);
      var v := -Sum(n, LeftTerm(m, y, k));
      z := y[k := v];
      forall t | k <= t < n ensures Sum(n, LeftTerm(m, z, t)) == if t == n - 1 then 1.0 else 0.0 {
        EntryChanged(m, y, k, v, t, n);
      }
    }
  }

  function Entry(a: Matrix, p: seq<int>, i: int, j: int): real {
    if 0 <= i < |p| then Get(a, p[i], j) else 0.0
  }

  ghost function Vec(z: seq<real>): int -> real { i => At(z, i) }
  ghost function Permuted(a: Matrix, p: seq<int>): (int, int) -> real { (i, j) => Entry(a, p, i, j) }
  ghost function LowerOf(m: Matrix): (int, int) -> real { (i, t) => Lower(m, i, t) }
  ghost function UpperColumn(m: Matrix, j: int): int -> real { t => Upper(m, t, j) }

  /** (z*L)*(column j of U) vanishes when the last row of U does. */
  lemma ColumnVanishes(m: Matrix, n: nat, z: seq<real>, j: nat)
    requires Square(m, n) && 0 < n && m[n - 1][n - 1] == 0.0 && NullsFrom(m, n, z, 0) && j < n
    ensures Dot(n, LeftMul(n, Vec(z), LowerOf(m)), UpperColumn(m, j)) == 0.0
  {
    forall t | 0 <= t < n ensures LeftMul(n, Vec(z), LowerOf(m))(t) * UpperColumn(m, j)(t) == 0.0 {
      forall i | 0 <= i < n ensures LeftTerm(m, z, t)(i) == Vec(z)(i) * ColumnOf(LowerOf(m), t)(i) {
        assert ColumnOf(LowerOf(m), t)(i) == LowerOf(m)(i, t);
      }
      SumIsDot(n, LeftTerm(m, z, t), Vec(z), ColumnOf(LowerOf(m), t));
      assert Sum(n, LeftTerm(m, z, t)) == if t == n - 1 then 1.0 else 0.0;
      assert t == n - 1 ==> Upper(m, t, j) == 0.0;
    }
    SumZero(n, t => LeftMul(n, Vec(z), LowerOf(m))(t) * UpperColumn(m, j)(t));
  }

  /** z*(P*A) == 0 when the last row of U vanishes. */
  lemma PermutedRowsDependent(a: Matrix, p: seq<int>, m: Matrix, n: nat, z: seq<real>, j: nat)
    requires Decomposed(a, p, m, n) && 0 < n && m[n - 1][n - 1] == 0.0 && NullsFrom(m, n, z, 0) && j < n
    ensures LeftMul(n, Vec(z), Permuted(a, p))(j) == 0.0
  {
    ColumnVanishes(m, n, z, j);
    Associative(n, Vec(z), LowerOf(m), UpperColumn(m, j));
    forall i | 0 <= i < n ensures ColumnOf(Permuted(a, p), j)(i) == RightMul(n, LowerOf(m), UpperColumn(m, j))(i) {
      SumIsDot(n, Product(m, i, j), RowOf(LowerOf(m), i), UpperColumn(m, j));
    }
    DotEqual(n, Vec(z), ColumnOf(Permuted(a, p), j), Vec(z), RightMul(n, LowerOf(m), UpperColumn(m, j)));
  }

  lemma PickedRow(a: Matrix, p: seq<int>, n: nat, x: seq<real>, c: int, i: nat)
    requires Permutation(p, n) && i < n && p[n - 1] == c && Solves(a, x, UnitColumn(n, c), n)
    ensures RightMul(n, Permuted(a, p), Vec(x))(i) == if i == n - 1 then 1.0 else 0.0
  {
    forall j | 0 <= j < n ensures RowTerm(a, x, p[i])(j) == RowOf(Permuted(a, p), i)(j) * Vec(x)(j) {
      assert RowOf(Permuted(a, p), i)(j) == Permuted(a, p)(i, j);
    }
    SumIsDot(n, RowTerm(a, x, p[i]), RowOf(Permuted(a, p), i), Vec(x));
    assert Sum(n, RowTerm(a, x, p[i])) == UnitColumn(n, c)[p[i]];
    assert i < n - 1 ==> p[i] != p[n - 1];
  }

  /** z*(P*A)*x for a column x of the inverse picks out the entry of z at that column's row. */
  lemma PickedOut(a: Matrix, p: seq<int>, n: nat, z: seq<real>, x: seq<real>, c: int)
    requires Permutation(p, n) && 0 < n && |z| == n && p[n - 1] == c && z[n - 1] == 1.0
    requires Solves(a, x, UnitColumn(n, c), n)
    ensures Dot(n, Vec(z), RightMul(n, Permuted(a, p), Vec(x))) == 1.0
  {
    hide RightMul, Permuted, Permutation, Solves;
    var h := RightMul(n, Permuted(a, p), Vec(x));
    var g := (i: int) => Vec(z)(i) * h(i);
    forall i | 0 <= i < n ensures h(i) == if i == n - 1 then 1.0 else 0.0 { PickedRow(a, p, n, x, c, i); }
    SumZero(n - 1, g);
    SumIsDot(n, g, Vec(z), h);
  }

  /** With a zero last pivot no matrix is a right inverse: together with the positive result, a matrix
      that the decomposition accepts has an inverse exactly when its last pivot is not zero. */
  lemma ZeroPivotNoInverse(a: Matrix, p: seq<int>, m: Matrix, n: nat, inv: Matrix)
    requires Decomposed(a, p, m, n) && 0 < n && m[n - 1][n - 1] == 0.0
    ensures !IsInverse(a, inv, n)
  {
    hide LeftMul, RightMul, Permuted;
    if IsInverse(a, inv, n) {
      var z := LeftNull(m, n, 0);
      var c := p[n - 1];
      var x := Column(inv, n, c);
      assert Solves(a, x, UnitColumn(n, c), n);
      Associative(n, Vec(z), Permuted(a, p), Vec(x));
      forall j | 0 <= j < n ensures LeftMul(n, Vec(z), Permuted(a, p))(j) == 0.0 {
        PermutedRowsDependent(a, p, m, n, z, j);
      }
      SumZero(n, j => LeftMul(n, Vec(z), Permuted(a, p))(j) * Vec(x)(j));
      PickedOut(a, p, n, z, x, c);
    }
  }
}
