/** Why the dense solver never divides by zero on the block model's matrix: a zero last pivot of a symmetric
    matrix would give a nonzero vector that the matrix takes to zero. */
module BlockSolve {
  import opened RealFunctions
  import opened Sums
  import opened LupMatrix
  import opened Lup
  import opened LupSingular
  import opened Conduction
  import opened BlockModel

  /** The entries of z moved to the rows that the permutation names. */
  ghost function Scattered(z: seq<real>, p: seq<int>, n: nat, k: nat): (y: seq<real>)
    requires Permutation(p, n) && |z| == n && k <= n
    ensures |y| == n
  {
    if k == 0 then seq(n, i => 0.0) else Scattered(z, p, n, k - 1)[p[k - 1] := z[k - 1]]
  }

  lemma {:induction false} ScatteredAt(z: seq<real>, p: seq<int>, n: nat, k: nat, i: nat)
    requires Permutation(p, n) && |z| == n && k <= n && i < n
    ensures Scattered(z, p, n, k)[p[i]] == if i < k then z[i] else 0.0
    decreases k
  {
    if k > 0 {
      ScatteredAt(z, p, n, k - 1, i);
      if i < k - 1 { assert p[i] != p[k - 1]; }
      if i > k - 1 { assert p[k - 1] != p[i]; }
    }
  }

  ghost function Weights(y: seq<real>, g: int -> real): int -> real { r => Times(At(y, r), g(r)) }

  ghost function Picked(z: seq<real>, p: seq<int>, g: int -> real): int -> real {
    i => Times(At(z, i), if 0 <= i < |p| then g(p[i]) else 0.0)
  }

  lemma {:induction false} OneMoreWeight(y: seq<real>, r: nat, v: real, g: int -> real, n: nat)
    requires r < |y| && y[r] == 0.0 && n <= |y|
    ensures Sum(n, Weights(y[r := v], g)) == Sum(n, Weights(y, g)) + (if r < n then Times(v, g(r)) else 0.0)
  {
    hide Times;
    TimesZero(g(r));
    if n > 0 {
      OneMoreWeight(y, r, v, g, n - 1);
      assert At(y[r := v], n - 1) == if n - 1 == r then v else At(y, n - 1);
      assert Weights(y[r := v], g)(n - 1) == Times(At(y[r := v], n - 1), g(n - 1));
      assert Weights(y, g)(n - 1) == Times(At(y, n - 1), g(n - 1));
      assert Weights(y, g)(r) == 0.0;
    }
  }

  lemma {:induction false} ScatteredSum(z: seq<real>, p: seq<int>, n: nat, k: nat, g: int -> real)
    requires Permutation(p, n) && |z| == n && k <= n
    ensures Sum(n, Weights(Scattered(z, p, n, k), g)) == Sum(k, Picked(z, p, g))
    decreases k
  {
    hide Times;
    if k == 0 {
      forall i | 0 <= i < n ensures Weights(Scattered(z, p, n, 0), g)(i) == 0.0 { TimesZero(g(i)); }
      SumZero(n, Weights(Scattered(z, p, n, 0), g));
    } else {
      ScatteredSum(z, p, n, k - 1, g);
      ScatteredAt(z, p, n, k - 1, k - 1);
      OneMoreWeight(Scattered(z, p, n, k - 1), p[k - 1], z[k - 1], g, n);
    }
  }

  /** Row `j` of a symmetric matrix times the scattered vector. */
  lemma RowVanishes(a: Matrix, p: seq<int>, m: Matrix, n: nat, z: seq<real>, j: nat)
    requires Decomposed(a, p, m, n) && 0 < n && m[n - 1][n - 1] == 0.0 && NullsFrom(m, n, z, 0) && j < n
    requires |z| == n && Square(a, n) && forall r, c :: 0 <= r < n && 0 <= c < n ==> a[r][c] == a[c][r]
    ensures Sum(n, RowTerm(a, Scattered(z, p, n, n), j)) == 0.0
  {
    hide Decomposed, NullsFrom;
    DecomposedPermutes(a, p, m, n);
    var y, g := Scattered(z, p, n, n), (r: int) => Get(a, r, j);
    forall r | 0 <= r < n ensures RowTerm(a, y, j)(r) == Weights(y, g)(r) {
      assert a[j][r] == a[r][j];
      assert RowTerm(a, y, j)(r) == Times(Get(a, j, r), At(y, r));
      TimesCommutes(Get(a, j, r), At(y, r));
    }
    SumEqual(n, RowTerm(a, y, j), Weights(y, g));
    ScatteredSum(z, p, n, n, g);
    PermutedRowsDependent(a, p, m, n, z, j);
    forall i | 0 <= i < n ensures Picked(z, p, g)(i) == Vec(z)(i) * ColumnOf(Permuted(a, p), j)(i) {
      assert ColumnOf(Permuted(a, p), j)(i) == Permuted(a, p)(i, j) == Entry(a, p, i, j) == g(p[i]);
      assert Picked(z, p, g)(i) == Times(At(z, i), g(p[i]));
    }
    SumIsDot(n, Picked(z, p, g), Vec(z), ColumnOf(Permuted(a, p), j));
  }

  lemma DecomposedPermutes(a: Matrix, p: seq<int>, m: Matrix, n: nat)
    requires Decomposed(a, p, m, n)
    ensures Permutation(p, n) && Square(m, n)
  {
  }

  /** A symmetric matrix whose decomposition ends in a zero pivot takes some nonzero vector to zero. */
  lemma ZeroPivotKernel(a: Matrix, p: seq<int>, m: Matrix, n: nat) returns (y: seq<real>)
    requires Decomposed(a, p, m, n) && 0 < n && m[n - 1][n - 1] == 0.0
    requires Square(a, n) && forall r, c :: 0 <= r < n && 0 <= c < n ==> a[r][c] == a[c][r]
    ensures Solves(a, y, seq(n, i => 0.0), n) && exists r :: 0 <= r < n && y[r] != 0.0
  {
    DecomposedPermutes(a, p, m, n);
    var z := LeftNull(m, n, 0);
    y := Scattered(z, p, n, n);
    forall j | 0 <= j < n ensures Sum(n, RowTerm(a, y, j)) == seq(n, i => 0.0)[j] { RowVanishes(a, p, m, n, z, j); }
    ScatteredAt(z, p, n, n, n - 1);
    assert y[p[n - 1]] == 1.0;
  }

  /** Whenever the decomposition of B succeeds, no pivot is zero, so that the steady state can be solved. */
  lemma BPivotsNonzero(b: Matrix, g: Matrix, gAmb: seq<real>, n: nat, p: seq<int>, m: Matrix)
    requires Assembled(g, gAmb, n) && IsB(b, g, gAmb, n) && Decomposed(b, p, m, Nodes(n))
    ensures forall i :: 0 <= i < Nodes(n) ==> m[i][i] != 0.0
  {
    hide IsB, Grounded, Decomposed;
    BIsGrounded(b, g, gAmb, n);
    DecomposedPermutes(b, p, m, Nodes(n));
    var last := Nodes(n) - 1;
    if m[last][last] == 0.0 {
      var y := ZeroPivotKernel(b, p, m, Nodes(n));
      OnlyZeroSolvesZero(b, AmbientLinks(gAmb, n), Nodes(n), y, 3);
      assert false;
    }
    DiagonalNonzero(b, p, m, Nodes(n));
    assert forall i :: 0 <= i < Nodes(n) ==> Get(m, i, i) == m[i][i];
  }
}
