/** Coarsening in the multigrid solver: power is added up over blocks of four cells, and the grid model is
    halved on the way down and restored on the way up. */
module Multigrid {
  import opened RealFunctions
  import opened Sums
  import opened GridMap

  // ----- adding up four neighbours

  ghost function Quad(f: (int, int) -> real): (int, int) -> real {
    (i, j) => f(2 * i, 2 * j) + f(2 * i + 1, 2 * j) + f(2 * i, 2 * j + 1) + f(2 * i + 1, 2 * j + 1)
  }

  lemma {:induction false} SumPairs(n: nat, f: int -> real, h: int -> real)
    requires forall i :: 0 <= i < n ==> h(i) == f(2 * i) + f(2 * i + 1)
    ensures Sum(2 * n, f) == Sum(n, h)
  {
    if n > 0 {
      SumPairs(n - 1, f, h);
      assert Sum(2 * n, f) == Sum(2 * n - 1, f) + f(2 * n - 1);
      assert Sum(2 * n - 1, f) == Sum(2 * n - 2, f) + f(2 * n - 2);
    }
  }

  /** Coarsening keeps the total. */
  lemma QuadTotal(rows: nat, cols: nat, f: (int, int) -> real)
    ensures Total(rows, cols, Quad(f)) == Total(2 * rows, 2 * cols, f)
  {
    var fine, coarse := Across(2 * cols, f), Across(cols, Quad(f));
    forall i | 0 <= i < rows ensures coarse(i) == fine(2 * i) + fine(2 * i + 1) {
      QuadRow(cols, f, i);
    }
    SumPairs(rows, fine, coarse);
  }

  lemma QuadRow(cols: nat, f: (int, int) -> real, i: int)
    ensures Across(cols, Quad(f))(i) == Across(2 * cols, f)(2 * i) + Across(2 * cols, f)(2 * i + 1)
  {
    var a, b := RowOf(f, 2 * i), RowOf(f, 2 * i + 1);
    var x, y := (j: int) => a(2 * j) + a(2 * j + 1), (j: int) => b(2 * j) + b(2 * j + 1);
    AcrossRow(2 * cols, f, 2 * i);
    AcrossRow(2 * cols, f, 2 * i + 1);
    AcrossRow(cols, Quad(f), i);
    SumPairs(cols, a, x);
    SumPairs(cols, b, y);
    SumIsSum(cols, RowOf(Quad(f), i), x, y);
  }

  // ----- grid vectors

  class GridVector {
    const cuboid: array3<real>
    const extra: array<real>

    constructor (layers: nat, rows: nat, cols: nat, extras: nat)
      ensures fresh(cuboid) && fresh(extra) && Sized(layers, rows, cols) && extra.Length == extras
    {
      cuboid := new real[layers, rows, cols];
      extra := new real[extras];
    }

    ghost predicate Sized(layers: nat, rows: nat, cols: nat) {
      cuboid.Length0 == layers && cuboid.Length1 == rows && cuboid.Length2 == cols
    }

    /** The cells of a layer, as a value; zero outside. */
    ghost function Cells(n: int): (int, int) -> real
      reads cuboid
    {
      FromTable(seq(cuboid.Length1, i requires 0 <= i < cuboid.Length1 reads cuboid =>
                  seq(cuboid.Length2, j requires 0 <= j < cuboid.Length2 reads cuboid =>
                    if 0 <= n < cuboid.Length0 then cuboid[n, i, j] else 0.0)))
    }
  }

  ghost function FromTable(t: seq<seq<real>>): (int, int) -> real {
    (i, j) => if 0 <= i < |t| && 0 <= j < |t[i]| then t[i][j] else 0.0
  }

  /** Total power of a layer. */
  ghost function LayerTotal(v: GridVector, n: int): real
    reads v.cuboid
  {
    Total(v.cuboid.Length1, v.cuboid.Length2, v.Cells(n))
  }

  ghost function LayerTotals(v: GridVector, k: nat): (ts: seq<real>)
    reads v.cuboid
    ensures |ts| == k && forall n :: 0 <= n < k ==> ts[n] == LayerTotal(v, n)
  {
    if k == 0 then [] else LayerTotals(v, k - 1) + [LayerTotal(v, k - 1)]
  }

  class GridModel {
    var rows: nat
    var cols: nat
    var rz: seq<real>
    var c: seq<real>
    const cReady: bool

    constructor (r: nat, k: nat, resistances: seq<real>, capacities: seq<real>, ready: bool)
      ensures rows == r && cols == k && rz == resistances && c == capacities && cReady == ready
    {
      rows, cols, rz, c, cReady := r, k, resistances, capacities, ready;
    }

    /** Adds up the power of four cells into one; package nodes are copied. */
    method RestrictPower(dst: GridVector, src: GridVector)
      requires dst.Sized(|rz|, rows, cols) && src.cuboid.Length0 == |rz| && src.cuboid.Length1 >= 2 * rows
          && src.cuboid.Length2 >= 2 * cols
      requires dst.extra.Length == src.extra.Length && dst.cuboid != src.cuboid && dst.extra != src.extra
      modifies dst.cuboid, dst.extra
      ensures dst.extra[..] == src.extra[..]
      ensures forall n, i, j :: 0 <= n < |rz| && 0 <= i < rows && 0 <= j < cols
                ==> dst.cuboid[n, i, j] == FourCells(src, n, i, j)
    {
      RestrictCells(dst, src);
      forall k | 0 <= k < dst.extra.Length { dst.extra[k] := src.extra[k]; }
    }

    method RestrictCells(dst: GridVector, src: GridVector)
      requires dst.Sized(|rz|, rows, cols) && src.cuboid.Length0 == |rz| && src.cuboid.Length1 >= 2 * rows
          && src.cuboid.Length2 >= 2 * cols
      requires dst.cuboid != src.cuboid
      modifies dst.cuboid
      ensures forall n, i, j :: 0 <= n < |rz| && 0 <= i < rows && 0 <= j < cols
                ==> dst.cuboid[n, i, j] == FourCells(src, n, i, j)
    {
      for n := 0 to |rz|
        invariant forall l, i, j :: 0 <= l < n && 0 <= i < rows && 0 <= j < cols
                    ==> dst.cuboid[l, i, j] == FourCells(src, l, i, j)
      {
        for i := 0 to rows
          invariant forall l, k, j :: 0 <= l < n && 0 <= k < rows && 0 <= j < cols
                      ==> dst.cuboid[l, k, j] == FourCells(src, l, k, j)
          invariant forall k, j :: 0 <= k < i && 0 <= j < cols ==> dst.cuboid[n, k, j] == FourCells(src, n, k, j)
        {
          for j := 0 to cols
            invariant forall l, k, m :: 0 <= l < n && 0 <= k < rows && 0 <= m < cols
                        ==> dst.cuboid[l, k, m] == FourCells(src, l, k, m)
            invariant forall k, m :: 0 <= k < i && 0 <= m < cols ==> dst.cuboid[n, k, m] == FourCells(src, n, k, m)
            invariant forall m :: 0 <= m < j ==> dst.cuboid[n, i, m] == FourCells(src, n, i, m)
          {
            dst.cuboid[n, i, j] :=
              src.cuboid[n, 2 * i, 2 * j] + src.cuboid[n, 2 * i + 1, 2 * j] + src.cuboid[n, 2 * i, 2 * j + 1]
                  + src.cuboid[n, 2 * i + 1, 2 * j + 1];
          }
        }
      }
    }

    /** Halves the grid; only vertical resistances and capacities depend on the cell size. */
    method Coarsen()
      modifies this
      ensures rows == old(rows) / 2 && cols == old(cols) / 2
      ensures rz == Multiplied(old(rz), 0.25) && c == if cReady then Multiplied(old(c), 4.0) else old(c)
    {
      rows := rows / 2;
      cols := cols / 2;
      rz := Multiplied(rz, 0.25);
      if cReady { c := Multiplied(c, 4.0); }
    }

    /** Doubles it again. */
    method Refine()
      modifies this
      ensures rows == 2 * old(rows) && cols == 2 * old(cols)
      ensures rz == Multiplied(old(rz), 4.0) && c == if cReady then Multiplied(old(c), 0.25) else old(c)
    {
      rows := rows * 2;
      cols := cols * 2;
      rz := Multiplied(rz, 4.0);
      if cReady { c := Multiplied(c, 0.25); }
    }

    /** The descent of the nested iteration. Resistances and capacities are always restored; rows and columns
        exactly when both are even at every depth, and then every depth sees the whole power: the totals of the
        layers, from the finest to the coarsest depth, are all the same. */
    method RecursiveMultigrid(power: GridVector) returns (ghost totals: seq<seq<real>>, ghost grids: seq<Shape>)
      requires power.Sized(|rz|, rows, cols)
      modifies this
      ensures rz == old(rz) && c == old(c) && (rows, cols) == Back(old(rows), old(cols))
      ensures (rows, cols) == (old(rows), old(cols)) <==> Halvable(old(rows), old(cols))
      ensures |totals| == Depths(old(rows), old(cols)) && totals[0] == LayerTotals(power, |rz|)
      ensures Halvable(old(rows), old(cols)) ==> forall d :: 0 <= d < |totals| ==> totals[d] == totals[0]
      ensures |grids| == |totals| && grids[0] == Shape(old(rows), old(cols), old(rz), old(c))
      ensures Halvable(old(rows), old(cols)) ==>
                forall d :: 0 <= d < |grids| ==> SameLayers(grids[0], grids[d], cReady)
      decreases rows
    {
      hide LayerTotal, FourCells, SameLayers;
      BackIff(rows, cols);
      totals := [LayerTotals(power, |rz|)];
      ghost var here := Shape(rows, cols, rz, c);
      grids := [here];
      SameItself(here, cReady);
      if rows > 1 && cols > 1 {
        ghost var r, k := rows, cols;
        Restored(rz, c);
        Coarsen();
        var coarse := new GridVector(|rz|, rows, cols, power.extra.Length);
        RestrictPower(coarse, power);
        if Halvable(r, k) {
          RestrictedTotals(coarse, power, rows, cols);
          assert LayerTotals(coarse, |rz|) == LayerTotals(power, |rz|);
        }
        ghost var next := Shape(rows, cols, rz, c);
        if Halvable(r, k) { CoarsenedSame(here, next, cReady); }
        ghost var coarser, below;
        coarser, below := RecursiveMultigrid(coarse);
        totals := totals + coarser;
        grids := grids + below;
        if Halvable(r, k) {
          forall d | 0 <= d < |grids| ensures SameLayers(here, grids[d], cReady) {
            if d > 0 { SameThrough(here, next, grids[d], cReady); }
          }
        }
        Refine();
      }
    }
  }

  /** A grid at one depth. */
  datatype Shape = Shape(rows: nat, cols: nat, rz: seq<real>, c: seq<real>) {
    function Cells(): real { rows as real * cols as real }
  }

  /** The layers as a whole are the same: all cells of a layer together conduct as much vertically, and hold as much
      heat where capacities are known. */
  ghost predicate SameLayers(a: Shape, b: Shape, ready: bool) {
    && |a.rz| == |b.rz| && |a.c| == |b.c|
    && (forall l :: 0 <= l < |a.rz| ==> Times(a.rz[l], b.Cells()) == Times(b.rz[l], a.Cells()))
    && (ready ==> forall l :: 0 <= l < |a.c| ==> Times(a.c[l], a.Cells()) == Times(b.c[l], b.Cells()))
  }

  lemma SameItself(a: Shape, ready: bool)
    ensures SameLayers(a, a, ready)
  {
    hide Times, Shape.Cells;
  }

  lemma CoarsenedSame(a: Shape, b: Shape, ready: bool)
    requires a.rows % 2 == 0 && a.cols % 2 == 0 && a.rows > 1 && a.cols > 1
    requires b.rows == a.rows / 2 && b.cols == a.cols / 2 && b.rz == Multiplied(a.rz, 0.25)
    requires b.c == if ready then Multiplied(a.c, 4.0) else a.c
    ensures SameLayers(a, b, ready)
  {
    QuarterCells(b.rows, b.cols);
    assert a.rows == 2 * b.rows && a.cols == 2 * b.cols;
    assert a.Cells() == 4.0 * b.Cells() && b.Cells() > 0.0;
    hide Shape.Cells;
    forall l | 0 <= l < |a.rz| ensures Times(a.rz[l], b.Cells()) == Times(b.rz[l], a.Cells()) {
      FourTimes(a.rz[l], b.Cells());
    }
    if ready {
      forall l | 0 <= l < |a.c| ensures Times(a.c[l], a.Cells()) == Times(b.c[l], b.Cells()) {
        FourTimes(a.c[l], b.Cells());
      }
    }
  }

  lemma QuarterCells(r: nat, k: nat)
    requires r > 0 && k > 0
    ensures (2 * r) as real * (2 * k) as real == 4.0 * (r as real * k as real) && r as real * k as real > 0.0
  {
    assert (2 * r) as real == 2.0 * r as real && (2 * k) as real == 2.0 * k as real;
  }

  lemma FourTimes(x: real, n: real)
    ensures Times(x, n) == Times(x * 0.25, 4.0 * n) && Times(x, 4.0 * n) == Times(x * 4.0, n)
  {
  }

  lemma SameThrough(a: Shape, b: Shape, c: Shape, ready: bool)
    requires SameLayers(a, b, ready) && SameLayers(b, c, ready) && b.rows > 0 && b.cols > 0
    ensures SameLayers(a, c, ready)
  {
    assert b.Cells() > 0.0;
    hide Shape.Cells;
    forall l | 0 <= l < |a.rz| ensures Times(a.rz[l], c.Cells()) == Times(c.rz[l], a.Cells()) {
      Proportion(a.rz[l], b.rz[l], c.rz[l], a.Cells(), b.Cells(), c.Cells());
    }
  }

  lemma Proportion(x: real, y: real, z: real, a: real, b: real, c: real)
    requires Times(x, b) == Times(y, a) && Times(y, c) == Times(z, b) && b > 0.0
    ensures Times(x, c) == Times(z, a)
  {
    assert (x * b) * c == (y * a) * c;
    assert (y * c) * a == (z * b) * a;
    NoFactor(x * c - z * a, b);
  }

  lemma NoFactor(d: real, b: real)
    requires d * b == 0.0 && b > 0.0
    ensures d == 0.0
  {
  }

  /** The number of grids, the finest included. */
  function Depths(rows: nat, cols: nat): nat
    decreases rows
  {
    if rows <= 1 || cols <= 1 then 1 else 1 + Depths(rows / 2, cols / 2)
  }

  function Multiplied(s: seq<real>, f: real): (t: seq<real>)
    ensures |t| == |s| && forall i :: 0 <= i < |s| ==> t[i] == s[i] * f
  {
    seq(|s|, i requires 0 <= i < |s| => s[i] * f)
  }

  lemma Restored(rz: seq<real>, c: seq<real>)
    ensures Multiplied(Multiplied(rz, 0.25), 4.0) == rz && Multiplied(Multiplied(c, 4.0), 0.25) == c
  {
  }

  ghost function FourCells(src: GridVector, n: int, i: int, j: int): real
    requires 0 <= n < src.cuboid.Length0 && 0 <= 2 * i && 2 * i + 1 < src.cuboid.Length1 && 0 <= 2 * j
        && 2 * j + 1 < src.cuboid.Length2
    reads src.cuboid
  {
    src.cuboid[n, 2 * i, 2 * j] + src.cuboid[n, 2 * i + 1, 2 * j] + src.cuboid[n, 2 * i, 2 * j + 1]
        + src.cuboid[n, 2 * i + 1, 2 * j + 1]
  }

  lemma RestrictedTotals(dst: GridVector, src: GridVector, rows: nat, cols: nat)
    requires dst.cuboid.Length0 == src.cuboid.Length0 && dst.cuboid.Length1 == rows && dst.cuboid.Length2 == cols
    requires src.cuboid.Length1 == 2 * rows && src.cuboid.Length2 == 2 * cols
    requires forall n, i, j :: 0 <= n < dst.cuboid.Length0 && 0 <= i < rows && 0 <= j < cols
               ==> dst.cuboid[n, i, j] == FourCells(src, n, i, j)
    ensures forall n :: 0 <= n < dst.cuboid.Length0 ==> LayerTotal(dst, n) == LayerTotal(src, n)
  {
    hide Total, Sum;
    forall n | 0 <= n < dst.cuboid.Length0 ensures LayerTotal(dst, n) == LayerTotal(src, n) {
      QuadTotal(rows, cols, src.Cells(n));
      forall i, j | 0 <= i < rows && 0 <= j < cols ensures dst.Cells(n)(i, j) == Quad(src.Cells(n))(i, j) {
        assert dst.cuboid[n, i, j] == FourCells(src, n, i, j);
      }
      TotalEqual(rows, cols, dst.Cells(n), Quad(src.Cells(n)));
    }
  }

  /** Rows and columns after descending and coming back. */
  function Back(rows: nat, cols: nat): (nat, nat)
    decreases rows
  {
    if rows <= 1 || cols <= 1 then (rows, cols)
    else var b := Back(rows / 2, cols / 2); (2 * b.0, 2 * b.1)
  }

  predicate Halvable(rows: nat, cols: nat)
    decreases rows
  {
    rows <= 1 || cols <= 1 || (rows % 2 == 0 && cols % 2 == 0 && Halvable(rows / 2, cols / 2))
  }

  lemma {:induction false} BackIff(rows: nat, cols: nat)
    ensures Back(rows, cols).0 <= rows && Back(rows, cols).1 <= cols
    ensures Back(rows, cols) == (rows, cols) <==> Halvable(rows, cols)
    decreases rows
  {
    if rows > 1 && cols > 1 { BackIff(rows / 2, cols / 2); }
  }

  function Pow2(k: nat): nat { if k == 0 then 1 else 2 * Pow2(k - 1) }

  /** Powers of two, which the configuration insists on, can be halved all the way. */
  lemma {:induction false} PowersHalvable(a: nat, b: nat)
    ensures Halvable(Pow2(a), Pow2(b))
    decreases a
  {
    if a > 0 && b > 0 {
      PowersHalvable(a - 1, b - 1);
      DoubleHalvable(Pow2(a - 1), Pow2(b - 1));
    }
  }

  lemma DoubleHalvable(rows: nat, cols: nat)
    requires Halvable(rows, cols)
    ensures Halvable(2 * rows, 2 * cols)
  {
    assert (2 * rows) / 2 == rows && (2 * cols) / 2 == cols;
  }

  /** Three rows come back as two. The solver is not called with odd dimensions: the model is refused unless
      they are powers of two. */
  lemma OddRowsLost()
    ensures Back(3, 4) == (2, 4)
  {
  }
}
