/** Mapping blocks to the cells of a regular grid by how much of each cell they occupy, and spreading block
    power over the cells. */
module GridMap {
  import opened Wrappers
  import opened RealFunctions
  import opened Sums
  import opened Geometry

  // ----- one axis

  /** The `k`-th grid line. */
  function Line(k: int, step: real): real { k as real * step }

  /** Cell that holds the point, and first cell past it. */
  function FloorCell(x: real, step: real): int
    requires step > 0.0
  {
    (x / step).Floor
  }

  function CeilCell(x: real, step: real): int
    requires step > 0.0
  {
    -((-x / step).Floor)
  }

  lemma LineStep(k: int, step: real)
    ensures Line(k + 1, step) == Line(k, step) + step && Line(0, step) == 0.0
  {
  }

  lemma LineMonotone(a: int, b: int, step: real)
    requires a <= b && step > 0.0
    ensures Line(a, step) <= Line(b, step)
  {
    assert (b - a) as real * step >= 0.0;
    assert Line(b, step) - Line(a, step) == (b - a) as real * step;
  }

  lemma Quotient(x: real, step: real)
    requires step > 0.0
    ensures (x / step) * step == x
  {
  }

  lemma FloorLines(x: real, step: real)
    requires step > 0.0
    ensures Line(FloorCell(x, step), step) <= x < Line(FloorCell(x, step) + 1, step)
  {
    var q := x / step;
    Quotient(x, step);
    var k := FloorCell(x, step);
    assert k as real <= q < (k + 1) as real;
    Scaled(k as real, q, step);
    ScaledStrictly(q, (k + 1) as real, step);
    LineStep(k, step);
    assert Line(k + 1, step) == (k + 1) as real * step;
  }

  lemma CeilLines(x: real, step: real)
    requires step > 0.0
    ensures Line(CeilCell(x, step) - 1, step) < x <= Line(CeilCell(x, step), step)
  {
    FloorLines(-x, step);
    var k := CeilCell(x, step);
    assert FloorCell(-x, step) == -k;
    assert Line(-k, step) == -Line(k, step) && Line(-k + 1, step) == -Line(k - 1, step);
  }

  lemma Scaled(a: real, b: real, step: real)
    requires a <= b && step > 0.0
    ensures a * step <= b * step
  {
  }

  lemma ScaledStrictly(a: real, b: real, step: real)
    requires a < b && step > 0.0
    ensures a * step < b * step
  {
  }

  /** The overlap of an interval with the `k`-th cell, as computed for cells that the interval meets. */
  function Overlap(lo: real, hi: real, k: int, step: real): real {
    Min(hi, Line(k + 1, step)) - Max(lo, Line(k, step))
  }

  function Clamp(x: real, lo: real, hi: real): real { if x < lo then lo else if x > hi then hi else x }

  /** The part of the interval that lies in the `k`-th cell, for any cell. */
  function Covered(lo: real, hi: real, k: int, step: real): real {
    Clamp(Line(k + 1, step), lo, hi) - Clamp(Line(k, step), lo, hi)
  }

  /** Cells of the range get their overlap, inner cells entirely; the others get nothing. */
  lemma CellCovered(lo: real, hi: real, k: int, step: real)
    requires step > 0.0 && lo <= hi
    ensures var a, b := FloorCell(lo, step), CeilCell(hi, step);
            && (a <= k < b ==> Overlap(lo, hi, k, step) == Covered(lo, hi, k, step) >= 0.0)
            && (a < k < b - 1 ==> Covered(lo, hi, k, step) == step)
            && (k < a || b <= k ==> Covered(lo, hi, k, step) == 0.0)
  {
    hide Line, FloorCell, CeilCell;
    var a, b := FloorCell(lo, step), CeilCell(hi, step);
    FloorLines(lo, step);
    CeilLines(hi, step);
    LineStep(k, step);
    if k < a { LineMonotone(k + 1, a, step); }
    if k >= b { LineMonotone(b, k, step); }
    if k > a { LineMonotone(a + 1, k, step); }
    if k < b - 1 { LineMonotone(k + 1, b - 1, step); }
    if a <= k { LineMonotone(a + 1, k + 1, step); }
    if k < b { LineMonotone(k, b - 1, step); }
  }

  /** An interval turned around that still meets a cell has a negative overlap with it. */
  lemma NegativeOverlap(lo: real, hi: real, k: int, step: real)
    requires step > 0.0 && hi < lo && FloorCell(lo, step) <= k < CeilCell(hi, step)
    ensures Overlap(lo, hi, k, step) < 0.0 && CeilCell(hi, step) == FloorCell(lo, step) + 1
  {
    hide Line, FloorCell, CeilCell;
    var a, b := FloorCell(lo, step), CeilCell(hi, step);
    FloorLines(lo, step);
    CeilLines(hi, step);
    if a + 1 <= b - 1 { LineMonotone(a + 1, b - 1, step); }
  }

  /** The cells of a row share out the part of the interval that lies in the row. */
  lemma {:induction false} CoveredSum(lo: real, hi: real, n: nat, step: real)
    ensures Sum(n, CoveredBy(lo, hi, step)) == Clamp(Line(n, step), lo, hi) - Clamp(0.0, lo, hi)
  {
    hide Clamp;
    if n > 0 { CoveredSum(lo, hi, n - 1, step); } else { LineStep(0, step); }
  }

  ghost function CoveredBy(lo: real, hi: real, step: real): int -> real { k => Covered(lo, hi, k, step) }

  ghost function Reversed(n: int, f: int -> real): int -> real { i => f(n - 1 - i) }

  lemma {:induction false} SumReversed(n: nat, f: int -> real)
    ensures Sum(n, Reversed(n, f)) == Sum(n, f)
  {
    if n > 0 {
      SumReversed(n - 1, f);
      SumFirst(n, Reversed(n, f));
      SumEqual(n - 1, i => Reversed(n, f)(i + 1), Reversed(n - 1, f));
    }
  }

  lemma {:induction false} SumFirst(n: nat, f: int -> real)
    requires n > 0
    ensures Sum(n, f) == f(0) + Sum(n - 1, i => f(i + 1))
  {
    if n > 1 { SumFirst(n - 1, f); }
  }

  // ----- cells

  datatype Grid = Grid(rows: nat, cols: nat, width: real, height: real) {
    predicate Valid() { rows >= 1 && cols >= 1 && width > 0.0 && height > 0.0 }
    function CellWidth(): real
      requires Valid()
    {
      width / cols as real
    }
    function CellHeight(): real
      requires Valid()
    {
      height / rows as real
    }
  }

  lemma CellSizes(g: Grid)
    requires g.Valid()
    ensures g.CellWidth() > 0.0 && g.CellHeight() > 0.0
    ensures Line(g.cols, g.CellWidth()) == g.width && Line(g.rows, g.CellHeight()) == g.height
  {
  }

  /** Rows are counted from the top. */
  function FirstRow(g: Grid, u: Rect): int
    requires g.Valid() && g.CellHeight() > 0.0
  {
    g.rows - CeilCell(u.Top(), g.CellHeight())
  }

  function EndRow(g: Grid, u: Rect): int
    requires g.Valid() && g.CellHeight() > 0.0
  {
    g.rows - FloorCell(u.bottomy, g.CellHeight())
  }

  function FirstCol(g: Grid, u: Rect): int
    requires g.Valid() && g.CellWidth() > 0.0
  {
    FloorCell(u.leftx, g.CellWidth())
  }

  function EndCol(g: Grid, u: Rect): int
    requires g.Valid() && g.CellWidth() > 0.0
  {
    CeilCell(u.Right(), g.CellWidth())
  }

  /** The range of cells is not empty and lies in the grid. */
  predicate InRange(g: Grid, u: Rect)
    requires g.Valid() && g.CellWidth() > 0.0 && g.CellHeight() > 0.0
  {
    0 <= FirstRow(g, u) < EndRow(g, u) <= g.rows && 0 <= FirstCol(g, u) < EndCol(g, u) <= g.cols
  }

  predicate Meets(g: Grid, u: Rect, i: int, j: int)
    requires g.Valid() && g.CellWidth() > 0.0 && g.CellHeight() > 0.0
  {
    FirstRow(g, u) <= i < EndRow(g, u) && FirstCol(g, u) <= j < EndCol(g, u)
  }

  function RowPart(g: Grid, u: Rect, i: int): real
    requires g.Valid()
  {
    Covered(u.bottomy, u.Top(), g.rows - 1 - i, g.CellHeight())
  }

  function ColPart(g: Grid, u: Rect, j: int): real
    requires g.Valid()
  {
    Covered(u.leftx, u.Right(), j, g.CellWidth())
  }

  /** The share of the cell that the block occupies. */
  function Occupancy(g: Grid, u: Rect, i: int, j: int): real
    requires g.Valid() && g.CellWidth() > 0.0 && g.CellHeight() > 0.0
  {
    AreaShare(RowPart(g, u, i), ColPart(g, u, j), g.CellHeight(), g.CellWidth())
  }

  function AreaShare(h: real, w: real, ch: real, cw: real): real
    requires ch > 0.0 && cw > 0.0
  {
    assert ch * cw > 0.0;
    h * w / (ch * cw)
  }

  predicate Upright(u: Rect) { u.width >= 0.0 && u.height >= 0.0 }

  /** Blocks of positive size have a proper range exactly when they lie in the grid. */
  lemma InRangeIff(g: Grid, u: Rect)
    requires g.Valid() && u.width > 0.0 && u.height > 0.0 && g.CellWidth() > 0.0 && g.CellHeight() > 0.0
    ensures InRange(g, u) <==> 0.0 <= u.leftx && u.Right() <= g.width && 0.0 <= u.bottomy && u.Top() <= g.height
  {
    hide FloorCell, CeilCell, Line, Grid.CellWidth, Grid.CellHeight;
    CellSizes(g);
    AxisInRange(u.leftx, u.Right(), g.cols, g.CellWidth());
    AxisInRange(u.bottomy, u.Top(), g.rows, g.CellHeight());
  }

  lemma AxisInRange(lo: real, hi: real, n: nat, step: real)
    requires lo < hi && step > 0.0
    ensures FloorCell(lo, step) < CeilCell(hi, step)
    ensures 0 <= FloorCell(lo, step) <==> 0.0 <= lo
    ensures CeilCell(hi, step) <= n <==> hi <= Line(n, step)
  {
    hide FloorCell, CeilCell, Line;
    var a, b := FloorCell(lo, step), CeilCell(hi, step);
    FloorLines(lo, step);
    CeilLines(hi, step);
    LineStep(0, step);
    if a >= b { LineMonotone(b, a, step); }
    if a >= 0 { LineMonotone(0, a, step); } else { LineMonotone(a + 1, 0, step); }
    if b <= n { LineMonotone(b, n, step); } else { LineMonotone(n, b - 1, step); }
  }

  datatype Entry = Entry(idx: nat, occupancy: real)

  /** The blocks of a cell, in order, with their shares. */
  function Occupants(g: Grid, us: seq<Rect>, i: int, j: int): seq<Entry>
    requires g.Valid() && g.CellWidth() > 0.0 && g.CellHeight() > 0.0
  {
    if us == [] then []
    else
      var n := |us| - 1;
      Occupants(g, us[..n], i, j) + if Meets(g, us[n], i, j) then [Entry(n, Occupancy(g, us[n], i, j))] else []
  }

  predicate Interior(g: Grid, u: Rect, i: int, j: int)
    requires g.Valid() && g.CellWidth() > 0.0 && g.CellHeight() > 0.0
  {
    FirstRow(g, u) < i < EndRow(g, u) - 1 && FirstCol(g, u) < j < EndCol(g, u) - 1
  }

  lemma RowOverlap(g: Grid, u: Rect, i: int)
    requires g.Valid() && g.CellWidth() > 0.0 && g.CellHeight() > 0.0 && u.height >= 0.0
        && FirstRow(g, u) <= i < EndRow(g, u)
    ensures Overlap(u.bottomy, u.Top(), g.rows - 1 - i, g.CellHeight()) == RowPart(g, u, i) >= 0.0
    ensures FirstRow(g, u) < i < EndRow(g, u) - 1 ==> RowPart(g, u, i) == g.CellHeight()
  {
    hide FloorCell, CeilCell, Covered, Overlap, Grid.CellHeight;
    CellCovered(u.bottomy, u.Top(), g.rows - 1 - i, g.CellHeight());
  }

  lemma ColOverlap(g: Grid, u: Rect, j: int)
    requires g.Valid() && g.CellWidth() > 0.0 && g.CellHeight() > 0.0 && u.width >= 0.0
        && FirstCol(g, u) <= j < EndCol(g, u)
    ensures Overlap(u.leftx, u.Right(), j, g.CellWidth()) == ColPart(g, u, j) >= 0.0
    ensures FirstCol(g, u) < j < EndCol(g, u) - 1 ==> ColPart(g, u, j) == g.CellWidth()
  {
    hide FloorCell, CeilCell, Covered, Overlap, Grid.CellWidth;
    CellCovered(u.leftx, u.Right(), j, g.CellWidth());
  }

  /** The shortcut for inner cells agrees with the general formula. */
  lemma InteriorFull(g: Grid, u: Rect, i: int, j: int)
    requires g.Valid() && g.CellWidth() > 0.0 && g.CellHeight() > 0.0 && Upright(u) && Interior(g, u, i, j)
    ensures Occupancy(g, u, i, j) == 1.0
  {
    hide RowPart, ColPart, Grid.CellWidth, Grid.CellHeight, FloorCell, CeilCell, AreaShare;
    RowOverlap(g, u, i);
    ColOverlap(g, u, j);
    FullShare(g.CellHeight(), g.CellWidth());
  }

  lemma FullShare(ch: real, cw: real)
    requires ch > 0.0 && cw > 0.0
    ensures AreaShare(ch, cw, ch, cw) == 1.0
  {
  }

  // ----- building the map

  lemma RowLines(g: Grid, i: int)
    requires g.Valid()
    ensures g.height - i as real * g.CellHeight() == Line(g.rows - i, g.CellHeight())
    ensures g.height - (i + 1) as real * g.CellHeight() == Line(g.rows - 1 - i, g.CellHeight())
  {
    hide Grid.CellHeight;
    CellSizes(g);
    LineDifference(g.rows, i, g.CellHeight());
    LineDifference(g.rows, i + 1, g.CellHeight());
  }

  lemma LineDifference(a: int, b: int, step: real)
    ensures Line(a, step) - b as real * step == Line(a - b, step)
  {
  }

  /** The share of one cell, computed from the boundaries of block and cell; None for a negative overlap. */
  method CellShare(g: Grid, u: Rect, i: nat, j: nat) returns (share: Option<real>)
    requires g.Valid() && g.CellWidth() > 0.0 && g.CellHeight() > 0.0 && Meets(g, u, i, j)
    ensures share.Some? <==> Upright(u)
    ensures share.Some? ==> share.value == Occupancy(g, u, i, j)
  {
    hide Grid.CellWidth, Grid.CellHeight, FloorCell, CeilCell, RowPart, ColPart, AreaShare, Overlap, Line, RowExtent,
        ColExtent;
    if FirstRow(g, u) < i < EndRow(g, u) - 1 && FirstCol(g, u) < j < EndCol(g, u) - 1 {
      InteriorUpright(g, u, i, j);
      InteriorFull(g, u, i, j);
      return Some(1.0);
    }
    var oh, ow := RowExtent(g, u, i), ColExtent(g, u, j);
    ExtentsAreOverlaps(g, u, i, j);
    OverlapSigns(g, u, i, j);
    if oh < 0.0 || ow < 0.0 { return None; }
    RowOverlap(g, u, i);
    ColOverlap(g, u, j);
    return Some(AreaShare(oh, ow, g.CellHeight(), g.CellWidth()));
  }

  /** Height and width of the overlap of block and cell, from their boundaries. */
  function RowExtent(g: Grid, u: Rect, i: int): real
    requires g.Valid()
  {
    Min(u.Top(), g.height - i as real * g.CellHeight()) - Max(u.bottomy, g.height - (i + 1) as real * g.CellHeight())
  }

  function ColExtent(g: Grid, u: Rect, j: int): real
    requires g.Valid()
  {
    Min(u.Right(), (j + 1) as real * g.CellWidth()) - Max(u.leftx, j as real * g.CellWidth())
  }

  lemma ExtentsAreOverlaps(g: Grid, u: Rect, i: int, j: int)
    requires g.Valid()
    ensures RowExtent(g, u, i) == Overlap(u.bottomy, u.Top(), g.rows - 1 - i, g.CellHeight())
    ensures ColExtent(g, u, j) == Overlap(u.leftx, u.Right(), j, g.CellWidth())
  {
    hide Grid.CellWidth, Grid.CellHeight;
    RowLines(g, i);
    assert g.rows - i == g.rows - 1 - i + 1;
    assert Line(j, g.CellWidth()) == j as real * g.CellWidth();
    assert Line(j + 1, g.CellWidth()) == (j + 1) as real * g.CellWidth();
  }

  lemma InteriorUpright(g: Grid, u: Rect, i: int, j: int)
    requires g.Valid() && g.CellWidth() > 0.0 && g.CellHeight() > 0.0 && Interior(g, u, i, j)
    ensures Upright(u)
  {
    hide FloorCell, CeilCell, Grid.CellWidth, Grid.CellHeight;
    if u.height < 0.0 { NegativeOverlap(u.bottomy, u.Top(), g.rows - 1 - i, g.CellHeight()); }
    if u.width < 0.0 { NegativeOverlap(u.leftx, u.Right(), j, g.CellWidth()); }
  }

  lemma OverlapSigns(g: Grid, u: Rect, i: int, j: int)
    requires g.Valid() && g.CellWidth() > 0.0 && g.CellHeight() > 0.0 && Meets(g, u, i, j)
    ensures Upright(u) <==> Overlap(u.bottomy, u.Top(), g.rows - 1 - i, g.CellHeight()) >= 0.0
                            && Overlap(u.leftx, u.Right(), j, g.CellWidth()) >= 0.0
  {
    hide FloorCell, CeilCell, Grid.CellWidth, Grid.CellHeight, Overlap, RowPart, ColPart;
    if u.height < 0.0 { NegativeOverlap(u.bottomy, u.Top(), g.rows - 1 - i, g.CellHeight()); }
        else { RowOverlap(g, u, i); }
    if u.width < 0.0 { NegativeOverlap(u.leftx, u.Right(), j, g.CellWidth()); } else { ColOverlap(g, u, j); }
  }

  ghost predicate Fresh(m: array2<seq<Entry>>, g: Grid)
    reads m
  {
    m.Length0 == g.rows && m.Length1 == g.cols
  }

  /** What is added to a cell for block `idx`. */
  function Added(g: Grid, u: Rect, idx: nat, i: int, j: int): seq<Entry>
    requires g.Valid() && g.CellWidth() > 0.0 && g.CellHeight() > 0.0
  {
    if Meets(g, u, i, j) then [Entry(idx, Occupancy(g, u, i, j))] else []
  }

  /** Adds one block to the cells of a row that it meets. */
  method AddRow(g: Grid, u: Rect, idx: nat, i: nat, m: array2<seq<Entry>>) returns (ok: bool)
    requires g.Valid() && g.CellWidth() > 0.0 && g.CellHeight() > 0.0 && Fresh(m, g) && InRange(g, u)
    requires FirstRow(g, u) <= i < EndRow(g, u)
    modifies m
    ensures ok <==> Upright(u)
    ensures ok ==> forall r, c :: 0 <= r < g.rows && 0 <= c < g.cols
                     ==> m[r, c] == old(m[r, c]) + if r == i then Added(g, u, idx, r, c) else []
  {
    hide Grid.CellWidth, Grid.CellHeight, FloorCell, CeilCell, Occupancy, Upright;
    var j1, j2 := FirstCol(g, u), EndCol(g, u);
    for j := j1 to j2
      invariant j > j1 ==> Upright(u)
      invariant forall r, c :: 0 <= r < g.rows && 0 <= c < g.cols ==>
                  m[r, c] == old(m[r, c]) + if r == i && c < j then Added(g, u, idx, r, c) else []
    {
      var share := CellShare(g, u, i, j);
      if share.None? { return false; }
      m[i, j] := m[i, j] + [Entry(idx, share.value)];
    }
    return true;
  }

  /** Adds one block to all cells that it meets. */
  method AddUnit(g: Grid, u: Rect, idx: nat, m: array2<seq<Entry>>) returns (ok: bool)
    requires g.Valid() && g.CellWidth() > 0.0 && g.CellHeight() > 0.0 && Fresh(m, g) && InRange(g, u)
    modifies m
    ensures ok <==> Upright(u)
    ensures ok ==> forall r, c :: 0 <= r < g.rows && 0 <= c < g.cols
                     ==> m[r, c] == old(m[r, c]) + Added(g, u, idx, r, c)
  {
    hide Grid.CellWidth, Grid.CellHeight, FloorCell, CeilCell, Occupancy, Upright;
    var i1, i2 := FirstRow(g, u), EndRow(g, u);
    for i := i1 to i2
      invariant i > i1 ==> Upright(u)
      invariant forall r, c :: 0 <= r < g.rows && 0 <= c < g.cols
                  ==> m[r, c] == old(m[r, c]) + if r < i then Added(g, u, idx, r, c) else []
    {
      ok := AddRow(g, u, idx, i, m);
      if !ok { return; }
    }
    return true;
  }

  /** A block that the map accepts. */
  predicate Placeable(g: Grid, u: Rect)
    requires g.Valid() && g.CellWidth() > 0.0 && g.CellHeight() > 0.0
  {
    InRange(g, u) && Upright(u)
  }

  /** Sets up the map from cells to blocks. It stops exactly when some block has an empty range of cells,
      leaves the grid or is turned around; otherwise every cell lists the blocks it meets, in order, each
      with its share of the cell. */
  method SetBgmap(g: Grid, us: seq<Rect>, m: array2<seq<Entry>>) returns (ok: bool)
    requires g.Valid() && g.CellWidth() > 0.0 && g.CellHeight() > 0.0 && Fresh(m, g)
    modifies m
    ensures ok <==> forall u :: 0 <= u < |us| ==> Placeable(g, us[u])
    ensures ok ==> forall i, j :: 0 <= i < g.rows && 0 <= j < g.cols ==> m[i, j] == Occupants(g, us, i, j)
  {
    hide Grid.CellWidth, Grid.CellHeight, Meets, InRange, Occupancy, Upright, Occupants;
    ResetMap(m);
    NoOccupants(g, us);
    for u := 0 to |us|
      invariant forall k :: 0 <= k < u ==> Placeable(g, us[k])
      invariant forall i, j :: 0 <= i < g.rows && 0 <= j < g.cols ==> m[i, j] == Occupants(g, us[..u], i, j)
    {
      if !InRange(g, us[u]) { return false; }
      ok := AddUnit(g, us[u], u, m);
      if !ok { return; }
      MoreOccupants(g, us, u);
    }
    assert us[..|us|] == us;
    return true;
  }

  method ResetMap(m: array2<seq<Entry>>)
    modifies m
    ensures forall i, j :: 0 <= i < m.Length0 && 0 <= j < m.Length1 ==> m[i, j] == []
  {
    for i := 0 to m.Length0
      invariant forall r, c :: 0 <= r < i && 0 <= c < m.Length1 ==> m[r, c] == []
    {
      for j := 0 to m.Length1
        invariant forall r, c :: 0 <= r < i && 0 <= c < m.Length1 ==> m[r, c] == []
        invariant forall c :: 0 <= c < j ==> m[i, c] == []
      {
        m[i, j] := [];
      }
    }
  }

  lemma NoOccupants(g: Grid, us: seq<Rect>)
    requires g.Valid() && g.CellWidth() > 0.0 && g.CellHeight() > 0.0
    ensures forall i, j :: Occupants(g, us[..0], i, j) == []
  {
  }

  lemma MoreOccupants(g: Grid, us: seq<Rect>, u: nat)
    requires g.Valid() && g.CellWidth() > 0.0 && g.CellHeight() > 0.0 && u < |us|
    ensures forall i, j :: Occupants(g, us[..u + 1], i, j) == Occupants(g, us[..u], i, j) + Added(g, us[u], u, i, j)
  {
    assert us[..u + 1][..u] == us[..u];
  }

  // ----- spreading power

  /** Sum over all cells. */
  ghost function Total(rows: nat, cols: nat, f: (int, int) -> real): real { Sum(rows, Across(cols, f)) }

  lemma AcrossRow(cols: nat, f: (int, int) -> real, i: int)
    ensures Across(cols, f)(i) == Sum(cols, RowOf(f, i))
  {
    SumEqual(cols, j => f(i, j), RowOf(f, i));
  }

  lemma TotalEqual(rows: nat, cols: nat, f: (int, int) -> real, h: (int, int) -> real)
    requires forall i, j :: 0 <= i < rows && 0 <= j < cols ==> f(i, j) == h(i, j)
    ensures Total(rows, cols, f) == Total(rows, cols, h)
  {
    forall i | 0 <= i < rows ensures Across(cols, f)(i) == Across(cols, h)(i) {
      AcrossRow(cols, f, i);
      AcrossRow(cols, h, i);
      SumEqual(cols, RowOf(f, i), RowOf(h, i));
    }
    SumEqual(rows, Across(cols, f), Across(cols, h));
  }

  ghost function Plus(f: (int, int) -> real, h: (int, int) -> real): (int, int) -> real { (i, j) => f(i, j) + h(i, j) }

  lemma TotalPlus(rows: nat, cols: nat, f: (int, int) -> real, h: (int, int) -> real)
    ensures Total(rows, cols, Plus(f, h)) == Total(rows, cols, f) + Total(rows, cols, h)
  {
    forall i | 0 <= i < rows ensures Across(cols, Plus(f, h))(i) == Across(cols, f)(i) + Across(cols, h)(i) {
      AcrossRow(cols, f, i);
      AcrossRow(cols, h, i);
      AcrossRow(cols, Plus(f, h), i);
      SumIsSum(cols, RowOf(Plus(f, h), i), RowOf(f, i), RowOf(h, i));
    }
    SumIsSum(rows, Across(cols, Plus(f, h)), Across(cols, f), Across(cols, h));
  }

  lemma {:induction false} SumIsSum(n: nat, e: int -> real, f: int -> real, h: int -> real)
    requires forall i :: 0 <= i < n ==> e(i) == f(i) + h(i)
    ensures Sum(n, e) == Sum(n, f) + Sum(n, h)
  {
    if n > 0 { SumIsSum(n - 1, e, f, h); }
  }

  lemma {:induction false} SumIsScaled(n: nat, e: int -> real, c: real, f: int -> real)
    requires forall i :: 0 <= i < n ==> e(i) == Times(c, f(i))
    ensures Sum(n, e) == Times(c, Sum(n, f))
  {
    hide Times;
    TimesZero(c);
    if n > 0 {
      SumIsScaled(n - 1, e, c, f);
      TimesAdds(Sum(n - 1, f), f(n - 1), c);
    }
  }

  /** Products of a row and a column quantity. */
  ghost function Outer(d: real, a: int -> real, b: int -> real): (int,
      int) -> real { (i, j) => Times(d, Times(a(i), b(j))) }

  lemma TotalOuter(rows: nat, cols: nat, d: real, a: int -> real, b: int -> real)
    ensures Total(rows, cols, Outer(d, a, b)) == Times(d, Times(Sum(rows, a), Sum(cols, b)))
  {
    hide Times;
    var s := Sum(cols, b);
    forall i | 0 <= i < rows ensures Across(cols, Outer(d, a, b))(i) == Times(Times(d, s), a(i)) {
      AcrossRow(cols, Outer(d, a, b), i);
      forall j | 0 <= j < cols ensures RowOf(Outer(d, a, b), i)(j) == Times(Times(d, a(i)), b(j)) {
        Regrouped(d, a(i), b(j));
      }
      SumIsScaled(cols, RowOf(Outer(d, a, b), i), Times(d, a(i)), b);
      Regrouped(d, a(i), s);
    }
    SumIsScaled(rows, Across(cols, Outer(d, a, b)), Times(d, s), a);
    Regrouped(d, Sum(rows, a), s);
  }

  lemma Regrouped(d: real, a: real, s: real)
    ensures Times(Times(d, a), s) == Times(Times(d, s), a) == Times(d, Times(a, s))
  {
  }

  ghost function RowParts(g: Grid, u: Rect): int -> real
    requires g.Valid()
  {
    i => RowPart(g, u, i)
  }

  ghost function ColParts(g: Grid, u: Rect): int -> real
    requires g.Valid()
  {
    j => ColPart(g, u, j)
  }

  /** The parts of a block in the rows, and in the columns, make up the block. */
  lemma PartsSum(g: Grid, u: Rect)
    requires g.Valid() && Upright(u) && 0.0 <= u.leftx && u.Right() <= g.width && 0.0 <= u.bottomy
        && u.Top() <= g.height
    ensures Sum(g.rows, RowParts(g, u)) == u.height && Sum(g.cols, ColParts(g, u)) == u.width
  {
    hide Line, Grid.CellWidth, Grid.CellHeight, Covered;
    CellSizes(g);
    var rows := CoveredBy(u.bottomy, u.Top(), g.CellHeight());
    CoveredSum(u.bottomy, u.Top(), g.rows, g.CellHeight());
    SumReversed(g.rows, rows);
    SumEqual(g.rows, RowParts(g, u), Reversed(g.rows, rows));
    CoveredSum(u.leftx, u.Right(), g.cols, g.CellWidth());
    SumEqual(g.cols, ColParts(g, u), CoveredBy(u.leftx, u.Right(), g.CellWidth()));
  }

  function Density(u: Rect, v: real): real
    requires u.width > 0.0 && u.height > 0.0
  {
    assert u.width * u.height > 0.0;
    v / (u.width * u.height)
  }

  /** Power of a cell from the first `n` blocks: density times the area they share with it. */
  ghost function CellPower(g: Grid, us: seq<Rect>, v: seq<real>, n: nat): (int, int) -> real
    requires g.Valid() && AllSolid(us) && n <= |us| == |v|
  {
    if n == 0 then (i, j) => 0.0
    else Plus(CellPower(g, us, v, n - 1), Outer(Density(us[n - 1], v[n - 1]), RowParts(g, us[n - 1]),
        ColParts(g, us[n - 1])))
  }

  ghost function SumOf(v: seq<real>, n: nat): real
    requires n <= |v|
  {
    if n == 0 then 0.0 else SumOf(v, n - 1) + v[n - 1]
  }

  /** Total grid power equals total block power, whatever the floorplan, if its blocks lie in the grid. */
  lemma {:induction false} PowerConserved(g: Grid, us: seq<Rect>, v: seq<real>, n: nat)
    requires g.Valid() && AllSolid(us) && n <= |us| == |v| && g.CellWidth() > 0.0 && g.CellHeight() > 0.0
    requires forall k :: 0 <= k < |us| ==> InRange(g, us[k])
    ensures Total(g.rows, g.cols, CellPower(g, us, v, n)) == SumOf(v, n)
    decreases n
  {
    hide Total, Outer, Plus, Density, Times, RowParts, ColParts, Grid.CellWidth, Grid.CellHeight, InRange;
    if n == 0 {
      TotalZero(g.rows, g.cols);
    } else {
      var u := us[n - 1];
      PowerConserved(g, us, v, n - 1);
      InRangeIff(g, u);
      PartsSum(g, u);
      TotalOuter(g.rows, g.cols, Density(u, v[n - 1]), RowParts(g, u), ColParts(g, u));
      DensityTimesArea(u, v[n - 1]);
      TotalPlus(g.rows, g.cols, CellPower(g, us, v, n - 1),
          Outer(Density(u, v[n - 1]), RowParts(g, u), ColParts(g, u)));
    }
  }

  lemma TotalZero(rows: nat, cols: nat)
    ensures Total(rows, cols, (i, j) => 0.0) == 0.0
  {
    var f := (i: int, j: int) => 0.0;
    forall i | 0 <= i < rows ensures Across(cols, f)(i) == 0.0 { SumZero(cols, j => f(i, j)); }
    SumZero(rows, Across(cols, f));
    TotalEqual(rows, cols, f, (i, j) => 0.0);
  }

  lemma DensityTimesArea(u: Rect, v: real)
    requires u.width > 0.0 && u.height > 0.0
    ensures Times(Density(u, v), Times(u.height, u.width)) == v
  {
    var a := u.width * u.height;
    assert a > 0.0;
    assert (v / a) * a == v;
  }

  ghost predicate Indexed(es: seq<Entry>, n: nat) { forall k :: 0 <= k < |es| ==> es[k].idx < n }

  /** Power density of a cell: the densities of its blocks weighted by their shares. */
  ghost function ListAverage(es: seq<Entry>, us: seq<Rect>, v: seq<real>): real
    requires Indexed(es, |us|) && AllSolid(us) && |us| == |v|
  {
    if es == [] then 0.0
    else
      var last := es[|es| - 1];
      ListAverage(es[..|es| - 1], us, v) + Times(last.occupancy, Density(us[last.idx], v[last.idx]))
  }

  method BlistAverage(es: seq<Entry>, us: seq<Rect>, v: seq<real>) returns (avg: real)
    requires Indexed(es, |us|) && AllSolid(us) && |us| == |v|
    ensures avg == ListAverage(es, us, v)
  {
    avg := 0.0;
    for k := 0 to |es|
      invariant avg == ListAverage(es[..k], us, v)
    {
      assert es[..k + 1][..k] == es[..k];
      avg := avg + Times(es[k].occupancy, Density(us[es[k].idx], v[es[k].idx]));
    }
    assert es[..|es|] == es;
  }

  lemma NotMet(g: Grid, u: Rect, i: int, j: int)
    requires g.Valid() && g.CellWidth() > 0.0 && g.CellHeight() > 0.0 && Upright(u) && !Meets(g, u, i, j)
    ensures Times(RowPart(g, u, i), ColPart(g, u, j)) == 0.0
  {
    hide FloorCell, CeilCell, Grid.CellWidth, Grid.CellHeight, Covered;
    CellCovered(u.bottomy, u.Top(), g.rows - 1 - i, g.CellHeight());
    CellCovered(u.leftx, u.Right(), j, g.CellWidth());
  }

  function CellArea(g: Grid): real
    requires g.Valid()
  {
    g.width * g.height / (g.cols as real * g.rows as real)
  }

  lemma CellAreaIs(g: Grid)
    requires g.Valid()
    ensures CellArea(g) == g.CellHeight() * g.CellWidth() && g.CellHeight() * g.CellWidth() > 0.0
  {
    var r, c := g.rows as real, g.cols as real;
    assert (g.width / c) * c == g.width && (g.height / r) * r == g.height;
    Quarters(g.width / c, c, g.height / r, r);
    CellSizes(g);
  }

  lemma Quarters(x: real, c: real, y: real, r: real)
    requires c > 0.0 && r > 0.0
    ensures (x * c) * (y * r) / (c * r) == y * x
  {
    assert (x * c) * (y * r) == (y * x) * (c * r);
    assert c * r > 0.0;
  }

  /** A block's share of a cell, times its density and the cell's area, is its power there. */
  lemma SharePower(h: real, w: real, ch: real, cw: real, d: real, area: real)
    requires ch > 0.0 && cw > 0.0 && area == ch * cw
    ensures Times(Times(AreaShare(h, w, ch, cw), d), area) == Times(d, Times(h, w))
  {
    var p, q := ch * cw, h * w;
    assert p > 0.0;
    assert (q / p) * p == q;
    Regrouped(q / p, d, p);
    assert Times(Times(q / p, p), d) == Times(q, d) == Times(d, q);
  }

  lemma {:induction false} OccupantsIndexed(g: Grid, us: seq<Rect>, i: int, j: int)
    requires g.Valid() && g.CellWidth() > 0.0 && g.CellHeight() > 0.0
    ensures Indexed(Occupants(g, us, i, j), |us|)
    decreases |us|
  {
    if us != [] { OccupantsIndexed(g, us[..|us| - 1], i, j); }
  }

  /** The average of a cell's list, times its area, is the cell's power. */
  lemma {:induction false} AverageIsPower(g: Grid, us: seq<Rect>, v: seq<real>, n: nat, i: int, j: int)
    requires g.Valid() && AllSolid(us) && n <= |us| == |v| && g.CellWidth() > 0.0 && g.CellHeight() > 0.0
    ensures Indexed(Occupants(g, us[..n], i, j), |us|)
    ensures Times(ListAverage(Occupants(g, us[..n], i, j), us, v), CellArea(g)) == CellPower(g, us, v, n)(i, j)
    decreases n
  {
    hide Times, Density, CellArea, Meets, AreaShare, RowPart, ColPart, Grid.CellWidth, Grid.CellHeight, CellPower,
        Occupants, ListAverage, Indexed;
    AverageStep(g, us, v, n, i, j);
    CellPowerStep(g, us, v, n, i, j);
    if n == 0 {
      TimesZero(CellArea(g));
    } else {
      var u, d := us[n - 1], Density(us[n - 1], v[n - 1]);
      AverageIsPower(g, us, v, n - 1, i, j);
      UnitPower(g, u, i, j, d);
      TimesAdds(ListAverage(Occupants(g, us[..n - 1], i, j), us, v), ShareOf(g, u, i, j, d), CellArea(g));
    }
  }

  /** What a block adds to the average of a cell. */
  ghost function ShareOf(g: Grid, u: Rect, i: int, j: int, d: real): real
    requires g.Valid() && g.CellWidth() > 0.0 && g.CellHeight() > 0.0
  {
    if Meets(g, u, i, j) then Times(Occupancy(g, u, i, j), d) else 0.0
  }

  lemma UnitPower(g: Grid, u: Rect, i: int, j: int, d: real)
    requires g.Valid() && g.CellWidth() > 0.0 && g.CellHeight() > 0.0 && Upright(u)
    ensures Times(ShareOf(g, u, i, j, d), CellArea(g)) == Times(d, Times(RowPart(g, u, i), ColPart(g, u, j)))
  {
    hide Times, CellArea, Meets, AreaShare, RowPart, ColPart, Grid.CellWidth, Grid.CellHeight;
    if Meets(g, u, i, j) {
      CellAreaIs(g);
      SharePower(RowPart(g, u, i), ColPart(g, u, j), g.CellHeight(), g.CellWidth(), d, CellArea(g));
    } else {
      NotMet(g, u, i, j);
      TimesZero(d);
      TimesZero(CellArea(g));
    }
  }

  lemma AverageStep(g: Grid, us: seq<Rect>, v: seq<real>, n: nat, i: int, j: int)
    requires g.Valid() && AllSolid(us) && n <= |us| == |v| && g.CellWidth() > 0.0 && g.CellHeight() > 0.0
    ensures Indexed(Occupants(g, us[..n], i, j), |us|)
    ensures n == 0 ==> ListAverage(Occupants(g, us[..n], i, j), us, v) == 0.0
    ensures n > 0 ==>
              && Indexed(Occupants(g, us[..n - 1], i, j), |us|)
              && ListAverage(Occupants(g, us[..n], i, j), us, v)
                 == ListAverage(Occupants(g, us[..n - 1], i, j), us, v)
                     + ShareOf(g, us[n - 1], i, j, Density(us[n - 1], v[n - 1]))
  {
    hide Times, Density, Meets, Occupancy, Grid.CellWidth, Grid.CellHeight;
    OccupantsIndexed(g, us[..n], i, j);
    if n > 0 {
      OccupantsIndexed(g, us[..n - 1], i, j);
      assert us[..n][..n - 1] == us[..n - 1];
      var before, es := Occupants(g, us[..n - 1], i, j), Occupants(g, us[..n], i, j);
      if Meets(g, us[n - 1], i, j) {
        assert es[..|es| - 1] == before;
      } else {
        assert es == before;
      }
    }
  }

  lemma CellPowerStep(g: Grid, us: seq<Rect>, v: seq<real>, n: nat, i: int, j: int)
    requires g.Valid() && AllSolid(us) && n <= |us| == |v|
    ensures CellPower(g, us, v, n)(i, j) ==
            if n == 0 then 0.0
            else CellPower(g, us, v, n - 1)(i, j) + Times(Density(us[n - 1], v[n - 1]),
                Times(RowPart(g, us[n - 1], i), ColPart(g, us[n - 1], j)))
  {
    hide Times, Density, RowPart, ColPart;
  }

  /** The cells of an array. */
  ghost predicate Shows(f: (int, int) -> real, out: array2<real>)
    reads out
  {
    forall i, j :: 0 <= i < out.Length0 && 0 <= j < out.Length1 ==> f(i, j) == out[i, j]
  }

  /** Translates block power to grid power. The power of all cells together is that of all blocks. */
  method XlatePower(g: Grid, us: seq<Rect>, v: seq<real>, m: array2<seq<Entry>>, out: array2<real>)
    requires g.Valid() && AllSolid(us) && |us| == |v| && g.CellWidth() > 0.0 && g.CellHeight() > 0.0
    requires Fresh(m, g) && out.Length0 == g.rows && out.Length1 == g.cols
    requires forall k :: 0 <= k < |us| ==> InRange(g, us[k])
    requires forall i, j :: 0 <= i < g.rows && 0 <= j < g.cols ==> m[i, j] == Occupants(g, us, i, j)
    modifies out
    ensures Shows(CellPower(g, us, v, |us|), out)
    ensures forall f :: Shows(f, out) ==> Total(g.rows, g.cols, f) == SumOf(v, |v|)
  {
    hide Times, Density, CellArea, Occupants, CellPower, ListAverage, Grid.CellWidth, Grid.CellHeight, InRange, Total;
    ghost var power := CellPower(g, us, v, |us|);
    var area := CellArea(g);
    for i := 0 to g.rows
      invariant forall r, c :: 0 <= r < i && 0 <= c < g.cols ==> power(r, c) == out[r, c]
    {
      for j := 0 to g.cols
        invariant forall r, c :: 0 <= r < i && 0 <= c < g.cols ==> power(r, c) == out[r, c]
        invariant forall c :: 0 <= c < j ==> power(i, c) == out[i, c]
      {
        assert us[..|us|] == us;
        AverageIsPower(g, us, v, |us|, i, j);
        var avg := BlistAverage(m[i, j], us, v);
        out[i, j] := Times(avg, area);
      }
    }
    PowerConserved(g, us, v, |us|);
    forall f | Shows(f, out) ensures Total(g.rows, g.cols, f) == SumOf(v, |v|) {
      TotalEqual(g.rows, g.cols, f, power);
    }
  }

  // ----- all layers

  /** Where the powers of layer `n` start in the block vector. */
  function Start(layers: seq<seq<Rect>>, n: nat): nat
    requires n <= |layers|
  {
    if n == 0 then 0 else Start(layers, n - 1) + |layers[n - 1]|
  }

  lemma {:induction false} StartMonotone(layers: seq<seq<Rect>>, n: nat, k: nat)
    requires n <= k <= |layers|
    ensures Start(layers, n) <= Start(layers, k)
    decreases k
  {
    if n < k { StartMonotone(layers, n, k - 1); }
  }

  /** Every layer fits the grid, and its map is set up. */
  ghost predicate Ready(g: Grid, us: seq<Rect>, m: array2<seq<Entry>>, out: array2<real>)
    reads m
  {
    && g.Valid() && g.CellWidth() > 0.0 && g.CellHeight() > 0.0
    && AllSolid(us) && Fresh(m, g) && out.Length0 == g.rows && out.Length1 == g.cols
    && (forall k :: 0 <= k < |us| ==> InRange(g, us[k]))
    && (forall i, j :: 0 <= i < g.rows && 0 <= j < g.cols ==> m[i, j] == Occupants(g, us, i, j))
  }

  /** The cells of a layer hold the power of its blocks, all of it. */
  ghost predicate Spread(g: Grid, us: seq<Rect>, v: seq<real>, out: array2<real>)
    requires g.Valid() && AllSolid(us) && |us| == |v|
    reads out
  {
    && Shows(CellPower(g, us, v, |us|), out)
    && forall f :: Shows(f, out) ==> Total(g.rows, g.cols, f) == SumOf(v, |v|)
  }

  /** The part of the block vector that belongs to layer `n`. */
  ghost function LayerPower(layers: seq<seq<Rect>>, b: seq<real>, n: nat): (v: seq<real>)
    requires n < |layers| && Start(layers, |layers|) <= |b|
    ensures |v| == |layers[n]|
  {
    StartMonotone(layers, n + 1, |layers|);
    b[Start(layers, n)..Start(layers, n + 1)]
  }

  lemma StartNone(layers: seq<seq<Rect>>)
    ensures Start(layers, 0) == 0
  {
  }

  lemma StartNext(layers: seq<seq<Rect>>, n: nat)
    requires n < |layers|
    ensures Start(layers, n + 1) == Start(layers, n) + |layers[n]| <= Start(layers, |layers|)
  {
    StartMonotone(layers, n + 1, |layers|);
  }

  method XlateLayer(g: Grid, us: seq<Rect>, v: seq<real>, m: array2<seq<Entry>>, out: array2<real>)
    requires Ready(g, us, m, out) && |us| == |v|
    modifies out
    ensures Spread(g, us, v, out)
  {
    hide Occupants, InRange, Grid.CellWidth, Grid.CellHeight, CellPower;
    XlatePower(g, us, v, m, out);
  }

  /** Copies the values from `base` on. */
  method CopyExtra(b: seq<real>, base: nat, extra: array<real>)
    requires |b| == base + extra.Length
    modifies extra
    ensures extra[..] == b[base..]
  {
    for i := 0 to extra.Length
      invariant forall k :: 0 <= k < i ==> extra[k] == b[base + k]
    {
      extra[i] := b[base + i];
    }
  }

  /** Translates the power vector of all layers, each from its part of the block vector, and copies the
      package nodes behind them. */
  method XlateVector(g: Grid, layers: seq<seq<Rect>>, b: seq<real>, maps: seq<array2<seq<Entry>>>,
      cuboid: seq<array2<real>>, extra: array<real>)
    requires |layers| == |maps| == |cuboid| && |b| == Start(layers, |layers|) + extra.Length
    requires g.Valid() && (forall n :: 0 <= n < |layers| ==> AllSolid(layers[n]))
    requires forall n :: 0 <= n < |layers| ==> Ready(g, layers[n], maps[n], cuboid[n])
    requires forall i, j :: 0 <= i < j < |cuboid| ==> cuboid[i] != cuboid[j]
    modifies set n | 0 <= n < |cuboid| :: cuboid[n]
    modifies extra
    ensures forall n :: 0 <= n < |layers| ==> Spread(g, layers[n], LayerPower(layers, b, n), cuboid[n])
    ensures extra[..] == b[Start(layers, |layers|)..]
  {
    hide Shows, Total, CellPower, Start, Occupants, InRange, Grid.CellWidth, Grid.CellHeight;
    var base := 0;
    StartNone(layers);
    for n := 0 to |layers|
      invariant base == Start(layers, n)
      invariant forall k :: 0 <= k < n ==> Spread(g, layers[k], LayerPower(layers, b, k), cuboid[k])
      invariant forall k :: 0 <= k < |layers| ==> Ready(g, layers[k], maps[k], cuboid[k])
    {
      StartNext(layers, n);
      label Before:
      XlateLayer(g, layers[n], b[base..base + |layers[n]|], maps[n], cuboid[n]);
      assert b[base..base + |layers[n]|] == LayerPower(layers, b, n);
      forall k | 0 <= k < n ensures Spread(g, layers[k], LayerPower(layers, b, k), cuboid[k]) {
        assert old@Before(Spread(g, layers[k], LayerPower(layers, b, k), cuboid[k]));
      }
      base := base + |layers[n]|;
    }
    CopyExtra(b, base, extra);
  }
}
