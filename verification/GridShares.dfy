/** How much power a grid cell gets, stated on rectangles: cell (i, j) is the j-th from the left in the i-th row from
    the top, and every block gives it power in proportion to the area they have in common. */
module GridShares {
  import opened RealFunctions
  import opened Sums
  import opened Geometry
  import opened GridMap

  function CellRect(g: Grid, i: int, j: int): Rect
    requires g.Valid()
  {
    Rect(j as real * g.CellWidth(), g.height - (i + 1) as real * g.CellHeight(), g.CellWidth(), g.CellHeight())
  }

  /** The length two intervals have in common. */
  function Common(a: real, b: real, c: real, d: real): real { Max(0.0, Min(b, d) - Max(a, c)) }

  function CommonArea(u: Rect, r: Rect): real {
    Times(Common(u.bottomy, u.Top(), r.bottomy, r.Top()), Common(u.leftx, u.Right(), r.leftx, r.Right()))
  }

  /** Power density of a block times the area it shares with a cell. */
  ghost function Given(g: Grid, us: seq<Rect>, v: seq<real>, i: int, j: int): int -> real
    requires g.Valid() && AllSolid(us) && |us| == |v|
  {
    k => if 0 <= k < |us| then Times(PerArea(us[k], v[k]), CommonArea(us[k], CellRect(g, i, j))) else 0.0
  }

  function PerArea(u: Rect, v: real): real
    requires Solid(u)
  {
    assert u.width * u.height > 0.0;
    v / (u.width * u.height)
  }

  lemma CoveredIs(lo: real, hi: real, k: int, step: real)
    requires lo <= hi && step > 0.0
    ensures GridMap.Covered(lo, hi, k, step) == Common(lo, hi, Line(k, step), Line(k + 1, step))
  {
    LineStep(k, step);
  }

  /** The lines around a cell. */
  lemma CellEdges(g: Grid, i: int, j: int)
    requires g.Valid()
    ensures var r, ch, cw := CellRect(g, i, j), g.CellHeight(), g.CellWidth();
            && r.leftx == Line(j, cw) && r.Right() == Line(j + 1, cw)
            && r.bottomy == Line(g.rows - 1 - i, ch) && r.Top() == Line(g.rows - i, ch)
  {
    CellSizes(g);
    var ch, cw := g.CellHeight(), g.CellWidth();
    assert g.height == g.rows as real * ch;
    assert (j + 1) as real * cw == j as real * cw + cw;
    assert (g.rows - 1 - i) as real * ch == g.rows as real * ch - (i + 1) as real * ch;
    assert (g.rows - i) as real * ch == g.rows as real * ch - (i + 1) as real * ch + ch;
  }

  lemma PartsAre(g: Grid, u: Rect, i: int, j: int)
    requires g.Valid() && Solid(u)
    ensures Times(RowPart(g, u, i), ColPart(g, u, j)) == CommonArea(u, CellRect(g, i, j))
  {
    CellSizes(g);
    CellEdges(g, i, j);
    hide Grid.CellWidth, Grid.CellHeight, CellRect, GridMap.Covered, Common, Line, Times;
    CoveredIs(u.bottomy, u.Top(), g.rows - 1 - i, g.CellHeight());
    CoveredIs(u.leftx, u.Right(), j, g.CellWidth());
  }

  lemma NoPower(g: Grid, us: seq<Rect>, v: seq<real>, i: int, j: int)
    requires g.Valid() && AllSolid(us) && |us| == |v|
    ensures CellPower(g, us, v, 0)(i, j) == 0.0
  {
  }

  lemma PowerStep(g: Grid, us: seq<Rect>, v: seq<real>, i: int, j: int, n: nat)
    requires g.Valid() && AllSolid(us) && 0 < n <= |us| == |v|
    ensures CellPower(g, us, v, n)(i, j) ==
            CellPower(g, us, v, n - 1)(i, j)
            + Times(Density(us[n - 1], v[n - 1]), Times(RowPart(g, us[n - 1], i), ColPart(g, us[n - 1], j)))
  {
    hide RowPart, ColPart, Times, Density;
  }

  lemma GivenAt(g: Grid, us: seq<Rect>, v: seq<real>, i: int, j: int, k: nat)
    requires g.Valid() && AllSolid(us) && k < |us| == |v|
    ensures Given(g, us, v, i, j)(k) == Times(Density(us[k], v[k]), CommonArea(us[k], CellRect(g, i, j)))
  {
    hide CommonArea, CellRect, Times;
    assert PerArea(us[k], v[k]) == Density(us[k], v[k]);
  }

  lemma {:induction false} PowerUpTo(g: Grid, us: seq<Rect>, v: seq<real>, i: int, j: int, n: nat)
    requires g.Valid() && AllSolid(us) && n <= |us| == |v|
    ensures CellPower(g, us, v, n)(i, j) == Sum(n, Given(g, us, v, i, j))
    decreases n
  {
    hide CommonArea, CellRect, RowPart, ColPart, Times, CellPower, Given, Density;
    if n == 0 {
      NoPower(g, us, v, i, j);
    } else {
      PowerUpTo(g, us, v, i, j, n - 1);
      PartsAre(g, us[n - 1], i, j);
      PowerStep(g, us, v, i, j, n);
      GivenAt(g, us, v, i, j, n - 1);
    }
  }

  /** After the translation a cell of a layer holds, of every block, its density times the area in common. */
  lemma SpreadIs(g: Grid, us: seq<Rect>, v: seq<real>, out: array2<real>, i: nat, j: nat)
    requires g.Valid() && AllSolid(us) && |us| == |v| && out.Length0 == g.rows && out.Length1 == g.cols
    requires Spread(g, us, v, out) && i < g.rows && j < g.cols
    ensures out[i, j] == Sum(|us|, Given(g, us, v, i, j))
  {
    hide CellPower, Total;
    PowerUpTo(g, us, v, i, j, |us|);
  }
}
