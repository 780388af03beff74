/** The numbers in the grid's matrix: which resistance lies between which two nodes, in both directions of a layer,
    between layers, around the layers with a ring of package nodes, within the package and to the ambient. */
module GridValues {
  import opened Wrappers
  import opened Compass
  import opened RealFunctions
  import opened Sums
  import opened GridNetwork
  import opened GridSweep
  import opened GridAssembly
  import opened GridSystem
  import Conduction

  ghost function Between(m: Model, a: Node, b: Node): real
    requires m.Valid()
  {
    EntryAt(Entries(m), Index(m, a), Index(m, b))
  }

  /** A neighbour's entry is its conductance, with the sign changed. */
  lemma LinkEntry(m: Model, a: Node, x: Link)
    requires m.Valid() && InNet(m, a) && x in Links(m, a)
    ensures InNet(m, x.to) && Between(m, a, x.to) == -x.c && Between(m, x.to, a) == -x.c
  {
    hide EntriesTo, EntryAt, Size, Index, Links, LinkSum, RowLinks, Once, InNet, Turn, RowAmbient;
    LinksSound(m, a);
    RowLinksRight(m, a, seq(Size(m), _ => 0.0));
    var ls := RowLinks(m, a);
    var k :| 0 <= k < |ls| && ls[k] == x;
    var e := RowEntries(m, a)[k];
    assert e == Entry(Index(m, a), Index(m, x.to), -x.c);
    TurnRight(m, a);
    RowIncluded(m, Size(m), a, e);
    var es := Entries(m);
    var p: nat :| p < |es| && es[p] == e;
    EntriesOnce(m, Size(m));
    EntryOnce(es, p);
    MatrixSymmetric(m, Index(m, a), Index(m, x.to));
  }

  /** Nodes that are no neighbours have nothing between them. */
  lemma NoEntry(m: Model, a: Node, b: Node)
    requires m.Valid() && InNet(m, a) && InNet(m, b) && a != b
    requires forall c :: !Joined(m, a, b, c)
    ensures Between(m, a, b) == 0.0
  {
    hide EntriesTo, EntryAt, Size, Index, Links, LinkSum, RowLinks, Once, InNet, Turn, RowAmbient, Joined;
    var es := Entries(m);
    if Between(m, a, b) != 0.0 {
      EntriesOnce(m, Size(m));
      var k := EntryFound(es, Index(m, a), Index(m, b));
      var n := EntryRow(m, Size(m), es[k]);
      RowOnce(m, n);
      IndexUnique(m, n, a);
      var row, ls := RowEntries(m, a), RowLinks(m, a);
      var i :| 0 <= i < |row| && row[i] == es[k];
      if i == |ls| {
        IndexUnique(m, a, b);
      } else {
        RowLinksRight(m, a, seq(Size(m), _ => 0.0));
        assert ls[i] in Links(m, a);
        LinksSound(m, a);
        IndexUnique(m, ls[i].to, b);
        LinksRight(m, a, ls[i]);
      }
    }
  }

  // ----- cells

  /** To the east and west through the layer's resistance along x, to the north and south through that along y, and
      up and down through that of the upper layer of the two. */
  lemma CellEntries(m: Model, l: nat, i: nat, j: nat)
    requires AtCell(m, l, i, j)
    ensures j + 1 < m.cols ==> Between(m, Cell(l, i, j), Cell(l, i, j + 1)) == -(1.0 / m.layers[l].r.x)
    ensures i + 1 < m.rows ==> Between(m, Cell(l, i, j), Cell(l, i + 1, j)) == -(1.0 / m.layers[l].r.y)
    ensures l + 1 < |m.layers| ==> Between(m, Cell(l, i, j), Cell(l + 1, i, j)) == -(1.0 / m.layers[l].rz)
  {
    hide Between, CellLinks;
    var a := Cell(l, i, j);
    if j + 1 < m.cols {
      var b, c := Cell(l, i, j + 1), 1.0 / m.layers[l].r.x;
      assert Adjacent(East, i, j, i, j + 1) && c == FlatG(m, l, East);
      LinksRight(m, a, Link(b, c));
      LinkEntry(m, a, Link(b, c));
    }
    if i + 1 < m.rows {
      var b, c := Cell(l, i + 1, j), 1.0 / m.layers[l].r.y;
      assert Adjacent(South, i, j, i + 1, j) && c == FlatG(m, l, South);
      LinksRight(m, a, Link(b, c));
      LinkEntry(m, a, Link(b, c));
    }
    if l + 1 < |m.layers| {
      var b, c := Cell(l + 1, i, j), 1.0 / m.layers[l].rz;
      LinksRight(m, a, Link(b, c));
      LinkEntry(m, a, Link(b, c));
    }
  }

  /** Cells that share no face have nothing between them. */
  lemma OtherCells(m: Model, a: Node, b: Node)
    requires m.Valid() && InNet(m, a) && InNet(m, b) && a.Cell? && b.Cell? && a != b
    requires a.l != b.l ==> a.i != b.i || a.j != b.j || (a.l != b.l + 1 && b.l != a.l + 1)
    requires a.l == b.l ==> (a.i != b.i || (a.j != b.j + 1 && b.j != a.j + 1))
                            && (a.j != b.j || (a.i != b.i + 1 && b.i != a.i + 1))
    ensures Between(m, a, b) == 0.0
  {
    NoEntry(m, a, b);
  }

  // ----- rings

  /** The layers with a ring of package nodes and the resistance of the ring. */
  predicate HasRing(m: Model, l: nat, g: Group, ring: Axes) {
    || (g == Sp && l == |m.layers| - 2 && ring == m.pack.sp1)
    || (g == SinkC && l == |m.layers| - 1 && ring == m.pack.hs1)
    || (m.secondary && g == Sub && l == 2 && ring == m.pack.sub1)
    || (m.secondary && g == Solder && l == 1 && ring == m.pack.solder1)
    || (m.secondary && g == PcbC && l == 0 && ring == m.pack.pcb1)
  }

  /** From the centre of an edge cell half its resistance, then the ring's, of which every cell of the side has its
      part. */
  lemma RingEntry(m: Model, l: nat, g: Group, ring: Axes, i: nat, j: nat)
    requires AtCell(m, l, i, j) && HasRing(m, l, g, ring)
    ensures m.layers[l].r.x / 2.0 + m.rows as real * ring.x > 0.0
    ensures m.layers[l].r.y / 2.0 + m.cols as real * ring.y > 0.0
    ensures j == 0 ==> Between(m, Cell(l, i, j), Pack(g, West)) ==
                       -(1.0 / (m.layers[l].r.x / 2.0 + m.rows as real * ring.x))
    ensures j == m.cols - 1 ==> Between(m, Cell(l, i, j), Pack(g, East)) ==
                                -(1.0 / (m.layers[l].r.x / 2.0 + m.rows as real * ring.x))
    ensures i == 0 ==> Between(m, Cell(l, i, j), Pack(g, North)) ==
                       -(1.0 / (m.layers[l].r.y / 2.0 + m.cols as real * ring.y))
    ensures i == m.rows - 1 ==> Between(m, Cell(l, i, j), Pack(g, South)) ==
                                -(1.0 / (m.layers[l].r.y / 2.0 + m.cols as real * ring.y))
  {
    hide Between, CellLinks;
    RingValue(m, l, g, ring);
    if j == 0 { RingLinked(m, l, g, i, j, West); }
    if j == m.cols - 1 { RingLinked(m, l, g, i, j, East); }
    if i == 0 { RingLinked(m, l, g, i, j, North); }
    if i == m.rows - 1 { RingLinked(m, l, g, i, j, South); }
  }

  lemma RingValue(m: Model, l: nat, g: Group, ring: Axes)
    requires m.Valid() && l < |m.layers| && HasRing(m, l, g, ring)
    ensures m.layers[l].r.x / 2.0 + m.rows as real * ring.x > 0.0
    ensures m.layers[l].r.y / 2.0 + m.cols as real * ring.y > 0.0
    ensures RingG(m, l, g, West) == RingG(m, l, g, East) == 1.0 / (m.layers[l].r.x / 2.0 + m.rows as real * ring.x)
    ensures RingG(m, l, g, North) == RingG(m, l, g, South) == 1.0 / (m.layers[l].r.y / 2.0 + m.cols as real * ring.y)
  {
    RingAxesOf(m, l, g, ring);
    hide RingAxes, HasRing, Along;
    OneSide(m, l, g, ring, West, m.rows);
    OneSide(m, l, g, ring, East, m.rows);
    OneSide(m, l, g, ring, North, m.cols);
    OneSide(m, l, g, ring, South, m.cols);
  }

  lemma OneSide(m: Model, l: nat, g: Group, ring: Axes, s: Side, cells: nat)
    requires m.Valid() && l < |m.layers| && ring == RingAxes(m.pack, g)
    requires cells == if s == West || s == East then m.rows else m.cols
    ensures m.layers[l].r.Of(s) / 2.0 + cells as real * ring.Of(s) > 0.0
    ensures RingG(m, l, g, s) == 1.0 / (m.layers[l].r.Of(s) / 2.0 + cells as real * ring.Of(s))
  {
    hide RingAxes;
    Halves(m, l, g, s);
  }

  lemma RingAxesOf(m: Model, l: nat, g: Group, ring: Axes)
    requires m.Valid() && HasRing(m, l, g, ring)
    ensures RingAxes(m.pack, g) == ring
  {
  }

  lemma RingLinked(m: Model, l: nat, g: Group, i: nat, j: nat, s: Side)
    requires AtCell(m, l, i, j) && GroupOf(m, l) == Some(g) && AtEdge(m, s, i, j)
    ensures Between(m, Cell(l, i, j), Pack(g, s)) == -RingG(m, l, g, s)
  {
    hide Between, RingG, CellLinks;
    RingActive(m, l);
    LinksRight(m, Cell(l, i, j), Link(Pack(g, s), RingG(m, l, g, s)));
    LinkEntry(m, Cell(l, i, j), Link(Pack(g, s), RingG(m, l, g, s)));
  }

  // ----- the package

  /** The pairs of package groups with a resistance between them, side by side. */
  predicate HasBond(m: Model, g: Group, h: Group, r: Axes) {
    || (g == Sp && h == SinkC && r == m.pack.spPer)
    || (g == SinkC && h == Sink && r == m.pack.hs2)
    || (m.secondary && g == Sub && h == Solder && r == m.pack.solderPer)
    || (m.secondary && g == Solder && h == PcbC && r == m.pack.pcbPer)
    || (m.secondary && g == PcbC && h == Pcb && r == m.pack.pcb2)
  }

  lemma BondEntry(m: Model, g: Group, h: Group, r: Axes)
    requires m.Valid() && HasBond(m, g, h, r)
    ensures r.x > 0.0 && r.y > 0.0
    ensures Between(m, Pack(g, West), Pack(h, West)) == Between(m, Pack(g, East), Pack(h, East)) == -(1.0 / r.x)
    ensures Between(m, Pack(g, North), Pack(h, North)) == Between(m, Pack(g, South), Pack(h, South)) == -(1.0 / r.y)
  {
    hide Between;
    BondLinked(m, g, h, r, West);
    BondLinked(m, g, h, r, East);
    BondLinked(m, g, h, r, North);
    BondLinked(m, g, h, r, South);
  }

  lemma BondLinked(m: Model, g: Group, h: Group, r: Axes, s: Side)
    requires m.Valid() && HasBond(m, g, h, r)
    ensures r.Of(s) > 0.0 && Between(m, Pack(g, s), Pack(h, s)) == -(1.0 / r.Of(s))
  {
    hide Between;
    var k := if g == SinkC || g == Solder || g == PcbC then 1 else 0;
    var x := BondLink(m, g, s, k);
    assert Bonded(m, Pack(g, s), x.to, x.c);
    LinksRight(m, Pack(g, s), x);
    LinkEntry(m, Pack(g, s), x);
  }

  // ----- the ambient

  /** What the rows sum to: the cells of the sink, those of the board if it is modelled, and the outer nodes of the
      package conduct to the ambient, and nothing else does. */
  lemma RowSums(m: Model, n: Node)
    requires m.Valid() && InNet(m, n)
    ensures Sum(Size(m), Conduction.RowEntry(Dense(m), Index(m, n))) ==
            match n {
              case Cell(l, _, _) =>
                if l == |m.layers| - 1 then 1.0 / m.layers[l].rz
                else if l == 0 && m.secondary then 1.0 / m.pack.pcbCell else 0.0
              case Pack(g, s) =>
                var along := s == West || s == East;
                match g
                case SinkC => 1.0 / (if along then m.pack.sinkCAmb.x else m.pack.sinkCAmb.y)
                case Sink => 1.0 / (if along then m.pack.sinkAmb.x else m.pack.sinkAmb.y)
                case PcbC => 1.0 / (if along then m.pack.pcbCAmb.x else m.pack.pcbCAmb.y)
                case Pcb => 1.0 / (if along then m.pack.pcbAmb.x else m.pack.pcbAmb.y)
                case _ => 0.0
            }
  {
    hide Sum, Dense, Index, Size;
    RowSum(m, n);
  }

  // ----- one relaxed cell

  /** The heat flows of a cell inside its layer and between layers balance at the temperature the sweep gives it. */
  lemma InnerBalance(m: Model, power: seq<real>, ambient: real, t: seq<real>, l: nat, i: nat, j: nat)
    requires Temps(m, t) && Temps(m, power) && 0 < l < |m.layers| - 1 && 0 < i < m.rows - 1 && 0 < j < m.cols - 1
    ensures var v, rx, ry := Relaxed(m, power, ambient, t, Cell(l, i, j)), m.layers[l].r.x, m.layers[l].r.y;
            (v - At(m, t, Cell(l, i, j - 1))) / rx + (v - At(m, t, Cell(l, i, j + 1))) / rx
            + (v - At(m, t, Cell(l, i - 1, j))) / ry + (v - At(m, t, Cell(l, i + 1, j))) / ry
            + (v - At(m, t, Cell(l + 1, i, j))) / m.layers[l].rz
            + (v - At(m, t, Cell(l - 1, i, j))) / m.layers[l - 1].rz == At(m, power, Cell(l, i, j))
  {
    hide At, Links, Inflow, TotalG;
    var n := Cell(l, i, j);
    var v := Relaxed(m, power, ambient, t, n);
    TotalGPositive(m, n);
    QuotientIff(v, Inflow(m, power, ambient, t, n), TotalG(m, n));
    InnerSums(m, t, l, i, j);
    InnerInflow(m, power, ambient, t, l, i, j);
    var gx, gy, gd, gu := G(m.layers[l].r.x), G(m.layers[l].r.y), G(m.layers[l].rz), G(m.layers[l - 1].rz);
    SixFlows(v, gx, gy, gd, gu, At(m, t, Cell(l, i, j - 1)), At(m, t, Cell(l, i, j + 1)), At(m, t, Cell(l, i - 1, j)),
        At(m, t, Cell(l, i + 1, j)), At(m, t, Cell(l + 1, i, j)), At(m, t, Cell(l - 1, i, j)));
    Over(v - At(m, t, Cell(l, i, j - 1)), m.layers[l].r.x);
    Over(v - At(m, t, Cell(l, i, j + 1)), m.layers[l].r.x);
    Over(v - At(m, t, Cell(l, i - 1, j)), m.layers[l].r.y);
    Over(v - At(m, t, Cell(l, i + 1, j)), m.layers[l].r.y);
    Over(v - At(m, t, Cell(l + 1, i, j)), m.layers[l].rz);
    Over(v - At(m, t, Cell(l - 1, i, j)), m.layers[l - 1].rz);
  }

  lemma Over(d: real, r: real)
    requires r > 0.0
    ensures d / r == Times(G(r), d)
  {
  }

  lemma SixFlows(v: real, gx: real, gy: real, gd: real, gu: real, w: real, e: real, n: real, s: real, d: real, u: real)
    ensures Times(gx, v - w) + Times(gx, v - e) + Times(gy, v - n) + Times(gy, v - s) + Times(gd, v - d)
            + Times(gu, v - u) ==
            Times(gx + gx + gy + gy + gd + gu, v)
            - (Times(gx, w) + Times(gx, e) + Times(gy, n) + Times(gy, s) + Times(gd, d) + Times(gu, u))
  {
  }

  lemma InnerSums(m: Model, t: seq<real>, l: nat, i: nat, j: nat)
    requires Temps(m, t) && 0 < l < |m.layers| - 1 && 0 < i < m.rows - 1 && 0 < j < m.cols - 1
    ensures var n, gx, gy, gd, gu := Cell(l, i, j), G(m.layers[l].r.x), G(m.layers[l].r.y), G(m.layers[l].rz),
                G(m.layers[l - 1].rz);
            && TotalG(m, n) == gx + gx + gy + gy + gd + gu
            && Sound(m, Links(m, n))
            && Weighted(m, Links(m, n), t) ==
               Times(gx, At(m, t, Cell(l, i, j - 1))) + Times(gx, At(m, t, Cell(l, i, j + 1)))
               + Times(gy, At(m, t, Cell(l, i - 1, j))) + Times(gy, At(m, t, Cell(l, i + 1, j)))
               + Times(gd, At(m, t, Cell(l + 1, i, j))) + Times(gu, At(m, t, Cell(l - 1, i, j)))
  {
    hide At, Times, G;
    var ls := InnerLinks(m, l, i, j);
    hide Links;
    TotalGPositive(m, Cell(l, i, j));
    SumsUpTo(m, ls, t, 1);
    SumsUpTo(m, ls, t, 2);
    SumsUpTo(m, ls, t, 3);
    SumsUpTo(m, ls, t, 4);
    SumsUpTo(m, ls, t, 5);
    SumsUpTo(m, ls, t, 6);
    assert ls[..0] == [] && ls[..6] == ls;
  }

  lemma SumsUpTo(m: Model, ls: seq<Link>, t: seq<real>, k: nat)
    requires Temps(m, t) && Sound(m, ls) && 0 < k <= |ls|
    ensures Sound(m, ls[..k]) && Sound(m, ls[..k - 1])
    ensures LinkSum(ls[..k]) == LinkSum(ls[..k - 1]) + ls[k - 1].c
    ensures Weighted(m, ls[..k], t) == Weighted(m, ls[..k - 1], t) + Times(ls[k - 1].c, At(m, t, ls[k - 1].to))
  {
    hide At, Times;
    assert ls[..k][..k - 1] == ls[..k - 1];
  }

  /** The six neighbours. */
  lemma InnerLinks(m: Model, l: nat, i: nat, j: nat) returns (ls: seq<Link>)
    requires m.Valid() && 0 < l < |m.layers| - 1 && 0 < i < m.rows - 1 && 0 < j < m.cols - 1
    ensures ls == Links(m, Cell(l, i, j)) && Ambient(m, Cell(l, i, j)) == 0.0
    ensures ls == [Link(Cell(l, i - 1, j), G(m.layers[l].r.y)), Link(Cell(l, i + 1, j), G(m.layers[l].r.y)),
                   Link(Cell(l, i, j + 1), G(m.layers[l].r.x)), Link(Cell(l, i, j - 1), G(m.layers[l].r.x)),
                   Link(Cell(l + 1, i, j), G(m.layers[l].rz)), Link(Cell(l - 1, i, j), G(m.layers[l - 1].rz))]
  {
    ls := Links(m, Cell(l, i, j));
  }

  lemma InnerInflow(m: Model, power: seq<real>, ambient: real, t: seq<real>, l: nat, i: nat, j: nat)
    requires Temps(m, t) && Temps(m, power) && 0 < l < |m.layers| - 1 && 0 < i < m.rows - 1 && 0 < j < m.cols - 1
    ensures Sound(m, Links(m, Cell(l, i, j)))
    ensures Inflow(m, power, ambient, t, Cell(l, i, j)) ==
            At(m, power, Cell(l, i, j)) + Weighted(m, Links(m, Cell(l, i, j)), t)
  {
    hide Links, Weighted, At, Times;
    TotalGPositive(m, Cell(l, i, j));
    TimesZero(ambient);
  }
}
