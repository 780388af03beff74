/** The sparse matrix of the direct solver, assembled row by row with a case for every position of a cell in
    its layer, and why it describes the same system as the sweep. */
module GridAssembly {
  import opened Wrappers
  import opened Compass
  import opened RealFunctions
  import opened GridNetwork
  import opened GridSweep

  // ----- the nine cases

  /** In-plane neighbours listed for the cell with number `idx` in its layer. */
  function NineFlat(m: Model, idx: int): seq<Side>
    requires m.Valid()
  {
    if idx == 0 then [East, South]
    else if idx == m.cols - 1 then [West, South]
    else if idx == m.rows * m.cols - m.cols then [East, North]
    else if idx == m.rows * m.cols - 1 then [West, North]
    else if 0 < idx < m.cols - 1 then [West, East, South]
    else if m.rows * m.cols - m.cols < idx < m.rows * m.cols - 1 then [West, East, North]
    else if idx % m.cols == 0 then [North, South, East]
    else if (idx + 1) % m.cols == 0 then [North, South, West]
    else [North, South, West, East]
  }

  /** Ring nodes listed for it, if the layer has a ring. */
  function NineRing(m: Model, idx: int): seq<Side>
    requires m.Valid()
  {
    if idx == 0 then [North, West]
    else if idx == m.cols - 1 then [North, East]
    else if idx == m.rows * m.cols - m.cols then [South, West]
    else if idx == m.rows * m.cols - 1 then [South, East]
    else if 0 < idx < m.cols - 1 then [North]
    else if m.rows * m.cols - m.cols < idx < m.rows * m.cols - 1 then [South]
    else if idx % m.cols == 0 then [West]
    else if (idx + 1) % m.cols == 0 then [East]
    else []
  }

  function FlatByPlace(top: bool, bottom: bool, left: bool, right: bool): seq<Side> {
    if top && left then [East, South]
    else if top && right then [West, South]
    else if bottom && left then [East, North]
    else if bottom && right then [West, North]
    else if top then [West, East, South]
    else if bottom then [West, East, North]
    else if left then [North, South, East]
    else if right then [North, South, West]
    else [North, South, West, East]
  }

  function RingByPlace(top: bool, bottom: bool, left: bool, right: bool): seq<Side> {
    if top && left then [North, West]
    else if top && right then [North, East]
    else if bottom && left then [South, West]
    else if bottom && right then [South, East]
    else if top then [North]
    else if bottom then [South]
    else if left then [West]
    else if right then [East]
    else []
  }

  function Number(m: Model, i: int, j: int): int { i * m.cols + j }

  lemma NumberRows(m: Model, i: nat, j: nat)
    requires m.Valid() && i < m.rows && j < m.cols
    ensures var idx := Number(m, i, j);
            && (i == 0 <==> idx < m.cols) && (i == 0 ==> idx == j)
            && (i == m.rows - 1 <==> idx >= m.rows * m.cols - m.cols)
                && (i == m.rows - 1 ==> idx == m.rows * m.cols - m.cols + j)
  {
    var c := m.cols;
    if i > 0 { ProductMonotone(1, i, c); }
    if i < m.rows - 1 { ProductMonotone(i + 1, m.rows - 1, c); }
    assert (m.rows - 1) * c == m.rows * c - c;
  }

  lemma NumberColumns(m: Model, i: nat, j: nat)
    requires m.Valid() && i < m.rows && j < m.cols
    ensures var idx := Number(m, i, j); idx % m.cols == j && ((idx + 1) % m.cols == 0 <==> j == m.cols - 1)
  {
    DivMod(i, j, m.cols);
    if j < m.cols - 1 { DivMod(i, j + 1, m.cols); } else { WholeRows(i, m.cols); }
  }

  lemma WholeRows(i: nat, c: nat)
    requires c > 0
    ensures (i * c + (c - 1) + 1) % c == 0
  {
    assert i * c + (c - 1) + 1 == (i + 1) * c + 0;
    DivMod(i + 1, 0, c);
  }

  /** The cases by number are the cases by position. */
  lemma NineCases(m: Model, i: nat, j: nat)
    requires m.Valid() && i < m.rows && j < m.cols
    ensures NineFlat(m, Number(m, i, j)) == FlatByPlace(i == 0, i == m.rows - 1, j == 0, j == m.cols - 1)
    ensures NineRing(m, Number(m, i, j)) == RingByPlace(i == 0, i == m.rows - 1, j == 0, j == m.cols - 1)
  {
    hide Number;
    NumberRows(m, i, j);
    NumberColumns(m, i, j);
  }

  /** The cells in this direction exist. */
  lemma NineInside(m: Model, i: nat, j: nat, s: Side)
    requires m.Valid() && i < m.rows && j < m.cols
    ensures s in NineFlat(m, Number(m, i, j)) <==> !AtEdge(m, s, i, j)
    ensures s in NineRing(m, Number(m, i, j)) <==> AtEdge(m, s, i, j)
  {
    hide NineFlat, NineRing;
    NineCases(m, i, j);
  }

  // ----- the neighbours of a cell as assembled

  ghost predicate Inner(m: Model, i: nat, j: nat, sides: seq<Side>) {
    forall k :: 0 <= k < |sides| ==> !AtEdge(m, sides[k], i, j)
  }

  function FlatOne(m: Model, l: nat, i: nat, j: nat, s: Side): Link
    requires AtCell(m, l, i, j) && !AtEdge(m, s, i, j)
  {
    Link(Toward(l, s, i, j), FlatG(m, l, s))
  }

  function FlatEmits(m: Model, l: nat, i: nat, j: nat, sides: seq<Side>): (ls: seq<Link>)
    requires AtCell(m, l, i, j) && Inner(m, i, j, sides)
    ensures |ls| == |sides| && forall k :: 0 <= k < |ls| ==> ls[k] == FlatOne(m, l, i, j, sides[k])
  {
    if sides == [] then [] else FlatEmits(m, l, i, j, sides[..|sides| - 1]) + [FlatOne(m, l, i, j, sides[|sides| - 1])]
  }

  function RingOne(m: Model, l: nat, g: Group, s: Side): Link
    requires m.Valid() && l < |m.layers|
  {
    Link(Pack(g, s), RingG(m, l, g, s))
  }

  function RingEmits(m: Model, l: nat, g: Group, sides: seq<Side>): (ls: seq<Link>)
    requires m.Valid() && l < |m.layers|
    ensures |ls| == |sides| && forall k :: 0 <= k < |ls| ==> ls[k] == RingOne(m, l, g, sides[k])
  {
    if sides == [] then [] else RingEmits(m, l, g, sides[..|sides| - 1]) + [RingOne(m, l, g, sides[|sides| - 1])]
  }

  lemma NineInner(m: Model, i: nat, j: nat)
    requires m.Valid() && i < m.rows && j < m.cols
    ensures Inner(m, i, j, NineFlat(m, Number(m, i, j)))
  {
    hide NineFlat, NineRing, Number, AtEdge;
    forall k | 0 <= k < |NineFlat(m, Number(m, i, j))| ensures !AtEdge(m, NineFlat(m, Number(m, i, j))[k], i, j) {
      NineInside(m, i, j, NineFlat(m, Number(m, i, j))[k]);
    }
  }

  function NineFlatLinks(m: Model, l: nat, i: nat, j: nat): seq<Link>
    requires AtCell(m, l, i, j)
  {
    NineInner(m, i, j);
    FlatEmits(m, l, i, j, NineFlat(m, Number(m, i, j)))
  }

  function NineRingLinks(m: Model, l: nat, i: nat, j: nat): seq<Link>
    requires AtCell(m, l, i, j)
  {
    if GroupOf(m, l).Some? then RingEmits(m, l, GroupOf(m, l).value, NineRing(m, Number(m, i, j))) else []
  }

  function NineLinks(m: Model, l: nat, i: nat, j: nat): seq<Link>
    requires AtCell(m, l, i, j)
  {
    NineFlatLinks(m, l, i, j) + VerticalLinks(m, l, i, j) + NineRingLinks(m, l, i, j)
  }

  // ----- the same neighbours as the sweep's

  lemma NineFlatMember(m: Model, l: nat, i: nat, j: nat, x: Link)
    requires AtCell(m, l, i, j)
    ensures x in NineFlatLinks(m, l, i, j) <==> exists s :: x in FlatLink(m, l, i, j, s)
  {
    hide NineFlat, Number, FlatG, Toward, NineRing;
    NineInner(m, i, j);
    var sides, ls := NineFlat(m, Number(m, i, j)), NineFlatLinks(m, l, i, j);
    if x in ls {
      var k :| 0 <= k < |ls| && ls[k] == x;
      assert x in FlatLink(m, l, i, j, sides[k]);
    }
    if s :| x in FlatLink(m, l, i, j, s) {
      NineInside(m, i, j, s);
      var k :| 0 <= k < |sides| && sides[k] == s;
      assert ls[k] == x;
    }
  }

  lemma NineRingMember(m: Model, l: nat, i: nat, j: nat, x: Link)
    requires AtCell(m, l, i, j)
    ensures x in NineRingLinks(m, l, i, j) <==> exists s :: x in RingLink(m, l, i, j, s)
  {
    hide NineFlat, Number, RingG, NineRing;
    var sides, ls := NineRing(m, Number(m, i, j)), NineRingLinks(m, l, i, j);
    if x in ls {
      var k :| 0 <= k < |ls| && ls[k] == x;
      NineInside(m, i, j, sides[k]);
      assert x in RingLink(m, l, i, j, sides[k]);
    }
    if s :| x in RingLink(m, l, i, j, s) {
      NineInside(m, i, j, s);
      var k :| 0 <= k < |sides| && sides[k] == s;
      assert ls[k] == x;
    }
  }

  lemma NineMember(m: Model, l: nat, i: nat, j: nat, x: Link)
    requires AtCell(m, l, i, j)
    ensures x in NineLinks(m, l, i, j) <==> x in CellLinks(m, l, i, j)
  {
    hide NineFlatLinks, NineRingLinks, FlatLink, RingLink, VerticalLinks;
    NineFlatMember(m, l, i, j, x);
    NineRingMember(m, l, i, j, x);
    if s :| x in FlatLink(m, l, i, j, s) { assert s == North || s == South || s == East || s == West; }
    if s :| x in RingLink(m, l, i, j, s) { assert s == North || s == South || s == East || s == West; }
  }

  // ----- and the same sums

  ghost function SumSides(sides: seq<Side>, f: Side -> real): real {
    if sides == [] then 0.0 else SumSides(sides[..|sides| - 1], f) + f(sides[|sides| - 1])
  }

  lemma SumFew(a: Side, b: Side, c: Side, d: Side, f: Side -> real)
    ensures SumSides([], f) == 0.0 && SumSides([a], f) == f(a) && SumSides([a, b], f) == f(a) + f(b)
    ensures SumSides([a, b, c], f) == f(a) + f(b) + f(c) && SumSides([a, b, c, d], f) == f(a) + f(b) + f(c) + f(d)
  {
    assert [a][..0] == [] && [a, b][..1] == [a] && [a, b, c][..2] == [a, b] && [a, b, c, d][..3] == [a, b, c];
  }

  lemma PlacesSum(top: bool, bottom: bool, left: bool, right: bool, f: Side -> real, h: Side -> real)
    requires !(top && bottom) && !(left && right)
    requires top ==> f(North) == 0.0
    requires bottom ==> f(South) == 0.0
    requires left ==> f(West) == 0.0
    requires right ==> f(East) == 0.0
    requires !top ==> h(North) == 0.0
    requires !bottom ==> h(South) == 0.0
    requires !left ==> h(West) == 0.0
    requires !right ==> h(East) == 0.0
    ensures SumSides(FlatByPlace(top, bottom, left, right), f) == f(North) + f(South) + f(East) + f(West)
    ensures SumSides(RingByPlace(top, bottom, left, right), h) == h(North) + h(South) + h(East) + h(West)
  {
    hide SumSides;
    var fl, rl := FlatByPlace(top, bottom, left, right), RingByPlace(top, bottom, left, right);
    SumFew(fl[0], fl[1], if |fl| > 2 then fl[2] else North, if |fl| > 3 then fl[3] else North, f);
    SumFew(if |rl| > 0 then rl[0] else North, if |rl| > 1 then rl[1] else North, North, North, h);
  }

  /** Corner, edge or inside: over a case's list a quantity that vanishes for the sides not in it adds up to
      its sum over all sides. */
  lemma NineSum(m: Model, i: nat, j: nat, f: Side -> real, h: Side -> real)
    requires m.Valid() && i < m.rows && j < m.cols
    requires forall s :: AtEdge(m, s, i, j) ==> f(s) == 0.0
    requires forall s :: !AtEdge(m, s, i, j) ==> h(s) == 0.0
    ensures SumSides(NineFlat(m, Number(m, i, j)), f) == f(North) + f(South) + f(East) + f(West)
    ensures SumSides(NineRing(m, Number(m, i, j)), h) == h(North) + h(South) + h(East) + h(West)
  {
    hide NineFlat, NineRing, Number, SumSides, FlatByPlace, RingByPlace;
    NineCases(m, i, j);
    PlacesSum(i == 0, i == m.rows - 1, j == 0, j == m.cols - 1, f, h);
  }

  ghost function SideCs(m: Model, l: nat, i: nat, j: nat): Side -> real
    requires AtCell(m, l, i, j)
  {
    s => SideC(m, l, i, j, s)
  }

  ghost function SideTs(m: Model, t: seq<real>, l: nat, i: nat, j: nat): Side -> real
    requires AtCell(m, l, i, j) && Temps(m, t)
  {
    s => SideT(m, t, l, i, j, s)
  }

  ghost function RingCs(m: Model, l: nat, i: nat, j: nat): Side -> real
    requires AtCell(m, l, i, j)
  {
    s => RingC(m, l, i, j, s)
  }

  ghost function RingTs(m: Model, t: seq<real>, l: nat, i: nat, j: nat): Side -> real
    requires AtCell(m, l, i, j) && Temps(m, t)
  {
    s => RingT(m, t, l, i, j, s)
  }

  lemma {:induction false} FlatEmitSums(m: Model, t: seq<real>, l: nat, i: nat, j: nat, sides: seq<Side>)
    requires AtCell(m, l, i, j) && Temps(m, t) && Inner(m, i, j, sides)
    ensures var ls := FlatEmits(m, l, i, j, sides);
            Sound(m, ls) && LinkSum(ls) == SumSides(sides, SideCs(m, l, i, j))
                && Weighted(m, ls, t) == SumSides(sides, SideTs(m, t, l, i, j))
    decreases |sides|
  {
    hide Times, At, LinkSum, Weighted, Sound, AtEdge, Toward;
    if sides == [] {
      NoSums(m, t);
    } else {
      var front, s := sides[..|sides| - 1], sides[|sides| - 1];
      FlatEmitSums(m, t, l, i, j, front);
      FlatSums(m, t, l, i, j, s);
      assert FlatLink(m, l, i, j, s) == [FlatOne(m, l, i, j, s)];
      SumsConcat(m, FlatEmits(m, l, i, j, front), [FlatOne(m, l, i, j, s)], t);
    }
  }

  lemma {:induction false} RingEmitSums(m: Model, t: seq<real>, l: nat, i: nat, j: nat, g: Group, sides: seq<Side>)
    requires AtCell(m, l, i, j) && Temps(m, t) && GroupOf(m, l) == Some(g)
        && forall k :: 0 <= k < |sides| ==> AtEdge(m, sides[k], i, j)
    ensures var ls := RingEmits(m, l, g, sides);
            Sound(m, ls) && LinkSum(ls) == SumSides(sides, RingCs(m, l, i, j))
                && Weighted(m, ls, t) == SumSides(sides, RingTs(m, t, l, i, j))
    decreases |sides|
  {
    hide Times, At, LinkSum, Weighted, Sound, AtEdge, RingG, GroupOf;
    if sides == [] {
      NoSums(m, t);
    } else {
      var front, s := sides[..|sides| - 1], sides[|sides| - 1];
      RingEmitSums(m, t, l, i, j, g, front);
      RingSums(m, t, l, i, j, s);
      assert RingLink(m, l, i, j, s) == [RingOne(m, l, g, s)];
      SumsConcat(m, RingEmits(m, l, g, front), [RingOne(m, l, g, s)], t);
    }
  }

  lemma NineRingSums(m: Model, t: seq<real>, l: nat, i: nat, j: nat)
    requires AtCell(m, l, i, j) && Temps(m, t)
    ensures var ls := NineRingLinks(m, l, i, j);
            && Sound(m, ls)
            && LinkSum(ls) == RingC(m, l, i, j, North) + RingC(m, l, i, j, South) + RingC(m, l, i, j, East)
                + RingC(m, l, i, j, West)
            && Weighted(m, ls, t) == RingT(m, t, l, i, j, North) + RingT(m, t, l, i, j, South)
                + RingT(m, t, l, i, j, East) + RingT(m, t, l, i, j, West)
  {
    hide Times, At, LinkSum, Weighted, Sound, NineRing, NineFlat, Number, RingG, SumSides, AtEdge;
    if GroupOf(m, l).Some? {
      var sides := NineRing(m, Number(m, i, j));
      forall k | 0 <= k < |sides| ensures AtEdge(m, sides[k], i, j) { NineInside(m, i, j, sides[k]); }
      RingEmitSums(m, t, l, i, j, GroupOf(m, l).value, sides);
      NineSum(m, i, j, s => 0.0, RingCs(m, l, i, j));
      NineSum(m, i, j, s => 0.0, RingTs(m, t, l, i, j));
    } else {
      NoSums(m, t);
    }
  }

  lemma NineFlatSums(m: Model, t: seq<real>, l: nat, i: nat, j: nat)
    requires AtCell(m, l, i, j) && Temps(m, t)
    ensures var ls := NineFlatLinks(m, l, i, j);
            && Sound(m, ls)
            && LinkSum(ls) == SideC(m, l, i, j, North) + SideC(m, l, i, j, South) + SideC(m, l, i, j, East)
                + SideC(m, l, i, j, West)
            && Weighted(m, ls, t) == SideT(m, t, l, i, j, North) + SideT(m, t, l, i, j, South)
                + SideT(m, t, l, i, j, East) + SideT(m, t, l, i, j, West)
  {
    hide Times, At, LinkSum, Weighted, Sound, NineRing, NineFlat, Number, FlatG, SumSides, AtEdge, Toward;
    NineInner(m, i, j);
    FlatEmitSums(m, t, l, i, j, NineFlat(m, Number(m, i, j)));
    NineSum(m, i, j, SideCs(m, l, i, j), s => 0.0);
    NineSum(m, i, j, SideTs(m, t, l, i, j), s => 0.0);
  }

  /** Assembly and sweep add up the same neighbours. */
  lemma NineSums(m: Model, t: seq<real>, l: nat, i: nat, j: nat)
    requires AtCell(m, l, i, j) && Temps(m, t)
    ensures Sound(m, NineLinks(m, l, i, j)) && Sound(m, CellLinks(m, l, i, j))
    ensures LinkSum(NineLinks(m, l, i, j)) == LinkSum(CellLinks(m, l, i, j))
    ensures Weighted(m, NineLinks(m, l, i, j), t) == Weighted(m, CellLinks(m, l, i, j), t)
  {
    hide LinkSum, Weighted, Sound, NineFlatLinks, NineRingLinks, VerticalLinks, CellLinks, SideC, SideT, AboveC,
        AboveT, BelowC, BelowT, RingC, RingT;
    NineFlatSums(m, t, l, i, j);
    VerticalSums(m, t, l, i, j);
    NineRingSums(m, t, l, i, j);
    CellSums(m, t, l, i, j);
    SumsConcat(m, NineFlatLinks(m, l, i, j), VerticalLinks(m, l, i, j), t);
    SumsConcat(m, NineFlatLinks(m, l, i, j) + VerticalLinks(m, l, i, j), NineRingLinks(m, l, i, j), t);
  }

  // ----- rows of the matrix

  /** The entries of a package node towards the cells along its side, with the ring resistance written out. */
  function SideEmits(m: Model, l: nat, r: Axes, s: Side, n: nat): (ls: seq<Link>)
    requires m.Valid() && l < |m.layers| && r.Positive()
    ensures |ls| == n
  {
    if n == 0 then []
    else SideEmits(m, l, r, s, n - 1) + [Link(SideCell(m, l, s, n - 1), SideG(m, l, r, s))]
  }

  function SideG(m: Model, l: nat, r: Axes, s: Side): real
    requires m.Valid() && l < |m.layers| && r.Positive()
  {
    RingPositive(m, l, r, s);
    G(m.layers[l].r.Of(s) / 2.0 + Along(m, s) as real * r.Of(s))
  }

  lemma RingPositive(m: Model, l: nat, r: Axes, s: Side)
    requires m.Valid() && l < |m.layers| && r.Positive()
    ensures m.layers[l].r.Of(s) / 2.0 + Along(m, s) as real * r.Of(s) > 0.0
  {
    assert Along(m, s) as real * r.Of(s) > 0.0;
  }

  /** The row of a package node, group by group as it is emitted. */
  function PackRow(m: Model, g: Group, s: Side): seq<Link>
    requires m.Valid() && Active(m, g)
  {
    var p, n := m.pack, Along(m, s);
    match g
    case Sink => [Link(Pack(SinkC, s), G(p.hs2.Of(s)))]
    case SinkC =>
      SideEmits(m, m.SinkLayer(), p.hs1, s, n) + [Link(Pack(Sp, s), G(p.spPer.Of(s))),
          Link(Pack(Sink, s), G(p.hs2.Of(s)))]
    case Sp => SideEmits(m, m.SpLayer(), p.sp1, s, n) + [Link(Pack(SinkC, s), G(p.spPer.Of(s)))]
    case Pcb => [Link(Pack(PcbC, s), G(p.pcb2.Of(s)))]
    case PcbC =>
      SideEmits(m, LAYER_PCB, p.pcb1, s, n) + [Link(Pack(Solder, s), G(p.pcbPer.Of(s))),
          Link(Pack(Pcb, s), G(p.pcb2.Of(s)))]
    case Solder =>
      SideEmits(m, LAYER_SOLDER, p.solder1, s, n) + [Link(Pack(Sub, s), G(p.solderPer.Of(s))),
          Link(Pack(PcbC, s), G(p.pcbPer.Of(s)))]
    case Sub => SideEmits(m, LAYER_SUB, p.sub1, s, n) + [Link(Pack(Solder, s), G(p.solderPer.Of(s)))]
  }

  /** What is added to the diagonal for the ambient. */
  function RowAmbient(m: Model, n: Node): real
    requires m.Valid() && InNet(m, n)
  {
    match n
    case Cell(l, _, _) =>
      if l == m.SinkLayer() then G(m.layers[l].rz) else if m.secondary && l == LAYER_PCB then G(m.pack.pcbCell) else 0.0
    case Pack(g, s) =>
      if g == Sink then G(m.pack.sinkAmb.Of(s))
      else if g == SinkC then G(m.pack.sinkCAmb.Of(s))
      else if g == Pcb then G(m.pack.pcbAmb.Of(s))
      else if g == PcbC then G(m.pack.pcbCAmb.Of(s))
      else 0.0
  }

  lemma SideGRight(m: Model, l: nat, g: Group, s: Side)
    requires m.Valid() && l < |m.layers|
    ensures RingAxes(m.pack, g).Positive() && SideG(m, l, RingAxes(m.pack, g), s) == RingG(m, l, g, s)
  {
    hide G, Along, Axes.Of, RingAxes;
    AxesPositive(m, g);
  }

  lemma AxesPositive(m: Model, g: Group)
    requires m.Valid()
    ensures RingAxes(m.pack, g).Positive()
  {
  }

  lemma {:induction false} SideEmitsRight(m: Model, l: nat, g: Group, s: Side, n: nat)
    requires m.Valid() && l < |m.layers|
    ensures RingAxes(m.pack, g).Positive() && SideEmits(m, l, RingAxes(m.pack, g), s, n) == SideLinks(m, l, g, s, n)
    decreases n
  {
    hide SideCell, SideG, RingG, RingAxes;
    SideGRight(m, l, g, s);
    if n > 0 { SideEmitsRight(m, l, g, s, n - 1); }
  }

  /** The emitted rows of the package are the neighbours and ambient links that the sweep uses. */
  lemma PackRowRight(m: Model, g: Group, s: Side)
    requires m.Valid() && Active(m, g)
    ensures PackRow(m, g, s) == PackLinks(m, g, s)
  {
    hide SideEmits, SideLinks, G;
    RingsMatch(m, 0, g);
    match LayerOf(m, g) {
      case None =>
      case Some(l) => SideEmitsRight(m, l, g, s, Along(m, s));
    }
    assert BondLinks(m, g, s)[0] == BondLink(m, g, s, 0);
  }

  lemma RowAmbientRight(m: Model, n: Node)
    requires m.Valid() && InNet(m, n)
    ensures RowAmbient(m, n) == Ambient(m, n)
  {
  }

  /** The neighbours of a node in the order of assembly. */
  function RowLinks(m: Model, n: Node): seq<Link>
    requires m.Valid() && InNet(m, n)
  {
    match n
    case Cell(l, i, j) => NineLinks(m, l, i, j)
    case Pack(g, s) => PackRow(m, g, s)
  }

  lemma RowLinksRight(m: Model, n: Node, t: seq<real>)
    requires InNet(m, n) && Temps(m, t)
    ensures Sound(m, RowLinks(m, n)) && Sound(m, Links(m, n))
    ensures LinkSum(RowLinks(m, n)) == LinkSum(Links(m, n))
        && Weighted(m, RowLinks(m, n), t) == Weighted(m, Links(m, n), t)
    ensures forall x :: x in RowLinks(m, n) <==> x in Links(m, n)
  {
    hide LinkSum, Weighted, Sound, NineLinks, CellLinks, PackLinks, PackRow;
    TotalGPositive(m, n);
    if n.Pack? {
      PackRowRight(m, n.g, n.s);
    } else {
      NineSums(m, t, n.l, n.i, n.j);
      forall x ensures x in NineLinks(m, n.l, n.i, n.j) <==> x in CellLinks(m, n.l, n.i, n.j) {
        NineMember(m, n.l, n.i, n.j, x);
      }
    }
  }

  /** An entry of the matrix in coordinate form. */
  datatype Entry = Entry(row: nat, col: nat, value: real)

  function OffDiagonal(m: Model, n: Node, ls: seq<Link>): (es: seq<Entry>)
    ensures |es| == |ls| && forall k :: 0 <= k < |ls| ==> es[k] == Entry(Index(m, n), Index(m, ls[k].to), -ls[k].c)
  {
    if ls == [] then []
    else OffDiagonal(m, n, ls[..|ls| - 1]) + [Entry(Index(m, n), Index(m, ls[|ls| - 1].to), -ls[|ls| - 1].c)]
  }

  function RowEntries(m: Model, n: Node): seq<Entry>
    requires m.Valid() && InNet(m, n)
  {
    OffDiagonal(m, n, RowLinks(m, n)) + [Entry(Index(m, n), Index(m, n), LinkSum(RowLinks(m, n)) + RowAmbient(m, n))]
  }

  /** The rows of the first `k` nodes. */
  function EntriesTo(m: Model, k: nat): seq<Entry>
    requires m.Valid() && k <= Size(m)
  {
    if k == 0 then []
    else
      NodeRight(m, k - 1);
      EntriesTo(m, k - 1) + RowEntries(m, NodeAt(m, k - 1))
  }

  // ----- matrix times vector

  ghost predicate Bounded(m: Model, es: seq<Entry>) { forall k :: 0 <= k < |es| ==> es[k].col < Size(m) }

  /** One component of the product of the matrix with a vector. */
  ghost function RowProduct(m: Model, es: seq<Entry>, row: nat, t: seq<real>): real
    requires Temps(m, t) && Bounded(m, es)
  {
    if es == [] then 0.0
    else
      var e := es[|es| - 1];
      RowProduct(m, es[..|es| - 1], row, t) + (if e.row == row then Times(e.value, t[e.col]) else 0.0)
  }

  lemma {:induction false} ProductConcat(m: Model, a: seq<Entry>, b: seq<Entry>, row: nat, t: seq<real>)
    requires Temps(m, t) && Bounded(m, a) && Bounded(m, b)
    ensures Bounded(m, a + b) && RowProduct(m, a + b, row, t) == RowProduct(m, a, row, t) + RowProduct(m, b, row, t)
    decreases |b|
  {
    hide Times, Size;
    if b == [] {
      assert a + b == a;
    } else {
      assert (a + b)[..|a + b| - 1] == a + b[..|b| - 1];
      ProductConcat(m, a, b[..|b| - 1], row, t);
    }
  }

  lemma {:induction false} OffDiagonalProduct(m: Model, n: Node, ls: seq<Link>, row: nat, t: seq<real>)
    requires Temps(m, t) && Sound(m, ls)
    ensures Bounded(m, OffDiagonal(m, n, ls))
    ensures RowProduct(m, OffDiagonal(m, n, ls), row, t) == if row == Index(m, n) then -Weighted(m, ls, t) else 0.0
    decreases |ls|
  {
    hide Times, Index, Size, At, InNet;
    if ls != [] {
      var front, x, es := ls[..|ls| - 1], ls[|ls| - 1], OffDiagonal(m, n, ls);
      OffDiagonalProduct(m, n, front, row, t);
      AtPlace(m, t, x.to);
      assert es[..|es| - 1] == OffDiagonal(m, n, front);
      Negated(x.c, t[Index(m, x.to)]);
    }
  }

  lemma AtPlace(m: Model, t: seq<real>, n: Node)
    requires Temps(m, t) && InNet(m, n)
    ensures Index(m, n) < Size(m) && At(m, t, n) == t[Index(m, n)]
  {
    IndexBelow(m, n);
  }

  lemma Negated(a: real, b: real)
    ensures Times(-a, b) == -Times(a, b)
  {
  }

  /** The row of a node: what flows out at its temperature less what flows in from its neighbours. */
  lemma RowEntriesProduct(m: Model, n: Node, row: nat, t: seq<real>)
    requires Temps(m, t) && InNet(m, n)
    ensures Bounded(m, RowEntries(m, n)) && Sound(m, Links(m, n))
    ensures RowProduct(m, RowEntries(m, n), row, t) ==
            if row == Index(m, n) then Times(TotalG(m, n), At(m, t, n)) - Weighted(m, Links(m, n), t) else 0.0
  {
    hide Times, Index, Size, LinkSum, Weighted, Links, RowLinks, Ambient, RowAmbient, OffDiagonal, Sound;
    RowLinksRight(m, n, t);
    RowAmbientRight(m, n);
    var off := OffDiagonal(m, n, RowLinks(m, n));
    var diagonal := Entry(Index(m, n), Index(m, n), TotalG(m, n));
    OffDiagonalProduct(m, n, RowLinks(m, n), row, t);
    IndexBelow(m, n);
    DiagonalProduct(m, diagonal, row, t);
    ProductConcat(m, off, [diagonal], row, t);
  }

  lemma DiagonalProduct(m: Model, e: Entry, row: nat, t: seq<real>)
    requires Temps(m, t) && e.col < Size(m)
    ensures Bounded(m, [e]) && RowProduct(m, [e], row, t) == if e.row == row then Times(e.value, t[e.col]) else 0.0
  {
    hide Times, Size;
    assert [e][..0] == [];
  }

  lemma EntriesStep(m: Model, k: nat, row: nat, t: seq<real>)
    requires Temps(m, t) && k <= Size(m)
    ensures k == 0 ==> Bounded(m, EntriesTo(m, k)) && RowProduct(m, EntriesTo(m, k), row, t) == 0.0
    ensures k > 0 ==> InNet(m, NodeAt(m, k - 1)) && EntriesTo(m, k) == EntriesTo(m, k - 1)
                      + RowEntries(m, NodeAt(m, k - 1))
  {
    if k > 0 { NodeRight(m, k - 1); }
  }

  lemma {:induction false} EntriesProduct(m: Model, k: nat, n: Node, t: seq<real>)
    requires Temps(m, t) && k <= Size(m) && InNet(m, n)
    ensures Bounded(m, EntriesTo(m, k)) && Sound(m, Links(m, n))
    ensures RowProduct(m, EntriesTo(m, k), Index(m, n), t) ==
            if Turn(m, n) < k then Times(TotalG(m, n), At(m, t, n)) - Weighted(m, Links(m, n), t) else 0.0
    decreases k
  {
    hide Times, Index, Size, Weighted, Links, RowEntries, NodeAt, Turn, TotalG, At, Sound, InNet, EntriesTo,
        RowProduct, Bounded;
    TotalGPositive(m, n);
    EntriesStep(m, k, Index(m, n), t);
    if k > 0 {
      var x := NodeAt(m, k - 1);
      NodeRight(m, k - 1);
      EntriesProduct(m, k - 1, n, t);
      RowEntriesProduct(m, x, Index(m, n), t);
      ProductConcat(m, EntriesTo(m, k - 1), RowEntries(m, x), Index(m, n), t);
      if Index(m, x) == Index(m, n) { IndexUnique(m, x, n); }
      TurnRight(m, n);
    }
  }

  // ----- one system

  /** Right-hand side: power of the cells and heat from the ambient. */
  function Rhs(m: Model, power: seq<real>, ambient: real, n: Node): real
    requires Temps(m, power) && InNet(m, n)
  {
    PowerAt(m, power, n) + Times(Ambient(m, n), ambient)
  }

  /** The temperatures solve the assembled system. */
  ghost predicate Solves(m: Model, power: seq<real>, ambient: real, t: seq<real>)
    requires Temps(m, t) && Temps(m, power) && Bounded(m, EntriesTo(m, Size(m)))
  {
    forall n :: InNet(m, n) ==> RowProduct(m, EntriesTo(m, Size(m)), Index(m, n), t) == Rhs(m, power, ambient, n)
  }

  lemma {:induction false} EntriesBounded(m: Model, k: nat)
    requires m.Valid() && k <= Size(m)
    ensures Bounded(m, EntriesTo(m, k))
    decreases k
  {
    hide RowEntries, NodeAt;
    if k > 0 {
      EntriesBounded(m, k - 1);
      NodeRight(m, k - 1);
      RowBounded(m, NodeAt(m, k - 1));
    }
  }

  lemma RowBounded(m: Model, n: Node)
    requires m.Valid() && InNet(m, n)
    ensures Bounded(m, RowEntries(m, n))
  {
    RowEntriesProduct(m, n, 0, seq(Size(m), _ => 0.0));
  }

  lemma BalancedIff(m: Model, power: seq<real>, ambient: real, t: seq<real>, n: Node)
    requires Temps(m, t) && Temps(m, power) && InNet(m, n) && Sound(m, Links(m, n))
    ensures Balanced(m, power, ambient, t, n) <==>
            Times(TotalG(m, n), At(m, t, n)) - Weighted(m, Links(m, n), t) == Rhs(m, power, ambient, n)
  {
    hide Links, LinkSum, Weighted, Ambient, PowerAt, At, TotalG;
    TotalGPositive(m, n);
    QuotientIff(At(m, t, n), Inflow(m, power, ambient, t, n), TotalG(m, n));
  }

  lemma QuotientIff(x: real, a: real, g: real)
    requires g > 0.0
    ensures x == a / g <==> Times(g, x) == a
  {
    assert (a / g) * g == a;
    if Times(g, x) == a { assert x == (g * x) / g; }
  }

  /** Two solvers, one system: the temperatures solve the assembled equations exactly when they are a fixed
      point of the sweep. */
  lemma OneSystem(m: Model, power: seq<real>, ambient: real, t: seq<real>)
    requires Temps(m, t) && Temps(m, power)
    ensures Bounded(m, EntriesTo(m, Size(m)))
    ensures Solves(m, power, ambient, t) <==> FixedPoint(m, power, ambient, t)
  {
    hide EntriesTo, Balanced, Rhs, Weighted, TotalG, At, Times, Links, Turn, NodeAt, Index, Size;
    EntriesBounded(m, Size(m));
    forall n | InNet(m, n)
      ensures RowProduct(m, EntriesTo(m, Size(m)), Index(m, n), t) == Rhs(m, power, ambient, n)
          <==> Balanced(m, power, ambient, t, n)
    {
      TurnRight(m, n);
      EntriesProduct(m, Size(m), n, t);
      BalancedIff(m, power, ambient, t, n);
    }
  }

  // ----- symmetry

  lemma {:induction false} RowIncluded(m: Model, k: nat, n: Node, e: Entry)
    requires m.Valid() && k <= Size(m) && InNet(m, n) && Turn(m, n) < k && e in RowEntries(m, n)
    ensures e in EntriesTo(m, k)
    decreases k
  {
    hide RowEntries, NodeAt, Turn, InNet;
    NodeRight(m, k - 1);
    if Turn(m, n) < k - 1 { RowIncluded(m, k - 1, n, e); } else { TurnRight(m, n); }
  }

  lemma {:induction false} EntryRow(m: Model, k: nat, e: Entry) returns (n: Node)
    requires m.Valid() && k <= Size(m) && e in EntriesTo(m, k)
    ensures InNet(m, n) && e in RowEntries(m, n) && Turn(m, n) < k
    decreases k
  {
    hide RowEntries, NodeAt, InNet, Turn;
    NodeRight(m, k - 1);
    if e in RowEntries(m, NodeAt(m, k - 1)) { n := NodeAt(m, k - 1); } else { n := EntryRow(m, k - 1, e); }
  }

  /** The matrix is symmetric. */
  lemma Symmetric(m: Model, e: Entry)
    requires m.Valid() && e in EntriesTo(m, Size(m))
    ensures Entry(e.col, e.row, e.value) in EntriesTo(m, Size(m))
  {
    hide EntriesTo, RowEntries, Turn, InNet, Index;
    var a := EntryRow(m, Size(m), e);
    var b := Mirrored(m, a, e);
    TurnRight(m, b);
    RowIncluded(m, Size(m), b, Entry(e.col, e.row, e.value));
  }

  lemma Mirrored(m: Model, a: Node, e: Entry) returns (b: Node)
    requires m.Valid() && InNet(m, a) && e in RowEntries(m, a)
    ensures InNet(m, b) && Entry(e.col, e.row, e.value) in RowEntries(m, b)
  {
    hide Index, RowLinks, Links, LinkSum, RowAmbient, InNet;
    var es, ls := RowEntries(m, a), RowLinks(m, a);
    var k :| 0 <= k < |es| && es[k] == e;
    if k == |ls| {
      b := a;
    } else {
      var x := ls[k];
      var t := seq(Size(m), _ => 0.0);
      RowLinksRight(m, a, t);
      b := x.to;
      assert x in Links(m, a);
      LinksSound(m, a);
      RowLinksRight(m, b, t);
      LinksMutual(m, a, b, x.c);
      var y := Link(a, x.c);
      assert y in RowLinks(m, b);
      var p :| 0 <= p < |RowLinks(m, b)| && RowLinks(m, b)[p] == y;
      assert RowEntries(m, b)[p] == Entry(e.col, e.row, e.value);
    }
  }
}
