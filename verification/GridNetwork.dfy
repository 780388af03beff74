/** The thermal network behind the grid model: cells in layers, package nodes around some of the layers, the
    conductances between them, and the relaxation of one node towards its neighbours. */
module GridNetwork {
  import opened Wrappers
  import opened Compass

  datatype Layer = Layer(r: Axes, rz: real)

  /** Package nodes come in groups of four, one per side. */
  datatype Group = Sp | SinkC | Sink | Sub | Solder | PcbC | Pcb

  datatype Node = Cell(l: nat, i: nat, j: nat) | Pack(g: Group, s: Side)

  /** Resistances: from a ring of package nodes to the edge cells of its layer, between groups, and to the
      ambient. */
  datatype Package = Package(sp1: Axes, hs1: Axes, sub1: Axes, solder1: Axes, pcb1: Axes,
                             spPer: Axes, hs2: Axes, solderPer: Axes, pcbPer: Axes, pcb2: Axes,
                             sinkCAmb: Axes, sinkAmb: Axes, pcbCAmb: Axes, pcbAmb: Axes, pcbCell: real) {
    predicate Positive() {
      && sp1.Positive() && hs1.Positive() && sub1.Positive() && solder1.Positive() && pcb1.Positive()
      && spPer.Positive() && hs2.Positive() && solderPer.Positive() && pcbPer.Positive() && pcb2.Positive()
      && sinkCAmb.Positive() && sinkAmb.Positive() && pcbCAmb.Positive() && pcbAmb.Positive() && pcbCell > 0.0
    }
  }

  const LAYER_PCB: nat := 0
  const LAYER_SOLDER: nat := 1
  const LAYER_SUB: nat := 2

  datatype Model = Model(rows: nat, cols: nat, layers: seq<Layer>, pack: Package, secondary: bool) {
    /** At least two rows and columns, and the layers with a ring are different ones. */
    predicate Valid() {
      && rows >= 2 && cols >= 2 && |layers| >= (if secondary then 5 else 2) && pack.Positive()
      && forall l :: 0 <= l < |layers| ==> layers[l].r.Positive() && layers[l].rz > 0.0
    }
    function SpLayer(): int { |layers| - 2 }
    function SinkLayer(): int { |layers| - 1 }
  }

  function G(r: real): real
    requires r > 0.0
  {
    1.0 / r
  }

  lemma GPositive(r: real)
    requires r > 0.0
    ensures G(r) > 0.0
  {
  }

  // ----- layers with a ring of package nodes

  function GroupOf(m: Model, l: nat): Option<Group> {
    if l == m.SpLayer() then Some(Sp)
    else if l == m.SinkLayer() then Some(SinkC)
    else if l == LAYER_SUB && m.secondary then Some(Sub)
    else if l == LAYER_SOLDER && m.secondary then Some(Solder)
    else if l == LAYER_PCB && m.secondary then Some(PcbC)
    else None
  }

  function LayerOf(m: Model, g: Group): Option<nat>
    requires m.Valid()
  {
    match g
    case Sp => Some(m.SpLayer())
    case SinkC => Some(m.SinkLayer())
    case Sub => Some(LAYER_SUB)
    case Solder => Some(LAYER_SOLDER)
    case PcbC => Some(LAYER_PCB)
    case _ => None
  }

  predicate Active(m: Model, g: Group) { m.secondary || g in {Sp, SinkC, Sink} }

  lemma RingsMatch(m: Model, l: nat, g: Group)
    requires m.Valid() && Active(m, g)
    ensures GroupOf(m, l) == Some(g) <==> LayerOf(m, g) == Some(l)
    ensures LayerOf(m, g).Some? ==> LayerOf(m, g).value < |m.layers|
    ensures GroupOf(m, l).Some? ==> Active(m, GroupOf(m, l).value)
  {
  }

  function RingAxes(p: Package, g: Group): Axes {
    match g
    case Sp => p.sp1
    case SinkC => p.hs1
    case Sub => p.sub1
    case Solder => p.solder1
    case _ => p.pcb1
  }

  /** Cells along a side. */
  function Along(m: Model, s: Side): nat { if s == West || s == East then m.rows else m.cols }

  /** Conductance between an edge cell of layer `l` and the ring node of that side; the ring resistance is
      shared by the cells along the side and the edge cell counts half. */
  function RingG(m: Model, l: nat, g: Group, s: Side): real
    requires m.Valid() && l < |m.layers|
  {
    Halves(m, l, g, s);
    G(m.layers[l].r.Of(s) / 2.0 + Along(m, s) as real * RingAxes(m.pack, g).Of(s))
  }

  lemma Halves(m: Model, l: nat, g: Group, s: Side)
    requires m.Valid() && l < |m.layers|
    ensures m.layers[l].r.Of(s) / 2.0 + Along(m, s) as real * RingAxes(m.pack, g).Of(s) > 0.0
  {
    var a, r := Along(m, s) as real, RingAxes(m.pack, g).Of(s);
    assert a > 0.0 && r > 0.0;
    assert a * r > 0.0;
  }

  lemma RingGPositive(m: Model, l: nat, g: Group, s: Side)
    requires m.Valid() && l < |m.layers|
    ensures RingG(m, l, g, s) > 0.0
  {
    Halves(m, l, g, s);
    GPositive(m.layers[l].r.Of(s) / 2.0 + Along(m, s) as real * RingAxes(m.pack, g).Of(s));
  }

  /** The groups a group is joined to, and through what. */
  function Bonds(p: Package, g: Group): seq<(Group, Axes)> {
    match g
    case Sp => [(SinkC, p.spPer)]
    case SinkC => [(Sp, p.spPer), (Sink, p.hs2)]
    case Sink => [(SinkC, p.hs2)]
    case Sub => [(Solder, p.solderPer)]
    case Solder => [(Sub, p.solderPer), (PcbC, p.pcbPer)]
    case PcbC => [(Solder, p.pcbPer), (Pcb, p.pcb2)]
    case Pcb => [(PcbC, p.pcb2)]
  }

  lemma BondsPositive(p: Package, g: Group)
    requires p.Positive()
    ensures forall k :: 0 <= k < |Bonds(p, g)| ==> Bonds(p, g)[k].1.Positive()
  {
  }

  // ----- nodes

  ghost predicate InNet(m: Model, n: Node) {
    match n
    case Cell(l, i, j) => l < |m.layers| && i < m.rows && j < m.cols
    case Pack(g, _) => Active(m, g)
  }

  /** Conductance to the ambient. */
  function Ambient(m: Model, n: Node): real
    requires m.Valid()
    requires n.Cell? ==> n.l < |m.layers|
  {
    match n
    case Cell(l, _, _) =>
      if l == m.SpLayer() then 0.0
      else if l == m.SinkLayer() then G(m.layers[l].rz)
      else if l == LAYER_PCB && m.secondary then G(m.pack.pcbCell)
      else 0.0
    case Pack(g, s) =>
      match g
      case SinkC => G(m.pack.sinkCAmb.Of(s))
      case Sink => G(m.pack.sinkAmb.Of(s))
      case PcbC => G(m.pack.pcbCAmb.Of(s))
      case Pcb => G(m.pack.pcbAmb.Of(s))
      case _ => 0.0
  }

  lemma AmbientNonnegative(m: Model, n: Node)
    requires m.Valid() && InNet(m, n)
    ensures Ambient(m, n) >= 0.0
  {
  }

  datatype Link = Link(to: Node, c: real)

  // ----- in-plane neighbours

  predicate AtEdge(m: Model, s: Side, i: int, j: int) {
    match s
    case West => j == 0
    case East => j == m.cols - 1
    case North => i == 0
    case South => i == m.rows - 1
  }

  function Toward(l: nat, s: Side, i: int, j: int): Node
    requires 0 <= (if s == North then i - 1 else i) && 0 <= (if s == West then j - 1 else j)
  {
    match s
    case West => Cell(l, i, j - 1)
    case East => Cell(l, i, j + 1)
    case North => Cell(l, i - 1, j)
    case South => Cell(l, i + 1, j)
  }

  function FlatG(m: Model, l: nat, s: Side): real
    requires m.Valid() && l < |m.layers|
  {
    G(m.layers[l].r.Of(s))
  }

  ghost predicate AtCell(m: Model, l: int, i: int, j: int) { m.Valid() && 0 <= l < |m.layers| && 0 <= i < m.rows
      && 0 <= j < m.cols }

  /** The neighbour on one side, if there is one. */
  function FlatLink(m: Model, l: nat, i: nat, j: nat, s: Side): seq<Link>
    requires AtCell(m, l, i, j)
  {
    if AtEdge(m, s, i, j) then [] else [Link(Toward(l, s, i, j), FlatG(m, l, s))]
  }

  /** The ring node on one side, if the cell is at that edge of a layer with a ring. */
  function RingLink(m: Model, l: nat, i: nat, j: nat, s: Side): seq<Link>
    requires AtCell(m, l, i, j)
  {
    if AtEdge(m, s, i, j) && GroupOf(m, l).Some? then [Link(Pack(GroupOf(m, l).value, s),
        RingG(m, l, GroupOf(m, l).value, s))] else []
  }

  /** Cells below and above. */
  function VerticalLinks(m: Model, l: nat, i: nat, j: nat): seq<Link>
    requires AtCell(m, l, i, j)
  {
    (if l < |m.layers| - 1 then [Link(Cell(l + 1, i, j), G(m.layers[l].rz))] else [])
    + (if l > 0 then [Link(Cell(l - 1, i, j), G(m.layers[l - 1].rz))] else [])
  }

  /** All neighbours of a cell, side by side. */
  function CellLinks(m: Model, l: nat, i: nat, j: nat): seq<Link>
    requires AtCell(m, l, i, j)
  {
    FlatLink(m, l, i, j, North) + FlatLink(m, l, i, j, South) + FlatLink(m, l, i, j, East) + FlatLink(m, l, i, j, West)
    + VerticalLinks(m, l, i, j)
    + RingLink(m, l, i, j, North) + RingLink(m, l, i, j, South) + RingLink(m, l, i, j, East)
        + RingLink(m, l, i, j, West)
  }

  // ----- neighbours of package nodes

  /** The `k`-th cell along a side of a layer. */
  function SideCell(m: Model, l: nat, s: Side, k: nat): Node
    requires m.Valid()
  {
    match s
    case West => Cell(l, k, 0)
    case East => Cell(l, k, m.cols - 1)
    case North => Cell(l, 0, k)
    case South => Cell(l, m.rows - 1, k)
  }

  function SideLinks(m: Model, l: nat, g: Group, s: Side, n: nat): (ls: seq<Link>)
    requires m.Valid() && l < |m.layers|
    ensures |ls| == n && forall k :: 0 <= k < n ==> ls[k] == Link(SideCell(m, l, s, k), RingG(m, l, g, s))
  {
    if n == 0 then [] else SideLinks(m, l, g, s, n - 1) + [Link(SideCell(m, l, s, n - 1), RingG(m, l, g, s))]
  }

  function RingCells(m: Model, g: Group, s: Side): seq<Link>
    requires m.Valid() && Active(m, g)
  {
    RingsMatch(m, 0, g);
    match LayerOf(m, g)
    case None => []
    case Some(l) => SideLinks(m, l, g, s, Along(m, s))
  }

  function BondLinks(m: Model, g: Group, s: Side): (ls: seq<Link>)
    requires m.Valid()
    ensures |ls| == |Bonds(m.pack, g)|
    ensures forall k :: 0 <= k < |ls| ==> ls[k] == BondLink(m, g, s, k)
  {
    BondsPositive(m.pack, g);
    seq(|Bonds(m.pack, g)|, k requires 0 <= k < |Bonds(m.pack, g)| => BondLink(m, g, s, k))
  }

  function BondLink(m: Model, g: Group, s: Side, k: nat): Link
    requires m.Valid() && k < |Bonds(m.pack, g)|
  {
    BondsPositive(m.pack, g);
    Link(Pack(Bonds(m.pack, g)[k].0, s), G(Bonds(m.pack, g)[k].1.Of(s)))
  }

  function PackLinks(m: Model, g: Group, s: Side): seq<Link>
    requires m.Valid() && Active(m, g)
  {
    RingCells(m, g, s) + BondLinks(m, g, s)
  }

  function Links(m: Model, n: Node): seq<Link>
    requires m.Valid() && InNet(m, n)
  {
    match n
    case Cell(l, i, j) => CellLinks(m, l, i, j)
    case Pack(g, s) => PackLinks(m, g, s)
  }

  // ----- which nodes are joined

  /** Cell (i2, j2) lies next to (i, j) on side `s`. */
  predicate Adjacent(s: Side, i: nat, j: nat, i2: nat, j2: nat) {
    match s
    case West => i2 == i && j2 + 1 == j
    case East => i2 == i && j2 == j + 1
    case North => i2 + 1 == i && j2 == j
    case South => i2 == i + 1 && j2 == j
  }

  function Opposite(s: Side): Side {
    match s
    case West => East
    case East => West
    case North => South
    case South => North
  }

  /** Two cells with the conductance between them. */
  ghost predicate CellsJoined(m: Model, a: Node, b: Node, c: real)
    requires m.Valid() && InNet(m, a) && InNet(m, b) && a.Cell? && b.Cell?
  {
    || (a.l == b.l && exists s :: Adjacent(s, a.i, a.j, b.i, b.j) && c == FlatG(m, a.l, s))
    || (a.i == b.i && a.j == b.j && b.l == a.l + 1 && c == G(m.layers[a.l].rz))
    || (a.i == b.i && a.j == b.j && a.l == b.l + 1 && c == G(m.layers[b.l].rz))
  }

  ghost predicate RingJoined(m: Model, a: Node, b: Node, c: real)
    requires m.Valid() && InNet(m, a) && InNet(m, b) && a.Cell? && b.Pack?
  {
    GroupOf(m, a.l) == Some(b.g) && AtEdge(m, b.s, a.i, a.j) && c == RingG(m, a.l, b.g, b.s)
  }

  ghost predicate Bonded(m: Model, a: Node, b: Node, c: real)
    requires m.Valid() && a.Pack? && b.Pack?
  {
    a.s == b.s && exists k :: 0 <= k < |Bonds(m.pack, a.g)| && BondLink(m, a.g, a.s, k) == Link(b, c)
  }

  /** Heat flows between the two nodes through a conductance `c`. */
  ghost predicate Joined(m: Model, a: Node, b: Node, c: real)
    requires m.Valid() && InNet(m, a) && InNet(m, b)
  {
    match (a, b)
    case (Cell(_, _, _), Cell(_, _, _)) => CellsJoined(m, a, b, c)
    case (Cell(_, _, _), Pack(_, _)) => RingJoined(m, a, b, c)
    case (Pack(_, _), Cell(_, _, _)) => RingJoined(m, b, a, c)
    case (Pack(_, _), Pack(_, _)) => Bonded(m, a, b, c)
  }

  lemma CellsJoinedBack(m: Model, a: Node, b: Node, c: real)
    requires m.Valid() && InNet(m, a) && InNet(m, b) && a.Cell? && b.Cell? && CellsJoined(m, a, b, c)
    ensures CellsJoined(m, b, a, c)
  {
    if a.l == b.l {
      var s :| Adjacent(s, a.i, a.j, b.i, b.j) && c == FlatG(m, a.l, s);
      assert Adjacent(Opposite(s), b.i, b.j, a.i, a.j) && c == FlatG(m, b.l, Opposite(s));
    }
  }

  lemma BondedBack(m: Model, a: Node, b: Node, c: real)
    requires m.Valid() && a.Pack? && b.Pack? && Bonded(m, a, b, c)
    ensures Bonded(m, b, a, c)
  {
    var k :| 0 <= k < |Bonds(m.pack, a.g)| && BondLink(m, a.g, a.s, k) == Link(b, c);
    var x := if a.g == Sink || a.g == Pcb || (a.g == PcbC && k == 0) then 1 else 0;
    assert BondLink(m, b.g, b.s, x) == Link(a, c);
  }

  /** Conduction is mutual. */
  lemma JoinedBack(m: Model, a: Node, b: Node, c: real)
    requires m.Valid() && InNet(m, a) && InNet(m, b)
    ensures Joined(m, a, b, c) <==> Joined(m, b, a, c)
  {
    hide CellsJoined, RingJoined, Bonded;
    if a.Cell? && b.Cell? {
      if Joined(m, a, b, c) { CellsJoinedBack(m, a, b, c); }
      if Joined(m, b, a, c) { CellsJoinedBack(m, b, a, c); }
    }
    if a.Pack? && b.Pack? {
      if Joined(m, a, b, c) { BondedBack(m, a, b, c); }
      if Joined(m, b, a, c) { BondedBack(m, b, a, c); }
    }
  }

  // ----- the lists of neighbours are right

  lemma FlatMembers(m: Model, l: nat, i: nat, j: nat, s: Side, x: Link)
    requires AtCell(m, l, i, j)
    ensures x in FlatLink(m, l, i, j, s) <==>
            x.to.Cell? && InNet(m, x.to) && x.to.l == l && Adjacent(s, i, j, x.to.i, x.to.j) && x.c == FlatG(m, l, s)
  {
  }

  lemma RingMembers(m: Model, l: nat, i: nat, j: nat, s: Side, x: Link)
    requires AtCell(m, l, i, j)
    ensures x in RingLink(m, l, i, j, s) <==>
            x.to.Pack? && x.to.s == s && GroupOf(m, l) == Some(x.to.g) && AtEdge(m, s, i, j)
                && x.c == RingG(m, l, x.to.g, s)
  {
  }

  lemma VerticalMembers(m: Model, l: nat, i: nat, j: nat, x: Link)
    requires AtCell(m, l, i, j)
    ensures x in VerticalLinks(m, l, i, j) <==>
            x.to.Cell? && InNet(m, x.to) && x.to.i == i && x.to.j == j
            && ((x.to.l == l + 1 && x.c == G(m.layers[l].rz)) || (l == x.to.l + 1 && x.c == G(m.layers[x.to.l].rz)))
  {
  }

  lemma CellMembers(m: Model, l: nat, i: nat, j: nat, x: Link)
    requires AtCell(m, l, i, j)
    ensures x in CellLinks(m, l, i, j) <==> InNet(m, x.to) && Joined(m, Cell(l, i, j), x.to, x.c)
  {
    hide FlatLink, RingLink, VerticalLinks, FlatG, RingG, G;
    VerticalMembers(m, l, i, j, x);
    forall s ensures x in FlatLink(m, l, i, j, s) ==> x in CellLinks(m, l, i, j) {
      assert s == North || s == South || s == East || s == West;
    }
    forall s ensures x in RingLink(m, l, i, j, s) ==> x in CellLinks(m, l, i, j) {
      assert s == North || s == South || s == East || s == West;
    }
    FlatMembers(m, l, i, j, North, x);
    FlatMembers(m, l, i, j, South, x);
    FlatMembers(m, l, i, j, East, x);
    FlatMembers(m, l, i, j, West, x);
    RingMembers(m, l, i, j, North, x);
    RingMembers(m, l, i, j, South, x);
    RingMembers(m, l, i, j, East, x);
    RingMembers(m, l, i, j, West, x);
    RingActive(m, l);
  }

  lemma RingActive(m: Model, l: nat)
    ensures GroupOf(m, l).Some? ==> Active(m, GroupOf(m, l).value)
  {
  }

  lemma SideMembers(m: Model, l: nat, g: Group, s: Side, x: Link)
    requires m.Valid() && l < |m.layers|
    ensures x in SideLinks(m, l, g, s, Along(m, s)) <==>
            x.to.Cell? && InNet(m, x.to) && x.to.l == l && AtEdge(m, s, x.to.i, x.to.j) && x.c == RingG(m, l, g, s)
  {
    hide RingG;
    var ls := SideLinks(m, l, g, s, Along(m, s));
    if x.to.Cell? && InNet(m, x.to) && x.to.l == l && AtEdge(m, s, x.to.i, x.to.j) && x.c == RingG(m, l, g, s) {
      var k := if s == West || s == East then x.to.i else x.to.j;
      assert ls[k] == x;
    }
  }

  lemma PackMembers(m: Model, g: Group, s: Side, x: Link)
    requires m.Valid() && Active(m, g)
    ensures x in PackLinks(m, g, s) <==> InNet(m, x.to) && Joined(m, Pack(g, s), x.to, x.c)
  {
    hide RingG, SideLinks, G;
    match LayerOf(m, g) {
      case None => NoRing(m, g);
      case Some(l) =>
        RingsMatch(m, l, g);
        SideMembers(m, l, g, s, x);
    }
    if x.to.Cell? { RingsMatch(m, x.to.l, g); }
    BondActive(m, g);
    if x in BondLinks(m, g, s) {
      var k :| 0 <= k < |BondLinks(m, g, s)| && BondLinks(m, g, s)[k] == x;
      assert BondLink(m, g, s, k) == x;
    }
    if x.to.Pack? && Bonded(m, Pack(g, s), x.to, x.c) {
      var k :| 0 <= k < |Bonds(m.pack, g)| && BondLink(m, g, s, k) == Link(x.to, x.c);
      assert BondLinks(m, g, s)[k] == x;
    }
  }

  lemma NoRing(m: Model, g: Group)
    requires m.Valid() && LayerOf(m, g) == None
    ensures forall l :: GroupOf(m, l) != Some(g)
  {
  }

  lemma BondActive(m: Model, g: Group)
    requires m.Valid() && Active(m, g)
    ensures forall k :: 0 <= k < |Bonds(m.pack, g)| ==> Active(m, Bonds(m.pack, g)[k].0)
  {
  }

  /** A node lists exactly the nodes it is joined to. */
  lemma LinksRight(m: Model, n: Node, x: Link)
    requires m.Valid() && InNet(m, n)
    ensures x in Links(m, n) <==> InNet(m, x.to) && Joined(m, n, x.to, x.c)
  {
    match n
    case Cell(l, i, j) => CellMembers(m, l, i, j, x);
    case Pack(g, s) => PackMembers(m, g, s, x);
  }

  /** The network is symmetric. */
  lemma LinksMutual(m: Model, a: Node, b: Node, c: real)
    requires m.Valid() && InNet(m, a) && InNet(m, b)
    ensures Link(b, c) in Links(m, a) <==> Link(a, c) in Links(m, b)
  {
    hide Links, Joined;
    LinksRight(m, a, Link(b, c));
    LinksRight(m, b, Link(a, c));
    JoinedBack(m, a, b, c);
  }

  lemma JoinedPositive(m: Model, a: Node, b: Node, c: real)
    requires m.Valid() && InNet(m, a) && InNet(m, b) && Joined(m, a, b, c)
    ensures c > 0.0
  {
    hide RingG;
    if a.Pack? && b.Pack? { BondsPositive(m.pack, a.g); }
    if a.Cell? && b.Pack? { RingGPositive(m, a.l, b.g, b.s); }
    if a.Pack? && b.Cell? { RingGPositive(m, b.l, a.g, a.s); }
  }

  /** Every node has neighbours, all of them in the network and joined by positive conductances. */
  lemma LinksSound(m: Model, n: Node)
    requires m.Valid() && InNet(m, n)
    ensures |Links(m, n)| >= 1
    ensures forall k :: 0 <= k < |Links(m, n)| ==> InNet(m, Links(m, n)[k].to) && Links(m, n)[k].c > 0.0
  {
    hide Links, Joined;
    HasNeighbour(m, n);
    forall k | 0 <= k < |Links(m, n)| ensures InNet(m, Links(m, n)[k].to) && Links(m, n)[k].c > 0.0 {
      var x := Links(m, n)[k];
      LinksRight(m, n, x);
      JoinedPositive(m, n, x.to, x.c);
    }
  }

  lemma HasNeighbour(m: Model, n: Node)
    requires m.Valid() && InNet(m, n)
    ensures |Links(m, n)| >= 1
  {
    match n
    case Cell(l, i, j) => assert |FlatLink(m, l, i, j, North)| + |FlatLink(m, l, i, j, South)| >= 1;
    case Pack(g, s) => assert |BondLinks(m, g, s)| >= 1;
  }
}
