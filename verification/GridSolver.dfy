/** One steady-state iteration over the temperature vector, in place: all cells, then the package nodes. */
module GridSolver {
  import opened Wrappers
  import opened Compass
  import opened RealFunctions
  import opened GridNetwork
  import opened GridSweep

  function Distance(x: real, y: real): real { if x < y then y - x else x - y }

  /** The largest change so far is zero exactly when nothing changed so far. */
  ghost predicate Tracks(m: Model, power: seq<real>, ambient: real, t: seq<real>, k: nat, max: real)
    requires Temps(m, t) && Temps(m, power) && k <= Size(m)
  {
    max >= 0.0 && (max == 0.0 <==> Swept(m, power, ambient, t, k) == t)
  }

  /** Stores a node's new temperature and gives the change. */
  method Store(m: Model, n: Node, value: real, t: array<real>, ghost power: seq<real>, ghost ambient: real)
      returns (delta: real)
    requires Temps(m, t[..]) && Temps(m, power) && InNet(m, n) && value == Relaxed(m, power, ambient, t[..], n)
    modifies t
    ensures t[..] == Update(m, power, ambient, old(t[..]), n)
    ensures delta >= 0.0 && (delta == 0.0 <==> t[..] == old(t[..]))
  {
    hide Relaxed, Index, InNet;
    IndexBelow(m, n);
    var k := Index(m, n);
    ghost var before := t[..];
    delta := Distance(t[k], value);
    t[k] := value;
    assert t[..] == before[k := value];
    assert before[k := before[k]] == before;
    assert before[k := value][k] == value;
  }

  /** A grid cell takes the weighted mean of its neighbours, raised by its power. */
  method RelaxCell(m: Model, power: array<real>, ambient: real, t: array<real>, l: nat, i: nat, j: nat)
      returns (delta: real)
    requires AtCell(m, l, i, j) && Temps(m, t[..]) && Temps(m, power[..]) && power != t
    modifies t
    ensures t[..] == Update(m, power[..], ambient, old(t[..]), Cell(l, i, j))
    ensures delta >= 0.0 && (delta == 0.0 <==> t[..] == old(t[..]))
  {
    hide SideC, SideT, AboveC, AboveT, BelowC, BelowT, RingC, RingT, Update, Weighted, LinkSum, Times, CellLinks,
        Index, Sound;
    var v := t[..];
    var csum := SideC(m, l, i, j, North) + SideC(m, l, i, j, South) + SideC(m, l, i, j, East)
        + SideC(m, l, i, j, West) + AboveC(m, l) + BelowC(m, l);
    var wsum := SideT(m, v, l, i, j, North) + SideT(m, v, l, i, j, South) + SideT(m, v, l, i, j, East)
        + SideT(m, v, l, i, j, West)
                + AboveT(m, v, l, i, j) + BelowT(m, v, l, i, j);
    csum := csum + RingC(m, l, i, j, North) + RingC(m, l, i, j, South) + RingC(m, l, i, j, East)
        + RingC(m, l, i, j, West);
    wsum := wsum + RingT(m, v, l, i, j, North) + RingT(m, v, l, i, j, South) + RingT(m, v, l, i, j, East)
        + RingT(m, v, l, i, j, West);
    ghost var n := Cell(l, i, j);
    CellSums(m, v, l, i, j);
    var toAmbient := Ambient(m, Cell(l, i, j));
    csum := csum + toAmbient;
    wsum := wsum + Times(toAmbient, ambient);
    TotalGPositive(m, n);
    IndexBelow(m, n);
    var value := (power[Index(m, Cell(l, i, j))] + wsum) / csum;
    RelaxedIs(m, power[..], ambient, v, n, csum, wsum);
    delta := Store(m, Cell(l, i, j), value, t, power[..], ambient);
  }

  lemma RelaxedIs(m: Model, power: seq<real>, ambient: real, t: seq<real>, n: Node, csum: real, wsum: real)
    requires Temps(m, t) && Temps(m, power) && InNet(m, n) && Sound(m, Links(m, n))
    requires csum == LinkSum(Links(m, n)) + Ambient(m, n)
        && wsum == Weighted(m, Links(m, n), t) + Times(Ambient(m, n), ambient)
    ensures csum > 0.0 && Relaxed(m, power, ambient, t, n) == (PowerAt(m, power, n) + wsum) / csum
  {
    hide Links, LinkSum, Weighted, Ambient, Times, PowerAt;
    TotalGPositive(m, n);
  }

  /** Sum of the temperatures along a side of a layer. */
  method AddSide(m: Model, t: array<real>, l: nat, s: Side) returns (sum: real)
    requires Temps(m, t[..]) && l < |m.layers|
    ensures sum == SideSum(m, t[..], l, s, Along(m, s))
  {
    hide Index;
    sum := 0.0;
    for k := 0 to Along(m, s)
      invariant sum == SideSum(m, t[..], l, s, k)
    {
      SideInNet(m, l, s, k);
      IndexBelow(m, SideCell(m, l, s, k));
      sum := sum + t[Index(m, SideCell(m, l, s, k))];
    }
  }

  /** A package node takes the weighted mean of its neighbours and the ambient. */
  method RelaxPack(m: Model, power: array<real>, ambient: real, t: array<real>, g: Group, s: Side) returns (delta: real)
    requires Active(m, g) && Temps(m, t[..]) && Temps(m, power[..]) && power != t
    modifies t
    ensures t[..] == Update(m, power[..], ambient, old(t[..]), Pack(g, s))
    ensures delta >= 0.0 && (delta == 0.0 <==> t[..] == old(t[..]))
  {
    hide Update, Weighted, LinkSum, Times, Index, RingG, Ambient, Sound, SideSum;
    var csum, wsum := 0.0, 0.0;
    RingsMatch(m, 0, g);
    match LayerOf(m, g) {
      case None =>
      case Some(l) =>
        var sum := AddSide(m, t, l, s);
        csum := Times(Along(m, s) as real, RingG(m, l, g, s));
        wsum := Times(RingG(m, l, g, s), sum);
    }
    RingCellSums(m, t[..], g, s, csum, wsum);
    ghost var n := Pack(g, s);
    LinksSound(m, n);
    BondSound(m, g, s);
    ghost var v := t[..];
    for k := 0 to |Bonds(m.pack, g)|
      invariant t[..] == v
      invariant Sound(m, RingCells(m, g, s) + BondLinks(m, g, s)[..k])
      invariant csum == LinkSum(RingCells(m, g, s) + BondLinks(m, g, s)[..k])
      invariant wsum == Weighted(m, RingCells(m, g, s) + BondLinks(m, g, s)[..k], t[..])
    {
      var x := BondLink(m, g, s, k);
      IndexBelow(m, x.to);
      ghost var ls := RingCells(m, g, s) + BondLinks(m, g, s)[..k];
      SingleSums(m, x, t[..]);
      SumsConcat(m, ls, [x], t[..]);
      assert ls + [x] == RingCells(m, g, s) + BondLinks(m, g, s)[..k + 1];
      csum := csum + x.c;
      wsum := wsum + Times(x.c, t[Index(m, x.to)]);
    }
    assert RingCells(m, g, s) + BondLinks(m, g, s)[..|Bonds(m.pack, g)|] == PackLinks(m, g, s);
    var toAmbient := Ambient(m, Pack(g, s));
    csum := csum + toAmbient;
    wsum := wsum + Times(toAmbient, ambient);
    RelaxedIs(m, power[..], ambient, t[..], n, csum, wsum);
    delta := Store(m, Pack(g, s), wsum / csum, t, power[..], ambient);
  }

  lemma BondSound(m: Model, g: Group, s: Side)
    requires m.Valid() && Active(m, g)
    ensures forall k :: 0 <= k < |Bonds(m.pack, g)| ==>
              InNet(m, BondLink(m, g, s, k).to) && BondLink(m, g, s, k).c > 0.0
  {
    BondsPositive(m.pack, g);
    BondActive(m, g);
  }

  lemma RingCellSums(m: Model, t: seq<real>, g: Group, s: Side, csum: real, wsum: real)
    requires Temps(m, t) && Active(m, g)
    requires LayerOf(m, g) == None ==> csum == 0.0 && wsum == 0.0
    requires LayerOf(m, g).Some? ==>
               var l := LayerOf(m, g).value;
               l < |m.layers| && csum == Times(Along(m, s) as real, RingG(m, l, g, s))
                   && wsum == Times(RingG(m, l, g, s), SideSum(m, t, l, s, Along(m, s)))
    ensures Sound(m, RingCells(m, g, s) + BondLinks(m, g, s)[..0])
    ensures csum == LinkSum(RingCells(m, g, s) + BondLinks(m, g, s)[..0])
    ensures wsum == Weighted(m, RingCells(m, g, s) + BondLinks(m, g, s)[..0], t)
  {
    hide Sound, LinkSum, Weighted, Times, RingG, SideSum, SideLinks;
    assert RingCells(m, g, s) + BondLinks(m, g, s)[..0] == RingCells(m, g, s);
    match LayerOf(m, g)
    case None => NoSums(m, t);
    case Some(l) => SideSums(m, t, l, g, s, Along(m, s));
  }

  // ----- the whole sweep

  /** Carries the bookkeeping of the largest change over one more node. */
  lemma TracksMore(m: Model, power: seq<real>, ambient: real, t: seq<real>, k: nat, max: real, delta: real)
    requires Temps(m, t) && Temps(m, power) && k < Size(m) && Tracks(m, power, ambient, t, k, max)
    requires delta >= 0.0 && (delta == 0.0 <==> Swept(m, power, ambient, t, k + 1) == Swept(m, power, ambient, t, k))
    ensures Tracks(m, power, ambient, t, k + 1, if delta > max then delta else max)
  {
    hide Update, Swept, NodeAt, Index;
    if Swept(m, power, ambient, t, k + 1) == t && Swept(m, power, ambient, t,
        k) != t { ChangeStays(m, power, ambient, t, k); }
  }

  /** A node that changed in its turn stays changed for the rest of the sweep. */
  lemma ChangeStays(m: Model, power: seq<real>, ambient: real, t: seq<real>, k: nat)
    requires Temps(m, t) && Temps(m, power) && k < Size(m) && Swept(m, power, ambient, t, k) != t
    ensures Swept(m, power, ambient, t, k + 1) != t
  {
    hide Swept, Relaxed, At, Turn, InNet;
    var x := ChangedNode(m, power, ambient, t, k);
    DoneFor(m, power, ambient, t, k, x);
    DoneFor(m, power, ambient, t, k + 1, x);
  }

  lemma {:induction false} ChangedNode(m: Model, power: seq<real>, ambient: real, t: seq<real>, k: nat)
      returns (x: Node)
    requires Temps(m, t) && Temps(m, power) && k <= Size(m) && Swept(m, power, ambient, t, k) != t
    ensures InNet(m, x) && Turn(m, x) < k && At(m, Swept(m, power, ambient, t, k), x) != At(m, t, x)
    decreases k
  {
    hide Relaxed, NodeAt, Index, Turn, InNet;
    var v, n := Swept(m, power, ambient, t, k - 1), NodeAt(m, k - 1);
    NodeRight(m, k - 1);
    if v != t {
      x := ChangedNode(m, power, ambient, t, k - 1);
      UpdateAt(m, power, ambient, v, n, x);
      TurnRight(m, x);
    } else {
      x := n;
      UpdateAt(m, power, ambient, v, n, n);
      IndexBelow(m, n);
      assert v[Index(m, n) := v[Index(m, n)]] == v;
    }
  }

  method SweepRow(m: Model, power: array<real>, ambient: real, t: array<real>, l: nat, i: nat, ghost start: seq<real>,
      max: real) returns (largest: real)
    requires m.Valid() && l < |m.layers| && i < m.rows && Temps(m, t[..]) && Temps(m, power[..]) && power != t
        && Temps(m, start)
    requires var k := Index(m, Cell(l, i, 0));
             k <= Size(m) && t[..] == Swept(m, power[..], ambient, start, k)
             && Tracks(m, power[..], ambient, start, k, max)
    modifies t
    ensures var k := Index(m, Cell(l, i, 0)) + m.cols;
            k <= Size(m) && t[..] == Swept(m, power[..], ambient, start, k)
            && Tracks(m, power[..], ambient, start, k, largest)
  {
    hide Update, Tracks, NodeAt;
    largest := max;
    ghost var first := Index(m, Cell(l, i, 0));
    for j := 0 to m.cols
      invariant first + j <= Size(m)
      invariant t[..] == Swept(m, power[..], ambient, start, first + j)
          && Tracks(m, power[..], ambient, start, first + j, largest)
    {
      CellAt(m, l, i, j);
      var delta := RelaxCell(m, power, ambient, t, l, i, j);
      TracksMore(m, power[..], ambient, start, first + j, largest, delta);
      if delta > largest { largest := delta; }
    }
  }

  /** All cells, layer by layer and row by row. */
  method SweepCells(m: Model, power: array<real>, ambient: real, t: array<real>) returns (largest: real)
    requires Temps(m, t[..]) && Temps(m, power[..]) && power != t
    modifies t
    ensures t[..] == Swept(m, power[..], ambient, old(t[..]), Cells(m))
        && Tracks(m, power[..], ambient, old(t[..]), Cells(m), largest)
  {
    hide Swept, Tracks, Index, RowFirst, Cells;
    largest := 0.0;
    ghost var start := t[..];
    SweepStart(m, power[..], ambient, start);
    LayerFirsts(m, 0);
    for l := 0 to |m.layers|
      invariant RowFirst(m, l, 0) <= Cells(m)
      invariant t[..] == Swept(m, power[..], ambient, start, RowFirst(m, l, 0))
      invariant Tracks(m, power[..], ambient, start, RowFirst(m, l, 0), largest)
    {
      LayerFirsts(m, l);
      for i := 0 to m.rows
        invariant RowFirst(m, l, i) <= Cells(m)
        invariant t[..] == Swept(m, power[..], ambient, start, RowFirst(m, l, i))
        invariant Tracks(m, power[..], ambient, start, RowFirst(m, l, i), largest)
      {
        RowFirstAt(m, l, i);
        largest := SweepRow(m, power, ambient, t, l, i, start, largest);
      }
    }
  }

  lemma SweepStart(m: Model, power: seq<real>, ambient: real, t: seq<real>)
    requires Temps(m, t) && Temps(m, power)
    ensures Swept(m, power, ambient, t, 0) == t && Tracks(m, power, ambient, t, 0, 0.0)
  {
  }

  /** One iteration. The result is the sweep of all nodes, each once; the largest change that it returns is
      zero exactly when the temperatures were a fixed point. */
  method SingleIteration(m: Model, power: array<real>, ambient: real, t: array<real>) returns (largest: real)
    requires Temps(m, t[..]) && Temps(m, power[..]) && power != t
    modifies t
    ensures t[..] == Swept(m, power[..], ambient, old(t[..]), Size(m))
    ensures largest >= 0.0 && (largest == 0.0 <==> FixedPoint(m, power[..], ambient, old(t[..])))
  {
    hide Update, Tracks, FixedPoint, NodeAt;
    ghost var start := t[..];
    largest := SweepCells(m, power, ambient, t);
    var extra := if m.secondary then 28 else 12;
    for k := 0 to extra
      invariant t[..] == Swept(m, power[..], ambient, start, Cells(m) + k)
          && Tracks(m, power[..], ambient, start, Cells(m) + k, largest)
    {
      PackNode(m, k);
      var delta := RelaxPack(m, power, ambient, t, PackOrder[k / 4], SideOrder[k % 4]);
      TracksMore(m, power[..], ambient, start, Cells(m) + k, largest, delta);
      if delta > largest { largest := delta; }
    }
    IterationFixed(m, power[..], ambient, start, largest);
  }

  lemma PackNode(m: Model, k: nat)
    requires m.Valid() && k < if m.secondary then 28 else 12
    ensures k / 4 < |PackOrder| && Active(m, PackOrder[k / 4])
        && NodeAt(m, Cells(m) + k) == Pack(PackOrder[k / 4], SideOrder[k % 4])
  {
    PackTurn(m, k);
  }

  lemma IterationFixed(m: Model, power: seq<real>, ambient: real, t: seq<real>, largest: real)
    requires Temps(m, t) && Temps(m, power) && Tracks(m, power, ambient, t, Size(m), largest)
    ensures largest >= 0.0 && (largest == 0.0 <==> FixedPoint(m, power, ambient, t))
  {
    hide Swept, FixedPoint;
    SweepFixedIff(m, power, ambient, t);
    if FixedPoint(m, power, ambient, t) { FixedStays(m, power, ambient, t, Size(m)); }
  }
}
