/** Building the matrix in coordinate form: how many entries there are, and that they fit the space set aside. */
module GridMatrix {
  import opened Compass
  import opened RealFunctions
  import opened GridNetwork
  import opened GridSweep
  import opened GridAssembly

  function Bit(b: bool): nat { if b then 1 else 0 }

  /** The number of entries worked out beforehand. */
  function Nnz(m: Model): int {
    var plane, around := m.rows * m.cols, m.rows + m.cols;
    if m.secondary then |m.layers| * (5 * plane - 2 * around) + 2 * (|m.layers| - 1) * plane + 5 * 2 * 2 * around + 12
        + 16 + 16 + 24
    else |m.layers| * (5 * plane - 2 * around) + 2 * (|m.layers| - 1) * plane + 2 * 2 * 2 * around + 12 + 16
  }

  function Count(m: Model, k: nat): nat
    requires m.Valid() && k <= Size(m)
  {
    |EntriesTo(m, k)|
  }

  lemma CountStep(m: Model, k: nat)
    requires m.Valid() && k < Size(m)
    ensures InNet(m, NodeAt(m, k)) && Count(m, k + 1) == Count(m, k) + |RowLinks(m, NodeAt(m, k))| + 1
  {
    NodeRight(m, k);
    hide NodeAt, RowLinks;
  }

  // ----- cells

  /** Neighbours above and below. */
  function Verticals(m: Model, l: nat): int { Bit(l > 0) + Bit(l < |m.layers| - 1) }

  function Ringed(m: Model, l: nat): nat { Bit(GroupOf(m, l).Some?) }

  /** Rows, or columns, at an edge. */
  function Edges(k: int, n: int): int { Bit(k == 0) + Bit(k == n - 1) }

  lemma NineLengths(m: Model, i: nat, j: nat)
    requires m.Valid() && i < m.rows && j < m.cols
    ensures |NineFlat(m, Number(m, i, j))| == 4 - Edges(i, m.rows) - Edges(j, m.cols)
    ensures |NineRing(m, Number(m, i, j))| == Edges(i, m.rows) + Edges(j, m.cols)
  {
    hide NineFlat, NineRing, Number;
    NineCases(m, i, j);
  }

  lemma CellRowLength(m: Model, l: nat, i: nat, j: nat)
    requires AtCell(m, l, i, j)
    ensures |RowLinks(m, Cell(l, i, j))| + 1 ==
            5 + Verticals(m, l) - (if Ringed(m, l) == 1 then 0 else Edges(i, m.rows) + Edges(j, m.cols))
  {
    hide NineFlat, NineRing, Number, AtEdge, FlatG, RingG, GroupOf, Edges;
    NineLengths(m, i, j);
    NineInner(m, i, j);
  }

  /** Edge columns among the first `j`. */
  function EdgesBefore(j: int, n: int): int { Bit(j > 0) + Bit(j == n) }

  lemma EdgesStep(j: int, n: int)
    requires 0 <= j < n && n >= 2
    ensures EdgesBefore(j + 1, n) == EdgesBefore(j, n) + Edges(j, n) && EdgesBefore(0, n) == 0 && EdgesBefore(n, n) == 2
  {
  }

  function PerCell(m: Model, l: nat, i: nat): int { 5 + Verticals(m, l) - (if Ringed(m, l) == 1 then 0
      else Edges(i, m.rows)) }

  function RowForm(m: Model, l: nat, i: nat, j: nat): int {
    j * PerCell(m, l, i) - (if Ringed(m, l) == 1 then 0 else EdgesBefore(j, m.cols))
  }

  lemma {:induction false} RowCount(m: Model, l: nat, i: nat, j: nat)
    requires m.Valid() && l < |m.layers| && i < m.rows && j <= m.cols
    ensures Index(m, Cell(l, i, 0)) + j <= Size(m)
    ensures Count(m, Index(m, Cell(l, i, 0)) + j) == Count(m, Index(m, Cell(l, i, 0))) + RowForm(m, l, i, j)
    decreases j
  {
    hide Count, Ringed, Verticals, Edges, EdgesBefore, RowLinks, NodeAt;
    var first := Index(m, Cell(l, i, 0));
    CellAt(m, l, i, 0);
    MulStep(0, PerCell(m, l, i));
    EdgesStep(0, m.cols);
    if j > 0 {
      RowCount(m, l, i, j - 1);
      CellAt(m, l, i, j - 1);
      assert Index(m, Cell(l, i, j - 1)) == first + j - 1;
      CountStep(m, first + j - 1);
      CellRowLength(m, l, i, j - 1);
      EdgesStep(j - 1, m.cols);
      MulStep(j - 1, PerCell(m, l, i));
    }
  }

  function PerRow(m: Model, l: nat): int { m.cols * (5 + Verticals(m, l)) - (if Ringed(m, l) == 1 then 0 else 2) }

  /** A whole row. */
  lemma RowForms(m: Model, l: nat, i: nat)
    requires m.Valid()
    ensures RowForm(m, l, i, m.cols) == PerRow(m, l) - (if Ringed(m, l) == 1 then 0 else m.cols * Edges(i, m.rows))
  {
    hide Edges, Ringed, Verticals;
    EdgesStep(0, m.cols);
    Distribute(m.cols, 5 + Verticals(m, l), Edges(i, m.rows));
  }

  lemma Distribute(c: int, a: int, b: int)
    ensures c * (a - b) == c * a - c * b && c * (a + b) == c * a + c * b
  {
  }

  function LayerForm(m: Model, l: nat, i: nat): int {
    i * PerRow(m, l) - (if Ringed(m, l) == 1 then 0 else m.cols * EdgesBefore(i, m.rows))
  }

  lemma {:induction false} LayerCount(m: Model, l: nat, i: nat)
    requires m.Valid() && l < |m.layers| && i <= m.rows
    ensures 0 <= (l * m.rows) * m.cols <= (l * m.rows + i) * m.cols <= Size(m)
    ensures Count(m, (l * m.rows + i) * m.cols) == Count(m, l * m.rows * m.cols) + LayerForm(m, l, i)
    decreases i
  {
    hide Count, Ringed, Verticals, Edges, EdgesBefore, Index, RowForm, PerRow;
    EdgesStep(0, m.rows);
    MulStep(0, PerRow(m, l));
    RowPlace(m, l, 0);
    if i > 0 {
      LayerCount(m, l, i - 1);
      RowPlace(m, l, i - 1);
      RowCount(m, l, i - 1, m.cols);
      RowForms(m, l, i - 1);
      EdgesStep(i - 1, m.rows);
      MulStep(i - 1, PerRow(m, l));
      Distribute(m.cols, EdgesBefore(i - 1, m.rows), Edges(i - 1, m.rows));
    }
  }

  /** What a whole layer contributes. */
  function PerLayer(m: Model, l: nat): int {
    5 * (m.rows * m.cols) - 2 * (m.rows + m.cols) + Verticals(m, l) * (m.rows * m.cols)
        + Ringed(m, l) * (2 * (m.rows + m.cols))
  }

  lemma LayerForms(m: Model, l: nat)
    requires m.Valid()
    ensures LayerForm(m, l, m.rows) == PerLayer(m, l)
  {
    hide Verticals, GroupOf;
    EdgesStep(0, m.rows);
    var r, c, v := m.rows, m.cols, Verticals(m, l);
    Distribute(r, c * (5 + v), 2);
    assert r * (c * (5 + v)) == 5 * (r * c) + v * (r * c);
  }

  function VerticalsBefore(m: Model, l: int): int { 2 * l - Bit(l > 0) - Bit(l == |m.layers|) }

  function RingsBefore(m: Model, l: nat): nat { if l == 0 then 0 else RingsBefore(m, l - 1) + Ringed(m, l - 1) }

  lemma VerticalsStep(m: Model, l: nat)
    requires m.Valid() && l < |m.layers|
    ensures VerticalsBefore(m, l + 1) == VerticalsBefore(m, l) + Verticals(m, l) && VerticalsBefore(m, 0) == 0
  {
  }

  lemma {:induction false} RingTotal(m: Model, l: nat)
    requires m.Valid() && l <= |m.layers|
    ensures RingsBefore(m, l) == (if m.secondary then (if l < 3 then l else 3) else 0)
        + (if l == |m.layers| then 2 else if l == |m.layers| - 1 then 1 else 0)
    decreases l
  {
    if l > 0 { RingTotal(m, l - 1); }
  }

  function CellsForm(m: Model, l: nat): int {
    l * (5 * (m.rows * m.cols) - 2 * (m.rows + m.cols)) + VerticalsBefore(m, l) * (m.rows * m.cols)
        + RingsBefore(m, l) * (2 * (m.rows + m.cols))
  }

  lemma {:induction false} CellsCount(m: Model, l: nat)
    requires m.Valid() && l <= |m.layers|
    ensures 0 <= l * m.rows * m.cols <= Size(m)
    ensures Count(m, l * m.rows * m.cols) == CellsForm(m, l)
    decreases l
  {
    hide Count, LayerForm, CellsForm, PerLayer;
    if l == 0 {
      NoEntries(m);
      CellsFormStep(m, 0);
    } else {
      CellsCount(m, l - 1);
      LayerPlace(m, l - 1);
      LayerCount(m, l - 1, m.rows);
      LayerForms(m, l - 1);
      CellsFormStep(m, l - 1);
    }
  }

  lemma CellsFormStep(m: Model, l: nat)
    requires m.Valid() && l < |m.layers|
    ensures CellsForm(m, l + 1) == CellsForm(m, l) + PerLayer(m, l) && CellsForm(m, 0) == 0
  {
    hide Ringed, Verticals, VerticalsBefore;
    var plane, around := m.rows * m.cols, 2 * (m.rows + m.cols);
    VerticalsStep(m, l);
    MulStep(l, 5 * plane - around);
    Distribute(plane, VerticalsBefore(m, l), Verticals(m, l));
    Distribute(around, RingsBefore(m, l), Ringed(m, l));
  }

  lemma NoEntries(m: Model)
    requires m.Valid()
    ensures Count(m, 0) == 0
  {
  }

  // ----- package nodes

  lemma PackRowLength(m: Model, g: Group, s: Side)
    requires m.Valid() && Active(m, g)
    ensures |RowLinks(m, Pack(g, s))| == (if LayerOf(m, g).Some? then Along(m, s) else 0) + |Bonds(m.pack, g)|
  {
    hide SideEmits, G;
  }

  lemma FourEach(p: nat, q: nat)
    requires q < 4
    ensures (4 * p + q) / 4 == p && (4 * p + q) % 4 == q
  {
  }

  lemma PackCountStep(m: Model, p: nat, q: nat)
    requires m.Valid() && p < (if m.secondary then 7 else 3) && q < 4
    ensures Cells(m) + 4 * p + q < Size(m) && Active(m, PackOrder[p])
    ensures var g := PackOrder[p];
            Count(m, Cells(m) + 4 * p + q + 1) == Count(m, Cells(m) + 4 * p + q)
                + (if LayerOf(m, g).Some? then Along(m, SideOrder[q]) else 0) + |Bonds(m.pack, g)| + 1
  {
    hide Count, RowLinks, Cells, Bonds, LayerOf;
    var k := 4 * p + q;
    FourEach(p, q);
    PackTurn(m, k);
    CountStep(m, Cells(m) + k);
    PackRowLength(m, PackOrder[p], SideOrder[q]);
  }

  function GroupForm(m: Model, g: Group): int
    requires m.Valid()
  {
    (if LayerOf(m, g).Some? then 2 * (m.rows + m.cols) else 0) + 4 * (|Bonds(m.pack, g)| + 1)
  }

  lemma GroupCount(m: Model, p: nat)
    requires m.Valid() && p < (if m.secondary then 7 else 3)
    ensures Cells(m) + 4 * p + 4 <= Size(m) && Count(m, Cells(m) + 4 * p + 4) == Count(m, Cells(m) + 4 * p)
        + GroupForm(m, PackOrder[p])
  {
    hide Count, Cells, Bonds, LayerOf;
    PackCountStep(m, p, 0);
    PackCountStep(m, p, 1);
    PackCountStep(m, p, 2);
    PackCountStep(m, p, 3);
  }

  lemma PackCount(m: Model)
    requires m.Valid()
    ensures Count(m, Size(m)) ==
            Count(m, Cells(m)) + if m.secondary then 10 * (m.rows + m.cols) + 68 else 4 * (m.rows + m.cols) + 28
  {
    hide Count, Cells;
    GroupCount(m, 0);
    GroupCount(m, 1);
    GroupCount(m, 2);
    if m.secondary {
      GroupCount(m, 3);
      GroupCount(m, 4);
      GroupCount(m, 5);
      GroupCount(m, 6);
    }
  }

  /** The assembly emits exactly the number of entries worked out beforehand. */
  lemma NnzRight(m: Model)
    requires m.Valid()
    ensures |EntriesTo(m, Size(m))| == Nnz(m)
  {
    hide Count, CellsForm, Nnz, EntriesTo;
    CountIs(m, Size(m));
    CellsCount(m, |m.layers|);
    RingTotal(m, |m.layers|);
    PackCount(m);
    NnzForm(m);
  }

  lemma CountIs(m: Model, k: nat)
    requires m.Valid() && k <= Size(m)
    ensures Count(m, k) == |EntriesTo(m, k)|
  {
  }

  lemma NnzForm(m: Model)
    requires m.Valid() && RingsBefore(m, |m.layers|) == if m.secondary then 5 else 2
    ensures Nnz(m) ==
            CellsForm(m, |m.layers|) + if m.secondary then 10 * (m.rows + m.cols) + 68 else 4 * (m.rows + m.cols) + 28
  {
    hide RingsBefore;
  }

  // ----- the assembly itself

  lemma OffStart(m: Model, n: Node, ls: seq<Link>)
    ensures OffDiagonal(m, n, ls[..0]) == [] && LinkSum(ls[..0]) == 0.0
  {
  }

  lemma OffStep(m: Model, n: Node, ls: seq<Link>, k: nat)
    requires k < |ls|
    ensures OffDiagonal(m, n, ls[..k + 1]) == OffDiagonal(m, n, ls[..k])
        + [Entry(Index(m, n), Index(m, ls[k].to), -ls[k].c)]
    ensures LinkSum(ls[..k + 1]) == LinkSum(ls[..k]) + ls[k].c
  {
    assert ls[..k + 1][..k] == ls[..k];
  }

  /** The row of one node: its neighbours with negated conductances, then the diagonal. */
  method EmitRow(m: Model, n: Node, coo: seq<Entry>) returns (r: seq<Entry>)
    requires m.Valid() && InNet(m, n)
    ensures r == coo + RowEntries(m, n)
  {
    hide Index, RowAmbient, RowLinks, OffDiagonal, LinkSum;
    var ls := RowLinks(m, n);
    r := coo;
    var diagonal := 0.0;
    OffStart(m, n, ls);
    for k := 0 to |ls|
      invariant r == coo + OffDiagonal(m, n, ls[..k]) && diagonal == LinkSum(ls[..k])
    {
      OffStep(m, n, ls, k);
      r := r + [Entry(Index(m, n), Index(m, ls[k].to), -ls[k].c)];
      diagonal := diagonal + ls[k].c;
    }
    assert ls[..|ls|] == ls;
    diagonal := diagonal + RowAmbient(m, n);
    r := r + [Entry(Index(m, n), Index(m, n), diagonal)];
  }

  /** Cells layer by layer, then package nodes: the matrix has exactly the expected number of entries, so
      that the closing check never fails. */
  method BuildMatrix(m: Model) returns (coo: seq<Entry>, ok: bool)
    requires m.Valid()
    ensures coo == EntriesTo(m, Size(m)) && ok
  {
    hide EntriesTo, RowFirst, Nnz, Cells;
    coo := [];
    LayerFirsts(m, 0);
    EntriesNone(m);
    for l := 0 to |m.layers|
      invariant RowFirst(m, l, 0) <= Cells(m) && coo == EntriesTo(m, RowFirst(m, l, 0))
    {
      coo := BuildLayer(m, l, coo);
    }
    coo := BuildPackage(m, coo);
    NnzRight(m);
    ok := |coo| == Nnz(m);
  }

  method BuildPackage(m: Model, coo: seq<Entry>) returns (r: seq<Entry>)
    requires m.Valid() && coo == EntriesTo(m, Cells(m))
    ensures r == EntriesTo(m, Size(m))
  {
    hide RowEntries, Index, Cells;
    r := coo;
    var extra := if m.secondary then 28 else 12;
    for k := 0 to extra
      invariant r == EntriesTo(m, Cells(m) + k)
    {
      PackTurn(m, k);
      NodeRight(m, Cells(m) + k);
      r := EmitRow(m, Pack(PackOrder[k / 4], SideOrder[k % 4]), r);
    }
  }

  lemma EntriesNone(m: Model)
    requires m.Valid()
    ensures EntriesTo(m, 0) == []
  {
  }

  method BuildLayer(m: Model, l: nat, coo: seq<Entry>) returns (r: seq<Entry>)
    requires m.Valid() && l < |m.layers| && RowFirst(m, l, 0) <= Size(m) && coo == EntriesTo(m, RowFirst(m, l, 0))
    ensures RowFirst(m, l + 1, 0) <= Cells(m) && r == EntriesTo(m, RowFirst(m, l + 1, 0))
  {
    hide EntriesTo, Index, RowFirst, Cells;
    LayerFirsts(m, l);
    RowFirstAt(m, l, 0);
    r := coo;
    for i := 0 to m.rows
      invariant RowFirst(m, l, i) <= Cells(m) && r == EntriesTo(m, RowFirst(m, l, i))
    {
      RowFirstAt(m, l, i);
      r := BuildRow(m, l, i, r);
    }
  }

  method BuildRow(m: Model, l: nat, i: nat, coo: seq<Entry>) returns (r: seq<Entry>)
    requires m.Valid() && l < |m.layers| && i < m.rows && Index(m, Cell(l, i, 0)) + m.cols <= Cells(m)
    requires coo == EntriesTo(m, Index(m, Cell(l, i, 0)))
    ensures r == EntriesTo(m, Index(m, Cell(l, i, 0)) + m.cols)
  {
    hide RowEntries, Index, NodeAt, Cells;
    r := coo;
    for j := 0 to m.cols
      invariant r == EntriesTo(m, Index(m, Cell(l, i, 0)) + j)
    {
      CellAt(m, l, i, j);
      CellIndex(m, l, i, j);
      r := EmitRow(m, Cell(l, i, j), r);
    }
  }

  lemma CellIndex(m: Model, l: nat, i: nat, j: nat)
    ensures Index(m, Cell(l, i, j)) == Index(m, Cell(l, i, 0)) + j
  {
  }

  // ----- the right-hand side

  /** The cells below place `k` have their values. */
  ghost predicate RhsUpTo(m: Model, power: seq<real>, ambient: real, rhs: array<real>, k: nat)
    requires Temps(m, power)
    reads rhs
  {
    && rhs.Length == Size(m)
    && forall n :: InNet(m, n) && n.Cell? && Index(m, n) < k ==> RhsAt(m, power, ambient, rhs, n)
  }

  ghost predicate RhsAt(m: Model, power: seq<real>, ambient: real, rhs: array<real>, n: Node)
    requires Temps(m, power) && InNet(m, n)
    reads rhs
  {
    Index(m, n) < rhs.Length && rhs[Index(m, n)] == Rhs(m, power, ambient, n)
  }

  /** One cell: its power, and in the sink and the board the heat from the ambient. */
  method SetCellRhs(m: Model, power: seq<real>, ambient: real, rhs: array<real>, l: nat, i: nat, j: nat)
    requires AtCell(m, l, i, j) && Temps(m, power) && RhsUpTo(m, power, ambient, rhs, Index(m, Cell(l, i, j)))
    modifies rhs
    ensures RhsUpTo(m, power, ambient, rhs, Index(m, Cell(l, i, j)) + 1)
  {
    hide Index, Times, At, Size;
    ghost var x := Cell(l, i, j);
    var idx := Index(m, Cell(l, i, j));
    AtPlace(m, power, x);
    TimesZero(ambient);
    var value := power[idx];
    if l == m.SinkLayer() {
      value := Times(G(m.layers[l].rz), ambient) + power[idx];
    } else if m.secondary && l == LAYER_PCB {
      value := power[idx] + Times(G(m.pack.pcbCell), ambient);
    }
    assert value == Rhs(m, power, ambient, x);
    rhs[idx] := value;
    forall n | InNet(m, n) && n.Cell? && Index(m, n) < idx + 1 ensures RhsAt(m, power, ambient, rhs, n) {
      if Index(m, n) == idx { IndexUnique(m, n, x); } else { assert old(RhsAt(m, power, ambient, rhs, n)); }
    }
  }

  method FillRhsRow(m: Model, power: seq<real>, ambient: real, rhs: array<real>, l: nat, i: nat)
    requires m.Valid() && l < |m.layers| && i < m.rows && Temps(m, power)
        && RhsUpTo(m, power, ambient, rhs, RowFirst(m, l, i))
    modifies rhs
    ensures RhsUpTo(m, power, ambient, rhs, RowFirst(m, l, i + 1))
  {
    hide RhsUpTo, Index, RowFirst;
    RowFirstAt(m, l, i);
    for j := 0 to m.cols
      invariant RhsUpTo(m, power, ambient, rhs, RowFirst(m, l, i) + j)
    {
      CellIndex(m, l, i, j);
      SetCellRhs(m, power, ambient, rhs, l, i, j);
    }
  }

  method FillRhsCells(m: Model, power: seq<real>, ambient: real, rhs: array<real>)
    requires Temps(m, power) && rhs.Length == Size(m)
    modifies rhs
    ensures RhsUpTo(m, power, ambient, rhs, Cells(m))
  {
    hide RhsUpTo, RowFirst, Index;
    LayerFirsts(m, 0);
    NoRhs(m, power, ambient, rhs);
    for l := 0 to |m.layers|
      invariant RhsUpTo(m, power, ambient, rhs, RowFirst(m, l, 0))
    {
      LayerFirsts(m, l);
      for i := 0 to m.rows
        invariant RhsUpTo(m, power, ambient, rhs, RowFirst(m, l, i))
      {
        FillRhsRow(m, power, ambient, rhs, l, i);
      }
    }
  }

  lemma NoRhs(m: Model, power: seq<real>, ambient: real, rhs: array<real>)
    requires Temps(m, power) && rhs.Length == Size(m)
    ensures RhsUpTo(m, power, ambient, rhs, 0)
  {
  }

  /** One side of the package: heat from the ambient at inner and outer sink and board, nothing elsewhere. */
  method SetSideRhs(m: Model, power: seq<real>, ambient: real, rhs: array<real>, s: Side)
    requires Temps(m, power) && RhsUpTo(m, power, ambient, rhs, Cells(m))
    modifies rhs
    ensures RhsUpTo(m, power, ambient, rhs, Cells(m))
    ensures forall g :: Active(m, g) ==> RhsAt(m, power, ambient, rhs, Pack(g, s))
    ensures forall g, side :: Active(m, g) && side != s && old(RhsAt(m, power, ambient, rhs, Pack(g, side)))
              ==> RhsAt(m, power, ambient, rhs, Pack(g, side))
  {
    hide Times, Cells;
    var base, k := Cells(m), SideNumber(s);
    TimesZero(ambient);
    rhs[base + k] := 0.0;
    rhs[base + 4 + k] := Times(G(m.pack.sinkCAmb.Of(s)), ambient);
    rhs[base + 8 + k] := Times(G(m.pack.sinkAmb.Of(s)), ambient);
    if m.secondary {
      rhs[base + 12 + k] := 0.0;
      rhs[base + 16 + k] := 0.0;
      rhs[base + 20 + k] := Times(G(m.pack.pcbCAmb.Of(s)), ambient);
      rhs[base + 24 + k] := Times(G(m.pack.pcbAmb.Of(s)), ambient);
    }
    forall n | InNet(m, n) && n.Cell? && Index(m, n) < Cells(m) ensures RhsAt(m, power, ambient, rhs, n) {
      assert old(RhsAt(m, power, ambient, rhs, n));
    }
  }

  /** The right-hand side vector: power of the cells and heat from the ambient, at every node's place. */
  method BuildRhs(m: Model, power: seq<real>, ambient: real) returns (rhs: array<real>)
    requires Temps(m, power)
    ensures rhs.Length == Size(m) && forall n :: InNet(m, n) ==> RhsAt(m, power, ambient, rhs, n)
  {
    hide Rhs, Index, Cells;
    rhs := new real[Size(m)];
    FillRhsCells(m, power, ambient, rhs);
    SetSideRhs(m, power, ambient, rhs, West);
    SetSideRhs(m, power, ambient, rhs, East);
    SetSideRhs(m, power, ambient, rhs, North);
    SetSideRhs(m, power, ambient, rhs, South);
    forall n | InNet(m, n) ensures RhsAt(m, power, ambient, rhs, n) {
      if n.Cell? {
        CellBelow(m, n);
      } else {
        assert n.s == West || n.s == East || n.s == North || n.s == South;
      }
    }
  }
}
