/** The assembled matrix as a whole: no position is emitted twice, it is symmetric, and it is the matrix of a
    conduction network all of whose nodes reach the ambient. So the grid has one steady state at most, none of
    whose nodes is below the ambient, and which sends exactly the power fed in to the ambient. */
module GridSystem {
  import opened Compass
  import opened RealFunctions
  import opened Sums
  import opened GridNetwork
  import opened GridSweep
  import opened GridAssembly
  import LupMatrix
  import Lup
  import Conduction

  // ----- the neighbours of a node are different nodes

  /** The listed nodes are different from each other and from `n`. */
  ghost predicate Apart(n: Node, ls: seq<Link>) {
    (forall k :: 0 <= k < |ls| ==> ls[k].to != n) && forall i, j :: 0 <= i < j < |ls| ==> ls[i].to != ls[j].to
  }

  lemma JoinApart(n: Node, a: seq<Link>, b: seq<Link>)
    requires Apart(n, a) && Apart(n, b) && forall i, j :: 0 <= i < |a| && 0 <= j < |b| ==> a[i].to != b[j].to
    ensures Apart(n, a + b)
  {
  }

  ghost predicate DistinctSides(sides: seq<Side>) {
    forall i, j :: 0 <= i < j < |sides| ==> sides[i] != sides[j]
  }

  lemma NineDistinct(m: Model, idx: int)
    requires m.Valid()
    ensures DistinctSides(NineFlat(m, idx)) && DistinctSides(NineRing(m, idx))
  {
  }

  lemma FlatApart(m: Model, l: nat, i: nat, j: nat)
    requires AtCell(m, l, i, j)
    ensures var ls := NineFlatLinks(m, l, i, j);
            Apart(Cell(l, i, j), ls) && forall k :: 0 <= k < |ls| ==> ls[k].to.Cell? && ls[k].to.l == l
  {
    hide NineFlat, NineRing, Number, FlatG;
    NineInner(m, i, j);
    NineDistinct(m, Number(m, i, j));
  }

  lemma RingApart(m: Model, l: nat, i: nat, j: nat)
    requires AtCell(m, l, i, j)
    ensures var ls := NineRingLinks(m, l, i, j);
            Apart(Cell(l, i, j), ls) && forall k :: 0 <= k < |ls| ==> ls[k].to.Pack?
  {
    hide NineFlat, NineRing, Number, RingG;
    NineDistinct(m, Number(m, i, j));
  }

  lemma VerticalApart(m: Model, l: nat, i: nat, j: nat)
    requires AtCell(m, l, i, j)
    ensures var ls := VerticalLinks(m, l, i, j);
            Apart(Cell(l, i, j), ls) && forall k :: 0 <= k < |ls| ==> ls[k].to.Cell? && ls[k].to.l != l
  {
  }

  lemma CellApart(m: Model, l: nat, i: nat, j: nat)
    requires AtCell(m, l, i, j)
    ensures Apart(Cell(l, i, j), NineLinks(m, l, i, j))
  {
    hide NineFlatLinks, NineRingLinks, VerticalLinks;
    FlatApart(m, l, i, j);
    VerticalApart(m, l, i, j);
    RingApart(m, l, i, j);
    var a, b, c := NineFlatLinks(m, l, i, j), VerticalLinks(m, l, i, j), NineRingLinks(m, l, i, j);
    JoinApart(Cell(l, i, j), a, b);
    JoinApart(Cell(l, i, j), a + b, c);
  }

  lemma SideApart(m: Model, l: nat, g: Group, s: Side, n: nat)
    requires m.Valid() && l < |m.layers|
    ensures var ls := SideLinks(m, l, g, s, n); Apart(Pack(g, s), ls) && forall k :: 0 <= k < |ls| ==> ls[k].to.Cell?
  {
    hide RingG, SideLinks;
  }

  lemma BondsApart(m: Model, g: Group, s: Side)
    requires m.Valid()
    ensures var ls := BondLinks(m, g, s); Apart(Pack(g, s), ls) && forall k :: 0 <= k < |ls| ==> ls[k].to.Pack?
  {
    hide G;
  }

  lemma PackApart(m: Model, g: Group, s: Side)
    requires m.Valid() && Active(m, g)
    ensures Apart(Pack(g, s), PackRow(m, g, s))
  {
    hide PackRow, SideLinks, BondLinks;
    PackRowRight(m, g, s);
    RingsMatch(m, 0, g);
    BondsApart(m, g, s);
    match LayerOf(m, g) {
      case None => JoinApart(Pack(g, s), [], BondLinks(m, g, s));
      case Some(l) =>
        SideApart(m, l, g, s, Along(m, s));
        JoinApart(Pack(g, s), SideLinks(m, l, g, s, Along(m, s)), BondLinks(m, g, s));
    }
  }

  lemma RowApart(m: Model, n: Node)
    requires m.Valid() && InNet(m, n)
    ensures Apart(n, RowLinks(m, n))
  {
    match n
    case Cell(l, i, j) => CellApart(m, l, i, j);
    case Pack(g, s) => PackApart(m, g, s);
  }

  // ----- no position is emitted twice

  ghost predicate Once(es: seq<Entry>) {
    forall i, j :: 0 <= i < j < |es| ==> es[i].row != es[j].row || es[i].col != es[j].col
  }

  /** A row has its own number throughout; towards other nodes its entries are negative. */
  lemma RowOnce(m: Model, n: Node)
    requires m.Valid() && InNet(m, n)
    ensures var es := RowEntries(m, n);
            && Once(es)
            && forall k :: 0 <= k < |es| ==>
                 es[k].row == Index(m, n) && (es[k].col != Index(m, n) ==> es[k].value < 0.0)
  {
    hide Index, RowLinks, LinkSum, RowAmbient, InNet, Links;
    var ls := RowLinks(m, n);
    RowLinksRight(m, n, seq(Size(m), _ => 0.0));
    RowApart(m, n);
    forall i, j | 0 <= i < j < |ls| ensures Index(m, ls[i].to) != Index(m, ls[j].to) {
      if Index(m, ls[i].to) == Index(m, ls[j].to) { IndexUnique(m, ls[i].to, ls[j].to); }
    }
    forall i | 0 <= i < |ls| ensures Index(m, ls[i].to) != Index(m, n) {
      if Index(m, ls[i].to) == Index(m, n) { IndexUnique(m, ls[i].to, n); }
    }
  }

  /** The assembly emits every position of the matrix at most once. */
  lemma {:induction false} EntriesOnce(m: Model, k: nat)
    requires m.Valid() && k <= Size(m)
    ensures Once(EntriesTo(m, k))
    ensures forall e :: e in EntriesTo(m, k) && e.col != e.row ==> e.value < 0.0
    decreases k
  {
    hide RowEntries, NodeAt, Turn, InNet, Index;
    if k > 0 {
      NodeRight(m, k - 1);
      var x := NodeAt(m, k - 1);
      var before, row := EntriesTo(m, k - 1), RowEntries(m, x);
      EntriesOnce(m, k - 1);
      RowOnce(m, x);
      forall i, j | 0 <= i < |before| && 0 <= j < |row| ensures before[i].row != row[j].row {
        var n := EntryRow(m, k - 1, before[i]);
        RowOnce(m, n);
        if Index(m, n) == Index(m, x) { IndexUnique(m, n, x); }
      }
    }
  }

  // ----- the matrix

  /** The matrix entry at a position: what was emitted there, added up. */
  ghost function EntryAt(es: seq<Entry>, r: int, c: int): real {
    if es == [] then 0.0
    else
      var e := es[|es| - 1];
      EntryAt(es[..|es| - 1], r, c) + if e.row == r && e.col == c then e.value else 0.0
  }

  lemma {:induction false} EntryNone(es: seq<Entry>, r: int, c: int)
    requires forall k :: 0 <= k < |es| ==> es[k].row != r || es[k].col != c
    ensures EntryAt(es, r, c) == 0.0
    decreases |es|
  {
    if es != [] { EntryNone(es[..|es| - 1], r, c); }
  }

  lemma {:induction false} EntryOnce(es: seq<Entry>, k: nat)
    requires Once(es) && k < |es|
    ensures EntryAt(es, es[k].row, es[k].col) == es[k].value
    decreases |es|
  {
    var front := es[..|es| - 1];
    if k == |es| - 1 {
      EntryNone(front, es[k].row, es[k].col);
    } else {
      EntryOnce(front, k);
    }
  }

  /** A position either holds one emitted entry or nothing. */
  lemma EntryFound(es: seq<Entry>, r: int, c: int) returns (k: nat)
    requires Once(es) && EntryAt(es, r, c) != 0.0
    ensures k < |es| && es[k].row == r && es[k].col == c && es[k].value == EntryAt(es, r, c)
  {
    if i: nat :| i < |es| && es[i].row == r && es[i].col == c {
      EntryOnce(es, i);
      k := i;
    } else {
      EntryNone(es, r, c);
      assert false;
    }
  }

  /** Where something is emitted, the mirrored position holds the same. */
  lemma MirroredEntry(m: Model, r: int, c: int)
    requires m.Valid() && EntryAt(EntriesTo(m, Size(m)), r, c) != 0.0
    ensures EntryAt(EntriesTo(m, Size(m)), c, r) == EntryAt(EntriesTo(m, Size(m)), r, c)
  {
    hide EntriesTo, EntryAt, Once;
    var es := EntriesTo(m, Size(m));
    EntriesOnce(m, Size(m));
    var k := EntryFound(es, r, c);
    Symmetric(m, es[k]);
    var p: nat :| p < |es| && es[p] == Entry(es[k].col, es[k].row, es[k].value);
    EntryOnce(es, p);
  }

  /** The matrix is symmetric. */
  lemma MatrixSymmetric(m: Model, r: int, c: int)
    requires m.Valid()
    ensures EntryAt(EntriesTo(m, Size(m)), r, c) == EntryAt(EntriesTo(m, Size(m)), c, r)
  {
    hide EntriesTo, EntryAt;
    if EntryAt(EntriesTo(m, Size(m)), r, c) != 0.0 {
      MirroredEntry(m, r, c);
    } else if EntryAt(EntriesTo(m, Size(m)), c, r) != 0.0 {
      MirroredEntry(m, c, r);
    }
  }

  // ----- products with the matrix

  ghost function EntryTerm(es: seq<Entry>, t: seq<real>, r: int): int -> real {
    j => EntryAt(es, r, j) * Lup.At(t, j)
  }

  lemma EntryTermStep(es: seq<Entry>, t: seq<real>, r: int, j: int)
    requires es != []
    ensures var e := es[|es| - 1];
            EntryTerm(es, t, r)(j) ==
            EntryTerm(es[..|es| - 1], t, r)(j) + if e.row == r && e.col == j then Times(e.value, Lup.At(t, j)) else 0.0
  {
  }

  lemma SumSingle(n: nat, k: nat, f: int -> real)
    requires k < n && forall i :: 0 <= i < n && i != k ==> f(i) == 0.0
    ensures Sum(n, f) == f(k)
  {
    SumTail(n, k + 1, f);
    SumZero(k, f);
  }

  /** The product row by row is the product by positions. */
  lemma {:induction false} ProductIsSum(m: Model, es: seq<Entry>, r: nat, t: seq<real>)
    requires Temps(m, t) && Bounded(m, es)
    ensures Sum(Size(m), EntryTerm(es, t, r)) == RowProduct(m, es, r, t)
    decreases |es|
  {
    hide Times, Size, EntryTerm, Sum;
    if es == [] {
      forall j | 0 <= j < Size(m) ensures EntryTerm(es, t, r)(j) == 0.0 { NoTerm(t, r, j); }
      SumZero(Size(m), EntryTerm(es, t, r));
    } else {
      var front, e := es[..|es| - 1], es[|es| - 1];
      ProductIsSum(m, front, r, t);
      var single := (j: int) => if e.row == r && e.col == j then Times(e.value, Lup.At(t, j)) else 0.0;
      SumSingle(Size(m), e.col, single);
      SumAdd(Size(m), EntryTerm(front, t, r), single);
      forall j | 0 <= j < Size(m) ensures EntryTerm(es, t, r)(j) == EntryTerm(front, t, r)(j) + single(j) {
        EntryTermStep(es, t, r, j);
      }
      SumEqual(Size(m), EntryTerm(es, t, r), j => EntryTerm(front, t, r)(j) + single(j));
    }
  }

  lemma NoTerm(t: seq<real>, r: int, j: int)
    ensures EntryTerm([], t, r)(j) == 0.0
  {
  }

  // ----- nodes by their place

  const GroupsInPlace: seq<Group> := [Sp, SinkC, Sink, Sub, Solder, PcbC, Pcb]
  const SidesInPlace: seq<Side> := [West, East, North, South]

  function NodeOf(m: Model, k: nat): Node
    requires m.Valid() && k < Size(m)
  {
    if k < Cells(m) then NodeAt(m, k) else Pack(GroupsInPlace[(k - Cells(m)) / 4], SidesInPlace[(k - Cells(m)) % 4])
  }

  lemma NodeOfRight(m: Model, k: nat)
    requires m.Valid() && k < Size(m)
    ensures InNet(m, NodeOf(m, k)) && Index(m, NodeOf(m, k)) == k
  {
    hide Cells;
    if k < Cells(m) { NodeRight(m, k); }
  }

  lemma OfIndex(m: Model, n: Node)
    requires m.Valid() && InNet(m, n)
    ensures Index(m, n) < Size(m) && NodeOf(m, Index(m, n)) == n
  {
    hide Index, NodeOf, Size, InNet;
    IndexBelow(m, n);
    NodeOfRight(m, Index(m, n));
    IndexUnique(m, NodeOf(m, Index(m, n)), n);
  }

  // ----- a grounded conduction network

  ghost function Entries(m: Model): seq<Entry>
    requires m.Valid()
  {
    EntriesTo(m, Size(m))
  }

  ghost function Dense(m: Model): LupMatrix.Matrix
    requires m.Valid()
  {
    seq(Size(m), r => seq(Size(m), c => EntryAt(Entries(m), r, c)))
  }

  ghost function Ambients(m: Model): (a: seq<real>)
    requires m.Valid()
    ensures |a| == Size(m)
  {
    seq(Size(m), k requires 0 <= k < Size(m) => AmbientOf(m, k))
  }

  ghost function AmbientOf(m: Model, k: nat): real
    requires m.Valid() && k < Size(m)
  {
    NodeOfRight(m, k);
    Ambient(m, NodeOf(m, k))
  }

  lemma DenseAt(m: Model, r: int, c: int)
    requires m.Valid() && 0 <= r < Size(m) && 0 <= c < Size(m)
    ensures LupMatrix.Square(Dense(m), Size(m)) && Dense(m)[r][c] == EntryAt(Entries(m), r, c)
    ensures LupMatrix.Get(Dense(m), r, c) == EntryAt(Entries(m), r, c)
  {
    hide Entries, EntryAt, Size;
  }

  /** A row of the dense matrix times a vector is the row's balance of heat. */
  lemma DenseRow(m: Model, n: Node, t: seq<real>)
    requires Temps(m, t) && InNet(m, n)
    ensures Sound(m, Links(m, n))
    ensures Sum(Size(m), Lup.RowTerm(Dense(m), t, Index(m, n))) ==
            Times(TotalG(m, n), At(m, t, n)) - Weighted(m, Links(m, n), t)
  {
    hide EntriesTo, EntryAt, Dense, Size, Index, Turn, TotalG, Weighted, Links, Times, Sum, RowProduct, Bounded, At;
    var es, r := Entries(m), Index(m, n);
    IndexBelow(m, n);
    TurnRight(m, n);
    EntriesProduct(m, Size(m), n, t);
    ProductIsSum(m, es, r, t);
    forall j | 0 <= j < Size(m) ensures Lup.RowTerm(Dense(m), t, r)(j) == EntryTerm(es, t, r)(j) { DenseAt(m, r, j); }
    SumEqual(Size(m), Lup.RowTerm(Dense(m), t, r), EntryTerm(es, t, r));
  }

  lemma {:induction false} WeightedOnes(m: Model, ls: seq<Link>, t: seq<real>)
    requires Temps(m, t) && Sound(m, ls) && forall k :: 0 <= k < |t| ==> t[k] == 1.0
    ensures Weighted(m, ls, t) == LinkSum(ls)
    decreases |ls|
  {
    hide Index, Size, InNet;
    if ls != [] {
      WeightedOnes(m, ls[..|ls| - 1], t);
      AtPlace(m, t, ls[|ls| - 1].to);
    }
  }

  /** The row of a node sums to its conductance to the ambient. */
  lemma RowSum(m: Model, n: Node)
    requires m.Valid() && InNet(m, n)
    ensures Sum(Size(m), Conduction.RowEntry(Dense(m), Index(m, n))) == Ambient(m, n)
  {
    hide Dense, Size, Index, Weighted, Links, Sum, Ambient, LinkSum, At;
    var ones, r := seq(Size(m), _ => 1.0), Index(m, n);
    DenseRow(m, n, ones);
    WeightedOnes(m, Links(m, n), ones);
    AtPlace(m, ones, n);
    SumEqual(Size(m), Lup.RowTerm(Dense(m), ones, r), Conduction.RowEntry(Dense(m), r));
  }

  lemma GridConductive(m: Model)
    requires m.Valid()
    ensures Conduction.Conductive(Dense(m), Ambients(m), Size(m))
  {
    hide Dense, EntriesTo, EntryAt, Size, Index, Ambient, Sum, Conduction.RowEntry, NodeOf, Once;
    NodesExist(m);
    DenseAt(m, 0, 0);
    var b := Dense(m);
    forall i, j | 0 <= i < Size(m) && 0 <= j < Size(m) ensures b[i][j] == b[j][i] {
      DenseAt(m, i, j);
      DenseAt(m, j, i);
      MatrixSymmetric(m, i, j);
    }
    EntriesOnce(m, Size(m));
    forall i, j | 0 <= i < Size(m) && 0 <= j < Size(m) && i != j ensures b[i][j] <= 0.0 {
      DenseAt(m, i, j);
      if EntryAt(Entries(m), i, j) != 0.0 { var k := EntryFound(Entries(m), i, j); }
    }
    forall i: nat | i < Size(m)
      ensures Ambients(m)[i] >= 0.0 && Sum(Size(m), Conduction.RowEntry(Dense(m), i)) == Ambients(m)[i]
    {
      NodeOfRight(m, i);
      AmbientNonnegative(m, NodeOf(m, i));
      RowSum(m, NodeOf(m, i));
    }
  }

  lemma NodesExist(m: Model)
    requires m.Valid()
    ensures Size(m) > 0
  {
  }

  /** Neighbours are joined in the matrix. */
  lemma LinkInMatrix(m: Model, a: Node, x: Link)
    requires m.Valid() && InNet(m, a) && x in Links(m, a)
    ensures InNet(m, x.to) && Index(m, a) < Size(m) && Index(m, x.to) < Size(m) && Index(m, x.to) != Index(m, a)
    ensures LupMatrix.Square(Dense(m), Size(m)) && Dense(m)[Index(m, a)][Index(m, x.to)] < 0.0
  {
    hide Dense, EntriesTo, EntryAt, Size, Index, Links, LinkSum, RowLinks, Once, InNet, Turn, RowAmbient;
    LinksSound(m, a);
    IndexBelow(m, a);
    IndexBelow(m, x.to);
    RowLinksRight(m, a, seq(Size(m), _ => 0.0));
    RowApart(m, a);
    if Index(m, x.to) == Index(m, a) { IndexUnique(m, x.to, a); }
    var ls := RowLinks(m, a);
    var k :| 0 <= k < |ls| && ls[k] == x;
    var e := RowEntries(m, a)[k];
    assert e == Entry(Index(m, a), Index(m, x.to), -x.c);
    TurnRight(m, a);
    RowIncluded(m, Size(m), a, e);
    var es := Entries(m);
    var p: nat :| p < |es| && es[p] == e;
    EntriesOnce(m, Size(m));
    EntryOnce(es, p);
    DenseAt(m, Index(m, a), Index(m, x.to));
  }

  ghost predicate Reaches(m: Model, n: Node, k: nat)
    requires m.Valid() && InNet(m, n)
  {
    GridConductive(m);
    IndexBelow(m, n);
    Conduction.Grounded(Dense(m), Ambients(m), Size(m), Index(m, n), k)
  }

  lemma AmbientReached(m: Model, n: Node, k: nat)
    requires m.Valid() && InNet(m, n) && Ambient(m, n) > 0.0
    ensures Reaches(m, n, k)
  {
    hide Dense, Size, Index, Ambient, NodeOf, InNet, Conduction.Conductive;
    GridConductive(m);
    OfIndex(m, n);
  }

  lemma StepReaches(m: Model, n: Node, x: Link, k: nat)
    requires m.Valid() && InNet(m, n) && x in Links(m, n) && InNet(m, x.to) && Reaches(m, x.to, k)
    ensures Reaches(m, n, k + 1)
  {
    hide Dense, Size, Index, Ambient, NodeOf, InNet, Conduction.Conductive, Links;
    GridConductive(m);
    IndexBelow(m, n);
    IndexBelow(m, x.to);
    LinkInMatrix(m, n, x);
  }

  /** A cell reaches the ambient through the cells below it and the sink. */
  lemma {:induction false} CellReaches(m: Model, l: nat, i: nat, j: nat)
    requires AtCell(m, l, i, j)
    ensures Reaches(m, Cell(l, i, j), |m.layers| - 1 - l)
    decreases |m.layers| - l
  {
    hide Reaches, Links;
    var n := Cell(l, i, j);
    if l == |m.layers| - 1 {
      AmbientReached(m, n, 0);
    } else {
      var x := Link(Cell(l + 1, i, j), G(m.layers[l].rz));
      CellMembers(m, l, i, j, x);
      LinksRight(m, n, x);
      CellReaches(m, l + 1, i, j);
      StepReaches(m, n, x, |m.layers| - 2 - l);
    }
  }

  /** From a package node to the ambient. */
  function Steps(g: Group): nat { if g == Sub then 2 else if g == Sp || g == Solder then 1 else 0 }

  lemma PackReaches(m: Model, g: Group, s: Side)
    requires m.Valid() && Active(m, g)
    ensures Reaches(m, Pack(g, s), Steps(g))
    decreases Steps(g)
  {
    hide Reaches, Links;
    var n := Pack(g, s);
    if g == Sp || g == Solder || g == Sub {
      var k := if g == Solder then 1 else 0;
      var x := BondLink(m, g, s, k);
      BondsPositive(m.pack, g);
      LinksRight(m, n, x);
      PackReaches(m, x.to.g, s);
      StepReaches(m, n, x, Steps(g) - 1);
    } else {
      AmbientReached(m, n, 0);
    }
  }

  /** Every node reaches the ambient, in fewer steps than there are layers or in two. */
  lemma GridGrounded(m: Model)
    requires m.Valid()
    ensures Conduction.Conductive(Dense(m), Ambients(m), Size(m))
    ensures forall i :: 0 <= i < Size(m) ==> Conduction.Grounded(Dense(m), Ambients(m), Size(m), i, |m.layers|)
  {
    hide Dense, Size, Index, NodeOf, Conduction.Conductive, Conduction.Grounded;
    GridConductive(m);
    forall i | 0 <= i < Size(m) ensures Conduction.Grounded(Dense(m), Ambients(m), Size(m), i, |m.layers|) {
      NodeOfRight(m, i);
      var n := NodeOf(m, i);
      var k := match n case Cell(l, _, _) => |m.layers| - 1 - l
                       case Pack(g, _) => Steps(g);
      match n {
        case Cell(l, r, c) => CellReaches(m, l, r, c);
        case Pack(g, s) => PackReaches(m, g, s);
      }
      Conduction.MoreHops(Dense(m), Ambients(m), Size(m), i, k, |m.layers|);
    }
  }

  // ----- the steady state

  ghost function RhsVector(m: Model, power: seq<real>, ambient: real): (b: seq<real>)
    requires Temps(m, power)
    ensures |b| == Size(m)
  {
    seq(Size(m), k requires 0 <= k < Size(m) => RhsOf(m, power, ambient, k))
  }

  ghost function RhsOf(m: Model, power: seq<real>, ambient: real, k: nat): real
    requires Temps(m, power) && k < Size(m)
  {
    NodeOfRight(m, k);
    Rhs(m, power, ambient, NodeOf(m, k))
  }

  /** A fixed point of the sweep solves the system. */
  lemma SteadySolves(m: Model, power: seq<real>, ambient: real, t: seq<real>)
    requires Temps(m, t) && Temps(m, power)
    ensures FixedPoint(m, power, ambient, t) <==> Lup.Solves(Dense(m), t, RhsVector(m, power, ambient), Size(m))
  {
    hide Dense, Size, Index, NodeOf, Balanced, Rhs, Sum, TotalG, At, Weighted, Links, Times, InNet, Lup.RowTerm;
    var b := RhsVector(m, power, ambient);
    forall n | InNet(m, n)
      ensures Index(m, n) < Size(m)
      ensures Balanced(m, power, ambient, t, n) <==>
              Sum(Size(m), Lup.RowTerm(Dense(m), t, Index(m, n))) == b[Index(m, n)]
    {
      OfIndex(m, n);
      DenseRow(m, n, t);
      BalancedIff(m, power, ambient, t, n);
    }
    forall k: nat | k < Size(m) ensures InNet(m, NodeOf(m, k)) && Index(m, NodeOf(m, k)) == k { NodeOfRight(m, k); }
  }

  /** There is one steady state at most: the fixed point that no sweep leads away from is the only one. */
  lemma SteadyUnique(m: Model, power: seq<real>, ambient: real, t: seq<real>, u: seq<real>)
    requires Temps(m, t) && Temps(m, u) && Temps(m, power)
    requires FixedPoint(m, power, ambient, t) && FixedPoint(m, power, ambient, u)
    ensures t == u
  {
    hide Dense, Size, Conduction.Conductive, Conduction.Grounded, FixedPoint, Lup.Solves, RhsVector;
    SteadySolves(m, power, ambient, t);
    SteadySolves(m, power, ambient, u);
    GridGrounded(m);
    Conduction.UniqueSolution(Dense(m), Ambients(m), Size(m), t, u, RhsVector(m, power, ambient), |m.layers|);
  }

  ghost function Sources(m: Model, power: seq<real>): (q: seq<real>)
    requires Temps(m, power)
    ensures |q| == Size(m)
  {
    seq(Size(m), k requires 0 <= k < Size(m) => if k < Cells(m) then power[k] else 0.0)
  }

  lemma RhsParts(m: Model, power: seq<real>, ambient: real, k: nat)
    requires Temps(m, power) && k < Size(m)
    ensures RhsVector(m, power, ambient)[k] == Sources(m, power)[k] + ambient * Ambients(m)[k]
  {
    hide Size, Ambient, Index, Cells;
    NodeOfRight(m, k);
    var n := NodeOf(m, k);
    if n.Cell? { CellBelow(m, n); AtPlace(m, power, n); }
    TimesCommutes(Ambient(m, n), ambient);
  }

  /** Steady state: the heat that flows to the ambient is the power of the cells; and where no cell is cooled no
      node is below the ambient. */
  lemma SteadyHeat(m: Model, power: seq<real>, ambient: real, t: seq<real>)
    requires Temps(m, t) && Temps(m, power) && FixedPoint(m, power, ambient, t)
    ensures Sum(Size(m), i => Lup.At(Ambients(m), i) * Lup.At(Conduction.Shifted(t, ambient), i)) ==
            Sum(Cells(m), i => Lup.At(power, i))
    ensures (forall k :: 0 <= k < Cells(m) ==> power[k] >= 0.0) ==> forall k :: 0 <= k < Size(m) ==> t[k] >= ambient
  {
    hide Dense, Conduction.Conductive, Conduction.Grounded, FixedPoint, Lup.Solves, RhsVector, Ambients, Sum, Cells;
    var b, q, shifted := Dense(m), Sources(m, power), Conduction.Shifted(t, ambient);
    SteadySolves(m, power, ambient, t);
    GridGrounded(m);
    forall i | 0 <= i < Size(m) ensures RhsVector(m, power, ambient)[i] == q[i] + ambient * Ambients(m)[i] {
      RhsParts(m, power, ambient, i);
    }
    Conduction.FromAmbient(b, Ambients(m), Size(m), t, q, RhsVector(m, power, ambient), ambient);
    Conduction.HeatConserved(b, Ambients(m), Size(m), shifted, q);
    SumTail(Size(m), Cells(m), i => Lup.At(q, i));
    SumEqual(Cells(m), i => Lup.At(q, i), i => Lup.At(power, i));
    if forall k :: 0 <= k < Cells(m) ==> power[k] >= 0.0 {
      Conduction.MinimumPrinciple(b, Ambients(m), Size(m), shifted, q, |m.layers|);
    }
  }
}
