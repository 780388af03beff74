/** The steady-state sweep of the grid solver: every node in turn takes the temperature that balances its heat
    flows, in place. Its fixed points, and why it cannot lead away from them. */
module GridSweep {
  import opened Compass
  import opened RealFunctions
  import opened GridNetwork

  // ----- places in the temperature vector

  function GroupNumber(g: Group): nat {
    match g
    case Sp => 0
    case SinkC => 1
    case Sink => 2
    case Sub => 3
    case Solder => 4
    case PcbC => 5
    case Pcb => 6
  }

  function SideNumber(s: Side): nat {
    match s
    case West => 0
    case East => 1
    case North => 2
    case South => 3
  }

  function Cells(m: Model): nat { |m.layers| * m.rows * m.cols }

  function Size(m: Model): nat { Cells(m) + if m.secondary then 28 else 12 }

  /** Cells layer by layer and row by row, then the package nodes. */
  function Index(m: Model, n: Node): nat {
    match n
    case Cell(l, i, j) => (l * m.rows + i) * m.cols + j
    case Pack(g, s) => Cells(m) + 4 * GroupNumber(g) + SideNumber(s)
  }

  lemma RadixBound(q: nat, r: nat, a: nat, b: nat)
    requires q < a && r < b
    ensures q * b + r < a * b
  {
    assert (q + 1) * b <= a * b;
  }

  lemma RadixUnique(q: nat, r: nat, q2: nat, r2: nat, b: nat)
    requires r < b && r2 < b && q * b + r == q2 * b + r2
    ensures q == q2 && r == r2
  {
    if q < q2 { RadixBound(q, r, q2, b); }
    if q2 < q { RadixBound(q2, r2, q, b); }
  }

  lemma CellBelow(m: Model, n: Node)
    requires m.Valid() && InNet(m, n) && n.Cell?
    ensures Index(m, n) < Cells(m)
  {
    RadixBound(n.l, n.i, |m.layers|, m.rows);
    RadixBound(n.l * m.rows + n.i, n.j, |m.layers| * m.rows, m.cols);
  }

  lemma IndexBelow(m: Model, n: Node)
    requires m.Valid() && InNet(m, n)
    ensures Index(m, n) < Size(m)
  {
    if n.Cell? { CellBelow(m, n); }
  }

  /** No two nodes share a place. */
  lemma IndexUnique(m: Model, a: Node, b: Node)
    requires m.Valid() && InNet(m, a) && InNet(m, b) && Index(m, a) == Index(m, b)
    ensures a == b
  {
    if a.Cell? { CellBelow(m, a); }
    if b.Cell? { CellBelow(m, b); }
    if a.Cell? && b.Cell? {
      RadixUnique(a.l * m.rows + a.i, a.j, b.l * m.rows + b.i, b.j, m.cols);
      RadixUnique(a.l, a.i, b.l, b.i, m.rows);
    }
  }

  ghost predicate Temps(m: Model, t: seq<real>) { m.Valid() && |t| == Size(m) }

  function At(m: Model, t: seq<real>, n: Node): real
    requires Temps(m, t) && InNet(m, n)
  {
    IndexBelow(m, n);
    t[Index(m, n)]
  }

  // ----- sums over neighbours

  function LinkSum(ls: seq<Link>): real {
    if ls == [] then 0.0 else LinkSum(ls[..|ls| - 1]) + ls[|ls| - 1].c
  }

  ghost predicate Sound(m: Model, ls: seq<Link>) {
    forall k :: 0 <= k < |ls| ==> InNet(m, ls[k].to) && ls[k].c > 0.0
  }

  /** Temperatures weighted by conductances. */
  function Weighted(m: Model, ls: seq<Link>, t: seq<real>): real
    requires Temps(m, t) && Sound(m, ls)
  {
    if ls == [] then 0.0 else Weighted(m, ls[..|ls| - 1], t) + Times(ls[|ls| - 1].c, At(m, t, ls[|ls| - 1].to))
  }

  lemma {:induction false} SumsConcat(m: Model, a: seq<Link>, b: seq<Link>, t: seq<real>)
    requires Temps(m, t) && Sound(m, a) && Sound(m, b)
    ensures Sound(m, a + b) && LinkSum(a + b) == LinkSum(a) + LinkSum(b)
        && Weighted(m, a + b, t) == Weighted(m, a, t) + Weighted(m, b, t)
    decreases |b|
  {
    hide Times, At, InNet;
    if b == [] {
      assert a + b == a;
    } else {
      assert (a + b)[..|a + b| - 1] == a + b[..|b| - 1];
      SumsConcat(m, a, b[..|b| - 1], t);
    }
  }

  lemma {:induction false} LinkSumPositive(m: Model, ls: seq<Link>)
    requires Sound(m, ls)
    ensures LinkSum(ls) >= 0.0 && (ls != [] ==> LinkSum(ls) > 0.0)
    decreases |ls|
  {
    hide InNet;
    if ls != [] { LinkSumPositive(m, ls[..|ls| - 1]); }
  }

  // ----- relaxing one node

  /** Power enters at cells only. */
  function PowerAt(m: Model, power: seq<real>, n: Node): real
    requires Temps(m, power) && InNet(m, n)
  {
    if n.Cell? then At(m, power, n) else 0.0
  }

  function TotalG(m: Model, n: Node): real
    requires m.Valid() && InNet(m, n)
  {
    LinkSum(Links(m, n)) + Ambient(m, n)
  }

  lemma TotalGPositive(m: Model, n: Node)
    requires m.Valid() && InNet(m, n)
    ensures Sound(m, Links(m, n)) && TotalG(m, n) > 0.0
  {
    hide Links, Ambient;
    LinksSound(m, n);
    LinkSumPositive(m, Links(m, n));
    AmbientNonnegative(m, n);
  }

  /** Heat that flows in from neighbours, ambient and power, less what a temperature of zero would lose. */
  function Inflow(m: Model, power: seq<real>, ambient: real, t: seq<real>, n: Node): real
    requires Temps(m, t) && Temps(m, power) && InNet(m, n)
  {
    TotalGPositive(m, n);
    PowerAt(m, power, n) + Weighted(m, Links(m, n), t) + Times(Ambient(m, n), ambient)
  }

  /** The temperature that balances a node. */
  function Relaxed(m: Model, power: seq<real>, ambient: real, t: seq<real>, n: Node): real
    requires Temps(m, t) && Temps(m, power) && InNet(m, n)
  {
    TotalGPositive(m, n);
    Inflow(m, power, ambient, t, n) / TotalG(m, n)
  }

  ghost predicate Balanced(m: Model, power: seq<real>, ambient: real, t: seq<real>, n: Node)
    requires Temps(m, t) && Temps(m, power) && InNet(m, n)
  {
    At(m, t, n) == Relaxed(m, power, ambient, t, n)
  }

  ghost predicate FixedPoint(m: Model, power: seq<real>, ambient: real, t: seq<real>)
    requires Temps(m, t) && Temps(m, power)
  {
    forall n :: InNet(m, n) ==> Balanced(m, power, ambient, t, n)
  }

  // ----- relaxation does not lead away from a fixed point

  ghost predicate Within(m: Model, t: seq<real>, u: seq<real>, d: real)
    requires Temps(m, t) && Temps(m, u)
  {
    forall n :: InNet(m, n) ==> Close(At(m, t, n), At(m, u, n), d)
  }

  predicate Close(x: real, y: real, d: real) { -d <= x - y <= d }

  lemma CloseScaled(c: real, x: real, y: real, d: real)
    requires c >= 0.0 && Close(x, y, d)
    ensures Close(Times(c, x), Times(c, y), Times(c, d))
  {
    assert Times(c, x) - Times(c, y) == c * (x - y);
    assert c * (x - y) <= c * d && c * (x - y) >= c * -d;
  }

  lemma {:induction false} WeightedClose(m: Model, ls: seq<Link>, t: seq<real>, u: seq<real>, d: real)
    requires Temps(m, t) && Temps(m, u) && Sound(m, ls) && Within(m, t, u, d)
    ensures Close(Weighted(m, ls, t), Weighted(m, ls, u), Times(LinkSum(ls), d))
    decreases |ls|
  {
    hide Times, At, InNet;
    if ls == [] {
      TimesZero(d);
    } else {
      var front, x := ls[..|ls| - 1], ls[|ls| - 1];
      WeightedClose(m, front, t, u, d);
      CloseScaled(x.c, At(m, t, x.to), At(m, u, x.to), d);
      TimesAdds(LinkSum(front), x.c, d);
    }
  }

  lemma QuotientClose(x: real, y: real, s: real, g: real, d: real)
    requires Close(x, y, Times(s, d)) && 0.0 <= s <= g && g > 0.0 && d >= 0.0
    ensures Close(x / g, y / g, d)
  {
    ScaledAtMost(s, g, d);
    var q := x / g - y / g;
    assert q * g == x - y;
    if q > d { Larger(q, d, g); }
    if q < -d { Larger(-q, d, g); }
  }

  lemma ScaledAtMost(s: real, g: real, d: real)
    requires s <= g && d >= 0.0
    ensures Times(s, d) <= Times(g, d)
  {
  }

  lemma Larger(a: real, b: real, g: real)
    requires a > b && g > 0.0
    ensures a * g > Times(g, b)
  {
  }

  /** The relaxed temperature of a node is at most as far from a fixed point as its neighbours are. */
  lemma RelaxedClose(m: Model, power: seq<real>, ambient: real, t: seq<real>, u: seq<real>, d: real, n: Node)
    requires Temps(m, t) && Temps(m, u) && Temps(m, power) && InNet(m, n) && Within(m, t, u, d) && d >= 0.0
    ensures Close(Relaxed(m, power, ambient, t, n), Relaxed(m, power, ambient, u, n), d)
  {
    hide Times, Links, Ambient, PowerAt, LinkSum, Weighted, At;
    TotalGPositive(m, n);
    AmbientNonnegative(m, n);
    LinkSumPositive(m, Links(m, n));
    WeightedClose(m, Links(m, n), t, u, d);
    QuotientClose(Inflow(m, power, ambient, t, n), Inflow(m, power, ambient, u, n), LinkSum(Links(m, n)),
        TotalG(m, n), d);
  }

  // ----- the order of the sweep

  const PackOrder: seq<Group> := [Sink, SinkC, Sp, Pcb, PcbC, Solder, Sub]
  const SideOrder: seq<Side> := [North, South, West, East]

  function PlaceOf(g: Group): nat {
    match g
    case Sink => 0
    case SinkC => 1
    case Sp => 2
    case Pcb => 3
    case PcbC => 4
    case Solder => 5
    case Sub => 6
  }

  function SidePlace(s: Side): nat {
    match s
    case North => 0
    case South => 1
    case West => 2
    case East => 3
  }

  /** The `k`-th node to be relaxed: the cells in order, then the package nodes from the outside in. */
  function NodeAt(m: Model, k: nat): Node
    requires m.Valid() && k < Size(m)
  {
    if k < Cells(m) then Cell(k / m.cols / m.rows, k / m.cols % m.rows, k % m.cols)
    else Pack(PackOrder[(k - Cells(m)) / 4], SideOrder[(k - Cells(m)) % 4])
  }

  /** When a node's turn comes. */
  function Turn(m: Model, n: Node): nat {
    match n
    case Cell(_, _, _) => Index(m, n)
    case Pack(g, s) => Cells(m) + 4 * PlaceOf(g) + SidePlace(s)
  }

  lemma DivMod(q: nat, r: nat, b: nat)
    requires r < b
    ensures (q * b + r) / b == q && (q * b + r) % b == r
  {
    var k := q * b + r;
    RadixUnique(k / b, k % b, q, r, b);
  }

  lemma CellAt(m: Model, l: nat, i: nat, j: nat)
    requires m.Valid() && l < |m.layers| && i < m.rows && j < m.cols
    ensures Index(m, Cell(l, i, j)) < Cells(m) && NodeAt(m, Index(m, Cell(l, i, j))) == Cell(l, i, j)
  {
    CellBelow(m, Cell(l, i, j));
    DivMod(l * m.rows + i, j, m.cols);
    DivMod(l, i, m.rows);
  }

  /** Every node has exactly one turn. */
  lemma TurnRight(m: Model, n: Node)
    requires m.Valid() && InNet(m, n)
    ensures Turn(m, n) < Size(m) && NodeAt(m, Turn(m, n)) == n
  {
    if n.Cell? { CellAt(m, n.l, n.i, n.j); }
  }

  lemma NodeRight(m: Model, k: nat)
    requires m.Valid() && k < Size(m)
    ensures InNet(m, NodeAt(m, k)) && Turn(m, NodeAt(m, k)) == k
  {
    if k < Cells(m) {
      var row := k / m.cols;
      DivBack(k, m.cols);
      DivBack(row, m.rows);
      CellNumber(row / m.rows, row % m.rows, k % m.cols, |m.layers|, m.rows, m.cols);
    } else {
      PackTurn(m, k - Cells(m));
    }
  }

  lemma DivBack(k: nat, b: nat)
    requires b > 0
    ensures k / b * b + k % b == k && k % b < b
  {
  }

  lemma CellNumber(l: nat, i: nat, j: nat, layers: nat, rows: nat, cols: nat)
    requires i < rows && j < cols && (l * rows + i) * cols + j < layers * rows * cols
    ensures l < layers
  {
    RowBelow(l * rows + i, layers * rows, cols, (l * rows + i) * cols + j);
    RowBelow(l, layers, rows, l * rows + i);
  }

  lemma PackTurn(m: Model, k: nat)
    requires k < if m.secondary then 28 else 12
    ensures var g, s := PackOrder[k / 4], SideOrder[k % 4]; Active(m, g) && 4 * PlaceOf(g) + SidePlace(s) == k
  {
  }

  lemma RowBelow(q: nat, a: nat, b: nat, k: nat)
    requires b > 0 && q * b <= k < a * b
    ensures q < a
  {
    if q >= a { ProductMonotone(a, q, b); }
  }

  lemma ProductMonotone(a: nat, q: nat, b: nat)
    requires a <= q
    ensures a * b <= q * b
  {
  }

  lemma MulStep(a: int, b: int)
    ensures (a + 1) * b == a * b + b && 0 * b == 0
  {
  }

  lemma RowPlace(m: Model, l: nat, i: nat)
    requires m.Valid() && l < |m.layers| && i < m.rows
    ensures Index(m, Cell(l, i, 0)) == (l * m.rows + i) * m.cols
    ensures Index(m, Cell(l, i, 0)) + m.cols == (l * m.rows + i + 1) * m.cols <= Cells(m)
  {
    RadixBound(l, i, |m.layers|, m.rows);
    ProductMonotone(l * m.rows + i + 1, |m.layers| * m.rows, m.cols);
    MulStep(l * m.rows + i, m.cols);
  }

  lemma LayerPlace(m: Model, l: nat)
    requires m.Valid() && l < |m.layers|
    ensures (l * m.rows + m.rows) * m.cols == (l + 1) * m.rows * m.cols <= Cells(m)
  {
    MulStep(l, m.rows);
    ProductMonotone(l + 1, |m.layers|, m.rows);
    ProductMonotone((l + 1) * m.rows, |m.layers| * m.rows, m.cols);
  }

  /** Number of the first cell of a row. */
  function RowFirst(m: Model, l: nat, i: nat): nat { (l * m.rows + i) * m.cols }

  lemma RowFirstAt(m: Model, l: nat, i: nat)
    requires m.Valid() && l < |m.layers| && i < m.rows
    ensures RowFirst(m, l, i) == Index(m, Cell(l, i, 0))
        && RowFirst(m, l, i) + m.cols == RowFirst(m, l, i + 1) <= Cells(m)
  {
    RowPlace(m, l, i);
  }

  lemma LayerFirsts(m: Model, l: nat)
    requires m.Valid() && l < |m.layers|
    ensures RowFirst(m, l, m.rows) == RowFirst(m, l + 1, 0) <= Cells(m)
    ensures RowFirst(m, 0, 0) == 0 && RowFirst(m, |m.layers|, 0) == Cells(m)
  {
    MulStep(l, m.rows);
    LayerPlace(m, l);
  }

  // ----- sweeps

  function Update(m: Model, power: seq<real>, ambient: real, t: seq<real>, n: Node): (u: seq<real>)
    requires Temps(m, t) && Temps(m, power) && InNet(m, n)
    ensures Temps(m, u)
  {
    IndexBelow(m, n);
    t[Index(m, n) := Relaxed(m, power, ambient, t, n)]
  }

  lemma UpdateAt(m: Model, power: seq<real>, ambient: real, t: seq<real>, n: Node, x: Node)
    requires Temps(m, t) && Temps(m, power) && InNet(m, n) && InNet(m, x)
    ensures At(m, Update(m, power, ambient, t, n), x) ==
            if x == n then Relaxed(m, power, ambient, t, n) else At(m, t, x)
  {
    hide Relaxed, Index, InNet;
    IndexBelow(m, n);
    IndexBelow(m, x);
    if Index(m, x) == Index(m, n) { IndexUnique(m, x, n); }
  }

  /** The temperatures after the first `k` relaxations of a sweep. */
  function Swept(m: Model, power: seq<real>, ambient: real, t: seq<real>, k: nat): (u: seq<real>)
    requires Temps(m, t) && Temps(m, power) && k <= Size(m)
    ensures Temps(m, u)
  {
    if k == 0 then t
    else
      NodeRight(m, k - 1);
      Update(m, power, ambient, Swept(m, power, ambient, t, k - 1), NodeAt(m, k - 1))
  }

  /** A sweep never takes the temperatures farther away from a fixed point. */
  lemma {:induction false} SweepCloses(m: Model, power: seq<real>, ambient: real, t: seq<real>, u: seq<real>, d: real,
      k: nat)
    requires Temps(m, t) && Temps(m, u) && Temps(m, power) && k <= Size(m)
    requires FixedPoint(m, power, ambient, u) && Within(m, t, u, d) && d >= 0.0
    ensures Within(m, Swept(m, power, ambient, t, k), u, d)
    decreases k
  {
    hide Relaxed, At, Update, NodeAt, InNet, Close;
    if k > 0 {
      var v, n := Swept(m, power, ambient, t, k - 1), NodeAt(m, k - 1);
      NodeRight(m, k - 1);
      SweepCloses(m, power, ambient, t, u, d, k - 1);
      forall x | InNet(m, x) ensures Close(At(m, Update(m, power, ambient, v, n), x), At(m, u, x), d) {
        UpdateAt(m, power, ambient, v, n, x);
        if x == n { RelaxedClose(m, power, ambient, v, u, d, n); }
      }
    }
  }

  lemma {:induction false} NotYet(m: Model, power: seq<real>, ambient: real, t: seq<real>, k: nat, n: Node)
    requires Temps(m, t) && Temps(m, power) && k <= Size(m) && InNet(m, n) && k <= Turn(m, n)
    ensures At(m, Swept(m, power, ambient, t, k), n) == At(m, t, n)
    decreases k
  {
    hide Relaxed, At, Update, NodeAt, InNet, Turn;
    if k > 0 {
      NotYet(m, power, ambient, t, k - 1, n);
      NodeRight(m, k - 1);
      UpdateAt(m, power, ambient, Swept(m, power, ambient, t, k - 1), NodeAt(m, k - 1), n);
    }
  }

  lemma {:induction false} DoneFor(m: Model, power: seq<real>, ambient: real, t: seq<real>, k: nat, n: Node)
    requires Temps(m, t) && Temps(m, power) && k <= Size(m) && InNet(m, n) && Turn(m, n) < k
    ensures Turn(m, n) < Size(m)
    ensures At(m, Swept(m, power, ambient, t, k), n) == Relaxed(m, power, ambient,
        Swept(m, power, ambient, t, Turn(m, n)), n)
    decreases k
  {
    hide Relaxed, At, Update, NodeAt, InNet, Turn;
    var v, x := Swept(m, power, ambient, t, k - 1), NodeAt(m, k - 1);
    NodeRight(m, k - 1);
    UpdateAt(m, power, ambient, v, x, n);
    if Turn(m, n) < k - 1 {
      DoneFor(m, power, ambient, t, k - 1, n);
    } else {
      TurnRight(m, n);
    }
  }

  /** A fixed point is left alone by any part of a sweep. */
  lemma {:induction false} FixedStays(m: Model, power: seq<real>, ambient: real, t: seq<real>, k: nat)
    requires Temps(m, t) && Temps(m, power) && k <= Size(m) && FixedPoint(m, power, ambient, t)
    ensures Swept(m, power, ambient, t, k) == t
    decreases k
  {
    hide Relaxed, InNet, NodeAt, Index;
    if k > 0 {
      FixedStays(m, power, ambient, t, k - 1);
      NodeRight(m, k - 1);
      assert Balanced(m, power, ambient, t, NodeAt(m, k - 1));
    }
  }

  /** If a whole sweep changes nothing then no part of it does. */
  lemma {:induction false} UnchangedThroughout(m: Model, power: seq<real>, ambient: real, t: seq<real>, k: nat)
    requires Temps(m, t) && Temps(m, power) && k <= Size(m)
    requires forall n :: InNet(m, n) ==> At(m, Swept(m, power, ambient, t, Size(m)), n) == At(m, t, n)
    ensures forall n :: InNet(m, n) ==> At(m, Swept(m, power, ambient, t, k), n) == At(m, t, n)
    decreases k
  {
    hide Relaxed, At, Update, NodeAt, InNet, Turn, Swept;
    forall n | InNet(m, n) ensures At(m, Swept(m, power, ambient, t, k), n) == At(m, t, n) {
      TurnRight(m, n);
      if k <= Turn(m, n) {
        NotYet(m, power, ambient, t, k, n);
      } else {
        DoneFor(m, power, ambient, t, k, n);
        DoneFor(m, power, ambient, t, Size(m), n);
      }
    }
  }

  lemma {:induction false} SameWeighted(m: Model, ls: seq<Link>, t: seq<real>, u: seq<real>)
    requires Temps(m, t) && Temps(m, u) && Sound(m, ls) && forall n :: InNet(m, n) ==> At(m, t, n) == At(m, u, n)
    ensures Weighted(m, ls, t) == Weighted(m, ls, u)
    decreases |ls|
  {
    hide Times, At, InNet;
    if ls != [] { SameWeighted(m, ls[..|ls| - 1], t, u); }
  }

  /** A sweep changes nothing exactly when the temperatures are a fixed point. */
  lemma SweepFixedIff(m: Model, power: seq<real>, ambient: real, t: seq<real>)
    requires Temps(m, t) && Temps(m, power)
    ensures FixedPoint(m, power, ambient, t) <==>
            forall n :: InNet(m, n) ==> At(m, Swept(m, power, ambient, t, Size(m)), n) == At(m, t, n)
  {
    hide Relaxed, At, NodeAt, InNet, Turn, Swept, Links, Weighted, Ambient, PowerAt;
    if FixedPoint(m, power, ambient, t) { FixedStays(m, power, ambient, t, Size(m)); }
    if forall n :: InNet(m, n) ==> At(m, Swept(m, power, ambient, t, Size(m)), n) == At(m, t, n) {
      forall n | InNet(m, n) ensures Balanced(m, power, ambient, t, n) {
        TurnRight(m, n);
        var v := Swept(m, power, ambient, t, Turn(m, n));
        UnchangedThroughout(m, power, ambient, t, Turn(m, n));
        DoneFor(m, power, ambient, t, Size(m), n);
        SameRelaxed(m, power, ambient, v, t, n);
      }
    }
  }

  lemma SameRelaxed(m: Model, power: seq<real>, ambient: real, t: seq<real>, u: seq<real>, n: Node)
    requires Temps(m, t) && Temps(m, u) && Temps(m, power) && InNet(m, n)
        && forall x :: InNet(m, x) ==> At(m, t, x) == At(m, u, x)
    ensures Relaxed(m, power, ambient, t, n) == Relaxed(m, power, ambient, u, n)
  {
    hide At, Links, Weighted, Ambient, PowerAt, LinkSum;
    TotalGPositive(m, n);
    SameWeighted(m, Links(m, n), t, u);
  }

  // ----- the sums as the sweep computes them

  /** Conductance to the neighbour on one side, and its temperature weighted by it; zero at the edge. */
  function SideC(m: Model, l: nat, i: nat, j: nat, s: Side): real
    requires AtCell(m, l, i, j)
  {
    if AtEdge(m, s, i, j) then 0.0 else FlatG(m, l, s)
  }

  function SideT(m: Model, t: seq<real>, l: nat, i: nat, j: nat, s: Side): real
    requires AtCell(m, l, i, j) && Temps(m, t)
  {
    if AtEdge(m, s, i, j) then 0.0 else Times(FlatG(m, l, s), At(m, t, Toward(l, s, i, j)))
  }

  function AboveC(m: Model, l: nat): real
    requires m.Valid() && l < |m.layers|
  {
    if l > 0 then G(m.layers[l - 1].rz) else 0.0
  }

  function AboveT(m: Model, t: seq<real>, l: nat, i: nat, j: nat): real
    requires AtCell(m, l, i, j) && Temps(m, t)
  {
    if l > 0 then Times(G(m.layers[l - 1].rz), At(m, t, Cell(l - 1, i, j))) else 0.0
  }

  function BelowC(m: Model, l: nat): real
    requires m.Valid() && l < |m.layers|
  {
    if l < |m.layers| - 1 then G(m.layers[l].rz) else 0.0
  }

  function BelowT(m: Model, t: seq<real>, l: nat, i: nat, j: nat): real
    requires AtCell(m, l, i, j) && Temps(m, t)
  {
    if l < |m.layers| - 1 then Times(G(m.layers[l].rz), At(m, t, Cell(l + 1, i, j))) else 0.0
  }

  /** Conductance to the ring node of one side; zero away from the edge. */
  function RingC(m: Model, l: nat, i: nat, j: nat, s: Side): real
    requires AtCell(m, l, i, j)
  {
    if AtEdge(m, s, i, j) && GroupOf(m, l).Some? then RingG(m, l, GroupOf(m, l).value, s) else 0.0
  }

  function RingT(m: Model, t: seq<real>, l: nat, i: nat, j: nat, s: Side): real
    requires AtCell(m, l, i, j) && Temps(m, t)
  {
    RingActive(m, l);
    if AtEdge(m, s, i, j) && GroupOf(m, l).Some? then
      Times(RingG(m, l, GroupOf(m, l).value, s), At(m, t, Pack(GroupOf(m, l).value, s)))
    else 0.0
  }

  lemma SingleSums(m: Model, x: Link, t: seq<real>)
    requires Temps(m, t) && InNet(m, x.to) && x.c > 0.0
    ensures Sound(m, [x]) && LinkSum([x]) == x.c && Weighted(m, [x], t) == Times(x.c, At(m, t, x.to))
  {
    hide Times, At, InNet;
    assert [x][..0] == [];
  }

  lemma NoSums(m: Model, t: seq<real>)
    requires Temps(m, t)
    ensures Sound(m, []) && LinkSum([]) == 0.0 && Weighted(m, [], t) == 0.0
  {
  }

  lemma FlatSums(m: Model, t: seq<real>, l: nat, i: nat, j: nat, s: Side)
    requires AtCell(m, l, i, j) && Temps(m, t)
    ensures var ls := FlatLink(m, l, i, j, s);
            Sound(m, ls) && LinkSum(ls) == SideC(m, l, i, j, s) && Weighted(m, ls, t) == SideT(m, t, l, i, j, s)
  {
    hide Times, At, LinkSum, Weighted;
    NoSums(m, t);
    if !AtEdge(m, s, i, j) { SingleSums(m, Link(Toward(l, s, i, j), FlatG(m, l, s)), t); }
  }

  lemma RingSums(m: Model, t: seq<real>, l: nat, i: nat, j: nat, s: Side)
    requires AtCell(m, l, i, j) && Temps(m, t)
    ensures var ls := RingLink(m, l, i, j, s);
            Sound(m, ls) && LinkSum(ls) == RingC(m, l, i, j, s) && Weighted(m, ls, t) == RingT(m, t, l, i, j, s)
  {
    hide Times, At, LinkSum, Weighted, RingG;
    NoSums(m, t);
    RingActive(m, l);
    if AtEdge(m, s, i, j) && GroupOf(m, l).Some? {
      RingGPositive(m, l, GroupOf(m, l).value, s);
      SingleSums(m, Link(Pack(GroupOf(m, l).value, s), RingG(m, l, GroupOf(m, l).value, s)), t);
    }
  }

  lemma VerticalSums(m: Model, t: seq<real>, l: nat, i: nat, j: nat)
    requires AtCell(m, l, i, j) && Temps(m, t)
    ensures var ls := VerticalLinks(m, l, i, j);
            Sound(m, ls) && LinkSum(ls) == AboveC(m, l) + BelowC(m, l)
                && Weighted(m, ls, t) == AboveT(m, t, l, i, j) + BelowT(m, t, l, i, j)
  {
    hide Times, At, LinkSum, Weighted;
    NoSums(m, t);
    var below := if l < |m.layers| - 1 then [Link(Cell(l + 1, i, j), G(m.layers[l].rz))] else [];
    var above := if l > 0 then [Link(Cell(l - 1, i, j), G(m.layers[l - 1].rz))] else [];
    if l < |m.layers| - 1 { SingleSums(m, below[0], t); }
    if l > 0 { SingleSums(m, above[0], t); }
    SumsConcat(m, below, above, t);
  }

  function CellC(m: Model, l: nat, i: nat, j: nat): real
    requires AtCell(m, l, i, j)
  {
    SideC(m, l, i, j, North) + SideC(m, l, i, j, South) + SideC(m, l, i, j, East) + SideC(m, l, i, j, West)
        + AboveC(m, l) + BelowC(m, l)
    + RingC(m, l, i, j, North) + RingC(m, l, i, j, South) + RingC(m, l, i, j, East) + RingC(m, l, i, j, West)
  }

  function CellT(m: Model, t: seq<real>, l: nat, i: nat, j: nat): real
    requires AtCell(m, l, i, j) && Temps(m, t)
  {
    SideT(m, t, l, i, j, North) + SideT(m, t, l, i, j, South) + SideT(m, t, l, i, j, East) + SideT(m, t, l, i, j, West)
    + AboveT(m, t, l, i, j) + BelowT(m, t, l, i, j)
    + RingT(m, t, l, i, j, North) + RingT(m, t, l, i, j, South) + RingT(m, t, l, i, j, East)
        + RingT(m, t, l, i, j, West)
  }

  /** The sums over the neighbours of a cell, side by side. */
  lemma CellSums(m: Model, t: seq<real>, l: nat, i: nat, j: nat)
    requires AtCell(m, l, i, j) && Temps(m, t)
    ensures var ls := CellLinks(m, l, i, j);
            Sound(m, ls) && LinkSum(ls) == CellC(m, l, i, j) && Weighted(m, ls, t) == CellT(m, t, l, i, j)
  {
    hide Sound, LinkSum, Weighted, FlatLink, RingLink, VerticalLinks, SideC, SideT, AboveC, AboveT, BelowC, BelowT,
        RingC, RingT;
    var n, s := FlatLink(m, l, i, j, North), FlatLink(m, l, i, j, South);
    var e, w, v := FlatLink(m, l, i, j, East), FlatLink(m, l, i, j, West), VerticalLinks(m, l, i, j);
    var rn, rs, re, rw := RingLink(m, l, i, j, North), RingLink(m, l, i, j, South), RingLink(m, l, i, j, East),
        RingLink(m, l, i, j, West);
    FlatSums(m, t, l, i, j, North);
    FlatSums(m, t, l, i, j, South);
    FlatSums(m, t, l, i, j, East);
    FlatSums(m, t, l, i, j, West);
    VerticalSums(m, t, l, i, j);
    RingSums(m, t, l, i, j, North);
    RingSums(m, t, l, i, j, South);
    RingSums(m, t, l, i, j, East);
    RingSums(m, t, l, i, j, West);
    SumsConcat(m, n, s, t);
    SumsConcat(m, n + s, e, t);
    SumsConcat(m, n + s + e, w, t);
    SumsConcat(m, n + s + e + w, v, t);
    SumsConcat(m, n + s + e + w + v, rn, t);
    SumsConcat(m, n + s + e + w + v + rn, rs, t);
    SumsConcat(m, n + s + e + w + v + rn + rs, re, t);
    SumsConcat(m, n + s + e + w + v + rn + rs + re, rw, t);
  }

  /** Sum of the temperatures of the first `n` cells along a side. */
  function SideSum(m: Model, t: seq<real>, l: nat, s: Side, n: nat): real
    requires Temps(m, t) && l < |m.layers| && n <= Along(m, s)
  {
    if n == 0 then 0.0 else SideSum(m, t, l, s, n - 1) + At(m, t, SideCell(m, l, s, n - 1))
  }

  lemma {:induction false} SideSums(m: Model, t: seq<real>, l: nat, g: Group, s: Side, n: nat)
    requires Temps(m, t) && l < |m.layers| && n <= Along(m, s)
    ensures var ls := SideLinks(m, l, g, s, n);
            Sound(m, ls) && LinkSum(ls) == Times(n as real, RingG(m, l, g, s))
                && Weighted(m, ls, t) == Times(RingG(m, l, g, s), SideSum(m, t, l, s, n))
    decreases n
  {
    hide Times, At, RingG, LinkSum, Weighted, Sound, SideCell;
    var c := RingG(m, l, g, s);
    TimesZero(c);
    if n == 0 {
      NoSums(m, t);
    } else {
      var x := Link(SideCell(m, l, s, n - 1), c);
      SideSums(m, t, l, g, s, n - 1);
      RingGPositive(m, l, g, s);
      SideInNet(m, l, s, n - 1);
      SingleSums(m, x, t);
      SumsConcat(m, SideLinks(m, l, g, s, n - 1), [x], t);
      OneMore(n - 1, c);
      TimesAdds(SideSum(m, t, l, s, n - 1), At(m, t, x.to), c);
    }
  }

  lemma SideInNet(m: Model, l: nat, s: Side, k: nat)
    requires m.Valid() && l < |m.layers| && k < Along(m, s)
    ensures InNet(m, SideCell(m, l, s, k))
  {
  }

  lemma OneMore(n: nat, c: real)
    ensures Times((n + 1) as real, c) == Times(n as real, c) + c
  {
  }
}
