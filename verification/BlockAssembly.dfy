/** The pairwise conductances of the block model: between neighbouring blocks of a layer, between the layers,
    to the package periphery and to the ambient. */
module BlockAssembly {
  import opened Compass
  import opened LupMatrix
  import opened Lup
  import opened BlockModel

  const SINK_W: nat := 8

  /** What the assembly starts from: block sizes, half-conductances of the blocks in each of the four layers,
      adjacency with shared lengths, vertical conductances and resistances to the ambient, which edges of the
      chip (west, east, north, south) a block abuts, the half-conductances shorted at each edge, and the
      package. */
  datatype Chip = Chip(n: nat, width: seq<real>, height: seq<real>, gx: seq<seq<real>>, gy: seq<seq<real>>,
                       horizontal: seq<seq<bool>>, vertical: seq<seq<bool>>, len: seq<seq<real>>,
                       down: seq<seq<real>>, toAmbient: seq<real>, border: seq<seq<bool>>,
                       edgeSp: seq<real>, edgeHs: seq<real>, sp1: Axes, hs1: Axes,
                       spPer: Axes, hs2: Axes, sinkCAmb: Axes, sinkAmb: real)

  ghost predicate Table(t: seq<seq<real>>, rows: nat, n: nat) {
    |t| == rows && forall r :: 0 <= r < rows ==> |t[r]| == n
  }

  ghost predicate Flags(t: seq<seq<bool>>, rows: nat, n: nat) {
    |t| == rows && forall r :: 0 <= r < rows ==> |t[r]| == n
  }

  /** Sizes and resistances are positive; lateral conduction in the silicon may be switched off. */
  ghost predicate Physical(c: Chip) {
    && |c.width| == |c.height| == |c.toAmbient| == c.n && |c.edgeSp| == |c.edgeHs| == 4
    && Table(c.gx, 4, c.n) && Table(c.gy, 4, c.n) && Table(c.down, 3, c.n) && Table(c.len, c.n, c.n)
    && Flags(c.horizontal, c.n, c.n) && Flags(c.vertical, c.n, c.n) && Flags(c.border, c.n, 4)
    && (forall i :: 0 <= i < c.n ==> c.width[i] > 0.0 && c.height[i] > 0.0 && c.toAmbient[i] > 0.0)
    && (forall l, i :: 0 <= l < 4 && 0 <= i < c.n ==> c.gx[l][i] >= 0.0 && c.gy[l][i] >= 0.0)
    && (forall l, i :: 2 <= l < 4 && 0 <= i < c.n ==> c.gx[l][i] > 0.0 && c.gy[l][i] > 0.0)
    && (forall l, i :: 0 <= l < 3 && 0 <= i < c.n ==> c.down[l][i] > 0.0)
    && (forall i, j :: 0 <= i < c.n && 0 <= j < c.n ==> c.len[i][j] >= 0.0)
    && (forall s :: 0 <= s < 4 ==> c.edgeSp[s] >= 0.0 && c.edgeHs[s] >= 0.0)
    && c.sp1.x > 0.0 && c.sp1.y > 0.0 && c.hs1.x > 0.0 && c.hs1.y > 0.0 && c.spPer.x > 0.0 && c.spPer.y > 0.0
    && c.hs2.x > 0.0 && c.hs2.y > 0.0 && c.sinkCAmb.x > 0.0 && c.sinkCAmb.y > 0.0 && c.sinkAmb > 0.0
  }

  function Along(a: Axes, side: nat): real { if side < 2 then a.x else a.y }

  /** From the centre of block `i` towards its neighbour `j`, in layer `l`. */
  function Lateral(c: Chip, l: nat, i: nat, j: nat): (g: real)
    requires Physical(c) && l < 4 && i < c.n && j < c.n
    ensures g >= 0.0
  {
    var part := if c.horizontal[i][j] then c.gx[l][i] / c.height[i]
                  else if c.vertical[i][j] then c.gy[l][i] / c.width[i] else 0.0;
    NonnegativeProduct(part, c.len[i][j]);
    part * c.len[i][j]
  }

  lemma NonnegativeProduct(a: real, b: real)
    requires a >= 0.0 && b >= 0.0
    ensures a * b >= 0.0
  {
  }

  /** From a block to the package node of an edge it abuts: its share of the edge's conductances. */
  function ToEdge(on: bool, half: real, r: real, edge: real): (g: real)
    requires half > 0.0 && r > 0.0 && edge >= 0.0
    ensures g >= 0.0
  {
    EdgePositive(half, r, edge);
    if on then 2.0 / (1.0 / half + r * edge / half) else 0.0
  }

  lemma EdgePositive(half: real, r: real, edge: real)
    requires half > 0.0 && r > 0.0 && edge >= 0.0
    ensures 1.0 / half + r * edge / half > 0.0
  {
    NonnegativeProduct(r, edge);
  }

  /** From a block of the spreader, or of the sink, to the package node of a side. */
  function SpreaderEdge(c: Chip, i: nat, s: nat): (g: real)
    requires Physical(c) && i < c.n && s < 4
    ensures g >= 0.0
  {
    ToEdge(c.border[i][s], if s < 2 then c.gx[2][i] else c.gy[2][i], Along(c.sp1, s), c.edgeSp[s])
  }

  function SinkEdge(c: Chip, i: nat, s: nat): (g: real)
    requires Physical(c) && i < c.n && s < 4
    ensures g >= 0.0
  {
    ToEdge(c.border[i][s], if s < 2 then c.gx[3][i] else c.gy[3][i], Along(c.hs1, s), c.edgeHs[s])
  }

  // ----- the whole matrix as a value

  /** Layer and block of a node; the package counts as layer 4. */
  function LayerOf(n: nat, a: nat): nat {
    if a < n then 0 else if a < 2 * n then 1 else if a < 3 * n then 2 else if a < 4 * n then 3 else 4
  }

  function BlockOf(n: nat, a: nat): nat { a - LayerOf(n, a) * n }

  lemma BlockBelow(n: nat, a: nat)
    ensures a < 4 * n ==> LayerOf(n, a) < 4 && BlockOf(n, a) < n && a == LayerOf(n, a) * n + BlockOf(n, a)
    ensures 4 * n <= a < Nodes(n) ==> LayerOf(n, a) == 4 && BlockOf(n, a) == a - 4 * n < EXTRA
  {
  }

  /** Between two blocks: neighbours in a layer, or one above the other. */
  function BlockG(c: Chip, l: nat, i: nat, m: nat, j: nat): (g: real)
    requires Physical(c) && l < 4 && m < 4 && i < c.n && j < c.n
    ensures g >= 0.0
  {
    if l == m then Lateral(c, l, i, j)
    else if i == j && m == l + 1 then c.down[l][i]
    else if i == j && l == m + 1 then c.down[m][i]
    else 0.0
  }

  /** Between a block and package node `e`. */
  function EdgeG(c: Chip, l: nat, i: nat, e: nat): (g: real)
    requires Physical(c) && l < 4 && i < c.n && e < EXTRA
    ensures g >= 0.0
  {
    if l == 2 && e < 4 then SpreaderEdge(c, i, e) else if l == 3 && 4 <= e < 8 then SinkEdge(c, i, e - 4) else 0.0
  }

  /** Between two package nodes of the same side. */
  function PackG(c: Chip, d: nat, e: nat): (g: real)
    requires Physical(c) && d < EXTRA && e < EXTRA
    ensures g >= 0.0
  {
    if d < 4 && e == d + 4 then 2.0 / Along(c.spPer, d)
    else if e < 4 && d == e + 4 then 2.0 / Along(c.spPer, e)
    else if 4 <= d < 8 && e == d + 4 then 2.0 / Along(c.hs2, d - 4)
    else if 4 <= e < 8 && d == e + 4 then 2.0 / Along(c.hs2, e - 4)
    else 0.0
  }

  /** The conductance from the centre of node `a` towards node `b`. */
  function Value(c: Chip, a: nat, b: nat): (g: real)
    requires Physical(c) && a < Nodes(c.n) && b < Nodes(c.n)
    ensures g >= 0.0
  {
    BlockBelow(c.n, a);
    BlockBelow(c.n, b);
    var l, i, m, j := LayerOf(c.n, a), BlockOf(c.n, a), LayerOf(c.n, b), BlockOf(c.n, b);
    if l < 4 && m < 4 then BlockG(c, l, i, m, j)
    else if l < 4 then EdgeG(c, l, i, j)
    else if m < 4 then EdgeG(c, m, j, i)
    else PackG(c, i, j)
  }

  /** The entry is filled in when block `k` is treated: it is in the block's row or links it to the package. */
  predicate Owned(n: nat, a: nat, b: nat, k: nat) {
    if a < 4 * n then BlockOf(n, a) == k else b < 4 * n && BlockOf(n, b) == k
  }

  // ----- filling the matrix

  ghost predicate Sized(g: array2<real>, n: nat) { g.Length0 == Nodes(n) && g.Length1 == Nodes(n) }

  method SetBoth(g: array2<real>, a: nat, b: nat, v: real)
    requires a < g.Length0 == g.Length1 && b < g.Length0
    modifies g
    ensures forall r, k :: 0 <= r < g.Length0 && 0 <= k < g.Length0 ==>
              g[r, k] == if (r == a && k == b) || (r == b && k == a) then v else old(g[r, k])
  {
    g[a, b] := v;
    g[b, a] := v;
  }

  /** Blocks `i` and `j` in the same layer. */
  predicate Beside(n: nat, a: nat, b: nat, i: nat, j: nat) {
    a < 4 * n && BlockOf(n, a) == i && LayerOf(n, b) == LayerOf(n, a) && BlockOf(n, b) == j
  }

  method SetLateral(c: Chip, g: array2<real>, i: nat, j: nat)
    requires Physical(c) && i < c.n && j < c.n && Sized(g, c.n)
    modifies g
    ensures forall a: nat, b: nat :: a < Nodes(c.n) && b < Nodes(c.n)
              ==> g[a, b] == if Beside(c.n, a, b, i, j) then Value(c, a, b) else old(g[a, b])
  {
    hide Physical, Lateral;
    var n := c.n;
    g[i, j] := Lateral(c, 0, i, j);
    g[IFACE * n + i, IFACE * n + j] := Lateral(c, 1, i, j);
    g[HSP * n + i, HSP * n + j] := Lateral(c, 2, i, j);
    g[HSINK * n + i, HSINK * n + j] := Lateral(c, 3, i, j);
  }

  /** Neighbours of block `i` in all four layers. */
  method FillLateral(c: Chip, g: array2<real>, i: nat)
    requires Physical(c) && i < c.n && Sized(g, c.n)
    modifies g
    ensures forall a: nat, b: nat :: a < Nodes(c.n) && b < Nodes(c.n) ==>
              g[a, b] == if a < 4 * c.n && BlockOf(c.n, a) == i
                           && LayerOf(c.n, b) == LayerOf(c.n, a) then Value(c, a, b) else old(g[a, b])
  {
    hide Physical, Value, BlockOf, LayerOf;
    var n := c.n;
    for j := 0 to n
      invariant forall a: nat, b: nat :: a < Nodes(n) && b < Nodes(n) ==>
                  g[a, b] == if a < 4 * n && BlockOf(n, a) == i && LayerOf(n, b) == LayerOf(n, a)
                               && BlockOf(n, b) < j then Value(c, a, b) else old(g[a, b])
    {
      SetLateral(c, g, i, j);
    }
    forall a: nat, b: nat | a < Nodes(n) && b < Nodes(n) ensures LayerOf(n, b) == LayerOf(n, a) && a < 4 * n
        ==> BlockOf(n, b) < n { LayersBelow(n, a, b); }
  }

  lemma LayersBelow(n: nat, a: nat, b: nat)
    ensures LayerOf(n, b) == LayerOf(n, a) && a < 4 * n ==> BlockOf(n, b) < n
  {
  }

  /** Two nodes of block `i`, one above the other. */
  predicate Stacked(n: nat, a: nat, b: nat, i: nat) {
    && a < 4 * n && b < 4 * n && BlockOf(n, a) == i && BlockOf(n, b) == i
    && (LayerOf(n, b) == LayerOf(n, a) + 1 || LayerOf(n, a) == LayerOf(n, b) + 1)
  }

  method FillVertical(c: Chip, g: array2<real>, i: nat)
    requires Physical(c) && i < c.n && Sized(g, c.n)
    modifies g
    ensures forall a: nat, b: nat :: a < Nodes(c.n) && b < Nodes(c.n) ==>
              g[a, b] == if Stacked(c.n, a, b, i) then Value(c, a, b) else old(g[a, b])
  {
    var n := c.n;
    SetBoth(g, i, IFACE * n + i, c.down[0][i]);
    SetBoth(g, IFACE * n + i, HSP * n + i, c.down[1][i]);
    SetBoth(g, HSP * n + i, HSINK * n + i, c.down[2][i]);
  }

  /** Spreader node of block `i` and spreader edge, or sink node and inner sink edge, of one of the first
      `k` sides. */
  predicate AtRim(n: nat, a: nat, b: nat, i: nat, k: nat) {
    && a < 4 * n && b >= 4 * n && BlockOf(n, a) == i
    && ((LayerOf(n, a) == 2 && b - 4 * n < k) || (LayerOf(n, a) == 3 && 4 <= b - 4 * n < 4 + k))
  }

  method FillEdges(c: Chip, g: array2<real>, i: nat)
    requires Physical(c) && i < c.n && Sized(g, c.n)
    modifies g
    ensures forall a: nat, b: nat :: a < Nodes(c.n) && b < Nodes(c.n) ==>
              g[a, b] == if AtRim(c.n, a, b, i, 4) || AtRim(c.n, b, a, i, 4) then Value(c, a, b) else old(g[a, b])
  {
    hide Physical, SpreaderEdge, SinkEdge;
    var n := c.n;
    for s := 0 to 4
      invariant forall a: nat, b: nat :: a < Nodes(n) && b < Nodes(n) ==>
                  g[a, b] == if AtRim(n, a, b, i, s) || AtRim(n, b, a, i, s) then Value(c, a, b) else old(g[a, b])
    {
      SetBoth(g, HSP * n + i, NL * n + s, SpreaderEdge(c, i, s));
      SetBoth(g, HSINK * n + i, NL * n + SINK_C_W + s, SinkEdge(c, i, s));
    }
  }

  /** All entries of block `i`. */
  method FillBlock(c: Chip, g: array2<real>, i: nat)
    requires Physical(c) && i < c.n && Sized(g, c.n)
    requires forall a: nat, b: nat :: a < Nodes(c.n) && b < Nodes(c.n) && Owned(c.n, a, b, i) ==> g[a, b] == 0.0
    modifies g
    ensures forall a: nat, b: nat :: a < Nodes(c.n) && b < Nodes(c.n) ==>
              g[a, b] == if Owned(c.n, a, b, i) then Value(c, a, b) else old(g[a, b])
  {
    hide Physical, Lateral, SpreaderEdge, SinkEdge;
    FillLateral(c, g, i);
    FillVertical(c, g, i);
    FillEdges(c, g, i);
    forall a: nat, b: nat | a < Nodes(c.n) && b < Nodes(c.n)
      ensures g[a, b] == if Owned(c.n, a, b, i) then Value(c, a, b) else old(g[a, b])
    {
      BlockBelow(c.n, a);
      BlockBelow(c.n, b);
    }
  }

  method FillBlocks(c: Chip, g: array2<real>)
    requires Physical(c) && Sized(g, c.n)
    requires forall a, b :: 0 <= a < Nodes(c.n) && 0 <= b < Nodes(c.n) ==> g[a, b] == 0.0
    modifies g
    ensures forall a: nat, b: nat :: a < Nodes(c.n) && b < Nodes(c.n) ==>
              g[a, b] == if a < 4 * c.n || b < 4 * c.n then Value(c, a, b) else 0.0
  {
    hide Physical, Value;
    var n := c.n;
    for i := 0 to n
      invariant forall a: nat, b: nat :: a < Nodes(n) && b < Nodes(n)
                  ==> g[a, b] == if OwnedBelow(n, a, b, i) then Value(c, a, b) else 0.0
    {
      FillBlock(c, g, i);
    }
    forall a: nat, b: nat | a < Nodes(n) && b < Nodes(n) ensures OwnedBelow(n, a, b, n) <==> a < 4 * n || b < 4 * n {
      BlockBelow(n, a);
      BlockBelow(n, b);
    }
  }

  /** The entry belongs to one of the first `k` blocks. */
  predicate OwnedBelow(n: nat, a: nat, b: nat, k: nat) {
    if a < 4 * n then BlockOf(n, a) < k else b < 4 * n && BlockOf(n, b) < k
  }

  /** Two package nodes of one side, next to each other on the way out. */
  predicate Paired(n: nat, a: nat, b: nat) {
    4 * n <= a < Nodes(n) && 4 * n <= b < Nodes(n) && (b == a + 4 || a == b + 4)
  }

  method SetPackageSide(c: Chip, g: array2<real>, s: nat)
    requires Physical(c) && Sized(g, c.n) && s < 4
    modifies g
    ensures forall a: nat, b: nat :: a < Nodes(c.n) && b < Nodes(c.n) ==>
              g[a, b] == if Paired(c.n, a, b) && (a - 4 * c.n) % 4 == s then Value(c, a, b) else old(g[a, b])
  {
    hide Physical, BlockG, EdgeG;
    var n := c.n;
    PackagePositive(c, s);
    SetBoth(g, NL * n + s, NL * n + SINK_C_W + s, 2.0 / Along(c.spPer, s));
    SetBoth(g, NL * n + SINK_C_W + s, NL * n + SINK_W + s, 2.0 / Along(c.hs2, s));
  }

  /** Nothing else is joined in the package. */
  lemma Unpaired(c: Chip, a: nat, b: nat)
    requires Physical(c) && 4 * c.n <= a < Nodes(c.n) && 4 * c.n <= b < Nodes(c.n) && !Paired(c.n, a, b)
    ensures Value(c, a, b) == 0.0
  {
  }

  method FillPackage(c: Chip, g: array2<real>)
    requires Physical(c) && Sized(g, c.n)
    requires forall a: nat, b: nat :: a < Nodes(c.n) && b < Nodes(c.n) ==>
               g[a, b] == if a < 4 * c.n || b < 4 * c.n then Value(c, a, b) else 0.0
    modifies g
    ensures forall a: nat, b: nat :: a < Nodes(c.n) && b < Nodes(c.n) ==> g[a, b] == Value(c, a, b)
  {
    hide Physical, Value;
    var n := c.n;
    for s := 0 to 4
      invariant forall a: nat, b: nat :: a < Nodes(n) && b < Nodes(n) ==>
                  g[a, b] == if a < 4 * n || b < 4 * n || (Paired(n, a, b) && (a - 4 * n) % 4 < s) then Value(c, a, b)
                               else 0.0
    {
      SetPackageSide(c, g, s);
    }
    forall a: nat, b: nat | 4 * n <= a < Nodes(n) && 4 * n <= b < Nodes(n) && !Paired(n, a, b)
        ensures Value(c, a, b) == 0.0 {
      Unpaired(c, a, b);
    }
  }

  lemma PackagePositive(c: Chip, s: nat)
    requires Physical(c)
    ensures Along(c.spPer, s) > 0.0 && Along(c.hs2, s) > 0.0
  {
  }

  /** Conductances to the ambient: the sink under each block, and the sink periphery. */
  ghost function AmbientValue(c: Chip, i: nat): real
    requires Physical(c) && i < c.n + EXTRA
  {
    if i < c.n then 1.0 / c.toAmbient[i]
    else if i < c.n + 4 then 0.0
    else if i < c.n + 8 then 1.0 / Along(c.sinkCAmb, i - c.n - 4)
    else 1.0 / c.sinkAmb
  }

  method FillAmbient(c: Chip, gAmb: array<real>)
    requires Physical(c) && gAmb.Length == c.n + EXTRA
    modifies gAmb
    ensures forall i :: 0 <= i < c.n + EXTRA ==> gAmb[i] == AmbientValue(c, i)
  {
    var n := c.n;
    for i := 0 to n
      invariant forall k :: 0 <= k < i ==> gAmb[k] == AmbientValue(c, k)
    {
      gAmb[i] := 1.0 / c.toAmbient[i];
    }
    for s := 0 to 4
      invariant forall k :: 0 <= k < n + EXTRA && (k < n || (k - n) % 4 < s) ==> gAmb[k] == AmbientValue(c, k)
    {
      gAmb[n + s] := 0.0;
      gAmb[n + SINK_C_W + s] := 1.0 / Along(c.sinkCAmb, s);
      gAmb[n + SINK_W + s] := 1.0 / c.sinkAmb;
    }
  }

  /** Assembles all pairwise conductances, every entry of the matrix, and those to the ambient. The result
      is what the rest of the model relies on. */
  method AssembleG(c: Chip, g: array2<real>, gAmb: array<real>)
    requires Physical(c) && Sized(g, c.n) && gAmb.Length == c.n + EXTRA
    modifies g, gAmb
    ensures forall a: nat, b: nat :: a < Nodes(c.n) && b < Nodes(c.n) ==> g[a, b] == Value(c, a, b)
    ensures forall i :: 0 <= i < c.n + EXTRA ==> gAmb[i] == AmbientValue(c, i)
    ensures Assembled(Rows(g), gAmb[..], c.n) && SpreaderIsolated(gAmb[..], c.n)
  {
    hide Physical, Value, AmbientValue, Assembled, SpreaderIsolated;
    ZeroMatrix(g);
    FillBlocks(c, g);
    FillPackage(c, g);
    FillAmbient(c, gAmb);
    AssembledFrom(c, Rows(g), gAmb[..]);
  }

  method ZeroMatrix(g: array2<real>)
    modifies g
    ensures forall a, b :: 0 <= a < g.Length0 && 0 <= b < g.Length1 ==> g[a, b] == 0.0
  {
    for i := 0 to g.Length0
      invariant forall a, b :: 0 <= a < i && 0 <= b < g.Length1 ==> g[a, b] == 0.0
    {
      for j := 0 to g.Length1
        invariant forall a, b :: 0 <= a < i && 0 <= b < g.Length1 ==> g[a, b] == 0.0
        invariant forall b :: 0 <= b < j ==> g[i, b] == 0.0
      {
        g[i, j] := 0.0;
      }
    }
  }

  /** No conductance is negative, every block is linked down to the sink, every spreader edge to its sink
      edge, and the bottom nodes to the ambient. */
  lemma AssembledFrom(c: Chip, g: Matrix, gAmb: seq<real>)
    requires Physical(c) && Square(g, Nodes(c.n)) && |gAmb| == c.n + EXTRA
    requires forall a: nat, b: nat :: a < Nodes(c.n) && b < Nodes(c.n) ==> g[a][b] == Value(c, a, b)
    requires forall i :: 0 <= i < c.n + EXTRA ==> gAmb[i] == AmbientValue(c, i)
    ensures Assembled(g, gAmb, c.n) && SpreaderIsolated(gAmb, c.n)
  {
    hide Value, AmbientValue, Physical;
    var n := c.n;
    forall i, j | 0 <= i < HSINK * n && j == n + i ensures Bonded(g, i, j) { DownPositive(c, i); }
    forall i, j | NL * n <= i < NL * n + SINK_C_W && j == i + SINK_C_W ensures Bonded(g, i, j) {
      SidePositive(c, i - NL * n);
    }
    forall i | 0 <= i < n + EXTRA
      ensures gAmb[i] >= 0.0 && (i < n || n + SINK_C_W <= i ==> gAmb[i] > 0.0)
          && (n <= i < n + SINK_C_W ==> gAmb[i] == 0.0)
    {
      AmbientSign(c, i);
    }
  }

  lemma DownPositive(c: Chip, i: nat)
    requires Physical(c) && i < 3 * c.n
    ensures Value(c, i, c.n + i) > 0.0 && Value(c, c.n + i, i) > 0.0
  {
    BlockBelow(c.n, i);
    assert LayerOf(c.n, c.n + i) == LayerOf(c.n, i) + 1 && BlockOf(c.n, c.n + i) == BlockOf(c.n, i);
  }

  lemma SidePositive(c: Chip, s: nat)
    requires Physical(c) && s < 4
    ensures Value(c, 4 * c.n + s, 4 * c.n + s + 4) > 0.0 && Value(c, 4 * c.n + s + 4, 4 * c.n + s) > 0.0
  {
    PackagePositive(c, s);
  }

  lemma AmbientSign(c: Chip, i: nat)
    requires Physical(c) && i < c.n + EXTRA
    ensures AmbientValue(c, i) >= 0.0 && (i < c.n || c.n + 4 <= i ==> AmbientValue(c, i) > 0.0)
    ensures c.n <= i < c.n + 4 ==> AmbientValue(c, i) == 0.0
  {
  }
}
