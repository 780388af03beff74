/** The numbers in the block model's matrix B, as equations between resistances, materials and the floorplan: blocks
    side by side and on top of each other, layers, the edges of the chip, the package and the ambient. */
module BlockValues {
  import opened Compass
  import opened RealFunctions
  import opened Geometry
  import opened Sums
  import opened LupMatrix
  import opened Lup
  import opened Conduction
  import opened BlockModel
  import opened BlockAssembly
  import opened BlockGeometry

  // ----- how blocks touch

  function Meeting(a: real, b: real, c: real, d: real): real { Min(b, d) - Max(a, c) }

  /** A right edge lies on a left edge, along some length. */
  predicate SideBySide(u: Rect, v: Rect) {
    (u.Right() == v.leftx || v.Right() == u.leftx) && Meeting(u.bottomy, u.Top(), v.bottomy, v.Top()) > 0.0
  }

  /** An upper edge lies on a lower edge, along some length. */
  predicate OnTop(u: Rect, v: Rect) {
    (u.Top() == v.bottomy || v.Top() == u.bottomy) && Meeting(u.leftx, u.Right(), v.leftx, v.Right()) > 0.0
  }

  lemma TouchRight(u: Rect, v: Rect)
    requires Solid(u) && Solid(v)
    ensures HorizontallyAdjacent(u, v) <==> SideBySide(u, v)
    ensures VerticallyAdjacent(u, v) <==> OnTop(u, v)
    ensures !(SideBySide(u, v) && OnTop(u, v))
    ensures SideBySide(u, v) ==> SharedLength(u, v) == Meeting(u.bottomy, u.Top(), v.bottomy, v.Top())
    ensures OnTop(u, v) ==> SharedLength(u, v) == Meeting(u.leftx, u.Right(), v.leftx, v.Right())
  {
  }

  // ----- what the entries of B are

  /** The node of block `i` in layer `l`, of `n` blocks. */
  function Place(n: nat, l: nat, i: nat): nat { l * n + i }

  /** The package node beside the spreader, or the sink, on a side. */
  function EdgeNode(n: nat, l: nat, s: nat): nat
    requires 2 <= l
  {
    4 * n + 4 * (l - 2) + s
  }

  /** Conductance of a layer through a length, over a distance of one. */
  function Through(k: Materials, l: nat, len: real): real
    requires Proper(k) && l < 4
  {
    k.conductivity[l] * k.thickness[l] * len
  }

  /** Two blocks of a layer: from centre to centre through the length they share, unless lateral conduction in the
      silicon is switched off. */
  ghost predicate LateralEntry(k: Materials, us: seq<Rect>, b: Matrix, l: nat, i: nat, j: nat)
    requires Proper(k) && l < 4 && i < |us| && j < |us|
  {
    var u, v, g := us[i], us[j], -Get(b, Place(|us|, l, i), Place(|us|, l, j));
    if l == 0 && k.omitLateral then g == 0.0
    else if SideBySide(u, v) then
      Times(g, (u.width + v.width) / 2.0) == Through(k, l, Meeting(u.bottomy, u.Top(), v.bottomy, v.Top()))
    else if OnTop(u, v) then
      Times(g, (u.height + v.height) / 2.0) == Through(k, l, Meeting(u.leftx, u.Right(), v.leftx, v.Right()))
    else g == 0.0
  }

  /** Conductance of a layer through the area of a block, over a distance of one. */
  function Faced(k: Materials, l: nat, u: Rect): real
    requires Proper(k) && l < 4
  {
    k.conductivity[l] * (u.width * u.height)
  }

  /** Between a layer and the next one below a block: through the thickness of the upper layer. */
  ghost predicate VerticalEntry(k: Materials, us: seq<Rect>, b: Matrix, l: nat, i: nat)
    requires Proper(k) && l < 3 && i < |us|
  {
    Times(-Get(b, Place(|us|, l, i), Place(|us|, l + 1, i)), k.thickness[l]) == Faced(k, l, us[i])
  }

  /** Conductance from the centre of a block to its edge on a side, in a layer. */
  function ToSide(k: Materials, u: Rect, l: nat, s: nat): real
    requires Proper(k) && l < 4 && Solid(u)
  {
    if s < 2 then k.conductivity[l] * k.thickness[l] * u.height / (u.width / 2.0)
    else k.conductivity[l] * k.thickness[l] * u.width / (u.height / 2.0)
  }

  /** West, east, north, south: the block lies at that edge of the chip. */
  predicate OnEdge(u: Rect, width: real, height: real, s: nat) {
    || (s == 0 && u.leftx == 0.0) || (s == 1 && u.leftx + u.width == width)
    || (s == 2 && u.bottomy + u.height == height) || (s == 3 && u.bottomy == 0.0)
  }

  /** All blocks at one edge of the chip together. */
  ghost function EdgeTerm(k: Materials, us: seq<Rect>, width: real, height: real, l: nat, s: nat): int -> real
    requires Proper(k) && AllSolid(us) && l < 4
  {
    i => if 0 <= i < |us| && OnEdge(us[i], width, height, s) then ToSide(k, us[i], l, s) else 0.0
  }

  ghost function EdgeTotal(k: Materials, us: seq<Rect>, width: real, height: real, l: nat, s: nat): real
    requires Proper(k) && AllSolid(us) && l < 4
  {
    Sum(|us|, EdgeTerm(k, us, width, height, l, s))
  }

  /** A block of the spreader or of the sink and the package node of an edge: the block's own conductance in series
      with its share of the resistance beyond the edge. */
  ghost predicate EdgeEntry(k: Materials, us: seq<Rect>, width: real, height: real, b: Matrix, l: nat, i: nat, s: nat)
    requires Proper(k) && AllSolid(us) && 2 <= l < 4 && i < |us| && s < 4
  {
    var n, r := |us|, if l == 2 then k.sp1 else k.hs1;
    var g := -Get(b, Place(n, l, i), EdgeNode(n, l, s));
    if OnEdge(us[i], width, height, s) then
      Times(g, 1.0 + Times(if s < 2 then r.x else r.y, EdgeTotal(k, us, width, height, l, s))) == ToSide(k, us[i], l, s)
    else g == 0.0
  }

  /** The package: spreader edge to inner sink edge to outer sink edge, side by side. */
  ghost predicate PackageEntry(k: Materials, n: nat, b: Matrix, s: nat) {
    var per, out := if s < 2 then k.spPer.x else k.spPer.y, if s < 2 then k.hs2.x else k.hs2.y;
    Times(-Get(b, 4 * n + s, 4 * n + 4 + s), per) == 1.0 && Times(-Get(b, 4 * n + 4 + s, 4 * n + 8 + s), out) == 1.0
  }

  /** Resistance of the sink and of the convection around it, for an area of one. */
  function SinkPath(k: Materials): real
    requires Proper(k)
  {
    k.thickness[3] / k.conductivity[3] + Times(k.convection, Times(k.sinkSide, k.sinkSide))
  }

  /** To the ambient: from the sink under a block through the sink and its share of the convection; from the inner and
      outer sink edges through their own resistances; from the spreader edges not at all. */
  ghost predicate AmbientEntries(k: Materials, us: seq<Rect>, gAmb: seq<real>)
    requires Proper(k)
  {
    var n := |us|;
    && |gAmb| == n + 12
    && (forall i :: 0 <= i < n ==>
          Times(gAmb[i], SinkPath(k)) == us[i].width * us[i].height)
    && (forall s :: 0 <= s < 4 ==> SideAmbient(k, n, gAmb, s))
  }

  ghost predicate SideAmbient(k: Materials, n: nat, gAmb: seq<real>, s: nat)
    requires |gAmb| == n + 12 && s < 4
  {
    && gAmb[n + s] == 0.0 && Times(gAmb[n + 4 + s], if s < 2 then k.sinkCAmb.x else k.sinkCAmb.y) == 1.0
    && Times(gAmb[n + 8 + s], k.sinkAmb) == 1.0
  }

  /** Pairs of nodes with something between them. */
  predicate Meant(n: nat, a: nat, c: nat) {
    || (a < 4 * n && c < 4 * n && (LayerOf(n, a) == LayerOf(n, c) || c == a + n || a == c + n))
    || (2 * n <= a < 3 * n && 4 * n <= c < 4 * n + 4) || (3 * n <= a < 4 * n && 4 * n + 4 <= c < 4 * n + 8)
    || (2 * n <= c < 3 * n && 4 * n <= a < 4 * n + 4) || (3 * n <= c < 4 * n && 4 * n + 4 <= a < 4 * n + 8)
    || (4 * n <= a && 4 * n <= c && (c == a + 4 || a == c + 4))
  }

  /** All of B: its entries, and that every row sums to what the node conducts to the ambient. */
  ghost predicate Conducts(k: Materials, us: seq<Rect>, width: real, height: real, b: Matrix, gAmb: seq<real>)
    requires Proper(k) && AllSolid(us)
  {
    var n := |us|;
    && Square(b, 4 * n + 12) && AmbientEntries(k, us, gAmb)
    && (forall l, i, j :: 0 <= l < 4 && 0 <= i < n && 0 <= j < n && i != j ==> LateralEntry(k, us, b, l, i, j))
    && (forall l, i :: 0 <= l < 3 && 0 <= i < n ==> VerticalEntry(k, us, b, l, i))
    && (forall l, i, s :: 2 <= l < 4 && 0 <= i < n && 0 <= s < 4 ==> EdgeEntry(k, us, width, height, b, l, i, s))
    && (forall s :: 0 <= s < 4 ==> PackageEntry(k, n, b, s))
    && (forall a: nat, c: nat :: a < 4 * n + 12 && c < 4 * n + 12 && a != c && !Meant(n, a, c) ==> b[a][c] == 0.0)
    && (forall a: nat :: a < 4 * n + 12 ==> Sum(4 * n + 12, RowEntry(b, a)) == Leaves(gAmb, n, a))
  }

  /** What a node conducts to the ambient: the sink under the blocks, and its edges. */
  function Leaves(gAmb: seq<real>, n: nat, a: nat): real
    requires |gAmb| == n + 12 && a < 4 * n + 12
  {
    if 3 * n <= a < 4 * n then gAmb[a - 3 * n] else if 4 * n + 4 <= a then gAmb[n + (a - 4 * n)] else 0.0
  }

  // ----- arithmetic

  /** Two half-conductances in series, each through half an extent. */
  lemma Series(g: real, h: real, w: real, v: real, q: real)
    requires w > 0.0 && v > 0.0 && q > 0.0 && Times(g, w / 2.0) == q && Times(h, v / 2.0) == q
    ensures Times(-Link(g, h), (w + v) / 2.0) == q
  {
    FactorPositive(g, w / 2.0);
    FactorPositive(h, v / 2.0);
    Inverse(g, w / 2.0, q);
    Inverse(h, v / 2.0, q);
    var r := 1.0 / g + 1.0 / h;
    assert r == (w / 2.0) / q + (v / 2.0) / q;
    AddedQuotients(w / 2.0, v / 2.0, q);
    Inverse(1.0 / r, (w + v) / 2.0, q);
  }

  lemma FactorPositive(g: real, a: real)
    requires a > 0.0 && g * a > 0.0
    ensures g > 0.0
  {
  }

  lemma AddedQuotients(a: real, b: real, q: real)
    requires q != 0.0
    ensures a / q + b / q == (a + b) / q
  {
  }

  lemma Inverse(g: real, a: real, q: real)
    requires g > 0.0 && q > 0.0 && a > 0.0
    ensures g * a == q <==> 1.0 / g == a / q
  {
    if g * a == q { assert a / q == a / (g * a) == 1.0 / g; }
    if 1.0 / g == a / q { assert g * (a / q) == 1.0; assert g * a == (g * (a / q)) * q; }
  }

  /** The same conductance on both sides. */
  lemma Twice(d: real)
    requires d > 0.0
    ensures Link(d, d) == -(d / 2.0)
  {
    assert 1.0 / d + 1.0 / d == 2.0 / d;
    assert 1.0 / (2.0 / d) == d / 2.0;
  }

  /** The share of a block's half-conductance that a stretch of its edge has. */
  lemma Stretch(gx: real, w: real, h: real, c: real, t: real, len: real)
    requires w > 0.0 && h > 0.0 && gx * (w / 2.0) == c * (h * t)
    ensures gx / h * len * (w / 2.0) == c * t * len
  {
    var q := gx / h;
    assert q * h == gx;
    assert (q * (w / 2.0) - c * t) * h == gx * (w / 2.0) - c * (h * t);
    assert q * (w / 2.0) == c * t;
    assert q * len * (w / 2.0) == (q * (w / 2.0)) * len;
  }

  lemma HalfTimes(k: Materials, l: nat, along: real, across: real)
    requires Proper(k) && l < 4 && along > 0.0 && across > 0.0
    ensures Half(k, l, along, across) * (along / 2.0) == k.conductivity[l] * (across * k.thickness[l])
  {
    var area := across * k.thickness[l];
    assert area > 0.0;
    var q := k.conductivity[l] * area;
    assert q > 0.0;
    assert Half(k, l, along, across) == 1.0 / ((along / 2.0) / q);
    Reciprocal(along / 2.0, q);
  }

  lemma Reciprocal(a: real, q: real)
    requires a > 0.0 && q > 0.0
    ensures a / q > 0.0 && 1.0 / (a / q) == q / a && 1.0 / (a / q) * a == q
  {
  }

  // ----- the model has these entries

  /** B and the conductances to the ambient are those of the floorplan. */
  ghost predicate Built(k: Materials, us: seq<Rect>, width: real, height: real, b: Matrix, g: Matrix, gAmb: seq<real>) {
    && Proper(k) && AllSolid(us)
    && var c := ChipOf(k, us, width, height);
       && Physical(c) && c.n == |us| && IsB(b, g, gAmb, c.n)
       && (forall a: nat, d: nat :: a < Nodes(c.n) && d < Nodes(c.n) ==> g[a][d] == Value(c, a, d))
       && (forall i :: 0 <= i < c.n + EXTRA ==> gAmb[i] == AmbientValue(c, i))
  }

  lemma EntryIs(k: Materials, us: seq<Rect>, width: real, height: real, b: Matrix, g: Matrix, gAmb: seq<real>, a: nat,
      d: nat)
    requires Built(k, us, width, height, b, g, gAmb) && a < 4 * |us| + 12 && d < 4 * |us| + 12 && a != d
    ensures var c := ChipOf(k, us, width, height);
            Get(b, a, d) == b[a][d] == Link(Value(c, a, d), Value(c, d, a))
  {
    hide Value, Link, ChipOf, Physical, AmbientValue;
  }

  lemma BuiltSolid(k: Materials, us: seq<Rect>, width: real, height: real, b: Matrix, g: Matrix, gAmb: seq<real>,
      i: nat)
    requires Built(k, us, width, height, b, g, gAmb) && i < |us|
    ensures Proper(k) && AllSolid(us) && Solid(us[i])
  {
  }

  lemma NodeParts(n: nat, l: nat, i: nat)
    requires l < 4 && i < n
    ensures Place(n, l, i) < 4 * n && LayerOf(n, Place(n, l, i)) == l && BlockOf(n, Place(n, l, i)) == i
  {
    if l == 0 { } else if l == 1 { } else if l == 2 { } else { }
  }

  lemma ValueInLayer(c: Chip, l: nat, i: nat, j: nat)
    requires Physical(c) && l < 4 && i < c.n && j < c.n && i != j
    ensures Place(c.n, l, i) < Nodes(c.n) && Place(c.n, l, j) < Nodes(c.n) && Place(c.n, l, i) != Place(c.n, l, j)
    ensures Value(c, Place(c.n, l, i), Place(c.n, l, j)) == Lateral(c, l, i, j)
  {
    hide Physical, Lateral, LayerOf, BlockOf, Place;
    NodeParts(c.n, l, i);
    NodeParts(c.n, l, j);
  }

  lemma LateralIs(k: Materials, us: seq<Rect>, width: real, height: real, l: nat, i: nat, j: nat)
    requires Proper(k) && AllSolid(us) && l < 4 && i < |us| && j < |us| && i != j
    requires Physical(ChipOf(k, us, width, height))
    ensures Lateral(ChipOf(k, us, width, height), l, i, j) == Towards(k, us[i], us[j], l)
  {
    hide Physical, HalfX, HalfY, HorizontallyAdjacent, VerticallyAdjacent, SharedLength;
  }

  /** From the centre of a block towards a neighbour in a layer. */
  function Towards(k: Materials, u: Rect, v: Rect, l: nat): real
    requires Proper(k) && l < 4 && Solid(u)
  {
    Times(if HorizontallyAdjacent(u, v) then HalfX(k, l, u) / u.height
          else if VerticallyAdjacent(u, v) then HalfY(k, l, u) / u.width else 0.0, SharedLength(u, v))
  }

  lemma AcrossTimes(k: Materials, u: Rect, l: nat, len: real)
    requires Proper(k) && l < 4 && Solid(u) && !(l == 0 && k.omitLateral)
    ensures Times(Times(HalfX(k, l, u) / u.height, len), u.width / 2.0) == Through(k, l, len)
  {
    hide Half;
    HalfTimes(k, l, u.width, u.height);
    Stretch(Half(k, l, u.width, u.height), u.width, u.height, k.conductivity[l], k.thickness[l], len);
  }

  lemma UpwardsTimes(k: Materials, u: Rect, l: nat, len: real)
    requires Proper(k) && l < 4 && Solid(u) && !(l == 0 && k.omitLateral)
    ensures Times(Times(HalfY(k, l, u) / u.width, len), u.height / 2.0) == Through(k, l, len)
  {
    hide Half;
    HalfTimes(k, l, u.height, u.width);
    Stretch(Half(k, l, u.height, u.width), u.height, u.width, k.conductivity[l], k.thickness[l], len);
  }

  /** Half an extent further, what flows towards a neighbour is material times shared length. */
  lemma TowardsTimes(k: Materials, u: Rect, v: Rect, l: nat)
    requires Proper(k) && l < 4 && Solid(u) && Solid(v) && !(l == 0 && k.omitLateral)
    ensures SideBySide(u, v) ==> Times(Towards(k, u, v, l), u.width / 2.0) == Through(k, l, SharedLength(u, v))
    ensures OnTop(u, v) ==> Times(Towards(k, u, v, l), u.height / 2.0) == Through(k, l, SharedLength(u, v))
    ensures !SideBySide(u, v) && !OnTop(u, v) ==> Towards(k, u, v, l) == 0.0
  {
    TouchRight(u, v);
    hide HorizontallyAdjacent, VerticallyAdjacent, SideBySide, OnTop, SharedLength, HalfX, HalfY, Times, Through;
    TimesZero(SharedLength(u, v));
    AcrossTimes(k, u, l, SharedLength(u, v));
    UpwardsTimes(k, u, l, SharedLength(u, v));
  }

  lemma Mutual(u: Rect, v: Rect)
    requires Solid(u) && Solid(v)
    ensures SideBySide(u, v) <==> SideBySide(v, u)
    ensures OnTop(u, v) <==> OnTop(v, u)
    ensures SharedLength(u, v) == SharedLength(v, u)
    ensures SideBySide(u, v) || OnTop(u, v) ==> SharedLength(u, v) > 0.0
  {
    SharedRight(u, v);
    TouchRight(u, v);
  }

  lemma LateralJoined(k: Materials, u: Rect, v: Rect, l: nat)
    requires Proper(k) && l < 4 && Solid(u) && Solid(v)
    ensures var g := -Link(Towards(k, u, v, l), Towards(k, v, u, l));
            if l == 0 && k.omitLateral then g == 0.0
            else if SideBySide(u, v) then Times(g, (u.width + v.width) / 2.0) == Through(k, l, SharedLength(u, v))
            else if OnTop(u, v) then Times(g, (u.height + v.height) / 2.0) == Through(k, l, SharedLength(u, v))
            else g == 0.0
  {
    Mutual(u, v);
    if l == 0 && k.omitLateral {
      SwitchedOff(k, u, v);
    } else {
      TowardsTimes(k, u, v, l);
      TowardsTimes(k, v, u, l);
      hide Towards, Link, SideBySide, OnTop, SharedLength, Times, Through;
      var q := Through(k, l, SharedLength(u, v));
      if SideBySide(u, v) || OnTop(u, v) { ThroughPositive(k, l, SharedLength(u, v)); }
      if SideBySide(u, v) {
        Series(Towards(k, u, v, l), Towards(k, v, u, l), u.width, v.width, q);
      } else if OnTop(u, v) {
        Series(Towards(k, u, v, l), Towards(k, v, u, l), u.height, v.height, q);
      } else {
        LinkNone(Towards(k, u, v, l), Towards(k, v, u, l));
      }
    }
  }

  lemma ThroughPositive(k: Materials, l: nat, len: real)
    requires Proper(k) && l < 4 && len > 0.0
    ensures Through(k, l, len) > 0.0
  {
    assert k.conductivity[l] * k.thickness[l] > 0.0;
  }

  lemma LinkNone(g: real, h: real)
    requires g == 0.0
    ensures Link(g, h) == 0.0
  {
  }

  lemma SwitchedOff(k: Materials, u: Rect, v: Rect)
    requires Proper(k) && Solid(u) && Solid(v) && k.omitLateral
    ensures Link(Towards(k, u, v, 0), Towards(k, v, u, 0)) == 0.0
  {
    hide SharedLength, HorizontallyAdjacent, VerticallyAdjacent, Times;
    TimesZero(SharedLength(u, v));
  }

  /** The entry of two blocks of a layer. */
  lemma LateralLink(k: Materials, us: seq<Rect>, width: real, height: real, b: Matrix, g: Matrix, gAmb: seq<real>,
      l: nat, i: nat, j: nat)
    requires Built(k, us, width, height, b, g, gAmb) && l < 4 && i < |us| && j < |us| && i != j
    ensures Get(b, Place(|us|, l, i), Place(|us|, l, j)) ==
            Link(Towards(k, us[i], us[j], l), Towards(k, us[j], us[i], l))
  {
    var c, n := ChipOf(k, us, width, height), |us|;
    hide ChipOf, Towards, Link, Value, Physical, Lateral, IsB, AmbientValue, Place;
    ValueInLayer(c, l, i, j);
    ValueInLayer(c, l, j, i);
    LateralIs(k, us, width, height, l, i, j);
    LateralIs(k, us, width, height, l, j, i);
    EntryIs(k, us, width, height, b, g, gAmb, Place(n, l, i), Place(n, l, j));
  }

  lemma LateralRight(k: Materials, us: seq<Rect>, width: real, height: real, b: Matrix, g: Matrix, gAmb: seq<real>,
      l: nat, i: nat, j: nat)
    requires Built(k, us, width, height, b, g, gAmb) && l < 4 && i < |us| && j < |us| && i != j
    ensures LateralEntry(k, us, b, l, i, j)
  {
    LateralLink(k, us, width, height, b, g, gAmb, l, i, j);
    TouchRight(us[i], us[j]);
    LateralJoined(k, us[i], us[j], l);
    hide ChipOf, Built, Towards, Link, SideBySide, OnTop, SharedLength, Meeting, Place, Through, Times;
  }

  // ----- layers

  lemma DownTimes(k: Materials, l: nat, u: Rect)
    requires Proper(k) && l < 4 && Solid(u)
    ensures Times(Downwards(k, l, u) / 2.0, k.thickness[l]) == Faced(k, l, u)
  {
    var q := k.conductivity[l] * Area(u);
    assert q > 0.0;
    Reciprocal(k.thickness[l], q);
    assert Downwards(k, l, u) == 2.0 / (k.thickness[l] / q);
    assert 2.0 / (k.thickness[l] / q) / 2.0 == 1.0 / (k.thickness[l] / q);
  }

  lemma ValueDown(c: Chip, l: nat, i: nat)
    requires Physical(c) && l < 3 && i < c.n
    ensures Place(c.n, l, i) < Nodes(c.n) && Place(c.n, l + 1, i) < Nodes(c.n)
    ensures Place(c.n, l, i) != Place(c.n, l + 1, i)
    ensures Value(c, Place(c.n, l, i), Place(c.n, l + 1, i)) == c.down[l][i]
    ensures Value(c, Place(c.n, l + 1, i), Place(c.n, l, i)) == c.down[l][i] > 0.0
  {
    hide LayerOf, BlockOf, Place;
    NodeParts(c.n, l, i);
    NodeParts(c.n, l + 1, i);
  }

  lemma DownIs(k: Materials, us: seq<Rect>, width: real, height: real, l: nat, i: nat)
    requires Proper(k) && AllSolid(us) && l < 3 && i < |us|
    ensures ChipOf(k, us, width, height).down[l][i] == Downwards(k, l, us[i])
  {
    hide Downwards;
  }

  lemma VerticalLink(k: Materials, us: seq<Rect>, width: real, height: real, b: Matrix, g: Matrix, gAmb: seq<real>,
      l: nat, i: nat)
    requires Built(k, us, width, height, b, g, gAmb) && l < 3 && i < |us|
    ensures Downwards(k, l, us[i]) > 0.0
    ensures Get(b, Place(|us|, l, i), Place(|us|, l + 1, i)) == Link(Downwards(k, l, us[i]), Downwards(k, l, us[i]))
  {
    var c, n := ChipOf(k, us, width, height), |us|;
    hide ChipOf, Link, Value, Physical, IsB, AmbientValue, Place, Downwards;
    ValueDown(c, l, i);
    DownIs(k, us, width, height, l, i);
    EntryIs(k, us, width, height, b, g, gAmb, Place(n, l, i), Place(n, l + 1, i));
  }

  lemma VerticalRight(k: Materials, us: seq<Rect>, width: real, height: real, b: Matrix, g: Matrix, gAmb: seq<real>,
      l: nat, i: nat)
    requires Built(k, us, width, height, b, g, gAmb) && l < 3 && i < |us|
    ensures VerticalEntry(k, us, b, l, i)
  {
    VerticalLink(k, us, width, height, b, g, gAmb, l, i);
    DownTimes(k, l, us[i]);
    hide Built, Link, Place, Downwards, Times, Faced, AllSolid;
    Twice(Downwards(k, l, us[i]));
    assert -Get(b, Place(|us|, l, i), Place(|us|, l + 1, i)) == Downwards(k, l, us[i]) / 2.0;
  }

  // ----- edges

  /** Half-conductance of a block towards a side of the chip. */
  function HalfTo(k: Materials, l: nat, u: Rect, s: nat): real
    requires Proper(k) && l < 4 && Solid(u)
  {
    if s < 2 then HalfX(k, l, u) else HalfY(k, l, u)
  }

  lemma HalfIs(k: Materials, l: nat, u: Rect, s: nat)
    requires Proper(k) && 1 <= l < 4 && Solid(u)
    ensures HalfTo(k, l, u, s) == ToSide(k, u, l, s) > 0.0
  {
    HalfTimes(k, l, u.width, u.height);
    HalfTimes(k, l, u.height, u.width);
    HalfPositive(k, l, u);
    hide Half;
    Divided(Half(k, l, u.width, u.height), u.width / 2.0, k.conductivity[l], k.thickness[l], u.height);
    Divided(Half(k, l, u.height, u.width), u.height / 2.0, k.conductivity[l], k.thickness[l], u.width);
  }

  lemma HalfPositive(k: Materials, l: nat, u: Rect)
    requires Proper(k) && l < 4 && Solid(u)
    ensures Half(k, l, u.width, u.height) > 0.0 && Half(k, l, u.height, u.width) > 0.0
  {
    hide Half;
  }

  lemma Divided(g: real, a: real, c: real, t: real, h: real)
    requires a > 0.0 && g * a == c * (h * t)
    ensures g == c * t * h / a
  {
    assert c * (h * t) == c * t * h;
    assert g == g * a / a;
  }

  lemma {:induction false} EdgeSumIs(k: Materials, us: seq<Rect>, width: real, height: real, l: nat, s: nat)
    requires Proper(k) && AllSolid(us) && 1 <= l < 4 && s < 4
    ensures EdgeSum(k, us, width, height, l, s) == EdgeTotal(k, us, width, height, l, s)
    decreases |us|
  {
    hide HalfX, HalfY, ToSide;
    if us != [] {
      var front, last := us[..|us| - 1], us[|us| - 1];
      EdgeSumIs(k, front, width, height, l, s);
      HalfIs(k, l, last, s);
      SumEqual(|front|, EdgeTerm(k, front, width, height, l, s), EdgeTerm(k, us, width, height, l, s));
    }
  }

  lemma EdgeShare(half: real, r: real, edge: real)
    requires half > 0.0 && r > 0.0 && edge >= 0.0
    ensures ToEdge(true, half, r, edge) > 0.0
    ensures Times(ToEdge(true, half, r, edge) / 2.0, 1.0 + Times(r, edge)) == half
  {
    EdgePositive(half, r, edge);
    NonnegativeProduct(r, edge);
    var q := 1.0 + r * edge;
    AddedQuotients(1.0, r * edge, half);
    Reciprocal(q, half);
    assert 2.0 / (q / half) / 2.0 == 1.0 / (q / half);
  }

  lemma ValueAtEdge(c: Chip, l: nat, i: nat, s: nat)
    requires Physical(c) && 2 <= l < 4 && i < c.n && s < 4
    ensures var a, e := Place(c.n, l, i), EdgeNode(c.n, l, s);
            && a < 4 * c.n <= e < Nodes(c.n)
            && Value(c, a, e) == Value(c, e, a) == if l == 2 then SpreaderEdge(c, i, s) else SinkEdge(c, i, s)
  {
    hide Physical, SpreaderEdge, SinkEdge, Place;
    NodeParts(c.n, l, i);
  }

  /** What the assembly takes for the edge. */
  lemma EdgeIs(k: Materials, us: seq<Rect>, width: real, height: real, l: nat, i: nat, s: nat)
    requires Proper(k) && AllSolid(us) && 2 <= l < 4 && i < |us| && s < 4 && Physical(ChipOf(k, us, width, height))
    ensures var c, r := ChipOf(k, us, width, height), if l == 2 then k.sp1 else k.hs1;
            && HalfTo(k, l, us[i], s) > 0.0 && Along(r, s) > 0.0 && EdgeSum(k, us, width, height, l, s) >= 0.0
            && (if l == 2 then SpreaderEdge(c, i, s) else SinkEdge(c, i, s)) ==
               ToEdge(OnEdge(us[i], width, height, s), HalfTo(k, l, us[i], s), Along(r, s),
                      EdgeSum(k, us, width, height, l, s))
  {
    hide HalfX, HalfY, EdgeSum, ToEdge, Physical;
    HalfSign(k, l, us[i], s);
  }

  lemma HalfSign(k: Materials, l: nat, u: Rect, s: nat)
    requires Proper(k) && 1 <= l < 4 && Solid(u)
    ensures HalfTo(k, l, u, s) > 0.0
  {
    hide Half;
  }

  /** The entry of a block and a package node. */
  lemma EdgeLink(k: Materials, us: seq<Rect>, width: real, height: real, b: Matrix, g: Matrix, gAmb: seq<real>,
      l: nat, i: nat, s: nat)
    requires Built(k, us, width, height, b, g, gAmb) && 2 <= l < 4 && i < |us| && s < 4
    ensures var r, half, edge := if l == 2 then k.sp1 else k.hs1, HalfTo(k, l, us[i], s),
                EdgeSum(k, us, width, height, l, s);
            && half > 0.0 && Along(r, s) > 0.0 && edge >= 0.0
            && var d := ToEdge(OnEdge(us[i], width, height, s), half, Along(r, s), edge);
               Get(b, Place(|us|, l, i), EdgeNode(|us|, l, s)) == Link(d, d)
  {
    var c, n := ChipOf(k, us, width, height), |us|;
    hide ChipOf, Link, Value, Physical, IsB, AmbientValue, Place, ToEdge, EdgeSum, HalfTo, OnEdge, SpreaderEdge,
        SinkEdge, EdgeNode, Along;
    ValueAtEdge(c, l, i, s);
    EdgeIs(k, us, width, height, l, i, s);
    EntryIs(k, us, width, height, b, g, gAmb, Place(n, l, i), EdgeNode(n, l, s));
  }

  lemma EdgeRight(k: Materials, us: seq<Rect>, width: real, height: real, b: Matrix, g: Matrix, gAmb: seq<real>,
      l: nat, i: nat, s: nat)
    requires Built(k, us, width, height, b, g, gAmb) && 2 <= l < 4 && i < |us| && s < 4
    ensures EdgeEntry(k, us, width, height, b, l, i, s)
  {
    hide Link, Built, Place, EdgeNode, ToEdge, EdgeSum, EdgeTotal, ToSide, HalfTo, Times, OnEdge, AllSolid, Proper,
        Solid;
    BuiltSolid(k, us, width, height, b, g, gAmb, i);
    var r := if l == 2 then k.sp1 else k.hs1;
    EdgeLink(k, us, width, height, b, g, gAmb, l, i, s);
    HalfIs(k, l, us[i], s);
    EdgeSumIs(k, us, width, height, l, s);
    var half, edge := HalfTo(k, l, us[i], s), EdgeSum(k, us, width, height, l, s);
    if OnEdge(us[i], width, height, s) {
      EdgeNumber(half, Along(r, s), edge);
    } else {
      OffEdge(half, Along(r, s), edge);
    }
  }

  lemma EdgeNumber(half: real, r: real, edge: real)
    requires half > 0.0 && r > 0.0 && edge >= 0.0
    ensures var d := ToEdge(true, half, r, edge); Times(-Link(d, d), 1.0 + Times(r, edge)) == half
  {
    hide ToEdge, Link, Times;
    EdgeShare(half, r, edge);
    Twice(ToEdge(true, half, r, edge));
    assert -Link(ToEdge(true, half, r, edge), ToEdge(true, half, r, edge)) == ToEdge(true, half, r, edge) / 2.0;
  }

  lemma OffEdge(half: real, r: real, edge: real)
    requires half > 0.0 && r > 0.0 && edge >= 0.0
    ensures Link(ToEdge(false, half, r, edge), ToEdge(false, half, r, edge)) == 0.0
  {
  }

  // ----- the package and the ambient

  lemma PackagePair(r: real)
    requires r > 0.0
    ensures 2.0 / r > 0.0 && Times(-Link(2.0 / r, 2.0 / r), r) == 1.0
  {
    Twice(2.0 / r);
    assert 2.0 / r / 2.0 == 1.0 / r;
  }

  lemma ValueInPackage(c: Chip, s: nat)
    requires Physical(c) && s < 4
    ensures var n := c.n;
            && Along(c.spPer, s) > 0.0 && Along(c.hs2, s) > 0.0
            && Value(c, 4 * n + s, 4 * n + 4 + s) == Value(c, 4 * n + 4 + s, 4 * n + s) == 2.0 / Along(c.spPer, s)
            && Value(c, 4 * n + 4 + s, 4 * n + 8 + s) == Value(c, 4 * n + 8 + s, 4 * n + 4 + s) == 2.0 / Along(c.hs2, s)
  {
    PackagePositive(c, s);
    hide Physical;
  }

  lemma PackageIs(k: Materials, us: seq<Rect>, width: real, height: real)
    requires Proper(k) && AllSolid(us)
    ensures var c := ChipOf(k, us, width, height);
            c.spPer == k.spPer && c.hs2 == k.hs2 && c.sinkCAmb == k.sinkCAmb && c.sinkAmb == k.sinkAmb && c.n == |us|
  {
  }

  lemma PackageLink(k: Materials, us: seq<Rect>, width: real, height: real, b: Matrix, g: Matrix, gAmb: seq<real>,
      s: nat)
    requires Built(k, us, width, height, b, g, gAmb) && s < 4
    ensures var n, per, out := |us|, Along(k.spPer, s), Along(k.hs2, s);
            && per > 0.0 && out > 0.0
            && Get(b, 4 * n + s, 4 * n + 4 + s) == Link(2.0 / per, 2.0 / per)
            && Get(b, 4 * n + 4 + s, 4 * n + 8 + s) == Link(2.0 / out, 2.0 / out)
  {
    var c, n := ChipOf(k, us, width, height), |us|;
    PackageIs(k, us, width, height);
    hide ChipOf, Link, Value, Physical, IsB, AmbientValue, Along;
    ValueInPackage(c, s);
    EntryIs(k, us, width, height, b, g, gAmb, 4 * n + s, 4 * n + 4 + s);
    EntryIs(k, us, width, height, b, g, gAmb, 4 * n + 4 + s, 4 * n + 8 + s);
  }

  lemma PackageRight(k: Materials, us: seq<Rect>, width: real, height: real, b: Matrix, g: Matrix, gAmb: seq<real>,
      s: nat)
    requires Built(k, us, width, height, b, g, gAmb) && s < 4
    ensures PackageEntry(k, |us|, b, s)
  {
    PackageLink(k, us, width, height, b, g, gAmb, s);
    hide Built, Link, Times;
    PackagePair(Along(k.spPer, s));
    PackagePair(Along(k.hs2, s));
  }

  lemma AmbientTimes(k: Materials, u: Rect)
    requires Proper(k) && Solid(u)
    ensures Times(1.0 / ToAmbient(k, u), SinkPath(k)) == u.width * u.height
  {
    ConvectionIs(k);
    hide Convection;
    InSeries(k.thickness[3], k.conductivity[3], Convection(k), Area(u));
  }

  lemma InSeries(t: real, c: real, share: real, a: real)
    requires t > 0.0 && c > 0.0 && share > 0.0 && a > 0.0
    ensures c * a > 0.0 && t / (c * a) + share / a > 0.0
    ensures Times(1.0 / (t / (c * a) + share / a), t / c + share) == a
  {
    OverArea(t, c, a);
    AddedQuotients(t / c, share, a);
    Reciprocal(t / c + share, a);
  }

  lemma ConvectionIs(k: Materials)
    requires Proper(k)
    ensures SinkPath(k) == k.thickness[3] / k.conductivity[3] + Convection(k)
  {
  }

  lemma OverArea(t: real, c: real, a: real)
    requires c > 0.0 && a > 0.0
    ensures c * a > 0.0 && t / (c * a) == t / c / a
  {
    var q := t / c / a;
    assert q * (c * a) == t;
  }

  lemma OneOver(r: real)
    requires r > 0.0
    ensures Times(1.0 / r, r) == 1.0
  {
  }

  lemma ToAmbientIs(k: Materials, us: seq<Rect>, width: real, height: real, i: nat)
    requires Proper(k) && AllSolid(us) && i < |us|
    ensures ChipOf(k, us, width, height).toAmbient[i] == ToAmbient(k, us[i])
  {
    hide ToAmbient;
  }

  lemma AmbientRight(k: Materials, us: seq<Rect>, width: real, height: real, b: Matrix, g: Matrix, gAmb: seq<real>)
    requires Built(k, us, width, height, b, g, gAmb)
    ensures AmbientEntries(k, us, gAmb)
  {
    var c, n := ChipOf(k, us, width, height), |us|;
    PackageIs(k, us, width, height);
    hide ChipOf, Link, Value, Physical, Times, ToAmbient, RowEntry, SinkPath, IsB;
    assert |gAmb| == n + 12;
    forall i: nat | i < n
      ensures Times(gAmb[i], SinkPath(k)) == us[i].width * us[i].height
    {
      ToAmbientIs(k, us, width, height, i);
      AmbientTimes(k, us[i]);
    }
    forall s: nat | s < 4 ensures SideAmbient(k, n, gAmb, s) {
      OneOver(Along(k.sinkCAmb, s));
      OneOver(k.sinkAmb);
    }
  }

  // ----- everything

  lemma NothingElse(c: Chip, a: nat, d: nat)
    requires Physical(c) && a < Nodes(c.n) && d < Nodes(c.n) && a != d && !Meant(c.n, a, d)
    ensures Value(c, a, d) == 0.0
  {
    hide Physical, Lateral, SpreaderEdge, SinkEdge, LayerOf, BlockOf;
    BlockBelow(c.n, a);
    BlockBelow(c.n, d);
    LayersInOrder(c.n, a);
    LayersInOrder(c.n, d);
    if a < 4 * c.n && d < 4 * c.n && BlockOf(c.n, a) == BlockOf(c.n, d) {
      if LayerOf(c.n, d) == LayerOf(c.n, a) + 1 { OneBelow(c.n, a, d); }
      if LayerOf(c.n, a) == LayerOf(c.n, d) + 1 { OneBelow(c.n, d, a); }
    }
  }

  lemma LayersInOrder(n: nat, a: nat)
    ensures LayerOf(n, a) == 2 ==> 2 * n <= a < 3 * n
    ensures LayerOf(n, a) == 3 ==> 3 * n <= a < 4 * n
    ensures LayerOf(n, a) < 4 <==> a < 4 * n
    ensures a >= 4 * n ==> LayerOf(n, a) == 4 && BlockOf(n, a) == a - 4 * n
  {
  }

  lemma OneBelow(n: nat, a: nat, d: nat)
    requires a < 4 * n && d < 4 * n && LayerOf(n, d) == LayerOf(n, a) + 1 && BlockOf(n, a) == BlockOf(n, d)
    ensures d == a + n
  {
  }

  /** All entries of B are what the floorplan and the materials say. */
  lemma EntriesRight(k: Materials, us: seq<Rect>, width: real, height: real, b: Matrix, g: Matrix, gAmb: seq<real>)
    requires Built(k, us, width, height, b, g, gAmb)
    ensures Conducts(k, us, width, height, b, gAmb)
  {
    var c, n := ChipOf(k, us, width, height), |us|;
    AmbientRight(k, us, width, height, b, g, gAmb);
    hide ChipOf, Physical, Value, AmbientValue, LateralEntry, VerticalEntry, EdgeEntry, PackageEntry, AmbientEntries,
        Link, LayerOf;
    forall l: nat, i: nat, j: nat | l < 4 && i < n && j < n && i != j ensures LateralEntry(k, us, b, l, i, j) {
      LateralRight(k, us, width, height, b, g, gAmb, l, i, j);
    }
    forall l: nat, i: nat | l < 3 && i < n ensures VerticalEntry(k, us, b, l, i) {
      VerticalRight(k, us, width, height, b, g, gAmb, l, i);
    }
    forall l: nat, i: nat, s: nat | 2 <= l < 4 && i < n && s < 4 ensures EdgeEntry(k, us, width, height, b, l, i, s) {
      EdgeRight(k, us, width, height, b, g, gAmb, l, i, s);
    }
    forall s: nat | s < 4 ensures PackageEntry(k, n, b, s) { PackageRight(k, us, width, height, b, g, gAmb, s); }
    forall a: nat, d: nat | a < 4 * n + 12 && d < 4 * n + 12 && a != d && !Meant(n, a, d) ensures b[a][d] == 0.0 {
      NothingElse(c, a, d);
      EntryIs(k, us, width, height, b, g, gAmb, a, d);
      LinkNone(Value(c, a, d), Value(c, d, a));
    }
  }
}
