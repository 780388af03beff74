/** From a floorplan to what the conductance assembly starts from: half-conductances of the blocks in each layer,
    which blocks share an edge and how much of it, and which blocks abut the edges of the chip. */
module BlockGeometry {
  import opened Compass
  import opened RealFunctions
  import opened Geometry
  import opened BlockAssembly

  /** Thickness and conductivity of silicon, interface, spreader and sink, the convection resistance, the sides of
      spreader and sink, and the package resistances. */
  datatype Materials = Materials(thickness: seq<real>, conductivity: seq<real>, omitLateral: bool, convection: real,
                                 spreaderSide: real, sinkSide: real, sp1: Axes, hs1: Axes, spPer: Axes, hs2: Axes,
                                 sinkCAmb: Axes, sinkAmb: real)

  ghost predicate Proper(k: Materials) {
    && |k.thickness| == |k.conductivity| == 4
    && (forall l :: 0 <= l < 4 ==> k.thickness[l] > 0.0 && k.conductivity[l] > 0.0)
    && k.convection > 0.0 && k.sinkSide > 0.0
    && k.sp1.x > 0.0 && k.sp1.y > 0.0 && k.hs1.x > 0.0 && k.hs1.y > 0.0 && k.spPer.x > 0.0 && k.spPer.y > 0.0
    && k.hs2.x > 0.0 && k.hs2.y > 0.0 && k.sinkCAmb.x > 0.0 && k.sinkCAmb.y > 0.0 && k.sinkAmb > 0.0
  }

  /** Resistance of a piece of material along its thickness. */
  function Resistance(conductivity: real, thickness: real, area: real): (r: real)
    requires conductivity > 0.0 && thickness > 0.0 && area > 0.0
    ensures r > 0.0
  {
    assert conductivity * area > 0.0;
    thickness / (conductivity * area)
  }

  /** Half-conductance of a block sideways: half its extent along, its other extent times the layer across. */
  function Half(k: Materials, l: nat, along: real, across: real): (g: real)
    requires Proper(k) && l < 4 && along > 0.0 && across > 0.0
    ensures g > 0.0
  {
    assert across * k.thickness[l] > 0.0;
    1.0 / Resistance(k.conductivity[l], along / 2.0, across * k.thickness[l])
  }

  function HalfX(k: Materials, l: nat, u: Rect): (g: real)
    requires Proper(k) && l < 4 && Solid(u)
    ensures g >= 0.0 && (l > 0 ==> g > 0.0)
  {
    if l == 0 && k.omitLateral then 0.0 else Half(k, l, u.width, u.height)
  }

  function HalfY(k: Materials, l: nat, u: Rect): (g: real)
    requires Proper(k) && l < 4 && Solid(u)
    ensures g >= 0.0 && (l > 0 ==> g > 0.0)
  {
    if l == 0 && k.omitLateral then 0.0 else Half(k, l, u.height, u.width)
  }

  // ----- neighbours

  /** The blocks touch at corners only, diagonally. */
  predicate Diagonal(u: Rect, v: Rect) {
    (u.Right() == v.leftx || u.leftx == v.Right()) && (u.Top() == v.bottomy || u.bottomy == v.Top())
  }

  /** One of the boundaries of each range lies in the other. */
  predicate RangesMeet(a: real, b: real, c: real, d: real) {
    (a <= c <= b) || (a <= d <= b) || (c <= a <= d) || (c <= b <= d)
  }

  predicate HorizontallyAdjacent(u: Rect, v: Rect) {
    !Diagonal(u, v) && (u.leftx == v.Right() || u.Right() == v.leftx)
        && RangesMeet(u.bottomy, u.Top(), v.bottomy, v.Top())
  }

  predicate VerticallyAdjacent(u: Rect, v: Rect) {
    !Diagonal(u, v) && (u.bottomy == v.Top() || u.Top() == v.bottomy)
        && RangesMeet(u.leftx, u.Right(), v.leftx, v.Right())
  }

  function Overlap(a: real, b: real, c: real, d: real): real {
    (if b < d then b else d) - (if a > c then a else c)
  }

  /** The length two blocks share; nothing if they are not adjacent. */
  function SharedLength(u: Rect, v: Rect): real {
    if VerticallyAdjacent(u, v) then Overlap(u.leftx, u.Right(), v.leftx, v.Right())
    else if HorizontallyAdjacent(u, v) then Overlap(u.bottomy, u.Top(), v.bottomy, v.Top())
    else 0.0
  }

  /** Adjacency and shared length are mutual; the length is positive exactly for adjacent blocks. */
  lemma SharedRight(u: Rect, v: Rect)
    requires Solid(u) && Solid(v)
    ensures HorizontallyAdjacent(u, v) <==> HorizontallyAdjacent(v, u)
    ensures VerticallyAdjacent(u, v) <==> VerticallyAdjacent(v, u)
    ensures SharedLength(u, v) == SharedLength(v, u) >= 0.0
    ensures SharedLength(u, v) > 0.0 <==> HorizontallyAdjacent(u, v) || VerticallyAdjacent(u, v)
  {
  }

  // ----- the edges of the chip

  /** Block at the western, eastern, northern or southern edge. */
  predicate AtBorder(u: Rect, width: real, height: real, s: nat) {
    if s == 0 then u.leftx == 0.0 else if s == 1 then u.Right() == width
    else if s == 2 then u.Top() == height else u.bottomy == 0.0
  }

  /** The half-conductances of layer `l` shorted at an edge. */
  function EdgeSum(k: Materials, us: seq<Rect>, width: real, height: real, l: nat, s: nat): (g: real)
    requires Proper(k) && l < 4 && AllSolid(us)
    ensures g >= 0.0
  {
    if us == [] then 0.0
    else
      var u := us[|us| - 1];
      EdgeSum(k, us[..|us| - 1], width, height, l, s)
      + if AtBorder(u, width, height, s) then (if s < 2 then HalfX(k, l, u) else HalfY(k, l, u)) else 0.0
  }

  // ----- everything together

  function Area(u: Rect): (a: real)
    requires Solid(u)
    ensures a > 0.0
  {
    u.height * u.width
  }

  /** Vertical conductance of a layer under a block. */
  function Downwards(k: Materials, l: nat, u: Rect): (g: real)
    requires Proper(k) && l < 4 && Solid(u)
    ensures g > 0.0
  {
    2.0 / Resistance(k.conductivity[l], k.thickness[l], Area(u))
  }

  /** The convection resistance of the whole sink, for an area of one. */
  function Convection(k: Materials): (r: real)
    requires Proper(k)
    ensures r > 0.0
  {
    TimesPositive(k.sinkSide, k.sinkSide);
    TimesPositive(k.convection, Times(k.sinkSide, k.sinkSide));
    Times(k.convection, Times(k.sinkSide, k.sinkSide))
  }

  /** Resistance from the sink under a block to the ambient: convection is shared out by area. */
  function ToAmbient(k: Materials, u: Rect): (r: real)
    requires Proper(k) && Solid(u)
    ensures r > 0.0
  {
    Resistance(k.conductivity[3], k.thickness[3], Area(u)) + Convection(k) / Area(u)
  }

  // The tables of the chip, one entry for each block, or one row for each layer or block.

  function HalvesX(k: Materials, us: seq<Rect>): (t: seq<seq<real>>)
    requires Proper(k) && AllSolid(us)
    ensures Table(t, 4, |us|) && forall l, i :: 0 <= l < 4 && 0 <= i < |us| ==> t[l][i] == HalfX(k, l, us[i])
  {
    seq(4, l requires 0 <= l < 4 => seq(|us|, i requires 0 <= i < |us| => HalfX(k, l, us[i])))
  }

  function HalvesY(k: Materials, us: seq<Rect>): (t: seq<seq<real>>)
    requires Proper(k) && AllSolid(us)
    ensures Table(t, 4, |us|) && forall l, i :: 0 <= l < 4 && 0 <= i < |us| ==> t[l][i] == HalfY(k, l, us[i])
  {
    seq(4, l requires 0 <= l < 4 => seq(|us|, i requires 0 <= i < |us| => HalfY(k, l, us[i])))
  }

  function HorizontalTable(us: seq<Rect>): (t: seq<seq<bool>>)
    ensures Flags(t, |us|, |us|)
    ensures forall i, j :: 0 <= i < |us| && 0 <= j < |us|
              ==> (t[i][j] <==> i != j && HorizontallyAdjacent(us[i], us[j]))
  {
    seq(|us|, i requires 0 <= i < |us| =>
      seq(|us|, j requires 0 <= j < |us| => i != j && HorizontallyAdjacent(us[i], us[j])))
  }

  function VerticalTable(us: seq<Rect>): (t: seq<seq<bool>>)
    ensures Flags(t, |us|, |us|)
    ensures forall i, j :: 0 <= i < |us| && 0 <= j < |us| ==> (t[i][j] <==> i != j && VerticallyAdjacent(us[i], us[j]))
  {
    seq(|us|, i requires 0 <= i < |us| =>
      seq(|us|, j requires 0 <= j < |us| => i != j && VerticallyAdjacent(us[i], us[j])))
  }

  function LengthTable(us: seq<Rect>): (t: seq<seq<real>>)
    ensures Table(t, |us|, |us|)
    ensures forall i, j :: 0 <= i < |us| && 0 <= j < |us| ==>
              t[i][j] == if i == j then 0.0 else SharedLength(us[i], us[j])
  {
    seq(|us|, i requires 0 <= i < |us| =>
      seq(|us|, j requires 0 <= j < |us| => if i == j then 0.0 else SharedLength(us[i], us[j])))
  }

  function DownTable(k: Materials, us: seq<Rect>): (t: seq<seq<real>>)
    requires Proper(k) && AllSolid(us)
    ensures Table(t, 3, |us|) && forall l, i :: 0 <= l < 3 && 0 <= i < |us| ==> t[l][i] == Downwards(k, l, us[i])
  {
    seq(3, l requires 0 <= l < 3 => seq(|us|, i requires 0 <= i < |us| => Downwards(k, l, us[i])))
  }

  function BorderTable(us: seq<Rect>, width: real, height: real): (t: seq<seq<bool>>)
    ensures Flags(t, |us|, 4)
    ensures forall i, s :: 0 <= i < |us| && 0 <= s < 4 ==> (t[i][s] <==> AtBorder(us[i], width, height, s))
  {
    seq(|us|, i requires 0 <= i < |us| => seq(4, s requires 0 <= s < 4 => AtBorder(us[i], width, height, s)))
  }

  function EdgeTable(k: Materials, us: seq<Rect>, width: real, height: real, l: nat): (t: seq<real>)
    requires Proper(k) && AllSolid(us) && l < 4
    ensures |t| == 4 && forall s :: 0 <= s < 4 ==> t[s] == EdgeSum(k, us, width, height, l, s)
  {
    seq(4, s requires 0 <= s < 4 => EdgeSum(k, us, width, height, l, s))
  }

  function ChipOf(k: Materials, us: seq<Rect>, width: real, height: real): Chip
    requires Proper(k) && AllSolid(us)
  {
    Chip(|us|, seq(|us|, i requires 0 <= i < |us| => us[i].width), seq(|us|, i requires 0 <= i < |us| => us[i].height),
         HalvesX(k, us), HalvesY(k, us), HorizontalTable(us), VerticalTable(us), LengthTable(us), DownTable(k, us),
         seq(|us|, i requires 0 <= i < |us| => ToAmbient(k, us[i])), BorderTable(us, width, height),
         EdgeTable(k, us, width, height, 2), EdgeTable(k, us, width, height, 3),
         k.sp1, k.hs1, k.spPer, k.hs2, k.sinkCAmb, k.sinkAmb)
  }

  /** Blocks of positive size and proper materials give the assembly what it asks for. */
  lemma ChipPhysical(k: Materials, us: seq<Rect>, width: real, height: real)
    requires Proper(k) && AllSolid(us)
    ensures Physical(ChipOf(k, us, width, height)) && ChipOf(k, us, width, height).n == |us|
  {
    hide HalfX, HalfY, Downwards, ToAmbient, EdgeSum, SharedLength, HorizontallyAdjacent, VerticallyAdjacent;
    forall i, j | 0 <= i < |us| && 0 <= j < |us| ensures SharedLength(us[i], us[j]) >= 0.0 {
      SharedRight(us[i], us[j]);
    }
  }
}
