/** Wrapping the L2 cache and the rim around a finished floorplan, in place. */
module Wrap {
  import opened Compass
  import opened Geometry
  import opened Rim
  import opened Strips
  import opened FloorplanLayout

  const WRAP_L2_RATIO: real := 5.0

  // ----- extent and translation

  ghost predicate LeftmostIs(us: seq<Rect>, x: real) {
    (exists i :: 0 <= i < |us| && us[i].leftx == x) && forall i :: 0 <= i < |us| ==> x <= us[i].leftx
  }

  ghost predicate BottomIs(us: seq<Rect>, y: real) {
    (exists i :: 0 <= i < |us| && us[i].bottomy == y) && forall i :: 0 <= i < |us| ==> y <= us[i].bottomy
  }

  ghost predicate RightmostIs(us: seq<Rect>, x: real) {
    (exists i :: 0 <= i < |us| && us[i].Right() == x) && forall i :: 0 <= i < |us| ==> us[i].Right() <= x
  }

  ghost predicate TopIs(us: seq<Rect>, y: real) {
    (exists i :: 0 <= i < |us| && us[i].Top() == y) && forall i :: 0 <= i < |us| ==> us[i].Top() <= y
  }

  method TotalWidth(flp: Flp) returns (w: real, ghost left: real, ghost right: real)
    requires 0 < flp.nUnits <= flp.units.Length
    ensures LeftmostIs(flp.units[..flp.nUnits], left) && RightmostIs(flp.units[..flp.nUnits], right)
        && w == right - left
  {
    var minx, maxx := flp.units[0].leftx, flp.units[0].Right();
    ghost var us := flp.units[..flp.nUnits];
    assert us[0] == flp.units[0];
    for i := 1 to flp.nUnits
      invariant exists k :: 0 <= k < |us| && us[k].leftx == minx
      invariant exists k :: 0 <= k < |us| && us[k].Right() == maxx
      invariant forall k :: 0 <= k < i ==> minx <= us[k].leftx && us[k].Right() <= maxx
    {
      assert us[i] == flp.units[i];
      if flp.units[i].leftx < minx { minx := flp.units[i].leftx; }
      if flp.units[i].Right() > maxx { maxx := flp.units[i].Right(); }
    }
    left, right := minx, maxx;
    return maxx - minx, left, right;
  }

  method TotalHeight(flp: Flp) returns (h: real, ghost bottom: real, ghost top: real)
    requires 0 < flp.nUnits <= flp.units.Length
    ensures BottomIs(flp.units[..flp.nUnits], bottom) && TopIs(flp.units[..flp.nUnits], top) && h == top - bottom
  {
    var miny, maxy := flp.units[0].bottomy, flp.units[0].Top();
    ghost var us := flp.units[..flp.nUnits];
    assert us[0] == flp.units[0];
    for i := 1 to flp.nUnits
      invariant exists k :: 0 <= k < |us| && us[k].bottomy == miny
      invariant exists k :: 0 <= k < |us| && us[k].Top() == maxy
      invariant forall k :: 0 <= k < i ==> miny <= us[k].bottomy && us[k].Top() <= maxy
    {
      assert us[i] == flp.units[i];
      if flp.units[i].bottomy < miny { miny := flp.units[i].bottomy; }
      if flp.units[i].Top() > maxy { maxy := flp.units[i].Top(); }
    }
    bottom, top := miny, maxy;
    return maxy - miny, bottom, top;
  }

  method TotalAreaOf(flp: Flp) returns (area: real)
    requires flp.nUnits <= flp.units.Length
    ensures area == TotalArea(flp.units[..flp.nUnits])
  {
    area := 0.0;
    for i := 0 to flp.nUnits
      invariant area == TotalArea(flp.units[..i])
    {
      assert flp.units[..i + 1][..i] == flp.units[..i];
      area := area + flp.units[i].width * flp.units[i].height;
    }
  }

  function Shifted(r: Rect, dx: real, dy: real): Rect { r.(leftx := r.leftx + dx, bottomy := r.bottomy + dy) }

  function AllShifted(us: seq<Rect>, dx: real, dy: real): (ss: seq<Rect>)
    ensures |ss| == |us| && forall i :: 0 <= i < |us| ==> ss[i] == Shifted(us[i], dx, dy)
  {
    if us == [] then [] else AllShifted(us[..|us| - 1], dx, dy) + [Shifted(us[|us| - 1], dx, dy)]
  }

  method MinCorner(flp: Flp) returns (minx: real, miny: real)
    requires 0 < flp.nUnits <= flp.units.Length
    ensures LeftmostIs(flp.units[..flp.nUnits], minx) && BottomIs(flp.units[..flp.nUnits], miny)
  {
    minx, miny := flp.units[0].leftx, flp.units[0].bottomy;
    ghost var us := flp.units[..flp.nUnits];
    assert us[0] == flp.units[0];
    for i := 1 to flp.nUnits
      invariant exists k :: 0 <= k < |us| && us[k].leftx == minx
      invariant exists k :: 0 <= k < |us| && us[k].bottomy == miny
      invariant forall k :: 0 <= k < i ==> minx <= us[k].leftx && miny <= us[k].bottomy
    {
      assert us[i] == flp.units[i];
      if minx > flp.units[i].leftx { minx := flp.units[i].leftx; }
      if miny > flp.units[i].bottomy { miny := flp.units[i].bottomy; }
    }
  }

  /** Moves the floorplan so that its left bottom corner is at the given point. */
  method Translate(flp: Flp, x: real, y: real, ghost box: Rect)
    requires 0 < flp.nUnits <= flp.units.Length && Tiles(flp.units[..flp.nUnits], box) && Solid(box)
    modifies flp.units
    ensures flp.units[..flp.nUnits] == AllShifted(old(flp.units[..flp.nUnits]), x - box.leftx, y - box.bottomy)
    ensures Tiles(flp.units[..flp.nUnits], Rect(x, y, box.width, box.height))
  {
    hide Tiles, LeftmostIs, BottomIs, RightmostIs, TopIs;
    var n := flp.nUnits;
    ghost var us := flp.units[..n];
    var minx, miny := MinCorner(flp);
    TiledExtent(us, box);
    ExtentUnique(us, minx, box.leftx, miny, box.bottomy);
    for i := 0 to n
      invariant forall k :: 0 <= k < i ==> flp.units[k] == Shifted(us[k], x - minx, y - miny)
      invariant forall k :: i <= k < n ==> flp.units[k] == us[k]
    {
      flp.units[i] := Shifted(flp.units[i], x - minx, y - miny);
    }
    assert flp.units[..n] == AllShifted(us, x - minx, y - miny);
    ShiftedTiles(us, box, x - minx, y - miny);
  }

  lemma TiledNonempty(us: seq<Rect>, box: Rect)
    requires Tiles(us, box) && Solid(box)
    ensures us != []
  {
    assert box.Has(box.leftx, box.bottomy);
    assert Covered(us, box.leftx, box.bottomy);
  }

  lemma CoveredAt(us: seq<Rect>, box: Rect, px: real, py: real) returns (i: nat)
    requires Tiles(us, box) && box.Has(px, py)
    ensures i < |us| && us[i].Has(px, py) && us[i].Inside(box)
  {
    assert Covered(us, px, py);
    i :| 0 <= i < |us| && us[i].Has(px, py);
  }

  lemma AllInside(us: seq<Rect>, box: Rect)
    requires Tiles(us, box)
    ensures forall i :: 0 <= i < |us| ==> us[i].Inside(box)
  {
  }

  /** The extent of a tiling is its box. */
  lemma TiledExtent(us: seq<Rect>, box: Rect)
    requires Tiles(us, box) && Solid(box)
    ensures LeftmostIs(us, box.leftx) && RightmostIs(us, box.Right()) && BottomIs(us, box.bottomy)
        && TopIs(us, box.Top())
  {
    hide Tiles;
    AllInside(us, box);
    var k := CoveredAt(us, box, box.leftx, box.bottomy);
    var s := Geometry.Below(|us|);
    assert k in s;
    var e := Farthest(us, s, (u: Rect) => u.Right());
    var n := Farthest(us, s, (u: Rect) => u.Top());
    if us[e].Right() < box.Right() {
      var j := CoveredAt(us, box, us[e].Right(), box.bottomy);
      assert false;
    }
    if us[n].Top() < box.Top() {
      var j := CoveredAt(us, box, box.leftx, us[n].Top());
      assert false;
    }
  }

  lemma ExtentUnique(us: seq<Rect>, a: real, b: real, c: real, d: real)
    requires LeftmostIs(us, a) && LeftmostIs(us, b) && BottomIs(us, c) && BottomIs(us, d)
    ensures a == b && c == d
  {
  }

  lemma SizeUnique(us: seq<Rect>, a: real, b: real, c: real, d: real)
    requires RightmostIs(us, a) && RightmostIs(us, b) && TopIs(us, c) && TopIs(us, d)
    ensures a == b && c == d
  {
  }

  lemma {:induction false} ShiftedArea(us: seq<Rect>, dx: real, dy: real)
    ensures TotalArea(AllShifted(us, dx, dy)) == TotalArea(us)
    decreases |us|
  {
    hide TotalArea;
    if us != [] {
      var front := us[..|us| - 1];
      ShiftedArea(front, dx, dy);
      TotalAreaLast(us);
      TotalAreaLast(AllShifted(us, dx, dy));
      assert AllShifted(us, dx, dy)[..|us| - 1] == AllShifted(front, dx, dy);
    }
  }

  lemma ShiftedTiles(us: seq<Rect>, box: Rect, dx: real, dy: real)
    requires Tiles(us, box)
    ensures Tiles(AllShifted(us, dx, dy), Shifted(box, dx, dy))
  {
    hide TotalArea, Rect.Inside, Rect.Apart, Rect.Has, Shifted;
    var ss, b := AllShifted(us, dx, dy), Shifted(box, dx, dy);
    ShiftedArea(us, dx, dy);
    ShiftedRect(box, box, dx, dy, 0.0, 0.0);
    forall i | 0 <= i < |ss| ensures ss[i].Inside(b) { ShiftedRect(us[i], box, dx, dy, 0.0, 0.0); }
    forall i, j | 0 <= i < j < |ss| ensures ss[i].Apart(ss[j]) { ShiftedRect(us[i], us[j], dx, dy, 0.0, 0.0); }
    forall px, py | b.Has(px, py) ensures Covered(ss, px, py) {
      ShiftedRect(box, box, dx, dy, px - dx, py - dy);
      var i := CoveredAt(us, box, px - dx, py - dy);
      ShiftedRect(us[i], box, dx, dy, px - dx, py - dy);
      assert ss[i].Has(px, py);
    }
  }

  /** Shifting changes no relation between rectangles, nor their areas. */
  lemma ShiftedRect(r: Rect, s: Rect, dx: real, dy: real, px: real, py: real)
    ensures var r', s' := Shifted(r, dx, dy), Shifted(s, dx, dy);
            && (r'.Inside(s') <==> r.Inside(s)) && (r'.Apart(s') <==> r.Apart(s)) && r'.Area() == r.Area()
            && (r'.Has(px + dx, py + dy) <==> r.Has(px, py))
  {
  }

  // ----- the L2 cache

  /** Width of the arms and height of the bottom part. */
  function L2Size(width: real, height: real, coreArea: real, area: real, sqrt: real -> real): (real, real) {
    var side := sqrt(coreArea + area);
    var x, y := (side - width) / 2.0, side - height;
    if x > 0.0 && y > 0.0 then (x, y)
    else if width >= height then
      var x := Solution(WRAP_L2_RATIO * width + 2.0 * height, area, sqrt);
      (x, WRAP_L2_RATIO * x)
    else
      var y := Solution(width + 2.0 * WRAP_L2_RATIO * height, area, sqrt);
      (WRAP_L2_RATIO * y, y)
  }

  /** The positive root of the quadratic equation for the size. */
  function Solution(sum: real, area: real, sqrt: real -> real): real {
    (sqrt(sum * sum + 8.0 * WRAP_L2_RATIO * area) - sum) / (4.0 * WRAP_L2_RATIO)
  }

  ghost predicate SquareRoot(sqrt: real -> real) {
    forall v :: v >= 0.0 ==> sqrt(v) >= 0.0 && sqrt(v) * sqrt(v) == v
  }

  lemma SquareGrows(a: real, b: real)
    requires 0.0 <= a < b
    ensures a * a < b * b
  {
    assert b * b - a * a == (b - a) * (b + a);
    PositiveProduct(b - a, b + a);
  }

  lemma PositiveProduct(p: real, q: real)
    requires p > 0.0 && q > 0.0
    ensures p * q > 0.0
  {
  }

  lemma Quadratic(sum: real, area: real, root: real, x: real)
    requires sum > 0.0 && area >= 0.0 && root >= 0.0 && root * root == sum * sum + 40.0 * area
        && x == (root - sum) / 20.0
    ensures x >= 0.0 && (area > 0.0 ==> x > 0.0) && 10.0 * x * x + sum * x == area
  {
    if root < sum { SquareGrows(root, sum); }
    assert root == 20.0 * x + sum;
    assert (20.0 * x + sum) * (20.0 * x + sum) == 400.0 * x * x + 40.0 * x * sum + sum * sum;
  }

  lemma SolutionRight(sum: real, area: real, sqrt: real -> real)
    requires sum > 0.0 && area >= 0.0 && SquareRoot(sqrt)
    ensures var x := Solution(sum, area, sqrt); x >= 0.0 && (area > 0.0 ==> x > 0.0) && 10.0 * x * x + sum * x == area
  {
    var v := sum * sum + 40.0 * area;
    assert sum * sum >= 0.0;
    assert sqrt(v) >= 0.0 && sqrt(v) * sqrt(v) == v;
    Quadratic(sum, area, sqrt(v), Solution(sum, area, sqrt));
  }

  lemma LandscapeSize(w: real, h: real, area: real, x: real)
    requires 10.0 * x * x + (5.0 * w + 2.0 * h) * x == area
    ensures Whole(w, h, x, 5.0 * x) == w * h + area
  {
    assert (2.0 * x + w) * (5.0 * x + h) == 10.0 * x * x + 2.0 * x * h + 5.0 * w * x + w * h;
  }

  lemma PortraitSize(w: real, h: real, area: real, y: real)
    requires 10.0 * y * y + (w + 10.0 * h) * y == area
    ensures Whole(w, h, 5.0 * y, y) == w * h + area
  {
    assert (10.0 * y + w) * (y + h) == 10.0 * y * y + 10.0 * y * h + w * y + w * h;
  }

  /** Area of the chip with the arms and the bottom part. */
  function Whole(w: real, h: real, x: real, y: real): real { (2.0 * x + w) * (y + h) }

  lemma SquareSize(w: real, h: real, area: real, side: real)
    requires side * side == w * h + area
    ensures Whole(w, h, (side - w) / 2.0, side - h) == w * h + area
  {
    assert 2.0 * ((side - w) / 2.0) + w == side;
  }

  /** The shape aimed at: a square chip where the core leaves room for one on both sides, otherwise a bottom part
      five times as high as the arms are wide, or arms five times as wide as the bottom part is high, for a core
      that is not higher than wide, or higher. */
  ghost predicate Proportioned(w: real, h: real, area: real, x: real, y: real) {
    if w * h + area > w * w && w * h + area > h * h then 2.0 * x + w == y + h
    else if w >= h then y == 5.0 * x
    else x == 5.0 * y
  }

  /** Sides compare like their squares. */
  lemma RootExceeds(side: real, w: real)
    requires side >= 0.0 && w > 0.0
    ensures side > w <==> side * side > w * w
  {
    if side > w { SquareGrows(w, side); } else if side < w { SquareGrows(side, w); }
  }

  lemma L2SizeProportioned(w: real, h: real, area: real, sqrt: real -> real)
    requires w > 0.0 && h > 0.0 && area >= 0.0 && SquareRoot(sqrt)
    ensures var (x, y) := L2Size(w, h, w * h, area, sqrt); Proportioned(w, h, area, x, y)
  {
    hide SquareRoot, Solution;
    RootOf(w, h, area, sqrt);
    RootExceeds(sqrt(w * h + area), w);
    RootExceeds(sqrt(w * h + area), h);
  }

  /** In each of its branches the computed size adds exactly the requested area to the core. */
  lemma L2SizeRight(w: real, h: real, area: real, sqrt: real -> real)
    requires w > 0.0 && h > 0.0 && area >= 0.0 && SquareRoot(sqrt)
    ensures var (x, y) := L2Size(w, h, w * h, area, sqrt);
            x >= 0.0 && y >= 0.0 && (area > 0.0 ==> x > 0.0 && y > 0.0) && Whole(w, h, x, y) == w * h + area
  {
    hide SquareRoot, Solution, Whole;
    var side := sqrt(w * h + area);
    RootOf(w, h, area, sqrt);
    if (side - w) / 2.0 > 0.0 && side - h > 0.0 {
      SquareSize(w, h, area, side);
    } else if w >= h {
      var sum := 5.0 * w + 2.0 * h;
      SolutionRight(sum, area, sqrt);
      LandscapeSize(w, h, area, Solution(sum, area, sqrt));
    } else {
      var sum := w + 10.0 * h;
      SolutionRight(sum, area, sqrt);
      PortraitSize(w, h, area, Solution(sum, area, sqrt));
    }
  }

  lemma RootOf(w: real, h: real, area: real, sqrt: real -> real)
    requires w > 0.0 && h > 0.0 && area >= 0.0 && SquareRoot(sqrt)
    ensures sqrt(w * h + area) >= 0.0 && sqrt(w * h + area) * sqrt(w * h + area) == w * h + area
  {
    assert w * h > 0.0;
  }

  function L2Bottom(w: real, h: real, x: real, y: real): Rect { Rect(0.0, 0.0, 2.0 * x + w, y) }

  function L2Left(w: real, h: real, x: real, y: real): Rect { Rect(0.0, y, x, h) }

  function L2Right(w: real, h: real, x: real, y: real): Rect { Rect(x + w, y, x, h) }

  /** The three parts complete the core to a rectangle. */
  lemma L2Tiles(us: seq<Rect>, w: real, h: real, x: real, y: real)
    requires w > 0.0 && h > 0.0 && x >= 0.0 && y >= 0.0 && Tiles(us, Rect(x, y, w, h))
    ensures Tiles(us + [L2Bottom(w, h, x, y), L2Left(w, h, x, y), L2Right(w, h, x, y)],
        Rect(0.0, 0.0, 2.0 * x + w, y + h))
  {
    hide Tiles, Rect.Area;
    var b, l, r := L2Bottom(w, h, x, y), L2Left(w, h, x, y), L2Right(w, h, x, y);
    OneTile(b);
    OneTile(l);
    OneTile(r);
    JoinTiles([l], l, us, Rect(x, y, w, h), Rect(0.0, y, x + w, h));
    JoinTiles([l] + us, Rect(0.0, y, x + w, h), [r], r, Rect(0.0, y, x + w + x, h));
    JoinTiles([b], b, [l] + us + [r], Rect(0.0, y, x + w + x, h), Rect(0.0, 0.0, 2.0 * x + w, y + h));
    var order, given := [b] + ([l] + us + [r]), us + [b, l, r];
    assert multiset([b, l, r]) == multiset([b]) + multiset([l]) + multiset([r]);
    assert multiset(given) == multiset(order);
    PermutedTiles(given, order, Rect(0.0, 0.0, 2.0 * x + w, y + h));
  }

  lemma TilesArea(us: seq<Rect>, box: Rect)
    requires Tiles(us, box)
    ensures TotalArea(us) == box.Area()
  {
  }

  /** The parts have the requested area in total. */
  lemma L2PartsArea(us: seq<Rect>, parts: seq<Rect>, w: real, h: real, x: real, y: real, area: real)
    requires Tiles(us, Rect(x, y, w, h)) && Tiles(us + parts, Rect(0.0, 0.0, 2.0 * x + w, y + h))
        && Whole(w, h, x, y) == w * h + area
    ensures TotalArea(parts) == area
  {
    hide Tiles, TotalArea;
    TilesArea(us, Rect(x, y, w, h));
    TilesArea(us + parts, Rect(0.0, 0.0, 2.0 * x + w, y + h));
    TotalAreaConcat(us, parts);
  }

  /** Appends the bottom part and the two arms. */
  method AddL2Parts(flp: Flp, width: real, height: real, x: real, y: real)
    requires flp.nUnits + 3 <= flp.units.Length
    modifies flp, flp.units
    ensures flp.nUnits == old(flp.nUnits) + 3
    ensures flp.units[..flp.nUnits] ==
            old(flp.units[..flp.nUnits])
            + [L2Bottom(width, height, x, y), L2Left(width, height, x, y), L2Right(width, height, x, y)]
  {
    var n := flp.nUnits;
    flp.units[n] := Rect(0.0, 0.0, 2.0 * x + width, y);
    flp.units[n + 1] := Rect(0.0, y, x, height);
    flp.units[n + 2] := Rect(x + width, y, x, height);
    flp.nUnits := n + 3;
  }

  /** Wraps the L2 cache around the core: a bottom part and two arms. Core and parts fill a rectangle, the
      parts have exactly the requested area, and the core keeps its shape. */
  method WrapL2(flp: Flp, area: real, sqrt: real -> real, ghost box: Rect) returns (ghost x: real, ghost y: real)
    requires flp.nUnits + 3 <= flp.units.Length && Tiles(flp.units[..flp.nUnits], box) && Solid(box)
    requires area >= 0.0 && SquareRoot(sqrt)
    modifies flp, flp.units
    ensures flp.nUnits == old(flp.nUnits) + 3 && x >= 0.0 && y >= 0.0 && (area > 0.0 ==> x > 0.0 && y > 0.0)
    ensures Proportioned(box.width, box.height, area, x, y)
    ensures area > 0.0 && AllSolid(old(flp.units[..flp.nUnits])) ==> AllSolid(flp.units[..flp.nUnits])
    ensures flp.units[..flp.nUnits - 3] == AllShifted(old(flp.units[..flp.nUnits]), x - box.leftx, y - box.bottomy)
    ensures Tiles(flp.units[..flp.nUnits], Rect(0.0, 0.0, 2.0 * x + box.width, y + box.height))
    ensures TotalArea(flp.units[flp.nUnits - 3..flp.nUnits]) == area
  {
    hide Tiles, TotalArea, L2Size, SquareRoot, LeftmostIs, RightmostIs, BottomIs, TopIs, Whole, AllSolid,
        Proportioned;
    var n := flp.nUnits;
    ghost var us := flp.units[..n];
    TiledNonempty(us, box);
    var coreArea := TotalAreaOf(flp);
    TilesArea(us, box);
    var width, height := CoreSize(flp, box);
    assert coreArea == width * height;
    var (armWidth, bottomHeight) := L2Size(width, height, coreArea, area, sqrt);
    L2SizeRight(width, height, area, sqrt);
    L2SizeProportioned(width, height, area, sqrt);
    Translate(flp, armWidth, bottomHeight, box);
    ghost var core := flp.units[..n];
    AddL2Parts(flp, width, height, armWidth, bottomHeight);
    x, y := armWidth, bottomHeight;
    ghost var parts := [L2Bottom(width, height, x, y), L2Left(width, height, x, y), L2Right(width, height, x, y)];
    assert flp.units[..n] == core && flp.units[n..n + 3] == parts;
    L2Tiles(core, width, height, x, y);
    L2PartsArea(core, parts, width, height, x, y, area);
    if area > 0.0 && AllSolid(us) {
      PartsSolid(width, height, x, y);
      WrappedSolid(us, x - box.leftx, y - box.bottomy, parts);
    }
  }

  lemma PartsSolid(w: real, h: real, x: real, y: real)
    requires w > 0.0 && h > 0.0 && x > 0.0 && y > 0.0
    ensures AllSolid([L2Bottom(w, h, x, y), L2Left(w, h, x, y), L2Right(w, h, x, y)])
  {
  }

  lemma WrappedSolid(us: seq<Rect>, dx: real, dy: real, parts: seq<Rect>)
    requires AllSolid(us) && AllSolid(parts)
    ensures AllSolid(AllShifted(us, dx, dy) + parts)
  {
  }

  /** Width and height of the floorplan. */
  method CoreSize(flp: Flp, ghost box: Rect) returns (width: real, height: real)
    requires 0 < flp.nUnits <= flp.units.Length && Tiles(flp.units[..flp.nUnits], box) && Solid(box)
    ensures width == box.width && height == box.height
  {
    hide Tiles, LeftmostIs, RightmostIs, BottomIs, TopIs;
    ghost var us := flp.units[..flp.nUnits];
    ghost var left, right, bottom, top;
    width, left, right := TotalWidth(flp);
    height, bottom, top := TotalHeight(flp);
    TiledExtent(us, box);
    ExtentUnique(us, left, box.leftx, bottom, box.bottomy);
    SizeUnique(us, right, box.Right(), top, box.Top());
  }

  // ----- the rim

  lemma {:induction false} RingPrefix(f: Frame, us: seq<Rect>, i: nat)
    requires i <= |us|
    ensures |Ring(f, us[..i])| <= |Ring(f, us)|
    decreases |us|
  {
    if i == |us| {
      assert us[..i] == us;
    } else {
      RingPrefix(f, us[..|us| - 1], i);
      assert us[..|us| - 1][..i] == us[..i];
    }
  }

  /** Writes the western and eastern strips of one block from index `at` on. */
  method AddSides(units: array<Rect>, f: Frame, u: Rect, at: nat) returns (next: nat)
    requires at + |Piece(f, West, u) + Piece(f, East, u)| <= units.Length
    modifies units
    ensures next == at + |Piece(f, West, u) + Piece(f, East, u)|
    ensures units[..next] == old(units[..at]) + (Piece(f, West, u) + Piece(f, East, u))
  {
    ghost var before := units[..at];
    next := at;
    if u.leftx == f.rim {
      var height := if u.Top() == f.height + f.rim then u.height + f.rim else u.height;
      units[next] := Rect(0.0, u.bottomy, f.rim, height);
      next := next + 1;
    }
    assert units[..next] == before + Piece(f, West, u);
    if u.Right() == f.width + f.rim {
      if u.bottomy == f.rim {
        units[next] := Rect(u.Right(), 0.0, f.rim, u.height + f.rim);
      } else {
        units[next] := Rect(u.Right(), u.bottomy, f.rim, u.height);
      }
      next := next + 1;
    }
  }

  /** Writes its northern and southern strips. */
  method AddEnds(units: array<Rect>, f: Frame, u: Rect, at: nat) returns (next: nat)
    requires at + |Piece(f, North, u) + Piece(f, South, u)| <= units.Length
    modifies units
    ensures next == at + |Piece(f, North, u) + Piece(f, South, u)|
    ensures units[..next] == old(units[..at]) + (Piece(f, North, u) + Piece(f, South, u))
  {
    ghost var before := units[..at];
    next := at;
    if u.Top() == f.height + f.rim {
      var width := if u.Right() == f.width + f.rim then u.width + f.rim else u.width;
      units[next] := Rect(u.leftx, u.Top(), width, f.rim);
      next := next + 1;
    }
    assert units[..next] == before + Piece(f, North, u);
    if u.bottomy == f.rim {
      if u.leftx == f.rim {
        units[next] := Rect(0.0, 0.0, u.width + f.rim, f.rim);
      } else {
        units[next] := Rect(u.leftx, 0.0, u.width, f.rim);
      }
      next := next + 1;
    }
  }

  /** Writes the strips of all blocks after the blocks themselves. */
  method AddRing(flp: Flp, f: Frame, ghost us: seq<Rect>) returns (next: nat)
    requires flp.nUnits + |Ring(f, us)| <= flp.units.Length && us == flp.units[..flp.nUnits]
    modifies flp.units
    ensures next == flp.nUnits + |Ring(f, us)| && flp.units[..next] == us + Ring(f, us)
  {
    hide Ring, Piece;
    var n := flp.nUnits;
    next := n;
    RingStart(f, us);
    for i := 0 to n
      invariant next == n + |Ring(f, us[..i])| && |Ring(f, us[..i])| <= |Ring(f, us)|
      invariant flp.units[..next] == us + Ring(f, us[..i])
    {
      assert flp.units[..next][i] == us[i];
      var u := flp.units[i];
      RingStep(f, us, i);
      RingPrefix(f, us, i + 1);
      next := AddSides(flp.units, f, u, next);
      next := AddEnds(flp.units, f, u, next);
      Appended(us, Ring(f, us[..i]), Piece(f, West, u) + Piece(f, East, u), Piece(f, North, u) + Piece(f, South, u));
      assert Pieces(f, u) == Piece(f, West, u) + Piece(f, East, u) + (Piece(f, North, u) + Piece(f, South, u));
    }
    assert us[..n] == us;
  }

  lemma Appended(a: seq<Rect>, b: seq<Rect>, c: seq<Rect>, d: seq<Rect>)
    ensures a + b + c + d == a + (b + (c + d))
  {
  }

  function RimFrame(rim: real, box: Rect): Frame { Frame(rim, box.width, box.height) }

  /** The blocks moved inside the rim. */
  function Inset(us: seq<Rect>, rim: real, box: Rect): seq<Rect> { AllShifted(us, rim - box.leftx, rim - box.bottomy) }

  /** Wraps the rim around, given room for the strips. Blocks and strips tile the enlarged chip exactly when
      no empty block does harm, and then there are at most two strips for each block plus two. */
  method WrapRim(flp: Flp, rim: real, ghost box: Rect) returns (added: nat)
    requires flp.nUnits <= flp.units.Length && rim > 0.0 && Tiles(flp.units[..flp.nUnits], box) && Solid(box)
    requires flp.nUnits + |Ring(RimFrame(rim, box), Inset(flp.units[..flp.nUnits], rim, box))| <= flp.units.Length
    modifies flp, flp.units
    ensures flp.nUnits == old(flp.nUnits) + added <= flp.units.Length
    ensures var us := Inset(old(flp.units[..flp.nUnits]), rim, box);
            && flp.units[..flp.nUnits] == us + Ring(RimFrame(rim, box), us)
            && (Tiles(flp.units[..flp.nUnits], RimFrame(rim, box).Whole()) <==> Harmless(RimFrame(rim, box), us))
            && added <= 2 * |us| + 2 + Count(us, Empty)
            && (Harmless(RimFrame(rim, box), us) ==> added <= 2 * |us| + 2)
  {
    hide Tiles, Ring, Harmless, Count;
    var n := flp.nUnits;
    TiledNonempty(flp.units[..n], box);
    var width, height := CoreSize(flp, box);
    Translate(flp, rim, rim, box);
    var f := Frame(rim, width, height);
    ghost var us := flp.units[..n];
    assert Blocks(f, us);
    RingSize(f, us);
    RimTilesIff(f, us);
    var next := AddRing(flp, f, us);
    flp.nUnits := next;
    added := next - n;
  }

  /** Blocks of positive area leave room and do no harm. */
  lemma SolidRim(us: seq<Rect>, rim: real, box: Rect)
    requires rim > 0.0 && Tiles(us, box) && Solid(box) && AllSolid(us)
    ensures Harmless(RimFrame(rim, box), Inset(us, rim, box))
        && |Ring(RimFrame(rim, box), Inset(us, rim, box))| <= 2 * |us| + 2
  {
    hide Tiles, Ring, Harmless, Count;
    var f, vs := RimFrame(rim, box), Inset(us, rim, box);
    ShiftedTiles(us, box, rim - box.leftx, rim - box.bottomy);
    assert Blocks(f, vs);
    SolidHarmless(f, vs);
    RingSize(f, vs);
  }

  lemma RingStart(f: Frame, us: seq<Rect>)
    ensures Ring(f, us[..0]) == [] && us + Ring(f, us[..0]) == us
  {
  }

  lemma RingStep(f: Frame, us: seq<Rect>, i: nat)
    requires i < |us|
    ensures Ring(f, us[..i + 1]) == Ring(f, us[..i]) + Pieces(f, us[i])
  {
    assert us[..i + 1][..i] == us[..i];
  }
}
