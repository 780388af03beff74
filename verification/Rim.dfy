/** The rim around a floorplan: one strip for every block on an edge, extended at the corners clockwise. */
module Rim {
  import opened Compass
  import opened Geometry
  import opened Strips

  /** Rim thickness and size of the core, which lies inside the rim. */
  datatype Frame = Frame(rim: real, width: real, height: real) {
    function Core(): Rect { Rect(rim, rim, width, height) }
    function Whole(): Rect { Rect(0.0, 0.0, width + 2.0 * rim, height + 2.0 * rim) }
    predicate Positive() { rim > 0.0 && width > 0.0 && height > 0.0 }
  }

  /** The block abuts that edge of the core. */
  predicate On(f: Frame, side: Side, u: Rect) {
    match side
    case West => u.leftx == f.rim
    case East => u.Right() == f.width + f.rim
    case North => u.Top() == f.height + f.rim
    case South => u.bottomy == f.rim
  }

  /** The stretch of its strip, along the edge, longer by the rim at one corner. */
  function Span(f: Frame, side: Side, u: Rect): Interval {
    match side
    case West => Interval(u.bottomy, if On(f, North, u) then u.Top() + f.rim else u.Top())
    case East => Interval(if On(f, South, u) then 0.0 else u.bottomy, u.Top())
    case North => Interval(u.leftx, if On(f, East, u) then u.Right() + f.rim else u.Right())
    case South => Interval(if On(f, West, u) then 0.0 else u.leftx, u.Right())
  }

  function StripOf(f: Frame, side: Side, v: Interval): Rect {
    match side
    case West => OnColumn(0.0, f.rim, v)
    case East => OnColumn(f.width + f.rim, f.rim, v)
    case North => OnRow(f.height + f.rim, f.rim, v)
    case South => OnRow(0.0, f.rim, v)
  }

  function Strip(f: Frame, side: Side, u: Rect): Rect { StripOf(f, side, Span(f, side, u)) }

  function Piece(f: Frame, side: Side, u: Rect): seq<Rect> {
    if On(f, side, u) then [Strip(f, side, u)] else []
  }

  /** The strips of one block. */
  function Pieces(f: Frame, u: Rect): seq<Rect> {
    Piece(f, West, u) + Piece(f, East, u) + Piece(f, North, u) + Piece(f, South, u)
  }

  /** The strips of all blocks, in their order. */
  function Ring(f: Frame, us: seq<Rect>): seq<Rect> {
    if us == [] then [] else Ring(f, us[..|us| - 1]) + Pieces(f, us[|us| - 1])
  }

  /** The blocks tile the core; some of them may be empty. */
  ghost predicate Blocks(f: Frame, us: seq<Rect>) {
    f.Positive() && Tiles(us, f.Core())
  }

  predicate Empty(u: Rect) { u.width == 0.0 || u.height == 0.0 }

  // ----- which empty blocks do no harm

  /** The stretch of the edge that the block itself takes. */
  function Edge(side: Side, u: Rect): Interval {
    if side == West || side == East then Interval(u.bottomy, u.Top()) else Interval(u.leftx, u.Right())
  }

  /** The side at whose corner the strips of this side are extended. */
  function Next(side: Side): Side {
    match side
    case West => North
    case East => South
    case North => East
    case South => West
  }

  /** An empty block `u` on a side is clear of block `v` there: it takes no length of the edge, is not at the
      corner of the extension, and does not lie strictly within the edge of `v`. */
  predicate Clear(f: Frame, side: Side, u: Rect, v: Rect) {
    && Edge(side, u).lo == Edge(side, u).hi && !On(f, Next(side), u)
    && !(Edge(side, v).lo < Edge(side, u).lo < Edge(side, v).hi)
  }

  /** Every empty block on a side is clear of the blocks on that side. */
  ghost predicate Harmless(f: Frame, us: seq<Rect>) {
    forall side, i, j :: 0 <= i < |us| && 0 <= j < |us| && Empty(us[i]) && On(f, side, us[i]) && On(f, side, us[j]) ==>
      Clear(f, side, us[i], us[j])
  }

  // ----- one side

  function Spans(f: Frame, side: Side, us: seq<Rect>): seq<Interval> {
    if us == [] then []
    else Spans(f, side, us[..|us| - 1]) + if On(f, side, us[|us| - 1]) then [Span(f, side, us[|us| - 1])] else []
  }

  lemma {:induction false} SpanSources(f: Frame, side: Side, us: seq<Rect>, k: nat, l: nat) returns (i: nat, j: nat)
    requires k < l < |Spans(f, side, us)|
    ensures i < j < |us| && On(f, side, us[i]) && On(f, side, us[j])
    ensures Spans(f, side, us)[k] == Span(f, side, us[i]) && Spans(f, side, us)[l] == Span(f, side, us[j])
    decreases |us|
  {
    var n := |us| - 1;
    if l < |Spans(f, side, us[..n])| {
      i, j := SpanSources(f, side, us[..n], k, l);
    } else {
      i := SpanSource(f, side, us[..n], k);
      j := n;
    }
  }

  lemma {:induction false} SpanSource(f: Frame, side: Side, us: seq<Rect>, k: nat) returns (i: nat)
    requires k < |Spans(f, side, us)|
    ensures i < |us| && On(f, side, us[i]) && Spans(f, side, us)[k] == Span(f, side, us[i])
    decreases |us|
  {
    var n := |us| - 1;
    if k < |Spans(f, side, us[..n])| { i := SpanSource(f, side, us[..n], k); } else { i := n; }
  }

  lemma {:induction false} SpanPlace(f: Frame, side: Side, us: seq<Rect>, i: nat) returns (k: nat)
    requires i < |us| && On(f, side, us[i])
    ensures k < |Spans(f, side, us)| && Spans(f, side, us)[k] == Span(f, side, us[i])
    decreases |us|
  {
    var n := |us| - 1;
    if i < n { k := SpanPlace(f, side, us[..n], i); } else { k := |Spans(f, side, us[..n])|; }
  }

  function Low(f: Frame, side: Side): real { if side == West || side == North then f.rim else 0.0 }

  function High(f: Frame, side: Side): real {
    match side
    case West => f.height + 2.0 * f.rim
    case East => f.height + f.rim
    case North => f.width + 2.0 * f.rim
    case South => f.width + f.rim
  }

  ghost predicate Proper(f: Frame, u: Rect) {
    f.Positive() && u.Inside(f.Core())
  }

  lemma SpanBounds(f: Frame, side: Side, u: Rect)
    requires Proper(f, u) && On(f, side, u)
    ensures Low(f, side) <= Span(f, side, u).lo <= Span(f, side, u).hi <= High(f, side)
  {
  }

  lemma SpanApart(f: Frame, side: Side, u: Rect, v: Rect)
    requires Proper(f, u) && Proper(f, v) && On(f, side, u) && On(f, side, v) && u.Apart(v)
    requires (Empty(u) ==> Clear(f, side, u, v)) && (Empty(v) ==> Clear(f, side, v, u))
    ensures Span(f, side, u).hi <= Span(f, side, v).lo || Span(f, side, v).hi <= Span(f, side, u).lo
  {
  }

  lemma {:induction false} Farthest(us: seq<Rect>, s: set<nat>, key: Rect -> real) returns (i: nat)
    requires s != {} && forall x :: x in s ==> x < |us|
    ensures i in s && forall x :: x in s ==> key(us[x]) <= key(us[i])
    decreases |s|
  {
    i :| i in s;
    if s != {i} {
      var j := Farthest(us, s - {i}, key);
      if key(us[i]) < key(us[j]) { i := j; }
    }
  }

  lemma CoveringUnit(f: Frame, us: seq<Rect>, px: real, py: real) returns (i: nat)
    requires Blocks(f, us) && f.Core().Has(px, py)
    ensures i < |us| && us[i].Has(px, py) && us[i].Inside(f.Core()) && !Empty(us[i])
  {
    assert Covered(us, px, py);
    i :| 0 <= i < |us| && us[i].Has(px, py);
  }

  /** Every point along an edge is next to a block on it. */
  lemma EastUnit(f: Frame, us: seq<Rect>, p: real) returns (i: nat)
    requires Blocks(f, us) && f.rim <= p < f.height + f.rim
    ensures i < |us| && On(f, East, us[i]) && us[i].bottomy <= p < us[i].Top() && !Empty(us[i])
  {
    hide Tiles;
    var s := set x: nat | x < |us| && us[x].bottomy <= p < us[x].Top() && !Empty(us[x]);
    var k := CoveringUnit(f, us, f.rim, p);
    assert k in s;
    i := Farthest(us, s, (u: Rect) => u.Right());
    UnitProper(f, us, i);
    if us[i].Right() < f.width + f.rim {
      var j := CoveringUnit(f, us, us[i].Right(), p);
      assert false;
    }
  }

  lemma NorthUnit(f: Frame, us: seq<Rect>, p: real) returns (i: nat)
    requires Blocks(f, us) && f.rim <= p < f.width + f.rim
    ensures i < |us| && On(f, North, us[i]) && us[i].leftx <= p < us[i].Right() && !Empty(us[i])
  {
    hide Tiles;
    var s := set x: nat | x < |us| && us[x].leftx <= p < us[x].Right() && !Empty(us[x]);
    var k := CoveringUnit(f, us, p, f.rim);
    assert k in s;
    i := Farthest(us, s, (u: Rect) => u.Top());
    UnitProper(f, us, i);
    if us[i].Top() < f.height + f.rim {
      var j := CoveringUnit(f, us, p, us[i].Top());
      assert false;
    }
  }

  lemma NortheastUnit(f: Frame, us: seq<Rect>) returns (i: nat)
    requires Blocks(f, us)
    ensures i < |us| && On(f, North, us[i]) && On(f, East, us[i]) && !Empty(us[i])
  {
    hide Tiles;
    var s := set x: nat | x < |us| && On(f, North, us[x]) && !Empty(us[x]);
    var k := NorthUnit(f, us, f.rim);
    assert k in s;
    i := Farthest(us, s, (u: Rect) => u.Right());
    UnitProper(f, us, i);
    if us[i].Right() < f.width + f.rim {
      var j := NorthUnit(f, us, us[i].Right());
      assert false;
    }
  }

  lemma UnitProper(f: Frame, us: seq<Rect>, i: nat)
    requires Blocks(f, us) && i < |us|
    ensures Proper(f, us[i])
  {
  }

  lemma UnitsApart(f: Frame, us: seq<Rect>, i: nat, j: nat)
    requires Blocks(f, us) && i < j < |us|
    ensures us[i].Apart(us[j])
  {
  }

  lemma WestUnit(f: Frame, us: seq<Rect>, p: real) returns (i: nat)
    requires Blocks(f, us) && f.rim <= p < f.height + f.rim
    ensures i < |us| && On(f, West, us[i]) && us[i].bottomy <= p < us[i].Top() && !Empty(us[i])
  {
    hide Tiles;
    i := CoveringUnit(f, us, f.rim, p);
  }

  lemma SouthUnit(f: Frame, us: seq<Rect>, p: real) returns (i: nat)
    requires Blocks(f, us) && f.rim <= p < f.width + f.rim
    ensures i < |us| && On(f, South, us[i]) && us[i].leftx <= p < us[i].Right() && !Empty(us[i])
  {
    hide Tiles;
    i := CoveringUnit(f, us, p, f.rim);
  }

  /** Every point of a side, its corner included, lies in the stretch of the strip of some block that is not
      empty. */
  lemma SpanUnit(f: Frame, side: Side, us: seq<Rect>, p: real) returns (i: nat)
    requires Blocks(f, us) && Low(f, side) <= p < High(f, side)
    ensures i < |us| && On(f, side, us[i]) && Span(f, side, us[i]).lo <= p < Span(f, side, us[i]).hi && !Empty(us[i])
  {
    hide Tiles;
    match side {
      case West =>
        if p < f.height + f.rim { i := WestUnit(f, us, p); } else { i := NorthUnit(f, us, f.rim); }
      case East =>
        if p >= f.rim { i := EastUnit(f, us, p); } else { i := EastUnit(f, us, f.rim); }
      case North =>
        if p < f.width + f.rim { i := NorthUnit(f, us, p); } else { i := NortheastUnit(f, us); }
      case South =>
        if p >= f.rim { i := SouthUnit(f, us, p); } else { i := SouthUnit(f, us, f.rim); }
    }
    UnitProper(f, us, i);
  }

  /** The strips of a side fill it exactly. */
  lemma SideFills(f: Frame, side: Side, us: seq<Rect>)
    requires Blocks(f, us) && Harmless(f, us)
    ensures Fills(Spans(f, side, us), Low(f, side), High(f, side))
  {
    hide Blocks, Span, Spans, On, Low, High, Clear, Empty;
    var vs := Spans(f, side, us);
    SideRange(f, side, us);
    forall k: nat | k < |vs| ensures Low(f, side) <= vs[k].lo <= vs[k].hi <= High(f, side) {
      var i := SpanSource(f, side, us, k);
      UnitProper(f, us, i);
      SpanBounds(f, side, us[i]);
    }
    forall k: nat, l: nat | k < l < |vs| ensures vs[k].hi <= vs[l].lo || vs[l].hi <= vs[k].lo {
      var i, j := SpanSources(f, side, us, k, l);
      UnitProper(f, us, i);
      UnitProper(f, us, j);
      UnitsApart(f, us, i, j);
      SpanApart(f, side, us[i], us[j]);
    }
    forall p | Low(f, side) <= p < High(f, side) ensures Touched(vs, p) {
      var i := SpanUnit(f, side, us, p);
      var k := SpanPlace(f, side, us, i);
      assert vs[k].lo <= p < vs[k].hi;
    }
  }

  lemma SideRange(f: Frame, side: Side, us: seq<Rect>)
    requires Blocks(f, us)
    ensures Low(f, side) <= High(f, side)
  {
  }

  // ----- the whole ring

  function SideRects(f: Frame, side: Side, us: seq<Rect>): seq<Rect> {
    match side
    case West => Column(0.0, f.rim, Spans(f, side, us))
    case East => Column(f.width + f.rim, f.rim, Spans(f, side, us))
    case North => Row(f.height + f.rim, f.rim, Spans(f, side, us))
    case South => Row(0.0, f.rim, Spans(f, side, us))
  }

  function SideBox(f: Frame, side: Side): Rect {
    match side
    case West => Rect(0.0, f.rim, f.rim, f.height + f.rim)
    case East => Rect(f.width + f.rim, 0.0, f.rim, f.height + f.rim)
    case North => Rect(f.rim, f.height + f.rim, f.width + f.rim, f.rim)
    case South => Rect(0.0, 0.0, f.width + f.rim, f.rim)
  }

  lemma SideTiles(f: Frame, side: Side, us: seq<Rect>)
    requires Blocks(f, us) && Harmless(f, us)
    ensures Tiles(SideRects(f, side, us), SideBox(f, side))
  {
    hide Tiles, Spans, Harmless;
    SideFills(f, side, us);
    match side
    case West => ColumnTiles(0.0, f.rim, Spans(f, side, us), Low(f, side), High(f, side));
    case East => ColumnTiles(f.width + f.rim, f.rim, Spans(f, side, us), Low(f, side), High(f, side));
    case North => RowTiles(f.height + f.rim, f.rim, Spans(f, side, us), Low(f, side), High(f, side));
    case South => RowTiles(0.0, f.rim, Spans(f, side, us), Low(f, side), High(f, side));
  }

  lemma SideGrows(f: Frame, side: Side, us: seq<Rect>)
    requires us != []
    ensures SideRects(f, side, us) == SideRects(f, side, us[..|us| - 1]) + Piece(f, side, us[|us| - 1])
  {
    hide On, Span;
    var n := |us| - 1;
    var before, vs := Spans(f, side, us[..n]), Spans(f, side, us);
    if On(f, side, us[n]) {
      assert vs[..|vs| - 1] == before;
    } else {
      assert vs == before;
    }
  }

  function AllSides(f: Frame, us: seq<Rect>): seq<Rect> {
    SideRects(f, West, us) + SideRects(f, East, us) + SideRects(f, North, us) + SideRects(f, South, us)
  }

  /** Block by block or side by side, the strips are the same. */
  lemma {:induction false} RingSides(f: Frame, us: seq<Rect>)
    ensures multiset(Ring(f, us)) == multiset(AllSides(f, us))
    decreases |us|
  {
    hide SideRects, Piece;
    if us == [] {
      NoSides(f);
    } else {
      var front, last := us[..|us| - 1], us[|us| - 1];
      RingSides(f, front);
      SideGrows(f, West, us);
      SideGrows(f, East, us);
      SideGrows(f, North, us);
      SideGrows(f, South, us);
      assert multiset(Ring(f, us)) == multiset(Ring(f, front)) + multiset(Pieces(f, last));
    }
  }

  lemma NoSides(f: Frame)
    ensures AllSides(f, []) == []
  {
  }

  // ----- refining a tiling

  /** The rectangles fill the boxes: each lies in one of them, they do not overlap, every point of a box is
      covered, and the areas agree. */
  ghost predicate Refines(rs: seq<Rect>, boxes: seq<Rect>) {
    && (forall i :: 0 <= i < |rs| ==> exists j :: 0 <= j < |boxes| && rs[i].Inside(boxes[j]))
    && (forall i, j :: 0 <= i < j < |rs| ==> rs[i].Apart(rs[j]))
    && (forall j, px, py :: 0 <= j < |boxes| && boxes[j].Has(px, py) ==> Covered(rs, px, py))
    && TotalArea(rs) == TotalArea(boxes)
  }

  lemma RefinesNone()
    ensures Refines([], [])
  {
  }

  lemma RefinesMore(rs: seq<Rect>, boxes: seq<Rect>, ss: seq<Rect>, b: Rect)
    requires Refines(rs, boxes) && Tiles(ss, b) && forall j :: 0 <= j < |boxes| ==> boxes[j].Apart(b)
    ensures Refines(rs + ss, boxes + [b])
  {
    hide Rect.Area;
    var ts, bs := rs + ss, boxes + [b];
    TotalAreaConcat(rs, ss);
    assert bs[..|bs| - 1] == boxes;
    forall i | 0 <= i < |ts| ensures exists j :: 0 <= j < |bs| && ts[i].Inside(bs[j]) {
      if i < |rs| {
        var j :| 0 <= j < |boxes| && rs[i].Inside(boxes[j]);
        assert ts[i].Inside(bs[j]);
      } else {
        assert ts[i].Inside(bs[|boxes|]);
      }
    }
    forall i, j | 0 <= i < j < |ts| ensures ts[i].Apart(ts[j]) {
      if i < |rs| <= j {
        var k :| 0 <= k < |boxes| && rs[i].Inside(boxes[k]);
        AcrossApart(rs[i], boxes[k], ss[j - |rs|], b);
      }
    }
    forall j, px, py | 0 <= j < |bs| && bs[j].Has(px, py) ensures Covered(ts, px, py) {
      if j < |boxes| {
        assert boxes[j].Has(px, py) && Covered(rs, px, py);
        var i :| 0 <= i < |rs| && rs[i].Has(px, py);
        assert ts[i].Has(px, py);
      } else {
        assert Covered(ss, px, py);
        var i :| 0 <= i < |ss| && ss[i].Has(px, py);
        assert ts[|rs| + i].Has(px, py);
      }
    }
  }

  lemma RefinesTiles(rs: seq<Rect>, boxes: seq<Rect>, whole: Rect)
    requires Refines(rs, boxes) && Tiles(boxes, whole)
    ensures Tiles(rs, whole)
  {
    hide Rect.Area, TotalArea;
    forall i | 0 <= i < |rs| ensures rs[i].Inside(whole) {
      var j :| 0 <= j < |boxes| && rs[i].Inside(boxes[j]);
      assert boxes[j].Inside(whole);
    }
    forall px, py | whole.Has(px, py) ensures Covered(rs, px, py) {
      assert Covered(boxes, px, py);
      var j :| 0 <= j < |boxes| && boxes[j].Has(px, py);
    }
  }

  // ----- the pinwheel

  function Pinwheel(f: Frame): seq<Rect> {
    [f.Core(), SideBox(f, West), SideBox(f, East), SideBox(f, North), SideBox(f, South)]
  }

  lemma FiveAreas(a: Rect, b: Rect, c: Rect, d: Rect, e: Rect)
    ensures TotalArea([a, b, c, d, e]) == a.Area() + b.Area() + c.Area() + d.Area() + e.Area()
  {
    hide Rect.Area;
    assert [a, b, c, d, e][..4] == [a, b, c, d] && [a, b, c, d][..3] == [a, b, c] && [a, b, c][..2] == [a, b]
        && [a, b][..1] == [a] && [a][..0] == [];
    assert TotalArea([a]) == a.Area();
    assert TotalArea([a, b]) == a.Area() + b.Area();
    assert TotalArea([a, b, c]) == a.Area() + b.Area() + c.Area();
    assert TotalArea([a, b, c, d]) == a.Area() + b.Area() + c.Area() + d.Area();
  }

  lemma PinwheelArea(f: Frame)
    ensures TotalArea(Pinwheel(f)) == f.Whole().Area()
  {
    FiveAreas(f.Core(), SideBox(f, West), SideBox(f, East), SideBox(f, North), SideBox(f, South));
    RingArea(f.rim, f.width, f.height);
  }

  lemma RingArea(r: real, x: real, y: real)
    ensures x * y + r * (y + r) + r * (y + r) + (x + r) * r + (x + r) * r == (x + 2.0 * r) * (y + 2.0 * r)
  {
  }

  /** The core and the four sides, each running past one corner, fill the whole. */
  lemma PinwheelTiles(f: Frame)
    requires f.Positive()
    ensures Tiles(Pinwheel(f), f.Whole())
  {
    hide Rect.Area, TotalArea;
    PinwheelArea(f);
    var w := Pinwheel(f);
    forall px, py | f.Whole().Has(px, py) ensures Covered(w, px, py) {
      assert w[0].Has(px, py) || w[1].Has(px, py) || w[2].Has(px, py) || w[3].Has(px, py) || w[4].Has(px, py);
    }
  }

  /** When no empty block does harm, core blocks and rim strips together fill the enlarged chip exactly,
      corners included. */
  lemma RimTiles(f: Frame, us: seq<Rect>)
    requires Blocks(f, us) && Harmless(f, us)
    ensures Tiles(us + Ring(f, us), f.Whole())
  {
    hide SideRects, Ring, Harmless;
    SideTiles(f, West, us);
    SideTiles(f, East, us);
    SideTiles(f, North, us);
    SideTiles(f, South, us);
    PinwheelTiles(f);
    RimRefines(f, us);
    RefinesTiles(us + AllSides(f, us), Pinwheel(f), f.Whole());
    RingSides(f, us);
    PermutedTiles(us + Ring(f, us), us + AllSides(f, us), f.Whole());
  }

  lemma RimRefines(f: Frame, us: seq<Rect>)
    requires Blocks(f, us) && forall side :: Tiles(SideRects(f, side, us), SideBox(f, side))
    ensures Refines(us + AllSides(f, us), Pinwheel(f))
  {
    hide SideRects, Refines, Tiles;
    var w, e, n, s := SideRects(f, West, us), SideRects(f, East, us), SideRects(f, North, us), SideRects(f, South, us);
    RefinesNone();
    RefinesMore([], [], us, f.Core());
    RefinesMore([] + us, [] + [f.Core()], w, SideBox(f, West));
    RefinesMore([] + us + w, [] + [f.Core()] + [SideBox(f, West)], e, SideBox(f, East));
    RefinesMore([] + us + w + e, [] + [f.Core()] + [SideBox(f, West)] + [SideBox(f, East)], n, SideBox(f, North));
    RefinesMore([] + us + w + e + n, [] + [f.Core()] + [SideBox(f, West)] + [SideBox(f, East)]
        + [SideBox(f, North)], s, SideBox(f, South));
    assert [] + us + w + e + n + s == us + (w + e + n + s);
    assert [] + [f.Core()] + [SideBox(f, West)] + [SideBox(f, East)] + [SideBox(f, North)]
        + [SideBox(f, South)] == Pinwheel(f);
  }

  // ----- how many strips

  function Count(us: seq<Rect>, p: Rect -> bool): nat {
    if us == [] then 0 else Count(us[..|us| - 1], p) + (if p(us[|us| - 1]) then 1 else 0)
  }

  lemma {:induction false} CountAtMostOne(us: seq<Rect>, p: Rect -> bool)
    requires forall i, j :: 0 <= i < j < |us| ==> !(p(us[i]) && p(us[j]))
    ensures Count(us, p) <= 1
    decreases |us|
  {
    if us != [] {
      var n := |us| - 1;
      if p(us[n]) { CountNone(us[..n], p); } else { CountAtMostOne(us[..n], p); }
    }
  }

  lemma {:induction false} CountNone(us: seq<Rect>, p: Rect -> bool)
    requires forall i :: 0 <= i < |us| ==> !p(us[i])
    ensures Count(us, p) == 0
    decreases |us|
  {
    if us != [] { CountNone(us[..|us| - 1], p); }
  }

  predicate Both(f: Frame, a: Side, b: Side, u: Rect) { On(f, a, u) && On(f, b, u) }

  /** A block from edge to edge, not empty, that also abuts a third edge. */
  function Spanning(f: Frame, a: Side, b: Side, c: Side): Rect -> bool {
    (u: Rect) => !Empty(u) && Both(f, a, b, u) && On(f, c, u)
  }

  lemma {:induction false} RingBound(f: Frame, us: seq<Rect>, p: Rect -> bool, q: Rect -> bool)
    requires forall i :: 0 <= i < |us| ==> FewPieces(f, us[i], p, q)
    ensures |Ring(f, us)| <= 2 * |us| + Count(us, p) + Count(us, q) + Count(us, Crowded(f))
    decreases |us|
  {
    hide Pieces, Crowded;
    if us != [] {
      assert FewPieces(f, us[|us| - 1], p, q);
      RingBound(f, us[..|us| - 1], p, q);
    }
  }

  lemma {:induction false} CountMonotone(us: seq<Rect>, p: Rect -> bool, q: Rect -> bool)
    requires forall u :: p(u) ==> q(u)
    ensures Count(us, p) <= Count(us, q)
    decreases |us|
  {
    if us != [] { CountMonotone(us[..|us| - 1], p, q); }
  }

  /** Two different blocks cannot both run from edge to edge along the same third edge. */
  lemma SpanningUnique(f: Frame, us: seq<Rect>, p: Rect -> bool)
    requires Blocks(f, us)
    requires p == Spanning(f, West, East, North) || p == Spanning(f, West, East, South)
             || p == Spanning(f, North, South, West) || p == Spanning(f, North, South, East)
    ensures Count(us, p) <= 1
  {
    hide Blocks, Count;
    forall i: nat, j: nat | i < j < |us| ensures !(p(us[i]) && p(us[j])) {
      UnitsApart(f, us, i, j);
      UnitProper(f, us, i);
      UnitProper(f, us, j);
    }
    CountAtMostOne(us, p);
  }

  /** A block from west to east and another from north to south would cross. */
  lemma Crossing(f: Frame, us: seq<Rect>, i: nat, j: nat)
    requires Blocks(f, us) && i < |us| && j < |us| && !Empty(us[i]) && !Empty(us[j])
    requires Both(f, West, East, us[i]) && Both(f, North, South, us[j])
    ensures i == j
  {
    hide Blocks;
    UnitProper(f, us, i);
    UnitProper(f, us, j);
    if i < j { UnitsApart(f, us, i, j); }
    if j < i { UnitsApart(f, us, j, i); }
  }

  /** An empty block has at most three strips, and at most two if it does no harm. */
  lemma EmptyPieces(f: Frame, us: seq<Rect>, i: nat)
    requires Blocks(f, us) && i < |us| && Empty(us[i])
    ensures |Pieces(f, us[i])| <= 3 && (Harmless(f, us) ==> |Pieces(f, us[i])| <= 2)
  {
    hide Blocks, Harmless;
    UnitProper(f, us, i);
    if Harmless(f, us) { ClearOfItself(f, us, i); }
  }

  lemma ClearOfItself(f: Frame, us: seq<Rect>, i: nat)
    requires Harmless(f, us) && i < |us| && Empty(us[i])
    ensures !(On(f, West, us[i]) && On(f, North, us[i])) && !(On(f, East, us[i]) && On(f, South, us[i]))
    ensures !(On(f, North, us[i]) && On(f, East, us[i])) && !(On(f, South, us[i]) && On(f, West, us[i]))
  {
    hide On, Edge;
    forall side | On(f, side, us[i]) ensures !On(f, Next(side), us[i]) { assert Clear(f, side, us[i], us[i]); }
    assert Next(West) == North && Next(East) == South && Next(North) == East && Next(South) == West;
  }

  /** The blocks that have more than two strips beyond those counted otherwise. */
  function Crowded(f: Frame): Rect -> bool {
    (u: Rect) => Empty(u) && |Pieces(f, u)| > 2
  }

  lemma NoneCrowded(f: Frame, us: seq<Rect>)
    requires Blocks(f, us) && Harmless(f, us)
    ensures Count(us, Crowded(f)) == 0
  {
    hide Blocks, Harmless, Count, Pieces;
    forall i: nat | i < |us| ensures !Crowded(f)(us[i]) {
      if Empty(us[i]) { EmptyPieces(f, us, i); }
    }
    CountNone(us, Crowded(f));
  }

  /** There are at most twice as many strips as blocks, plus two, and one more for every empty block; the
      latter not if no empty block does harm. */
  lemma RingSize(f: Frame, us: seq<Rect>)
    requires Blocks(f, us)
    ensures |Ring(f, us)| <= 2 * |us| + 2 + Count(us, Empty)
    ensures Harmless(f, us) ==> |Ring(f, us)| <= 2 * |us| + 2
  {
    hide Blocks, Ring, Count, Harmless, Pieces, Empty;
    var p, q := Spanning(f, West, East, North), Spanning(f, West, East, South);
    if i: nat :| i < |us| && !Empty(us[i]) && Both(f, West, East, us[i]) {
      forall j: nat | j < |us| ensures FewPieces(f, us[j], p, q) { RowPieces(f, us, i, j); }
    } else {
      p, q := Spanning(f, North, South, West), Spanning(f, North, South, East);
      forall j: nat | j < |us| ensures FewPieces(f, us[j], p, q) { ColumnPieces(f, us, j); }
    }
    RingBound(f, us, p, q);
    SpanningUnique(f, us, p);
    SpanningUnique(f, us, q);
    CountMonotone(us, Crowded(f), Empty);
    if Harmless(f, us) { NoneCrowded(f, us); }
  }

  ghost predicate FewPieces(f: Frame, u: Rect, p: Rect -> bool, q: Rect -> bool) {
    |Pieces(f, u)| <= 2 + (if p(u) then 1 else 0) + (if q(u) then 1 else 0) + (if Crowded(f)(u) then 1 else 0)
  }

  /** With a block from west to east every other block is at one of north and south at most. */
  lemma RowPieces(f: Frame, us: seq<Rect>, i: nat, j: nat)
    requires Blocks(f, us) && i < |us| && j < |us| && !Empty(us[i]) && Both(f, West, East, us[i])
    ensures FewPieces(f, us[j], Spanning(f, West, East, North), Spanning(f, West, East, South))
  {
    hide Blocks;
    if Empty(us[j]) {
      EmptyPieces(f, us, j);
    } else if Both(f, North, South, us[j]) {
      Crossing(f, us, i, j);
    }
  }

  lemma ColumnPieces(f: Frame, us: seq<Rect>, j: nat)
    requires Blocks(f, us) && j < |us| && (Empty(us[j]) || !Both(f, West, East, us[j]))
    ensures FewPieces(f, us[j], Spanning(f, North, South, West), Spanning(f, North, South, East))
  {
    hide Blocks;
    if Empty(us[j]) { EmptyPieces(f, us, j); }
  }

  // ----- which empty blocks do harm

  lemma {:induction false} SpanPlaces(f: Frame, side: Side, us: seq<Rect>, i: nat, j: nat) returns (k: nat, l: nat)
    requires i < j < |us| && On(f, side, us[i]) && On(f, side, us[j])
    ensures k < l < |Spans(f, side, us)|
    ensures Spans(f, side, us)[k] == Span(f, side, us[i]) && Spans(f, side, us)[l] == Span(f, side, us[j])
    decreases |us|
  {
    var n := |us| - 1;
    if j < n {
      k, l := SpanPlaces(f, side, us[..n], i, j);
    } else {
      k := SpanPlace(f, side, us[..n], i);
      l := |Spans(f, side, us[..n])|;
    }
  }

  /** In a tiling the strips of two blocks on a side do not overlap. */
  lemma StripsApart(f: Frame, side: Side, us: seq<Rect>, i: nat, j: nat)
    requires Tiles(us + AllSides(f, us), f.Whole()) && i < j < |us| && On(f, side, us[i]) && On(f, side, us[j])
    ensures Strip(f, side, us[i]).Apart(Strip(f, side, us[j]))
  {
    hide Tiles, On, Span, Spans, AllSides, SidesBefore, SideRects, Rect.Apart;
    var k, l := SpanPlaces(f, side, us, i, j);
    var at := |us| + SidesBefore(f, side, us);
    SideRectAt(f, side, us, k);
    SideRectAt(f, side, us, l);
    TilesApart(us + AllSides(f, us), f.Whole(), at + k, at + l);
  }

  /** Where a strip stands among blocks and strips. */
  lemma SideRectAt(f: Frame, side: Side, us: seq<Rect>, k: nat)
    requires k < |Spans(f, side, us)|
    ensures |us| + SidesBefore(f, side, us) + k < |us + AllSides(f, us)|
    ensures (us + AllSides(f, us))[|us| + SidesBefore(f, side, us) + k] == StripOf(f, side, Spans(f, side, us)[k])
  {
    hide Spans;
    assert SideRects(f, side, us)[k] == StripOf(f, side, Spans(f, side, us)[k]);
  }

  function SidesBefore(f: Frame, side: Side, us: seq<Rect>): nat {
    match side
    case West => 0
    case East => |SideRects(f, West, us)|
    case North => |SideRects(f, West, us)| + |SideRects(f, East, us)|
    case South => |SideRects(f, West, us)| + |SideRects(f, East, us)| + |SideRects(f, North, us)|
  }

  lemma TilesApart(rs: seq<Rect>, box: Rect, i: nat, j: nat)
    requires Tiles(rs, box) && i < j < |rs|
    ensures rs[i].Apart(rs[j])
  {
  }

  /** An empty block that is not clear of a block on its side has a strip that overlaps another one. */
  lemma UnclearOverlaps(f: Frame, side: Side, us: seq<Rect>, i: nat, j: nat) returns (k: nat)
    requires Blocks(f, us) && i < |us| && j < |us| && Empty(us[i]) && On(f, side, us[i]) && On(f, side, us[j])
    requires !Clear(f, side, us[i], us[j])
    ensures k < |us| && k != i && On(f, side, us[k])
    ensures !Strip(f, side, us[i]).Apart(Strip(f, side, us[k])) && !Strip(f, side, us[k]).Apart(Strip(f, side, us[i]))
  {
    hide Blocks;
    UnitProper(f, us, i);
    UnitProper(f, us, j);
    SpanBounds(f, side, us[i]);
    if Span(f, side, us[i]).lo < Span(f, side, us[i]).hi {
      k := SpanUnit(f, side, us, Span(f, side, us[i]).lo);
    } else {
      k := j;
      PointWithin(f, side, us[i], us[j]);
    }
  }

  lemma PointWithin(f: Frame, side: Side, u: Rect, v: Rect)
    requires f.Positive() && On(f, side, u) && On(f, side, v) && Span(f, side, u).lo == Span(f, side, u).hi
        && !Clear(f, side, u, v)
    requires Proper(f, u) && Proper(f, v)
    ensures Span(f, side, v).lo < Span(f, side, u).lo < Span(f, side, v).hi
  {
  }

  /** The blocks and strips tile the chip exactly when no empty block does harm. */
  lemma RimTilesIff(f: Frame, us: seq<Rect>)
    requires Blocks(f, us)
    ensures Tiles(us + Ring(f, us), f.Whole()) <==> Harmless(f, us)
  {
    hide Tiles, Ring, AllSides, Strip, Clear, On, Empty;
    if Harmless(f, us) { RimTiles(f, us); }
    if Tiles(us + Ring(f, us), f.Whole()) {
      RingSides(f, us);
      PermutedTiles(us + AllSides(f, us), us + Ring(f, us), f.Whole());
      forall side, i: nat, j: nat | i < |us| && j < |us| && Empty(us[i]) && On(f, side, us[i]) && On(f, side, us[j])
        ensures Clear(f, side, us[i], us[j])
      {
        if !Clear(f, side, us[i], us[j]) {
          var k := UnclearOverlaps(f, side, us, i, j);
          if i < k { StripsApart(f, side, us, i, k); } else { StripsApart(f, side, us, k, i); }
          assert false;
        }
      }
    }
  }

  /** Blocks that are not empty do no harm. */
  lemma SolidHarmless(f: Frame, us: seq<Rect>)
    requires forall i :: 0 <= i < |us| ==> !Empty(us[i])
    ensures Harmless(f, us)
  {
  }

  /** An empty block at a corner does harm, and so does one that takes some length of an edge. */
  lemma HarmfulAlone(f: Frame, us: seq<Rect>, i: nat, side: Side)
    requires Blocks(f, us) && i < |us| && Empty(us[i]) && On(f, side, us[i])
    requires On(f, Next(side), us[i]) || Edge(side, us[i]).lo < Edge(side, us[i]).hi
    ensures !Tiles(us + Ring(f, us), f.Whole())
  {
    RimTilesIff(f, us);
    assert !Clear(f, side, us[i], us[i]);
  }

  /** Taking no length is not enough: a point block on the southern edge of the only other block has a strip
      within that block's strip. */
  lemma PointOnEdge()
    ensures var f, us := Frame(1.0, 2.0, 1.0), [Rect(1.0, 1.0, 2.0, 1.0), Rect(2.0, 1.0, 0.0, 0.0)];
            && Blocks(f, us) && On(f, South, us[1]) && Span(f, South, us[1]).lo == Span(f, South, us[1]).hi
            && (forall side :: On(f, side, us[1]) ==> side == South)
            && !Tiles(us + Ring(f, us), f.Whole())
  {
    hide Tiles, Ring;
    var f, us := Frame(1.0, 2.0, 1.0), [Rect(1.0, 1.0, 2.0, 1.0), Rect(2.0, 1.0, 0.0, 0.0)];
    PointTiles(f, us);
    RimTilesIff(f, us);
    assert On(f, South, us[0]) && On(f, South, us[1]) && !Clear(f, South, us[1], us[0]);
  }

  lemma PointTiles(f: Frame, us: seq<Rect>)
    requires f == Frame(1.0, 2.0, 1.0) && us == [Rect(1.0, 1.0, 2.0, 1.0), Rect(2.0, 1.0, 0.0, 0.0)]
    ensures Tiles(us, f.Core())
  {
    hide TotalArea;
    OneTile(us[0]);
    TotalAreaConcat([us[0]], [us[1]]);
    OneTile(us[1]);
    assert [us[0]] + [us[1]] == us;
    forall px, py | f.Core().Has(px, py) ensures Covered(us, px, py) { assert us[0].Has(px, py); }
  }
}
