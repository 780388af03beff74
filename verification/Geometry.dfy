/** Rectangles and exact tilings of a box by rectangles. */
module Geometry {

  datatype Rect = Rect(leftx: real, bottomy: real, width: real, height: real) {
    function Right(): real { leftx + width }
    function Top(): real { bottomy + height }
    function Area(): real { width * height }
    /** Half-open: a point on a shared edge belongs to exactly one of two neighbours. */
    predicate Has(px: real, py: real) { leftx <= px < Right() && bottomy <= py < Top() }
    predicate Inside(box: Rect) {
      width >= 0.0 && height >= 0.0 &&
      box.leftx <= leftx && Right() <= box.Right() && box.bottomy <= bottomy && Top() <= box.Top()
    }
    predicate Apart(r: Rect) {
      Right() <= r.leftx || r.Right() <= leftx || Top() <= r.bottomy || r.Top() <= bottomy
    }
  }

  predicate Solid(r: Rect) { r.width > 0.0 && r.height > 0.0 }

  ghost predicate AllSolid(rs: seq<Rect>) {
    forall i :: 0 <= i < |rs| ==> Solid(rs[i])
  }

  function TotalArea(rs: seq<Rect>): real {
    if rs == [] then 0.0 else TotalArea(rs[..|rs| - 1]) + rs[|rs| - 1].Area()
  }

  /** The rectangles fill the box exactly: they lie in it, do not overlap, leave no point uncovered,
      and their areas sum to its area. */
  ghost predicate Tiles(rs: seq<Rect>, box: Rect) {
    && (forall i :: 0 <= i < |rs| ==> rs[i].Inside(box))
    && (forall i, j :: 0 <= i < j < |rs| ==> rs[i].Apart(rs[j]))
    && (forall px, py :: box.Has(px, py) ==> Covered(rs, px, py))
    && TotalArea(rs) == box.Area()
  }

  ghost predicate Covered(rs: seq<Rect>, px: real, py: real) {
    exists i :: 0 <= i < |rs| && rs[i].Has(px, py)
  }

  lemma {:induction false} TotalAreaConcat(a: seq<Rect>, b: seq<Rect>)
    ensures TotalArea(a + b) == TotalArea(a) + TotalArea(b)
  {
    if b == [] {
      assert a + b == a;
    } else {
      assert (a + b)[..|a + b| - 1] == a + b[..|b| - 1];
      TotalAreaConcat(a, b[..|b| - 1]);
    }
  }

  lemma OneTile(r: Rect)
    requires r.width >= 0.0 && r.height >= 0.0
    ensures Tiles([r], r)
  {
    assert [r][..0] == [];
    assert TotalArea([r]) == TotalArea([]) + r.Area();
    forall px, py | r.Has(px, py) ensures Covered([r], px, py) { assert [r][0].Has(px, py); }
  }

  /** Two boxes side by side, or one on top of the other, make up `box`. */
  predicate Splits(a: Rect, b: Rect, box: Rect) {
    && a.width >= 0.0 && a.height >= 0.0 && b.width >= 0.0 && b.height >= 0.0
    && a.leftx == box.leftx && a.bottomy == box.bottomy
    && (|| (a.height == b.height == box.height && b.bottomy == box.bottomy && b.leftx == a.Right()
        && a.width + b.width == box.width)
        || (a.width == b.width == box.width && b.leftx == box.leftx && b.bottomy == a.Top()
            && a.height + b.height == box.height))
  }

  lemma SplitAreas(a: Rect, b: Rect, box: Rect)
    requires Splits(a, b, box)
    ensures a.Area() + b.Area() == box.Area()
  {
    if a.height == b.height == box.height && a.width + b.width == box.width {
      assert a.Area() + b.Area() == (a.width + b.width) * box.height;
    } else {
      assert a.Area() + b.Area() == box.width * (a.height + b.height);
    }
  }

  /** Tilings of the two parts of a split join to a tiling of the whole. */
  lemma JoinTiles(rs: seq<Rect>, a: Rect, ss: seq<Rect>, b: Rect, box: Rect)
    requires Tiles(rs, a) && Tiles(ss, b) && Splits(a, b, box)
    ensures Tiles(rs + ss, box) && Tiles(ss + rs, box)
  {
    JoinOrdered(rs, a, ss, b, box);
    JoinOrdered(ss, b, rs, a, box);
  }

  /** What a split says of its parts, whichever comes first. */
  lemma SplitParts(a: Rect, b: Rect, box: Rect)
    requires Splits(a, b, box)
    ensures a.Apart(b) && b.Apart(a) && a.Area() + b.Area() == box.Area() && a.Inside(box) && b.Inside(box)
    ensures forall px, py :: box.Has(px, py) ==> a.Has(px, py) || b.Has(px, py)
  {
    SplitAreas(a, b, box);
  }

  lemma InsideOf(r: Rect, a: Rect, box: Rect)
    requires r.Inside(a) && a.Inside(box)
    ensures r.Inside(box)
  {
  }

  lemma JoinCovered(rs: seq<Rect>, ss: seq<Rect>, px: real, py: real)
    requires Covered(rs, px, py) || Covered(ss, px, py)
    ensures Covered(rs + ss, px, py)
  {
    if Covered(rs, px, py) {
      var i :| 0 <= i < |rs| && rs[i].Has(px, py);
      assert (rs + ss)[i].Has(px, py);
    } else {
      var i :| 0 <= i < |ss| && ss[i].Has(px, py);
      assert (rs + ss)[|rs| + i].Has(px, py);
    }
  }

  lemma JoinOrdered(rs: seq<Rect>, a: Rect, ss: seq<Rect>, b: Rect, box: Rect)
    requires Tiles(rs, a) && Tiles(ss, b) && (Splits(a, b, box) || Splits(b, a, box))
    ensures Tiles(rs + ss, box)
  {
    hide Rect.Inside, Rect.Apart, Rect.Has, Rect.Area, TotalArea, Covered, Splits;
    if Splits(a, b, box) { SplitParts(a, b, box); } else { SplitParts(b, a, box); }
    var ts := rs + ss;
    forall i | 0 <= i < |ts| ensures ts[i].Inside(box) {
      if i < |rs| { InsideOf(rs[i], a, box); } else { InsideOf(ss[i - |rs|], b, box); }
    }
    forall i, j | 0 <= i < j < |ts| ensures ts[i].Apart(ts[j]) {
      if i < |rs| <= j { AcrossApart(rs[i], a, ss[j - |rs|], b); }
    }
    forall px, py | box.Has(px, py) ensures Covered(ts, px, py) {
      JoinCovered(rs, ss, px, py);
    }
    TotalAreaConcat(rs, ss);
  }

  lemma AcrossApart(r: Rect, a: Rect, s: Rect, b: Rect)
    requires r.Inside(a) && s.Inside(b) && a.Apart(b)
    ensures r.Apart(s)
  {
  }

  // ----- rearranging a tiling

  /** A rectangle together with its place in an array. */
  datatype Spot = Spot(index: nat, rect: Rect)

  function Rects(spots: seq<Spot>): (rs: seq<Rect>)
    ensures |rs| == |spots| && forall i :: 0 <= i < |spots| ==> rs[i] == spots[i].rect
  {
    seq(|spots|, i requires 0 <= i < |spots| => spots[i].rect)
  }

  ghost predicate DistinctSpots(spots: seq<Spot>) {
    forall i, j :: 0 <= i < j < |spots| ==> spots[i].index != spots[j].index
  }

  /** `units` holds exactly the given spots, in some order. */
  ghost predicate Arranged(units: seq<Rect>, spots: seq<Spot>) {
    && |units| == |spots|
    && DistinctSpots(spots)
    && (forall i :: 0 <= i < |spots| ==> spots[i].index < |units| && units[spots[i].index] == spots[i].rect)
  }

  function Indices(spots: seq<Spot>): set<nat> {
    set i | 0 <= i < |spots| :: spots[i].index
  }

  lemma {:induction false} IndexCount(spots: seq<Spot>)
    requires DistinctSpots(spots)
    ensures |Indices(spots)| == |spots|
  {
    if spots != [] {
      IndexCount(spots[..|spots| - 1]);
      LastIndex(spots);
    }
  }

  lemma LastIndex(spots: seq<Spot>)
    requires DistinctSpots(spots) && spots != []
    ensures var init, last := spots[..|spots| - 1], spots[|spots| - 1].index;
            Indices(spots) == Indices(init) + {last} && last !in Indices(init)
  {
    var init, last := spots[..|spots| - 1], spots[|spots| - 1];
    forall x | x in Indices(spots) ensures x in Indices(init) + {last.index} {
      var i :| 0 <= i < |spots| && spots[i].index == x;
      if i < |spots| - 1 { assert init[i].index == x; }
    }
    forall x | x in Indices(init) ensures x in Indices(spots) && x != last.index {
      var i :| 0 <= i < |init| && init[i].index == x;
      assert spots[i].index == x;
    }
  }

  function Below(n: nat): (s: set<nat>)
    ensures |s| == n && forall i: nat :: i in s <==> i < n
  {
    if n == 0 then {} else Below(n - 1) + {n - 1}
  }

  lemma EveryPlaceTaken(units: seq<Rect>, spots: seq<Spot>, k: nat) returns (i: nat)
    requires Arranged(units, spots) && k < |units|
    ensures i < |spots| && spots[i].index == k && units[k] == spots[i].rect
  {
    IndexCount(spots);
    assert Indices(spots) <= Below(|units|);
    if k !in Indices(spots) {
      SmallerSet(Indices(spots), Below(|units|) - {k});
      assert false;
    }
    i :| 0 <= i < |spots| && spots[i].index == k;
  }

  lemma {:induction false} SmallerSet(a: set<nat>, b: set<nat>)
    requires a <= b
    ensures |a| <= |b|
  {
    if a != {} {
      var x :| x in a;
      SmallerSet(a - {x}, b - {x});
    }
  }

  lemma TotalAreaWithout(rs: seq<Rect>, k: nat)
    requires k < |rs|
    ensures TotalArea(rs) == TotalArea(rs[..k] + rs[k + 1..]) + rs[k].Area()
  {
    hide TotalArea;
    var a, b := rs[..k], rs[k + 1..];
    TotalAreaConcat(rs[..k + 1], b);
    TotalAreaLast(rs[..k + 1]);
    TotalAreaConcat(a, b);
    assert rs == rs[..k + 1] + b;
    assert rs[..k + 1][..k] == a;
  }

  lemma NoArea()
    ensures TotalArea([]) == 0.0
  {
  }

  lemma TotalAreaLast(rs: seq<Rect>)
    requires rs != []
    ensures TotalArea(rs) == TotalArea(rs[..|rs| - 1]) + rs[|rs| - 1].Area()
  {
  }

  function Without(spots: seq<Spot>, k: nat): (r: seq<Spot>)
    requires k < |spots|
    ensures |r| == |spots| - 1
    ensures forall i :: 0 <= i < |r| ==> r[i] == if i < k then spots[i] else spots[i + 1]
  {
    spots[..k] + spots[k + 1..]
  }

  lemma ArrangedWithoutLast(units: seq<Rect>, spots: seq<Spot>, k: nat)
    requires Arranged(units, spots) && k < |spots| && spots[k].index == |units| - 1
    ensures Arranged(units[..|units| - 1], Without(spots, k))
  {
    var rest := Without(spots, k);
    forall i | 0 <= i < |rest|
      ensures rest[i].index < |units| - 1 && units[..|units| - 1][rest[i].index] == rest[i].rect
    {
      var j := if i < k then i else i + 1;
      assert rest[i] == spots[j] && spots[j].index != spots[k].index;
    }
  }

  lemma {:induction false} ArrangedArea(units: seq<Rect>, spots: seq<Spot>)
    requires Arranged(units, spots)
    ensures TotalArea(units) == TotalArea(Rects(spots))
    decreases |units|
  {
    hide TotalArea;
    var n := |units|;
    if n > 0 {
      var k := EveryPlaceTaken(units, spots, n - 1);
      ArrangedWithoutLast(units, spots, k);
      ArrangedArea(units[..n - 1], Without(spots, k));
      TotalAreaLast(units);
      TotalAreaWithout(Rects(spots), k);
      assert Rects(Without(spots, k)) == Rects(spots)[..k] + Rects(spots)[k + 1..];
    } else {
      assert Rects(spots) == [] && units == [];
    }
  }

  /** A tiling stays a tiling in any order. */
  lemma ArrangedTiles(units: seq<Rect>, spots: seq<Spot>, box: Rect)
    requires Arranged(units, spots) && Tiles(Rects(spots), box)
    ensures Tiles(units, box)
  {
    var rs := Rects(spots);
    forall k | 0 <= k < |units| ensures units[k].Inside(box) {
      var i := EveryPlaceTaken(units, spots, k);
      assert rs[i].Inside(box);
    }
    forall k, l | 0 <= k < l < |units| ensures units[k].Apart(units[l]) {
      var i := EveryPlaceTaken(units, spots, k);
      var j := EveryPlaceTaken(units, spots, l);
      assert rs[i].Apart(rs[j]) || rs[j].Apart(rs[i]);
    }
    forall px, py | box.Has(px, py) ensures Covered(units, px, py) {
      assert Covered(rs, px, py);
      var i :| 0 <= i < |rs| && rs[i].Has(px, py);
      assert units[spots[i].index].Has(px, py);
    }
    ArrangedArea(units, spots);
  }
}
