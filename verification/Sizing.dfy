/** Recursive sizing of a slicing tree: where every unit and every dead block goes when an
    orientation of the root is chosen, with small dead blocks compacted away. */
module Sizing {
  import opened Wrappers
  import opened RealFunctions
  import opened Polish
  import opened Slicing
  import opened Curves
  import opened Geometry

  /** compact_dead and compact_ratio. */
  datatype Options = Options(compact: bool, ratio: real)

  /** Sizes of the left and right child of a cut. */
  datatype Sizes = Sizes(x1: real, y1: real, x2: real, y2: real)

  /** Child sizes after they absorb what was compacted away from this bounding rectangle. */
  function Fit(cut: int, w: real, h: real, a: Entry, b: Entry): Sizes {
    if cut == CUT_VERTICAL then
      var g := if h > Max(a.y, b.y) then h - Max(a.y, b.y) else 0.0;
      Sizes(a.x, a.y + g, if w > a.x + b.x then b.x + (w - (a.x + b.x)) else b.x, b.y + g)
    else
      var g := if w > Max(a.x, b.x) then w - Max(a.x, b.x) else 0.0;
      Sizes(a.x + g, a.y, b.x + g, if h > a.y + b.y then b.y + (h - (a.y + b.y)) else b.y)
  }

  predicate AllPositive(s: Sizes) {
    s.x1 > 0.0 && s.y1 > 0.0 && s.x2 > 0.0 && s.y2 > 0.0
  }

  function DeadRect(cut: int, s: Sizes, leftx: real, bottomy: real): Rect {
    if cut == CUT_VERTICAL then
      Rect(leftx + (if s.y2 >= s.y1 then 0.0 else s.x1), bottomy + Min(s.y1, s.y2),
           if s.y2 >= s.y1 then s.x1 else s.x2, Abs(s.y2 - s.y1))
    else
      Rect(leftx + Min(s.x1, s.x2), bottomy + (if s.x2 >= s.x1 then 0.0 else s.y1),
           Abs(s.x2 - s.x1), if s.x2 >= s.x1 then s.y1 else s.y2)
  }

  /** Is a dead block small enough, beside the smaller child, to be compacted? */
  predicate Small(gap: real, child: real, o: Options)
    requires child > 0.0
  {
    o.compact && gap / child <= o.ratio
  }

  predicate Squeezed(cut: int, s: Sizes, o: Options)
    requires AllPositive(s)
  {
    if cut == CUT_VERTICAL then Small(Abs(s.y2 - s.y1), Min(s.y1, s.y2), o)
    else Small(Abs(s.x2 - s.x1), Min(s.x1, s.x2), o)
  }

  /** The smaller child takes over the dead block. */
  function Absorb(cut: int, s: Sizes): Sizes {
    if cut == CUT_VERTICAL then (if s.y2 >= s.y1 then s.(y1 := s.y2) else s.(y2 := s.y1))
    else (if s.x2 >= s.x1 then s.(x1 := s.x2) else s.(x2 := s.x1))
  }

  function Final(cut: int, s: Sizes, o: Options): Sizes
    requires AllPositive(s)
  {
    if Squeezed(cut, s, o) then Absorb(cut, s) else s
  }

  // ----- one cut

  /** What one cut decides: the rectangles of its children and of its dead block, if that survives,
      and the child beside which the dead block lies. */
  datatype Cell = Cell(left: Rect, right: Rect, dead: Option<Rect>, onLeft: bool)

  function CellOf(cut: int, box: Rect, a: Entry, b: Entry, o: Options): Cell
    requires a.x > 0.0 && a.y > 0.0 && b.x > 0.0 && b.y > 0.0
  {
    var s := Fit(cut, box.width, box.height, a, b);
    var f := Final(cut, s, o);
    Cell(Rect(box.leftx, box.bottomy, f.x1, f.y1),
         if cut == CUT_VERTICAL then Rect(box.leftx + a.x, box.bottomy, f.x2, f.y2)
         else Rect(box.leftx, box.bottomy + a.y, f.x2, f.y2),
         if Squeezed(cut, s, o) then None else Some(DeadRect(cut, s, box.leftx, box.bottomy)),
         if cut == CUT_VERTICAL then s.y2 >= s.y1 else s.x2 >= s.x1)
  }

  lemma CellParts(cut: int, box: Rect, a: Entry, b: Entry, o: Options)
    requires a.x > 0.0 && a.y > 0.0 && b.x > 0.0 && b.y > 0.0
    ensures var s, c := Fit(cut, box.width, box.height, a, b), CellOf(cut, box, a, b, o);
            && AllPositive(s) && c.dead == (if Squeezed(cut, s, o) then None
                                            else Some(DeadRect(cut, s, box.leftx, box.bottomy)))
            && Sizes(c.left.width, c.left.height, c.right.width, c.right.height) == Final(cut, s, o)
            && c.right.leftx == (if cut == CUT_VERTICAL then box.leftx + a.x else box.leftx)
            && c.right.bottomy == (if cut == CUT_VERTICAL then box.bottomy else box.bottomy + a.y)
  {
  }

  /** The children and the dead block make up the box. */
  ghost predicate Composed(c: Cell, box: Rect) {
    match c.dead
    case None => Splits(c.left, c.right, box)
    case Some(d) =>
      if c.onLeft then exists column :: Splits(c.left, d, column) && Splits(column, c.right, box)
      else exists column :: Splits(c.right, d, column) && Splits(c.left, column, box)
  }

  lemma CellComposed(cut: int, box: Rect, a: Entry, b: Entry, o: Options)
    requires a.x > 0.0 && a.y > 0.0 && b.x > 0.0 && b.y > 0.0
    requires box.width >= SumX(cut, a.x, b.x) && box.height >= SumY(cut, a.y, b.y)
    ensures var c := CellOf(cut, box, a, b, o);
            && Composed(c, box)
            && c.left.width >= a.x && c.left.height >= a.y && c.right.width >= b.x && c.right.height >= b.y
  {
    var c, v := CellOf(cut, box, a, b, o), cut == CUT_VERTICAL;
    if c.dead.Some? {
      var d := c.dead.value;
      if c.onLeft {
        var column := if v then Rect(box.leftx, box.bottomy, c.left.width, box.height)
                        else Rect(box.leftx, box.bottomy, box.width, c.left.height);
        assert Splits(c.left, d, column) && Splits(column, c.right, box);
      } else {
        var column := if v then Rect(c.right.leftx, box.bottomy, c.right.width, box.height)
                        else Rect(box.leftx, c.right.bottomy, box.width, c.right.height);
        assert Splits(c.right, d, column) && Splits(c.left, column, box);
      }
    }
  }

  lemma CellNonempty(cut: int, box: Rect, a: Entry, b: Entry, o: Options)
    requires a.x > 0.0 && a.y > 0.0 && b.x > 0.0 && b.y > 0.0 && o.compact && o.ratio >= 0.0
    ensures var c := CellOf(cut, box, a, b, o); c.dead.Some? ==> c.dead.value.width > 0.0 && c.dead.value.height > 0.0
  {
  }

  // ----- the plan of a whole tree

  /** A slicing tree with the rectangle of every node and every surviving dead block. */
  datatype Plan =
    | Unit(unit: int, rect: Rect)
    | Group(rect: Rect, dead: Option<Rect>, onLeft: bool, left: Plan, right: Plan)

  ghost function LeftEntry(t: Tree, desc: seq<Curve>, pos: nat): (e: Entry)
    requires t.Node? && Described(t, desc) && pos < |CurveOf(t, desc)|
    ensures e.x > 0.0 && e.y > 0.0
  {
    CurveOf(t.left, desc)[CurveOf(t, desc)[pos].leftPos]
  }

  ghost function RightEntry(t: Tree, desc: seq<Curve>, pos: nat): (e: Entry)
    requires t.Node? && Described(t, desc) && pos < |CurveOf(t, desc)|
    ensures e.x > 0.0 && e.y > 0.0
  {
    CurveOf(t.right, desc)[CurveOf(t, desc)[pos].rightPos]
  }

  /** The plan of `t` in `box` when entry `pos` of its curve is chosen. */
  ghost function PlanOf(t: Tree, desc: seq<Curve>, pos: nat, box: Rect, o: Options): (p: Plan)
    requires Described(t, desc) && pos < |CurveOf(t, desc)|
    ensures p.rect == box
    decreases t
  {
    match t
    case Leaf(u) => Unit(u, box)
    case Node(cut, l, r) =>
      var c := CellOf(cut, box, LeftEntry(t, desc, pos), RightEntry(t, desc, pos), o);
      var e := CurveOf(t, desc)[pos];
      Group(box, c.dead, c.onLeft, PlanOf(l, desc, e.leftPos, c.left, o), PlanOf(r, desc, e.rightPos, c.right, o))
  }

  lemma EntrySums(t: Tree, desc: seq<Curve>, pos: nat)
    requires t.Node? && Described(t, desc) && pos < |CurveOf(t, desc)|
    ensures var e, a, b := CurveOf(t, desc)[pos], LeftEntry(t, desc, pos), RightEntry(t, desc, pos);
            e.x == SumX(t.cut, a.x, b.x) && e.y == SumY(t.cut, a.y, b.y)
            && e.median == if t.cut == CUT_VERTICAL then a.x else a.y
  {
  }

  ghost predicate Sound(p: Plan) {
    match p
    case Unit(_, r) => r.width >= 0.0 && r.height >= 0.0
    case Group(box, d, onLeft, l, r) => Composed(Cell(l.rect, r.rect, d, onLeft), box) && Sound(l) && Sound(r)
  }

  /** Compaction and in-place enlargement never break the geometry. */
  lemma {:induction false} PlanSound(t: Tree, desc: seq<Curve>, pos: nat, box: Rect, o: Options)
    requires Described(t, desc) && pos < |CurveOf(t, desc)|
    requires box.width >= CurveOf(t, desc)[pos].x && box.height >= CurveOf(t, desc)[pos].y
    ensures Sound(PlanOf(t, desc, pos, box, o))
    decreases t
  {
    match t
    case Leaf(u) =>
    case Node(cut, l, r) =>
      var a, b := LeftEntry(t, desc, pos), RightEntry(t, desc, pos);
      EntrySums(t, desc, pos);
      CellComposed(cut, box, a, b, o);
      var c, e := CellOf(cut, box, a, b, o), CurveOf(t, desc)[pos];
      PlanSound(l, desc, e.leftPos, c.left, o);
      PlanSound(r, desc, e.rightPos, c.right, o);
  }

  // ----- laying a plan out in an array

  function DeadCount(p: Plan): nat {
    match p
    case Unit(_, _) => 0
    case Group(_, d, _, l, r) => (if d.Some? then 1 else 0) + DeadCount(l) + DeadCount(r)
  }

  /** The pieces with their places: units keep their own, dead blocks take consecutive ones from `first` on. */
  function Spots(p: Plan, first: nat): seq<Spot>
    requires UnitsLabelled(p)
  {
    match p
    case Unit(u, r) => [Spot(u, r)]
    case Group(_, d, onLeft, l, r) =>
      var mark := if d.Some? then [Spot(first, d.value)] else [];
      var ls := Spots(l, first + |mark|);
      var rs := Spots(r, first + |mark| + DeadCount(l));
      Ordered(mark, ls, rs, onLeft)
  }

  function Ordered<T>(mark: seq<T>, ls: seq<T>, rs: seq<T>, onLeft: bool): seq<T> {
    if onLeft then mark + ls + rs else ls + (mark + rs)
  }

  predicate UnitsLabelled(p: Plan) {
    match p
    case Unit(u, _) => u >= 0
    case Group(_, _, _, l, r) => UnitsLabelled(l) && UnitsLabelled(r)
  }

  lemma RectsOrdered(mark: seq<Spot>, ls: seq<Spot>, rs: seq<Spot>, onLeft: bool)
    ensures Rects(Ordered(mark, ls, rs, onLeft)) == Ordered(Rects(mark), Rects(ls), Rects(rs), onLeft)
  {
  }

  lemma ComposedTiles(c: Cell, box: Rect, ls: seq<Rect>, rs: seq<Rect>)
    requires Composed(c, box) && Tiles(ls, c.left) && Tiles(rs, c.right)
    ensures var mark := if c.dead.Some? then [c.dead.value] else [];
            Tiles(Ordered(mark, ls, rs, c.onLeft), box)
  {
    match c.dead
    case None =>
      assert [] + ls == ls && [] + rs == rs;
      JoinTiles(ls, c.left, rs, c.right, box);
    case Some(d) =>
      OneTile(d);
      if c.onLeft {
        var column :| Splits(c.left, d, column) && Splits(column, c.right, box);
        JoinTiles(ls, c.left, [d], d, column);
        JoinTiles([d] + ls, column, rs, c.right, box);
      } else {
        var column :| Splits(c.right, d, column) && Splits(c.left, column, box);
        JoinTiles(rs, c.right, [d], d, column);
        JoinTiles(ls, c.left, [d] + rs, column, box);
      }
  }

  lemma GroupTiles(c: Cell, box: Rect, first: nat, ls: seq<Spot>, rs: seq<Spot>)
    requires Composed(c, box) && Tiles(Rects(ls), c.left) && Tiles(Rects(rs), c.right)
    ensures Tiles(Rects(Ordered(if c.dead.Some? then [Spot(first, c.dead.value)] else [], ls, rs, c.onLeft)), box)
  {
    var mark := if c.dead.Some? then [Spot(first, c.dead.value)] else [];
    ComposedTiles(c, box, Rects(ls), Rects(rs));
    assert Rects(mark) == if c.dead.Some? then [c.dead.value] else [];
    RectsOrdered(mark, ls, rs, c.onLeft);
  }

  /** Exact tiling: the pieces of a sound plan fill its rectangle. */
  lemma {:induction false} SpotsTile(p: Plan, first: nat)
    requires Sound(p) && UnitsLabelled(p)
    ensures Tiles(Rects(Spots(p, first)), p.rect)
    decreases p
  {
    hide Tiles, Composed;
    match p
    case Unit(u, r) =>
      OneTile(r);
      assert Rects([Spot(u, r)]) == [r];
    case Group(box, d, onLeft, l, r) =>
      var mark := if d.Some? then [Spot(first, d.value)] else [];
      SpotsTile(l, first + |mark|);
      SpotsTile(r, first + |mark| + DeadCount(l));
      GroupTiles(Cell(l.rect, r.rect, d, onLeft), box, first, Spots(l, first + |mark|),
          Spots(r, first + |mark| + DeadCount(l)));
  }

  // ----- every place is used once

  function Leaves(p: Plan): set<int> {
    match p
    case Unit(u, _) => {u}
    case Group(_, _, _, l, r) => Leaves(l) + Leaves(r)
  }

  predicate DistinctLeaves(p: Plan) {
    match p
    case Unit(_, _) => true
    case Group(_, _, _, l, r) => DistinctLeaves(l) && DistinctLeaves(r) && Leaves(l) !! Leaves(r)
  }

  ghost predicate AllBelow(leaves: set<int>, n: int) {
    forall u :: u in leaves ==> u < n
  }

  ghost predicate Between(spots: seq<Spot>, leaves: set<int>, lo: int, hi: int) {
    forall i :: 0 <= i < |spots| ==> spots[i].index in leaves || lo <= spots[i].index < hi
  }

  ghost predicate NoneShared(xs: seq<Spot>, ys: seq<Spot>) {
    forall i, j :: 0 <= i < |xs| && 0 <= j < |ys| ==> xs[i].index != ys[j].index
  }

  /** Different leaves, and dead blocks in different ranges above all leaves. */
  lemma RangesApart(xs: seq<Spot>, ys: seq<Spot>, la: set<int>, lb: set<int>, a: int, b: int, c: int, d: int, low: int)
    requires Between(xs, la, a, b) && Between(ys, lb, c, d) && la !! lb && AllBelow(la, low) && AllBelow(lb, low)
    requires low <= a && low <= c && (b <= c || d <= a)
    ensures NoneShared(xs, ys)
  {
  }

  lemma JoinDistinct(xs: seq<Spot>, ys: seq<Spot>)
    requires DistinctSpots(xs) && DistinctSpots(ys) && NoneShared(xs, ys)
    ensures DistinctSpots(xs + ys)
  {
  }

  lemma JoinShared(xs: seq<Spot>, ys: seq<Spot>, zs: seq<Spot>)
    ensures NoneShared(xs, zs) && NoneShared(ys, zs) ==> NoneShared(xs + ys, zs)
    ensures NoneShared(zs, xs) && NoneShared(zs, ys) ==> NoneShared(zs, xs + ys)
  {
  }

  lemma WiderBetween(xs: seq<Spot>, la: set<int>, lb: set<int>, a: int, b: int, c: int, d: int)
    requires Between(xs, la, b, c) && la <= lb && a <= b && c <= d
    ensures Between(xs, lb, a, d)
  {
  }

  lemma JoinBetween(xs: seq<Spot>, ys: seq<Spot>, l: set<int>, a: int, d: int)
    requires Between(xs, l, a, d) && Between(ys, l, a, d)
    ensures Between(xs + ys, l, a, d)
  {
  }

  lemma OrderedPlacedOnce(mark: seq<Spot>, ls: seq<Spot>, rs: seq<Spot>, onLeft: bool, la: set<int>, lb: set<int>,
      a: int, b: int, c: int, d: int)
    requires DistinctSpots(mark) && DistinctSpots(ls) && DistinctSpots(rs)
    requires Between(mark, {}, a, b) && Between(ls, la, b, c) && Between(rs, lb, c, d)
    requires a <= b <= c <= d && la !! lb && AllBelow(la, a) && AllBelow(lb, a)
    ensures DistinctSpots(Ordered(mark, ls, rs, onLeft)) && Between(Ordered(mark, ls, rs, onLeft), la + lb, a, d)
  {
    hide DistinctSpots, Between, NoneShared;
    RangesApart(mark, ls, {}, la, a, b, b, c, a);
    RangesApart(mark, rs, {}, lb, a, b, c, d, a);
    RangesApart(ls, rs, la, lb, b, c, c, d, a);
    RangesApart(ls, mark, la, {}, b, c, a, b, a);
    WiderBetween(mark, {}, la + lb, a, a, b, d);
    WiderBetween(ls, la, la + lb, a, b, c, d);
    WiderBetween(rs, lb, la + lb, a, c, d, d);
    if onLeft {
      JoinDistinct(mark, ls);
      JoinShared(mark, ls, rs);
      JoinDistinct(mark + ls, rs);
      JoinBetween(mark, ls, la + lb, a, d);
      JoinBetween(mark + ls, rs, la + lb, a, d);
    } else {
      JoinDistinct(mark, rs);
      JoinShared(mark, rs, ls);
      JoinDistinct(ls, mark + rs);
      JoinBetween(mark, rs, la + lb, a, d);
      JoinBetween(ls, mark + rs, la + lb, a, d);
    }
  }

  lemma SinglePlaced(s: Spot, leaves: set<int>, lo: int, hi: int)
    requires s.index in leaves || lo <= s.index < hi
    ensures DistinctSpots([s]) && Between([s], leaves, lo, hi)
  {
  }

  lemma NonePlaced(lo: int)
    ensures DistinctSpots([]) && Between([], {}, lo, lo)
  {
  }

  lemma LeavesBelow(la: set<int>, lb: set<int>, a: int, b: int, c: int)
    requires AllBelow(la + lb, a) && a <= b <= c
    ensures AllBelow(la, a) && AllBelow(lb, a) && AllBelow(la, b) && AllBelow(lb, c)
  {
    assert la <= la + lb && lb <= la + lb;
  }

  /** No two pieces share a place, and dead blocks stay within the places reserved for them. */
  lemma {:induction false} SpotsPlacedOnce(p: Plan, first: nat)
    requires UnitsLabelled(p) && DistinctLeaves(p) && AllBelow(Leaves(p), first)
    ensures DistinctSpots(Spots(p, first)) && Between(Spots(p, first), Leaves(p), first, first + DeadCount(p))
    decreases p
  {
    hide Ordered, Between, DistinctSpots, AllBelow;
    match p
    case Unit(u, r) => SinglePlaced(Spot(u, r), {u}, first, first);
    case Group(box, d, onLeft, l, r) =>
      var mark := if d.Some? then [Spot(first, d.value)] else [];
      var b, c := first + |mark|, first + |mark| + DeadCount(l);
      if d.Some? { SinglePlaced(mark[0], {}, first, b); } else { NonePlaced(first); }
      LeavesBelow(Leaves(l), Leaves(r), first, b, c);
      SpotsPlacedOnce(l, b);
      SpotsPlacedOnce(r, c);
      OrderedPlacedOnce(mark, Spots(l, b), Spots(r, c), onLeft, Leaves(l), Leaves(r), first, b, c, c + DeadCount(r));
  }

  lemma CountOfUnit(p: Plan, first: nat)
    requires p.Unit? && UnitsLabelled(p)
    ensures |Spots(p, first)| == 1 && |Leaves(p)| == 1 && DeadCount(p) == 0
  {
  }

  lemma CountOfGroup(p: Plan, first: nat)
    requires p.Group? && UnitsLabelled(p)
    ensures UnitsLabelled(p.left) && UnitsLabelled(p.right)
    ensures var k := if p.dead.Some? then 1 else 0;
            && |Spots(p, first)| == k + |Spots(p.left, first + k)| + |Spots(p.right, first + k + DeadCount(p.left))|
            && DeadCount(p) == k + DeadCount(p.left) + DeadCount(p.right)
  {
  }

  lemma LeavesTogether(p: Plan)
    requires p.Group? && DistinctLeaves(p)
    ensures DistinctLeaves(p.left) && DistinctLeaves(p.right) && |Leaves(p)| == |Leaves(p.left)| + |Leaves(p.right)|
  {
  }

  lemma {:induction false} SpotsCount(p: Plan, first: nat)
    requires UnitsLabelled(p) && DistinctLeaves(p)
    ensures |Spots(p, first)| == |Leaves(p)| + DeadCount(p)
    decreases p
  {
    hide Spots, Leaves, DeadCount, UnitsLabelled, DistinctLeaves;
    if p.Unit? {
      CountOfUnit(p, first);
    } else {
      CountOfGroup(p, first);
      LeavesTogether(p);
      var k := if p.dead.Some? then 1 else 0;
      SpotsCount(p.left, first + k);
      SpotsCount(p.right, first + k + DeadCount(p.left));
    }
  }

  // ----- units are never smaller than chosen; surviving dead blocks are not empty

  ghost predicate AtLeast(p: Plan, t: Tree, desc: seq<Curve>, c: Choice)
    requires Described(t, desc) && Fitting(t, desc, c)
  {
    match t
    case Leaf(u) => p.Unit? && p.unit == u && p.rect.width >= desc[u][c.pos].x && p.rect.height >= desc[u][c.pos].y
    case Node(_, l, r) => p.Group? && AtLeast(p.left, l, desc, c.left) && AtLeast(p.right, r, desc, c.right)
  }

  /** Every unit gets at least the size of the orientation the positions lead to. */
  lemma {:induction false} PlanAtLeast(t: Tree, desc: seq<Curve>, pos: nat, box: Rect, o: Options)
    requires Described(t, desc) && pos < |CurveOf(t, desc)|
    requires box.width >= CurveOf(t, desc)[pos].x && box.height >= CurveOf(t, desc)[pos].y
    ensures Fitting(t, desc, ChoiceAt(t, desc, pos))
    ensures AtLeast(PlanOf(t, desc, pos, box, o), t, desc, ChoiceAt(t, desc, pos))
    decreases t
  {
    EntryAttained(t, desc, pos);
    match t
    case Leaf(u) =>
    case Node(cut, l, r) =>
      var a, b := LeftEntry(t, desc, pos), RightEntry(t, desc, pos);
      EntrySums(t, desc, pos);
      CellComposed(cut, box, a, b, o);
      var c, e := CellOf(cut, box, a, b, o), CurveOf(t, desc)[pos];
      PlanAtLeast(l, desc, e.leftPos, c.left, o);
      PlanAtLeast(r, desc, e.rightPos, c.right, o);
  }

  ghost predicate DeadNonempty(p: Plan) {
    match p
    case Unit(_, _) => true
    case Group(_, d, _, l, r) => (d.Some? ==> d.value.width > 0.0 && d.value.height > 0.0) && DeadNonempty(l)
                                 && DeadNonempty(r)
  }

  /** With compaction on and a non-negative ratio no dead block survives empty. */
  lemma {:induction false} PlanDeadNonempty(t: Tree, desc: seq<Curve>, pos: nat, box: Rect, o: Options)
    requires Described(t, desc) && pos < |CurveOf(t, desc)| && o.compact && o.ratio >= 0.0
    ensures DeadNonempty(PlanOf(t, desc, pos, box, o))
    decreases t
  {
    match t
    case Leaf(u) =>
    case Node(cut, l, r) =>
      var a, b := LeftEntry(t, desc, pos), RightEntry(t, desc, pos);
      CellNonempty(cut, box, a, b, o);
      var c, e := CellOf(cut, box, a, b, o), CurveOf(t, desc)[pos];
      PlanDeadNonempty(l, desc, e.leftPos, c.left, o);
      PlanDeadNonempty(r, desc, e.rightPos, c.right, o);
  }
}
