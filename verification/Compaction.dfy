/** When a dead block is compacted away, stated on sizes, and what that means for the units of a floorplan. */
module Compaction {
  import opened Wrappers
  import opened RealFunctions
  import opened Polish
  import opened Slicing
  import opened Curves
  import opened Geometry
  import opened Sizing
  import opened FloorplanLayout

  // ----- one cut

  /** How much the two children differ across the cut, and how much of the box lies above the larger one. */
  function Gap(cut: int, a: Entry, b: Entry): real {
    if cut == CUT_VERTICAL then Abs(a.y - b.y) else Abs(a.x - b.x)
  }

  function Spare(cut: int, box: Rect, a: Entry, b: Entry): real {
    if cut == CUT_VERTICAL then box.height - Max(a.y, b.y) else box.width - Max(a.x, b.x)
  }

  function Smaller(cut: int, a: Entry, b: Entry): real {
    if cut == CUT_VERTICAL then Min(a.y, b.y) else Min(a.x, b.x)
  }

  /** The dead block of a cut goes exactly when compaction is on and its extent is at most the ratio of the smaller
      child; then both children have the extent of the box. Otherwise both keep their difference. */
  ghost predicate Decided(cut: int, box: Rect, a: Entry, b: Entry, o: Options, left: Rect, right: Rect, gone: bool) {
    && (gone <==> o.compact && Gap(cut, a, b) <= o.ratio * (Smaller(cut, a, b) + Spare(cut, box, a, b)))
    && (cut == CUT_VERTICAL ==>
          && left.width == a.x && right.width == box.width - a.x
          && left.height == (if gone then box.height else a.y + Spare(cut, box, a, b))
          && right.height == (if gone then box.height else b.y + Spare(cut, box, a, b)))
    && (cut != CUT_VERTICAL ==>
          && left.height == a.y && right.height == box.height - a.y
          && left.width == (if gone then box.width else a.x + Spare(cut, box, a, b))
          && right.width == (if gone then box.width else b.x + Spare(cut, box, a, b)))
  }

  lemma RatioTimes(gap: real, child: real, ratio: real)
    requires child > 0.0
    ensures gap / child <= ratio <==> gap <= ratio * child
  {
    var q := gap / child;
    assert q * child == gap;
    if q <= ratio {
      assert (ratio - q) * child >= 0.0;
    } else {
      assert (q - ratio) * child > 0.0;
    }
  }

  lemma CellDecided(cut: int, box: Rect, a: Entry, b: Entry, o: Options)
    requires a.x > 0.0 && a.y > 0.0 && b.x > 0.0 && b.y > 0.0
    requires box.width >= SumX(cut, a.x, b.x) && box.height >= SumY(cut, a.y, b.y)
    ensures var c := CellOf(cut, box, a, b, o); Decided(cut, box, a, b, o, c.left, c.right, c.dead == None)
  {
    hide CellOf, Fit, Squeezed, DeadRect, Gap, Smaller;
    CellParts(cut, box, a, b, o);
    FitSpares(cut, box, a, b);
    SqueezedIff(cut, box, a, b, o);
    AbsorbedFills(cut, box, a, b);
  }

  lemma SqueezedIff(cut: int, box: Rect, a: Entry, b: Entry, o: Options)
    requires a.x > 0.0 && a.y > 0.0 && b.x > 0.0 && b.y > 0.0
    requires box.width >= SumX(cut, a.x, b.x) && box.height >= SumY(cut, a.y, b.y)
    ensures var s := Fit(cut, box.width, box.height, a, b);
            && AllPositive(s)
            && (Squeezed(cut, s, o) <==>
                o.compact && Gap(cut, a, b) <= o.ratio * (Smaller(cut, a, b) + Spare(cut, box, a, b)))
  {
    hide Fit, Small;
    FitSpares(cut, box, a, b);
    SmallIff(Gap(cut, a, b), Smaller(cut, a, b) + Spare(cut, box, a, b), o);
  }

  /** A child that takes over the dead block fills the box. */
  lemma AbsorbedFills(cut: int, box: Rect, a: Entry, b: Entry)
    requires box.width >= SumX(cut, a.x, b.x) && box.height >= SumY(cut, a.y, b.y)
    ensures var s := Absorb(cut, Fit(cut, box.width, box.height, a, b));
            if cut == CUT_VERTICAL then s == Sizes(a.x, box.height, box.width - a.x, box.height)
            else s == Sizes(box.width, a.y, box.width, box.height - a.y)
  {
  }

  lemma SmallIff(gap: real, child: real, o: Options)
    requires child > 0.0
    ensures Small(gap, child, o) <==> o.compact && gap <= o.ratio * child
  {
    RatioTimes(gap, child, o.ratio);
  }

  /** What the box has to spare goes to both children, along the cut to the right one. */
  lemma FitSpares(cut: int, box: Rect, a: Entry, b: Entry)
    requires box.width >= SumX(cut, a.x, b.x) && box.height >= SumY(cut, a.y, b.y)
    ensures var g := Spare(cut, box, a, b);
            Fit(cut, box.width, box.height, a, b) ==
            if cut == CUT_VERTICAL then Sizes(a.x, a.y + g, box.width - a.x, b.y + g)
            else Sizes(a.x + g, a.y, b.x + g, box.height - a.y)
  {
  }

  // ----- the whole plan

  /** Every cut of the plan is decided that way. */
  ghost predicate DecidedThroughout(p: Plan, t: Tree, desc: seq<Curve>, pos: nat, o: Options)
    requires Described(t, desc) && pos < |CurveOf(t, desc)|
    decreases t
  {
    match t
    case Leaf(u) => p.Unit? && p.unit == u
    case Node(cut, l, r) =>
      var e := CurveOf(t, desc)[pos];
      && p.Group?
      && Decided(cut, p.rect, LeftEntry(t, desc, pos), RightEntry(t, desc, pos), o, p.left.rect, p.right.rect,
                 p.dead == None)
      && DecidedThroughout(p.left, l, desc, e.leftPos, o) && DecidedThroughout(p.right, r, desc, e.rightPos, o)
  }

  lemma {:induction false} PlanDecided(t: Tree, desc: seq<Curve>, pos: nat, box: Rect, o: Options)
    requires Described(t, desc) && pos < |CurveOf(t, desc)|
    requires box.width >= CurveOf(t, desc)[pos].x && box.height >= CurveOf(t, desc)[pos].y
    ensures DecidedThroughout(PlanOf(t, desc, pos, box, o), t, desc, pos, o)
    decreases t
  {
    match t
    case Leaf(u) =>
    case Node(cut, l, r) =>
      var a, b := LeftEntry(t, desc, pos), RightEntry(t, desc, pos);
      EntrySums(t, desc, pos);
      CellDecided(cut, box, a, b, o);
      CellComposed(cut, box, a, b, o);
      hide CellOf, Decided, Composed;
      var c, e := CellOf(cut, box, a, b, o), CurveOf(t, desc)[pos];
      PlanDecided(l, desc, e.leftPos, c.left, o);
      PlanDecided(r, desc, e.rightPos, c.right, o);
  }

  // ----- without compaction no unit is enlarged

  /** Compaction is off, or takes only dead blocks of no extent. */
  predicate Idle(o: Options) { !o.compact || o.ratio <= 0.0 }

  lemma IdleCell(cut: int, box: Rect, a: Entry, b: Entry, o: Options, left: Rect, right: Rect, gone: bool)
    requires a.x > 0.0 && a.y > 0.0 && b.x > 0.0 && b.y > 0.0 && Idle(o)
    requires box.width == SumX(cut, a.x, b.x) && box.height == SumY(cut, a.y, b.y)
    requires Decided(cut, box, a, b, o, left, right, gone)
    ensures left.width == a.x && left.height == a.y && right.width == b.x && right.height == b.y
  {
    assert Spare(cut, box, a, b) == 0.0 && Smaller(cut, a, b) > 0.0;
    if gone {
      assert o.ratio * Smaller(cut, a, b) <= 0.0;
      assert Gap(cut, a, b) == 0.0;
    }
  }

  ghost predicate Exactly(p: Plan, t: Tree, desc: seq<Curve>, c: Choice)
    requires Described(t, desc) && Fitting(t, desc, c)
  {
    match t
    case Leaf(u) => p.Unit? && p.unit == u && p.rect.width == desc[u][c.pos].x && p.rect.height == desc[u][c.pos].y
    case Node(_, l, r) => p.Group? && Exactly(p.left, l, desc, c.left) && Exactly(p.right, r, desc, c.right)
  }

  lemma {:induction false} PlanExactly(t: Tree, desc: seq<Curve>, pos: nat, box: Rect, o: Options)
    requires Described(t, desc) && pos < |CurveOf(t, desc)| && Idle(o)
    requires box.width == CurveOf(t, desc)[pos].x && box.height == CurveOf(t, desc)[pos].y
    ensures Fitting(t, desc, ChoiceAt(t, desc, pos))
    ensures Exactly(PlanOf(t, desc, pos, box, o), t, desc, ChoiceAt(t, desc, pos))
    decreases t
  {
    EntryAttained(t, desc, pos);
    match t
    case Leaf(u) =>
    case Node(cut, l, r) =>
      var a, b := LeftEntry(t, desc, pos), RightEntry(t, desc, pos);
      EntrySums(t, desc, pos);
      CellDecided(cut, box, a, b, o);
      var c, e := CellOf(cut, box, a, b, o), CurveOf(t, desc)[pos];
      IdleCell(cut, box, a, b, o, c.left, c.right, c.dead == None);
      hide CellOf, Decided;
      PlanExactly(l, desc, e.leftPos, c.left, o);
      PlanExactly(r, desc, e.rightPos, c.right, o);
  }

  ghost predicate UnitsExact(t: Tree, desc: seq<Curve>, c: Choice, units: seq<Rect>)
    requires Described(t, desc) && Fitting(t, desc, c)
  {
    match t
    case Leaf(u) => u < |units| && units[u].width == desc[u][c.pos].x && units[u].height == desc[u][c.pos].y
    case Node(_, l, r) => UnitsExact(l, desc, c.left, units) && UnitsExact(r, desc, c.right, units)
  }

  lemma {:induction false} ExactFromPlan(p: Plan, t: Tree, desc: seq<Curve>, c: Choice, units: seq<Rect>, first: nat)
    requires Described(t, desc) && Labelled(t) && Fitting(t, desc, c) && Exactly(p, t, desc, c) && UnitsLabelled(p)
    requires Holds(units, Spots(p, first))
    ensures UnitsExact(t, desc, c, units)
    decreases t
  {
    hide Spots, Holds, Ordered, DeadCount;
    match t
    case Leaf(u) => LeafHeld(p, units, first);
    case Node(_, l, r) =>
      var b := first + (if p.dead.Some? then 1 else 0);
      SpotsOfGroup(p, first);
      OrderedHeldParts(units, if p.dead.Some? then [Spot(first, p.dead.value)] else [], Spots(p.left, b),
          Spots(p.right, b + DeadCount(p.left)), p.onLeft);
      ExactFromPlan(p.left, l, desc, c.left, units, b);
      ExactFromPlan(p.right, r, desc, c.right, units, b + DeadCount(p.left));
  }

  /** In a floorplan laid out without compaction, or with a ratio of zero, every unit has exactly the size of its
      chosen orientation. */
  lemma LaidOutExactly(t: Tree, desc: seq<Curve>, pos: nat, o: Options, n: nat, units: seq<Rect>, c: Choice)
    requires Described(t, desc) && Labelled(t) && LaidOut(t, desc, pos, o, n, units) && Idle(o)
    requires c == ChoiceAt(t, desc, pos)
    ensures Fitting(t, desc, c) && UnitsExact(t, desc, c, units)
  {
    var box := Rect(0.0, 0.0, CurveOf(t, desc)[pos].x, CurveOf(t, desc)[pos].y);
    PlanExactly(t, desc, pos, box, o);
    ExactFromPlan(PlanOf(t, desc, pos, box, o), t, desc, c, units, n);
  }

  /** In every floorplan laid out, whatever the options, all cuts are decided as promised. */
  lemma LaidOutDecided(t: Tree, desc: seq<Curve>, pos: nat, o: Options, n: nat, units: seq<Rect>)
    requires Described(t, desc) && LaidOut(t, desc, pos, o, n, units)
    ensures exists p :: UnitsLabelled(p) && Arranged(units, Spots(p, n)) && DecidedThroughout(p, t, desc, pos, o)
  {
    var box := Rect(0.0, 0.0, CurveOf(t, desc)[pos].x, CurveOf(t, desc)[pos].y);
    PlanDecided(t, desc, pos, box, o);
    assert DecidedThroughout(PlanOf(t, desc, pos, box, o), t, desc, pos, o);
  }
}
