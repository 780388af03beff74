/** From a Polish expression to a finished chip: one evaluation of the annealing loop, and its undoing. */
module Evaluate {
  import opened Polish
  import opened Slicing
  import opened Curves
  import opened Geometry
  import opened Sizing
  import opened Floorplan
  import opened FloorplanLayout
  import Rim
  import opened Wrap
  import opened Npe

  // ----- laid-out blocks have positive area

  ghost predicate SolidPlan(p: Plan) {
    match p
    case Unit(_, r) => Solid(r)
    case Group(_, d, _, l, r) => (d.Some? ==> Solid(d.value)) && SolidPlan(l) && SolidPlan(r)
  }

  lemma {:induction false} PlanSolid(p: Plan, t: Tree, desc: seq<Curve>, c: Choice)
    requires Described(t, desc) && Fitting(t, desc, c) && AtLeast(p, t, desc, c) && DeadNonempty(p)
    ensures SolidPlan(p)
    decreases t
  {
    match t
    case Leaf(u) =>
    case Node(_, l, r) =>
      PlanSolid(p.left, l, desc, c.left);
      PlanSolid(p.right, r, desc, c.right);
  }

  ghost predicate SolidSpots(spots: seq<Spot>) {
    forall i :: 0 <= i < |spots| ==> Solid(spots[i].rect)
  }

  lemma {:induction false} SpotsSolid(p: Plan, first: nat)
    requires UnitsLabelled(p) && SolidPlan(p)
    ensures SolidSpots(Spots(p, first))
    decreases p
  {
    match p
    case Unit(u, r) =>
    case Group(_, d, onLeft, l, r) =>
      var k := if d.Some? then 1 else 0;
      SpotsSolid(l, first + k);
      SpotsSolid(r, first + k + DeadCount(l));
  }

  /** With compaction on, everything laid out has positive area: units by their curves, dead blocks because
      empty ones do not survive. */
  lemma LaidOutSolid(t: Tree, desc: seq<Curve>, pos: nat, o: Options, n: nat, units: seq<Rect>)
    requires Described(t, desc) && LaidOut(t, desc, pos, o, n, units) && o.compact && o.ratio >= 0.0
    ensures AllSolid(units)
  {
    hide Arranged;
    var box := Rect(0.0, 0.0, CurveOf(t, desc)[pos].x, CurveOf(t, desc)[pos].y);
    var p := PlanOf(t, desc, pos, box, o);
    PlanAtLeast(t, desc, pos, box, o);
    PlanDeadNonempty(t, desc, pos, box, o);
    PlanSolid(p, t, desc, ChoiceAt(t, desc, pos));
    SpotsSolid(p, n);
    forall k: nat | k < |units| ensures Solid(units[k]) {
      var i := EveryPlaceTaken(units, Spots(p, n), k);
    }
  }

  // ----- one evaluation

  datatype Config = Config(ratio: real, wrapL2: bool, l2Area: real, modelRim: bool, rim: real) {
    predicate Sensible() { ratio >= 0.0 && (wrapL2 ==> l2Area > 0.0) && (modelRim ==> rim > 0.0) }
    /** Blocks and L2 parts, and with the rim at most two strips for each of them plus two. */
    function Capacity(n: nat): int {
      var blocks := 2 * n - 1 + (if wrapL2 then 3 else 0);
      if modelRim then 3 * blocks + 2 else blocks
    }
  }

  /** A chip around a core of the given size. */
  ghost predicate Around(cfg: Config, core: Rect, chip: Rect) {
    exists x, y :: x >= 0.0 && y >= 0.0 && (!cfg.wrapL2 ==> x == y == 0.0) && AroundBy(cfg, core, chip, x, y)
  }

  /** The cache has the shape and the area asked for. */
  ghost predicate Cached(cfg: Config, core: Rect, x: real, y: real) {
    && (cfg.wrapL2 ==> Proportioned(core.width, core.height, cfg.l2Area, x, y))
    && WithL2(core, x, y).Area() == core.Area() + (if cfg.wrapL2 then cfg.l2Area else 0.0)
  }

  ghost predicate AroundBy(cfg: Config, core: Rect, chip: Rect, x: real, y: real) {
    Cached(cfg, core, x, y) && chip == if cfg.modelRim then WithRim(WithL2(core, x, y), cfg.rim) else WithL2(core, x, y)
  }

  function WithL2(core: Rect, x: real, y: real): Rect { Rect(0.0, 0.0, 2.0 * x + core.width, y + core.height) }

  function WithRim(box: Rect, rim: real): Rect { Rect(0.0, 0.0, box.width + 2.0 * rim, box.height + 2.0 * rim) }

  /** Adds the L2 cache if configured. */
  method WrapCache(flp: Flp, cfg: Config, sqrt: real -> real, ghost core: Rect) returns (ghost x: real, ghost y: real)
    requires cfg.Sensible() && SquareRoot(sqrt) && core == Rect(0.0, 0.0, core.width, core.height) && Solid(core)
    requires flp.nUnits + (if cfg.wrapL2 then 3 else 0) <= flp.units.Length
    requires Tiles(flp.units[..flp.nUnits], core) && AllSolid(flp.units[..flp.nUnits])
    modifies flp, flp.units
    ensures flp.nUnits == old(flp.nUnits) + (if cfg.wrapL2 then 3 else 0) <= flp.units.Length
    ensures x >= 0.0 && y >= 0.0 && (!cfg.wrapL2 ==> x == y == 0.0) && Cached(cfg, core, x, y)
    ensures Tiles(flp.units[..flp.nUnits], WithL2(core, x, y)) && AllSolid(flp.units[..flp.nUnits])
  {
    hide Tiles, TotalArea, AllSolid, SquareRoot, Rect.Area, Proportioned;
    x, y := 0.0, 0.0;
    if cfg.wrapL2 {
      TilesArea(flp.units[..flp.nUnits], core);
      x, y := WrapL2(flp, cfg.l2Area, sqrt, core);
      WrappedArea(flp.units[..flp.nUnits], flp.nUnits - 3, old(flp.units[..flp.nUnits]), x, y, core,
          WithL2(core, x, y), cfg.l2Area);
    } else {
      assert WithL2(core, x, y) == core;
    }
  }

  /** Adds the L2 cache and the rim, as configured. */
  method WrapAround(flp: Flp, cfg: Config, sqrt: real -> real, ghost core: Rect)
      returns (rimBlocks: nat, ghost chip: Rect)
    requires cfg.Sensible() && SquareRoot(sqrt) && core == Rect(0.0, 0.0, core.width, core.height) && Solid(core)
    requires var blocks := flp.nUnits + (if cfg.wrapL2 then 3 else 0);
             (if cfg.modelRim then 3 * blocks + 2 else blocks) <= flp.units.Length
    requires Tiles(flp.units[..flp.nUnits], core) && AllSolid(flp.units[..flp.nUnits])
    modifies flp, flp.units
    ensures flp.nUnits == old(flp.nUnits) + (if cfg.wrapL2 then 3 else 0) + rimBlocks <= flp.units.Length
    ensures Tiles(flp.units[..flp.nUnits], chip) && Around(cfg, core, chip)
  {
    hide Tiles, AllSolid, SquareRoot, Cached, Rim.Ring, Rim.Harmless, Rim.Count;
    ghost var x, y := WrapCache(flp, cfg, sqrt, core);
    rimBlocks := 0;
    chip := WithL2(core, x, y);
    if cfg.modelRim {
      SolidRim(flp.units[..flp.nUnits], cfg.rim, chip);
      rimBlocks := WrapRim(flp, cfg.rim, chip);
      chip := WithRim(chip, cfg.rim);
    }
    assert AroundBy(cfg, core, chip, x, y);
  }

  lemma WrappedArea(us: seq<Rect>, n: nat, before: seq<Rect>, dx: real, dy: real, core: Rect, box: Rect, area: real)
    requires n <= |us| && us[..n] == AllShifted(before, dx, dy) && TotalArea(us[n..]) == area
    requires Tiles(us, box) && TotalArea(before) == core.Area()
    ensures box.Area() == core.Area() + area
  {
    hide TotalArea, Tiles, Rect.Area;
    TilesArea(us, box);
    assert us == us[..n] + us[n..];
    TotalAreaConcat(us[..n], us[n..]);
    ShiftedArea(before, dx, dy);
  }

  /** What an evaluation produces for a tree: the core tiled in the orientation of least area, wrapped. */
  ghost predicate Finished(t: Tree, desc: seq<Curve>, cfg: Config, units: seq<Rect>)
    requires Described(t, desc)
  {
    exists pos: nat, chip: Rect ::
      IsMinArea(CurveOf(t, desc), pos) && Tiles(units, chip) && Around(cfg, CoreOf(t, desc, pos), chip)
  }

  ghost function CoreOf(t: Tree, desc: seq<Curve>, pos: nat): Rect
    requires Described(t, desc)
  {
    if pos < |CurveOf(t, desc)| then Rect(0.0, 0.0, CurveOf(t, desc)[pos].x, CurveOf(t, desc)[pos].y)
        else Rect(0.0, 0.0, 0.0, 0.0)
  }

  /** One evaluation of an expression. It stops only if the expression does not fit the stack, which at most
      128 units always do; otherwise blocks, dead space, L2 parts and rim fill the chip exactly. */
  method EvaluateNpe(expr: NPE, desc: seq<Curve>, stack: NodeStack, flp: Flp, cfg: Config, sqrt: real -> real)
    returns (ok: bool, compacted: nat, rimBlocks: nat)
    requires expr.Valid() && stack.Valid() && stack.top == 0 && cfg.Sensible() && SquareRoot(sqrt)
    requires |desc| >= expr.nUnits && forall u :: 0 <= u < expr.nUnits ==> Proper(desc[u])
    requires flp.nUnits == 2 * expr.nUnits - 1 && cfg.Capacity(expr.nUnits) <= flp.units.Length
    modifies stack, stack.slots, flp, flp.units
    ensures ok <==> FitsUpTo(expr.Value(), |expr.Value()|)
    ensures expr.nUnits <= MAX_STACK ==> ok
    ensures ok ==> stack.Valid() && stack.top == 0
    ensures ok ==> flp.nUnits + compacted == 2 * expr.nUnits - 1 + (if cfg.wrapL2 then 3 else 0) + rimBlocks
    ensures ok ==> flp.nUnits <= flp.units.Length && Parse(expr.Value()).Some?
                   && Described(Parse(expr.Value()).value, desc)
                   && Finished(Parse(expr.Value()).value, desc, cfg, flp.units[..flp.nUnits])
  {
    hide Tiles, AllSolid, SquareRoot, LaidOut, CurveOf, Parse, Proper, Around, ValidTree, FitsUpTo, NPE.Valid, ValidNpe;
    compacted, rimBlocks := 0, 0;
    ghost var e, n := expr.Value(), expr.nUnits;
    ExpressionParses(expr);
    var root := TreeFromNpe(desc, stack, expr);
    ok := root != null;
    if !ok { return; }
    ghost var t := Parse(e).value;
    var o := Options(true, cfg.ratio);
    compacted := TreeToFlp(root, flp, o, desc, n);
    ghost var pos: nat :| IsMinArea(CurveOf(t, desc), pos) && LaidOut(t, desc, pos, o, n, flp.units[..flp.nUnits]);
    LaidOutTiles(t, desc, pos, o, n, flp.units[..flp.nUnits]);
    LaidOutSolid(t, desc, pos, o, n, flp.units[..flp.nUnits]);
    CoreSolid(t, desc, pos, o, n, flp.units[..flp.nUnits]);
    ghost var chip;
    rimBlocks, chip := WrapAround(flp, cfg, sqrt, CoreOf(t, desc, pos));
  }

  lemma ExpressionParses(expr: NPE)
    requires expr.Valid()
    ensures Parse(expr.Value()).Some? && ValidTree(Parse(expr.Value()).value, expr.nUnits)
    ensures expr.nUnits <= MAX_STACK ==> FitsUpTo(expr.Value(), |expr.Value()|)
  {
    TreesAreExpressions(expr.nUnits);
    if expr.nUnits <= MAX_STACK { FewUnitsFit(expr.Value(), expr.nUnits); }
  }

  lemma CoreSolid(t: Tree, desc: seq<Curve>, pos: nat, o: Options, n: nat, units: seq<Rect>)
    requires Described(t, desc) && LaidOut(t, desc, pos, o, n, units)
    ensures Solid(CoreOf(t, desc, pos)) && pos < |CurveOf(t, desc)|
  {
  }

  /** Takes rim and L2 away again and restores the compacted dead blocks, empty: the floorplan is a
      placeholder for the next evaluation, with its units in place. */
  method RestoreDeadBlocks(flp: Flp, n: nat, compacted: nat, wrapL2: bool, modelRim: bool, rimBlocks: nat)
    requires n >= 1 && flp.nUnits + compacted == 2 * n - 1 + (if wrapL2 then 3 else 0) + rimBlocks
    requires 2 * n - 1 <= flp.units.Length && (!modelRim ==> rimBlocks == 0)
        && rimBlocks + (if wrapL2 then 3 else 0) <= flp.nUnits
    modifies flp, flp.units
    ensures flp.nUnits == 2 * n - 1 && flp.units[..n] == old(flp.units[..n])
    ensures forall i :: n <= i < 2 * n - 1 ==> flp.units[i] == Rect(0.0, 0.0, 0.0, 0.0)
  {
    if modelRim { flp.nUnits := flp.nUnits - rimBlocks; }
    if wrapL2 { flp.nUnits := flp.nUnits - 3; }
    flp.nUnits := flp.nUnits + compacted;
    for i := 0 to n - 1
      invariant flp.nUnits == 2 * n - 1 && flp.units[..n] == old(flp.units[..n])
      invariant forall k :: n <= k < n + i ==> flp.units[k] == Rect(0.0, 0.0, 0.0, 0.0)
    {
      flp.units[n + i] := Rect(0.0, 0.0, 0.0, 0.0);
    }
  }
}
