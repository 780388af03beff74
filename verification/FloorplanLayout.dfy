/** Turning a slicing tree into a floorplan: the recursive pass that fixes rectangles while it
    enlarges the children's curve entries in place, and its exact-tiling theorem. */
module FloorplanLayout {
  import opened RealFunctions
  import opened Polish
  import opened Slicing
  import opened Curves
  import opened Geometry
  import opened Sizing
  import opened Floorplan

  /** The geometry of a floorplan: unit rectangles, then dead blocks. */
  class Flp {
    const units: array<Rect>
    var nUnits: nat

    constructor (capacity: nat, n: nat)
      requires n <= capacity
      ensures units.Length == capacity && nUnits == n && fresh(units)
    {
      units := new Rect[capacity];
      nUnits := n;
    }
  }

  // ----- units of a tree and of its plan

  function TreeLeaves(t: Tree): set<int> {
    match t
    case Leaf(u) => {u}
    case Node(_, l, r) => TreeLeaves(l) + TreeLeaves(r)
  }

  predicate DistinctTree(t: Tree) {
    match t
    case Leaf(_) => true
    case Node(_, l, r) => DistinctTree(l) && DistinctTree(r) && TreeLeaves(l) !! TreeLeaves(r)
  }

  lemma {:induction false} PlanLeaves(t: Tree, desc: seq<Curve>, pos: nat, box: Rect, o: Options)
    requires Described(t, desc) && Labelled(t) && DistinctTree(t) && pos < |CurveOf(t, desc)|
    ensures var p := PlanOf(t, desc, pos, box, o);
            Leaves(p) == TreeLeaves(t) && UnitsLabelled(p) && DistinctLeaves(p)
    decreases t
  {
    hide CellOf, Fit;
    match t
    case Leaf(u) =>
    case Node(cut, l, r) =>
      var c := CellOf(cut, box, LeftEntry(t, desc, pos), RightEntry(t, desc, pos), o);
      var e := CurveOf(t, desc)[pos];
      PlanLeaves(l, desc, e.leftPos, c.left, o);
      PlanLeaves(r, desc, e.rightPos, c.right, o);
  }

  lemma {:induction false} DeadPerCut(t: Tree, desc: seq<Curve>, pos: nat, box: Rect, o: Options)
    requires Described(t, desc) && pos < |CurveOf(t, desc)|
    ensures DeadCount(PlanOf(t, desc, pos, box, o)) <= LeafCount(t) - 1
    decreases t
  {
    match t
    case Leaf(u) =>
    case Node(cut, l, r) =>
      var c := CellOf(cut, box, LeftEntry(t, desc, pos), RightEntry(t, desc, pos), o);
      var e := CurveOf(t, desc)[pos];
      DeadPerCut(l, desc, e.leftPos, c.left, o);
      DeadPerCut(r, desc, e.rightPos, c.right, o);
  }

  lemma {:induction false} LeavesInText(t: Tree)
    requires Labelled(t)
    ensures forall u :: u in TreeLeaves(t) <==> u >= 0 && u in Postorder(t)
  {
    match t
    case Leaf(_) =>
    case Node(c, l, r) => LeavesInText(l); LeavesInText(r);
  }

  ghost predicate NoUnitTwice(e: Expr) {
    forall i, j :: 0 <= i < j < |e| && e[i] >= 0 ==> e[i] != e[j]
  }

  lemma NoUnitTwiceParts(a: Expr, b: Expr)
    requires NoUnitTwice(a + b)
    ensures NoUnitTwice(a) && NoUnitTwice(b) && forall u :: u >= 0 && u in a ==> u !in b
  {
    var e := a + b;
    assert forall i :: 0 <= i < |a| ==> e[i] == a[i];
    forall i, j | 0 <= i < j < |a| && a[i] >= 0 ensures a[i] != a[j] { assert e[i] != e[j]; }
    forall i, j | 0 <= i < j < |b| && b[i] >= 0 ensures b[i] != b[j] { assert e[|a| + i] != e[|a| + j]; }
    forall i, j | 0 <= i < |a| && 0 <= j < |b| && a[i] >= 0 ensures a[i] != b[j] { assert e[i] != e[|a| + j]; }
  }

  lemma {:induction false} DistinctInText(t: Tree)
    requires Labelled(t) && NoUnitTwice(Postorder(t))
    ensures DistinctTree(t)
  {
    match t
    case Leaf(_) =>
    case Node(c, l, r) =>
      NoUnitTwiceParts(Postorder(l) + Postorder(r), [c]);
      NoUnitTwiceParts(Postorder(l), Postorder(r));
      DistinctInText(l); DistinctInText(r);
      LeavesInText(l); LeavesInText(r);
      forall u | u in TreeLeaves(l) ensures u !in TreeLeaves(r) { assert u in Postorder(l); }
  }

  function UnitSet(n: nat): (s: set<int>)
    ensures |s| == n && forall u :: u in s <==> 0 <= u < n
  {
    if n == 0 then {} else UnitSet(n - 1) + {n - 1}
  }

  lemma ValidTreeLeaves(t: Tree, n: nat)
    requires ValidTree(t, n)
    ensures DistinctTree(t) && TreeLeaves(t) == UnitSet(n)
  {
    var e := Postorder(t);
    assert NoUnitTwice(e);
    DistinctInText(t); LeavesInText(t);
    forall u | u in TreeLeaves(t) ensures 0 <= u < n {
      var i :| 0 <= i < |e| && e[i] == u;
    }
  }

  // ----- the recursive pass

  /** All curves strictly below `node` are untouched. */
  ghost predicate Below(node: TreeNode, desc: seq<Curve>)
    requires node.Wired()
    reads node.repr - {node}
  {
    node.tree.Node? ==> node.left.Pristine(desc) && node.right.Pristine(desc)
  }

  /** The curve entry of `node` at `pos`, apart from its size, and all curves below are untouched. */
  ghost predicate Ready(node: TreeNode, desc: seq<Curve>, pos: nat)
    requires node.Wired()
    reads node, node.repr
  {
    && Described(node.tree, desc) && pos < |CurveOf(node.tree, desc)| && |node.curve| == |CurveOf(node.tree, desc)|
    && node.curve[pos].leftPos == CurveOf(node.tree, desc)[pos].leftPos
    && node.curve[pos].rightPos == CurveOf(node.tree, desc)[pos].rightPos
    && node.curve[pos].median == CurveOf(node.tree, desc)[pos].median
    && node.curve[pos].x >= CurveOf(node.tree, desc)[pos].x
    && node.curve[pos].y >= CurveOf(node.tree, desc)[pos].y
    && Below(node, desc)
  }

  ghost function BoxAt(node: TreeNode, pos: nat, leftx: real, bottomy: real): Rect
    reads node
    requires pos < |node.curve|
  {
    Rect(leftx, bottomy, node.curve[pos].x, node.curve[pos].y)
  }

  /** The array holds the given pieces. */
  ghost predicate Holds(units: seq<Rect>, spots: seq<Spot>) {
    forall i :: 0 <= i < |spots| ==> spots[i].index < |units| && units[spots[i].index] == spots[i].rect
  }

  /** Only the places of the leaves and of the dead blocks lo..hi-1 differ. */
  ghost predicate OnlyTouched(before: seq<Rect>, after: seq<Rect>, leaves: set<int>, lo: int, hi: int) {
    |before| == |after| &&
    forall i :: 0 <= i < |before| && i !in leaves && !(lo <= i < hi) ==> before[i] == after[i]
  }

  ghost predicate Enlarged(before: Curve, after: Curve, k: nat, w: real, h: real) {
    k < |before| && after == before[k := before[k].(x := w, y := h)]
  }

  /** The chosen entries of the children of a cut that is ready. */
  lemma CutChildren(node: TreeNode, desc: seq<Curve>, pos: nat)
    requires node.Wired() && node.tree.Node? && Ready(node, desc, pos)
    ensures node.left != null && node.right != null
    ensures node.left != node.right && node != node.left && node != node.right
    ensures node.curve[pos].leftPos < |node.left.curve| && node.curve[pos].rightPos < |node.right.curve|
    ensures node.left.curve[node.curve[pos].leftPos] == LeftEntry(node.tree, desc, pos)
    ensures node.right.curve[node.curve[pos].rightPos] == RightEntry(node.tree, desc, pos)
  {
  }

  /** The children of a vertical cut absorb what was compacted away from the bounding rectangle. */
  method AbsorbVertical(node: TreeNode, pos: nat, ghost desc: seq<Curve>)
      returns (x1: real, y1: real, x2: real, y2: real)
    requires node.Wired() && node.tree.Node? && node.tree.cut == CUT_VERTICAL && Ready(node, desc, pos)
    modifies node.left`curve, node.right`curve
    ensures Sizes(x1, y1, x2, y2) == Fit(node.tree.cut, node.curve[pos].x, node.curve[pos].y,
        LeftEntry(node.tree, desc, pos), RightEntry(node.tree, desc, pos))
    ensures Enlarged(old(node.left.curve), node.left.curve, node.curve[pos].leftPos, x1, y1)
    ensures Enlarged(old(node.right.curve), node.right.curve, node.curve[pos].rightPos, x2, y2)
  {
    hide TreeNode.Wired, TreeNode.Pristine, Below, CurveOf, Described, LeftEntry, RightEntry;
    CutChildren(node, desc, pos);
    var left, right := node.left, node.right;
    var self := node.curve[pos];
    var lp, rp := self.leftPos, self.rightPos;
    x1, x2, y1, y2 := left.curve[lp].x, right.curve[rp].x, left.curve[lp].y, right.curve[rp].y;
    if self.y > Max(y1, y2) {
      var g := self.y - Max(y1, y2);
      left.curve := left.curve[lp := left.curve[lp].(y := left.curve[lp].y + g)];
      right.curve := right.curve[rp := right.curve[rp].(y := right.curve[rp].y + g)];
      y1 := left.curve[lp].y;
      y2 := right.curve[rp].y;
    }
    if self.x > x1 + x2 {
      right.curve := right.curve[rp := right.curve[rp].(x := right.curve[rp].x + (self.x - (x1 + x2)))];
      x2 := right.curve[rp].x;
    }
  }

  /** Sizes the children of a vertical cut: enlarges their entries in place and writes the dead block. */
  method SizeVertical(node: TreeNode, pos: nat, leftx: real, bottomy: real, o: Options, units: array<Rect>, idx: nat,
                      ghost desc: seq<Curve>) returns (kept: bool)
    requires node.Wired() && node.tree.Node? && node.tree.cut == CUT_VERTICAL && Ready(node, desc, pos)
        && idx < units.Length
    modifies node.left`curve, node.right`curve, units
    ensures var c := CellOf(CUT_VERTICAL, BoxAt(node, pos, leftx, bottomy), LeftEntry(node.tree, desc, pos),
        RightEntry(node.tree, desc, pos), o);
            && Enlarged(old(node.left.curve), node.left.curve, node.curve[pos].leftPos, c.left.width, c.left.height)
            && Enlarged(old(node.right.curve), node.right.curve, node.curve[pos].rightPos, c.right.width,
                c.right.height)
            && (kept <==> c.dead.Some?) && (kept ==> units[idx] == c.dead.value)
            && c.right.leftx == leftx + node.curve[pos].median && c.right.bottomy == bottomy
    ensures forall i :: 0 <= i < units.Length && i != idx ==> units[i] == old(units[i])
  {
    hide TreeNode.Wired, TreeNode.Pristine, Below, CurveOf, Described, LeftEntry, RightEntry, CellOf,
        Fit, Small;
    CutChildren(node, desc, pos);
    var left, right := node.left, node.right;
    var lp, rp := node.curve[pos].leftPos, node.curve[pos].rightPos;
    EntrySums(node.tree, desc, pos);
    CellParts(node.tree.cut, BoxAt(node, pos, leftx, bottomy), LeftEntry(node.tree, desc, pos),
        RightEntry(node.tree, desc, pos), o);
    var x1, y1, x2, y2 := AbsorbVertical(node, pos, desc);
    units[idx] := Rect(leftx + (if y2 >= y1 then 0.0 else x1), bottomy + Min(y1, y2),
                       if y2 >= y1 then x1 else x2, Abs(y2 - y1));
    if Small(Abs(y2 - y1), Min(y1, y2), o) {
      if y2 >= y1 {
        left.curve := left.curve[lp := left.curve[lp].(y := y2)];
      } else {
        right.curve := right.curve[rp := right.curve[rp].(y := y1)];
      }
      return false;
    }
    return true;
  }

  /** The children of a horizontal cut absorb what was compacted away from the bounding rectangle. */
  method AbsorbHorizontal(node: TreeNode, pos: nat, ghost desc: seq<Curve>)
      returns (x1: real, y1: real, x2: real, y2: real)
    requires node.Wired() && node.tree.Node? && node.tree.cut != CUT_VERTICAL && Ready(node, desc, pos)
    modifies node.left`curve, node.right`curve
    ensures Sizes(x1, y1, x2, y2) == Fit(node.tree.cut, node.curve[pos].x, node.curve[pos].y,
        LeftEntry(node.tree, desc, pos), RightEntry(node.tree, desc, pos))
    ensures Enlarged(old(node.left.curve), node.left.curve, node.curve[pos].leftPos, x1, y1)
    ensures Enlarged(old(node.right.curve), node.right.curve, node.curve[pos].rightPos, x2, y2)
  {
    hide TreeNode.Wired, TreeNode.Pristine, Below, CurveOf, Described, LeftEntry, RightEntry;
    CutChildren(node, desc, pos);
    var left, right := node.left, node.right;
    var self := node.curve[pos];
    var lp, rp := self.leftPos, self.rightPos;
    x1, x2, y1, y2 := left.curve[lp].x, right.curve[rp].x, left.curve[lp].y, right.curve[rp].y;
    if self.x > Max(x1, x2) {
      var g := self.x - Max(x1, x2);
      left.curve := left.curve[lp := left.curve[lp].(x := left.curve[lp].x + g)];
      right.curve := right.curve[rp := right.curve[rp].(x := right.curve[rp].x + g)];
      x1 := left.curve[lp].x;
      x2 := right.curve[rp].x;
    }
    if self.y > y1 + y2 {
      right.curve := right.curve[rp := right.curve[rp].(y := right.curve[rp].y + (self.y - (y1 + y2)))];
      y2 := right.curve[rp].y;
    }
  }

  /** The same for a horizontal cut. */
  method SizeHorizontal(node: TreeNode, pos: nat, leftx: real, bottomy: real, o: Options, units: array<Rect>, idx: nat,
                        ghost desc: seq<Curve>) returns (kept: bool)
    requires node.Wired() && node.tree.Node? && node.tree.cut != CUT_VERTICAL && Ready(node, desc, pos)
        && idx < units.Length
    modifies node.left`curve, node.right`curve, units
    ensures var c := CellOf(node.tree.cut, BoxAt(node, pos, leftx, bottomy), LeftEntry(node.tree, desc, pos),
        RightEntry(node.tree, desc, pos), o);
            && Enlarged(old(node.left.curve), node.left.curve, node.curve[pos].leftPos, c.left.width, c.left.height)
            && Enlarged(old(node.right.curve), node.right.curve, node.curve[pos].rightPos, c.right.width,
                c.right.height)
            && (kept <==> c.dead.Some?) && (kept ==> units[idx] == c.dead.value)
            && c.right.leftx == leftx && c.right.bottomy == bottomy + node.curve[pos].median
    ensures forall i :: 0 <= i < units.Length && i != idx ==> units[i] == old(units[i])
  {
    hide TreeNode.Wired, TreeNode.Pristine, Below, CurveOf, Described, LeftEntry, RightEntry, CellOf,
        Fit, Small;
    CutChildren(node, desc, pos);
    var left, right := node.left, node.right;
    var lp, rp := node.curve[pos].leftPos, node.curve[pos].rightPos;
    EntrySums(node.tree, desc, pos);
    CellParts(node.tree.cut, BoxAt(node, pos, leftx, bottomy), LeftEntry(node.tree, desc, pos),
        RightEntry(node.tree, desc, pos), o);
    var x1, y1, x2, y2 := AbsorbHorizontal(node, pos, desc);
    units[idx] := Rect(leftx + Min(x1, x2), bottomy + (if x2 >= x1 then 0.0 else y1),
                       Abs(x2 - x1), if x2 >= x1 then y1 else y2);
    if Small(Abs(x2 - x1), Min(x1, x2), o) {
      if x2 >= x1 {
        left.curve := left.curve[lp := left.curve[lp].(x := x2)];
      } else {
        right.curve := right.curve[rp := right.curve[rp].(x := x1)];
      }
      return false;
    }
    return true;
  }

  lemma BelowParts(node: TreeNode, desc: seq<Curve>)
    requires node.Wired() && node.tree.Node? && Below(node, desc)
    ensures node.left.curve == CurveOf(node.left.tree, desc) && node.right.curve == CurveOf(node.right.tree, desc)
    ensures Below(node.left, desc) && Below(node.right, desc)
  {
  }

  lemma EnlargedReady(node: TreeNode, desc: seq<Curve>, pos: nat, before: Curve, w: real, h: real)
    requires node.Wired() && Described(node.tree, desc) && before == CurveOf(node.tree, desc)
    requires Enlarged(before, node.curve, pos, w, h) && w >= before[pos].x && h >= before[pos].y
    requires Below(node, desc)
    ensures Ready(node, desc, pos) && node.curve[pos].x == w && node.curve[pos].y == h
  {
  }

  lemma WiredParts(node: TreeNode)
    requires node.Wired() && node.tree.Node?
    ensures node.left != null && node.right != null && node.left.Wired() && node.right.Wired()
    ensures node.left.tree == node.tree.left && node.right.tree == node.tree.right && node.tag == node.tree.cut
    ensures node !in node.left.repr && node !in node.right.repr && node.left.repr !! node.right.repr
    ensures node.left in node.left.repr && node.right in node.right.repr
    ensures node.repr == {node} + node.left.repr + node.right.repr
  {
  }

  /** After sizing a cut both children are ready and carry the sizes of the cell. */
  method SizeCut(node: TreeNode, pos: nat, leftx: real, bottomy: real, o: Options, units: array<Rect>, idx: nat,
                 ghost desc: seq<Curve>) returns (kept: bool)
    requires node.Wired() && node.tree.Node? && Ready(node, desc, pos) && idx < units.Length
    modifies node.left`curve, node.right`curve, units
    ensures var c := CellOf(node.tree.cut, BoxAt(node, pos, leftx, bottomy), LeftEntry(node.tree, desc, pos),
        RightEntry(node.tree, desc, pos), o);
            var lp, rp := node.curve[pos].leftPos, node.curve[pos].rightPos;
            && Ready(node.left, desc, lp) && BoxAt(node.left, lp, leftx, bottomy) == c.left
            && Ready(node.right, desc, rp)
            && (kept <==> c.dead.Some?) && (kept ==> units[idx] == c.dead.value)
            && c.right == (if node.tree.cut == CUT_VERTICAL
                then BoxAt(node.right, rp, leftx + node.curve[pos].median, bottomy)
                           else BoxAt(node.right, rp, leftx, bottomy + node.curve[pos].median))
    ensures OnlyTouched(old(units[..]), units[..], {}, idx, idx + 1)
  {
    hide TreeNode.Wired, TreeNode.Pristine, CellOf, CurveOf, Below;
    WiredParts(node);
    BelowParts(node, desc);
    ghost var a, b := LeftEntry(node.tree, desc, pos), RightEntry(node.tree, desc, pos);
    ghost var bl, br := node.left.curve, node.right.curve;
    EntrySums(node.tree, desc, pos);
    CellComposed(node.tree.cut, BoxAt(node, pos, leftx, bottomy), a, b, o);
    if node.tag == CUT_VERTICAL {
      kept := SizeVertical(node, pos, leftx, bottomy, o, units, idx, desc);
    } else {
      kept := SizeHorizontal(node, pos, leftx, bottomy, o, units, idx, desc);
    }
    ghost var c := CellOf(node.tree.cut, BoxAt(node, pos, leftx, bottomy), a, b, o);
    EnlargedReady(node.left, desc, node.curve[pos].leftPos, bl, c.left.width, c.left.height);
    EnlargedReady(node.right, desc, node.curve[pos].rightPos, br, c.right.width, c.right.height);
  }

  /** `after` holds the pieces of plan `p`, dead blocks from `first` on; apart from the places of its
      leaves and of the `k` reserved dead blocks it agrees with `before`. */
  ghost predicate Laid(before: seq<Rect>, after: seq<Rect>, p: Plan, first: nat, k: nat) {
    UnitsLabelled(p) && Holds(after, Spots(p, first)) && OnlyTouched(before, after, Leaves(p), first, first + k)
  }

  /** Fixes the rectangles of a subtree and returns the new number of dead blocks. */
  method RecursiveSizing(node: TreeNode, pos: nat, leftx: real, bottomy: real, deadCount: nat, o: Options, flp: Flp,
                         ghost desc: seq<Curve>) returns (count: nat)
    requires node.Wired() && Ready(node, desc, pos) && Labelled(node.tree) && DistinctTree(node.tree)
    requires AllBelow(TreeLeaves(node.tree), (flp.nUnits + 1) / 2)
    requires (flp.nUnits + 1) / 2 + deadCount + LeafCount(node.tree) - 1 <= flp.units.Length
    modifies node.repr, flp.units
    ensures var p := PlanOf(node.tree, desc, pos, old(BoxAt(node, pos, leftx, bottomy)), o);
            && count == deadCount + DeadCount(p)
            && Laid(old(flp.units[..]), flp.units[..], p, (flp.nUnits + 1) / 2 + deadCount, LeafCount(node.tree) - 1)
    decreases node.tree, 2
  {
    hide PlanOf, Laid, Spots, DeadCount, LeafCount, CurveOf, Described, Below, AllBelow;
    TagKind(node, (flp.nUnits + 1) / 2);
    if node.tag >= 0 {
      ghost var before := flp.units[..];
      flp.units[node.tag] := Rect(leftx, bottomy, node.curve[pos].x, node.curve[pos].y);
      LeafLaid(before, flp.units[..], node.tree, desc, pos, BoxAt(node, pos, leftx, bottomy), o, (flp.nUnits + 1) / 2
          + deadCount);
      return deadCount;
    }
    count := SizeGroup(node, pos, leftx, bottomy, deadCount, o, flp, desc);
  }

  /** The case of a cut. */
  method SizeGroup(node: TreeNode, pos: nat, leftx: real, bottomy: real, deadCount: nat, o: Options, flp: Flp,
                   ghost desc: seq<Curve>) returns (count: nat)
    requires node.Wired() && node.tree.Node? && Ready(node, desc, pos) && Labelled(node.tree) && DistinctTree(node.tree)
    requires AllBelow(TreeLeaves(node.tree), (flp.nUnits + 1) / 2)
    requires (flp.nUnits + 1) / 2 + deadCount + LeafCount(node.tree) - 1 <= flp.units.Length
    modifies node.repr, flp.units
    ensures var p := PlanOf(node.tree, desc, pos, old(BoxAt(node, pos, leftx, bottomy)), o);
            && count == deadCount + DeadCount(p)
            && Laid(old(flp.units[..]), flp.units[..], p, (flp.nUnits + 1) / 2 + deadCount, LeafCount(node.tree) - 1)
    decreases node.tree, 1
  {
    hide TreeNode.Wired, TreeNode.Pristine, CellOf, PlanOf, Spots, DeadCount, UnitsLabelled, DistinctLeaves, Leaves,
        Laid, LeftEntry, RightEntry, CurveOf, Described, Below, AllBelow, OnlyTouched,
        LeafCount, TreeLeaves, DistinctTree, Labelled, Holds, Between, Ready;
    ReadySize(node, desc, pos);
    WiredParts(node);
    ghost var before := flp.units[..];
    var self := node.curve[pos];
    ghost var c, p := PlanOfGroup(node.tree, desc, pos, BoxAt(node, pos, leftx, bottomy), o);
    ghost var sized;
    count, sized := SizeLeft(node, pos, leftx, bottomy, deadCount, o, flp, desc, c, p);
    ghost var mid := flp.units[..];
    count := SizeRight(node, self, leftx, bottomy, count, o, flp, desc, c.right);
    GroupLaid(before, sized, mid, flp.units[..], p, (flp.nUnits + 1) / 2 + deadCount, LeafCount(node.tree.left) - 1,
        LeafCount(node.tree.right) - 1);
  }

  /** Sizes the children of a cut, keeps its dead block or not, and fixes the left child. */
  method SizeLeft(node: TreeNode, pos: nat, leftx: real, bottomy: real, deadCount: nat, o: Options, flp: Flp,
                  ghost desc: seq<Curve>, ghost c: Cell, ghost p: Plan) returns (count: nat, ghost sized: seq<Rect>)
    requires node.Wired() && node.tree.Node? && Ready(node, desc, pos) && p.Group? && p.dead == c.dead
    requires c == CellOf(node.tree.cut, BoxAt(node, pos, leftx, bottomy), LeftEntry(node.tree, desc, pos),
                         RightEntry(node.tree, desc, pos), o)
    requires p.left == PlanOf(node.tree.left, desc, CurveOf(node.tree, desc)[pos].leftPos, c.left, o)
    requires Labelled(node.tree.left) && DistinctTree(node.tree.left)
    requires AllBelow(TreeLeaves(node.tree.left), (flp.nUnits + 1) / 2)
    requires (flp.nUnits + 1) / 2 + deadCount + LeafCount(node.tree.left) <= flp.units.Length
    modifies node.right`curve, node.left.repr, flp.units
    ensures OnlyTouched(old(flp.units[..]), sized, {}, (flp.nUnits + 1) / 2 + deadCount,
        (flp.nUnits + 1) / 2 + deadCount + 1)
    ensures var next := deadCount + if c.dead.Some? then 1 else 0;
            && count == next + DeadCount(p.left)
            && Laid(sized, flp.units[..], p.left, (flp.nUnits + 1) / 2 + next, LeafCount(node.tree.left) - 1)
    ensures c.dead.Some? ==> |sized| == flp.units.Length && sized[(flp.nUnits + 1) / 2 + deadCount] == c.dead.value
    ensures Ready(node.right, desc, node.curve[pos].rightPos)
    ensures c.right == if node.tree.cut == CUT_VERTICAL
                       then BoxAt(node.right, node.curve[pos].rightPos, leftx + node.curve[pos].median, bottomy)
                       else BoxAt(node.right, node.curve[pos].rightPos, leftx, bottomy + node.curve[pos].median)
    decreases node.tree, 0
  {
    hide TreeNode.Wired, TreeNode.Pristine, CellOf, PlanOf, Spots, DeadCount, Laid, LeftEntry, RightEntry, CurveOf,
        Described, Below, AllBelow, LeafCount, TreeLeaves, DistinctTree, Labelled, Ready;
    WiredParts(node);
    ReadySize(node, desc, pos);
    var self := node.curve[pos];
    var idx := (flp.nUnits + 1) / 2 + deadCount;
    var kept := SizeCut(node, pos, leftx, bottomy, o, flp.units, idx, desc);
    sized := flp.units[..];
    ReadySize(node.left, desc, self.leftPos);
    ReadySize(node.right, desc, self.rightPos);
    var next := if kept then deadCount + 1 else deadCount;
    count := RecursiveSizing(node.left, self.leftPos, leftx, bottomy, next, o, flp, desc);
  }

  /** The right child of a cut, beside the left one or on top of it. */
  method SizeRight(node: TreeNode, self: Entry, leftx: real, bottomy: real, deadCount: nat, o: Options, flp: Flp,
                   ghost desc: seq<Curve>, ghost box: Rect) returns (count: nat)
    requires node.Wired() && node.tree.Node? && Ready(node.right, desc, self.rightPos)
    requires box == if node.tree.cut == CUT_VERTICAL
                    then BoxAt(node.right, self.rightPos, leftx + self.median, bottomy)
                    else BoxAt(node.right, self.rightPos, leftx, bottomy + self.median)
    requires Labelled(node.tree.right) && DistinctTree(node.tree.right)
    requires AllBelow(TreeLeaves(node.tree.right), (flp.nUnits + 1) / 2)
    requires (flp.nUnits + 1) / 2 + deadCount + LeafCount(node.tree.right) - 1 <= flp.units.Length
    modifies node.right.repr, flp.units
    ensures var p := PlanOf(node.tree.right, desc, self.rightPos, box, o);
            && count == deadCount + DeadCount(p)
            && Laid(old(flp.units[..]), flp.units[..], p, (flp.nUnits + 1) / 2 + deadCount,
                LeafCount(node.tree.right) - 1)
    decreases node.tree, 0
  {
    hide TreeNode.Wired, TreeNode.Pristine, PlanOf, Spots, DeadCount, Laid, CurveOf, Described, Below, AllBelow,
        LeafCount, TreeLeaves, DistinctTree, Labelled, Ready;
    WiredParts(node);
    ReadySize(node.right, desc, self.rightPos);
    var rx, ry := leftx, bottomy;
    if node.tag == CUT_VERTICAL {
      rx := leftx + self.median;
    } else {
      ry := bottomy + self.median;
    }
    count := RecursiveSizing(node.right, self.rightPos, rx, ry, deadCount, o, flp, desc);
  }

  lemma ReadySize(node: TreeNode, desc: seq<Curve>, pos: nat)
    requires node.Wired() && Ready(node, desc, pos)
    ensures Described(node.tree, desc) && pos < |CurveOf(node.tree, desc)| && pos < |node.curve|
    ensures node.curve[pos].leftPos == CurveOf(node.tree, desc)[pos].leftPos
    ensures node.curve[pos].rightPos == CurveOf(node.tree, desc)[pos].rightPos
  {
  }

  lemma TagKind(node: TreeNode, n: nat)
    requires node.Wired() && Labelled(node.tree) && AllBelow(TreeLeaves(node.tree), n)
    ensures node.tag >= 0 <==> node.tree.Leaf?
    ensures node.tree.Leaf? ==> node.tag == node.tree.unit < n && LeafCount(node.tree) == 1
  {
  }

  lemma LeafLaid(before: seq<Rect>, after: seq<Rect>, t: Tree, desc: seq<Curve>, pos: nat, box: Rect, o: Options,
      first: nat)
    requires t.Leaf? && Described(t, desc) && pos < |CurveOf(t, desc)| && t.unit < |before|
        && after == before[t.unit := box]
    ensures var p := PlanOf(t, desc, pos, box, o); Laid(before, after, p, first, LeafCount(t) - 1) && DeadCount(p) == 0
  {
  }

  lemma PlanOfGroup(t: Tree, desc: seq<Curve>, pos: nat, box: Rect, o: Options) returns (c: Cell, p: Plan)
    requires t.Node? && Described(t, desc) && Labelled(t) && DistinctTree(t) && pos < |CurveOf(t, desc)|
    ensures c == CellOf(t.cut, box, LeftEntry(t, desc, pos), RightEntry(t, desc, pos), o)
    ensures p == PlanOf(t, desc, pos, box, o) && p.Group? && p.dead == c.dead
    ensures Labelled(t.left) && Labelled(t.right) && DistinctTree(t.left) && DistinctTree(t.right)
    ensures LeafCount(t) == LeafCount(t.left) + LeafCount(t.right)
    ensures p.left == PlanOf(t.left, desc, CurveOf(t, desc)[pos].leftPos, c.left, o)
    ensures p.right == PlanOf(t.right, desc, CurveOf(t, desc)[pos].rightPos, c.right, o)
    ensures UnitsLabelled(p) && DistinctLeaves(p) && UnitsLabelled(p.left) && UnitsLabelled(p.right)
    ensures DistinctLeaves(p.left) && DistinctLeaves(p.right)
    ensures Leaves(p) == TreeLeaves(t) && Leaves(p.left) == TreeLeaves(t.left) && Leaves(p.right) == TreeLeaves(t.right)
    ensures DeadCount(p) == (if c.dead.Some? then 1 else 0) + DeadCount(p.left) + DeadCount(p.right)
    ensures DeadCount(p.left) <= LeafCount(t.left) - 1 && DeadCount(p.right) <= LeafCount(t.right) - 1
    ensures forall n :: AllBelow(TreeLeaves(t), n) ==>
              AllBelow(TreeLeaves(t.left), n) && AllBelow(TreeLeaves(t.right), n)
    ensures forall n, m :: AllBelow(TreeLeaves(t), n) && n <= m ==> AllBelow(Leaves(p), m)
  {
    c := CellOf(t.cut, box, LeftEntry(t, desc, pos), RightEntry(t, desc, pos), o);
    p := PlanOf(t, desc, pos, box, o);
    var e := CurveOf(t, desc)[pos];
    PlanLeaves(t, desc, pos, box, o);
    PlanLeaves(t.left, desc, e.leftPos, c.left, o); PlanLeaves(t.right, desc, e.rightPos, c.right, o);
    DeadPerCut(t.left, desc, e.leftPos, c.left, o); DeadPerCut(t.right, desc, e.rightPos, c.right, o);
  }

  lemma LeavesOfGroup(p: Plan, first: nat)
    requires p.Group? && UnitsLabelled(p) && DistinctLeaves(p) && AllBelow(Leaves(p), first)
    ensures UnitsLabelled(p.left) && UnitsLabelled(p.right) && DistinctLeaves(p.left) && DistinctLeaves(p.right)
    ensures Leaves(p) == Leaves(p.left) + Leaves(p.right) && Leaves(p.left) !! Leaves(p.right)
    ensures AllBelow(Leaves(p.left), first) && AllBelow(Leaves(p.right), first)
  {
    assert AllBelow(Leaves(p.left) + Leaves(p.right), first);
  }

  lemma SpotsOfGroup(p: Plan, first: nat)
    requires p.Group? && UnitsLabelled(p)
    ensures UnitsLabelled(p.left) && UnitsLabelled(p.right)
    ensures var b := first + (if p.dead.Some? then 1 else 0);
            Spots(p, first) == Ordered(if p.dead.Some? then [Spot(first, p.dead.value)] else [],
                                       Spots(p.left, b), Spots(p.right, b + DeadCount(p.left)), p.onLeft)
  {
    hide Ordered, Leaves, DeadCount;
  }

  lemma PlacesOfLeft(p: Plan, first: nat, b: nat)
    requires p.Group? && UnitsLabelled(p) && DistinctLeaves(p) && AllBelow(Leaves(p), first) && first <= b
    ensures UnitsLabelled(p.left) && Between(Spots(p.left, b), Leaves(p.left), b, b + DeadCount(p.left))
  {
    LeavesOfGroup(p, first);
    SpotsPlacedOnce(p.left, b);
  }

  /** What the two recursive calls leave in the array makes up the pieces of the whole group. */
  lemma GroupHeld(sized: seq<Rect>, mid: seq<Rect>, after: seq<Rect>, p: Plan, first: nat, cl: nat, cr: nat)
    requires p.Group? && UnitsLabelled(p) && DistinctLeaves(p) && AllBelow(Leaves(p), first)
    requires first < |sized| && (p.dead.Some? ==> sized[first] == p.dead.value)
    requires var b := first + (if p.dead.Some? then 1 else 0);
             && Holds(mid, Spots(p.left, b)) && OnlyTouched(sized, mid, Leaves(p.left), b, b + cl)
             && Holds(after, Spots(p.right, b + DeadCount(p.left)))
             && OnlyTouched(mid, after, Leaves(p.right), b + DeadCount(p.left), b + DeadCount(p.left) + cr)
    ensures Holds(after, Spots(p, first))
  {
    hide Holds, Between, OnlyTouched, AllBelow, Ordered, Spots, Leaves, DeadCount, UnitsLabelled, DistinctLeaves;
    var b := first + (if p.dead.Some? then 1 else 0);
    var c := b + DeadCount(p.left);
    var mark := if p.dead.Some? then [Spot(first, p.dead.value)] else [];
    SpotsOfGroup(p, first);
    LeavesOfGroup(p, first);
    PlacesOfLeft(p, first, b);
    MarkHeld(sized, mark, first, b);
    PiecesJoined(sized, mid, after, mark, Spots(p.left, b), Spots(p.right, c), p.onLeft, Leaves(p.left),
        Leaves(p.right), first, b, c, cl, cr);
  }

  lemma MarkHeld(sized: seq<Rect>, mark: seq<Spot>, first: nat, b: nat)
    requires first < |sized| && b == first + |mark|
    requires mark == [] || mark == [Spot(first, sized[first])]
    ensures Holds(sized, mark) && Between(mark, {}, first, b)
  {
  }

  lemma GroupLaid(before: seq<Rect>, sized: seq<Rect>, mid: seq<Rect>, after: seq<Rect>, p: Plan, first: nat, cl: nat,
      cr: nat)
    requires p.Group? && UnitsLabelled(p) && DistinctLeaves(p) && AllBelow(Leaves(p), first) && first < |before|
    requires DeadCount(p.left) <= cl && OnlyTouched(before, sized, {}, first, first + 1)
        && (p.dead.Some? ==> sized[first] == p.dead.value)
    requires var b := first + (if p.dead.Some? then 1 else 0);
             Laid(sized, mid, p.left, b, cl) && Laid(mid, after, p.right, b + DeadCount(p.left), cr)
    ensures Laid(before, after, p, first, cl + cr + 1)
  {
    hide Spots, DeadCount, UnitsLabelled, DistinctLeaves, AllBelow, Holds;
    var b := first + (if p.dead.Some? then 1 else 0);
    GroupHeld(sized, mid, after, p, first, cl, cr);
    TouchesJoined(before, sized, mid, after, Leaves(p.left), Leaves(p.right), first, b, b + DeadCount(p.left), cl, cr);
  }

  lemma TouchesJoined(before: seq<Rect>, sized: seq<Rect>, mid: seq<Rect>, after: seq<Rect>, la: set<int>, lb: set<int>,
                      first: int, b: int, c: int, cl: nat, cr: nat)
    requires OnlyTouched(before, sized, {}, first, first + 1) && OnlyTouched(sized, mid, la, b, b + cl)
    requires OnlyTouched(mid, after, lb, c, c + cr) && first <= b <= first + 1 && b <= c <= b + cl
    ensures OnlyTouched(before, after, la + lb, first, first + cl + cr + 1)
  {
  }

  lemma PiecesJoined(sized: seq<Rect>, mid: seq<Rect>, after: seq<Rect>, mark: seq<Spot>, ls: seq<Spot>,
      rs: seq<Spot>, onLeft: bool,
                     la: set<int>, lb: set<int>, first: int, b: int, c: int, cl: nat, cr: nat)
    requires Holds(sized, mark) && Holds(mid, ls) && Holds(after, rs)
    requires Between(mark, {}, first, b) && Between(ls, la, b, c)
    requires OnlyTouched(sized, mid, la, b, b + cl) && OnlyTouched(mid, after, lb, c, c + cr)
    requires la !! lb && AllBelow(la, first) && AllBelow(lb, first) && first <= b <= c
    ensures Holds(after, Ordered(mark, ls, rs, onLeft))
  {
    PiecesKept(sized, mid, mark, {}, la, first, first, b, cl);
    PiecesKept(mid, after, mark, {}, lb, first, first, c, cr);
    PiecesKept(mid, after, ls, la, lb, first, b, c, cr);
    OrderedHeld(after, mark, ls, rs, onLeft);
  }

  lemma PiecesKept(mid: seq<Rect>, after: seq<Rect>, ls: seq<Spot>, la: set<int>, lb: set<int>, first: int, b: int,
      c: int, k: nat)
    requires Holds(mid, ls) && Between(ls, la, b, c) && OnlyTouched(mid, after, lb, c, c + k)
    requires la !! lb && AllBelow(la, first) && AllBelow(lb, first) && first <= b <= c
    ensures Holds(after, ls)
  {
  }

  lemma OrderedHeld(after: seq<Rect>, mark: seq<Spot>, ls: seq<Spot>, rs: seq<Spot>, onLeft: bool)
    requires Holds(after, mark) && Holds(after, ls) && Holds(after, rs)
    ensures Holds(after, Ordered(mark, ls, rs, onLeft))
  {
  }

  // ----- the whole floorplan

  lemma WholeArranged(units: seq<Rect>, n: nat, spots: seq<Spot>, leaves: set<int>, dead: nat)
    requires n + dead <= |units| && Holds(units, spots) && leaves == UnitSet(n)
    requires DistinctSpots(spots) && |spots| == n + dead && Between(spots, leaves, n, n + dead)
    ensures Arranged(units[..n + dead], spots)
  {
  }

  /** The array holds exactly the pieces of the plan of a whole tree. */
  lemma WholeLaidOut(before: seq<Rect>, units: seq<Rect>, t: Tree, desc: seq<Curve>, pos: nat, o: Options, n: nat)
      returns (p: Plan)
    requires Described(t, desc) && ValidTree(t, n) && pos < |CurveOf(t, desc)| && 2 * n - 1 <= |units|
    requires var e := CurveOf(t, desc)[pos]; Laid(before, units, PlanOf(t, desc, pos, Rect(0.0, 0.0, e.x, e.y), o), n,
        n - 1)
    ensures var e := CurveOf(t, desc)[pos]; p == PlanOf(t, desc, pos, Rect(0.0, 0.0, e.x, e.y), o)
    ensures DeadCount(p) <= n - 1 && LaidOut(t, desc, pos, o, n, units[..n + DeadCount(p)])
  {
    hide Spots, Leaves, DeadCount, UnitSet, CurveOf, Elements, Postorder, Skew, LeafCount, Arranged, Holds,
        DistinctSpots, Between;
    var e := CurveOf(t, desc)[pos];
    var box := Rect(0.0, 0.0, e.x, e.y);
    p := PlanOf(t, desc, pos, box, o);
    ValidTreeLeaves(t, n);
    PlanLeaves(t, desc, pos, box, o);
    DeadPerCut(t, desc, pos, box, o);
    assert AllBelow(UnitSet(n), n) by { UnitSetBelow(n); }
    SpotsPlacedOnce(p, n);
    SpotsCount(p, n);
    UnitSetBelow(n);
    WholeArranged(units, n, Spots(p, n), Leaves(p), DeadCount(p));
  }

  lemma UnitSetBelow(n: nat)
    ensures AllBelow(UnitSet(n), n) && |UnitSet(n)| == n
  {
  }

  /** tree_to_flp: picks the orientation of least area and lays the tree out from the origin. Afterwards
      the first nUnits rectangles, units and surviving dead blocks, tile the bounding box exactly; unit
      `u` has place `u`. Returns the number of compacted dead blocks. */
  method TreeToFlp(root: TreeNode, flp: Flp, o: Options, ghost desc: seq<Curve>, ghost n: nat) returns (compacted: nat)
    requires root.Wired() && root.Pristine(desc) && ValidTree(root.tree, n)
    requires flp.nUnits == 2 * n - 1 <= flp.units.Length
    modifies root.repr, flp, flp.units
    ensures flp.nUnits + compacted == 2 * n - 1 && n <= flp.nUnits
    ensures exists pos: nat :: IsMinArea(CurveOf(root.tree, desc), pos)
              && LaidOut(root.tree, desc, pos, o, n, flp.units[..flp.nUnits])
  {
    hide PlanOf, Laid, LaidOut, DeadCount, Spots, TreeNode.Wired, TreeNode.Pristine, Ready, CurveOf, Described,
        Labelled, DistinctTree,
         Elements, Postorder, Skew, AllBelow, UnitSet, IsMinArea;
    ValidTreeLeaves(root.tree, n);
    UnitSetBelow(n);
    RootReady(root, desc);
    var pos := MinAreaPos(root.curve);
    ghost var t, box, before := root.tree, BoxAt(root, pos, 0.0, 0.0), flp.units[..];
    var deadCount := RecursiveSizing(root, pos, 0.0, 0.0, 0, o, flp, desc);
    ghost var p := WholeLaidOut(before, flp.units[..], t, desc, pos, o, n);
    compacted := (flp.nUnits - 1) / 2 - deadCount;
    flp.nUnits := flp.nUnits - compacted;
    assert flp.units[..][..flp.nUnits] == flp.units[..flp.nUnits];
    assert LaidOut(t, desc, pos, o, n, flp.units[..flp.nUnits]);
  }

  lemma RootReady(root: TreeNode, desc: seq<Curve>)
    requires root.Wired() && root.Pristine(desc)
    ensures Described(root.tree, desc) && root.curve == CurveOf(root.tree, desc) && |root.curve| >= 1
    ensures forall pos: nat :: pos < |root.curve| ==> Ready(root, desc, pos)
  {
  }

  /** `units` is an arrangement of the pieces planned for orientation `pos` of the whole tree. */
  ghost predicate LaidOut(t: Tree, desc: seq<Curve>, pos: nat, o: Options, n: nat, units: seq<Rect>)
    requires Described(t, desc)
  {
    pos < |CurveOf(t, desc)| &&
    var p := PlanOf(t, desc, pos, Rect(0.0, 0.0, CurveOf(t, desc)[pos].x, CurveOf(t, desc)[pos].y), o);
    UnitsLabelled(p) && Leaves(p) == UnitSet(n) && |units| == n + DeadCount(p) && Arranged(units, Spots(p, n))
  }

  /** Exact tiling: a laid-out floorplan fills the bounding box of the chosen orientation, without
      overlap or gap, and its rectangle areas sum to the area of the box. */
  lemma LaidOutTiles(t: Tree, desc: seq<Curve>, pos: nat, o: Options, n: nat, units: seq<Rect>)
    requires Described(t, desc) && LaidOut(t, desc, pos, o, n, units)
    ensures Tiles(units, Rect(0.0, 0.0, CurveOf(t, desc)[pos].x, CurveOf(t, desc)[pos].y))
  {
    var box := Rect(0.0, 0.0, CurveOf(t, desc)[pos].x, CurveOf(t, desc)[pos].y);
    var p := PlanOf(t, desc, pos, box, o);
    PlanSound(t, desc, pos, box, o);
    SpotsTile(p, n);
    ArrangedTiles(units, Spots(p, n), box);
  }

  /** In a laid-out floorplan every unit has at least the size of its chosen orientation. */
  lemma LaidOutUnits(t: Tree, desc: seq<Curve>, pos: nat, o: Options, n: nat, units: seq<Rect>, c: Choice)
    requires Described(t, desc) && Labelled(t) && LaidOut(t, desc, pos, o, n, units)
    requires c == ChoiceAt(t, desc, pos)
    ensures Fitting(t, desc, c) && UnitsHaveRoom(t, desc, c, units)
  {
    var box := Rect(0.0, 0.0, CurveOf(t, desc)[pos].x, CurveOf(t, desc)[pos].y);
    var p := PlanOf(t, desc, pos, box, o);
    PlanAtLeast(t, desc, pos, box, o);
    RoomFromPlan(p, t, desc, c, units, n);
  }

  ghost predicate UnitsHaveRoom(t: Tree, desc: seq<Curve>, c: Choice, units: seq<Rect>)
    requires Described(t, desc) && Fitting(t, desc, c)
  {
    match t
    case Leaf(u) => u < |units| && units[u].width >= desc[u][c.pos].x && units[u].height >= desc[u][c.pos].y
    case Node(_, l, r) => UnitsHaveRoom(l, desc, c.left, units) && UnitsHaveRoom(r, desc, c.right, units)
  }

  lemma OrderedHeldParts(units: seq<Rect>, mark: seq<Spot>, ls: seq<Spot>, rs: seq<Spot>, onLeft: bool)
    requires Holds(units, Ordered(mark, ls, rs, onLeft))
    ensures Holds(units, ls) && Holds(units, rs)
  {
    var all := Ordered(mark, ls, rs, onLeft);
    forall i | 0 <= i < |ls| ensures ls[i].index < |units| && units[ls[i].index] == ls[i].rect {
      assert all[if onLeft then |mark| + i else i] == ls[i];
    }
    forall i | 0 <= i < |rs| ensures rs[i].index < |units| && units[rs[i].index] == rs[i].rect {
      assert all[|ls| + |mark| + i] == rs[i];
    }
  }

  lemma LeafHeld(p: Plan, units: seq<Rect>, first: nat)
    requires p.Unit? && UnitsLabelled(p) && Holds(units, Spots(p, first))
    ensures p.unit < |units| && units[p.unit] == p.rect
  {
    assert Spots(p, first)[0] == Spot(p.unit, p.rect);
  }

  lemma {:induction false} RoomFromPlan(p: Plan, t: Tree, desc: seq<Curve>, c: Choice, units: seq<Rect>, first: nat)
    requires Described(t, desc) && Fitting(t, desc, c) && AtLeast(p, t, desc, c)
    requires UnitsLabelled(p) && Holds(units, Spots(p, first))
    ensures UnitsHaveRoom(t, desc, c, units)
    decreases t
  {
    hide Spots, Holds, Ordered, DeadCount;
    match t
    case Leaf(u) =>
      LeafHeld(p, units, first);
    case Node(_, l, r) =>
      var b := first + (if p.dead.Some? then 1 else 0);
      SpotsOfGroup(p, first);
      OrderedHeldParts(units, if p.dead.Some? then [Spot(first, p.dead.value)]
                                else [], Spots(p.left, b), Spots(p.right, b + DeadCount(p.left)), p.onLeft);
      RoomFromPlan(p.left, l, desc, c.left, units, b);
      RoomFromPlan(p.right, r, desc, c.right, units, b + DeadCount(p.left));
  }
}
