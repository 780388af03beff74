/** The slicing tree as linked nodes whose curve entries are enlarged in place, the bounded stack
    that builds it from an expression, and the floorplan array it is laid out in. */
module Floorplan {
  import opened Polish
  import opened Slicing
  import opened Curves
  import opened Geometry
  import opened Sizing
  import opened Npe

  class TreeNode {
    var curve: Curve
    const tag: int
    const left: TreeNode?
    const right: TreeNode?
    ghost const tree: Tree
    ghost const repr: set<TreeNode>

    /** The links form the tree `tree`, without sharing. */
    ghost predicate Wired()
      decreases tree
    {
      match tree
      case Leaf(u) => left == null && right == null && tag == u && repr == {this}
      case Node(c, l, r) =>
        && left != null && right != null && tag == c
        && left.tree == l && right.tree == r
        && this !in left.repr && this !in right.repr && left.repr !! right.repr
        && repr == {this} + left.repr + right.repr
        && left.Wired() && right.Wired()
    }

    /** Every curve in the subtree is as the additions left it. */
    ghost predicate Pristine(desc: seq<Curve>)
      requires Wired()
      reads this, repr
      decreases tree
    {
      && Described(tree, desc) && curve == CurveOf(tree, desc)
      && (tree.Node? ==> left.Pristine(desc) && right.Pristine(desc))
    }

    constructor Leaf(u: int, c: Curve)
      ensures Wired() && tree == Tree.Leaf(u) && curve == c && repr == {this}
    {
      tag := u;
      curve := c;
      left := null;
      right := null;
      tree := Tree.Leaf(u);
      repr := {this};
    }

    constructor Cut(cut: int, l: TreeNode, r: TreeNode, c: Curve)
      requires l.Wired() && r.Wired() && l.repr !! r.repr
      ensures Wired() && tree == Node(cut, l.tree, r.tree) && curve == c && left == l && right == r
      ensures repr == {this} + l.repr + r.repr
    {
      tag := cut;
      curve := c;
      left := l;
      right := r;
      tree := Node(cut, l.tree, r.tree);
      repr := {this} + l.repr + r.repr;
    }
  }

  /** The bounded node stack. Push and Pop return false where the code stops. */
  class NodeStack {
    const slots: array<TreeNode?>
    var top: nat

    ghost predicate Valid()
      reads this, slots
    {
      slots.Length == MAX_STACK && top <= MAX_STACK && forall i :: 0 <= i < top ==> slots[i] != null
    }

    constructor ()
      ensures Valid() && top == 0 && fresh(slots)
    {
      slots := new TreeNode?[MAX_STACK](_ => null);
      top := 0;
    }

    method Push(node: TreeNode) returns (ok: bool)
      requires Valid()
      modifies this, slots
      ensures Valid()
      ensures ok <==> old(top) < MAX_STACK
      ensures ok ==> top > 0 && slots[top - 1] == node && slots[..top] == old(slots[..top]) + [node]
      ensures !ok ==> slots[..top] == old(slots[..top])
    {
      if top >= MAX_STACK {
        return false;
      }
      slots[top] := node;
      top := top + 1;
      return true;
    }

    method Pop() returns (node: TreeNode?)
      requires Valid()
      modifies this
      ensures Valid()
      ensures node == null <==> old(top) == 0
      ensures node != null ==> old(slots[..top]) == slots[..top] + [node]
      ensures node == null ==> top == old(top)
    {
      if top <= 0 {
        return null;
      }
      top := top - 1;
      return slots[top];
    }
  }

  /** `n` is the root of an untouched tree `t` made of nodes in `all`. */
  ghost predicate Stands(n: TreeNode?, t: Tree, desc: seq<Curve>, all: set<TreeNode>)
    reads all
  {
    n != null && n in all && n.repr <= all && n.Wired() && n.tree == t && n.Pristine(desc)
  }

  ghost predicate Separate(nodes: seq<TreeNode?>) {
    forall i, j :: 0 <= i < j < |nodes| && nodes[i] != null && nodes[j] != null ==> nodes[i].repr !! nodes[j].repr
  }

  /** The nodes on the stack, bottom first, stand for the trees `ts`; `all` holds their nodes. */
  ghost predicate Represents(nodes: seq<TreeNode?>, ts: seq<Tree>, desc: seq<Curve>, all: set<TreeNode>)
    reads all
  {
    |nodes| == |ts| && Separate(nodes) && forall i :: 0 <= i < |nodes| ==> Stands(nodes[i], ts[i], desc, all)
  }

  lemma ExtendRepresents(nodes: seq<TreeNode?>, ts: seq<Tree>, desc: seq<Curve>, all: set<TreeNode>, node: TreeNode,
      t: Tree)
    requires Represents(nodes, ts, desc, all) && Stands(node, t, desc, all + {node})
    requires forall i :: 0 <= i < |nodes| && nodes[i] != null ==> nodes[i].repr !! node.repr
    ensures Represents(nodes + [node], ts + [t], desc, all + {node})
  {
    var more := nodes + [node];
    forall i | 0 <= i < |more| ensures Stands(more[i], (ts + [t])[i], desc, all + {node}) {
      if i < |nodes| { assert Stands(nodes[i], ts[i], desc, all); }
    }
  }

  lemma RepresentsPrefix(nodes: seq<TreeNode?>, ts: seq<Tree>, desc: seq<Curve>, all: set<TreeNode>, k: nat)
    requires Represents(nodes, ts, desc, all) && k <= |nodes|
    ensures Represents(nodes[..k], ts[..k], desc, all)
  {
  }

  method PushLeaf(desc: seq<Curve>, u: nat, ghost nodes: seq<TreeNode?>, ghost ts: seq<Tree>,
      ghost all: set<TreeNode>) returns (node: TreeNode)
    requires u < |desc| && Proper(desc[u]) && Represents(nodes, ts, desc, all)
    ensures fresh(node) && Represents(nodes + [node], ts + [Leaf(u)], desc, all + {node})
  {
    node := new TreeNode.Leaf(u, desc[u]);
    ExtendRepresents(nodes, ts, desc, all, node, Leaf(u));
  }

  method JoinTop(desc: seq<Curve>, x: int, left: TreeNode, right: TreeNode,
                 ghost nodes: seq<TreeNode?>, ghost ts: seq<Tree>, ghost all: set<TreeNode>) returns (node: TreeNode)
    requires Represents(nodes + [left] + [right], ts, desc, all)
    ensures fresh(node) && |ts| >= 2
    ensures Represents(nodes + [node], ts[..|ts| - 2] + [Node(x, ts[|ts| - 2], ts[|ts| - 1])], desc, all + {node})
  {
    ghost var before, n := nodes + [left] + [right], |nodes|;
    assert before[n] == left && before[n + 1] == right && before[..n] == nodes;
    assert Stands(left, ts[n], desc, all) && Stands(right, ts[n + 1], desc, all);
    RepresentsPrefix(before, ts, desc, all, n);
    assert forall i :: 0 <= i < n ==> before[i] == nodes[i];
    var curve := ShapeAdd(left.curve, right.curve, x);
    node := new TreeNode.Cut(x, left, right, curve);
    ExtendRepresents(nodes, ts[..n], desc, all, node, Node(x, ts[n], ts[n + 1]));
  }

  /** One step of the evaluation: a leaf, or a cut over the two topmost nodes. */
  method NextNode(desc: seq<Curve>, stack: NodeStack, x: int, ghost ts: seq<Tree>, ghost all: set<TreeNode>)
      returns (node: TreeNode)
    requires stack.Valid() && Represents(stack.slots[..stack.top], ts, desc, all)
    requires Step(x, ts).Some? && (x >= 0 ==> x < |desc| && Proper(desc[x]))
    modifies stack
    ensures stack.Valid() && fresh(node)
    ensures Represents(stack.slots[..stack.top] + [node], Step(x, ts).value, desc, all + {node})
  {
    if x >= 0 {
      node := PushLeaf(desc, x, stack.slots[..stack.top], ts, all);
    } else {
      ghost var before := stack.slots[..stack.top];
      var right := stack.Pop();
      var left := stack.Pop();
      assert before == stack.slots[..stack.top] + [left] + [right];
      node := JoinTop(desc, x, left, right, stack.slots[..stack.top], ts, all);
    }
  }

  /** Evaluates one element and pushes the result; `ok` is false where the push overflows. */
  method EvalElement(desc: seq<Curve>, stack: NodeStack, x: int, ghost ts: seq<Tree>, ghost all: set<TreeNode>)
      returns (node: TreeNode, ok: bool)
    requires stack.Valid() && Represents(stack.slots[..stack.top], ts, desc, all)
    requires Step(x, ts).Some? && (x >= 0 ==> x < |desc| && Proper(desc[x]))
    modifies stack, stack.slots
    ensures stack.Valid() && fresh(node)
    ensures ok <==> |Step(x, ts).value| <= MAX_STACK
    ensures ok ==> stack.top > 0 && stack.slots[stack.top - 1] == node
    ensures ok ==> Represents(stack.slots[..stack.top], Step(x, ts).value, desc, all + {node})
  {
    node := NextNode(desc, stack, x, ts, all);
    ok := stack.Push(node);
  }

  lemma StepFits(e: Expr, k: nat)
    requires Balloted(e) && k < |e| && Eval([], e, k).Some?
    ensures var st := Eval([], e, k).value;
            Step(e[k], st).Some? && Eval([], e, k + 1) == Step(e[k], st)
            && |Step(e[k], st).value| == Depth(e, k + 1) >= 1
    ensures FitsUpTo(e, k) ==> (Depth(e, k + 1) <= MAX_STACK <==> FitsUpTo(e, k + 1))
  {
    StackSpells(e, k + 1);
    EvalDepth([], e, k + 1);
    assert Depth(e, k + 1) >= 1;
  }

  lemma EmptyStart(e: Expr, desc: seq<Curve>, nodes: seq<TreeNode?>, all: set<TreeNode>)
    requires nodes == []
    ensures FitsUpTo(e, 0) && Eval([], e, 0).Some? && Eval([], e, 0).value == [] && Represents(nodes, [], desc, all)
  {
  }

  lemma RootStands(n: TreeNode?, t: Tree, desc: seq<Curve>, all: set<TreeNode>)
    requires Stands(n, t, desc, all)
    ensures n != null && n.repr <= all && Stands(n, t, desc, n.repr)
  {
  }

  lemma ParsedAlone(e: Expr)
    requires Balloted(e) && |e| >= 1 && Depth(e, |e|) == 1 && Eval([], e, |e|).Some?
    ensures |Eval([], e, |e|).value| == 1 && Parse(e).Some? && Parse(e).value == Eval([], e, |e|).value[0]
  {
    EvalDepth([], e, |e|);
  }

  /** Builds the slicing tree of an expression. Null is where the code stops: on a stack that is not
      empty, or when a push overflows it. A pop never underflows. */
  method TreeFromNpe(desc: seq<Curve>, stack: NodeStack, expr: NPE) returns (root: TreeNode?)
    requires expr.Valid() && stack.Valid()
    requires |desc| >= expr.nUnits && forall u :: 0 <= u < expr.nUnits ==> Proper(desc[u])
    modifies stack, stack.slots
    ensures root != null <==> old(stack.top) == 0 && FitsUpTo(expr.Value(), |expr.Value()|)
    ensures root != null ==> stack.Valid() && stack.top == 0 && fresh(root.repr)
    ensures root != null ==> Parse(expr.Value()).Some? && Stands(root, Parse(expr.Value()).value, desc, root.repr)
  {
    if stack.top > 0 {
      return null;
    }
    hide Stands, Separate, Eval, Step, Depth, Balloted, Parse, FitsUpTo;
    ghost var e := expr.Value();
    ghost var all: set<TreeNode> := {};
    root := null;
    EmptyStart(e, desc, stack.slots[..stack.top], all);
    for i := 0 to expr.elements.Length
      invariant stack.Valid() && fresh(all) && FitsUpTo(e, i)
      invariant Eval([], e, i).Some? && Represents(stack.slots[..stack.top], Eval([], e, i).value, desc, all)
      invariant i > 0 ==> stack.top > 0 && root == stack.slots[stack.top - 1]
    {
      StepFits(e, i);
      var ok;
      root, ok := EvalElement(desc, stack, expr.elements[i], Eval([], e, i).value, all);
      all := all + {root};
      if !ok {
        return null;
      }
    }
    ParsedAlone(e);
    RootStands(stack.slots[..stack.top][0], Eval([], e, |e|).value[0], desc, all);
    stack.top := 0;
  }
}
