/** Slicing trees and their correspondence with normalized Polish expressions. */
module Slicing {
  import opened Wrappers
  import opened Polish

  const MAX_STACK: nat := 128

  datatype Tree = Leaf(unit: int) | Node(cut: int, left: Tree, right: Tree)

  function Postorder(t: Tree): (e: Expr)
    ensures |e| >= 1
  {
    match t
    case Leaf(u) => [u]
    case Node(c, l, r) => Postorder(l) + Postorder(r) + [c]
  }

  function LeafCount(t: Tree): (n: nat)
    ensures n >= 1
  {
    match t
    case Leaf(_) => 1
    case Node(_, l, r) => LeafCount(l) + LeafCount(r)
  }

  predicate Labelled(t: Tree) {
    match t
    case Leaf(u) => u >= 0
    case Node(c, l, r) => IsCut(c) && Labelled(l) && Labelled(r)
  }

  /** No cut node has a right child with the same cut. */
  predicate Skew(t: Tree) {
    match t
    case Leaf(_) => true
    case Node(c, l, r) => Skew(l) && Skew(r) && !(r.Node? && r.cut == c)
  }

  /** The trees that stand for floorplans of the units 0..n-1. */
  ghost predicate ValidTree(t: Tree, n: nat) {
    n >= 2 && LeafCount(t) == n && Labelled(t) && Skew(t) && Elements(Postorder(t), n)
  }

  // ----- the stack evaluation

  function Step(x: int, st: seq<Tree>): (r: Option<seq<Tree>>) {
    if x >= 0 then Some(st + [Leaf(x)])
    else if |st| < 2 then None
    else Some(st[..|st| - 2] + [Node(x, st[|st| - 2], st[|st| - 1])])
  }

  /** Stack after evaluating the first `k` elements from stack `st`; None after an underflow. */
  function Eval(st: seq<Tree>, e: Expr, k: nat): (r: Option<seq<Tree>>)
    requires k <= |e|
  {
    if k == 0 then Some(st)
    else match Eval(st, e, k - 1) {
      case None => None
      case Some(su) => Step(e[k - 1], su)
    }
  }

  lemma {:induction false} EvalDepth(st: seq<Tree>, e: Expr, k: nat)
    requires k <= |e| && Eval(st, e, k).Some?
    ensures |Eval(st, e, k).value| == |st| + Depth(e, k)
  {
    if k > 0 { EvalDepth(st, e, k - 1); }
  }

  function Parse(e: Expr): (r: Option<Tree>) {
    match Eval([], e, |e|)
    case None => None
    case Some(st) => if |st| == 1 then Some(st[0]) else None
  }

  function PostorderAll(st: seq<Tree>): Expr {
    if st == [] then [] else PostorderAll(st[..|st| - 1]) + Postorder(st[|st| - 1])
  }

  lemma StepSpells(x: int, st: seq<Tree>)
    requires Step(x, st).Some?
    ensures PostorderAll(Step(x, st).value) == PostorderAll(st) + [x]
  {
    var su := Step(x, st).value;
    if x < 0 {
      assert su[..|su| - 1] == st[..|st| - 2] == st[..|st| - 1][..|st| - 2];
    } else {
      assert su[..|su| - 1] == st;
    }
  }

  /** On a balloted expression the stack never underflows and always spells out what was read. */
  lemma {:induction false} StackSpells(e: Expr, k: nat)
    requires Balloted(e) && k <= |e|
    ensures Eval([], e, k).Some? && PostorderAll(Eval([], e, k).value) == e[..k]
  {
    if k > 0 {
      StackSpells(e, k - 1);
      EvalDepth([], e, k - 1);
      assert Depth(e, k) >= 1;
      StepSpells(e[k - 1], Eval([], e, k - 1).value);
    }
  }

  /** Print after parse: a valid expression parses to a tree whose postorder is the expression. */
  lemma ParseThenPrint(e: Expr, n: nat)
    requires ValidNpe(e, n)
    ensures Parse(e).Some? && Postorder(Parse(e).value) == e
  {
    StackSpells(e, |e|);
    EvalDepth([], e, |e|);
    var st := Eval([], e, |e|).value;
    assert e[..|e|] == e && st[..0] == [] && PostorderAll(st[..0]) == [];
  }

  // ----- printing then parsing

  lemma {:induction false} CutsConcat(a: Expr, b: Expr, k: nat)
    requires k <= |a| + |b|
    ensures Cuts(a + b, k) == if k <= |a| then Cuts(a, k) else Cuts(a, |a|) + Cuts(b, k - |a|)
  {
    if k > 0 { CutsConcat(a, b, k - 1); }
  }

  lemma {:induction false} EvalConcat(st: seq<Tree>, a: Expr, b: Expr, k: nat)
    requires |a| <= k <= |a| + |b| && Eval(st, a, |a|).Some?
    ensures Eval(st, a + b, k) == Eval(Eval(st, a, |a|).value, b, k - |a|)
  {
    if k > |a| { EvalConcat(st, a, b, k - 1); } else { EvalPrefix(st, a, b, k); }
  }

  lemma {:induction false} EvalPrefix(st: seq<Tree>, a: Expr, b: Expr, k: nat)
    requires k <= |a|
    ensures Eval(st, a + b, k) == Eval(st, a, k)
  {
    if k > 0 { EvalPrefix(st, a, b, k - 1); }
  }

  lemma EvalOne(st: seq<Tree>, x: int)
    ensures Eval(st, [x], 1) == Step(x, st)
  {
    assert Eval(st, [x], 0) == Some(st);
  }

  lemma StepJoins(st: seq<Tree>, c: int, l: Tree, r: Tree)
    requires c < 0
    ensures Step(c, st + [l] + [r]) == Some(st + [Node(c, l, r)])
  {
    assert (st + [l] + [r])[..|st|] == st;
  }

  /** Evaluating a printed tree from any stack pushes exactly that tree. */
  lemma {:induction false} EvalPrinted(st: seq<Tree>, t: Tree)
    requires Labelled(t)
    ensures Eval(st, Postorder(t), |Postorder(t)|) == Some(st + [t])
    decreases t
  {
    match t
    case Leaf(u) =>
      EvalOne(st, u);
    case Node(c, l, r) =>
      EvalPrinted(st, l);
      EvalPrinted(st + [l], r);
      EvalNode(st, c, l, r, Postorder(l), Postorder(r));
  }

  lemma EvalNode(st: seq<Tree>, c: int, l: Tree, r: Tree, pl: Expr, pr: Expr)
    requires c < 0 && Eval(st, pl, |pl|) == Some(st + [l]) && Eval(st + [l], pr, |pr|) == Some(st + [l] + [r])
    ensures Eval(st, pl + pr + [c], |pl + pr + [c]|) == Some(st + [Node(c, l, r)])
  {
    hide Eval, Step;
    EvalConcat(st, pl, pr, |pl + pr|);
    EvalConcat(st, pl + pr, [c], |pl + pr + [c]|);
    EvalOne(st + [l] + [r], c);
    StepJoins(st, c, l, r);
  }

  /** Parse after print: the tree comes back. */
  lemma PrintThenParse(t: Tree)
    requires Labelled(t)
    ensures Parse(Postorder(t)) == Some(t)
  {
    EvalPrinted([], t);
  }

  // ----- printed trees are valid expressions, and only skewed trees print normalized expressions

  lemma {:induction false} PrintedBallot(t: Tree)
    requires Labelled(t)
    ensures var e := Postorder(t); Balloted(e) && |e| == 2 * LeafCount(t) - 1 && Cuts(e, |e|) == LeafCount(t) - 1
  {
    match t
    case Leaf(u) => assert Postorder(t) == [u]; assert Cuts([u], 1) == 0;
    case Node(c, l, r) =>
      var pl, pr, e := Postorder(l), Postorder(r), Postorder(t);
      PrintedBallot(l); PrintedBallot(r);
      forall k | 0 <= k <= |e|
        ensures Cuts(e, k) == if k <= |pl| then Cuts(pl, k)
                                else if k <= |pl| + |pr| then Cuts(pl, |pl|) + Cuts(pr, k - |pl|)
                              else Cuts(pl, |pl|) + Cuts(pr, |pr|) + 1
      {
        CutsConcat(pl + pr, [c], k);
        if k <= |pl| + |pr| { CutsConcat(pl, pr, k); } else { CutsConcat(pl, pr, |pl + pr|); assert Cuts([c], 1) == 1; }
      }
      forall k | 1 <= k <= |e| ensures Depth(e, k) >= 1 {
        assert Depth(pl, |pl|) >= 1;
        if k <= |pl| { assert Depth(pl, k) >= 1; }
        else if k <= |pl| + |pr| { assert Depth(pr, k - |pl|) >= 1; }
      }
  }

  lemma {:induction false} PrintedEnds(t: Tree)
    requires Labelled(t)
    ensures var e := Postorder(t); e[0] >= 0 && e[|e| - 1] == (if t.Leaf? then t.unit else t.cut)
  {
    if t.Node? { PrintedEnds(t.left); PrintedEnds(t.right); }
  }

  lemma NormalizedConcat(a: Expr, b: Expr)
    requires a != [] && b != []
    ensures Normalized(a + b) <==> Normalized(a) && Normalized(b) && (a[|a| - 1] < 0 ==> a[|a| - 1] != b[0])
  {
    var e := a + b;
    if Normalized(e) {
      forall i | 0 <= i < |a| - 1 && a[i] < 0 ensures a[i] != a[i + 1] { assert e[i] != e[i + 1]; }
      forall i | 0 <= i < |b| - 1 && b[i] < 0 ensures b[i] != b[i + 1] { assert e[|a| + i] != e[|a| + i + 1]; }
      assert e[|a| - 1] < 0 ==> e[|a| - 1] != e[|a| - 1 + 1];
    }
  }

  /** Normalization of the text is skewness of the tree. */
  lemma {:induction false} NormalizedIffSkew(t: Tree)
    requires Labelled(t)
    ensures Normalized(Postorder(t)) <==> Skew(t)
  {
    match t
    case Leaf(_) =>
    case Node(c, l, r) =>
      NormalizedIffSkew(l); NormalizedIffSkew(r);
      PrintedEnds(l); PrintedEnds(r);
      NormalizedConcat(Postorder(l), Postorder(r));
      NormalizedConcat(Postorder(l) + Postorder(r), [c]);
  }

  lemma {:induction false} LabelledParts(e: Expr, n: nat, k: nat)
    requires Elements(e, n) && k <= |e| && Eval([], e, k).Some?
    ensures forall t :: t in Eval([], e, k).value ==> Labelled(t)
  {
    if k > 0 { LabelledParts(e, n, k - 1); }
  }

  /** Normalized expressions and skewed slicing trees over n units correspond one to one: printing maps
      valid trees to valid expressions, parsing maps back, and the two are mutually inverse. */
  lemma TreesAreExpressions(n: nat)
    ensures forall t :: ValidTree(t, n) ==> ValidNpe(Postorder(t), n) && Parse(Postorder(t)) == Some(t)
    ensures forall e :: ValidNpe(e, n) ==>
              Parse(e).Some? && ValidTree(Parse(e).value, n) && Postorder(Parse(e).value) == e
  {
    forall t | ValidTree(t, n) ensures ValidNpe(Postorder(t), n) && Parse(Postorder(t)) == Some(t) {
      PrintedBallot(t); NormalizedIffSkew(t); PrintThenParse(t);
    }
    forall e | ValidNpe(e, n)
      ensures Parse(e).Some? && ValidTree(Parse(e).value, n) && Postorder(Parse(e).value) == e
    {
      ParseThenPrint(e, n);
      LabelledParts(e, n, |e|);
      var t := Parse(e).value;
      assert t in Eval([], e, |e|).value;
      PrintedBallot(t); NormalizedIffSkew(t);
    }
  }

  // ----- stack bounds

  /** The first `k` elements fit the stack: no prefix has more units in excess of cuts than the stack holds. */
  ghost predicate FitsUpTo(e: Expr, k: nat)
    requires k <= |e|
  {
    forall i :: 0 <= i <= k ==> Depth(e, i) <= MAX_STACK
  }

  lemma FewUnitsFit(e: Expr, n: nat)
    requires ValidNpe(e, n) && n <= MAX_STACK
    ensures FitsUpTo(e, |e|)
  {
    forall k | 0 <= k <= |e| ensures Depth(e, k) <= MAX_STACK {
      CutsMonotone(e, k, |e|);
    }
  }
}
