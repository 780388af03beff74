/** Shape curves: the linear merge that adds two curves under a cut, and the optimality of the
    orientation picked from the curve of a whole slicing tree. */
module Curves {
  import opened RealFunctions
  import opened Polish
  import opened Slicing

  /** One orientation: width and height; in a sum also the contributing positions and the place of
      the demarcation line. */
  datatype Entry = Entry(x: real, y: real, leftPos: nat, rightPos: nat, median: real)

  type Curve = seq<Entry>

  /** A usable curve: at least one orientation, positive sizes, wider never taller. */
  ghost predicate Proper(c: Curve) {
    && |c| >= 1
    && (forall i :: 0 <= i < |c| ==> c[i].x > 0.0 && c[i].y > 0.0)
    && (forall i, j :: 0 <= i <= j < |c| ==> c[i].x <= c[j].x && c[i].y >= c[j].y)
  }

  // ----- the merge

  /** A position in each of the two curves being merged, counted along the merge. */
  datatype Pos = Pos(i: nat, j: nat)

  predicate Active(c: Curve, d: Curve, p: Pos) {
    p.i < |c| && p.j < |d|
  }

  /** Where the `i`-th step along a curve is: a horizontal cut runs through it from the far end. */
  function Along(c: Curve, cut: int, i: nat): (k: nat)
    requires i < |c|
    ensures k < |c|
  {
    if cut == CUT_VERTICAL then i else |c| - 1 - i
  }

  /** The size compared by the merge: the height for a vertical cut, the width for a horizontal one. */
  function Key(c: Curve, cut: int, i: nat): real
    requires i < |c|
  {
    if cut == CUT_VERTICAL then c[i].y else c[|c| - 1 - i].x
  }

  /** Advance in the curve whose current key is not smaller. */
  function Advance(c: Curve, d: Curve, cut: int, p: Pos): Pos
    requires Active(c, d, p)
  {
    if Key(c, cut, p.i) >= Key(d, cut, p.j) then Pos(p.i + 1, p.j) else Pos(p.i, p.j + 1)
  }

  /** Position of the merge after `k` steps; it stays put once a curve is exhausted. */
  function At(c: Curve, d: Curve, cut: int, k: nat): Pos {
    if k == 0 then Pos(0, 0)
    else var p := At(c, d, cut, k - 1); if Active(c, d, p) then Advance(c, d, cut, p) else p
  }

  /** Number of further steps from `p` until one curve is exhausted. */
  function StepsFrom(c: Curve, d: Curve, cut: int, p: Pos): nat
    decreases |c| + |d| - p.i - p.j
  {
    if Active(c, d, p) then 1 + StepsFrom(c, d, cut, Advance(c, d, cut, p)) else 0
  }

  /** Number of entries of the sum. */
  function Entries(c: Curve, d: Curve, cut: int): nat {
    StepsFrom(c, d, cut, Pos(0, 0))
  }

  lemma {:induction false} StepsSplit(c: Curve, d: Curve, cut: int, k: nat)
    requires k <= Entries(c, d, cut)
    ensures k + StepsFrom(c, d, cut, At(c, d, cut, k)) == Entries(c, d, cut)
    ensures k < Entries(c, d, cut) <==> Active(c, d, At(c, d, cut, k))
    ensures At(c, d, cut, k).i + At(c, d, cut, k).j == k
  {
    if k > 0 { StepsSplit(c, d, cut, k - 1); }
  }

  lemma {:induction false} AtAscends(c: Curve, d: Curve, cut: int, k: nat, l: nat)
    requires k <= l
    ensures At(c, d, cut, k).i <= At(c, d, cut, l).i && At(c, d, cut, k).j <= At(c, d, cut, l).j
  {
    if k < l { AtAscends(c, d, cut, k, l - 1); }
  }

  lemma EntriesBound(c: Curve, d: Curve, cut: int)
    requires |c| > 0 && |d| > 0
    ensures 1 <= Entries(c, d, cut) <= |c| + |d| - 1
  {
    StepsSplit(c, d, cut, Entries(c, d, cut) - 1);
  }

  /** While both curves have entries left the merge goes on. */
  lemma StepAhead(c: Curve, d: Curve, cut: int, k: nat)
    requires k <= Entries(c, d, cut) && Active(c, d, At(c, d, cut, k))
    ensures k < Entries(c, d, cut) && At(c, d, cut, k + 1) == Advance(c, d, cut, At(c, d, cut, k))
  {
    StepsSplit(c, d, cut, k);
  }

  /** The quantity that the merge compares falls along a curve. */
  lemma KeysFall(c: Curve, cut: int, i: nat, u: nat)
    requires Proper(c) && i <= u < |c|
    ensures Key(c, cut, i) >= Key(c, cut, u)
  {
  }

  /** Every pair (u, v) ahead of step `k` is dominated by a pair the merge visits. */
  lemma {:induction false} MergeDominates(c: Curve, d: Curve, cut: int, k: nat, u: nat, v: nat) returns (l: nat)
    requires Proper(c) && Proper(d) && u < |c| && v < |d|
    requires k <= Entries(c, d, cut) && At(c, d, cut, k).i <= u && At(c, d, cut, k).j <= v
    ensures l < Entries(c, d, cut) && Active(c, d, At(c, d, cut, l))
    ensures var p := At(c, d, cut, l);
            p.i <= u && p.j <= v && Max(Key(c, cut, p.i), Key(d, cut, p.j)) <= Max(Key(c, cut, u), Key(d, cut, v))
    decreases Entries(c, d, cut) - k
  {
    hide Proper, Entries;
    StepAhead(c, d, cut, k);
    var p := At(c, d, cut, k);
    KeysFall(c, cut, p.i, u);
    KeysFall(d, cut, p.j, v);
    if Key(c, cut, p.i) >= Key(d, cut, p.j) && p.i < u {
      l := MergeDominates(c, d, cut, k + 1, u, v);
    } else if Key(c, cut, p.i) < Key(d, cut, p.j) && p.j < v {
      l := MergeDominates(c, d, cut, k + 1, u, v);
    } else {
      l := k;
    }
  }

  // ----- curve addition

  /** Contributing positions of entry `t` of the sum. */
  function Contributors(c: Curve, d: Curve, cut: int, t: nat): (p: Pos)
    requires t < Entries(c, d, cut)
    ensures p.i < |c| && p.j < |d|
  {
    var k := if cut == CUT_VERTICAL then t else Entries(c, d, cut) - 1 - t;
    StepsSplit(c, d, cut, k);
    var p := At(c, d, cut, k);
    Pos(Along(c, cut, p.i), Along(d, cut, p.j))
  }

  function SumX(cut: int, x1: real, x2: real): real { if cut == CUT_VERTICAL then x1 + x2 else Max(x1, x2) }
  function SumY(cut: int, y1: real, y2: real): real { if cut == CUT_VERTICAL then Max(y1, y2) else y1 + y2 }

  /** The orientation that combines entry `p.i` of `c` with entry `p.j` of `d`. */
  function Combine(c: Curve, d: Curve, cut: int, p: Pos): Entry
    requires p.i < |c| && p.j < |d|
  {
    Entry(SumX(cut, c[p.i].x, d[p.j].x), SumY(cut, c[p.i].y, d[p.j].y), p.i, p.j,
          if cut == CUT_VERTICAL then c[p.i].x else c[p.i].y)
  }

  /** The sum curve as a value. */
  function Add(c: Curve, d: Curve, cut: int): (s: Curve)
    ensures |s| == Entries(c, d, cut)
  {
    var n := Entries(c, d, cut);
    seq(n, t requires 0 <= t < n => Combine(c, d, cut, Contributors(c, d, cut, t)))
  }

  lemma ContributorsAscend(c: Curve, d: Curve, cut: int, k: nat, l: nat)
    requires k <= l < Entries(c, d, cut)
    ensures Contributors(c, d, cut, k).i <= Contributors(c, d, cut, l).i
    ensures Contributors(c, d, cut, k).j <= Contributors(c, d, cut, l).j
  {
    var n := Entries(c, d, cut);
    if cut == CUT_VERTICAL { AtAscends(c, d, cut, k, l); } else { AtAscends(c, d, cut, n - 1 - l, n - 1 - k); }
  }

  /** The sum of proper curves is proper, and has at most m+n-1 entries. */
  lemma AddProper(c: Curve, d: Curve, cut: int)
    requires Proper(c) && Proper(d)
    ensures Proper(Add(c, d, cut)) && |Add(c, d, cut)| <= |c| + |d| - 1
  {
    var s := Add(c, d, cut);
    EntriesBound(c, d, cut);
    forall k, l | 0 <= k <= l < |s| ensures s[k].x <= s[l].x && s[k].y >= s[l].y {
      ContributorsAscend(c, d, cut, k, l);
    }
  }

  /** The merge loses nothing: each of the m*n pairs of orientations is dominated by an entry of the sum. */
  lemma AddDominates(c: Curve, d: Curve, cut: int, u: nat, v: nat) returns (t: nat)
    requires Proper(c) && Proper(d) && u < |c| && v < |d|
    ensures var s := Add(c, d, cut);
            t < |s| && s[t].x <= SumX(cut, c[u].x, d[v].x) && s[t].y <= SumY(cut, c[u].y, d[v].y)
  {
    var l := MergeDominates(c, d, cut, 0, Along(c, cut, u), Along(d, cut, v));
    t := if cut == CUT_VERTICAL then l else Entries(c, d, cut) - 1 - l;
    assert Add(c, d, cut)[t] == Combine(c, d, cut, Contributors(c, d, cut, t));
  }

  /** The entry contributed by the `k`-th step of the merge. */
  lemma StepEntry(c: Curve, d: Curve, cut: int, k: nat)
    requires k <= Entries(c, d, cut) && Active(c, d, At(c, d, cut, k))
    ensures k < Entries(c, d, cut) && At(c, d, cut, k + 1) == Advance(c, d, cut, At(c, d, cut, k))
    ensures var p := At(c, d, cut, k);
            Add(c, d, cut)[if cut == CUT_VERTICAL then k else Entries(c, d, cut) - 1 - k] ==
            Combine(c, d, cut, Pos(Along(c, cut, p.i), Along(d, cut, p.j)))
  {
    StepsSplit(c, d, cut, k);
    var t := if cut == CUT_VERTICAL then k else Entries(c, d, cut) - 1 - k;
    assert Add(c, d, cut)[t] == Combine(c, d, cut, Contributors(c, d, cut, t));
  }

  lemma StartOfMerge(c: Curve, d: Curve, cut: int)
    ensures At(c, d, cut, 0) == Pos(0, 0)
  {
  }

  /** shape_add: count the entries, then fill them, from the far end for a horizontal cut. */
  method ShapeAdd(c: Curve, d: Curve, cut: int) returns (sum: Curve)
    ensures sum == Add(c, d, cut)
  {
    hide Add, Entries, At;
    StartOfMerge(c, d, cut);
    var m, n := |c|, |d|;
    var total := CountEntries(c, d, cut);
    var s := new Entry[total];
    ghost var r := Add(c, d, cut);
    var i, j, k := 0, 0, 0;
    while i < m && j < n
      invariant 0 <= i <= m && 0 <= j <= n && k <= total
      invariant Pos(i, j) == At(c, d, cut, k)
      invariant forall t :: (if cut == CUT_VERTICAL then 0 <= t < k else total - k <= t < total) ==> s[t] == r[t]
      decreases m - i + n - j
    {
      StepEntry(c, d, cut, k);
      assert Active(c, d, Pos(i, j));
      if cut == CUT_VERTICAL {
        s[k] := Entry(c[i].x + d[j].x, Max(c[i].y, d[j].y), i, j, c[i].x);
        if c[i].y >= d[j].y { i := i + 1; } else { j := j + 1; }
      } else {
        s[total - 1 - k] := Entry(Max(c[m - 1 - i].x, d[n - 1 - j].x), c[m - 1 - i].y + d[n - 1 - j].y,
                                  m - 1 - i, n - 1 - j, c[m - 1 - i].y);
        if c[m - 1 - i].x >= d[n - 1 - j].x { i := i + 1; } else { j := j + 1; }
      }
      k := k + 1;
    }
    StepsSplit(c, d, cut, k);
    sum := s[..];
  }

  method CountEntries(c: Curve, d: Curve, cut: int) returns (total: nat)
    ensures total == Entries(c, d, cut)
  {
    var m, n := |c|, |d|;
    var i, j := 0, 0;
    total := 0;
    while i < m && j < n
      invariant 0 <= i <= m && 0 <= j <= n
      invariant total + StepsFrom(c, d, cut, Pos(i, j)) == Entries(c, d, cut)
      decreases m - i + n - j
    {
      if cut == CUT_VERTICAL {
        if c[i].y >= d[j].y { i := i + 1; } else { j := j + 1; }
      } else {
        if c[m - 1 - i].x >= d[n - 1 - j].x { i := i + 1; } else { j := j + 1; }
      }
      total := total + 1;
    }
  }

  // ----- curves of whole trees

  ghost predicate Described(t: Tree, desc: seq<Curve>) {
    match t
    case Leaf(u) => 0 <= u < |desc| && Proper(desc[u])
    case Node(_, l, r) => Described(l, desc) && Described(r, desc)
  }

  /** The curve carried by the node of `t`, given the leaf curves of the units. */
  ghost function CurveOf(t: Tree, desc: seq<Curve>): (c: Curve)
    requires Described(t, desc)
    ensures Proper(c)
  {
    match t
    case Leaf(u) => desc[u]
    case Node(cut, l, r) =>
      AddProper(CurveOf(l, desc), CurveOf(r, desc), cut);
      Add(CurveOf(l, desc), CurveOf(r, desc), cut)
  }

  /** One orientation for every leaf. */
  datatype Choice = Pick(pos: nat) | Both(left: Choice, right: Choice)

  ghost predicate Fitting(t: Tree, desc: seq<Curve>, c: Choice)
    requires Described(t, desc)
  {
    match t
    case Leaf(u) => c.Pick? && c.pos < |desc[u]|
    case Node(_, l, r) => c.Both? && Fitting(l, desc, c.left) && Fitting(r, desc, c.right)
  }

  ghost function Width(t: Tree, desc: seq<Curve>, c: Choice): (w: real)
    requires Described(t, desc) && Fitting(t, desc, c)
    ensures w > 0.0
  {
    match t
    case Leaf(u) => desc[u][c.pos].x
    case Node(cut, l, r) => SumX(cut, Width(l, desc, c.left), Width(r, desc, c.right))
  }

  ghost function Height(t: Tree, desc: seq<Curve>, c: Choice): (h: real)
    requires Described(t, desc) && Fitting(t, desc, c)
    ensures h > 0.0
  {
    match t
    case Leaf(u) => desc[u][c.pos].y
    case Node(cut, l, r) => SumY(cut, Height(l, desc, c.left), Height(r, desc, c.right))
  }

  /** Following the contributing positions down from entry `k`. */
  ghost function ChoiceAt(t: Tree, desc: seq<Curve>, k: nat): (c: Choice)
    requires Described(t, desc) && k < |CurveOf(t, desc)|
  {
    match t
    case Leaf(_) => Pick(k)
    case Node(cut, l, r) =>
      var s := CurveOf(t, desc);
      Both(ChoiceAt(l, desc, s[k].leftPos), ChoiceAt(r, desc, s[k].rightPos))
  }

  /** Each entry of the curve of a tree is attained by the orientations its positions lead to. */
  lemma {:induction false} EntryAttained(t: Tree, desc: seq<Curve>, k: nat)
    requires Described(t, desc) && k < |CurveOf(t, desc)|
    ensures var c := ChoiceAt(t, desc, k);
            Fitting(t, desc, c) && Width(t, desc, c) == CurveOf(t, desc)[k].x
                && Height(t, desc, c) == CurveOf(t, desc)[k].y
  {
    match t
    case Leaf(_) =>
    case Node(cut, l, r) =>
      var s := CurveOf(t, desc);
      EntryAttained(l, desc, s[k].leftPos);
      EntryAttained(r, desc, s[k].rightPos);
  }

  lemma SumsMonotone(cut: int, a: Entry, b: Entry, w1: real, h1: real, w2: real, h2: real)
    requires a.x <= w1 && a.y <= h1 && b.x <= w2 && b.y <= h2
    ensures SumX(cut, a.x, b.x) <= SumX(cut, w1, w2) && SumY(cut, a.y, b.y) <= SumY(cut, h1, h2)
  {
  }

  /** Every choice of orientations is dominated, in width and in height, by an entry of the curve. */
  lemma {:induction false} ChoiceDominated(t: Tree, desc: seq<Curve>, c: Choice) returns (k: nat)
    requires Described(t, desc) && Fitting(t, desc, c)
    ensures var s := CurveOf(t, desc); k < |s| && s[k].x <= Width(t, desc, c) && s[k].y <= Height(t, desc, c)
  {
    match t
    case Leaf(_) => k := c.pos;
    case Node(cut, l, r) =>
      var u := ChoiceDominated(l, desc, c.left);
      var v := ChoiceDominated(r, desc, c.right);
      var cl, cr := CurveOf(l, desc), CurveOf(r, desc);
      k := AddDominates(cl, cr, cut, u, v);
      SumsMonotone(cut, cl[u], cr[v], Width(l, desc, c.left), Height(l, desc, c.left), Width(r, desc, c.right),
          Height(r, desc, c.right));
  }

  function Box(w: real, h: real): real { w * h }

  function Area(c: Curve, k: nat): real
    requires k < |c|
  {
    Box(c[k].x, c[k].y)
  }

  /** The first entry of least area. */
  ghost predicate IsMinArea(c: Curve, pos: nat)
  {
    && pos < |c|
    && (forall i :: 0 <= i < |c| ==> Area(c, pos) <= Area(c, i))
    && (forall i :: 0 <= i < pos ==> Area(c, pos) < Area(c, i))
  }

  method MinAreaPos(c: Curve) returns (pos: nat)
    requires |c| >= 1
    ensures IsMinArea(c, pos)
  {
    pos := 0;
    var min := Area(c, 0);
    for i := 1 to |c|
      invariant pos < i && min == Area(c, pos)
      invariant forall j :: 0 <= j < i ==> min <= Area(c, j)
      invariant forall j :: 0 <= j < pos ==> min < Area(c, j)
    {
      var area := Area(c, i);
      if min > area {
        min := area;
        pos := i;
      }
    }
  }

  /** The entry picked at the root is optimal: it is attained by the orientations its positions lead
      to, and no choice of one orientation per leaf has a smaller bounding box. */
  lemma OptimalOrientation(t: Tree, desc: seq<Curve>, pos: nat, c: Choice)
    requires Described(t, desc) && IsMinArea(CurveOf(t, desc), pos) && Fitting(t, desc, c)
    ensures var best := ChoiceAt(t, desc, pos);
            && Fitting(t, desc, best)
            && Width(t, desc, best) == CurveOf(t, desc)[pos].x && Height(t, desc, best) == CurveOf(t, desc)[pos].y
            && Box(Width(t, desc, best), Height(t, desc, best)) <= Box(Width(t, desc, c), Height(t, desc, c))
  {
    EntryAttained(t, desc, pos);
    var k := ChoiceDominated(t, desc, c);
    var s := CurveOf(t, desc);
    assert Area(s, pos) <= Area(s, k);
    BoxMonotone(s[k].x, s[k].y, Width(t, desc, c), Height(t, desc, c));
  }

  lemma BoxMonotone(x: real, y: real, w: real, h: real)
    requires 0.0 < x <= w && 0.0 < y <= h
    ensures Box(x, y) <= Box(w, h)
  {
    assert x * y <= w * y;
    assert w * y <= w * h;
  }
}
