/** The search space of the annealer: runs of moves over normalized Polish expressions. Runs keep
    validity, are reversible, and connect any two valid expressions over the same units. */
module MoveSpace {
  import opened Wrappers
  import opened Polish

  /** Result of a run of offered, accepted moves; None if some move is not offered or is refused. */
  function Run(e: Expr, ms: seq<Move>): (r: Option<Expr>)
    decreases |ms|
  {
    if ms == [] then Some(e)
    else if Offered(e, ms[0]) && Apply(e, ms[0]).Some? then Run(Apply(e, ms[0]).value, ms[1..])
    else None
  }

  lemma {:induction false} RunConcat(e: Expr, a: seq<Move>, b: seq<Move>)
    requires Run(e, a).Some?
    ensures Run(e, a + b) == Run(Run(e, a).value, b)
    decreases |a|
  {
    if a == [] {
      assert a + b == b;
    } else {
      assert (a + b)[0] == a[0] && (a + b)[1..] == a[1..] + b;
      RunConcat(Apply(e, a[0]).value, a[1..], b);
    }
  }

  /** Reachable-state invariant: every run from a valid expression ends in a valid expression. */
  lemma {:induction false} RunKeepsValid(e: Expr, n: nat, ms: seq<Move>)
    requires ValidNpe(e, n) && Run(e, ms).Some?
    ensures ValidNpe(Run(e, ms).value, n)
    decreases |ms|
  {
    if ms != [] {
      MoveKeepsValid(e, n, ms[0]);
      RunKeepsValid(Apply(e, ms[0]).value, n, ms[1..]);
    }
  }

  function Reversed(ms: seq<Move>): seq<Move> {
    if ms == [] then [] else Reversed(ms[1..]) + [ms[0]]
  }

  /** Replaying a run backwards, move for move, restores the starting expression. */
  lemma {:induction false} RunUndone(e: Expr, n: nat, ms: seq<Move>)
    requires ValidNpe(e, n) && Run(e, ms).Some?
    ensures Run(Run(e, ms).value, Reversed(ms)) == Some(e)
    decreases |ms|
  {
    if ms != [] {
      var f := Apply(e, ms[0]).value;
      MoveKeepsValid(e, n, ms[0]);
      MoveUndone(e, n, ms[0]);
      RunUndone(f, n, ms[1..]);
      RunConcat(Run(e, ms).value, Reversed(ms[1..]), [ms[0]]);
      assert [ms[0]][1..] == [];
    }
  }

  // ----- the starting expression 0 1 V 2 V ... n-1 V

  predicate UnitSlot(i: int) {
    i == 0 || i % 2 == 1
  }

  function Initial(n: nat): (e: Expr)
    requires n >= 2
    ensures |e| == 2 * n - 1
  {
    seq(2 * n - 1, i => if UnitSlot(i) then (i + 1) / 2 else CUT_VERTICAL)
  }

  ghost predicate Skewed(e: Expr, k: nat)
    requires k <= |e|
  {
    forall i :: 0 <= i < k ==> (e[i] >= 0 <==> UnitSlot(i))
  }

  lemma {:induction false} SkewedCuts(e: Expr, k: nat)
    requires 1 <= k <= |e| && Skewed(e, k)
    ensures Cuts(e, k) == (k - 1) / 2
  {
    if k > 1 { SkewedCuts(e, k - 1); } else { assert Cuts(e, 0) == 0; }
  }

  lemma InitialValid(n: nat)
    requires n >= 2
    ensures ValidNpe(Initial(n), n)
  {
    hide Elements;
    var e := Initial(n);
    assert Skewed(e, |e|);
    forall k | 1 <= k <= |e| ensures Depth(e, k) >= 1 { SkewedCuts(e, k); }
    SkewedCuts(e, |e|);
    InitialElements(n);
  }

  lemma InitialElements(n: nat)
    requires n >= 2
    ensures Elements(Initial(n), n)
  {
    var e := Initial(n);
    assert forall i :: 0 <= i < |e| && UnitSlot(i) ==> e[i] == (i + 1) / 2;
    forall u | 0 <= u < n ensures u in e { assert e[if u == 0 then 0 else 2 * u - 1] == u; }
  }

  // ----- stage one: move the cuts left until the tree is fully skewed

  /** Sum of the positions of the cuts among the first `k` elements. */
  function CutPositionSum(e: Expr, k: nat): nat
    requires k <= |e|
  {
    if k == 0 then 0 else CutPositionSum(e, k - 1) + (if e[k - 1] < 0 then k - 1 else 0)
  }

  /** An M3 that moves a cut one place left lowers the sum of cut positions by one. */
  lemma {:induction false} LeftMoveLowersSum(e: Expr, pos: nat, k: nat)
    requires pos + 1 < |e| && k <= |e| && e[pos] >= 0 && e[pos + 1] < 0
    ensures CutPositionSum(Swapped(e, pos), k) ==
            CutPositionSum(e, k) + (if k == pos + 1 then pos else if k > pos + 1 then -1 else 0)
  {
    if k > 0 { LeftMoveLowersSum(e, pos, k - 1); }
  }

  lemma FirstUnskewed(e: Expr, n: nat) returns (p: nat)
    requires ValidNpe(e, n) && !Skewed(e, |e|)
    ensures 2 <= p < |e| && p % 2 == 0 && Skewed(e, p) && e[p] >= 0
  {
    p := 0;
    while p < |e| && (e[p] >= 0 <==> UnitSlot(p))
      invariant p <= |e| && Skewed(e, p)
    {
      p := p + 1;
    }
    assert p < |e|;
    ValidEnds(e, n);
    SkewedCuts(e, p);
    assert Depth(e, p + 1) >= 1;
  }

  lemma {:induction false} UnitRunCuts(e: Expr, p: nat, q: nat)
    requires p <= q <= |e| && forall i :: p <= i < q ==> e[i] >= 0
    ensures Cuts(e, q) == Cuts(e, p)
  {
    if p < q { UnitRunCuts(e, p, q - 1); }
  }

  lemma NextCut(e: Expr, p: nat) returns (q: nat)
    requires p < |e| && e[p] >= 0 && e[|e| - 1] < 0
    ensures p < q < |e| && e[q] < 0 && forall i :: p <= i < q ==> e[i] >= 0
  {
    q := p + 1;
    while e[q] >= 0
      invariant p < q < |e| && forall i :: p <= i < q ==> e[i] >= 0
      decreases |e| - q
    {
      q := q + 1;
    }
  }

  /** In an expression that is not skewed some cut can legally move one place left. */
  lemma LeftMoveExists(e: Expr, n: nat) returns (pos: nat)
    requires ValidNpe(e, n) && !Skewed(e, |e|)
    ensures 0 < pos < |e| - 1 && e[pos] >= 0 && e[pos + 1] < 0
    ensures Offered(e, M3(pos)) && Apply(e, M3(pos)) == Some(Swapped(e, pos))
  {
    hide Balloted, Normalized;
    var p := FirstUnskewed(e, n);
    ValidEnds(e, n);
    var q := NextCut(e, p);
    pos := q - 1;
    SkewedCuts(e, p);
    UnitRunCuts(e, p, q);
    FlipsBelowExact(e, |e|);
    assert FlipAt(e, pos);
    assert e[pos - 1] >= 0 by { if pos == p { assert UnitSlot(p - 1); } }
  }

  lemma {:induction false} SkewByLeftMoves(e: Expr, n: nat) returns (ms: seq<Move>)
    requires ValidNpe(e, n)
    ensures Run(e, ms).Some? && Skewed(Run(e, ms).value, |Run(e, ms).value|)
    ensures forall m :: m in ms ==> m.M3?
    decreases CutPositionSum(e, |e|)
  {
    ms := [];
    if !Skewed(e, |e|) {
      var pos := LeftMoveExists(e, n);
      MoveKeepsValid(e, n, M3(pos));
      LeftMoveLowersSum(e, pos, |e|);
      var rest := SkewByLeftMoves(Swapped(e, pos), n);
      ms := [M3(pos)] + rest;
      assert ms[1..] == rest;
    }
  }

  // ----- stage two: make every cut vertical

  ghost predicate VerticalUpTo(e: Expr, k: nat)
    requires k <= |e|
  {
    Skewed(e, |e|) && forall i :: 0 <= i < k && e[i] < 0 ==> e[i] == CUT_VERTICAL
  }

  lemma InvertSingle(e: Expr, n: nat, pos: nat)
    requires ValidNpe(e, n) && Skewed(e, |e|) && pos < |e| && e[pos] < 0
    ensures Offered(e, M2(pos)) && Apply(e, M2(pos)) == Some(e[pos := OtherCut(e[pos])])
  {
    ChainsBelowExact(e, |e|);
    assert ChainAt(e, pos) by { assert UnitSlot(pos - 1); }
    assert pos + 1 < |e| ==> UnitSlot(pos + 1);
    assert NextUnit(e, pos) == NextUnit(e, pos + 1) == pos + 1;
    assert InvertChain(e, pos) == e[pos := OtherCut(e[pos])];
  }

  lemma {:induction false} MakeVertical(e: Expr, n: nat, k: nat) returns (ms: seq<Move>)
    requires ValidNpe(e, n) && k <= |e| && VerticalUpTo(e, k)
    ensures Run(e, ms).Some? && VerticalUpTo(Run(e, ms).value, |Run(e, ms).value|)
    decreases |e| - k
  {
    if k == |e| {
      ms := [];
    } else if e[k] == CUT_HORIZONTAL {
      InvertSingle(e, n, k);
      MoveKeepsValid(e, n, M2(k));
      var rest := MakeVertical(e[k := CUT_VERTICAL], n, k + 1);
      ms := [M2(k)] + rest;
      assert ms[1..] == rest;
    } else {
      ms := MakeVertical(e, n, k + 1);
    }
  }

  // ----- stage three: sort the units

  function Slot(u: nat): nat {
    if u == 0 then 0 else 2 * u - 1
  }

  ghost predicate SortedUpTo(e: Expr, t: nat) {
    VerticalUpTo(e, |e|) && forall u :: 0 <= u < t && Slot(u) < |e| ==> e[Slot(u)] == u
  }

  lemma OfferedAtSlot(e: Expr, n: nat, k: nat)
    requires ValidNpe(e, n) && Skewed(e, |e|) && k + 1 < n
    ensures Offered(e, M1(Slot(k)))
  {
    var p := UnitPositions(e);
    UnitsBelowExact(e, |e|);
    assert UnitSlot(Slot(k)) && UnitSlot(Slot(k + 1));
    assert UnitAt(e, Slot(k)) && UnitAt(e, Slot(k + 1));
    assert Slot(k) in p && Slot(k + 1) in p;
    var a :| 0 <= a < |p| && p[a] == Slot(k);
    var b :| 0 <= b < |p| && p[b] == Slot(k + 1);
    assert a < b;
    assert p[..|p| - 1][a] == Slot(k);
  }

  lemma M1AtSlot(e: Expr, n: nat, k: nat)
    requires ValidNpe(e, n) && Skewed(e, |e|) && k + 1 < n
    ensures Offered(e, M1(Slot(k)))
    ensures Apply(e, M1(Slot(k))) == Some(e[Slot(k) := e[Slot(k + 1)]][Slot(k + 1) := e[Slot(k)]])
  {
    OfferedAtSlot(e, n, k);
    assert UnitSlot(Slot(k)) && UnitSlot(Slot(k + 1));
    assert k > 0 ==> !UnitSlot(Slot(k) + 1);
    assert NextUnit(e, Slot(k) + 1) == Slot(k + 1);
  }

  lemma UnitAtSlot(e: Expr, n: nat, u: nat) returns (k: nat)
    requires ValidNpe(e, n) && Skewed(e, |e|) && u < n
    ensures k < n && e[Slot(k)] == u
  {
    assert u in e;
    var i :| 0 <= i < |e| && e[i] == u;
    assert UnitSlot(i);
    k := (i + 1) / 2;
  }

  lemma BubbleLeft(e: Expr, n: nat, t: nat, k: nat) returns (f: Expr)
    requires ValidNpe(e, n) && t < k < n && SortedUpTo(e, t) && e[Slot(k)] == t
    ensures Offered(e, M1(Slot(k - 1))) && Apply(e, M1(Slot(k - 1))) == Some(f)
    ensures ValidNpe(f, n) && SortedUpTo(f, t) && f[Slot(k - 1)] == t
  {
    hide Offered, Apply;
    M1AtSlot(e, n, k - 1);
    MoveKeepsValid(e, n, M1(Slot(k - 1)));
    f := Apply(e, M1(Slot(k - 1))).value;
    SlotsExchanged(e, f, n, t, k);
  }

  /** Exchanging the units of two slots keeps the shape, and what is sorted before them. */
  lemma SlotsExchanged(e: Expr, f: Expr, n: nat, t: nat, k: nat)
    requires |e| == 2 * n - 1 && t < k < n && SortedUpTo(e, t) && e[Slot(k)] == t
    requires f == e[Slot(k - 1) := e[Slot(k)]][Slot(k) := e[Slot(k - 1)]]
    ensures SortedUpTo(f, t) && f[Slot(k - 1)] == t
  {
    assert UnitSlot(Slot(k)) && UnitSlot(Slot(k - 1));
    forall u | 0 <= u < t ensures f[Slot(u)] == u { assert Slot(u) < Slot(k - 1) < Slot(k); }
  }

  lemma SortedMore(e: Expr, n: nat, t: nat, j: nat)
    requires ValidNpe(e, n) && t < n && j < n && SortedUpTo(e, t) && e[Slot(t)] == t && e[Slot(j)] == t + 1
    ensures SortedUpTo(e, t + 1) && t + 1 <= j
  {
    assert forall u :: 0 <= u <= t ==> Slot(u) < |e| && e[Slot(u)] == u;
  }

  lemma {:induction false} SortUnits(e: Expr, n: nat, t: nat, k: nat) returns (ms: seq<Move>)
    requires ValidNpe(e, n) && t <= k < n && SortedUpTo(e, t) && e[Slot(k)] == t
    ensures Run(e, ms).Some? && SortedUpTo(Run(e, ms).value, n) && ValidNpe(Run(e, ms).value, n)
    decreases n - t, k
  {
    hide ValidNpe, Apply, Offered;
    if k > t {
      var f := BubbleLeft(e, n, t, k);
      var rest := SortUnits(f, n, t, k - 1);
      ms := [M1(Slot(k - 1))] + rest;
      assert ms[1..] == rest;
    } else if t + 1 == n {
      ms := [];
    } else {
      var j := UnitAtSlot(e, n, t + 1);
      SortedMore(e, n, t, j);
      ms := SortUnits(e, n, t + 1, j);
    }
  }

  // ----- connectedness

  lemma SortedIsInitial(e: Expr, n: nat)
    requires ValidNpe(e, n) && SortedUpTo(e, n)
    ensures e == Initial(n)
  {
    forall i | 0 <= i < |e| ensures e[i] == Initial(n)[i] {
      if UnitSlot(i) { assert Slot((i + 1) / 2) == i && (i + 1) / 2 < n; }
    }
  }

  /** Every valid expression reaches the starting expression by offered, accepted moves. */
  lemma ReachesInitial(e: Expr, n: nat) returns (ms: seq<Move>)
    requires ValidNpe(e, n)
    ensures Run(e, ms) == Some(Initial(n))
  {
    var a := SkewByLeftMoves(e, n);
    RunKeepsValid(e, n, a);
    var f := Run(e, a).value;
    var b := MakeVertical(f, n, 0);
    RunKeepsValid(f, n, b);
    var g := Run(f, b).value;
    var k := UnitAtSlot(g, n, 0);
    var c := SortUnits(g, n, 0, k);
    SortedIsInitial(Run(g, c).value, n);
    RunConcat(f, b, c);
    RunConcat(e, a, b + c);
    ms := a + (b + c);
  }

  /** The search space is connected: any two valid expressions over the same units are joined by a run. */
  lemma Connected(e: Expr, f: Expr, n: nat) returns (ms: seq<Move>)
    requires ValidNpe(e, n) && ValidNpe(f, n)
    ensures Run(e, ms) == Some(f)
  {
    var a := ReachesInitial(e, n);
    var b := ReachesInitial(f, n);
    RunUndone(f, n, b);
    RunConcat(e, a, Reversed(b));
    ms := a + Reversed(b);
  }
}
