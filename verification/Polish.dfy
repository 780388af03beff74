/** Normalized Polish expressions of the floorplanner: the element sequences, the index tables
    derived from them, and the three annealing moves, all as pure functions on sequences. */
module Polish {
  import opened Wrappers

  const CUT_VERTICAL: int := -2
  const CUT_HORIZONTAL: int := -3

  type Expr = seq<int>


  predicate IsCut(x: int) {
    x == CUT_VERTICAL || x == CUT_HORIZONTAL
  }

  function OtherCut(x: int): int {
    if x == CUT_VERTICAL then CUT_HORIZONTAL else CUT_VERTICAL
  }

  /** Number of cuts among the first `k` elements. */
  function Cuts(e: Expr, k: nat): (c: nat)
    requires k <= |e|
    ensures c <= k
  {
    if k == 0 then 0 else Cuts(e, k - 1) + (if e[k - 1] < 0 then 1 else 0)
  }

  /** Units minus cuts among the first `k` elements: the depth of the evaluation stack. */
  function Depth(e: Expr, k: nat): int
    requires k <= |e|
  {
    k - 2 * Cuts(e, k)
  }

  // ----- validity

  ghost predicate Balloted(e: Expr) {
    forall k :: 1 <= k <= |e| ==> Depth(e, k) >= 1
  }

  ghost predicate Normalized(e: Expr) {
    forall i :: 0 <= i < |e| - 1 && e[i] < 0 ==> e[i] != e[i + 1]
  }

  ghost predicate Elements(e: Expr, n: nat) {
    && (forall i :: 0 <= i < |e| ==> IsCut(e[i]) || 0 <= e[i] < n)
    && (forall i, j :: 0 <= i < j < |e| && e[i] >= 0 ==> e[i] != e[j])
    && (forall u :: 0 <= u < n ==> u in e)
  }

  /** A normalized Polish expression over the units 0..n-1: every unit once, n-1 cuts,
      the balloting property, and no two equal adjacent cuts. */
  ghost predicate ValidNpe(e: Expr, n: nat) {
    && n >= 2
    && |e| == 2 * n - 1
    && Cuts(e, |e|) == n - 1
    && Elements(e, n)
    && Balloted(e)
    && Normalized(e)
  }

  // ----- derived index tables

  predicate UnitAt(e: Expr, i: int) {
    0 <= i < |e| && e[i] >= 0
  }

  predicate FlipAt(e: Expr, i: int) {
    0 <= i < |e| - 1 && (e[i] < 0 <==> e[i + 1] >= 0)
  }

  predicate ChainAt(e: Expr, i: int) {
    0 <= i < |e| && e[i] < 0 && (i == 0 || e[i - 1] >= 0)
  }

  /** The unit positions below `k`, ascending. */
  function UnitsBelow(e: Expr, k: nat): (r: seq<int>)
    requires k <= |e|
    ensures |r| == k - Cuts(e, k)
  {
    if k == 0 then [] else UnitsBelow(e, k - 1) + (if UnitAt(e, k - 1) then [k - 1] else [])
  }

  /** The positions below `k` whose right neighbour is of the other kind, ascending. */
  function FlipsBelow(e: Expr, k: nat): (r: seq<int>)
    requires k <= |e|
    ensures |r| <= k
  {
    if k == 0 then [] else FlipsBelow(e, k - 1) + (if FlipAt(e, k - 1) then [k - 1] else [])
  }

  /** The positions below `k` where a maximal run of cuts starts, ascending. */
  function ChainsBelow(e: Expr, k: nat): (r: seq<int>)
    requires k <= |e|
    ensures |r| <= Cuts(e, k)
  {
    if k == 0 then [] else ChainsBelow(e, k - 1) + (if ChainAt(e, k - 1) then [k - 1] else [])
  }

  function UnitPositions(e: Expr): seq<int> {
    UnitsBelow(e, |e|)
  }

  function FlipPositions(e: Expr): seq<int> {
    FlipsBelow(e, |e|)
  }

  function ChainPositions(e: Expr): seq<int> {
    ChainsBelow(e, |e|)
  }

  /** Number of cuts up to and including each position. */
  function BallotCounts(e: Expr): seq<int> {
    seq(|e|, i requires 0 <= i < |e| => Cuts(e, i + 1))
  }

  ghost predicate Ascending(r: seq<int>, bound: int) {
    && (forall i :: 0 <= i < |r| ==> r[i] < bound)
    && (forall i, j :: 0 <= i < j < |r| ==> r[i] < r[j])
  }

  lemma {:induction false} UnitsBelowExact(e: Expr, k: nat)
    requires k <= |e|
    ensures forall x :: x in UnitsBelow(e, k) <==> x < k && UnitAt(e, x)
    ensures Ascending(UnitsBelow(e, k), k)
  {
    if k > 0 { UnitsBelowExact(e, k - 1); }
  }

  lemma {:induction false} FlipsBelowExact(e: Expr, k: nat)
    requires k <= |e|
    ensures forall x :: x in FlipsBelow(e, k) <==> x < k && FlipAt(e, x)
    ensures Ascending(FlipsBelow(e, k), k)
  {
    if k > 0 { FlipsBelowExact(e, k - 1); }
  }

  lemma {:induction false} ChainsBelowExact(e: Expr, k: nat)
    requires k <= |e|
    ensures forall x :: x in ChainsBelow(e, k) <==> x < k && ChainAt(e, x)
    ensures Ascending(ChainsBelow(e, k), k)
  {
    if k > 0 { ChainsBelowExact(e, k - 1); }
  }

  // ----- counting lemmas

  lemma {:induction false} CutsMonotone(e: Expr, i: nat, j: nat)
    requires i <= j <= |e|
    ensures Cuts(e, i) <= Cuts(e, j) <= Cuts(e, i) + (j - i)
  {
    if i < j { CutsMonotone(e, i, j - 1); }
  }

  ghost predicate SameKinds(e: Expr, f: Expr) {
    |e| == |f| && forall i :: 0 <= i < |e| ==> (e[i] < 0 <==> f[i] < 0)
  }

  lemma {:induction false} SameKindsPrefix(e: Expr, f: Expr, k: nat)
    requires SameKinds(e, f) && k <= |e|
    ensures Cuts(e, k) == Cuts(f, k) && UnitsBelow(e, k) == UnitsBelow(f, k)
    ensures FlipsBelow(e, k) == FlipsBelow(f, k) && ChainsBelow(e, k) == ChainsBelow(f, k)
  {
    if k > 0 { SameKindsPrefix(e, f, k - 1); }
  }

  /** The index tables and the ballot depend only on which elements are units. */
  lemma SameKindsTables(e: Expr, f: Expr)
    requires SameKinds(e, f)
    ensures Cuts(e, |e|) == Cuts(f, |f|)
    ensures UnitPositions(e) == UnitPositions(f)
    ensures FlipPositions(e) == FlipPositions(f)
    ensures ChainPositions(e) == ChainPositions(f)
    ensures BallotCounts(e) == BallotCounts(f)
    ensures Balloted(e) <==> Balloted(f)
  {
    forall k | 0 <= k <= |e| ensures Cuts(e, k) == Cuts(f, k) && Depth(e, k) == Depth(f, k) {
      SameKindsPrefix(e, f, k);
    }
    SameKindsPrefix(e, f, |e|);
  }

  // ----- the moves

  /** Least position at or after `i` holding a unit, or |e|. */
  function NextUnit(e: Expr, i: nat): (r: nat)
    requires i <= |e|
    ensures i <= r <= |e|
    ensures r < |e| ==> e[r] >= 0
    ensures forall k :: i <= k < r ==> e[k] < 0
    decreases |e| - i
  {
    if i == |e| || e[i] >= 0 then i else NextUnit(e, i + 1)
  }

  /** Move M1: exchange the unit at `pos` with the next unit. */
  function SwapUnits(e: Expr, pos: nat): (r: Option<Expr>)
    requires pos < |e|
  {
    var i := NextUnit(e, pos + 1);
    if i == |e| then None else Some(e[pos := e[i]][i := e[pos]])
  }

  /** Move M2: exchange vertical and horizontal in the run of cuts from `pos` on. */
  function InvertChain(e: Expr, pos: nat): (r: Expr)
    requires pos < |e|
  {
    var end := NextUnit(e, pos);
    seq(|e|, k requires 0 <= k < |e| => if pos <= k < end then OtherCut(e[k]) else e[k])
  }

  /** Move M3 is refused when it would bring equal cuts together or break the ballot. */
  predicate SwapCutUnitAllowed(e: Expr, pos: nat)
    requires 0 < pos < |e| - 1
  {
    if e[pos] >= 0 then
      e[pos - 1] != e[pos + 1] && 2 * Cuts(e, pos + 2) < pos + 1
    else
      pos < |e| - 2 ==> e[pos] != e[pos + 2]
  }

  function Swapped(e: Expr, pos: nat): (r: Expr)
    requires pos + 1 < |e|
    ensures |r| == |e|
  {
    e[pos := e[pos + 1]][pos + 1 := e[pos]]
  }

  /** Move M3: exchange an adjacent cut and unit, if allowed. */
  function SwapCutUnit(e: Expr, pos: nat): (r: Option<Expr>)
    requires 0 < pos < |e| - 1
  {
    if SwapCutUnitAllowed(e, pos) then Some(Swapped(e, pos)) else None
  }

  datatype Move = M1(pos: int) | M2(pos: int) | M3(pos: int)

  /** The positions the random move generator draws from. */
  predicate Offered(e: Expr, m: Move) {
    match m
    case M1(pos) => var p := UnitPositions(e); |p| > 0 && pos in p[..|p| - 1]
    case M2(pos) => pos in ChainPositions(e)
    case M3(pos) => pos in FlipPositions(e)
  }

  /** Effect of an offered move; None when refused (or when the code would stop). */
  function Apply(e: Expr, m: Move): (r: Option<Expr>) {
    match m
    case M1(pos) => if 0 <= pos < |e| then SwapUnits(e, pos) else None
    case M2(pos) => if 0 <= pos < |e| then Some(InvertChain(e, pos)) else None
    case M3(pos) => if 0 < pos < |e| - 1 then SwapCutUnit(e, pos) else None
  }

  // ----- shape facts about valid expressions

  lemma ValidEnds(e: Expr, n: nat)
    requires ValidNpe(e, n)
    ensures e[0] >= 0 && e[1] >= 0 && e[|e| - 1] < 0
  {
    assert Depth(e, 1) >= 1 && Depth(e, 2) >= 1 && Depth(e, |e| - 1) >= 1;
  }

  lemma FlipInside(e: Expr, n: nat, pos: int)
    requires ValidNpe(e, n) && pos in FlipPositions(e)
    ensures 0 < pos < |e| - 1 && FlipAt(e, pos)
    ensures e[pos] < 0 ==> pos < |e| - 2
  {
    ValidEnds(e, n);
    FlipsBelowExact(e, |e|);
  }

  lemma M1Inside(e: Expr, n: nat, pos: int)
    requires ValidNpe(e, n) && Offered(e, M1(pos))
    ensures UnitAt(e, pos) && NextUnit(e, pos + 1) < |e|
  {
    var p := UnitPositions(e);
    UnitsBelowExact(e, |e|);
    var k :| 0 <= k < |p| - 1 && p[k] == pos;
    assert p[k + 1] in p && p[k] in p && p[k] < p[k + 1];
    assert UnitAt(e, p[k + 1]) && UnitAt(e, p[k]);
  }

  // ----- every move keeps validity

  lemma ExchangeKeepsElements(e: Expr, n: nat, i: nat, j: nat)
    requires Elements(e, n) && i < j < |e|
    ensures Elements(e[i := e[j]][j := e[i]], n)
  {
    var f := e[i := e[j]][j := e[i]];
    forall u | 0 <= u < n ensures u in f {
      assert u in e;
      var k :| 0 <= k < |e| && e[k] == u;
      assert f[if k == i then j else if k == j then i else k] == u;
    }
  }

  lemma M1KeepsValid(e: Expr, n: nat, pos: int)
    requires ValidNpe(e, n) && Offered(e, M1(pos))
    ensures var f := Apply(e, M1(pos)); f.Some? && ValidNpe(f.value, n) && SameKinds(e, f.value)
  {
    M1Inside(e, n, pos);
    var i := NextUnit(e, pos + 1);
    var f := e[pos := e[i]][i := e[pos]];
    ExchangeKeepsElements(e, n, pos, i);
    SameKindsTables(e, f);
    forall k | 0 <= k < |f| - 1 && f[k] < 0 ensures f[k] != f[k + 1] { assert e[k] == f[k]; }
  }

  lemma InvertedElements(e: Expr, n: nat, pos: nat)
    requires Elements(e, n) && pos < |e|
    ensures Elements(InvertChain(e, pos), n) && SameKinds(e, InvertChain(e, pos))
  {
    var f := InvertChain(e, pos);
    assert forall k :: 0 <= k < |e| ==> if pos <= k < NextUnit(e, pos) then f[k] == OtherCut(e[k]) else f[k] == e[k];
    forall u | 0 <= u < n ensures u in f {
      assert u in e;
      var k :| 0 <= k < |e| && e[k] == u;
      assert f[k] == u;
    }
  }

  lemma InvertedNormalized(e: Expr, n: nat, pos: nat)
    requires Elements(e, n) && Normalized(e) && ChainAt(e, pos)
    ensures Normalized(InvertChain(e, pos))
  {
    var f := InvertChain(e, pos);
    forall k | 0 <= k < |f| - 1 && f[k] < 0 ensures f[k] != f[k + 1] {
      assert e[k] < 0 && e[k] != e[k + 1];
    }
  }

  lemma M2KeepsValid(e: Expr, n: nat, pos: int)
    requires ValidNpe(e, n) && Offered(e, M2(pos))
    ensures var f := Apply(e, M2(pos)); f.Some? && ValidNpe(f.value, n) && SameKinds(e, f.value)
  {
    ChainsBelowExact(e, |e|);
    hide Cuts, ChainsBelow, InvertChain, Normalized, Elements, Balloted, SameKinds;
    InvertedElements(e, n, pos);
    SameKindsTables(e, InvertChain(e, pos));
    InvertedNormalized(e, n, pos);
  }

  /** Exchanging neighbours changes the cut count of exactly one prefix. */
  lemma {:induction false} SwappedCuts(e: Expr, pos: nat, k: nat)
    requires pos + 1 < |e| && k <= |e|
    ensures Cuts(Swapped(e, pos), k) ==
            if k == pos + 1 then Cuts(e, pos) + (if e[pos + 1] < 0 then 1 else 0) else Cuts(e, k)
  {
    if k > 0 { SwappedCuts(e, pos, k - 1); }
  }

  lemma M3KeepsValid(e: Expr, n: nat, pos: int)
    requires ValidNpe(e, n) && Offered(e, M3(pos)) && Apply(e, M3(pos)).Some?
    ensures ValidNpe(Apply(e, M3(pos)).value, n)
  {
    hide Elements;
    FlipInside(e, n, pos);
    var f := Swapped(e, pos);
    ExchangeKeepsElements(e, n, pos, pos + 1);
    forall k | 0 <= k <= |f| ensures k >= 1 ==> Depth(f, k) >= 1 {
      SwappedCuts(e, pos, k);
      if k >= 1 {
        assert Depth(e, k) >= 1;
        if k == pos + 1 { assert Depth(e, pos) >= 1; }
      }
    }
    SwappedCuts(e, pos, |e|);
    forall k | 0 <= k < |f| - 1 && f[k] < 0 ensures f[k] != f[k + 1] {
      if k < pos - 1 || k > pos + 1 { assert e[k] == f[k] && e[k + 1] == f[k + 1]; }
    }
  }

  /** Every offered move that is not refused leads from a valid expression to a valid one; M1 and M2
      are never refused. */
  lemma MoveKeepsValid(e: Expr, n: nat, m: Move)
    requires ValidNpe(e, n) && Offered(e, m)
    ensures Apply(e, m).Some? ==> ValidNpe(Apply(e, m).value, n)
    ensures !m.M3? ==> Apply(e, m).Some?
  {
    match m
    case M1(pos) => M1KeepsValid(e, n, pos);
    case M2(pos) => M2KeepsValid(e, n, pos);
    case M3(pos) => if Apply(e, m).Some? { M3KeepsValid(e, n, pos); }
  }

  // ----- every move is undone by itself

  lemma {:induction false} NextUnitSameKinds(e: Expr, f: Expr, i: nat)
    requires SameKinds(e, f) && i <= |e|
    ensures NextUnit(e, i) == NextUnit(f, i)
    decreases |e| - i
  {
    if i < |e| && e[i] < 0 { NextUnitSameKinds(e, f, i + 1); }
  }

  lemma M1Undone(e: Expr, n: nat, pos: int)
    requires ValidNpe(e, n) && Offered(e, M1(pos))
    ensures var f := Apply(e, M1(pos)); f.Some? && Offered(f.value, M1(pos)) && Apply(f.value, M1(pos)) == Some(e)
  {
    M1KeepsValid(e, n, pos); M1Inside(e, n, pos);
    var f := Apply(e, M1(pos)).value;
    SameKindsTables(e, f);
    NextUnitSameKinds(e, f, pos + 1);
    var i := NextUnit(e, pos + 1);
    assert f[pos := f[i]][i := f[pos]] == e;
  }

  lemma M2Undone(e: Expr, n: nat, pos: int)
    requires ValidNpe(e, n) && Offered(e, M2(pos))
    ensures var f := Apply(e, M2(pos)); f.Some? && Offered(f.value, M2(pos)) && Apply(f.value, M2(pos)) == Some(e)
  {
    hide Cuts, ChainsBelow, InvertChain, Normalized, Balloted, SameKinds;
    M2KeepsValid(e, n, pos);
    ChainsBelowExact(e, |e|);
    var f := InvertChain(e, pos);
    SameKindsTables(e, f);
    InvertedTwice(e, n, pos);
  }

  lemma InvertedTwice(e: Expr, n: nat, pos: nat)
    requires Elements(e, n) && pos < |e| && SameKinds(e, InvertChain(e, pos))
    ensures InvertChain(InvertChain(e, pos), pos) == e
  {
    NextUnitSameKinds(e, InvertChain(e, pos), pos);
  }

  lemma M3Undone(e: Expr, n: nat, pos: int)
    requires ValidNpe(e, n) && Offered(e, M3(pos)) && Apply(e, M3(pos)).Some?
    ensures var f := Apply(e, M3(pos)).value; Offered(f, M3(pos)) && Apply(f, M3(pos)) == Some(e)
  {
    FlipInside(e, n, pos);
    var f := Swapped(e, pos);
    FlipsBelowExact(f, |f|);
    SwappedCuts(e, pos, pos + 2);
    assert Depth(e, pos + 1) >= 1;
    assert Swapped(f, pos) == e;
  }

  /** Each move that succeeds is undone by the same move at the same position, which is offered again. */
  lemma MoveUndone(e: Expr, n: nat, m: Move)
    requires ValidNpe(e, n) && Offered(e, m) && Apply(e, m).Some?
    ensures var f := Apply(e, m).value; Offered(f, m) && Apply(f, m) == Some(e)
  {
    match m
    case M1(pos) => M1Undone(e, n, pos);
    case M2(pos) => M2Undone(e, n, pos);
    case M3(pos) => M3Undone(e, n, pos);
  }

  // ----- what the moves do, and when the third kind is refused

  /** An offered exchange of units finds the next unit after `pos` and exchanges the two, nothing else. */
  lemma M1Effect(e: Expr, n: nat, pos: int)
    requires ValidNpe(e, n) && Offered(e, M1(pos))
    ensures exists q: nat :: 0 <= pos < q < |e| && e[pos] >= 0 && e[q] >= 0 && (forall k :: pos < k < q ==> e[k] < 0)
                             && Apply(e, M1(pos)) == Some(e[pos := e[q]][q := e[pos]])
  {
    M1Inside(e, n, pos);
    var q := NextUnit(e, pos + 1);
    assert Apply(e, M1(pos)) == Some(e[pos := e[q]][q := e[pos]]);
  }

  /** An offered inversion exchanges vertical and horizontal in one whole run of cuts, nothing else. */
  lemma M2Effect(e: Expr, n: nat, pos: int)
    requires ValidNpe(e, n) && Offered(e, M2(pos))
    ensures Apply(e, M2(pos)).Some? && |Apply(e, M2(pos)).value| == |e| && 0 < pos < |e| && e[pos - 1] >= 0
    ensures var f := Apply(e, M2(pos)).value;
            exists q: nat :: pos < q <= |e| && (forall k :: pos <= k < q ==> e[k] < 0) && (q < |e| ==> e[q] >= 0)
              && (forall k :: pos <= k < q ==> f[k] == if e[k] == CUT_VERTICAL then CUT_HORIZONTAL else CUT_VERTICAL)
              && forall k :: 0 <= k < |e| && !(pos <= k < q) ==> f[k] == e[k]
  {
    ChainsBelowExact(e, |e|);
    ValidEnds(e, n);
    var q, f := NextUnit(e, pos), Apply(e, M2(pos)).value;
    assert pos < q && forall k :: 0 <= k < |e| && !(pos <= k < q) ==> f[k] == e[k];
  }

  /** An offered exchange of a unit and a cut is carried out exactly when the result is a valid expression. */
  lemma M3Exact(e: Expr, n: nat, pos: int)
    requires ValidNpe(e, n) && Offered(e, M3(pos))
    ensures 0 < pos < |e| - 1 && (e[pos] < 0 <==> e[pos + 1] >= 0)
    ensures var f := e[pos := e[pos + 1]][pos + 1 := e[pos]];
            Apply(e, M3(pos)) == if ValidNpe(f, n) then Some(f) else None
  {
    FlipInside(e, n, pos);
    var f := Swapped(e, pos);
    if SwapCutUnitAllowed(e, pos) {
      M3KeepsValid(e, n, pos);
    } else {
      SwappedCuts(e, pos, pos + 1);
      if e[pos] >= 0 {
        if e[pos - 1] == e[pos + 1] {
          assert f[pos - 1] == f[pos] < 0;
        } else {
          assert Cuts(e, pos + 2) == Cuts(e, pos) + 1;
          assert Depth(f, pos + 1) < 1;
        }
      } else {
        assert f[pos + 1] == f[pos + 2] < 0;
      }
    }
  }
}
