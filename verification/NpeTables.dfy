/** How the derived tables of a Polish expression change under an M3 exchange. */
module NpeTables {
  import opened Polish

  lemma {:induction false} SwappedUnitsPrefix(e: Expr, pos: nat, k: nat)
    requires pos + 1 < |e| && e[pos] >= 0 && e[pos + 1] < 0 && k <= |e|
    ensures var p, idx := UnitsBelow(e, k), |UnitsBelow(e, pos)|;
            if k <= pos then UnitsBelow(Swapped(e, pos), k) == p
            else if k == pos + 1 then p == UnitsBelow(Swapped(e, pos), k) + [pos] && |p| == idx + 1
            else idx < |p| && p[idx] == pos && UnitsBelow(Swapped(e, pos), k) == p[idx := pos + 1]
  {
    if k > 0 { SwappedUnitsPrefix(e, pos, k - 1); }
  }

  /** Moving a unit one place right over a cut: one entry of the unit table grows by one and one
      ballot count grows by one. */
  lemma SwappedTables(e: Expr, pos: nat) returns (idx: nat)
    requires pos + 1 < |e| && e[pos] >= 0 && e[pos + 1] < 0
    ensures idx < |UnitPositions(e)| && UnitPositions(e)[idx] == pos
    ensures UnitPositions(Swapped(e, pos)) == UnitPositions(e)[idx := pos + 1]
    ensures BallotCounts(Swapped(e, pos)) == BallotCounts(e)[pos := BallotCounts(e)[pos] + 1]
  {
    SwappedUnitsPrefix(e, pos, |e|);
    idx := |UnitsBelow(e, pos)|;
    forall i | 0 <= i < |e| ensures BallotCounts(Swapped(e, pos))[i]
        == BallotCounts(e)[pos := BallotCounts(e)[pos] + 1][i] {
      SwappedCuts(e, pos, i + 1);
    }
  }

  lemma RetreatedTables(e: Expr, pos: nat) returns (idx: nat)
    requires pos + 1 < |e| && e[pos] < 0 && e[pos + 1] >= 0
    ensures idx < |UnitPositions(e)| && UnitPositions(e)[idx] == pos + 1
    ensures UnitPositions(Swapped(e, pos)) == UnitPositions(e)[idx := pos]
    ensures |BallotCounts(e)| == |e| && BallotCounts(Swapped(e, pos))
        == BallotCounts(e)[pos := BallotCounts(e)[pos] - 1]
  {
    hide UnitPositions, BallotCounts;
    var f := Swapped(e, pos);
    assert Swapped(f, pos) == e;
    CountsLength(e);
    CountsLength(f);
    idx := SwappedTables(f, pos);
    assert UnitPositions(e)[idx := pos] == UnitPositions(f);
    assert BallotCounts(e)[pos := BallotCounts(e)[pos] - 1] == BallotCounts(f);
  }

  lemma CountsLength(e: Expr)
    ensures |BallotCounts(e)| == |e|
  {
  }

  lemma PositionsAscend(e: Expr)
    ensures forall i, j :: 0 <= i < j < |UnitPositions(e)| ==> UnitPositions(e)[i] < UnitPositions(e)[j]
  {
    UnitsBelowExact(e, |e|);
  }

  /** A valid expression offers at least one chain and one flip. */
  lemma TablesNonempty(e: Expr, n: nat)
    requires ValidNpe(e, n)
    ensures |ChainPositions(e)| > 0 && |FlipPositions(e)| > 0 && |UnitPositions(e)| == n
  {
    ValidEnds(e, n);
    var i := 1;
    while e[i] >= 0
      invariant 1 <= i < |e| && e[i - 1] >= 0
      decreases |e| - i
    {
      i := i + 1;
    }
    ChainsBelowExact(e, |e|);
    FlipsBelowExact(e, |e|);
    assert ChainAt(e, i) && FlipAt(e, i - 1);
    assert i in ChainPositions(e) && i - 1 in FlipPositions(e);
  }

  lemma {:induction false} ChainsInRun(e: Expr, i: nat, j: nat)
    requires i < j <= |e| && forall k :: i <= k < j ==> e[k] < 0
    ensures ChainsBelow(e, j) == ChainsBelow(e, i + 1)
  {
    if i + 1 < j { ChainsInRun(e, i, j - 1); }
  }

  ghost predicate NormalizedBelow(e: Expr, k: nat)
    requires k <= |e|
  {
    Normalized(e[..k])
  }

  lemma ChainsStart(e: Expr)
    ensures ChainsBelow(e, 0) == [] && NormalizedBelow(e, 0) && (NormalizedBelow(e, |e|) <==> Normalized(e))
  {
    assert e[..|e|] == e;
  }

  lemma OperandPassed(e: Expr, i: nat)
    requires i < |e| && e[i] >= 0 && NormalizedBelow(e, i)
    ensures ChainsBelow(e, i + 1) == ChainsBelow(e, i) && NormalizedBelow(e, i + 1)
  {
    forall k | 0 <= k < i && e[k] < 0 ensures e[k] != e[k + 1] {
      if k < i - 1 { assert e[..i][k] != e[..i][k + 1]; }
    }
  }

  /** There is room for one more chain. */
  lemma ChainsFit(e: Expr, i: nat)
    requires i < |e| && e[i] < 0
    ensures |ChainsBelow(e, i)| < Cuts(e, |e|)
  {
    CutsMonotone(e, i + 1, |e|);
  }

  lemma ChainSkipped(e: Expr, i: nat, j: nat)
    requires i < j <= |e| && NormalizedBelow(e, i) && (i == 0 || e[i - 1] >= 0)
    requires forall k :: i <= k < j ==> e[k] < 0
    requires forall k :: i < k < j ==> e[k - 1] != e[k]
    ensures ChainsBelow(e, j) == ChainsBelow(e, i) + [i] && NormalizedBelow(e, j)
  {
    ChainsInRun(e, i, j);
    forall k | 0 <= k < j - 1 && e[k] < 0 ensures e[k] != e[k + 1] {
      if k < i - 1 { assert e[..i][k] != e[..i][k + 1]; } else { assert e[k + 1 - 1] != e[k + 1]; }
    }
  }

  /** `m` is the move at entry `i` of the table for its kind. */
  predicate Drawn(e: Expr, m: Move, i: nat) {
    match m
    case M1(pos) => i + 1 < |UnitPositions(e)| && pos == UnitPositions(e)[i]
    case M2(pos) => i < |ChainPositions(e)| && pos == ChainPositions(e)[i]
    case M3(pos) => i < |FlipPositions(e)| && pos == FlipPositions(e)[i]
  }

  lemma DrawnIsOffered(e: Expr, m: Move, i: nat)
    requires Drawn(e, m, i)
    ensures Offered(e, m)
    ensures m.M2? ==> ChainAt(e, m.pos)
    ensures m.M3? ==> FlipAt(e, m.pos)
  {
    match m
    case M1(pos) => var p := UnitPositions(e); assert p[..|p| - 1][i] == pos;
    case M2(pos) => ChainsBelowExact(e, |e|);
    case M3(pos) => FlipsBelowExact(e, |e|);
  }

  /** Moves of the first two kinds drawn from the tables of a valid expression always succeed. */
  lemma SureMove(e: Expr, n: nat, m: Move, i: nat)
    requires ValidNpe(e, n) && Drawn(e, m, i) && !m.M3?
    ensures Apply(e, m).Some?
  {
    DrawnIsOffered(e, m, i);
    match m
    case M1(pos) => M1KeepsValid(e, n, pos);
    case M2(pos) => M2KeepsValid(e, n, pos);
  }
}
