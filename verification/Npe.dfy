/** The floorplanner's NPE object: the element array with its cached tables, edited in place. */
module Npe {
  import opened Wrappers
  import opened Polish
  import opened NpeTables
  import opened MoveSpace

  const MAX_MOVES: nat := 16

  datatype Outcome = Done | Refused | Fatal

  class NPE {
    const elements: array<int>
    const unitPos: array<int>
    const flipPos: array<int>
    const chainPos: array<int>
    const ballotCount: array<int>
    var nUnits: nat
    var nFlips: nat
    var nChains: nat

    ghost function Value(): Expr
      reads elements
    {
      elements[..]
    }

    ghost predicate Shaped(n: nat)
      reads this
    {
      && n >= 2 && elements.Length == 2 * n - 1
      && unitPos.Length == n && chainPos.Length == n - 1
      && flipPos.Length == elements.Length && ballotCount.Length == elements.Length
      && elements != unitPos && elements != flipPos && elements != chainPos && elements != ballotCount
      && unitPos != flipPos && unitPos != chainPos && unitPos != ballotCount
      && flipPos != chainPos && flipPos != ballotCount && chainPos != ballotCount
    }

    ghost predicate UnitTable()
      reads this, elements, unitPos
    {
      nUnits == |UnitPositions(Value())| == unitPos.Length && unitPos[..] == UnitPositions(Value())
    }

    ghost predicate FlipTable()
      reads this, elements, flipPos
    {
      nFlips == |FlipPositions(Value())| <= flipPos.Length && flipPos[..nFlips] == FlipPositions(Value())
    }

    ghost predicate ChainTable()
      reads this, elements, chainPos
    {
      nChains == |ChainPositions(Value())| <= chainPos.Length && chainPos[..nChains] == ChainPositions(Value())
    }

    ghost predicate BallotTable()
      reads this, elements, ballotCount
    {
      ballotCount[..] == BallotCounts(Value())
    }

    /** The elements form a valid expression and every table equals its recomputation from scratch. */
    ghost predicate Valid()
      reads this, elements, unitPos, flipPos, chainPos, ballotCount
    {
      Shaped(nUnits) && ValidNpe(Value(), nUnits) && UnitTable() && FlipTable() && ChainTable() && BallotTable()
    }

    method FillUnitPos()
      requires Shaped(unitPos.Length) && Cuts(Value(), elements.Length) == unitPos.Length - 1
      modifies this`nUnits, unitPos
      ensures UnitTable()
    {
      var j := 0;
      for i := 0 to elements.Length
        invariant 0 <= j <= unitPos.Length && unitPos[..j] == UnitsBelow(Value(), i)
      {
        CutsMonotone(Value(), i + 1, elements.Length);
        if elements[i] >= 0 {
          unitPos[j] := i;
          j := j + 1;
        }
      }
      nUnits := j;
    }

    method FillFlipPos()
      requires Shaped(unitPos.Length)
      modifies this`nFlips, flipPos
      ensures FlipTable()
    {
      var j := 0;
      for i := 0 to elements.Length - 1
        invariant 0 <= j <= i && flipPos[..j] == FlipsBelow(Value(), i)
      {
        if (elements[i] < 0 && elements[i + 1] >= 0) || (elements[i] >= 0 && elements[i + 1] < 0) {
          flipPos[j] := i;
          j := j + 1;
        }
      }
      nFlips := j;
    }

    /** Skips the run of cuts that starts at `start`; stops at two equal neighbours. */
    method SkipChain(start: nat) returns (i: nat, ok: bool)
      requires start < elements.Length && elements[start] < 0
      ensures start < i <= elements.Length && forall k :: start <= k < i ==> elements[k] < 0
      ensures ok ==> (i == elements.Length || elements[i] >= 0)
      ensures ok ==> forall k :: start < k < i ==> elements[k - 1] != elements[k]
      ensures !ok ==> !Normalized(Value())
    {
      var prev := elements[start];
      i := start + 1;
      while i < elements.Length && elements[i] < 0
        invariant start < i <= elements.Length && prev == elements[i - 1]
        invariant forall k :: start <= k < i ==> elements[k] < 0
        invariant forall k :: start < k < i ==> elements[k - 1] != elements[k]
      {
        if elements[i] == prev {
          i := i + 1;
          return i, false;
        }
        prev := elements[i];
        i := i + 1;
      }
      return i, true;
    }

    /** Returns false where the code stops with "NPE not normalized". */
    method FillChainPos() returns (ok: bool)
      requires Shaped(unitPos.Length) && Cuts(Value(), elements.Length) == unitPos.Length - 1
      modifies this`nChains, chainPos
      ensures ok <==> Normalized(Value())
      ensures ok ==> ChainTable()
    {
      hide ChainsBelow, NormalizedBelow, Cuts, Normalized;
      var i, j := 0, 0;
      ghost var e := Value();
      ChainsStart(e);
      while i < elements.Length
        invariant 0 <= i <= elements.Length && 0 <= j <= chainPos.Length
        invariant chainPos[..j] == ChainsBelow(e, i)
        invariant 0 < i < elements.Length ==> e[i - 1] >= 0 || e[i] >= 0
        invariant NormalizedBelow(e, i)
      {
        if elements[i] < 0 {
          ChainsFit(e, i);
          chainPos[j] := i;
          j := j + 1;
          assert chainPos[..j] == ChainsBelow(e, i) + [i];
          var next;
          next, ok := SkipChain(i);
          if !ok {
            return;
          }
          ChainSkipped(e, i, next);
          i := next;
        } else {
          OperandPassed(e, i);
          i := i + 1;
        }
      }
      nChains := j;
      return true;
    }

    method FillBallotCount()
      requires Shaped(unitPos.Length)
      modifies ballotCount
      ensures BallotTable()
    {
      var count := 0;
      for i := 0 to elements.Length
        invariant count == Cuts(Value(), i)
        invariant forall k :: 0 <= k < i ==> ballotCount[k] == Cuts(Value(), k + 1)
      {
        if elements[i] < 0 {
          count := count + 1;
        }
        ballotCount[i] := count;
      }
    }

    /** Computes all tables of a valid expression. */
    method FillTables()
      requires Shaped(unitPos.Length) && ValidNpe(Value(), unitPos.Length)
      modifies this`nUnits, this`nFlips, this`nChains, unitPos, flipPos, chainPos, ballotCount
      ensures Valid() && nUnits == unitPos.Length
    {
      hide UnitPositions, FlipPositions, ChainPositions, BallotCounts, Elements, Balloted, Normalized;
      FillUnitPos();
      FillFlipPos();
      var ok := FillChainPos();
      FillBallotCount();
    }

    /** Writes 0 1 V 2 V ... */
    method FillInitial(n: nat)
      requires n >= 2 && elements.Length == 2 * n - 1
      modifies elements
      ensures Value() == MoveSpace.Initial(n)
    {
      elements[0] := 0;
      var i := 1;
      while i < elements.Length
        invariant 1 <= i <= elements.Length && i % 2 == 1
        invariant forall k :: 0 <= k < i ==> elements[k] == MoveSpace.Initial(n)[k]
      {
        elements[i] := (i + 1) / 2;
        elements[i + 1] := CUT_VERTICAL;
        i := i + 2;
      }
    }

    /** The starting solution of the annealer. */
    constructor Initial(n: nat)
      requires n >= 2
      ensures Valid() && nUnits == n && Value() == MoveSpace.Initial(n)
      ensures fresh(elements) && fresh(unitPos) && fresh(flipPos) && fresh(chainPos) && fresh(ballotCount)
    {
      elements := new int[2 * n - 1];
      unitPos := new int[n];
      flipPos := new int[2 * n - 1];
      chainPos := new int[n - 1];
      ballotCount := new int[2 * n - 1];
      nUnits := n;
      new;
      hide MoveSpace.Initial, ValidNpe;
      FillInitial(n);
      InitialValid(n);
      FillTables();
    }

    /** A field-by-field copy. */
    constructor Duplicate(expr: NPE)
      requires expr.Valid()
      ensures Valid() && Value() == expr.Value() && nUnits == expr.nUnits
      ensures nFlips == expr.nFlips && nChains == expr.nChains
      ensures fresh(elements) && fresh(unitPos) && fresh(flipPos) && fresh(chainPos) && fresh(ballotCount)
    {
      elements := new int[expr.elements.Length];
      unitPos := new int[expr.nUnits];
      flipPos := new int[expr.elements.Length];
      chainPos := new int[expr.nUnits - 1];
      ballotCount := new int[expr.elements.Length];
      nUnits := expr.nUnits;
      nFlips := expr.nFlips;
      nChains := expr.nChains;
      new;
      CopyPrefix(elements, expr.elements, expr.elements.Length);
      CopyPrefix(unitPos, expr.unitPos, nUnits);
      CopyPrefix(flipPos, expr.flipPos, nFlips);
      CopyPrefix(chainPos, expr.chainPos, nChains);
      CopyPrefix(ballotCount, expr.ballotCount, expr.elements.Length);
      assert elements[..] == elements[..elements.Length] == expr.elements[..];
      assert unitPos[..] == unitPos[..nUnits] == expr.unitPos[..];
      assert ballotCount[..] == ballotCount[..elements.Length] == expr.ballotCount[..];
    }

    static method CopyPrefix(dst: array<int>, src: array<int>, n: nat)
      requires dst != src && n <= dst.Length && n <= src.Length
      modifies dst
      ensures dst[..n] == src[..n]
    {
      for i := 0 to n
        invariant dst[..i] == src[..i]
      {
        dst[i] := src[i];
      }
    }

    /** Move M1. Returns false where the code stops with "unable to find adjacent unit". */
    method SwapUnits(pos: nat) returns (ok: bool)
      requires Valid() && pos < elements.Length
      modifies elements
      ensures ok == Polish.SwapUnits(old(Value()), pos).Some?
      ensures Value() == if ok then Polish.SwapUnits(old(Value()), pos).value else old(Value())
      ensures Offered(old(Value()), M1(pos)) ==> ok && Valid()
    {
      ghost var e := Value();
      var i := pos + 1;
      while i < elements.Length && elements[i] < 0
        invariant pos < i <= elements.Length && NextUnit(e, pos + 1) == NextUnit(e, i)
      {
        i := i + 1;
      }
      if i >= elements.Length {
        assert !Offered(e, M1(pos)) by { if Offered(e, M1(pos)) { M1Inside(e, nUnits, pos); } }
        return false;
      }
      elements[pos], elements[i] := elements[i], elements[pos];
      if Offered(e, M1(pos)) {
        M1KeepsValid(e, nUnits, pos);
        SameKindsTables(e, Value());
      }
      return true;
    }

    /** Exchanges vertical and horizontal from `pos` to the end of its run of cuts. */
    method InvertRun(pos: nat)
      requires pos < elements.Length && elements[pos] < 0 && Normalized(Value())
      requires forall i :: 0 <= i < elements.Length && elements[i] < 0 ==> IsCut(elements[i])
      modifies elements
      ensures Value() == Polish.InvertChain(old(Value()), pos)
    {
      hide InvertedTo, NextUnit, Polish.InvertChain;
      ghost var e := Value();
      InvertedNone(e, pos);
      InvertedMore(e, e, pos, pos);
      NextOf(e, pos);
      var i, prev := pos + 1, elements[pos];
      elements[pos] := if elements[pos] == CUT_VERTICAL then CUT_HORIZONTAL else CUT_VERTICAL;
      while i < elements.Length && elements[i] < 0
        invariant pos < i <= elements.Length && prev == e[i - 1] < 0
        invariant NextUnit(e, pos) == NextUnit(e, i)
        invariant InvertedTo(e, Value(), pos, i)
      {
        InvertedMore(e, Value(), pos, i);
        NextOf(e, i);
        assert elements[i] != prev;
        prev := elements[i];
        if elements[i] == CUT_VERTICAL {
          elements[i] := CUT_HORIZONTAL;
        } else {
          elements[i] := CUT_VERTICAL;
        }
        i := i + 1;
      }
      InvertedAll(e, Value(), pos, i);
    }

    /** Move M2. Returns false where the code stops with "invalid NPE in invert_chain"; the other two
        stops of the routine are unreachable. */
    method InvertChain(pos: nat) returns (ok: bool)
      requires Valid() && pos < elements.Length
      modifies elements
      ensures ok <==> old(elements[pos]) < 0
      ensures Value() == if ok then Polish.InvertChain(old(Value()), pos) else old(Value())
      ensures Offered(old(Value()), M2(pos)) ==> ok && Valid()
    {
      ghost var e := Value();
      assert Offered(e, M2(pos)) ==> e[pos] < 0 by { ChainsBelowExact(e, |e|); }
      if elements[pos] != CUT_VERTICAL && elements[pos] != CUT_HORIZONTAL {
        return false;
      }
      InvertRun(pos);
      if Offered(e, M2(pos)) {
        M2KeepsValid(e, nUnits, pos);
        SameKindsTables(e, Value());
      }
      return true;
    }

    /** Binary search in the ascending unit table; shifts the entry equal to `pos` by `delta`. */
    method UpdateUnitPos(pos: int, delta: int, start: int, end: int) returns (found: bool)
      requires 0 <= start <= end + 1 <= unitPos.Length
      requires forall i, j :: 0 <= i < j < unitPos.Length ==> unitPos[i] < unitPos[j]
      modifies unitPos
      ensures found <==> pos in old(unitPos[start..end + 1])
      ensures !found ==> unitPos[..] == old(unitPos[..])
      ensures forall k :: start <= k <= end && old(unitPos[k]) == pos
                ==> unitPos[..] == old(unitPos[..])[k := pos + delta]
      decreases end - start + 1
    {
      if start > end {
        return false;
      }
      var mid := (start + end) / 2;
      if unitPos[mid] == pos {
        unitPos[mid] := unitPos[mid] + delta;
        assert old(unitPos[start..end + 1])[mid - start] == pos;
        return true;
      } else if unitPos[mid] > pos {
        found := UpdateUnitPos(pos, delta, start, mid - 1);
        assert forall k :: mid <= k <= end ==> old(unitPos[k]) > pos;
      } else {
        found := UpdateUnitPos(pos, delta, mid + 1, end);
        assert forall k :: start <= k <= mid ==> old(unitPos[k]) < pos;
      }
    }

    /** Move M3 at a position inside the expression; a refused move changes nothing. The two stops
        with "unit position not found" are unreachable. */
    method SwapCutUnit(pos: int) returns (outcome: Outcome)
      requires Valid() && (0 < pos < elements.Length - 1 ==> FlipAt(Value(), pos))
      modifies this`nFlips, this`nChains, elements, unitPos, flipPos, chainPos, ballotCount
      ensures Valid()
      ensures outcome == Fatal <==> !(0 < pos < elements.Length - 1)
      ensures outcome == Done <==> Apply(old(Value()), M3(pos)).Some?
      ensures outcome == Done ==> Value() == Apply(old(Value()), M3(pos)).value
      ensures outcome != Done ==> Value() == old(Value()) && nFlips == old(nFlips) && nChains == old(nChains)
    {
      if pos <= 0 || pos >= elements.Length - 1 {
        return Fatal;
      }
      ghost var e := Value();
      ghost var f := Swapped(e, pos);
      ghost var n := nUnits;
      FlipsBelowExact(e, |e|);
      assert pos in FlipPositions(e);
      if elements[pos] >= 0 {
        if elements[pos - 1] == elements[pos + 1] {
          return Refused;
        }
        if 2 * ballotCount[pos + 1] >= pos + 1 {
          return Refused;
        }
        AdvanceUnit(pos);
      } else {
        if pos < elements.Length - 2 && elements[pos] == elements[pos + 2] {
          return Refused;
        }
        RetreatUnit(pos);
      }
      M3KeepsValid(e, n, pos);
      elements[pos], elements[pos + 1] := elements[pos + 1], elements[pos];
      assert Value() == f;
      FillFlipPos();
      var ok := FillChainPos();
      return Done;
    }

    /** Carries out a move drawn from entry `i` of the table for its kind. */
    method Make(m: Move, i: nat) returns (done: bool, ghost made: Move)
      requires Valid() && Drawn(Value(), m, i)
      modifies this`nFlips, this`nChains, elements, unitPos, flipPos, chainPos, ballotCount
      ensures Valid() && made == m && Offered(old(Value()), m)
      ensures done <==> Apply(old(Value()), m).Some?
      ensures Value() == if done then Apply(old(Value()), m).value else old(Value())
    {
      made := m;
      ghost var e := Value();
      DrawnIsOffered(e, m, i);
      match m
      case M1(pos) =>
        M1Inside(e, nUnits, pos);
        done := SwapUnits(pos);
      case M2(pos) =>
        done := InvertChain(pos);
      case M3(pos) =>
        FlipInside(e, nUnits, pos);
        var outcome := SwapCutUnit(pos);
        done := outcome == Done;
    }

    /** The cached unit and ballot tables when the unit at `pos` moves right over a cut. */
    method AdvanceUnit(pos: nat)
      requires Valid() && pos + 1 < elements.Length && elements[pos] >= 0 && elements[pos + 1] < 0
      modifies unitPos, ballotCount
      ensures unitPos[..] == UnitPositions(Swapped(Value(), pos))
      ensures ballotCount[..] == BallotCounts(Swapped(Value(), pos))
    {
      hide UnitPositions, BallotCounts, Swapped, ValidNpe, NPE.FlipTable, NPE.ChainTable;
      ghost var idx := SwappedTables(Value(), pos);
      CountsLength(Value());
      PositionsAscend(Value());
      assert unitPos[0..nUnits] == unitPos[..];
      assert unitPos[idx] == pos;
      var found := UpdateUnitPos(pos, 1, 0, nUnits - 1);
      assert found;
      ballotCount[pos] := ballotCount[pos] + 1;
    }

    /** The cached unit and ballot tables when the unit at `pos + 1` moves left over a cut. */
    method RetreatUnit(pos: nat)
      requires Valid() && pos + 1 < elements.Length && elements[pos] < 0 && elements[pos + 1] >= 0
      modifies unitPos, ballotCount
      ensures unitPos[..] == UnitPositions(Swapped(Value(), pos))
      ensures ballotCount[..] == BallotCounts(Swapped(Value(), pos))
    {
      hide UnitPositions, BallotCounts, Swapped, ValidNpe, NPE.FlipTable, NPE.ChainTable;
      ghost var idx := RetreatedTables(Value(), pos);
      PositionsAscend(Value());
      assert unitPos[0..nUnits] == unitPos[..];
      assert unitPos[idx] == pos + 1;
      var found := UpdateUnitPos(pos + 1, -1, 0, nUnits - 1);
      assert found;
      ballotCount[pos] := ballotCount[pos] - 1;
    }
  }

  /** The cuts from `pos` to before `i` are exchanged. */
  ghost predicate InvertedTo(e: Expr, s: seq<int>, pos: nat, i: nat) {
    |s| == |e| && forall k :: 0 <= k < |e| ==> s[k] == if pos <= k < i then OtherCut(e[k]) else e[k]
  }

  lemma InvertedNone(e: Expr, pos: nat)
    ensures InvertedTo(e, e, pos, pos)
  {
  }

  lemma NextOf(e: Expr, i: nat)
    requires i < |e| && e[i] < 0
    ensures NextUnit(e, i) == NextUnit(e, i + 1)
  {
  }

  lemma InvertedAll(e: Expr, s: seq<int>, pos: nat, i: nat)
    requires InvertedTo(e, s, pos, i) && pos < i <= |e| && NextUnit(e, pos) == NextUnit(e, i)
    requires i < |e| ==> s[i] >= 0
    ensures s == Polish.InvertChain(e, pos)
  {
  }

  lemma InvertedMore(e: Expr, s: seq<int>, pos: nat, i: nat)
    requires InvertedTo(e, s, pos, i) && pos <= i < |e|
    ensures |s| == |e| && s[i] == e[i] && InvertedTo(e, s[i := OtherCut(e[i])], pos, i + 1)
  {
  }

  /** Moves of the third kind that are offered but refused. */
  ghost predicate AllRefused(e: Expr, ms: seq<Move>) {
    forall k :: 0 <= k < |ms| ==> ms[k].M3? && Offered(e, ms[k]) && Apply(e, ms[k]) == None
  }

  /** Giving up can happen: in every initial expression the swap of unit 1 with the first cut is offered and
      refused, however often it is drawn. */
  lemma RefusedThroughout(n: nat, draws: nat)
    requires n >= 2
    ensures ValidNpe(Initial(n), n) && AllRefused(Initial(n), seq(draws, _ => M3(1)))
  {
    hide ValidNpe, Offered, Apply, Initial;
    InitialValid(n);
    RefusedAtStart(n);
  }

  lemma RefusedAtStart(n: nat)
    requires n >= 2
    ensures Offered(Initial(n), M3(1)) && Apply(Initial(n), M3(1)) == None
  {
    var e := Initial(n);
    FlipsBelowExact(e, |e|);
    assert FlipAt(e, 1);
    SkewedCuts(e, 3);
  }

  /** The copy after a try: moved by an offered move, or as it was. */
  ghost predicate Tried(e: Expr, f: Expr, done: bool, made: Move) {
    if done then Offered(e, made) && Apply(e, made) == Some(f) else f == e
  }

  /** One try to move a copy: adjacent units, a chain, or up to 16 swaps of a unit and a cut. Only the last
      kind can fail, when all 16 are refused. */
  method TryMove(expr: NPE, copy: NPE) returns (done: bool, ghost made: Move, ghost refused: seq<Move>)
    requires expr.Valid() && copy.Valid() && copy.nUnits == expr.nUnits && copy.Value() == expr.Value()
        && Separate(expr, copy)
    modifies copy`nFlips, copy`nChains, copy.elements, copy.unitPos, copy.flipPos, copy.chainPos, copy.ballotCount
    ensures copy.Valid() && Tried(expr.Value(), copy.Value(), done, made)
    ensures AllRefused(expr.Value(), refused) && |refused| <= MAX_MOVES && (done <==> |refused| < MAX_MOVES)
  {
    hide Offered, Apply, ValidNpe;
    ghost var e := expr.Value();
    TablesNonempty(e, expr.nUnits);
    refused := [];
    var kind: int :| 0 <= kind < 3;
    if kind == 0 {
      var i: int :| 0 <= i < expr.nUnits - 1;
      SureMove(e, expr.nUnits, M1(expr.unitPos[i]), i);
      done, made := copy.Make(M1(expr.unitPos[i]), i);
    } else if kind == 1 {
      var i: int :| 0 <= i < expr.nChains;
      SureMove(e, expr.nUnits, M2(expr.chainPos[i]), i);
      done, made := copy.Make(M2(expr.chainPos[i]), i);
    } else {
      done, made, refused := TrySwaps(expr, copy);
    }
  }

  /** Up to 16 draws of a swap of a unit and a cut, until one is carried out. */
  method TrySwaps(expr: NPE, copy: NPE) returns (done: bool, ghost made: Move, ghost refused: seq<Move>)
    requires expr.Valid() && copy.Valid() && copy.nUnits == expr.nUnits && copy.Value() == expr.Value()
        && Separate(expr, copy)
    modifies copy`nFlips, copy`nChains, copy.elements, copy.unitPos, copy.flipPos, copy.chainPos, copy.ballotCount
    ensures copy.Valid() && Tried(expr.Value(), copy.Value(), done, made)
    ensures AllRefused(expr.Value(), refused) && |refused| <= MAX_MOVES && (done <==> |refused| < MAX_MOVES)
  {
    hide Offered, Apply, ValidNpe;
    ghost var e := expr.Value();
    TablesNonempty(e, expr.nUnits);
    done, made, refused := false, M1(0), [];
    var tries := 0;
    while !done && tries < MAX_MOVES
      invariant tries <= MAX_MOVES && copy.Valid() && copy.nUnits == expr.nUnits && Tried(e, copy.Value(), done, made)
      invariant AllRefused(e, refused) && |refused| == if done then tries - 1 else tries
    {
      var i: int :| 0 <= i < expr.nFlips;
      done, made := copy.Make(M3(expr.flipPos[i]), i);
      if !done { refused := refused + [made]; }
      tries := tries + 1;
    }
  }

  /** The two objects share no table. */
  ghost predicate Separate(a: NPE, b: NPE)
    reads a, b
  {
    {a.elements, a.unitPos, a.flipPos, a.chainPos, a.ballotCount} !! {b.elements, b.unitPos, b.flipPos, b.chainPos,
        b.ballotCount}
  }

  /** One random annealing move on a copy. The random draws are arbitrary. `None` is the stop with
      "tried 16 moves, now giving up": it comes exactly when at least 15 tries failed before the first success,
      so that the code drops a success of the 16th try. Each failed try is 16 offered moves that are refused. */
  method MakeRandomMove(expr: NPE) returns (r: Option<NPE>, ghost failed: nat, ghost made: Option<Move>,
      ghost refused: seq<Move>)
    requires expr.Valid()
    ensures failed <= MAX_MOVES && (made.Some? <==> failed < MAX_MOVES) && (r == None <==> failed >= MAX_MOVES - 1)
    ensures AllRefused(expr.Value(), refused) && failed * MAX_MOVES <= |refused| < (failed + 1) * MAX_MOVES
    ensures made.Some? ==> Offered(expr.Value(), made.value) && Apply(expr.Value(), made.value).Some?
    ensures r.Some? ==> fresh(r.value) && r.value.Valid() && r.value.nUnits == expr.nUnits
    ensures r.Some? ==> Apply(expr.Value(), made.value) == Some(r.value.Value())
  {
    hide Offered, Apply, NPE.Valid, AllRefused;
    ghost var e := expr.Value();
    var copy := new NPE.Duplicate(expr);
    var done, count := false, 0;
    failed, made, refused := 0, None, [];
    NoneRefused(e);
    while !done && count < MAX_MOVES
      invariant count <= MAX_MOVES && copy.Valid() && copy.nUnits == expr.nUnits && Separate(expr, copy)
      invariant failed == if done then count - 1 else count
      invariant done <==> made.Some?
      invariant Tried(e, copy.Value(), done, if made.Some? then made.value else M1(0))
      invariant AllRefused(e, refused) && failed * MAX_MOVES <= |refused| < (failed + 1) * MAX_MOVES
      invariant !done ==> |refused| == failed * MAX_MOVES
    {
      ghost var move, more;
      done, move, more := TryMove(expr, copy);
      RefusedConcat(e, refused, more);
      refused := refused + more;
      count := count + 1;
      if done { made := Some(move); } else { failed := failed + 1; }
    }
    if count == MAX_MOVES {
      return None, failed, made, refused;
    }
    return Some(copy), failed, made, refused;
  }

  lemma NoneRefused(e: Expr)
    ensures AllRefused(e, [])
  {
  }

  lemma RefusedConcat(e: Expr, a: seq<Move>, b: seq<Move>)
    requires AllRefused(e, a) && AllRefused(e, b)
    ensures AllRefused(e, a + b)
  {
  }
}
