/** Sorted arrays of coordinates in which values closer than a tolerance count as one: binary search, insertion,
    and the boundary lines of a floorplan collected that way. */
module SortedSet {
  import opened RealFunctions
  import opened Geometry

  /** Equality up to the tolerance; it is not transitive. */
  predicate Eq(x: real, y: real) { -DELTA < x - y < DELTA }

  predicate Sorted(s: seq<real>) {
    forall i, j :: 0 <= i < j < |s| ==> s[i] <= s[j]
  }

  /** Consecutive values are at least the tolerance apart. */
  predicate Spaced(s: seq<real>) {
    forall i, j :: 0 <= i < j < |s| ==> s[i] + DELTA <= s[j]
  }

  datatype Hit = Hit(found: bool, loc: nat)

  /** Binary search among the `n` values from `lo` on: where the value is, or where it should be. */
  function Search(s: seq<real>, lo: nat, n: nat, x: real): (h: Hit)
    requires lo + n <= |s|
    ensures lo <= h.loc <= lo + n && (h.found ==> h.loc < lo + n && Eq(s[h.loc], x))
    decreases n
  {
    if n == 0 then Hit(false, lo)
    else if Eq(s[lo + n / 2], x) then Hit(true, lo + n / 2)
    else if s[lo + n / 2] < x then Search(s, lo + n / 2 + 1, (n - 1) / 2, x)
    else Search(s, lo, n / 2, x)
  }

  function Find(s: seq<real>, x: real): Hit { Search(s, 0, |s|, x) }

  lemma {:induction false} SearchExact(s: seq<real>, lo: nat, n: nat, x: real)
    requires Sorted(s) && lo + n <= |s|
    ensures var h := Search(s, lo, n, x);
            !h.found ==> (forall k :: lo <= k < h.loc ==> s[k] + DELTA <= x)
                         && (forall k :: h.loc <= k < lo + n ==> x + DELTA <= s[k])
    decreases n
  {
    hide Sorted;
    if n > 0 {
      var m := lo + n / 2;
      assert m + 1 + (n - 1) / 2 == lo + n;
      if !Eq(s[m], x) {
        OutOfReach(s, m, x);
        if s[m] < x { SearchExact(s, m + 1, (n - 1) / 2, x); } else { SearchExact(s, lo, n / 2, x); }
      }
    }
  }

  /** A value out of tolerance takes all values on its far side with it. */
  lemma OutOfReach(s: seq<real>, m: nat, x: real)
    requires Sorted(s) && m < |s| && !Eq(s[m], x)
    ensures s[m] < x ==> forall k :: 0 <= k <= m ==> s[k] + DELTA <= x
    ensures s[m] >= x ==> forall k :: m <= k < |s| ==> x + DELTA <= s[k]
  {
  }

  /** The search succeeds exactly when some value lies within the tolerance; otherwise it gives the place
      that separates the smaller from the larger values, all of them out of tolerance. */
  lemma FindExact(s: seq<real>, x: real)
    requires Sorted(s)
    ensures var h := Find(s, x);
            && (h.found <==> exists k :: 0 <= k < |s| && Eq(s[k], x))
            && (!h.found ==> (forall k :: 0 <= k < h.loc ==> s[k] + DELTA <= x)
                             && (forall k :: h.loc <= k < |s| ==> x + DELTA <= s[k]))
  {
    SearchExact(s, 0, |s|, x);
  }

  lemma {:induction false} SearchMonotone(s: seq<real>, lo: nat, n: nat, x: real, y: real)
    requires Sorted(s) && lo + n <= |s| && x <= y
    ensures Search(s, lo, n, x).loc <= Search(s, lo, n, y).loc
    decreases n
  {
    hide Sorted;
    if n > 0 {
      var m := lo + n / 2;
      if s[m] < x && !Eq(s[m], x) {
        SearchMonotone(s, m + 1, (n - 1) / 2, x, y);
      } else if y < s[m] && !Eq(s[m], y) {
        SearchMonotone(s, lo, n / 2, x, y);
      }
    }
  }

  /** Although a value can be within the tolerance of two others, lookups never cross; and values at least
      twice the tolerance apart are never found at the same place. */
  lemma FindMonotone(s: seq<real>, x: real, y: real)
    requires Sorted(s) && x <= y
    ensures Find(s, x).loc <= Find(s, y).loc
    ensures x + 2.0 * DELTA <= y && Find(s, x).found && Find(s, y).found ==> Find(s, x).loc < Find(s, y).loc
  {
    SearchMonotone(s, 0, |s|, x, y);
  }

  // ----- insertion

  /** The values with `x` added, unless it is there already up to the tolerance. */
  function Inserted(s: seq<real>, x: real): (r: seq<real>) {
    var h := Find(s, x);
    if h.found then s else s[..h.loc] + [x] + s[h.loc..]
  }

  /** Insertion keeps the values apart, keeps all of them, adds at most the given one, and makes it
      findable. */
  lemma InsertedRight(s: seq<real>, x: real)
    requires Spaced(s)
    ensures Spaced(Inserted(s, x)) && Sorted(Inserted(s, x)) && Find(Inserted(s, x), x).found
    ensures forall v :: v in s ==> v in Inserted(s, x)
    ensures forall v :: v in Inserted(s, x) ==> v in s || v == x
    ensures |s| <= |Inserted(s, x)| <= |s| + 1
  {
    SpacedSorted(s);
    FindExact(s, x);
    var h, r := Find(s, x), Inserted(s, x);
    if !h.found {
      assert r[h.loc] == x && Eq(r[h.loc], x);
      assert forall v :: v in s ==> v in s[..h.loc] || v in s[h.loc..];
      InsertSpaced(s, h.loc, x);
      SpacedSorted(r);
    }
    FindExact(r, x);
  }

  lemma SpacedSorted(s: seq<real>)
    requires Spaced(s)
    ensures Sorted(s)
  {
  }

  lemma InsertSpaced(s: seq<real>, loc: nat, x: real)
    requires Spaced(s) && loc <= |s|
    requires (forall k :: 0 <= k < loc ==> s[k] + DELTA <= x) && (forall k :: loc <= k < |s| ==> x + DELTA <= s[k])
    ensures Spaced(s[..loc] + [x] + s[loc..])
  {
    var r := s[..loc] + [x] + s[loc..];
    forall i, j | 0 <= i < j < |r| ensures r[i] + DELTA <= r[j] {
      assert i < loc ==> r[i] == s[i];
      assert i > loc ==> r[i] == s[i - 1];
      assert j < loc ==> r[j] == s[j];
      assert j > loc ==> r[j] == s[j - 1];
    }
  }

  /** Inserts a value into the first `n` of an array, shifting larger ones up; false if it was there. */
  method BsearchInsert(a: array<real>, n: nat, x: real) returns (inserted: bool)
    requires n <= a.Length && (n < a.Length || Find(a[..n], x).found)
    modifies a
    ensures inserted == !old(Find(a[..n], x)).found
    ensures a[..if inserted then n + 1 else n] == Inserted(old(a[..n]), x)
  {
    ghost var s := a[..n];
    var h := Find(a[..n], x);
    if h.found { return false; }
    var i := n;
    while i > h.loc
      invariant h.loc <= i <= n
      invariant forall k :: 0 <= k < i ==> a[k] == s[k]
      invariant forall k :: i < k <= n ==> a[k] == s[k - 1]
    {
      a[i] := a[i - 1];
      i := i - 1;
    }
    a[h.loc] := x;
    assert a[..n + 1] == s[..h.loc] + [x] + s[h.loc..];
    return true;
  }

  // ----- the lines of a floorplan

  const MAX_UNITS: nat := 8192

  /** The two boundaries of a block along an axis. */
  datatype Extent = Extent(lo: real, hi: real)

  function AcrossX(b: Rect): Extent { Extent(b.leftx, b.Right()) }

  function AcrossY(b: Rect): Extent { Extent(b.bottomy, b.Top()) }

  function Extents(units: seq<Rect>, f: Rect -> Extent): (es: seq<Extent>)
    ensures |es| == |units| && forall i :: 0 <= i < |units| ==> es[i] == f(units[i])
  {
    if units == [] then [] else Extents(units[..|units| - 1], f) + [f(units[|units| - 1])]
  }

  function WithBoth(s: seq<real>, e: Extent): seq<real> { Inserted(Inserted(s, e.lo), e.hi) }

  /** The lines collected from the boundaries of blocks, in their order. */
  function Lines(es: seq<Extent>): seq<real> {
    if es == [] then [] else WithBoth(Lines(es[..|es| - 1]), es[|es| - 1])
  }

  lemma StillFound(s: seq<real>, x: real, y: real)
    requires Spaced(s) && Find(s, y).found
    ensures Find(Inserted(s, x), y).found
  {
    SpacedSorted(s);
    InsertedRight(s, x);
    FindExact(s, y);
    FindExact(Inserted(s, x), y);
    var k :| 0 <= k < |s| && Eq(s[k], y);
    var r := Inserted(s, x);
    assert s[k] in r;
    var i :| 0 <= i < |r| && r[i] == s[k];
    assert Eq(r[i], y);
  }

  /** Two more boundaries: the lines stay apart and both are found, as is everything found before. */
  lemma WithBothRight(s: seq<real>, e: Extent)
    requires Spaced(s)
    ensures var r := WithBoth(s, e); Spaced(r) && Find(r, e.lo).found && Find(r, e.hi).found && |s| <= |r| <= |s| + 2
    ensures forall v :: Find(s, v).found ==> Find(WithBoth(s, e), v).found
    ensures forall v :: v in WithBoth(s, e) ==> v in s || v == e.lo || v == e.hi
  {
    hide Spaced, Find, Inserted;
    InsertedRight(s, e.lo);
    InsertedRight(Inserted(s, e.lo), e.hi);
    StillFound(Inserted(s, e.lo), e.hi, e.lo);
    forall v | Find(s, v).found ensures Find(WithBoth(s, e), v).found {
      StillFound(s, e.lo, v);
      StillFound(Inserted(s, e.lo), e.hi, v);
    }
  }

  lemma {:induction false} LinesRight(es: seq<Extent>)
    ensures Spaced(Lines(es))
    ensures forall i :: 0 <= i < |es| ==> Find(Lines(es), es[i].lo).found && Find(Lines(es), es[i].hi).found
    ensures forall v :: v in Lines(es) ==> exists i :: 0 <= i < |es| && (v == es[i].lo || v == es[i].hi)
    decreases |es|
  {
    hide Spaced, Find, WithBoth;
    if es == [] {
      NoneSpaced();
    } else {
      LinesRight(es[..|es| - 1]);
      WithBothRight(Lines(es[..|es| - 1]), es[|es| - 1]);
    }
  }

  lemma NoneSpaced()
    ensures Spaced([])
  {
  }

  /** The boundaries of a block are found in order. */
  lemma LinesInOrder(es: seq<Extent>, i: nat)
    requires i < |es| && es[i].lo <= es[i].hi
    ensures Find(Lines(es), es[i].lo).loc <= Find(Lines(es), es[i].hi).loc
  {
    LinesRight(es);
    SpacedSorted(Lines(es));
    FindMonotone(Lines(es), es[i].lo, es[i].hi);
  }

  lemma {:induction false} LinesGrow(es: seq<Extent>, i: nat)
    requires i <= |es|
    ensures |Lines(es[..i])| <= |Lines(es)|
    decreases |es|
  {
    if i == |es| {
      assert es[..i] == es;
    } else {
      var front := es[..|es| - 1];
      LinesGrow(front, i);
      assert front[..i] == es[..i];
      LinesRight(front);
      WithBothRight(Lines(front), es[|es| - 1]);
    }
  }

  /** Inserts two boundaries and gives the new size. */
  method InsertBoth(a: array<real>, n: nat, e: Extent) returns (size: nat)
    requires n <= a.Length && Spaced(a[..n]) && |WithBoth(a[..n], e)| <= a.Length
    modifies a
    ensures size <= a.Length && a[..size] == WithBoth(old(a[..n]), e)
  {
    hide Spaced;
    ghost var s := a[..n];
    InsertedRight(s, e.lo);
    InsertedRight(Inserted(s, e.lo), e.hi);
    var inserted := BsearchInsert(a, n, e.lo);
    size := if inserted then n + 1 else n;
    inserted := BsearchInsert(a, size, e.hi);
    size := if inserted then size + 1 else size;
  }

  /** Both boundaries are found among the lines, in order if the extent is not turned around. */
  ghost predicate Bounded(s: seq<real>, e: Extent) {
    Find(s, e.lo).found && Find(s, e.hi).found && (e.lo <= e.hi ==> Find(s, e.lo).loc <= Find(s, e.hi).loc)
  }

  /** The lines collected from these boundaries: every later lookup of a boundary succeeds, the lines are at
      least the tolerance apart, each is a boundary of some block, and the two boundaries of a block are found in
      order. */
  ghost predicate Collected(s: seq<real>, es: seq<Extent>) {
    && s == Lines(es) && Spaced(s)
    && (forall i :: 0 <= i < |es| ==> Bounded(s, es[i]))
    && (forall v :: v in s ==> exists i :: 0 <= i < |es| && (v == es[i].lo || v == es[i].hi))
  }

  lemma LinesCollected(es: seq<Extent>)
    ensures Collected(Lines(es), es)
  {
    hide Find, Lines, Spaced;
    LinesRight(es);
    forall i: nat | i < |es| ensures Bounded(Lines(es), es[i]) {
      if es[i].lo <= es[i].hi { LinesInOrder(es, i); }
    }
  }

  /** Collects the boundary lines of all blocks, as many as the arrays hold. */
  method CollectLines(units: seq<Rect>) returns (xs: seq<real>, ys: seq<real>)
    requires |Lines(Extents(units, AcrossX))| <= MAX_UNITS && |Lines(Extents(units, AcrossY))| <= MAX_UNITS
    ensures Collected(xs, Extents(units, AcrossX)) && Collected(ys, Extents(units, AcrossY))
  {
    hide Spaced, Find, WithBoth, Collected, Lines, Inserted, Extents;
    ghost var ex, ey := Extents(units, AcrossX), Extents(units, AcrossY);
    var x, y := new real[MAX_UNITS], new real[MAX_UNITS];
    var xsize: nat, ysize: nat := 0, 0;
    NoLines(ex);
    NoLines(ey);
    for i := 0 to |units|
      invariant xsize <= MAX_UNITS && x[..xsize] == Lines(ex[..i])
      invariant ysize <= MAX_UNITS && y[..ysize] == Lines(ey[..i])
    {
      NextLines(ex, i);
      NextLines(ey, i);
      xsize := InsertBoth(x, xsize, AcrossX(units[i]));
      ysize := InsertBoth(y, ysize, AcrossY(units[i]));
    }
    assert ex[..|units|] == ex && ey[..|units|] == ey;
    LinesCollected(ex);
    LinesCollected(ey);
    return x[..xsize], y[..ysize];
  }

  lemma NoLines(es: seq<Extent>)
    ensures Lines(es[..0]) == []
  {
  }

  lemma NextLines(es: seq<Extent>, i: nat)
    requires i < |es|
    ensures Spaced(Lines(es[..i])) && Lines(es[..i + 1]) == WithBoth(Lines(es[..i]), es[i])
    ensures |Lines(es[..i + 1])| <= |Lines(es)|
  {
    assert es[..i + 1][..i] == es[..i];
    LinesRight(es[..i]);
    LinesGrow(es, i + 1);
  }
}
