/** Strips of rectangles side by side, and tilings listed in another order. */
module Strips {
  import opened RealFunctions
  import opened Geometry

  // ----- tilings in another order

  lemma TwoPlaces(rs: seq<Rect>, r: Rect) returns (i: nat, j: nat)
    requires multiset(rs)[r] >= 2
    ensures i < j < |rs| && rs[i] == rs[j] == r
  {
    var n := |rs| - 1;
    assert rs == rs[..n] + [rs[n]];
    if rs[n] == r {
      assert multiset(rs)[r] == multiset(rs[..n])[r] + 1;
      assert r in rs[..n];
      j := n;
      i :| i < n && rs[..n][i] == r;
    } else {
      i, j := TwoPlaces(rs[..n], r);
    }
  }

  lemma TwoCopies(rs: seq<Rect>, i: nat, j: nat)
    requires i < j < |rs| && rs[i] == rs[j]
    ensures multiset(rs)[rs[i]] >= 2
  {
    assert rs == rs[..j] + [rs[j]] + rs[j + 1..];
    assert rs[i] in rs[..j];
  }

  lemma {:induction false} PermutedArea(rs: seq<Rect>, ss: seq<Rect>)
    requires multiset(rs) == multiset(ss)
    ensures TotalArea(rs) == TotalArea(ss)
    decreases |rs|
  {
    if rs == [] {
      assert multiset(ss) == multiset{};
      assert ss == [];
    } else {
      var n := |rs| - 1;
      assert rs == rs[..n] + [rs[n]];
      assert rs[n] in multiset(ss);
      var k :| 0 <= k < |ss| && ss[k] == rs[n];
      TotalAreaWithout(ss, k);
      assert ss == ss[..k] + [ss[k]] + ss[k + 1..];
      assert multiset(ss[..k] + ss[k + 1..]) == multiset(ss) - multiset{rs[n]};
      assert multiset(rs[..n]) == multiset(rs) - multiset{rs[n]};
      PermutedArea(rs[..n], ss[..k] + ss[k + 1..]);
    }
  }

  /** A tiling is a tiling in whatever order its rectangles are listed. */
  lemma PermutedTiles(rs: seq<Rect>, ss: seq<Rect>, box: Rect)
    requires multiset(rs) == multiset(ss) && Tiles(ss, box)
    ensures Tiles(rs, box)
  {
    PermutedArea(rs, ss);
    forall i | 0 <= i < |rs| ensures rs[i].Inside(box) {
      assert rs[i] in multiset(ss);
    }
    forall i, j | 0 <= i < j < |rs| ensures rs[i].Apart(rs[j]) {
      PermutedApart(rs, ss, i, j);
    }
    forall px, py | box.Has(px, py) ensures Covered(rs, px, py) {
      assert Covered(ss, px, py);
      var i :| 0 <= i < |ss| && ss[i].Has(px, py);
      assert ss[i] in multiset(rs);
      var j :| 0 <= j < |rs| && rs[j] == ss[i];
      assert rs[j].Has(px, py);
    }
  }

  lemma PermutedApart(rs: seq<Rect>, ss: seq<Rect>, i: nat, j: nat)
    requires multiset(rs) == multiset(ss) && i < j < |rs|
    requires forall k, l :: 0 <= k < l < |ss| ==> ss[k].Apart(ss[l])
    ensures rs[i].Apart(rs[j])
  {
    if rs[i] == rs[j] {
      TwoCopies(rs, i, j);
      var k, l := TwoPlaces(ss, rs[i]);
      assert ss[k].Apart(ss[l]);
    } else {
      assert rs[i] in multiset(ss) && rs[j] in multiset(ss);
      var k :| 0 <= k < |ss| && ss[k] == rs[i];
      var l :| 0 <= l < |ss| && ss[l] == rs[j];
      assert ss[k].Apart(ss[l]) || ss[l].Apart(ss[k]);
    }
  }

  // ----- intervals

  datatype Interval = Interval(lo: real, hi: real)

  ghost predicate Fills(vs: seq<Interval>, lo: real, hi: real) {
    && lo <= hi
    && (forall i :: 0 <= i < |vs| ==> lo <= vs[i].lo <= vs[i].hi <= hi)
    && (forall i, j :: 0 <= i < j < |vs| ==> vs[i].hi <= vs[j].lo || vs[j].hi <= vs[i].lo)
    && (forall p :: lo <= p < hi ==> Touched(vs, p))
  }

  ghost predicate Touched(vs: seq<Interval>, p: real) {
    exists i :: 0 <= i < |vs| && vs[i].lo <= p < vs[i].hi
  }

  function TotalLength(vs: seq<Interval>): real {
    if vs == [] then 0.0 else TotalLength(vs[..|vs| - 1]) + (vs[|vs| - 1].hi - vs[|vs| - 1].lo)
  }

  lemma {:induction false} LengthConcat(a: seq<Interval>, b: seq<Interval>)
    ensures TotalLength(a + b) == TotalLength(a) + TotalLength(b)
    decreases |b|
  {
    if b == [] {
      assert a + b == a;
    } else {
      assert (a + b)[..|a + b| - 1] == a + b[..|b| - 1];
      LengthConcat(a, b[..|b| - 1]);
    }
  }

  lemma LengthWithout(vs: seq<Interval>, k: nat)
    requires k < |vs|
    ensures TotalLength(vs) == TotalLength(vs[..k] + vs[k + 1..]) + (vs[k].hi - vs[k].lo)
  {
    hide TotalLength;
    var a, b := vs[..k], vs[k + 1..];
    assert vs == a + [vs[k]] + b;
    LengthConcat(a + [vs[k]], b);
    LengthConcat(a, [vs[k]]);
    LengthConcat(a, b);
    SingleLength(vs[k]);
  }

  lemma SingleLength(v: Interval)
    ensures TotalLength([v]) == v.hi - v.lo
  {
    assert [v][..0] == [];
  }

  /** Without an interval of no length the others fill the same range. */
  lemma FillsWithoutPoint(vs: seq<Interval>, lo: real, hi: real, k: nat)
    requires Fills(vs, lo, hi) && k < |vs| && vs[k].lo == vs[k].hi
    ensures Fills(vs[..k] + vs[k + 1..], lo, hi)
  {
    var ws := vs[..k] + vs[k + 1..];
    assert forall i :: 0 <= i < |ws| ==> ws[i] == if i < k then vs[i] else vs[i + 1];
    forall p | lo <= p < hi ensures Touched(ws, p) { TouchedWithout(vs, k, p, lo, hi); }
  }

  lemma TouchedWithout(vs: seq<Interval>, k: nat, p: real, lo: real, hi: real)
    requires Fills(vs, lo, hi) && k < |vs| && lo <= p < hi && !(vs[k].lo <= p < vs[k].hi)
    ensures Touched(vs[..k] + vs[k + 1..], p)
  {
    var ws := vs[..k] + vs[k + 1..];
    assert Touched(vs, p);
    var i :| 0 <= i < |vs| && vs[i].lo <= p < vs[i].hi;
    assert vs[i] == ws[if i < k then i else i - 1];
  }

  /** Without the interval at the left end the others fill what is left. */
  lemma FillsWithout(vs: seq<Interval>, lo: real, hi: real, k: nat)
    requires Fills(vs, lo, hi) && k < |vs| && vs[k].lo == lo && forall i :: 0 <= i < |vs| ==> vs[i].lo < vs[i].hi
    ensures Fills(vs[..k] + vs[k + 1..], vs[k].hi, hi)
  {
    var ws := vs[..k] + vs[k + 1..];
    forall i | 0 <= i < |ws| ensures vs[k].hi <= ws[i].lo <= ws[i].hi <= hi {
      assert ws[i] == if i < k then vs[i] else vs[i + 1];
    }
    forall p | vs[k].hi <= p < hi ensures Touched(ws, p) { TouchedWithout(vs, k, p, lo, hi); }
  }

  /** Intervals that fill a range without overlap have its length in total. */
  lemma {:induction false} FillsLength(vs: seq<Interval>, lo: real, hi: real)
    requires Fills(vs, lo, hi)
    ensures TotalLength(vs) == hi - lo
    decreases |vs|
  {
    hide TotalLength;
    if vs == [] {
      NoLength();
      assert lo < hi ==> Touched(vs, lo);
    } else if k: nat :| k < |vs| && vs[k].lo == vs[k].hi {
      FillsWithoutPoint(vs, lo, hi, k);
      LengthWithout(vs, k);
      FillsLength(vs[..k] + vs[k + 1..], lo, hi);
    } else {
      assert vs[0].lo < vs[0].hi;
      assert Touched(vs, lo);
      var k :| 0 <= k < |vs| && vs[k].lo <= lo < vs[k].hi;
      FillsWithout(vs, lo, hi, k);
      LengthWithout(vs, k);
      FillsLength(vs[..k] + vs[k + 1..], vs[k].hi, hi);
    }
  }

  lemma NoLength()
    ensures TotalLength([]) == 0.0
  {
  }

  // ----- strips

  function OnColumn(x: real, w: real, v: Interval): Rect { Rect(x, v.lo, w, v.hi - v.lo) }

  function OnRow(y: real, h: real, v: Interval): Rect { Rect(v.lo, y, v.hi - v.lo, h) }

  function Column(x: real, w: real, vs: seq<Interval>): (rs: seq<Rect>)
    ensures |rs| == |vs| && forall i :: 0 <= i < |vs| ==> rs[i] == OnColumn(x, w, vs[i])
  {
    if vs == [] then [] else Column(x, w, vs[..|vs| - 1]) + [OnColumn(x, w, vs[|vs| - 1])]
  }

  function Row(y: real, h: real, vs: seq<Interval>): (rs: seq<Rect>)
    ensures |rs| == |vs| && forall i :: 0 <= i < |vs| ==> rs[i] == OnRow(y, h, vs[i])
  {
    if vs == [] then [] else Row(y, h, vs[..|vs| - 1]) + [OnRow(y, h, vs[|vs| - 1])]
  }

  lemma OnColumnArea(x: real, w: real, v: Interval)
    ensures OnColumn(x, w, v).Area() == Times(w, v.hi - v.lo)
  {
  }

  lemma OnRowArea(y: real, h: real, v: Interval)
    ensures OnRow(y, h, v).Area() == Times(h, v.hi - v.lo)
  {
  }

  lemma {:induction false} ColumnArea(x: real, w: real, vs: seq<Interval>)
    ensures TotalArea(Column(x, w, vs)) == Times(w, TotalLength(vs))
    decreases |vs|
  {
    hide Rect.Area, TotalArea, OnColumn, Times;
    if vs == [] {
      TimesZero(w);
      NoArea();
    } else {
      var init, last := vs[..|vs| - 1], vs[|vs| - 1];
      ColumnArea(x, w, init);
      TotalAreaLast(Column(x, w, vs));
      assert Column(x, w, vs)[..|vs| - 1] == Column(x, w, init);
      OnColumnArea(x, w, last);
      TimesAdds(TotalLength(init), last.hi - last.lo, w);
    }
  }

  lemma {:induction false} RowArea(y: real, h: real, vs: seq<Interval>)
    ensures TotalArea(Row(y, h, vs)) == Times(h, TotalLength(vs))
    decreases |vs|
  {
    hide Rect.Area, TotalArea, OnRow, Times;
    if vs == [] {
      TimesZero(h);
      NoArea();
    } else {
      var init, last := vs[..|vs| - 1], vs[|vs| - 1];
      RowArea(y, h, init);
      TotalAreaLast(Row(y, h, vs));
      assert Row(y, h, vs)[..|vs| - 1] == Row(y, h, init);
      OnRowArea(y, h, last);
      TimesAdds(TotalLength(init), last.hi - last.lo, h);
    }
  }

  lemma ColumnTiles(x: real, w: real, vs: seq<Interval>, lo: real, hi: real)
    requires Fills(vs, lo, hi) && w >= 0.0
    ensures Tiles(Column(x, w, vs), Rect(x, lo, w, hi - lo))
  {
    hide TotalLength, TotalArea, Rect.Area, Times;
    OnColumnArea(x, w, Interval(lo, hi));
    var rs := Column(x, w, vs);
    FillsLength(vs, lo, hi);
    ColumnArea(x, w, vs);
    forall px, py | Rect(x, lo, w, hi - lo).Has(px, py) ensures Covered(rs, px, py) {
      assert Touched(vs, py);
      var i :| 0 <= i < |vs| && vs[i].lo <= py < vs[i].hi;
      assert rs[i].Has(px, py);
    }
  }

  lemma RowTiles(y: real, h: real, vs: seq<Interval>, lo: real, hi: real)
    requires Fills(vs, lo, hi) && h >= 0.0
    ensures Tiles(Row(y, h, vs), Rect(lo, y, hi - lo, h))
  {
    hide TotalLength, TotalArea, Rect.Area, Times;
    OnRowArea(y, h, Interval(lo, hi));
    var rs := Row(y, h, vs);
    FillsLength(vs, lo, hi);
    RowArea(y, h, vs);
    forall px, py | Rect(lo, y, hi - lo, h).Has(px, py) ensures Covered(rs, px, py) {
      assert Touched(vs, px);
      var i :| 0 <= i < |vs| && vs[i].lo <= px < vs[i].hi;
      assert rs[i].Has(px, py);
    }
  }
}
