/** Lists of thread or core numbers without repetition, filtered and sorted. */
module ThreadLists {

  // ----- lists without repetition

  ghost predicate Distinct(xs: seq<nat>) {
    forall i, j :: 0 <= i < j < |xs| ==> xs[i] != xs[j]
  }

  ghost function Elements(xs: seq<nat>): set<nat> { set x | x in xs }

  /** The elements that belong to `s`, in order. */
  function Only(xs: seq<nat>, s: set<nat>): seq<nat> {
    if xs == [] then [] else (if xs[0] in s then [xs[0]] else []) + Only(xs[1..], s)
  }

  /** The elements that do not. */
  function Without(xs: seq<nat>, s: set<nat>): seq<nat> {
    if xs == [] then [] else (if xs[0] in s then [] else [xs[0]]) + Without(xs[1..], s)
  }

  lemma {:induction false} OnlyElements(xs: seq<nat>, s: set<nat>)
    ensures forall x :: x in Only(xs, s) <==> x in xs && x in s
    ensures Distinct(xs) ==> Distinct(Only(xs, s))
  {
    if xs != [] {
      OnlyElements(xs[1..], s);
      assert xs == [xs[0]] + xs[1..];
      if Distinct(xs) { assert xs[0] !in xs[1..]; }
    }
  }

  lemma {:induction false} WithoutElements(xs: seq<nat>, s: set<nat>)
    ensures forall x :: x in Without(xs, s) <==> x in xs && x !in s
    ensures Distinct(xs) ==> Distinct(Without(xs, s))
    ensures |Only(xs, s)| + |Without(xs, s)| == |xs|
  {
    if xs != [] {
      WithoutElements(xs[1..], s);
      assert xs == [xs[0]] + xs[1..];
      if Distinct(xs) { assert xs[0] !in xs[1..]; }
    }
  }

  lemma {:induction false} DistinctSize(xs: seq<nat>)
    requires Distinct(xs)
    ensures |Elements(xs)| == |xs|
  {
    if xs != [] {
      DistinctSize(xs[1..]);
      assert xs[0] !in xs[1..];
      assert Elements(xs) == {xs[0]} + Elements(xs[1..]);
    }
  }

  lemma SubsetSize(a: set<nat>, b: set<nat>)
    requires a <= b
    ensures |a| <= |b| && (|a| == |b| ==> a == b)
  {
    assert b == a + (b - a);
  }

  /** How many elements are left when those in `s` are taken away. */
  lemma WithoutSize(xs: seq<nat>, s: set<nat>)
    requires Distinct(xs)
    ensures |Without(xs, s)| >= |xs| - |s|
    ensures s <= Elements(xs) ==> |Without(xs, s)| == |xs| - |s|
  {
    OnlyElements(xs, s);
    WithoutElements(xs, s);
    DistinctSize(Only(xs, s));
    SubsetSize(Elements(Only(xs, s)), s);
    if s <= Elements(xs) { assert Elements(Only(xs, s)) == s; }
  }

  lemma {:induction false} WithoutSplit(xs: seq<nat>, n: nat, s: set<nat>)
    requires n <= |xs|
    ensures Without(xs, s) == Without(xs[..n], s) + Without(xs[n..], s)
  {
    if n > 0 {
      WithoutSplit(xs[1..], n - 1, s);
      assert xs[..n][1..] == xs[1..][..n - 1] && xs[n..] == xs[1..][n - 1..];
    } else {
      assert xs[..0] == [] && xs[0..] == xs;
    }
  }

  /** The first few free elements already lie in a prefix with enough of them. */
  lemma EarlyFree(xs: seq<nat>, n: nat, s: set<nat>, i: nat)
    requires Distinct(xs) && n <= |xs| && i + |s| < n
    ensures i < |Without(xs, s)| && Without(xs, s)[i] in xs[..n]
  {
    WithoutSplit(xs, n, s);
    WithoutSize(xs[..n], s);
    WithoutElements(xs[..n], s);
    assert Without(xs, s)[i] == Without(xs[..n], s)[i];
  }

  // ----- sorting by score

  ghost predicate SortedBy(ids: seq<nat>, score: nat -> int) {
    forall i, j :: 0 <= i < j < |ids| ==> score(ids[i]) <= score(ids[j])
  }

  function Insert(id: nat, ids: seq<nat>, score: nat -> int): seq<nat> {
    if ids == [] || score(id) <= score(ids[0]) then [id] + ids else [ids[0]] + Insert(id, ids[1..], score)
  }

  /** Stable sort by score. */
  function Sort(ids: seq<nat>, score: nat -> int): seq<nat> {
    if ids == [] then [] else Insert(ids[0], Sort(ids[1..], score), score)
  }

  lemma PrependSorted(x: nat, r: seq<nat>, score: nat -> int)
    requires SortedBy(r, score) && forall y :: y in r ==> score(x) <= score(y)
    ensures SortedBy([x] + r, score)
  {
  }

  lemma SortedParts(ids: seq<nat>, score: nat -> int)
    requires SortedBy(ids, score) && ids != []
    ensures SortedBy(ids[1..], score) && forall y :: y in ids ==> score(ids[0]) <= score(y)
  {
  }

  lemma {:induction false} InsertSorted(id: nat, ids: seq<nat>, score: nat -> int)
    requires SortedBy(ids, score)
    ensures SortedBy(Insert(id, ids, score), score)
    ensures multiset(Insert(id, ids, score)) == multiset(ids) + multiset{id}
  {
    hide SortedBy;
    if ids == [] || score(id) <= score(ids[0]) {
      if ids != [] { SortedParts(ids, score); }
      PrependSorted(id, ids, score);
    } else {
      SortedParts(ids, score);
      InsertSorted(id, ids[1..], score);
      var r := Insert(id, ids[1..], score);
      assert ids == [ids[0]] + ids[1..];
      forall y | y in r ensures score(ids[0]) <= score(y) {
        assert y in multiset(r);
      }
      PrependSorted(ids[0], r, score);
    }
  }

  lemma {:induction false} SortSorted(ids: seq<nat>, score: nat -> int)
    ensures SortedBy(Sort(ids, score), score)
    ensures multiset(Sort(ids, score)) == multiset(ids)
  {
    if ids != [] {
      SortSorted(ids[1..], score);
      InsertSorted(ids[0], Sort(ids[1..], score), score);
      assert ids == [ids[0]] + ids[1..];
    }
  }

  lemma {:induction false} DistinctMultiset(xs: seq<nat>)
    ensures Distinct(xs) <==> forall x :: multiset(xs)[x] <= 1
  {
    if xs != [] {
      DistinctMultiset(xs[1..]);
      assert xs == [xs[0]] + xs[1..];
      assert multiset(xs) == multiset{xs[0]} + multiset(xs[1..]);
      if Distinct(xs) {
        assert xs[0] !in xs[1..];
      } else {
        if Distinct(xs[1..]) {
          assert xs[0] in xs[1..];
          assert multiset(xs)[xs[0]] == 1 + multiset(xs[1..])[xs[0]];
        } else {
          var x :| multiset(xs[1..])[x] > 1;
          assert multiset(xs)[x] >= multiset(xs[1..])[x];
        }
      }
    }
  }

  lemma SortKeeps(ids: seq<nat>, score: nat -> int)
    ensures |Sort(ids, score)| == |ids|
    ensures forall x :: x in Sort(ids, score) <==> x in ids
    ensures Distinct(ids) ==> Distinct(Sort(ids, score))
  {
    SortSorted(ids, score);
    DistinctMultiset(ids);
    DistinctMultiset(Sort(ids, score));
    assert |multiset(Sort(ids, score))| == |multiset(ids)|;
    forall x ensures x in Sort(ids, score) <==> x in ids {
      assert x in multiset(Sort(ids, score)) <==> x in multiset(ids);
    }
  }

  // ----- what is left of a list keeps its order

  ghost predicate Rising(xs: seq<nat>) {
    forall i, j :: 0 <= i < j < |xs| ==> xs[i] < xs[j]
  }

  lemma {:induction false} WithoutSorted(xs: seq<nat>, s: set<nat>, score: nat -> int)
    requires SortedBy(xs, score)
    ensures SortedBy(Without(xs, s), score)
    decreases |xs|
  {
    if xs != [] {
      WithoutSorted(xs[1..], s, score);
      WithoutElements(xs[1..], s);
      var rest := Without(xs[1..], s);
      forall j | 0 <= j < |rest| ensures score(xs[0]) <= score(rest[j]) {
        assert rest[j] in xs[1..];
        var k :| 0 <= k < |xs[1..]| && xs[1..][k] == rest[j];
        assert xs[k + 1] == rest[j];
      }
    }
  }

  lemma {:induction false} WithoutRising(xs: seq<nat>, s: set<nat>)
    requires Rising(xs)
    ensures Rising(Without(xs, s))
    decreases |xs|
  {
    if xs != [] {
      WithoutRising(xs[1..], s);
      WithoutElements(xs[1..], s);
      var rest := Without(xs[1..], s);
      forall j | 0 <= j < |rest| ensures xs[0] < rest[j] {
        assert rest[j] in xs[1..];
        var k :| 0 <= k < |xs[1..]| && xs[1..][k] == rest[j];
        assert xs[k + 1] == rest[j];
      }
    }
  }
}
