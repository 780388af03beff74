/** Which components a CPI stack shows, item by item: the exact list, and why everything else is in "other". */
module CpiReport {
  import opened CpiStack

  /** An item at its place in the nested list: its full name, the keys that are its own because no earlier item has
      them, whether all groups around it are worth showing, and whether none of its own items is. */
  datatype Row = Row(name: string, keys: set<string>, threshold: real, leaf: bool, open: bool, hollow: bool)

  /** The share of the keys in the whole is more than the threshold. */
  ghost predicate Exceeds(c: Setup, keys: set<string>, threshold: real)
    requires keys <= c.values.Keys && c.scale != 0.0
  {
    SumOver(c.values, keys) / c.scale > threshold
  }

  /** The keys of the `i`-th item that no earlier item has. */
  ghost function OwnKeys(items: seq<Item>, i: nat, available: set<string>): set<string>
    requires i < |items|
  {
    (available - AllKeys(items[..i])) * KeysOf(items[i])
  }

  /** None of the items is worth showing. */
  ghost predicate NoneExceeds(c: Setup, items: seq<Item>, available: set<string>)
    requires available <= c.values.Keys && c.scale != 0.0
  {
    forall i :: 0 <= i < |items| ==> !Exceeds(c, OwnKeys(items, i, available), items[i].threshold)
  }

  /** All items in the order of the list, groups before what they contain. */
  ghost function Rows(c: Setup, prefix: string, items: seq<Item>, available: set<string>, open: bool): seq<Row>
    requires available <= c.values.Keys && c.scale != 0.0
    decreases items, 0
  {
    if items == [] then []
    else
      var front, last := items[..|items| - 1], items[|items| - 1];
      Rows(c, prefix, front, available, open) + RowsOf(c, prefix, last, available - AllKeys(front), open)
  }

  ghost function RowsOf(c: Setup, prefix: string, item: Item, available: set<string>, open: bool): seq<Row>
    requires available <= c.values.Keys && c.scale != 0.0
    decreases item, 1
  {
    var keys := available * KeysOf(item);
    match item
    case Leaf(name, threshold, _) => [Row(prefix + name, keys, threshold, true, open, true)]
    case Group(name, threshold, items) =>
      [Row(prefix + name, keys, threshold, false, open, NoneExceeds(c, items, available))]
      + Rows(c, prefix + name + "-", items, available, open && Exceeds(c, keys, threshold))
  }

  /** Shown are the items above their threshold in groups above theirs: every leaf, and a group where nothing in it
      is. */
  ghost predicate IsShown(c: Setup, r: Row)
    requires c.scale != 0.0
  {
    r.open && r.hollow && r.keys <= c.values.Keys && Exceeds(c, r.keys, r.threshold)
  }

  ghost function Shown(c: Setup, rs: seq<Row>): seq<Part>
    requires c.scale != 0.0
  {
    if rs == [] then []
    else Shown(c, rs[..|rs| - 1])
         + if IsShown(c, rs[|rs| - 1]) then [Part(rs[|rs| - 1].name, rs[|rs| - 1].keys)] else []
  }

  lemma {:induction false} ShownConcat(c: Setup, a: seq<Row>, b: seq<Row>)
    requires c.scale != 0.0
    ensures Shown(c, a + b) == Shown(c, a) + Shown(c, b)
    decreases |b|
  {
    if b == [] {
      assert a + b == a;
    } else {
      assert (a + b)[..|a + b| - 1] == a + b[..|b| - 1];
      ShownConcat(c, a, b[..|b| - 1]);
    }
  }

  lemma ShownOne(c: Setup, r: Row)
    requires c.scale != 0.0
    ensures Shown(c, [r]) == if IsShown(c, r) then [Part(r.name, r.keys)] else []
  {
    assert [r][..0] == [];
  }

  /** The key is in "other" for a reason: some item that has it stays at or below its threshold. */
  ghost predicate Explained(c: Setup, rs: seq<Row>, key: string)
    requires c.scale != 0.0
  {
    exists i :: 0 <= i < |rs| && key in rs[i].keys && rs[i].keys <= c.values.Keys
                && !Exceeds(c, rs[i].keys, rs[i].threshold)
  }

  lemma ExplainedMore(c: Setup, a: seq<Row>, b: seq<Row>, key: string)
    requires c.scale != 0.0 && (Explained(c, a, key) || Explained(c, b, key))
    ensures Explained(c, a + b, key)
  {
    if Explained(c, a, key) {
      var i :| 0 <= i < |a| && key in a[i].keys && a[i].keys <= c.values.Keys
          && !Exceeds(c, a[i].keys, a[i].threshold);
      assert (a + b)[i] == a[i];
    } else {
      var i :| 0 <= i < |b| && key in b[i].keys && b[i].keys <= c.values.Keys
          && !Exceeds(c, b[i].keys, b[i].threshold);
      assert (a + b)[|a| + i] == b[i];
    }
  }

  // ----- the merge shows exactly these

  /** What the merge makes of items agrees with their rows. */
  ghost predicate Agrees(c: Setup, b: Breakdown, rs: seq<Row>, open: bool)
    requires c.scale != 0.0
  {
    Shown(c, rs) == (if open then b.parts else []) && forall k :: k in b.rest ==> Explained(c, rs, k)
  }

  lemma LeafAgrees(c: Setup, prefix: string, item: Item, available: set<string>, open: bool)
    requires available <= c.values.Keys && c.scale != 0.0 && c.collapse && item.Leaf?
    ensures var b := BreakItem(c, prefix, item, available);
            && Agrees(c, b, RowsOf(c, prefix, item, available, open), open)
            && (b.parts == [] <==> !Exceeds(c, available * KeysOf(item), item.threshold))
  {
    hide SumOver;
    var rs := RowsOf(c, prefix, item, available, open);
    ShownOne(c, rs[0]);
    assert rs == [rs[0]];
    if !Exceeds(c, available * KeysOf(item), item.threshold) {
      forall k | k in available * KeysOf(item) ensures Explained(c, rs, k) { assert k in rs[0].keys; }
    }
  }

  lemma {:induction false} GroupAgrees(c: Setup, prefix: string, item: Item, available: set<string>, open: bool)
    requires available <= c.values.Keys && c.scale != 0.0 && c.collapse && item.Group?
    ensures var b := BreakItem(c, prefix, item, available);
            && Agrees(c, b, RowsOf(c, prefix, item, available, open), open)
            && (b.parts == [] <==> !Exceeds(c, available * KeysOf(item), item.threshold))
    decreases item, 1
  {
    hide SumOver, Shown, Explained, NoneExceeds, Break;
    var keys, inner := available * KeysOf(item), prefix + item.name + "-";
    var large := Exceeds(c, keys, item.threshold);
    var sub, subRows := Break(c, inner, item.items, available), Rows(c, inner, item.items, available, open && large);
    BreakExact(c, inner, item.items, available);
    ListAgrees(c, inner, item.items, available, open && large);
    var head := Row(prefix + item.name, keys, item.threshold, false, open, NoneExceeds(c, item.items, available));
    assert RowsOf(c, prefix, item, available, open) == [head] + subRows;
    ShownConcat(c, [head], subRows);
    ShownOne(c, head);
    if !large {
      forall k | k in keys ensures Explained(c, [head] + subRows, k) {
        HeadExplains(c, head, k);
        ExplainedMore(c, [head], subRows, k);
      }
    } else {
      forall k | k in sub.rest ensures Explained(c, [head] + subRows, k) { ExplainedMore(c, [head], subRows, k); }
    }
  }

  lemma HeadExplains(c: Setup, head: Row, key: string)
    requires c.scale != 0.0 && key in head.keys && head.keys <= c.values.Keys && !Exceeds(c, head.keys, head.threshold)
    ensures Explained(c, [head], key)
  {
    assert [head][0] == head;
  }

  lemma {:induction false} ListAgrees(c: Setup, prefix: string, items: seq<Item>, available: set<string>, open: bool)
    requires available <= c.values.Keys && c.scale != 0.0 && c.collapse
    ensures var b := Break(c, prefix, items, available);
            && Agrees(c, b, Rows(c, prefix, items, available, open), open)
            && (b.parts == [] <==> NoneExceeds(c, items, available))
    decreases items, 0
  {
    hide SumOver, Explained, BreakItem, RowsOf, Exceeds;
    if items != [] {
      var front, last := items[..|items| - 1], items[|items| - 1];
      var before, left := Break(c, prefix, front, available), available - AllKeys(front);
      BreakExact(c, prefix, front, available);
      assert available - before.taken == left;
      ListAgrees(c, prefix, front, available, open);
      if last.Leaf? { LeafAgrees(c, prefix, last, left, open); } else { GroupAgrees(c, prefix, last, left, open); }
      var b := BreakItem(c, prefix, last, left);
      var earlier, bs := Rows(c, prefix, front, available, open), RowsOf(c, prefix, last, left, open);
      ShownConcat(c, earlier, bs);
      forall k | k in before.rest + b.rest ensures Explained(c, earlier + bs, k) { ExplainedMore(c, earlier, bs, k); }
      LastExceeds(c, items, available);
    }
  }

  /** One more item. */
  lemma LastExceeds(c: Setup, items: seq<Item>, available: set<string>)
    requires available <= c.values.Keys && c.scale != 0.0 && items != []
    ensures var front, last := items[..|items| - 1], items[|items| - 1];
            NoneExceeds(c, items, available) <==>
            && NoneExceeds(c, front, available)
            && !Exceeds(c, (available - AllKeys(front)) * KeysOf(last), last.threshold)
  {
    hide SumOver, Exceeds, AllKeys, KeysOf;
    var front := items[..|items| - 1];
    forall i | 0 <= i < |front| ensures OwnKeys(front, i, available) == OwnKeys(items, i, available) {
      assert front[..i] == items[..i];
    }
    assert OwnKeys(items, |items| - 1, available) == (available - AllKeys(front)) * KeysOf(items[|items| - 1]);
  }

  // ----- the report

  lemma {:induction false} RowShown(c: Setup, rs: seq<Row>, i: nat)
    requires c.scale != 0.0 && i < |rs| && IsShown(c, rs[i])
    ensures Part(rs[i].name, rs[i].keys) in Shown(c, rs)
    decreases |rs|
  {
    if i < |rs| - 1 { RowShown(c, rs[..|rs| - 1], i); }
  }

  /** When collapsing, the report of a core lists exactly the items above their threshold in groups above theirs,
      in order and under their full names, each with the sum of its own keys, and then "other". A leaf like that is
      always listed; a key that is in none of the components shown belongs to no item, or to one that stays at or
      below its threshold. */
  lemma ReportExact(m: Values, items: seq<Item>, r: Stack)
    requires Merged(m, items, false, r)
    ensures var c := Setup(m, r.scale, true);
            && c.scale != 0.0 && c.scale == (if SumOver(m, m.Keys) == 0.0 then 1.0 else SumOver(m, m.Keys))
            && var rs := Rows(c, "", items, m.Keys, true);
               && UnionOf(Shown(c, rs)) <= m.Keys
               && r.entries == Entries(m, Shown(c, rs)) + (if r.other == 0.0 then [] else [Entry("other", r.other)])
               && (forall i :: 0 <= i < |rs| && IsShown(c, rs[i]) ==> Part(rs[i].name, rs[i].keys) in Shown(c, rs))
               && (forall k :: k in m && k !in UnionOf(Shown(c, rs)) ==> k !in AllKeys(items) || Explained(c, rs, k))
  {
    hide SumOver, Entries, Break, AllKeys, Rows, Shown, IsShown, Explained, SumEntries;
    var c := Setup(m, r.scale, true);
    var rs := Rows(c, "", items, m.Keys, true);
    ListAgrees(c, "", items, m.Keys, true);
    forall i | 0 <= i < |rs| && IsShown(c, rs[i]) ensures Part(rs[i].name, rs[i].keys) in Shown(c, rs) {
      RowShown(c, rs, i);
    }
  }

  // ----- without collapsing

  /** The leaves with their own keys. */
  function LeafParts(rs: seq<Row>): seq<Part> {
    if rs == [] then []
    else LeafParts(rs[..|rs| - 1]) + if rs[|rs| - 1].leaf then [Part(rs[|rs| - 1].name, rs[|rs| - 1].keys)] else []
  }

  lemma {:induction false} LeavesConcat(a: seq<Row>, b: seq<Row>)
    ensures LeafParts(a + b) == LeafParts(a) + LeafParts(b)
    decreases |b|
  {
    if b == [] {
      assert a + b == a;
    } else {
      assert (a + b)[..|a + b| - 1] == a + b[..|b| - 1];
      LeavesConcat(a, b[..|b| - 1]);
    }
  }

  lemma LeafOne(r: Row)
    ensures LeafParts([r]) == if r.leaf then [Part(r.name, r.keys)] else []
  {
    assert [r][..0] == [];
  }

  lemma {:induction false} ItemInFull(c: Setup, prefix: string, item: Item, available: set<string>, open: bool)
    requires available <= c.values.Keys && c.scale != 0.0 && !c.collapse
    ensures BreakItem(c, prefix, item, available).parts == LeafParts(RowsOf(c, prefix, item, available, open))
    decreases item, 1
  {
    hide SumOver, LeafParts, NoneExceeds, Exceeds;
    var rs := RowsOf(c, prefix, item, available, open);
    LeafOne(rs[0]);
    match item
    case Leaf(_, _, _) => assert rs == [rs[0]];
    case Group(name, threshold, items) =>
      var inner := open && Exceeds(c, available * KeysOf(item), threshold);
      ListInFull(c, prefix + name + "-", items, available, inner);
      LeavesConcat([rs[0]], Rows(c, prefix + name + "-", items, available, inner));
  }

  /** Without collapsing every leaf is shown with its own keys. */
  lemma {:induction false} ListInFull(c: Setup, prefix: string, items: seq<Item>, available: set<string>, open: bool)
    requires available <= c.values.Keys && c.scale != 0.0 && !c.collapse
    ensures Break(c, prefix, items, available).parts == LeafParts(Rows(c, prefix, items, available, open))
    decreases items, 0
  {
    hide SumOver, BreakItem, RowsOf;
    if items != [] {
      var front, last := items[..|items| - 1], items[|items| - 1];
      BreakExact(c, prefix, front, available);
      assert available - Break(c, prefix, front, available).taken == available - AllKeys(front);
      ListInFull(c, prefix, front, available, open);
      ItemInFull(c, prefix, last, available - AllKeys(front), open);
      LeavesConcat(Rows(c, prefix, front, available, open), RowsOf(c, prefix, last, available - AllKeys(front), open));
    }
  }
}
