/** Building a CPI stack: measured values are attributed to a nested list of named components, small ones are
    collected under "other", and nothing is lost or counted twice. */
module CpiStack {

  type Values = map<string, real>

  /** A component fed by some keys, or a named group of components, with the share below which it is not
      worth showing. */
  datatype Item = Leaf(name: string, threshold: real, keys: seq<string>) | Group(name: string, threshold: real,
      items: seq<Item>)

  datatype Entry = Entry(name: string, value: real)

  function SumEntries(es: seq<Entry>): real {
    if es == [] then 0.0 else SumEntries(es[..|es| - 1]) + es[|es| - 1].value
  }

  // ----- sums over keys

  ghost function SumOver(m: Values, s: set<string>): real
    requires s <= m.Keys
  {
    if s == {} then 0.0
    else
      var k :| k in s;
      m[k] + SumOver(m, s - {k})
  }

  lemma {:induction false} SumRemove(m: Values, s: set<string>, k: string)
    requires s <= m.Keys && k in s
    ensures SumOver(m, s) == m[k] + SumOver(m, s - {k})
    decreases |s|
  {
    var x :| x in s && SumOver(m, s) == m[x] + SumOver(m, s - {x});
    if x != k {
      SumRemove(m, s - {x}, k);
      SumRemove(m, s - {k}, x);
      assert s - {x} - {k} == s - {k} - {x};
    }
  }

  lemma {:induction false} SumUnion(m: Values, a: set<string>, b: set<string>)
    requires a <= m.Keys && b <= m.Keys && a !! b
    ensures SumOver(m, a + b) == SumOver(m, a) + SumOver(m, b)
    decreases |a|
  {
    if a == {} {
      assert a + b == b;
    } else {
      var k :| k in a;
      SumRemove(m, a + b, k);
      SumRemove(m, a, k);
      assert a + b - {k} == (a - {k}) + b;
      SumUnion(m, a - {k}, b);
    }
  }

  /** The sum depends on the values of the keys in the set only. */
  lemma {:induction false} SumAgrees(m: Values, n: Values, s: set<string>)
    requires s <= m.Keys && s <= n.Keys && forall k :: k in s ==> m[k] == n[k]
    ensures SumOver(m, s) == SumOver(n, s)
    decreases |s|
  {
    if s != {} {
      var k :| k in s;
      SumRemove(m, s, k);
      SumRemove(n, s, k);
      SumAgrees(m, n, s - {k});
    }
  }

  // ----- how keys are attributed

  /** A shown component and the keys it stands for. */
  datatype Part = Part(name: string, keys: set<string>)

  /** The shown components, the keys that went to "other", and all keys taken. */
  datatype Breakdown = Breakdown(parts: seq<Part>, rest: set<string>, taken: set<string>)

  datatype Setup = Setup(values: Values, scale: real, collapse: bool)

  function KeySet(keys: seq<string>): set<string> { set k | k in keys }

  ghost predicate Small(c: Setup, s: set<string>, threshold: real)
    requires s <= c.values.Keys && c.scale != 0.0
  {
    c.collapse && SumOver(c.values, s) / c.scale <= threshold
  }

  /** One item: its keys among those still available, shown unless they amount to too little. */
  ghost function BreakItem(c: Setup, prefix: string, item: Item, available: set<string>): (b: Breakdown)
    requires available <= c.values.Keys && c.scale != 0.0
    ensures b.taken <= available
    decreases item, 1
  {
    match item
    case Leaf(name, threshold, keys) =>
      var mine := available * KeySet(keys);
      if Small(c, mine, threshold) then Breakdown([], mine, mine) else Breakdown([Part(prefix + name, mine)], {}, mine)
    case Group(name, threshold, items) =>
      var sub := Break(c, prefix + name + "-", items, available);
      if Small(c, sub.taken, threshold) then Breakdown([], sub.taken, sub.taken)
      else if sub.parts == [] && c.collapse then Breakdown([Part(prefix + name, sub.taken)], {}, sub.taken)
      else sub
  }

  /** A list of items, each from what the ones before it left. */
  ghost function Break(c: Setup, prefix: string, items: seq<Item>, available: set<string>): (b: Breakdown)
    requires available <= c.values.Keys && c.scale != 0.0
    ensures b.taken <= available
    decreases items, 0
  {
    if items == [] then Breakdown([], {}, {})
    else
      var before := Break(c, prefix, items[..|items| - 1], available);
      Joined(before, BreakItem(c, prefix, items[|items| - 1], available - before.taken))
  }

  ghost function Joined(a: Breakdown, b: Breakdown): Breakdown {
    Breakdown(a.parts + b.parts, a.rest + b.rest, a.taken + b.taken)
  }

  // ----- nothing lost, nothing counted twice

  function UnionOf(ps: seq<Part>): set<string> {
    if ps == [] then {} else UnionOf(ps[..|ps| - 1]) + ps[|ps| - 1].keys
  }

  /** No key belongs to two shown components, or to one of them and to "other". */
  ghost predicate Apart(ps: seq<Part>) {
    forall i, j :: 0 <= i < j < |ps| ==> ps[i].keys !! ps[j].keys
  }

  ghost predicate Exact(b: Breakdown) {
    Apart(b.parts) && UnionOf(b.parts) !! b.rest && UnionOf(b.parts) + b.rest == b.taken
  }

  function KeysOf(item: Item): set<string>
    decreases item, 1
  {
    match item
    case Leaf(_, _, keys) => KeySet(keys)
    case Group(_, _, items) => AllKeys(items)
  }

  function AllKeys(items: seq<Item>): set<string>
    decreases items, 0
  {
    if items == [] then {} else AllKeys(items[..|items| - 1]) + KeysOf(items[|items| - 1])
  }

  lemma {:induction false} UnionConcat(ps: seq<Part>, qs: seq<Part>)
    ensures UnionOf(ps + qs) == UnionOf(ps) + UnionOf(qs)
    decreases |qs|
  {
    if qs == [] {
      assert ps + qs == ps;
    } else {
      assert (ps + qs)[..|ps + qs| - 1] == ps + qs[..|qs| - 1];
      UnionConcat(ps, qs[..|qs| - 1]);
    }
  }

  lemma {:induction false} InUnion(ps: seq<Part>, i: nat)
    requires i < |ps|
    ensures ps[i].keys <= UnionOf(ps)
    decreases |ps|
  {
    if i < |ps| - 1 { InUnion(ps[..|ps| - 1], i); }
  }

  lemma JoinedExact(a: Breakdown, b: Breakdown)
    requires Exact(a) && Exact(b) && a.taken !! b.taken
    ensures Exact(Joined(a, b))
  {
    hide UnionOf;
    var ps := a.parts + b.parts;
    UnionConcat(a.parts, b.parts);
    forall i, j | 0 <= i < j < |ps| ensures ps[i].keys !! ps[j].keys {
      if i < |a.parts| <= j {
        InUnion(a.parts, i);
        InUnion(b.parts, j - |a.parts|);
      }
    }
  }

  lemma {:induction false} ItemExact(c: Setup, prefix: string, item: Item, available: set<string>)
    requires available <= c.values.Keys && c.scale != 0.0
    ensures Exact(BreakItem(c, prefix, item, available))
    ensures BreakItem(c, prefix, item, available).taken == available * KeysOf(item)
    decreases item, 1
  {
    hide Small;
    if item.Group? { BreakExact(c, prefix + item.name + "-", item.items, available); }
    var b := BreakItem(c, prefix, item, available);
    if |b.parts| == 1 { assert b.parts[..0] == [] && UnionOf(b.parts) == b.parts[0].keys; }
  }

  /** The keys of the items are split exactly, among the shown components and "other". */
  lemma {:induction false} BreakExact(c: Setup, prefix: string, items: seq<Item>, available: set<string>)
    requires available <= c.values.Keys && c.scale != 0.0
    ensures Exact(Break(c, prefix, items, available))
    ensures Break(c, prefix, items, available).taken == available * AllKeys(items)
    decreases items, 0
  {
    hide Exact, Small;
    if items == [] {
      EmptyExact();
    } else {
      var before := Break(c, prefix, items[..|items| - 1], available);
      BreakExact(c, prefix, items[..|items| - 1], available);
      ItemExact(c, prefix, items[|items| - 1], available - before.taken);
      JoinedExact(before, BreakItem(c, prefix, items[|items| - 1], available - before.taken));
    }
  }

  lemma EmptyExact()
    ensures Exact(Breakdown([], {}, {}))
  {
  }

  /** The entries reported for the shown components. */
  ghost function Entries(m: Values, ps: seq<Part>): (es: seq<Entry>)
    requires UnionOf(ps) <= m.Keys
    ensures |es| == |ps|
  {
    if ps == [] then [] else Entries(m, ps[..|ps| - 1]) + [Entry(ps[|ps| - 1].name, SumOver(m, ps[|ps| - 1].keys))]
  }

  lemma {:induction false} EntriesConcat(m: Values, ps: seq<Part>, qs: seq<Part>)
    requires UnionOf(ps) <= m.Keys && UnionOf(qs) <= m.Keys
    ensures UnionOf(ps + qs) <= m.Keys && Entries(m, ps + qs) == Entries(m, ps) + Entries(m, qs)
    decreases |qs|
  {
    UnionConcat(ps, qs);
    if qs == [] {
      assert ps + qs == ps;
    } else {
      assert (ps + qs)[..|ps + qs| - 1] == ps + qs[..|qs| - 1];
      EntriesConcat(m, ps, qs[..|qs| - 1]);
    }
  }

  lemma {:induction false} EntriesSum(m: Values, ps: seq<Part>)
    requires UnionOf(ps) <= m.Keys && Apart(ps)
    ensures SumEntries(Entries(m, ps)) == SumOver(m, UnionOf(ps))
    decreases |ps|
  {
    hide SumOver, Apart;
    if ps != [] {
      var front := ps[..|ps| - 1];
      LastApart(ps);
      EntriesSum(m, front);
      SumUnion(m, UnionOf(front), ps[|ps| - 1].keys);
      assert Entries(m, ps)[..|ps| - 1] == Entries(m, front);
    } else {
      SumNone(m);
    }
  }

  lemma LastApart(ps: seq<Part>)
    requires ps != [] && Apart(ps)
    ensures Apart(ps[..|ps| - 1]) && UnionOf(ps[..|ps| - 1]) !! ps[|ps| - 1].keys
  {
    var last := ps[|ps| - 1].keys;
    ApartFrom(ps[..|ps| - 1], last);
  }

  lemma {:induction false} ApartFrom(ps: seq<Part>, s: set<string>)
    requires forall i :: 0 <= i < |ps| ==> ps[i].keys !! s
    ensures UnionOf(ps) !! s
    decreases |ps|
  {
    if ps != [] { ApartFrom(ps[..|ps| - 1], s); }
  }

  /** Each (sub)stack: the reported entries and its "other" add up to its total. */
  lemma BreakdownSum(m: Values, b: Breakdown)
    requires Exact(b) && b.taken <= m.Keys
    ensures SumEntries(Entries(m, b.parts)) + SumOver(m, b.rest) == SumOver(m, b.taken)
  {
    EntriesSum(m, b.parts);
    SumUnion(m, UnionOf(b.parts), b.rest);
  }

  // ----- what is shown

  /** The items with their full names and thresholds. */
  function Named(prefix: string, items: seq<Item>): set<(string, real)>
    decreases items, 0
  {
    if items == [] then {} else Named(prefix, items[..|items| - 1]) + NamedItem(prefix, items[|items| - 1])
  }

  function NamedItem(prefix: string, item: Item): set<(string, real)>
    decreases item, 1
  {
    {(prefix + item.name, item.threshold)} +
    match item
    case Leaf(_, _, _) => {}
    case Group(_, _, items) => Named(prefix + item.name + "-", items)
  }

  /** A part that an item of that name justifies: its share exceeds the item's threshold. */
  ghost predicate Justified(c: Setup, p: Part, named: set<(string, real)>)
    requires c.scale != 0.0 && p.keys <= c.values.Keys
  {
    exists t :: (p.name, t) in named && SumOver(c.values, p.keys) / c.scale > t
  }

  ghost predicate AllJustified(c: Setup, ps: seq<Part>, named: set<(string, real)>)
    requires c.scale != 0.0
  {
    forall i :: 0 <= i < |ps| ==> ps[i].keys <= c.values.Keys && Justified(c, ps[i], named)
  }

  lemma {:induction false} ItemJustified(c: Setup, prefix: string, item: Item, available: set<string>)
    requires available <= c.values.Keys && c.scale != 0.0 && c.collapse
    ensures AllJustified(c, BreakItem(c, prefix, item, available).parts, NamedItem(prefix, item))
    decreases item, 1
  {
    hide SumOver;
    var b := BreakItem(c, prefix, item, available);
    assert (prefix + item.name, item.threshold) in NamedItem(prefix, item);
    if item.Group? {
      BreakJustified(c, prefix + item.name + "-", item.items, available);
      MoreNames(c, Break(c, prefix + item.name + "-", item.items, available).parts,
          Named(prefix + item.name + "-", item.items), NamedItem(prefix, item));
    }
  }

  lemma MoreNames(c: Setup, ps: seq<Part>, a: set<(string, real)>, b: set<(string, real)>)
    requires c.scale != 0.0 && AllJustified(c, ps, a) && a <= b
    ensures AllJustified(c, ps, b)
  {
  }

  /** When small components are collapsed, everything shown exceeds the threshold of the item it is named
      after. */
  lemma {:induction false} BreakJustified(c: Setup, prefix: string, items: seq<Item>, available: set<string>)
    requires available <= c.values.Keys && c.scale != 0.0 && c.collapse
    ensures AllJustified(c, Break(c, prefix, items, available).parts, Named(prefix, items))
    decreases items, 0
  {
    hide Justified, BreakItem;
    if items != [] {
      var before := Break(c, prefix, items[..|items| - 1], available);
      var last := BreakItem(c, prefix, items[|items| - 1], available - before.taken);
      BreakJustified(c, prefix, items[..|items| - 1], available);
      ItemJustified(c, prefix, items[|items| - 1], available - before.taken);
      MoreNames(c, before.parts, Named(prefix, items[..|items| - 1]), Named(prefix, items));
      MoreNames(c, last.parts, NamedItem(prefix, items[|items| - 1]), Named(prefix, items));
    }
  }

  /** The full names of the leaves, in order. */
  function LeafNames(prefix: string, items: seq<Item>): seq<string>
    decreases items, 0
  {
    if items == [] then [] else LeafNames(prefix, items[..|items| - 1]) + ItemNames(prefix, items[|items| - 1])
  }

  function ItemNames(prefix: string, item: Item): seq<string>
    decreases item, 1
  {
    match item
    case Leaf(name, _, _) => [prefix + name]
    case Group(name, _, items) => LeafNames(prefix + name + "-", items)
  }

  function NamesOf(ps: seq<Part>): (ns: seq<string>)
    ensures |ns| == |ps|
  {
    if ps == [] then [] else NamesOf(ps[..|ps| - 1]) + [ps[|ps| - 1].name]
  }

  lemma {:induction false} NamesConcat(ps: seq<Part>, qs: seq<Part>)
    ensures NamesOf(ps + qs) == NamesOf(ps) + NamesOf(qs)
    decreases |qs|
  {
    if qs == [] {
      assert ps + qs == ps;
    } else {
      assert (ps + qs)[..|ps + qs| - 1] == ps + qs[..|qs| - 1];
      NamesConcat(ps, qs[..|qs| - 1]);
    }
  }

  lemma {:induction false} ItemUncollapsed(c: Setup, prefix: string, item: Item, available: set<string>)
    requires available <= c.values.Keys && c.scale != 0.0 && !c.collapse
    ensures var b := BreakItem(c, prefix, item, available); b.rest == {} && NamesOf(b.parts) == ItemNames(prefix, item)
    decreases item, 1
  {
    if item.Group? {
      Uncollapsed(c, prefix + item.name + "-", item.items, available);
    } else {
      var ps := BreakItem(c, prefix, item, available).parts;
      assert ps[..0] == [];
    }
  }

  /** Without collapsing every leaf is shown, in order, and nothing goes to "other". */
  lemma {:induction false} Uncollapsed(c: Setup, prefix: string, items: seq<Item>, available: set<string>)
    requires available <= c.values.Keys && c.scale != 0.0 && !c.collapse
    ensures var b := Break(c, prefix, items, available); b.rest == {} && NamesOf(b.parts) == LeafNames(prefix, items)
    decreases items, 0
  {
    hide BreakItem;
    if items != [] {
      var before := Break(c, prefix, items[..|items| - 1], available);
      Uncollapsed(c, prefix, items[..|items| - 1], available);
      ItemUncollapsed(c, prefix, items[|items| - 1], available - before.taken);
      NamesConcat(before.parts, BreakItem(c, prefix, items[|items| - 1], available - before.taken).parts);
    }
  }

  // ----- the merge itself

  method SumValues(m: Values) returns (s: real)
    ensures s == SumOver(m, m.Keys)
  {
    hide SumOver;
    s := 0.0;
    var left := m.Keys;
    SumNone(m);
    while left != {}
      invariant left <= m.Keys && s + SumOver(m, left) == SumOver(m, m.Keys)
      decreases |left|
    {
      var k :| k in left;
      SumRemove(m, left, k);
      s := s + m[k];
      left := left - {k};
    }
  }

  lemma SumNone(m: Values)
    ensures SumOver(m, {}) == 0.0
  {
  }

  class Merger {
    var values: Values
    const scale: real
    const collapse: bool

    constructor (m: Values, s: real, c: bool)
      ensures values == m && scale == s && collapse == c
    {
      values := m;
      scale := s;
      collapse := c;
    }

    /** The values not taken yet are those of the original table. */
    ghost predicate PartOf(m: Values)
      reads this
    {
      values.Keys <= m.Keys && forall k :: k in values ==> values[k] == m[k]
    }

    ghost function SetupFor(m: Values): Setup { Setup(m, scale, collapse) }

    /** Adds up the values of some keys and deletes them, so that none is counted again. */
    method TakeKeys(keys: seq<string>, ghost m: Values) returns (value: real)
      requires PartOf(m)
      modifies this
      ensures PartOf(m) && values.Keys == old(values.Keys) - KeySet(keys)
      ensures value == SumOver(m, old(values.Keys) * KeySet(keys))
    {
      hide SumOver;
      value := 0.0;
      ghost var taken := {};
      SumNone(m);
      for i := 0 to |keys|
        invariant PartOf(m) && taken == old(values.Keys) * KeySet(keys[..i])
            && values.Keys == old(values.Keys) - KeySet(keys[..i])
        invariant value == SumOver(m, taken)
      {
        var key := keys[i];
        assert KeySet(keys[..i + 1]) == KeySet(keys[..i]) + {key};
        if key in values {
          assert taken + {key} - {key} == taken;
          SumRemove(m, taken + {key}, key);
          value := value + values[key];
          values := values - {key};
          taken := taken + {key};
        }
      }
      assert keys[..|keys|] == keys;
    }

    /** What the results of a list of items say about its breakdown. */
    ghost predicate Reports(m: Values, b: Breakdown, res: seq<Entry>, total: real, other: real) {
      Exact(b) && b.taken <= m.Keys && res == Entries(m, b.parts) && total == SumOver(m, b.taken)
          && other == SumOver(m, b.rest)
    }

    /** One leaf: its value, and whether it is shown. */
    method GetLeaf(prefix: string, item: Item, ghost m: Values) returns (res: seq<Entry>, total: real, other: real)
      requires item.Leaf? && PartOf(m) && scale != 0.0
      modifies this
      ensures PartOf(m)
      ensures var b := BreakItem(SetupFor(m), prefix, item, old(values.Keys));
              Reports(m, b, res, total, other) && values.Keys == old(values.Keys) - b.taken
    {
      hide SumOver;
      ghost var b := BreakItem(SetupFor(m), prefix, item, values.Keys);
      ItemExact(SetupFor(m), prefix, item, values.Keys);
      SumNone(m);
      total := TakeKeys(item.keys, m);
      if total / scale <= item.threshold && collapse {
        res, other := [], total;
      } else {
        assert b.parts[..0] == [] && Entries(m, b.parts) == [] + [Entry(prefix + item.name, total)];
        res, other := [Entry(prefix + item.name, total)], 0.0;
      }
    }

    /** A list of items: the shown components, the total and what went to "other". */
    method GetItems(prefix: string, items: seq<Item>, ghost m: Values)
        returns (res: seq<Entry>, total: real, other: real)
      requires PartOf(m) && scale != 0.0
      modifies this
      ensures PartOf(m)
      ensures var b := Break(SetupFor(m), prefix, items, old(values.Keys));
              Reports(m, b, res, total, other) && values.Keys == old(values.Keys) - b.taken
      decreases items, 0
    {
      hide BreakItem, Exact, SumOver, Entries, Merger.Reports;
      res, total, other := [], 0.0, 0.0;
      ghost var available := values.Keys;
      ghost var b := Breakdown([], {}, {});
      ReportsNothing(m);
      for i := 0 to |items|
        invariant PartOf(m) && b == Break(SetupFor(m), prefix, items[..i], available)
        invariant Reports(m, b, res, total, other) && values.Keys == available - b.taken
      {
        ghost var f := BreakItem(SetupFor(m), prefix, items[i], values.Keys);
        assert items[..i + 1][..i] == items[..i];
        var itemRes, itemTotal, itemOther;
        if items[i].Group? {
          itemRes, itemTotal, itemOther := GetGroup(prefix, items[i], m);
        } else {
          itemRes, itemTotal, itemOther := GetLeaf(prefix, items[i], m);
        }
        ReportsJoined(m, b, res, total, other, f, itemRes, itemTotal, itemOther);
        res, total, other := res + itemRes, total + itemTotal, other + itemOther;
        b := Joined(b, f);
      }
      assert items[..|items|] == items;
    }

    /** One group: collapsed, shown as an aggregate, or shown by its components. */
    method GetGroup(prefix: string, item: Item, ghost m: Values) returns (res: seq<Entry>, total: real, other: real)
      requires item.Group? && PartOf(m) && scale != 0.0
      modifies this
      ensures PartOf(m)
      ensures var b := BreakItem(SetupFor(m), prefix, item, old(values.Keys));
              Reports(m, b, res, total, other) && values.Keys == old(values.Keys) - b.taken
      decreases item, 1
    {
      hide SumOver, Exact, Break;
      ghost var b := BreakItem(SetupFor(m), prefix, item, values.Keys);
      ghost var sub := Break(SetupFor(m), prefix + item.name + "-", item.items, values.Keys);
      ItemExact(SetupFor(m), prefix, item, values.Keys);
      SumNone(m);
      var subRes, subTotal, subOther := GetItems(prefix + item.name + "-", item.items, m);
      total := subTotal;
      if subTotal / scale <= item.threshold && collapse {
        res, other := [], subTotal;
      } else if subRes == [] && collapse {
        assert b.parts[..0] == [] && Entries(m, b.parts) == [] + [Entry(prefix + item.name, subTotal)];
        res, other := [Entry(prefix + item.name, subTotal)], 0.0;
      } else {
        res, other := subRes, subOther;
      }
    }

    lemma ReportsNothing(m: Values)
      ensures Reports(m, Breakdown([], {}, {}), [], 0.0, 0.0)
    {
    }

    lemma ReportsJoined(m: Values, a: Breakdown, res: seq<Entry>, total: real, other: real,
                        b: Breakdown, res': seq<Entry>, total': real, other': real)
      requires Reports(m, a, res, total, other) && Reports(m, b, res', total', other') && a.taken !! b.taken
      ensures Reports(m, Joined(a, b), res + res', total + total', other + other')
    {
      hide SumOver, Entries;
      JoinedExact(a, b);
      EntriesConcat(m, a.parts, b.parts);
      SumUnion(m, a.taken, b.taken);
      SumUnion(m, a.rest, b.rest);
    }
  }

  /** The scale of the thresholds: the sum of all values, or one if that is zero. */
  ghost function ScaleOf(m: Values): real {
    if SumOver(m, m.Keys) == 0.0 then 1.0 else SumOver(m, m.Keys)
  }

  /** The results for one core: entries, total of the items, "other", scale, and the values no item names. */
  datatype Stack = Stack(entries: seq<Entry>, total: real, other: real, scale: real, unknown: Values)

  /** The entries, "other" included, add up to the values given; up to "other" they are the components that
      the breakdown shows; and the unknown values are those of the keys that no item names. */
  ghost predicate Merged(m: Values, items: seq<Item>, nocollapse: bool, r: Stack) {
    && r.scale == ScaleOf(m) && SumEntries(r.entries) == SumOver(m, m.Keys)
    && r.unknown == m - AllKeys(items)
    && var b := Break(Setup(m, r.scale, !nocollapse), "", items, m.Keys);
       && Exact(b) && b.taken == m.Keys * AllKeys(items)
       && r.total == SumOver(m, b.taken) && r.other == SumOver(m, m.Keys - UnionOf(b.parts))
       && r.entries == Entries(m, b.parts) + (if r.other == 0.0 then [] else [Entry("other", r.other)])
  }

  /** The whole stack of one core. */
  method MergeItems(m: Values, items: seq<Item>, nocollapse: bool) returns (r: Stack)
    ensures Merged(m, items, nocollapse, r)
  {
    hide SumOver, Entries, Break, AllKeys;
    var scale := SumValues(m);
    if scale == 0.0 { scale := 1.0; }
    var merger := new Merger(m, scale, !nocollapse);
    var res, total, other := merger.GetItems("", items, m);
    ghost var b := Break(Setup(m, scale, !nocollapse), "", items, m.Keys);
    BreakExact(Setup(m, scale, !nocollapse), "", items, m.Keys);
    var left := SumValues(merger.values);
    SumAgrees(m, merger.values, merger.values.Keys);
    assert merger.values.Keys == m.Keys - b.taken;
    assert merger.values == m - AllKeys(items);
    other := other + left;
    MergedSum(m, b);
    if other != 0.0 {
      var all := res + [Entry("other", other)];
      assert all[..|all| - 1] == res;
      res := all;
    } else {
      assert res + [] == res;
    }
    r := Stack(res, total, other, scale, merger.values);
  }

  /** The stacks of all cores, each from its own values. */
  method MergeCores(data: map<nat, Values>, items: seq<Item>, nocollapse: bool) returns (results: map<nat, Stack>)
    ensures results.Keys == data.Keys
    ensures forall core :: core in data ==> Merged(data[core], items, nocollapse, results[core])
  {
    hide Merged;
    results := map[];
    var left := data.Keys;
    while left != {}
      invariant left <= data.Keys && results.Keys == data.Keys - left
      invariant forall core :: core in results ==> Merged(data[core], items, nocollapse, results[core])
      decreases |left|
    {
      var core :| core in left;
      var r := MergeItems(data[core], items, nocollapse);
      results := results[core := r];
      left := left - {core};
    }
  }

  lemma MergedSum(m: Values, b: Breakdown)
    requires Exact(b) && b.taken <= m.Keys
    ensures var other := SumOver(m, b.rest) + SumOver(m, m.Keys - b.taken);
            && other == SumOver(m, m.Keys - UnionOf(b.parts))
            && SumEntries(Entries(m, b.parts)) + other == SumOver(m, m.Keys)
  {
    hide SumOver, Entries, UnionOf;
    BreakdownSum(m, b);
    SumUnion(m, b.taken, m.Keys - b.taken);
    assert b.taken + (m.Keys - b.taken) == m.Keys;
    SumUnion(m, b.rest, m.Keys - b.taken);
    assert b.rest + (m.Keys - b.taken) == m.Keys - UnionOf(b.parts);
  }
}
