/** The SIFT reader object: consumes the byte stream, keeps code pages and page mappings, and caches decoded
    instructions as objects linked to their probable successors. */
module SiftReader {
  import opened Wrappers
  import opened SiftFormat
  import opened SiftTrace

  class StaticInstruction {
    const addr: nat
    const size: nat
    const data: seq<byte>
    var next: StaticInstruction?

    constructor (a: nat, n: nat, code: seq<byte>)
      ensures addr == a && size == n && data == code && next == null
    {
      addr := a;
      size := n;
      data := code;
      next := null;
    }
  }

  /** What one call of `Read` gives: an instruction, the end of the trace, a failed assertion, or nothing
      at all when the end was seen before. */
  datatype Outcome = Executed(i: Instr, sinst: StaticInstruction) | Ended | Failed | Stale

  class Reader {
    var input: seq<byte>
    var lastAddress: nat
    var icache: Pages
    var scache: map<nat, StaticInstruction>
    var vcache: map<nat, nat>
    var lastSinst: StaticInstruction?
    var seenEnd: bool
    ghost var reported: seq<Event>

    /** Every object is the cache entry of its own address, and so is every successor. */
    ghost predicate Cached()
      reads this`scache, this`lastSinst, scache.Values
    {
      && (forall a :: a in scache ==> scache[a].addr == a)
      && (forall a :: a in scache && scache[a].next != null ==>
            scache[a].next.addr in scache && scache[scache[a].next.addr] == scache[a].next)
      && (lastSinst != null ==> lastSinst.addr in scache && scache[lastSinst.addr] == lastSinst)
    }

    ghost predicate Valid()
      reads this`scache, this`lastSinst, this`icache, scache.Values
    {
      Cached() && WholeMap(icache)
    }

    ghost function Decoded(): map<nat, (nat, seq<byte>)>
      reads this`scache, scache.Values
    {
      map a | a in scache :: (scache[a].size, scache[a].data)
    }

    ghost function Successors(): map<nat, nat>
      reads this`scache, scache.Values
    {
      map a | a in scache && scache[a].next != null :: scache[a].next.addr
    }

    ghost function Last(): Option<nat>
      reads this`lastSinst
    {
      if lastSinst == null then None else Some(lastSinst.addr)
    }

    ghost function View(): (r: RState)
      reads this`lastAddress, this`icache, this`scache, this`lastSinst, this`vcache, scache.Values
      ensures Valid() ==> WholePages(r)
    {
      RState(lastAddress, icache, Decoded(), Last(), Successors(), vcache)
    }

    constructor (stream: seq<byte>)
      ensures Valid() && View() == ReaderStart && input == stream && reported == [] && !seenEnd
      ensures scache == map[]
    {
      input := stream;
      lastAddress := 0;
      icache := map[];
      scache := map[];
      vcache := map[];
      lastSinst := null;
      seenEnd := false;
      reported := [];
    }

    /** Copies the code of an instruction out of the pages, chunk by chunk; null where a page is missing. */
    method DecodeInstruction(addr: nat, size: nat) returns (sinst: StaticInstruction?)
      requires Valid()
      ensures sinst == null <==> Fetch(icache, addr, size).None?
      ensures sinst != null ==> fresh(sinst) && sinst.addr == addr && sinst.size == size && sinst.next == null
                                && sinst.data == Fetch(icache, addr, size).value
    {
      hide Present, ByteAt, Cached, Fetch;
      var data: seq<byte> := [];
      var left: nat := size;
      var base: nat := Base(addr);
      while left > 0
        invariant left <= size && |data| == size - left
        invariant left > 0 ==> base == Base(addr + |data|) && (data == [] || (addr + |data|) % PAGE == 0)
        invariant Holds(icache, addr, data)
      {
        var offset := if data == [] then addr % PAGE else 0;
        var amount := if left < PAGE - offset then left else PAGE - offset;
        if base !in icache {
          PageMissing(icache, addr, size, addr + |data|);
          return null;
        }
        HoldsChunk(icache, addr, data, offset, amount);
        if amount < left { ChunkEnd(addr + |data|, offset, amount); }
        data := data + icache[base][offset..offset + amount];
        left := left - amount;
        base := base + PAGE;
      }
      HoldsAll(icache, addr, data);
      sinst := new StaticInstruction(addr, size, data);
    }

    /** The static instruction at an address: the probable next one, else the cached one, else decoded. */
    method GetStaticInstruction(addr: nat, size: nat) returns (sinst: StaticInstruction?)
      requires Valid()
      modifies this`scache, this`lastSinst, scache.Values
      ensures Valid() && fresh(scache.Values - old(scache.Values))
      ensures sinst == null <==> Static(old(View()), addr, size).None?
      ensures sinst == null ==> View() == old(View())
      ensures sinst != null ==>
                && (View(), sinst.data) == Static(old(View()), addr, size).value
                && addr in scache && sinst == scache[addr]
    {
      hide Static, Visited, Fetch;
      ghost var before := View();
      StaticCases(before, addr, size);
      if lastSinst != null && lastSinst.next != null && lastSinst.next.addr == addr {
        sinst := lastSinst.next;
        assert ProbableNext(before, addr);
      } else if addr in scache {
        sinst := scache[addr];
        assert before.decoded[addr] == (sinst.size, sinst.data);
        assert !ProbableNext(before, addr);
        if sinst.size != size { return null; }
      } else {
        assert !ProbableNext(before, addr);
        sinst := DecodeInstruction(addr, size);
        if sinst == null { return; }
        AddEntry(sinst);
      }
      Remember(sinst);
    }

    method AddEntry(sinst: StaticInstruction)
      requires Valid() && sinst.addr !in scache && sinst.next == null && sinst !in scache.Values
      modifies this`scache
      ensures Valid() && scache == old(scache)[sinst.addr := sinst]
      ensures View() == old(View()).(decoded := old(View()).decoded[sinst.addr := (sinst.size, sinst.data)])
    {
      scache := scache[sinst.addr := sinst];
      assert Decoded() == old(Decoded())[sinst.addr := (sinst.size, sinst.data)];
      assert Successors() == old(Successors());
    }

    /** Makes `sinst` the last instruction, and the successor of the one before if that has none. */
    method Remember(sinst: StaticInstruction)
      requires Valid() && sinst.addr in scache && scache[sinst.addr] == sinst
      modifies this`lastSinst, scache.Values
      ensures Valid() && View() == Visited(old(View()), sinst.addr)
    {
      if lastSinst != null && lastSinst.next == null {
        assert lastSinst in scache.Values;
        lastSinst.next := sinst;
        assert Decoded() == old(Decoded());
        assert Successors() == old(Successors())[lastSinst.addr := sinst.addr];
      }
      lastSinst := sinst;
    }

    /** Stores code bytes at an address, page by page. */
    method StoreCode(a: nat, d: seq<byte>)
      requires Valid()
      modifies this`icache
      ensures Valid() && icache == Store(old(icache), a, d)
    {
      hide Store;
      ghost var goal := Store(icache, a, d);
      var address: nat, left := a, d;
      while |left| > 0
        invariant WholeMap(icache) && Store(icache, address, left) == goal
        decreases |left|
      {
        var base, offset := Base(address), address % PAGE;
        var amount := if |left| < PAGE - offset then |left| else PAGE - offset;
        StoreStep(icache, address, left, amount);
        var page := if base in icache then icache[base] else seq(PAGE, k requires 0 <= k < PAGE => 0);
        icache := icache[base := page[..offset] + left[..amount] + page[offset + amount..]];
        left := left[amount..];
        address := base + PAGE;
      }
      StoreNothing(icache, address);
    }

    /** A record that is not an instruction: code, a page mapping, a message for a handler, or nothing of
        interest. */
    method HandleOther(kind: byte, data: seq<byte>) returns (ok: bool)
      requires Valid()
      modifies this`icache, this`vcache, this`reported
      ensures Valid()
      ensures ok <==> ReadRecord(old(View()), Other(kind, data)).Some?
      ensures ok ==> View() == ReadRecord(old(View()), Other(kind, data)).value.state
      ensures ok ==> reported == old(reported) + ReadRecord(old(View()), Other(kind, data)).value.events
    {
      hide Store, FromBytes, WellSized, Cached;
      assert reported + [] == reported;
      if kind == ICACHE {
        if |data| != 8 + PAGE { return false; }
        icache := icache[FromBytes(data[..8]) := data[8..]];
      } else if kind == ICACHE_VARIABLE {
        if |data| < 8 { return false; }
        StoreCode(FromBytes(data[..8]), data[8..]);
      } else if kind == LOGICAL2PHYSICAL {
        if |data| != 16 { return false; }
        vcache := vcache[FromBytes(data[..8]) := FromBytes(data[8..])];
      } else if kind in HANDLED {
        if !WellSized(kind, |data|) { return false; }
        reported := reported + [Handled(kind, data)];
      }
      return true;
    }

    /** Handles everything up to the next instruction and delivers it. Read this way the rest of the stream
        gives what it would have given before. */
    method Read() returns (o: Outcome)
      requires Valid()
      modifies this, scache.Values
      ensures Valid() && fresh(scache.Values - old(scache.Values))
      ensures o.Stale? <==> old(seenEnd)
      ensures o.Executed? ==> |input| < |old(input)| && !seenEnd
      ensures o.Executed? ==> Ahead(reported, View(), input) == old(Ahead(reported, View(), input))
      ensures o.Executed? ==> reported != [] && reported[|reported| - 1] == Instruction(o.i, o.sinst.data)
      ensures o.Executed? ==> o.i.addr in scache && scache[o.i.addr] == o.sinst
      ensures o.Ended? ==> seenEnd && old(Ahead(reported, View(), input)) == Some(Reading(View(), reported))
      ensures o.Failed? ==> old(Ahead(reported, View(), input)) == None
    {
      hide ReadRecord, ReadBytes, Decode, Reader.Cached, Reader.Decoded, Reader.Successors, Ahead;
      ghost var goal := Ahead(reported, View(), input);
      while !seenEnd
        invariant Valid() && seenEnd == old(seenEnd) && scache == old(scache)
        invariant |input| <= |old(input)| && Ahead(reported, View(), input) == goal
        decreases |input|
      {
        var decoded := Decode(input);
        AheadStep(reported, View(), input);
        if decoded == None { return Failed; }
        var (rec, rest) := decoded.value;
        input := rest;
        if IsEnd(rec) {
          if rec.data != [] { return Failed; }
          seenEnd := true;
          return Ended;
        }
        if rec.Other? {
          var ok := HandleOther(rec.kind, rec.data);
          if !ok { return Failed; }
        } else {
          o := Deliver(rec);
          return;
        }
      }
      return Stale;
    }

    /** One instruction record: the address is the expected one unless the record gives another. */
    method Deliver(rec: Record) returns (o: Outcome)
      requires Valid() && !rec.Other?
      modifies this`lastAddress, this`scache, this`lastSinst, this`reported, scache.Values
      ensures Valid() && fresh(scache.Values - old(scache.Values))
      ensures o.Executed? || o.Failed?
      ensures o.Failed? <==> ReadRecord(old(View()), rec).None?
      ensures o.Executed? ==>
                && View() == ReadRecord(old(View()), rec).value.state
                && ReadRecord(old(View()), rec).value.events == [Instruction(o.i, o.sinst.data)]
                && reported == old(reported) + [Instruction(o.i, o.sinst.data)]
                && o.i.addr in scache && scache[o.i.addr] == o.sinst
    {
      hide ReadInstr, ReadRecord, Reader.Cached, Reader.Decoded, Reader.Successors;
      DeliveryCases(View(), rec);
      match rec
      case Simple(size, br, taken, addresses) =>
        if lastAddress >= TOP { return Failed; }
        o := DeliverInstr(Instr(lastAddress, size, addresses, br, taken, false, true));
      case Extended(size, br, taken, pred, exec, addr, addresses) =>
        o := DeliverInstr(Instr(addr, size, addresses, br, taken, pred, exec));
    }

    method DeliverInstr(i: Instr) returns (o: Outcome)
      requires Valid()
      modifies this`lastAddress, this`scache, this`lastSinst, this`reported, scache.Values
      ensures Valid() && fresh(scache.Values - old(scache.Values))
      ensures o.Executed? || o.Failed?
      ensures o.Failed? <==> ReadInstr(old(View()), i).None?
      ensures o.Executed? ==>
                && o.i == i && ReadInstr(old(View()), i) == Some(Reading(View(), [Instruction(i, o.sinst.data)]))
                && reported == old(reported) + [Instruction(i, o.sinst.data)]
                && i.addr in scache && scache[i.addr] == o.sinst
    {
      hide Static, Reader.Cached, Reader.Decoded, Reader.Successors;
      lastAddress := i.addr + i.size;
      var sinst := GetStaticInstruction(i.addr, i.size);
      if sinst == null { return Failed; }
      reported := reported + [Instruction(i, sinst.data)];
      return Executed(i, sinst);
    }

    /** Reads instructions until there are no more. */
    method ReadTrace() returns (ok: bool)
      requires Valid() && !seenEnd
      modifies this, scache.Values
      ensures ok <==> old(Ahead(reported, View(), input)).Some?
      ensures ok ==> seenEnd && old(Ahead(reported, View(), input)) == Some(Reading(View(), reported))
    {
      hide Ahead, Valid, View;
      ghost var goal := Ahead(reported, View(), input);
      while true
        invariant Valid() && !seenEnd && fresh(scache.Values - old(scache.Values))
        invariant Ahead(reported, View(), input) == goal
        decreases |input|
      {
        var o := Read();
        if !o.Executed? { return o.Ended?; }
      }
    }
  }

  // ----- reading on

  ghost predicate WholeMap(pages: Pages) {
    forall b :: b in pages ==> |pages[b]| == PAGE
  }

  /** All that will have been reported once the rest of the stream is read. */
  ghost function Ahead(events: seq<Event>, r: RState, b: seq<byte>): Option<Reading>
    requires WholePages(r)
  {
    match ReadBytes(r, b)
    case None => None
    case Some(x) => Some(Reading(x.state, events + x.events))
  }

  lemma AheadStep(events: seq<Event>, r: RState, b: seq<byte>)
    requires WholePages(r)
    ensures Decode(b) == None ==> Ahead(events, r, b) == None
    ensures Decode(b).Some? ==>
              var (rec, rest) := Decode(b).value;
              if IsEnd(rec) then Ahead(events, r, b) == if rec.data == [] then Some(Reading(r, events)) else None
              else match ReadRecord(r, rec)
                   case None => Ahead(events, r, b) == None
                   case Some(first) => WholePages(first.state)
                                       && Ahead(events, r, b) == Ahead(events + first.events, first.state, rest)
  {
    hide ReadRecord, Decode;
    if Decode(b).Some? {
      var (rec, rest) := Decode(b).value;
      if IsEnd(rec) {
        assert events + [] == events;
      } else if ReadRecord(r, rec).Some? {
        var first := ReadRecord(r, rec).value;
        ReadKeepsPages(r, rec);
        var more := ReadBytes(first.state, rest);
        if more.Some? { assert events + (first.events + more.value.events) == (events + first.events)
            + more.value.events; }
      }
    }
  }

  lemma DeliveryCases(r: RState, rec: Record)
    requires WholePages(r) && !rec.Other?
    ensures rec.Simple? && r.lastAddress >= TOP ==> ReadRecord(r, rec) == None
    ensures rec.Simple? && r.lastAddress < TOP ==>
              ReadRecord(r, rec) == ReadInstr(r, Instr(r.lastAddress, rec.size, rec.addresses, rec.isBranch,
                  rec.taken, false, true))
    ensures rec.Extended? ==>
              ReadRecord(r, rec) == ReadInstr(r, Instr(rec.addr, rec.size, rec.addresses, rec.isBranch, rec.taken,
                  rec.isPredicate, rec.executed))
  {
  }

  lemma StaticCases(r: RState, addr: nat, size: nat)
    ensures ProbableNext(r, addr) ==> Static(r, addr, size) == Some((Visited(r, addr), r.decoded[addr].1))
    ensures !ProbableNext(r, addr) && addr in r.decoded ==>
              Static(r, addr, size) ==
              if r.decoded[addr].0 == size then Some((Visited(r, addr), r.decoded[addr].1)) else None
    ensures addr !in r.decoded ==>
              match Fetch(r.pages, addr, size)
              case None => Static(r, addr, size) == None
              case Some(code) => Static(r, addr, size) == Some((Visited(r.(decoded := r.decoded[addr := (size,
                                 code)]), addr), code))
  {
  }

  // ----- chunks

  /** The pages hold these bytes at `a`. */
  ghost predicate Holds(pages: Pages, a: nat, d: seq<byte>) {
    forall x {:trigger Present(pages, x)} :: a <= x < a + |d| ==> Present(pages, x) && d[x - a] == ByteAt(pages, x)
  }

  lemma PageMissing(pages: Pages, a: nat, n: nat, x: nat)
    requires a <= x < a + n && Base(x) !in pages
    ensures Fetch(pages, a, n) == None
  {
    assert !Present(pages, x);
  }

  /** A chunk that ends within the page of its first byte. */
  lemma HoldsChunk(pages: Pages, a: nat, d: seq<byte>, offset: nat, amount: nat)
    requires Holds(pages, a, d)
    requires Base(a + |d|) in pages && |pages[Base(a + |d|)]| == PAGE && offset == (a + |d|) % PAGE
        && offset + amount <= PAGE
    ensures Holds(pages, a, d + pages[Base(a + |d|)][offset..offset + amount])
  {
    var e := d + pages[Base(a + |d|)][offset..offset + amount];
    forall x {:trigger Present(pages, x)} | a <= x < a + |e| ensures Present(pages, x) && e[x - a] == ByteAt(pages, x) {
      if x >= a + |d| { SamePage(a + |d|, x - (a + |d|)); } else { assert Present(pages, x); }
    }
  }

  lemma HoldsAll(pages: Pages, a: nat, d: seq<byte>)
    requires Holds(pages, a, d)
    ensures Fetch(pages, a, |d|) == Some(d)
  {
    var g := Gather(pages, a, |d|);
    forall k | 0 <= k < |d| ensures g[k] == d[k] {
      assert Present(pages, a + k);
    }
    assert g == d;
    assert forall x :: a <= x < a + |d| ==> Present(pages, x);
  }

  /** After a chunk that fills its page comes the start of the next page. */
  lemma ChunkEnd(a: nat, offset: nat, amount: nat)
    requires offset == a % PAGE && offset + amount == PAGE
    ensures (a + amount) % PAGE == 0 && Base(a + amount) == Base(a) + PAGE
  {
  }

  lemma SamePage(a: nat, j: nat)
    requires a % PAGE + j < PAGE
    ensures Base(a + j) == Base(a) && (a + j) % PAGE == a % PAGE + j
  {
  }

  lemma StoreNothing(pages: Pages, a: nat)
    requires WholeMap(pages)
    ensures Store(pages, a, []) == pages
  {
    assert Touched(a, 0) == {};
    var s := Store(pages, a, []);
    assert s.Keys == pages.Keys;
    forall b | b in pages ensures s[b] == pages[b] { }
  }

  /** Storing the first chunk in its page and the rest after it is storing everything. */
  lemma StoreStep(pages: Pages, a: nat, d: seq<byte>, amount: nat)
    requires WholeMap(pages) && 0 < amount <= |d| && a % PAGE + amount <= PAGE
    requires amount == |d| || a % PAGE + amount == PAGE
    ensures var base, offset := Base(a), a % PAGE;
            var page := if base in pages then pages[base] else seq(PAGE, k requires 0 <= k < PAGE => 0);
            var q := pages[base := page[..offset] + d[..amount] + page[offset + amount..]];
            WholeMap(q) && Store(q, base + PAGE, d[amount..]) == Store(pages, a, d)
  {
    hide Store, StoredByte, Touched;
    var base, offset := Base(a), a % PAGE;
    var page := if base in pages then pages[base] else seq(PAGE, k requires 0 <= k < PAGE => 0);
    var q := pages[base := page[..offset] + d[..amount] + page[offset + amount..]];
    var x, y := Store(q, base + PAGE, d[amount..]), Store(pages, a, d);
    TouchedSplit(a, |d|, amount);
    StoreBytes(pages, a, d);
    StoreBytes(q, base + PAGE, d[amount..]);
    forall b | b in y ensures x[b] == y[b] {
      forall k: nat | k < PAGE ensures x[b][k] == y[b][k] { StepByte(pages, a, d, amount, page, b, k); }
    }
  }

  lemma StoreBytes(pages: Pages, a: nat, d: seq<byte>)
    requires WholeMap(pages)
    ensures Store(pages, a, d).Keys == pages.Keys + Touched(a, |d|)
    ensures forall b, k: nat :: b in Store(pages, a, d) && k < PAGE
              ==> Store(pages, a, d)[b][k] == StoredByte(pages, a, d, b, k)
  {
  }

  lemma StepByte(pages: Pages, a: nat, d: seq<byte>, amount: nat, page: seq<byte>, b: nat, k: nat)
    requires WholeMap(pages) && 0 < amount <= |d| && a % PAGE + amount <= PAGE
        && (amount == |d| || a % PAGE + amount == PAGE) && k < PAGE
    requires page == if Base(a) in pages then pages[Base(a)] else seq(PAGE, k requires 0 <= k < PAGE => 0)
    ensures var q := pages[Base(a) := page[..a % PAGE] + d[..amount] + page[a % PAGE + amount..]];
            StoredByte(q, Base(a) + PAGE, d[amount..], b, k) == StoredByte(pages, a, d, b, k)
  {
    var q := pages[Base(a) := page[..a % PAGE] + d[..amount] + page[a % PAGE + amount..]];
    if b == Base(a) {
      assert k < a % PAGE ==> q[b][k] == page[k];
    } else if b % PAGE == 0 {
      assert b < Base(a) ==> b + PAGE <= Base(a);
      assert b > Base(a) ==> b >= Base(a) + PAGE;
    }
  }

  lemma TouchedSplit(a: nat, n: nat, amount: nat)
    requires 0 < amount <= n && a % PAGE + amount <= PAGE && (amount == n || a % PAGE + amount == PAGE)
    ensures Touched(a, n) == {Base(a)} + Touched(Base(a) + PAGE, n - amount)
  {
    var next := Base(a) + PAGE;
    forall b | b in Touched(a, n) ensures b in {Base(a)} + Touched(next, n - amount) {
      var x :| a <= x < a + n && b == Base(x);
      if x < a + amount { SamePage(a, x - a); } else { assert next <= x < next + (n - amount); }
    }
    assert Base(a) in Touched(a, n);
    forall b | b in Touched(next, n - amount) ensures b in Touched(a, n) {
      var x :| next <= x < next + (n - amount) && b == Base(x);
      assert a <= x < a + n;
    }
  }
}
