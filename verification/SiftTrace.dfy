/** What the SIFT writer emits for a sequence of calls and what the reader makes of it: the delta-coded
    instruction stream with code pages and page mappings sent on demand. */
module SiftTrace {
  import opened Wrappers
  import opened SiftFormat

  const PAGE: nat := 4096
  const TOP: nat := 0x1_0000_0000_0000_0000

  const ICACHE: byte := 0
  const OUTPUT: byte := 1
  const SYSCALL_REQUEST: byte := 2
  const NEW_THREAD: byte := 4
  const JOIN: byte := 8
  const ICACHE_VARIABLE: byte := 11
  const SYNC: byte := 12
  const LOGICAL2PHYSICAL: byte := 14
  const MAGIC_INSTRUCTION: byte := 15
  const ROUTINE_CHANGE: byte := 17
  const ROUTINE_ANNOUNCE: byte := 18
  const EMU: byte := 19
  const FORK: byte := 21
  const INSTRUCTION_COUNT: byte := 23
  const CACHE_ONLY: byte := 24

  /** The traced program: code bytes and instruction sizes fixed per address, and its page table, where
      zero means that a page is not mapped. */
  datatype Program = Program(code: nat -> byte, sizeAt: nat -> nat, physical: nat -> u64)

  datatype Config = Config(perInstruction: bool, sendMapping: bool)

  datatype Instr = Instr(addr: u64, size: nat, addresses: seq<u64>, isBranch: bool, taken: bool, isPredicate: bool,
      executed: bool)

  /** A call on the writer: an instruction, or one of the records that only carry data to a handler, with
      the addresses whose page mappings go first. */
  datatype Call = Execute(i: Instr) | Message(kind: byte, data: seq<byte>, touched: seq<u64>)

  function Base(a: nat): nat { a - a % PAGE }

  function CodeBytes(p: Program, a: nat, n: nat): (b: seq<byte>)
    ensures |b| == n && forall k :: 0 <= k < n ==> b[k] == p.code(a + k)
  {
    seq<byte>(n, k requires 0 <= k < n => p.code(a + k))
  }

  // ----- what may be sent

  /** The kinds of message that the reader hands on; it skips kinds it does not know. */
  const HANDLED: set<byte> :=
    {OUTPUT, SYSCALL_REQUEST, NEW_THREAD, JOIN, SYNC, MAGIC_INSTRUCTION, ROUTINE_CHANGE, ROUTINE_ANNOUNCE, EMU, FORK,
        INSTRUCTION_COUNT, CACHE_ONLY}

  /** The reader's assertions on the sizes of the messages it hands on. */
  predicate Asserted(kind: byte, n: nat) {
    || (kind == OUTPUT && n > 1)
    || (kind == SYSCALL_REQUEST && n > 2)
    || (kind in {NEW_THREAD, SYNC, FORK} && n == 0)
    || (kind in {JOIN, INSTRUCTION_COUNT} && n == 4)
    || (kind == MAGIC_INSTRUCTION && n == 24)
    || (kind == ROUTINE_CHANGE && n == 25)
    || kind == ROUTINE_ANNOUNCE
    || (kind == CACHE_ONLY && n == 18)
    || (kind == EMU && n <= 10)
  }

  /** Two kinds have fixed fields that the reader takes without asserting that they are there; their writers
      always send them. */
  predicate FieldsSent(kind: byte, n: nat) {
    (kind == EMU ==> n >= 2) && (kind == ROUTINE_ANNOUNCE ==> n >= 30)
  }

  predicate WellSized(kind: byte, n: nat) { Asserted(kind, n) && FieldsSent(kind, n) }

  /** The address of an instruction and of its successor are in the address space; and when whole pages are
      sent, the address after the last of them is too, without which the loop over the pages would not end. */
  predicate Within(cfg: Config, addr: nat, size: nat) {
    addr + size < TOP && (!cfg.perInstruction ==> 1 <= addr + size <= TOP - PAGE)
  }

  ghost predicate ValidInstr(p: Program, cfg: Config, i: Instr) {
    && 1 <= i.size < 16 && i.size == p.sizeAt(i.addr)
    && |i.addresses| <= MAX_DYNAMIC_ADDRESSES
    && Within(cfg, i.addr, i.size)
    && (!i.isPredicate ==> i.executed)
  }

  predicate Sendable(cfg: Config, c: Call) {
    c.Execute? ==> Within(cfg, c.i.addr, c.i.size)
  }

  ghost predicate ValidCall(p: Program, cfg: Config, c: Call) {
    Sendable(cfg, c) &&
    match c
    case Execute(i) => ValidInstr(p, cfg, i)
    case Message(kind, data, _) => kind in HANDLED && WellSized(kind, |data|) && |data| < 0x1_0000_0000
  }

  // ----- the writer

  datatype WState = WState(lastAddress: nat, sent: set<nat>, mapped: set<nat>)

  datatype Emission = Emission(state: WState, records: seq<Record>)

  function Then(e: Emission, f: Emission): Emission { Emission(f.state, e.records + f.records) }

  /** One code page, unless it was sent before. */
  function SendPage(p: Program, w: WState, base: u64): Emission {
    if base in w.sent then Emission(w, [])
    else Emission(w.(sent := w.sent + {base}), [Other(ICACHE, ToBytes(base, 8) + CodeBytes(p, base, PAGE))])
  }

  /** The pages from `base` to `last`, in order. */
  function SendPages(p: Program, w: WState, base: nat, last: nat): Emission
    requires last < TOP
    decreases if base <= last then last - base + 1 else 0
  {
    if base > last then Emission(w, [])
    else
      var e := SendPage(p, w, base);
      Then(e, SendPages(p, e.state, base + PAGE, last))
  }

  function SendCode(p: Program, cfg: Config, w: WState, addr: u64, size: nat): Emission
    requires Within(cfg, addr, size)
  {
    if cfg.perInstruction then
      if addr in w.sent then Emission(w, [])
      else Emission(w.(sent := w.sent + {addr}), [Other(ICACHE_VARIABLE, ToBytes(addr, 8) + CodeBytes(p, addr, size))])
    else SendPages(p, w, Base(addr), Base(addr + size - 1))
  }

  function SendMapping(p: Program, cfg: Config, w: WState, va: u64): Emission {
    var vp := va / PAGE;
    if !cfg.sendMapping || vp in w.mapped || p.physical(vp) == 0 then Emission(w, [])
    else Emission(w.(mapped := w.mapped + {vp}), [Other(LOGICAL2PHYSICAL, ToBytes(vp, 8) + ToBytes(p.physical(vp), 8))])
  }

  function SendMappings(p: Program, cfg: Config, w: WState, vas: seq<u64>): Emission
    decreases |vas|
  {
    if vas == [] then Emission(w, [])
    else
      var e := SendMapping(p, cfg, w, vas[0]);
      Then(e, SendMappings(p, cfg, e.state, vas[1..]))
  }

  /** Simple when the address is the expected one and the instruction is not predicated. */
  function SendInstr(w: WState, i: Instr): Emission {
    var next := w.(lastAddress := i.addr + i.size);
    if i.addr == w.lastAddress && !i.isPredicate then
      Emission(next, [Simple(i.size, i.isBranch, i.taken, i.addresses)])
    else
      Emission(next, [Extended(i.size, i.isBranch, i.taken, i.isPredicate, i.executed, i.addr, i.addresses)])
  }

  function WriteCall(p: Program, cfg: Config, w: WState, c: Call): Emission
    requires Sendable(cfg, c)
  {
    match c
    case Execute(i) =>
      var e := SendCode(p, cfg, w, i.addr, i.size);
      var f := SendMappings(p, cfg, e.state, [i.addr] + i.addresses);
      Then(Then(e, f), SendInstr(f.state, i))
    case Message(kind, data, touched) =>
      var e := SendMappings(p, cfg, w, touched);
      Then(e, Emission(e.state, [Other(kind, data)]))
  }

  // ----- the reader

  type Pages = map<nat, seq<byte>>

  /** Next address, code pages, decode cache, the last instruction with the recorded successor of each, and
      page mappings. */
  datatype RState = RState(lastAddress: nat, pages: Pages, decoded: map<nat, (nat, seq<byte>)>, last: Option<nat>,
                           next: map<nat, nat>, mapping: map<nat, nat>)

  /** What the reader reports: an instruction with its code bytes, or a message for a handler. */
  datatype Event = Instruction(i: Instr, code: seq<byte>) | Handled(kind: byte, data: seq<byte>)

  function Touched(a: nat, n: nat): set<nat> {
    set x | a <= x < a + n :: Base(x)
  }

  /** Storing code bytes at `a`, page by page; pages not seen before start out undefined (zero here). */
  function Store(pages: Pages, a: nat, d: seq<byte>): (r: Pages)
    requires forall b :: b in pages ==> |pages[b]| == PAGE
    ensures forall b :: b in r ==> |r[b]| == PAGE
  {
    map b | b in pages.Keys + Touched(a, |d|) ::
      seq(PAGE, k requires 0 <= k < PAGE => StoredByte(pages, a, d, b, k))
  }

  function StoredByte(pages: Pages, a: nat, d: seq<byte>, b: nat, k: nat): byte
    requires k < PAGE && (b in pages ==> |pages[b]| == PAGE)
  {
    if b % PAGE == 0 && a <= b + k < a + |d| then d[b + k - a] else if b in pages then pages[b][k] else 0
  }

  predicate Present(pages: Pages, a: nat) {
    Base(a) in pages && |pages[Base(a)]| == PAGE
  }

  function ByteAt(pages: Pages, a: nat): byte
    requires Present(pages, a)
  {
    pages[Base(a)][a % PAGE]
  }

  /** The code bytes of an instruction, gathered across page boundaries; None where the page-present
      assertion would fail. */
  function Fetch(pages: Pages, a: nat, n: nat): (r: Option<seq<byte>>)
    ensures r.Some? ==> |r.value| == n
  {
    if forall x :: a <= x < a + n ==> Present(pages, x) then Some(Gather(pages, a, n)) else None
  }

  function Gather(pages: Pages, a: nat, n: nat): (r: seq<byte>)
    requires forall x :: a <= x < a + n ==> Present(pages, x)
    ensures |r| == n && forall k :: 0 <= k < n ==> Present(pages, a + k) && r[k] == ByteAt(pages, a + k)
    decreases n
  {
    if n == 0 then [] else [ByteAt(pages, a)] + Gather(pages, a + 1, n - 1)
  }

  datatype Reading = Reading(state: RState, events: seq<Event>)

  ghost predicate WholePages(r: RState) {
    forall b :: b in r.pages ==> |r.pages[b]| == PAGE
  }

  /** Is the instruction at `addr` the recorded successor of the last one? */
  predicate ProbableNext(r: RState, addr: nat) {
    r.last.Some? && r.last.value in r.next && r.next[r.last.value] == addr && addr in r.decoded
  }

  /** Remembers `addr` as the last instruction, and as the successor of the one before if that has none. */
  function Visited(r: RState, addr: nat): RState {
    r.(last := Some(addr),
       next := if r.last.Some? && r.last.value !in r.next then r.next[r.last.value := addr] else r.next)
  }

  /** The static information of an instruction: the probable next one without further checks, else the
      cached one if the sizes agree, else freshly decoded. */
  function Static(r: RState, addr: nat, size: nat): (s: Option<(RState, seq<byte>)>) {
    if ProbableNext(r, addr) then Some((Visited(r, addr), r.decoded[addr].1))
    else if addr in r.decoded then
      if r.decoded[addr].0 == size then Some((Visited(r, addr), r.decoded[addr].1)) else None
    else
      match Fetch(r.pages, addr, size)
      case None => None
      case Some(code) => Some((Visited(r.(decoded := r.decoded[addr := (size, code)]), addr), code))
  }

  function ReadInstr(r: RState, i: Instr): (x: Option<Reading>) {
    match Static(r.(lastAddress := i.addr + i.size), i.addr, i.size)
    case None => None
    case Some((s, code)) => Some(Reading(s, [Instruction(i, code)]))
  }

  /** The reader's reaction to one record; None where one of its assertions fails, or where it would read
      fields beyond the record. */
  function ReadRecord(r: RState, rec: Record): (x: Option<Reading>)
    requires WholePages(r)
  {
    match rec
    case Simple(size, br, taken, addresses) =>
      if r.lastAddress >= TOP then None
      else ReadInstr(r, Instr(r.lastAddress, size, addresses, br, taken, false, true))
    case Extended(size, br, taken, pred, exec, addr, addresses) =>
      ReadInstr(r, Instr(addr, size, addresses, br, taken, pred, exec))
    case Other(kind, data) =>
      if kind == ICACHE then
        if |data| != 8 + PAGE then None
        else Some(Reading(r.(pages := r.pages[FromBytes(data[..8]) := data[8..]]), []))
      else if kind == ICACHE_VARIABLE then
        if |data| < 8 then None
        else Some(Reading(r.(pages := Store(r.pages, FromBytes(data[..8]), data[8..])), []))
      else if kind == LOGICAL2PHYSICAL then
        if |data| != 16 then None
        else Some(Reading(r.(mapping := r.mapping[FromBytes(data[..8]) := FromBytes(data[8..])]), []))
      else if kind in HANDLED then (if WellSized(kind, |data|) then Some(Reading(r, [Handled(kind, data)])) else None)
      else Some(Reading(r, []))
  }

  lemma ReadKeepsPages(r: RState, rec: Record)
    requires WholePages(r) && ReadRecord(r, rec).Some?
    ensures WholePages(ReadRecord(r, rec).value.state)
  {
  }

  ghost function ReadRecords(r: RState, recs: seq<Record>): (x: Option<Reading>)
    requires WholePages(r)
    ensures x.Some? ==> WholePages(x.value.state)
    decreases |recs|
  {
    if recs == [] then Some(Reading(r, []))
    else
      match ReadRecord(r, recs[0])
      case None => None
      case Some(first) =>
        ReadKeepsPages(r, recs[0]);
        match ReadRecords(first.state, recs[1..])
        case None => None
        case Some(rest) => Some(Reading(rest.state, first.events + rest.events))
  }

  lemma {:induction false} ReadConcat(r: RState, a: seq<Record>, b: seq<Record>)
    requires WholePages(r) && ReadRecords(r, a).Some?
    ensures ReadRecords(r, a + b) ==
            match ReadRecords(ReadRecords(r, a).value.state, b)
            case None => None
            case Some(y) => Some(Reading(y.state, ReadRecords(r, a).value.events + y.events))
    decreases |a|
  {
    hide ReadRecord, WholePages;
    if a == [] {
      assert a + b == b;
      if ReadRecords(r, b).Some? { assert [] + ReadRecords(r, b).value.events == ReadRecords(r, b).value.events; }
    } else {
      assert (a + b)[0] == a[0] && (a + b)[1..] == a[1..] + b;
      ReadKeepsPages(r, a[0]);
      var first := ReadRecord(r, a[0]).value;
      ReadConcat(first.state, a[1..], b);
      var x := ReadRecords(first.state, a[1..]).value;
      var y := ReadRecords(x.state, b);
      if y.Some? { assert first.events + (x.events + y.value.events) == (first.events + x.events) + y.value.events; }
    }
  }

  // ----- the reader mirrors the writer

  ghost predicate CodePresent(p: Program, pages: Pages, a: nat, n: nat) {
    forall x :: a <= x < a + n ==> Present(pages, x) && ByteAt(pages, x) == p.code(x)
  }

  /** The stretch of code that an entry of the writer's table stands for. */
  ghost function Extent(p: Program, cfg: Config, a: nat): nat {
    if cfg.perInstruction then p.sizeAt(a) else PAGE
  }

  /** The simulation relation: both sides agree on the next address, the reader holds the code of
      everything the writer considers sent, its decode cache is right, and the mappings agree. */
  ghost predicate Mirrors(p: Program, cfg: Config, w: WState, r: RState) {
    && WholePages(r)
    && w.lastAddress == r.lastAddress
    && (forall a :: a in w.sent ==> CodePresent(p, r.pages, a, Extent(p, cfg, a)))
    && (forall a :: a in r.decoded ==> r.decoded[a].0 == p.sizeAt(a) && r.decoded[a].1 == CodeBytes(p, a, p.sizeAt(a)))
    && (r.last.Some? ==> r.last.value in r.decoded)
    && (forall a :: a in r.next ==> r.next[a] in r.decoded)
    && r.mapping.Keys == w.mapped
    && (forall vp :: vp in r.mapping ==> r.mapping[vp] == p.physical(vp))
  }

  /** Reading an emission: no assertion fails, the given events come out, and the states mirror again. */
  ghost predicate Delivers(p: Program, cfg: Config, r: RState, e: Emission, events: seq<Event>)
    requires WholePages(r)
  {
    var x := ReadRecords(r, e.records);
    x.Some? && x.value.events == events && Mirrors(p, cfg, e.state, x.value.state)
  }

  lemma DeliversNothing(p: Program, cfg: Config, w: WState, r: RState)
    requires Mirrors(p, cfg, w, r)
    ensures Delivers(p, cfg, r, Emission(w, []), [])
  {
  }

  lemma DeliversOne(p: Program, cfg: Config, w: WState, r: RState, rec: Record)
    requires WholePages(r) && ReadRecord(r, rec).Some? && Mirrors(p, cfg, w, ReadRecord(r, rec).value.state)
    ensures Delivers(p, cfg, r, Emission(w, [rec]), ReadRecord(r, rec).value.events)
  {
    assert [rec][1..] == [];
    assert ReadRecord(r, rec).value.events + [] == ReadRecord(r, rec).value.events;
  }

  lemma DeliversThen(p: Program, cfg: Config, r: RState, e: Emission, f: Emission, a: seq<Event>, b: seq<Event>)
    requires WholePages(r) && Delivers(p, cfg, r, e, a) && Delivers(p, cfg, ReadRecords(r, e.records).value.state, f, b)
    ensures Delivers(p, cfg, r, Then(e, f), a + b)
  {
    ReadConcat(r, e.records, f.records);
  }

  // ----- code pages

  lemma PagePresent(p: Program, pages: Pages, base: nat)
    requires base % PAGE == 0 && base in pages && pages[base] == CodeBytes(p, base, PAGE)
    ensures CodePresent(p, pages, base, PAGE)
  {
    forall x | base <= x < base + PAGE ensures Present(pages, x) && ByteAt(pages, x) == p.code(x) {
      assert Base(x) == base;
    }
  }

  lemma PageKept(p: Program, pages: Pages, base: nat, a: nat, n: nat)
    requires base % PAGE == 0 && CodePresent(p, pages, a, n)
    ensures CodePresent(p, pages[base := CodeBytes(p, base, PAGE)], a, n)
  {
    var q := pages[base := CodeBytes(p, base, PAGE)];
    forall x | a <= x < a + n ensures Present(q, x) && ByteAt(q, x) == p.code(x) {
      assert Present(pages, x);
      assert x == Base(x) + x % PAGE;
    }
  }

  lemma PageDelivered(p: Program, cfg: Config, w: WState, r: RState, base: u64)
    requires Mirrors(p, cfg, w, r) && !cfg.perInstruction && base % PAGE == 0
    ensures Delivers(p, cfg, r, SendPage(p, w, base), [])
    ensures base in SendPage(p, w, base).state.sent && w.sent <= SendPage(p, w, base).state.sent
  {
    if base in w.sent {
      DeliversNothing(p, cfg, w, r);
    } else {
      var rec := Other(ICACHE, ToBytes(base, 8) + CodeBytes(p, base, PAGE));
      AddressRoundTrip(base);
      BytesBelow(base);
      assert rec.data[..8] == ToBytes(base, 8) && rec.data[8..] == CodeBytes(p, base, PAGE);
      var pages := r.pages[base := CodeBytes(p, base, PAGE)];
      PagePresent(p, pages, base);
      forall a | a in w.sent ensures CodePresent(p, pages, a, Extent(p, cfg, a)) {
        PageKept(p, r.pages, base, a, Extent(p, cfg, a));
      }
      DeliversOne(p, cfg, w.(sent := w.sent + {base}), r, rec);
    }
  }

  lemma BytesBelow(a: u64)
    ensures FromBytes(ToBytes(a, 8)) == a
  {
    Pow256Eight();
    BytesRoundTrip(a, 8);
  }

  lemma {:induction false} PagesDelivered(p: Program, cfg: Config, w: WState, r: RState, base: nat, last: nat)
    requires Mirrors(p, cfg, w, r) && !cfg.perInstruction && base % PAGE == 0 && last < TOP
    ensures Delivers(p, cfg, r, SendPages(p, w, base, last), [])
    ensures var s := SendPages(p, w, base, last).state.sent;
            w.sent <= s && forall b :: base <= b <= last && b % PAGE == 0 ==> b in s
    decreases if base <= last then last - base + 1 else 0
  {
    hide Delivers, SendPage;
    if base > last {
      DeliversNothing(p, cfg, w, r);
    } else {
      var e := SendPage(p, w, base);
      PageDelivered(p, cfg, w, r, base);
      var s := DeliveredState(p, cfg, r, e, []);
      PagesDelivered(p, cfg, e.state, s, base + PAGE, last);
      DeliversThen(p, cfg, r, e, SendPages(p, e.state, base + PAGE, last), [], []);
      forall b | base <= b <= last && b % PAGE == 0 ensures b == base || base + PAGE <= b { }
    }
  }

  /** The reader's state after an emission was delivered. */
  lemma DeliveredState(p: Program, cfg: Config, r: RState, e: Emission, events: seq<Event>) returns (s: RState)
    requires WholePages(r) && Delivers(p, cfg, r, e, events)
    ensures ReadRecords(r, e.records).Some? && s == ReadRecords(r, e.records).value.state
    ensures WholePages(s) && Mirrors(p, cfg, e.state, s)
  {
    s := ReadRecords(r, e.records).value.state;
  }

  // ----- code sent per instruction

  lemma StoredPresent(p: Program, pages: Pages, a: nat, n: nat)
    requires forall b :: b in pages ==> |pages[b]| == PAGE
    ensures CodePresent(p, Store(pages, a, CodeBytes(p, a, n)), a, n)
  {
    var q := Store(pages, a, CodeBytes(p, a, n));
    forall x | a <= x < a + n ensures Present(q, x) && ByteAt(q, x) == p.code(x) {
      assert Base(x) in Touched(a, n);
      assert x == Base(x) + x % PAGE;
    }
  }

  lemma StoredKept(p: Program, pages: Pages, a: nat, n: nat, c: nat, m: nat)
    requires (forall b :: b in pages ==> |pages[b]| == PAGE) && CodePresent(p, pages, c, m)
    ensures CodePresent(p, Store(pages, a, CodeBytes(p, a, n)), c, m)
  {
    var q := Store(pages, a, CodeBytes(p, a, n));
    forall x | c <= x < c + m ensures Present(q, x) && ByteAt(q, x) == p.code(x) {
      assert Present(pages, x) && ByteAt(pages, x) == p.code(x);
      assert x == Base(x) + x % PAGE;
    }
  }

  lemma VariableDelivered(p: Program, cfg: Config, w: WState, r: RState, addr: u64, size: nat)
    requires Mirrors(p, cfg, w, r) && cfg.perInstruction && 1 <= size == p.sizeAt(addr) && Within(cfg, addr, size)
    ensures Delivers(p, cfg, r, SendCode(p, cfg, w, addr, size), [])
    ensures addr in SendCode(p, cfg, w, addr, size).state.sent
  {
    if addr in w.sent {
      DeliversNothing(p, cfg, w, r);
    } else {
      var rec := Other(ICACHE_VARIABLE, ToBytes(addr, 8) + CodeBytes(p, addr, size));
      BytesBelow(addr);
      assert rec.data[..8] == ToBytes(addr, 8) && rec.data[8..] == CodeBytes(p, addr, size);
      var pages := Store(r.pages, addr, CodeBytes(p, addr, size));
      StoredPresent(p, r.pages, addr, size);
      forall a | a in w.sent ensures CodePresent(p, pages, a, Extent(p, cfg, a)) {
        StoredKept(p, r.pages, addr, size, a, Extent(p, cfg, a));
      }
      hide Store, CodePresent;
      DeliversOne(p, cfg, w.(sent := w.sent + {addr}), r, rec);
    }
  }

  lemma PageCodeDelivered(p: Program, cfg: Config, w: WState, r: RState, addr: u64, size: nat)
    requires Mirrors(p, cfg, w, r) && !cfg.perInstruction && 1 <= size && Within(cfg, addr, size)
    ensures Delivers(p, cfg, r, SendCode(p, cfg, w, addr, size), [])
    ensures CodePresent(p, ReadRecords(r, SendCode(p, cfg, w, addr, size).records).value.state.pages, addr, size)
  {
    hide SendPages, ReadRecord;
    var e := SendCode(p, cfg, w, addr, size);
    PagesDelivered(p, cfg, w, r, Base(addr), Base(addr + size - 1));
    var s := DeliveredState(p, cfg, r, e, []);
    forall x | addr <= x < addr + size ensures Present(s.pages, x) && ByteAt(s.pages, x) == p.code(x) {
      BaseBetween(addr, x, addr + size - 1);
      assert Base(x) in e.state.sent;
      assert CodePresent(p, s.pages, Base(x), PAGE);
    }
  }

  /** Before an instruction is sent the reader holds all its code bytes, in either mode. */
  lemma CodeDelivered(p: Program, cfg: Config, w: WState, r: RState, addr: u64, size: nat)
    requires Mirrors(p, cfg, w, r) && 1 <= size < 16 && size == p.sizeAt(addr) && Within(cfg, addr, size)
    ensures Delivers(p, cfg, r, SendCode(p, cfg, w, addr, size), [])
    ensures CodePresent(p, ReadRecords(r, SendCode(p, cfg, w, addr, size).records).value.state.pages, addr, size)
  {
    hide SendCode, ReadRecord, CodePresent;
    var e := SendCode(p, cfg, w, addr, size);
    if cfg.perInstruction {
      VariableDelivered(p, cfg, w, r, addr, size);
      var s := DeliveredState(p, cfg, r, e, []);
      assert CodePresent(p, s.pages, addr, Extent(p, cfg, addr));
    } else {
      PageCodeDelivered(p, cfg, w, r, addr, size);
    }
  }

  lemma BaseBetween(a: nat, x: nat, b: nat)
    requires a <= x <= b
    ensures Base(a) <= Base(x) <= Base(b) && Base(x) % PAGE == 0 && Base(x) <= x < Base(x) + PAGE
  {
  }

  // ----- page mappings

  lemma MappingDelivered(p: Program, cfg: Config, w: WState, r: RState, va: u64)
    requires Mirrors(p, cfg, w, r)
    ensures Delivers(p, cfg, r, SendMapping(p, cfg, w, va), [])
    ensures ReadRecords(r, SendMapping(p, cfg, w, va).records).value.state.pages == r.pages
    ensures SendMapping(p, cfg, w, va).state.lastAddress == w.lastAddress
  {
    var vp := va / PAGE;
    if !cfg.sendMapping || vp in w.mapped || p.physical(vp) == 0 {
      DeliversNothing(p, cfg, w, r);
    } else {
      var rec := Other(LOGICAL2PHYSICAL, ToBytes(vp, 8) + ToBytes(p.physical(vp), 8));
      BytesBelow(vp);
      BytesBelow(p.physical(vp));
      assert rec.data[..8] == ToBytes(vp, 8) && rec.data[8..] == ToBytes(p.physical(vp), 8);
      hide CodePresent;
      DeliversOne(p, cfg, w.(mapped := w.mapped + {vp}), r, rec);
      assert [rec][1..] == [];
    }
  }

  lemma {:induction false} MappingsDelivered(p: Program, cfg: Config, w: WState, r: RState, vas: seq<u64>)
    requires Mirrors(p, cfg, w, r)
    ensures Delivers(p, cfg, r, SendMappings(p, cfg, w, vas), [])
    ensures ReadRecords(r, SendMappings(p, cfg, w, vas).records).value.state.pages == r.pages
    ensures SendMappings(p, cfg, w, vas).state.lastAddress == w.lastAddress
    decreases |vas|
  {
    hide SendMapping, ReadRecord, CodePresent;
    if vas == [] {
      DeliversNothing(p, cfg, w, r);
    } else {
      var e := SendMapping(p, cfg, w, vas[0]);
      MappingDelivered(p, cfg, w, r, vas[0]);
      var s := DeliveredState(p, cfg, r, e, []);
      var f := SendMappings(p, cfg, e.state, vas[1..]);
      MappingsDelivered(p, cfg, e.state, s, vas[1..]);
      DeliversThen(p, cfg, r, e, f, [], []);
      ReadConcat(r, e.records, f.records);
    }
  }

  // ----- instructions

  lemma StaticDelivered(p: Program, cfg: Config, w: WState, r: RState, i: Instr)
    requires Mirrors(p, cfg, w, r) && ValidInstr(p, cfg, i) && CodePresent(p, r.pages, i.addr, i.size)
    ensures var x := ReadInstr(r, i);
            && x.Some? && x.value.events == [Instruction(i, CodeBytes(p, i.addr, i.size))]
            && Mirrors(p, cfg, w.(lastAddress := i.addr + i.size), x.value.state)
  {
    if i.addr !in r.decoded {
      assert Fetch(r.pages, i.addr, i.size).value == CodeBytes(p, i.addr, i.size);
    }
    hide CodePresent;
  }

  lemma InstrDelivered(p: Program, cfg: Config, w: WState, r: RState, i: Instr)
    requires Mirrors(p, cfg, w, r) && ValidInstr(p, cfg, i) && CodePresent(p, r.pages, i.addr, i.size)
    ensures Delivers(p, cfg, r, SendInstr(w, i), [Instruction(i, CodeBytes(p, i.addr, i.size))])
  {
    StaticDelivered(p, cfg, w, r, i);
    hide Mirrors, ReadInstr, CodePresent;
    assert WholePages(r);
    var e := SendInstr(w, i);
    assert ReadRecord(r, e.records[0]) == ReadInstr(r, i);
    DeliversOne(p, cfg, e.state, r, e.records[0]);
  }

  /** What the reader must report for a call. */
  function Expected(p: Program, c: Call): seq<Event> {
    match c
    case Execute(i) => [Instruction(i, CodeBytes(p, i.addr, i.size))]
    case Message(kind, data, _) => [Handled(kind, data)]
  }

  lemma MessageDelivered(p: Program, cfg: Config, w: WState, r: RState, kind: byte, data: seq<byte>)
    requires Mirrors(p, cfg, w, r) && kind in HANDLED && WellSized(kind, |data|)
    ensures Delivers(p, cfg, r, Emission(w, [Other(kind, data)]), [Handled(kind, data)])
  {
    DeliversOne(p, cfg, w, r, Other(kind, data));
  }

  /** One call: the reader reports exactly it, no assertion fails, and both sides agree again. */
  lemma CallDelivered(p: Program, cfg: Config, w: WState, r: RState, c: Call)
    requires Mirrors(p, cfg, w, r) && ValidCall(p, cfg, c)
    ensures Delivers(p, cfg, r, WriteCall(p, cfg, w, c), Expected(p, c))
  {
    hide SendCode, SendMappings, SendInstr, CodePresent, ReadRecord, CodeBytes;
    match c
    case Message(kind, data, touched) =>
      var e := SendMappings(p, cfg, w, touched);
      MappingsDelivered(p, cfg, w, r, touched);
      var s := DeliveredState(p, cfg, r, e, []);
      MessageDelivered(p, cfg, e.state, s, kind, data);
      DeliversThen(p, cfg, r, e, Emission(e.state, [Other(kind, data)]), [], Expected(p, c));
      assert [] + Expected(p, c) == Expected(p, c);
    case Execute(i) =>
      var e := SendCode(p, cfg, w, i.addr, i.size);
      CodeDelivered(p, cfg, w, r, i.addr, i.size);
      var s := DeliveredState(p, cfg, r, e, []);
      var f := SendMappings(p, cfg, e.state, [i.addr] + i.addresses);
      MappingsDelivered(p, cfg, e.state, s, [i.addr] + i.addresses);
      var t := DeliveredState(p, cfg, s, f, []);
      InstrDelivered(p, cfg, f.state, t, i);
      DeliversThen(p, cfg, r, e, f, [], []);
      ReadConcat(r, e.records, f.records);
      DeliversThen(p, cfg, r, Then(e, f), SendInstr(f.state, i), [], Expected(p, c));
      assert [] + Expected(p, c) == Expected(p, c);
  }

  // ----- whole traces

  function WriteCalls(p: Program, cfg: Config, w: WState, cs: seq<Call>): Emission
    requires forall c :: c in cs ==> Sendable(cfg, c)
    decreases |cs|
  {
    if cs == [] then Emission(w, [])
    else
      var e := WriteCall(p, cfg, w, cs[0]);
      Then(e, WriteCalls(p, cfg, e.state, cs[1..]))
  }

  function ExpectedAll(p: Program, cs: seq<Call>): seq<Event> {
    if cs == [] then [] else Expected(p, cs[0]) + ExpectedAll(p, cs[1..])
  }

  const WriterStart: WState := WState(0, {}, {})
  const ReaderStart: RState := RState(0, map[], map[], None, map[], map[])

  lemma {:induction false} CallsDelivered(p: Program, cfg: Config, w: WState, r: RState, cs: seq<Call>)
    requires Mirrors(p, cfg, w, r) && forall c :: c in cs ==> Sendable(cfg, c) && ValidCall(p, cfg, c)
    ensures Delivers(p, cfg, r, WriteCalls(p, cfg, w, cs), ExpectedAll(p, cs))
    decreases |cs|
  {
    hide WriteCall, Expected, ReadRecord;
    if cs == [] {
      DeliversNothing(p, cfg, w, r);
    } else {
      var e := WriteCall(p, cfg, w, cs[0]);
      CallDelivered(p, cfg, w, r, cs[0]);
      var s := DeliveredState(p, cfg, r, e, Expected(p, cs[0]));
      CallsDelivered(p, cfg, e.state, s, cs[1..]);
      DeliversThen(p, cfg, r, e, WriteCalls(p, cfg, e.state, cs[1..]), Expected(p, cs[0]), ExpectedAll(p, cs[1..]));
    }
  }

  // ----- the byte stream

  const END: byte := 255

  predicate IsEnd(rec: Record) { rec.Other? && rec.kind == END }

  function EncodeAll(recs: seq<Record>): seq<byte>
    requires forall r :: r in recs ==> Fits(r)
  {
    if recs == [] then [] else Encode(recs[0]) + EncodeAll(recs[1..])
  }

  /** Reads records until the end marker; None where the stream breaks off or an assertion fails. */
  ghost function ReadBytes(r: RState, b: seq<byte>): (x: Option<Reading>)
    requires WholePages(r)
    decreases |b|
  {
    match Decode(b)
    case None => None
    case Some((rec, rest)) =>
      if IsEnd(rec) then (if rec.data == [] then Some(Reading(r, [])) else None)
      else
        match ReadRecord(r, rec)
        case None => None
        case Some(first) =>
          ReadKeepsPages(r, rec);
          match ReadBytes(first.state, rest)
          case None => None
          case Some(more) => Some(Reading(more.state, first.events + more.events))
  }

  ghost predicate AllEncodable(recs: seq<Record>) {
    forall r :: r in recs ==> Fits(r) && Sized(r) && !IsEnd(r)
  }

  /** What the writer emits, ended properly, is read back as the same records. */
  lemma {:induction false} BytesAreRecords(r: RState, recs: seq<Record>)
    requires WholePages(r) && AllEncodable(recs) && ReadRecords(r, recs).Some?
    ensures ReadBytes(r, EncodeAll(recs) + Encode(Other(END, []))) == ReadRecords(r, recs)
    decreases |recs|
  {
    hide ReadRecord, Encode, Decode;
    var tail := Encode(Other(END, []));
    if recs == [] {
      RecordRoundTrip(Other(END, []), []);
      assert EncodeAll(recs) + tail == tail == tail + [];
    } else {
      var rest := EncodeAll(recs[1..]) + tail;
      RecordRoundTrip(recs[0], rest);
      assert EncodeAll(recs) + tail == Encode(recs[0]) + rest;
      ReadKeepsPages(r, recs[0]);
      BytesAreRecords(ReadRecord(r, recs[0]).value.state, recs[1..]);
    }
  }

  lemma {:induction false} PagesEncodable(p: Program, w: WState, base: nat, last: nat)
    requires last < TOP
    ensures AllEncodable(SendPages(p, w, base, last).records)
    decreases if base <= last then last - base + 1 else 0
  {
    if base <= last { PagesEncodable(p, SendPage(p, w, base).state, base + PAGE, last); }
  }

  lemma {:induction false} MappingsEncodable(p: Program, cfg: Config, w: WState, vas: seq<u64>)
    ensures AllEncodable(SendMappings(p, cfg, w, vas).records)
    decreases |vas|
  {
    if vas != [] { MappingsEncodable(p, cfg, SendMapping(p, cfg, w, vas[0]).state, vas[1..]); }
  }

  lemma CallEncodable(p: Program, cfg: Config, w: WState, c: Call)
    requires ValidCall(p, cfg, c)
    ensures AllEncodable(WriteCall(p, cfg, w, c).records)
  {
    match c
    case Execute(i) =>
      var e := SendCode(p, cfg, w, i.addr, i.size);
      if !cfg.perInstruction { PagesEncodable(p, w, Base(i.addr), Base(i.addr + i.size - 1)); }
      MappingsEncodable(p, cfg, e.state, [i.addr] + i.addresses);
      hide SendPages, SendMappings;
    case Message(_, _, touched) =>
      MappingsEncodable(p, cfg, w, touched);
  }

  lemma {:induction false} CallsEncodable(p: Program, cfg: Config, w: WState, cs: seq<Call>)
    requires forall c :: c in cs ==> Sendable(cfg, c) && ValidCall(p, cfg, c)
    ensures AllEncodable(WriteCalls(p, cfg, w, cs).records)
    decreases |cs|
  {
    if cs != [] {
      CallEncodable(p, cfg, w, cs[0]);
      CallsEncodable(p, cfg, WriteCall(p, cfg, w, cs[0]).state, cs[1..]);
    }
  }

  /** Trace round trip: for every sequence of writer calls the reader of the byte stream reports the same
      instructions, with their code bytes, and the same messages, in order; no reader assertion fails;
      and both sides end with the same expected address and page mappings. */
  lemma TraceRoundTrip(p: Program, cfg: Config, cs: seq<Call>)
    requires forall c :: c in cs ==> Sendable(cfg, c) && ValidCall(p, cfg, c)
    ensures var e := WriteCalls(p, cfg, WriterStart, cs);
            && AllEncodable(e.records)
            && var x := ReadBytes(ReaderStart, EncodeAll(e.records) + Encode(Other(END, [])));
               x.Some? && x.value.events == ExpectedAll(p, cs) && Mirrors(p, cfg, e.state, x.value.state)
  {
    CallsDelivered(p, cfg, WriterStart, ReaderStart, cs);
    CallsEncodable(p, cfg, WriterStart, cs);
    BytesAreRecords(ReaderStart, WriteCalls(p, cfg, WriterStart, cs).records);
  }

  /** The decode cache: whichever path is taken the result is the cache entry for the address, the same as
      without the recorded successors, and an address already decoded is not decoded again. */
  lemma CacheRefinement(r: RState, addr: nat, size: nat)
    requires addr in r.decoded ==> r.decoded[addr].0 == size
    ensures Static(r, addr, size).Some? <==> addr in r.decoded || Fetch(r.pages, addr, size).Some?
    ensures Static(r, addr, size).Some? ==>
              var s := Static(r, addr, size).value;
              var plain := Static(r.(last := None, next := map[]), addr, size);
              && plain.Some? && plain.value.1 == s.1 && plain.value.0.decoded == s.0.decoded
              && addr in s.0.decoded && s.0.decoded[addr] == (size, s.1)
              && s.0.decoded == (if addr in r.decoded then r.decoded
                  else r.decoded[addr := (size, Fetch(r.pages, addr, size).value)])
  {
  }

  // ----- where the round trip fails

  /** A simple record has no room for the executed bit: an instruction comes back unchanged exactly when
      it is predicated, or executed, or not at the expected address. */
  lemma ExecutedBit(w: WState, r: RState, i: Instr)
    requires WholePages(r) && r.lastAddress == w.lastAddress && w.lastAddress < TOP
    requires var x := ReadRecord(r, SendInstr(w, i).records[0]); x.Some?
    ensures var x := ReadRecord(r, SendInstr(w, i).records[0]);
            && |x.value.events| == 1 && x.value.events[0].Instruction?
            && (x.value.events[0].i == i <==> i.isPredicate || i.executed || i.addr != w.lastAddress)
  {
  }

  /** Messages that their writer methods accept but the reader's size assertions refuse: program output
      and system calls without any data. */
  lemma EmptyMessagesRefused(r: RState, fd: byte, number: seq<byte>)
    requires WholePages(r) && |number| == 2
    ensures ReadRecord(r, Other(OUTPUT, [fd])) == None && ReadRecord(r, Other(SYSCALL_REQUEST, number)) == None
  {
  }
}
