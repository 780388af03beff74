/** Nothing is sent twice: over a whole trace every code page, or the code of every instruction, and every page
    mapping goes out at most once. */
module SiftEconomy {
  import opened Wrappers
  import opened SiftFormat
  import opened SiftTrace

  /** What a record makes known to the reader: the code at an address, or the mapping of a page. */
  datatype Fact = Code(addr: nat) | Mapping(page: nat)

  function FactOf(r: Record): Option<Fact> {
    if r.Other? && r.kind in {ICACHE, ICACHE_VARIABLE} && |r.data| >= 8 then Some(Code(FromBytes(r.data[..8])))
    else if r.Other? && r.kind == LOGICAL2PHYSICAL && |r.data| >= 8 then Some(Mapping(FromBytes(r.data[..8])))
    else None
  }

  predicate Knows(w: WState, f: Fact) {
    match f
    case Code(addr) => addr in w.sent
    case Mapping(page) => page in w.mapped
  }

  ghost predicate NoneTwice(rs: seq<Record>) {
    forall i, j :: 0 <= i < j < |rs| && FactOf(rs[i]).Some? ==> FactOf(rs[i]) != FactOf(rs[j])
  }

  /** An emission tells only what was not told before, each once, and remembers it. */
  ghost predicate New(w: WState, e: Emission) {
    && NoneTwice(e.records) && w.sent <= e.state.sent && w.mapped <= e.state.mapped
    && forall i :: 0 <= i < |e.records| && FactOf(e.records[i]).Some? ==>
         !Knows(w, FactOf(e.records[i]).value) && Knows(e.state, FactOf(e.records[i]).value)
  }

  lemma NewThen(w: WState, e: Emission, f: Emission)
    requires New(w, e) && New(e.state, f)
    ensures New(w, Then(e, f))
  {
    hide FactOf;
    var rs := e.records + f.records;
    forall i, j | 0 <= i < j < |rs| && FactOf(rs[i]).Some? ensures FactOf(rs[i]) != FactOf(rs[j]) {
      if i < |e.records| <= j {
        assert rs[i] == e.records[i] && rs[j] == f.records[j - |e.records|];
      }
    }
  }

  lemma NewNothing(w: WState)
    ensures New(w, Emission(w, []))
  {
  }

  lemma AddressOf(v: u64, rest: seq<byte>)
    ensures |ToBytes(v, 8) + rest| >= 8 && FromBytes((ToBytes(v, 8) + rest)[..8]) == v
  {
    Pow256Eight();
    BytesRoundTrip(v, 8);
    assert (ToBytes(v, 8) + rest)[..8] == ToBytes(v, 8);
  }

  lemma NewPage(p: Program, w: WState, base: u64)
    ensures New(w, SendPage(p, w, base))
  {
    hide ToBytes, FromBytes, CodeBytes;
    AddressOf(base, CodeBytes(p, base, PAGE));
  }

  lemma {:induction false} NewPages(p: Program, w: WState, base: nat, last: nat)
    requires last < TOP
    ensures New(w, SendPages(p, w, base, last))
    decreases if base <= last then last - base + 1 else 0
  {
    hide SendPage, New;
    if base > last {
      NewNothing(w);
    } else {
      var e := SendPage(p, w, base);
      NewPage(p, w, base);
      NewPages(p, e.state, base + PAGE, last);
      NewThen(w, e, SendPages(p, e.state, base + PAGE, last));
    }
  }

  lemma NewCode(p: Program, cfg: Config, w: WState, addr: u64, size: nat)
    requires Within(cfg, addr, size)
    ensures New(w, SendCode(p, cfg, w, addr, size))
  {
    hide ToBytes, FromBytes, CodeBytes, SendPages;
    if cfg.perInstruction {
      AddressOf(addr, CodeBytes(p, addr, size));
    } else {
      NewPages(p, w, Base(addr), Base(addr + size - 1));
    }
  }

  lemma NewMapping(p: Program, cfg: Config, w: WState, va: u64)
    ensures New(w, SendMapping(p, cfg, w, va))
  {
    hide ToBytes, FromBytes;
    AddressOf(va / PAGE, ToBytes(p.physical(va / PAGE), 8));
  }

  lemma {:induction false} NewMappings(p: Program, cfg: Config, w: WState, vas: seq<u64>)
    ensures New(w, SendMappings(p, cfg, w, vas))
    decreases |vas|
  {
    hide SendMapping, New;
    if vas == [] {
      NewNothing(w);
    } else {
      var e := SendMapping(p, cfg, w, vas[0]);
      NewMapping(p, cfg, w, vas[0]);
      NewMappings(p, cfg, e.state, vas[1..]);
      NewThen(w, e, SendMappings(p, cfg, e.state, vas[1..]));
    }
  }

  lemma NewInstr(w: WState, i: Instr)
    ensures New(w, SendInstr(w, i))
  {
  }

  lemma NewMessage(w: WState, kind: byte, data: seq<byte>)
    requires kind in HANDLED
    ensures New(w, Emission(w, [Other(kind, data)]))
  {
    hide FromBytes;
  }

  lemma NewCall(p: Program, cfg: Config, w: WState, c: Call)
    requires Sendable(cfg, c) && (c.Message? ==> c.kind in HANDLED)
    ensures New(w, WriteCall(p, cfg, w, c))
  {
    hide SendCode, SendMappings, SendInstr, New;
    match c
    case Execute(i) =>
      var e := SendCode(p, cfg, w, i.addr, i.size);
      NewCode(p, cfg, w, i.addr, i.size);
      var f := SendMappings(p, cfg, e.state, [i.addr] + i.addresses);
      NewMappings(p, cfg, e.state, [i.addr] + i.addresses);
      NewThen(w, e, f);
      NewInstr(f.state, i);
      NewThen(w, Then(e, f), SendInstr(f.state, i));
    case Message(kind, data, touched) =>
      var e := SendMappings(p, cfg, w, touched);
      NewMappings(p, cfg, w, touched);
      NewMessage(e.state, kind, data);
      NewThen(w, e, Emission(e.state, [Other(kind, data)]));
  }

  /** Over every sequence of calls no code and no mapping is sent twice. */
  lemma {:induction false} SentOnce(p: Program, cfg: Config, w: WState, cs: seq<Call>)
    requires forall c :: c in cs ==> Sendable(cfg, c) && (c.Message? ==> c.kind in HANDLED)
    ensures New(w, WriteCalls(p, cfg, w, cs)) && NoneTwice(WriteCalls(p, cfg, w, cs).records)
    decreases |cs|
  {
    hide WriteCall, NoneTwice;
    if cs == [] {
      NewNothing(w);
    } else {
      var e := WriteCall(p, cfg, w, cs[0]);
      NewCall(p, cfg, w, cs[0]);
      SentOnce(p, cfg, e.state, cs[1..]);
      NewThen(w, e, WriteCalls(p, cfg, e.state, cs[1..]));
    }
  }
}
