/** The SIFT writer object: appends records to its output and keeps the tables that decide what to send. */
module SiftWriter {
  import opened SiftFormat
  import opened SiftTrace
  import opened SiftMessages

  class Writer {
    const program: Program
    const config: Config
    var output: seq<byte>
    var lastAddress: nat
    var icache: set<nat>
    var va2pa: set<nat>

    ghost function State(): WState
      reads this
    {
      WState(lastAddress, icache, va2pa)
    }

    constructor (p: Program, c: Config)
      ensures program == p && config == c && output == [] && State() == WriterStart
    {
      program := p;
      config := c;
      output := [];
      lastAddress := 0;
      icache := {};
      va2pa := {};
    }

    /** The writer has emitted `e` on top of what was there. */
    ghost predicate Emitted(before: seq<byte>, e: Emission)
      reads this
    {
      Appended(before, e, output) && State() == e.state
    }

    method Write(r: Record)
      requires Fits(r) && !IsEnd(r)
      modifies this`output
      ensures AllFit([r]) && output == old(output) + EncodeAll([r])
    {
      EncodeSingle(r);
      output := output + Encode(r);
    }

    method SendPage(base: u64)
      modifies this`output, this`icache
      ensures Emitted(old(output), SiftTrace.SendPage(program, old(State()), base))
    {
      hide EncodeAll, CodeBytes;
      if base !in icache {
        Write(Other(ICACHE, ToBytes(base, 8) + CodeBytes(program, base, PAGE)));
        icache := icache + {base};
      } else {
        NothingAppended(output, State());
      }
    }

    /** Sends the code pages between two addresses that were not sent before. */
    method SendPages(first: nat, last: nat)
      requires last + PAGE < TOP
      modifies this`output, this`icache
      ensures Emitted(old(output), SiftTrace.SendPages(program, old(State()), first, last))
    {
      hide Appended, SiftTrace.SendPage, Then;
      var base := first;
      ghost var out, w := output, State();
      ghost var e := Emission(w, []);
      ghost var all := SiftTrace.SendPages(program, w, first, last);
      NothingAppended(out, w);
      ThenNothing(all, w);
      while base <= last
        invariant Emitted(out, e)
        invariant all == Then(e, SiftTrace.SendPages(program, e.state, base, last))
        decreases if base <= last then last - base + 1 else 0
      {
        ghost var f := SiftTrace.SendPage(program, State(), base);
        ghost var mid := output;
        SendPage(base);
        AppendedThen(out, e, mid, f, output);
        ThenAssociative(e, f, SiftTrace.SendPages(program, f.state, base + PAGE, last));
        e := Then(e, f);
        base := base + PAGE;
      }
      ThenNothing(e, e.state);
    }

    method SendVa2pa(va: u64)
      modifies this`output, this`va2pa
      ensures Emitted(old(output), SiftTrace.SendMapping(program, config, old(State()), va))
    {
      hide EncodeAll;
      NothingAppended(output, State());
      if config.sendMapping {
        var vp := va / PAGE;
        if vp !in va2pa {
          var pp := program.physical(vp);
          if pp != 0 {
            Write(Other(LOGICAL2PHYSICAL, ToBytes(vp, 8) + ToBytes(pp, 8)));
            va2pa := va2pa + {vp};
          }
        }
      }
    }

    method SendMappings(vas: seq<u64>)
      modifies this`output, this`va2pa
      ensures Emitted(old(output), SiftTrace.SendMappings(program, config, old(State()), vas))
    {
      hide Appended, SiftTrace.SendMapping, Then;
      ghost var out, w := output, State();
      ghost var e := Emission(w, []);
      ghost var all := SiftTrace.SendMappings(program, config, w, vas);
      assert vas[0..] == vas;
      NothingAppended(out, w);
      ThenNothing(all, w);
      for i := 0 to |vas|
        invariant Emitted(out, e)
        invariant all == Then(e, SiftTrace.SendMappings(program, config, e.state, vas[i..]))
      {
        ghost var f := SiftTrace.SendMapping(program, config, State(), vas[i]);
        ghost var mid := output;
        SendVa2pa(vas[i]);
        AppendedThen(out, e, mid, f, output);
        assert vas[i..][1..] == vas[i + 1..];
        ThenAssociative(e, f, SiftTrace.SendMappings(program, config, f.state, vas[i + 1..]));
        e := Then(e, f);
      }
      ThenNothing(e, e.state);
    }

    /** Makes sure that the reader has the code of an instruction: the instruction alone, or its pages. */
    method SendCode(addr: u64, size: nat)
      requires size < 16 && Within(config, addr, size)
      modifies this`output, this`icache
      ensures Emitted(old(output), SiftTrace.SendCode(program, config, old(State()), addr, size))
    {
      hide EncodeAll, CodeBytes, SiftTrace.SendPages;
      if config.perInstruction {
        if addr !in icache {
          Write(Other(ICACHE_VARIABLE, ToBytes(addr, 8) + CodeBytes(program, addr, size)));
          icache := icache + {addr};
        } else {
          NothingAppended(output, State());
        }
      } else {
        SendPages(Base(addr), Base(addr + size - 1));
      }
    }

    method SendInstr(i: Instr)
      requires i.size < 16 && |i.addresses| <= MAX_DYNAMIC_ADDRESSES
      modifies this`output, this`lastAddress
      ensures Emitted(old(output), SiftTrace.SendInstr(old(State()), i))
    {
      hide EncodeAll;
      if i.addr == lastAddress && !i.isPredicate {
        Write(Simple(i.size, i.isBranch, i.taken, i.addresses));
      } else {
        Write(Extended(i.size, i.isBranch, i.taken, i.isPredicate, i.executed, i.addr, i.addresses));
        lastAddress := i.addr;
      }
      lastAddress := lastAddress + i.size;
    }

    /** Writes one instruction, unless a size assertion stops the writer. */
    method Instruction(i: Instr) returns (ok: bool)
      requires Within(config, i.addr, i.size)
      modifies this`output, this`lastAddress, this`icache, this`va2pa
      ensures ok <==> i.size < 16 && |i.addresses| <= MAX_DYNAMIC_ADDRESSES
      ensures ok ==> Emitted(old(output), WriteCall(program, config, old(State()), Execute(i)))
      ensures !ok ==> output == old(output) && State() == old(State())
    {
      hide SiftTrace.SendCode, SiftTrace.SendMappings, SiftTrace.SendInstr, Appended, Then;
      if i.size >= 16 || |i.addresses| > MAX_DYNAMIC_ADDRESSES { return false; }
      ghost var out := output;
      ghost var e := SiftTrace.SendCode(program, config, State(), i.addr, i.size);
      SendCode(i.addr, i.size);
      ghost var out1 := output;
      ghost var f := SiftTrace.SendMappings(program, config, State(), [i.addr] + i.addresses);
      SendMappings([i.addr] + i.addresses);
      AppendedThen(out, e, out1, f, output);
      ghost var out2 := output;
      ghost var g := SiftTrace.SendInstr(State(), i);
      SendInstr(i);
      AppendedThen(out, Then(e, f), out2, g, output);
      ThenState(e, f);
      ThenState(Then(e, f), g);
      return true;
    }

    /** Writes a record that only carries data to a handler. */
    method SendMessage(kind: byte, data: seq<byte>, touched: seq<u64>)
      requires |data| < 0x1_0000_0000 && kind != END
      modifies this`output, this`va2pa
      ensures Emitted(old(output), WriteCall(program, config, old(State()), Message(kind, data, touched)))
    {
      hide SiftTrace.SendMappings, EncodeAll, AllFit, Then;
      ghost var out := output;
      ghost var e := SiftTrace.SendMappings(program, config, State(), touched);
      SendMappings(touched);
      ghost var f := Emission(State(), [Other(kind, data)]);
      ghost var mid := output;
      Write(Other(kind, data));
      AppendedThen(out, e, mid, f, output);
      ThenState(e, f);
    }

    /** Writes a request of the program with its arguments, after the mappings it needs. */
    method Send(r: Request, touched: seq<u64>)
      requires Passable(r)
      modifies this`output, this`va2pa
      ensures Emitted(old(output), WriteCall(program, config, old(State()),
                                             Message(KindOf(r), Pack(r), touched)))
    {
      PackedSize(r);
      SendMessage(KindOf(r), Pack(r), touched);
    }

    method End()
      modifies this`output
      ensures output == old(output) + Encode(Other(END, []))
    {
      output := output + Encode(Other(END, []));
    }
  }

  ghost predicate AllFit(recs: seq<Record>) {
    forall r :: r in recs ==> Fits(r) && !IsEnd(r)
  }

  /** The bytes after an emission. */
  ghost predicate Appended(before: seq<byte>, e: Emission, after: seq<byte>) {
    AllFit(e.records) && after == before + EncodeAll(e.records)
  }

  lemma NothingAppended(out: seq<byte>, w: WState)
    ensures Appended(out, Emission(w, []), out)
  {
    assert out + [] == out;
  }

  lemma AppendedThen(before: seq<byte>, e: Emission, mid: seq<byte>, f: Emission, after: seq<byte>)
    requires Appended(before, e, mid) && Appended(mid, f, after)
    ensures Appended(before, Then(e, f), after) && Then(e, f).state == f.state
  {
    hide Encode;
    EncodeConcat(e.records, f.records);
    Grouped(before, EncodeAll(e.records), EncodeAll(f.records));
  }

  lemma Grouped(a: seq<byte>, b: seq<byte>, c: seq<byte>)
    ensures a + b + c == a + (b + c)
  {
  }

  lemma ThenState(e: Emission, f: Emission)
    ensures Then(e, f).state == f.state
  {
  }

  lemma ThenNothing(e: Emission, w: WState)
    ensures Then(Emission(w, []), e) == e && Then(e, Emission(e.state, [])) == e
  {
    assert [] + e.records == e.records && e.records + [] == e.records;
  }

  lemma ThenAssociative(e: Emission, f: Emission, g: Emission)
    ensures Then(Then(e, f), g) == Then(e, Then(f, g))
  {
    assert (e.records + f.records) + g.records == e.records + (f.records + g.records);
  }

  lemma EncodeSingle(r: Record)
    requires Fits(r) && !IsEnd(r)
    ensures AllFit([r]) && EncodeAll([r]) == Encode(r)
  {
    assert [r][1..] == [];
    assert Encode(r) + [] == Encode(r);
  }

  lemma {:induction false} EncodeConcat(a: seq<Record>, b: seq<Record>)
    requires AllFit(a) && AllFit(b)
    ensures AllFit(a + b) && EncodeAll(a + b) == EncodeAll(a) + EncodeAll(b)
    decreases |a|
  {
    hide Encode;
    if a == [] {
      assert a + b == b;
    } else {
      assert (a + b)[0] == a[0] && (a + b)[1..] == a[1..] + b;
      EncodeConcat(a[1..], b);
    }
  }
}
