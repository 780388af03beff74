/** The messages of a SIFT trace with their arguments: how the writer packs them into a record, how the reader takes
    them out again, and exactly which of them arrive unchanged. */
module SiftMessages {
  import opened Wrappers
  import opened SiftFormat
  import opened SiftTrace

  type u16 = x: int | 0 <= x < 0x1_0000
  type u32 = x: int | 0 <= x < 0x1_0000_0000

  const EMU_REQUEST: nat := 8

  /** Signed numbers are given by their bit patterns, strings without their final zero. */
  datatype Request =
    | Output(fd: byte, text: seq<byte>)
    | Syscall(number: u16, arguments: seq<byte>)
    | NewThread
    | Join(thread: u32)
    | Sync
    | Fork
    | InstructionCount(count: u32)
    | Magic(a: u64, b: u64, c: u64)
    | Emulate(operation: u16, request: seq<byte>)
    | RoutineChange(event: byte, eip: u64, esp: u64, callEip: u64)
    | RoutineAnnounce(start: u64, name: seq<byte>, image: seq<byte>, offset: u64, line: u32, column: u32,
                      file: seq<byte>)
    | CacheOnly(icount: byte, access: byte, at: u64, address: u64)

  /** What a caller can pass: sizes are 32 bits wide, an emulation request has a fixed size and strings end at their
      first zero. */
  ghost predicate Passable(r: Request) {
    match r
    case Output(_, text) => |text| < 0xffff_ffff
    case Syscall(_, arguments) => |arguments| < 0xffff_fffe
    case Emulate(_, request) => |request| == EMU_REQUEST
    case RoutineAnnounce(_, name, image, _, _, _, file) => Text(name) && Text(image) && Text(file)
    case _ => true
  }

  ghost predicate Text(s: seq<byte>) { forall k :: 0 <= k < |s| ==> s[k] != 0 }

  // ----- packing

  /** A string with its length before it. The length counts the final zero and has 16 bits; what does not fit is
      cut off. */
  function PackText(s: seq<byte>): (b: seq<byte>)
    ensures |b| == 2 + (|s| + 1) % 0x1_0000
  {
    var len := (|s| + 1) % 0x1_0000;
    ToBytes(len, 2) + (s + [0])[..len]
  }

  function KindOf(r: Request): byte {
    match r
    case Output(_, _) => OUTPUT
    case Syscall(_, _) => SYSCALL_REQUEST
    case NewThread => NEW_THREAD
    case Join(_) => JOIN
    case Sync => SYNC
    case Fork => FORK
    case InstructionCount(_) => INSTRUCTION_COUNT
    case Magic(_, _, _) => MAGIC_INSTRUCTION
    case Emulate(_, _) => EMU
    case RoutineChange(_, _, _, _) => ROUTINE_CHANGE
    case RoutineAnnounce(_, _, _, _, _, _, _) => ROUTINE_ANNOUNCE
    case CacheOnly(_, _, _, _) => CACHE_ONLY
  }

  function Pack(r: Request): seq<byte> {
    match r
    case Output(fd, text) => [fd] + text
    case Syscall(number, arguments) => ToBytes(number, 2) + arguments
    case NewThread => []
    case Join(thread) => ToBytes(thread, 4)
    case Sync => []
    case Fork => []
    case InstructionCount(count) => ToBytes(count, 4)
    case Magic(a, b, c) => ToBytes(a, 8) + ToBytes(b, 8) + ToBytes(c, 8)
    case Emulate(operation, request) => ToBytes(operation, 2) + request
    case RoutineChange(event, eip, esp, callEip) => [event] + ToBytes(eip, 8) + ToBytes(esp, 8) + ToBytes(callEip, 8)
    case RoutineAnnounce(start, name, image, offset, line, column, file) =>
      ToBytes(start, 8) + (PackText(name) + (PackText(image) + (ToBytes(offset, 8) + (ToBytes(line, 4)
      + (ToBytes(column, 4) + PackText(file))))))
    case CacheOnly(icount, access, at, address) => [icount] + [access] + ToBytes(at, 8) + ToBytes(address, 8)
  }

  // ----- unpacking

  /** The number in the bytes from `k` on, of the given width. */
  function Word(b: seq<byte>, k: nat, width: nat): nat
    requires k + width <= |b|
  {
    FromBytes(b[k..k + width])
  }

  function Word2(b: seq<byte>, k: nat): u16
    requires k + 2 <= |b|
  {
    Word(b, k, 2) % 0x1_0000
  }

  function Word4(b: seq<byte>, k: nat): u32
    requires k + 4 <= |b|
  {
    Word(b, k, 4) % 0x1_0000_0000
  }

  function Word8(b: seq<byte>, k: nat): u64
    requires k + 8 <= |b|
  {
    Word(b, k, 8) % 0x1_0000_0000_0000_0000
  }

  /** A string up to its first zero. */
  function Ended(s: seq<byte>): (t: seq<byte>)
    ensures |t| <= |s|
  {
    if s == [] || s[0] == 0 then [] else [s[0]] + Ended(s[1..])
  }

  /** A string with its length before it, and what follows. */
  function UnpackText(b: seq<byte>): (r: Option<(seq<byte>, seq<byte>)>) {
    if |b| < 2 then None
    else
      var len := Word2(b, 0);
      if |b| < 2 + len then None else Some((Ended(b[2..2 + len]), b[2 + len..]))
  }

  function UnpackAnnounce(b: seq<byte>): (r: Option<Request>) {
    if |b| < 8 then None
    else
      match UnpackText(b[8..])
      case None => None
      case Some((name, more)) =>
        match UnpackText(more)
        case None => None
        case Some((image, rest)) =>
          if |rest| < 16 then None
          else
            match UnpackText(rest[16..])
            case None => None
            case Some((file, _)) =>
              Some(RoutineAnnounce(Word8(b, 0), name, image, Word8(rest, 0), Word4(rest, 8), Word4(rest, 12), file))
  }

  /** What the reader hands to the handler; None where an assertion fails or a field is missing. */
  function Unpack(kind: byte, b: seq<byte>): (r: Option<Request>) {
    if kind == OUTPUT then (if |b| > 1 then Some(Output(b[0], b[1..])) else None)
    else if kind == SYSCALL_REQUEST then (if |b| > 2 then Some(Syscall(Word2(b, 0), b[2..])) else None)
    else if kind == NEW_THREAD then (if |b| == 0 then Some(NewThread) else None)
    else if kind == JOIN then (if |b| == 4 then Some(Join(Word4(b, 0))) else None)
    else if kind == SYNC then (if |b| == 0 then Some(Sync) else None)
    else if kind == FORK then (if |b| == 0 then Some(Fork) else None)
    else if kind == INSTRUCTION_COUNT then (if |b| == 4 then Some(InstructionCount(Word4(b, 0))) else None)
    else if kind == MAGIC_INSTRUCTION then
      (if |b| == 24 then Some(Magic(Word8(b, 0), Word8(b, 8), Word8(b, 16))) else None)
    else if kind == EMU then (if 2 <= |b| <= 2 + EMU_REQUEST then Some(Emulate(Word2(b, 0), b[2..])) else None)
    else if kind == ROUTINE_CHANGE then
      (if |b| == 25 then Some(RoutineChange(b[0], Word8(b, 1), Word8(b, 9), Word8(b, 17))) else None)
    else if kind == ROUTINE_ANNOUNCE then UnpackAnnounce(b)
    else if kind == CACHE_ONLY then
      (if |b| == 18 then Some(CacheOnly(b[0], b[1], Word8(b, 2), Word8(b, 10))) else None)
    else None
  }

  // ----- round trips

  lemma WordAt(b: seq<byte>, k: nat, width: nat, v: nat)
    requires k + width <= |b| && b[k..k + width] == ToBytes(v, width) && v < Pow256(width)
    ensures Word(b, k, width) == v
  {
    BytesRoundTrip(v, width);
  }

  lemma Powers()
    ensures Pow256(2) == 0x1_0000 && Pow256(4) == 0x1_0000_0000 && Pow256(8) == 0x1_0000_0000_0000_0000
  {
    Pow256Eight();
    assert Pow256(2) == 256 * Pow256(1) == 256 * (256 * Pow256(0));
  }

  lemma {:induction false} EndedText(s: seq<byte>)
    requires Text(s)
    ensures Ended(s + [0]) == s
    decreases |s|
  {
    if s == [] {
      assert s + [0] == [0];
    } else {
      assert (s + [0])[1..] == s[1..] + [0];
      EndedText(s[1..]);
    }
  }

  /** A string comes back exactly when its length with the final zero fits 16 bits. */
  lemma TextRoundTrip(s: seq<byte>, rest: seq<byte>)
    requires Text(s)
    ensures var r := UnpackText(PackText(s) + rest);
            r.Some? && r.value.1 == rest && (r.value.0 == s <==> |s| < 0xffff)
  {
    hide ToBytes, FromBytes, Ended;
    var len := (|s| + 1) % 0x1_0000;
    var b := PackText(s) + rest;
    Powers();
    assert b[0..2] == ToBytes(len, 2);
    WordAt(b, 0, 2, len);
    assert b[2..2 + len] == (s + [0])[..len];
    assert b[2 + len..] == rest;
    if |s| < 0xffff {
      assert (s + [0])[..len] == s + [0];
      EndedText(s);
    } else {
      assert len < |s|;
    }
  }

  /** Output and system calls must carry data, and the strings of an announcement must not be cut off. */
  predicate Arrives(r: Request) {
    match r
    case Output(_, text) => text != []
    case Syscall(_, arguments) => arguments != []
    case RoutineAnnounce(_, name, image, _, _, _, file) => |name| < 0xffff && |image| < 0xffff && |file| < 0xffff
    case _ => true
  }

  lemma AnnounceRoundTrip(r: Request)
    requires r.RoutineAnnounce? && Passable(r)
    ensures UnpackAnnounce(Pack(r)).Some? && |Pack(r)| >= 30
    ensures UnpackAnnounce(Pack(r)) == Some(r) <==> Arrives(r)
  {
    hide ToBytes, FromBytes, UnpackText, PackText, Word;
    var tail := ToBytes(r.offset, 8) + (ToBytes(r.line, 4) + (ToBytes(r.column, 4) + PackText(r.file)));
    var b := Pack(r);
    Powers();
    assert b[0..8] == ToBytes(r.start, 8);
    WordAt(b, 0, 8, r.start);
    assert b[8..] == PackText(r.name) + (PackText(r.image) + tail);
    TextRoundTrip(r.name, PackText(r.image) + tail);
    TextRoundTrip(r.image, tail);
    assert tail[0..8] == ToBytes(r.offset, 8);
    assert tail[8..12] == ToBytes(r.line, 4) && tail[12..16] == ToBytes(r.column, 4);
    WordAt(tail, 0, 8, r.offset);
    WordAt(tail, 8, 4, r.line);
    WordAt(tail, 12, 4, r.column);
    assert tail[16..] == PackText(r.file) + [];
    TextRoundTrip(r.file, []);
  }

  lemma NumbersRoundTrip(r: Request)
    requires r.Magic? || r.RoutineChange? || r.CacheOnly?
    ensures Unpack(KindOf(r), Pack(r)) == Some(r)
  {
    hide ToBytes, FromBytes, Word, UnpackAnnounce;
    var b := Pack(r);
    Powers();
    match r
    case Magic(a, x, c) =>
      assert b[0..8] == ToBytes(a, 8) && b[8..16] == ToBytes(x, 8) && b[16..24] == ToBytes(c, 8);
      WordAt(b, 0, 8, a);
      WordAt(b, 8, 8, x);
      WordAt(b, 16, 8, c);
    case RoutineChange(_, eip, esp, callEip) =>
      assert b[1..9] == ToBytes(eip, 8) && b[9..17] == ToBytes(esp, 8) && b[17..25] == ToBytes(callEip, 8);
      WordAt(b, 1, 8, eip);
      WordAt(b, 9, 8, esp);
      WordAt(b, 17, 8, callEip);
    case CacheOnly(_, _, at, address) =>
      assert b[2..10] == ToBytes(at, 8) && b[10..18] == ToBytes(address, 8);
      WordAt(b, 2, 8, at);
      WordAt(b, 10, 8, address);
  }

  lemma ShortRoundTrip(r: Request)
    requires Passable(r) && !r.Magic? && !r.RoutineChange? && !r.CacheOnly? && !r.RoutineAnnounce?
    ensures Unpack(KindOf(r), Pack(r)) == Some(r) <==> Arrives(r)
  {
    hide ToBytes, FromBytes, Word, UnpackAnnounce;
    var b := Pack(r);
    Powers();
    match r
    case Syscall(number, arguments) =>
      assert b[0..2] == ToBytes(number, 2) && b[2..] == arguments;
      WordAt(b, 0, 2, number);
    case Emulate(operation, request) =>
      assert b[0..2] == ToBytes(operation, 2) && b[2..] == request;
      WordAt(b, 0, 2, operation);
    case Join(thread) =>
      assert b[0..4] == ToBytes(thread, 4);
      WordAt(b, 0, 4, thread);
    case InstructionCount(count) =>
      assert b[0..4] == ToBytes(count, 4);
      WordAt(b, 0, 4, count);
    case _ =>
  }

  lemma AnnounceIs(r: Request, b: seq<byte>)
    requires r.RoutineAnnounce?
    ensures Unpack(KindOf(r), b) == UnpackAnnounce(b)
  {
    hide UnpackAnnounce;
  }

  /** The handler gets the arguments that the program passed, for every message, if and only if output and system
      calls carry data and no string is cut off. */
  lemma RequestRoundTrip(r: Request)
    requires Passable(r)
    ensures Unpack(KindOf(r), Pack(r)) == Some(r) <==> Arrives(r)
  {
    hide Pack, UnpackAnnounce, Unpack;
    if r.RoutineAnnounce? {
      AnnounceRoundTrip(r);
      AnnounceIs(r, Pack(r));
    } else if r.Magic? || r.RoutineChange? || r.CacheOnly? {
      NumbersRoundTrip(r);
    } else {
      ShortRoundTrip(r);
    }
  }

  /** The sizes the reader asserts, with the fields it takes for granted, are those it can unpack; an announcement
      must in addition hold the lengths of its own strings. */
  lemma UnpackedIff(kind: byte, b: seq<byte>)
    requires kind in HANDLED
    ensures kind != ROUTINE_ANNOUNCE ==> (Unpack(kind, b).Some? <==> WellSized(kind, |b|))
    ensures kind == ROUTINE_ANNOUNCE && Unpack(kind, b).Some? ==> WellSized(kind, |b|)
  {
    hide Word;
  }

  // ----- whole traces

  /** The calls that send the requests, each with the addresses whose mappings go first. */
  function Calls(rs: seq<Request>, touched: Request -> seq<u64>): (cs: seq<Call>)
    ensures |cs| == |rs|
    ensures forall k :: 0 <= k < |rs| ==> cs[k] == Message(KindOf(rs[k]), Pack(rs[k]), touched(rs[k]))
  {
    if rs == [] then []
    else Calls(rs[..|rs| - 1], touched)
         + [Message(KindOf(rs[|rs| - 1]), Pack(rs[|rs| - 1]), touched(rs[|rs| - 1]))]
  }

  lemma RequestValid(p: Program, cfg: Config, r: Request, touched: seq<u64>)
    requires Passable(r) && Arrives(r)
    ensures var c := Message(KindOf(r), Pack(r), touched); Sendable(cfg, c) && ValidCall(p, cfg, c)
  {
    hide ToBytes, PackText, Unpack;
    RequestRoundTrip(r);
    UnpackedIff(KindOf(r), Pack(r));
    PackedSize(r);
  }

  lemma PackedSize(r: Request)
    requires Passable(r)
    ensures |Pack(r)| < 0x1_0000_0000
  {
    hide ToBytes;
  }

  lemma {:induction false} ExpectedRequests(p: Program, rs: seq<Request>, touched: Request -> seq<u64>)
    ensures var es := ExpectedAll(p, Calls(rs, touched));
            |es| == |rs| && forall k :: 0 <= k < |rs| ==> es[k] == Handled(KindOf(rs[k]), Pack(rs[k]))
    decreases |rs|
  {
    ExpectedHandled(p, Calls(rs, touched));
  }

  lemma {:induction false} ExpectedHandled(p: Program, cs: seq<Call>)
    requires forall c :: c in cs ==> c.Message?
    ensures |ExpectedAll(p, cs)| == |cs|
    ensures forall k :: 0 <= k < |cs| ==> ExpectedAll(p, cs)[k] == Handled(cs[k].kind, cs[k].data)
    decreases |cs|
  {
    if cs != [] {
      ExpectedHandled(p, cs[1..]);
      var rest := ExpectedAll(p, cs[1..]);
      assert ExpectedAll(p, cs) == [Handled(cs[0].kind, cs[0].data)] + rest;
      forall k | 0 <= k < |cs| ensures ExpectedAll(p, cs)[k] == Handled(cs[k].kind, cs[k].data) {
        if k > 0 { assert rest[k - 1] == Handled(cs[1..][k - 1].kind, cs[1..][k - 1].data); }
      }
    }
  }

  /** From end to end: whatever requests a program makes, the reader of the byte stream hands exactly these requests,
      with their arguments and in their order, to its handlers. */
  lemma RequestsArrive(p: Program, cfg: Config, rs: seq<Request>, touched: Request -> seq<u64>)
    requires forall r :: r in rs ==> Passable(r) && Arrives(r)
    ensures var cs := Calls(rs, touched);
            && (forall c :: c in cs ==> Sendable(cfg, c) && ValidCall(p, cfg, c))
            && var e := WriteCalls(p, cfg, WriterStart, cs);
               && AllEncodable(e.records)
               && var x := ReadBytes(ReaderStart, EncodeAll(e.records) + Encode(Other(END, [])));
                  && x.Some? && |x.value.events| == |rs|
                  && forall k :: 0 <= k < |rs| ==>
                       x.value.events[k].Handled?
                       && Unpack(x.value.events[k].kind, x.value.events[k].data) == Some(rs[k])
  {
    hide Unpack, Pack, KindOf, ValidCall, Sendable, ReadBytes, WriteCalls, AllEncodable, ExpectedAll, Encode, EncodeAll;
    var cs := Calls(rs, touched);
    forall c | c in cs ensures Sendable(cfg, c) && ValidCall(p, cfg, c) {
      var k: nat :| k < |cs| && cs[k] == c;
      assert rs[k] in rs;
      RequestValid(p, cfg, rs[k], touched(rs[k]));
    }
    TraceRoundTrip(p, cfg, cs);
    ExpectedRequests(p, rs, touched);
    forall k | 0 <= k < |rs| ensures Unpack(KindOf(rs[k]), Pack(rs[k])) == Some(rs[k]) {
      assert rs[k] in rs;
      RequestRoundTrip(rs[k]);
    }
  }
}
