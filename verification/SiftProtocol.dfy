/** The request/response protocol between the SIFT writer and reader: calls that wait for a reply, and the
    memory requests that a handler on the reader's side may send back before it replies. */
module SiftProtocol {
  import opened Wrappers
  import opened SiftFormat
  import opened SiftTrace

  const SYSCALL_RESPONSE: byte := 3
  const NEW_THREAD_RESPONSE: byte := 5
  const MEMORY_REQUEST: byte := 6
  const MEMORY_RESPONSE: byte := 7
  const JOIN_RESPONSE: byte := 9
  const SYNC_RESPONSE: byte := 13
  const MAGIC_RESPONSE: byte := 16
  const EMU_RESPONSE: byte := 20
  const FORK_RESPONSE: byte := 22

  const MEM_READ: nat := 1
  const MEM_WRITE: nat := 2

  // ----- kinds of call

  /** The calls on the writer that wait for a reply. */
  const CALLS: set<byte> := {SYSCALL_REQUEST, NEW_THREAD, JOIN, SYNC, MAGIC_INSTRUCTION, EMU, FORK, INSTRUCTION_COUNT}

  /** Those whose waiting loop also serves memory requests. */
  const SERVING: set<byte> := {SYSCALL_REQUEST, SYNC, MAGIC_INSTRUCTION, EMU}

  function ResponseKind(call: byte): byte
    requires call in CALLS
  {
    if call == SYSCALL_REQUEST then SYSCALL_RESPONSE
    else if call == NEW_THREAD then NEW_THREAD_RESPONSE
    else if call == JOIN then JOIN_RESPONSE
    else if call == MAGIC_INSTRUCTION then MAGIC_RESPONSE
    else if call == EMU then EMU_RESPONSE
    else if call == FORK then FORK_RESPONSE
    else SYNC_RESPONSE
  }

  /** Size of what the reader sends back. */
  function ReplySize(call: byte): nat {
    if call in {SYSCALL_REQUEST, MAGIC_INSTRUCTION} then 8 else if call == EMU then 25 else 4
  }

  /** The size assertion of the waiting writer. */
  predicate ReplyAccepted(call: byte, n: nat) {
    if call == EMU then 1 <= n <= 25 else n == ReplySize(call)
  }

  // ----- the memory of the traced program

  type Memory = map<nat, byte>

  function Peek(m: Memory, a: nat): byte { if a in m then m[a] else 0 }

  function ReadMemory(m: Memory, a: nat, n: nat): (d: seq<byte>)
    ensures |d| == n
    decreases n
  {
    if n == 0 then [] else [Peek(m, a)] + ReadMemory(m, a + 1, n - 1)
  }

  function WriteMemory(m: Memory, a: nat, d: seq<byte>): Memory
    decreases |d|
  {
    if d == [] then m else WriteMemory(m[a := d[0]], a + 1, d[1..])
  }

  lemma {:induction false} WrittenByte(m: Memory, a: nat, d: seq<byte>, x: nat)
    ensures Peek(WriteMemory(m, a, d), x) == if a <= x < a + |d| then d[x - a] else Peek(m, x)
    decreases |d|
  {
    if d != [] { WrittenByte(m[a := d[0]], a + 1, d[1..], x); }
  }

  lemma {:induction false} ReadByte(m: Memory, a: nat, n: nat, k: nat)
    requires k < n
    ensures ReadMemory(m, a, n)[k] == Peek(m, a + k)
    decreases n
  {
    if k > 0 { ReadByte(m, a + 1, n - 1, k - 1); }
  }

  /** A read gives what was last written there. */
  lemma ReadAfterWrite(m: Memory, a: nat, d: seq<byte>)
    ensures ReadMemory(WriteMemory(m, a, d), a, |d|) == d
  {
    hide ReadMemory, WriteMemory, Peek;
    var w := WriteMemory(m, a, d);
    forall k: nat | k < |d| ensures ReadMemory(w, a, |d|)[k] == d[k] {
      ReadByte(w, a, |d|, k);
      WrittenByte(m, a, d, a + k);
    }
  }

  /** An access by a handler: what to do, where, and the buffer to fill or to write. */
  datatype Access = Access(op: nat, lock: nat, addr: u64, buffer: seq<byte>)

  /** The fields fit their wire formats. */
  predicate Fits(a: Access) {
    a.op < 0x1_0000_0000 && a.lock < 0x1_0000_0000 && |a.buffer| + 20 < 0x1_0000_0000
  }

  function Updated(m: Memory, a: Access): Memory {
    if a.op == MEM_WRITE then WriteMemory(m, a.addr, a.buffer) else m
  }

  function Result(m: Memory, a: Access): (d: seq<byte>)
    ensures |d| == |a.buffer|
  {
    if a.op == MEM_READ then ReadMemory(m, a.addr, |a.buffer|) else a.buffer
  }

  // ----- one remote access

  function MemoryRequest(a: Access): Record {
    Other(MEMORY_REQUEST, ToBytes(a.addr, 8) + ToBytes(|a.buffer|, 4) + ToBytes(a.lock, 4) + ToBytes(a.op, 4)
                          + if a.op == MEM_WRITE then a.buffer else [])
  }

  /** The writer serves a memory request; None where one of its assertions fails. */
  function HandleMemoryRequest(m: Memory, data: seq<byte>): Option<(Memory, Record)> {
    if |data| < 20 then None
    else
      var addr, size, op, payload := FromBytes(data[..8]), FromBytes(data[8..12]), FromBytes(data[16..20]), data[20..];
      if op == MEM_READ then
        if payload != [] || size == 0 then None
        else Some((m, Other(MEMORY_RESPONSE, ToBytes(addr, 8) + ToBytes(op, 4) + ReadMemory(m, addr, size))))
      else if op == MEM_WRITE then
        if |payload| == 0 || |payload| != size then None
        else Some((WriteMemory(m, addr, payload), Other(MEMORY_RESPONSE, ToBytes(addr, 8) + ToBytes(op, 4))))
      else None
  }

  /** The reader takes the answer to `a`: what its buffer holds then; None where an assertion fails. */
  function TakeMemoryResponse(a: Access, rec: Record): Option<seq<byte>> {
    if !rec.Other? || rec.kind != MEMORY_RESPONSE || |rec.data| < 12 then None
    else
      var payload := rec.data[12..];
      if FromBytes(rec.data[..8]) != a.addr then None
      else if a.op == MEM_READ then (if |payload| == |a.buffer| then Some(payload) else None)
      else if a.op == MEM_WRITE then (if payload == [] then Some(a.buffer) else None)
      else None
  }

  lemma WordsRoundTrip(v: nat, w: u64)
    requires v < 0x1_0000_0000
    ensures FromBytes(ToBytes(v, 4)) == v && FromBytes(ToBytes(w, 8)) == w
  {
    Pow256Eight();
    BytesRoundTrip(v, 4);
    BytesRoundTrip(w, 8);
  }

  lemma RequestFields(a: Access)
    requires Fits(a)
    ensures var d := MemoryRequest(a).data;
            && |d| >= 20 && FromBytes(d[..8]) == a.addr && FromBytes(d[8..12]) == |a.buffer|
                && FromBytes(d[16..20]) == a.op
            && d[20..] == if a.op == MEM_WRITE then a.buffer else []
  {
    hide ToBytes, FromBytes;
    var d := MemoryRequest(a).data;
    WordsRoundTrip(|a.buffer|, a.addr);
    WordsRoundTrip(a.op, a.addr);
    assert d[..8] == ToBytes(a.addr, 8);
    assert d[8..12] == ToBytes(|a.buffer|, 4);
    assert d[16..20] == ToBytes(a.op, 4);
  }

  /** The writer can serve the access: it is a read or a write, of at least one byte. */
  predicate Servable(a: Access) {
    a.op in {MEM_READ, MEM_WRITE} && a.buffer != []
  }

  /** A remote access is served exactly when it is servable, and it then has the effect of a direct one:
      the memory changes as it should and the handler gets what the memory holds. */
  lemma RemoteAccess(m: Memory, a: Access)
    requires Fits(a)
    ensures var h := HandleMemoryRequest(m, MemoryRequest(a).data);
            && (h.Some? <==> Servable(a))
            && (h.Some? ==> h.value.0 == Updated(m, a) && TakeMemoryResponse(a, h.value.1) == Some(Result(m, a)))
  {
    hide ToBytes, FromBytes, ReadMemory, WriteMemory;
    RequestFields(a);
    var h := HandleMemoryRequest(m, MemoryRequest(a).data);
    if h.Some? {
      var d := h.value.1.data;
      WordsRoundTrip(a.op, a.addr);
      assert d[..8] == ToBytes(a.addr, 8);
      assert d[12..] == if a.op == MEM_READ then ReadMemory(m, a.addr, |a.buffer|) else [];
    }
  }

  // ----- the state of both sides

  datatype WriterMode = Idle | Waiting(call: byte)

  datatype ReaderMode = Listening | Handling(call: byte) | Asking(call: byte, access: Access)

  datatype Return = Return(call: byte, result: seq<byte>)

  datatype Served = Served(access: Access, result: seq<byte>)

  /** Both sides, both channels, the traced program's memory, and what happened so far: calls issued by the
      writer, replies of the handlers, calls returned to the traced program and accesses completed. */
  datatype State = State(writer: WriterMode, reader: ReaderMode, toReader: seq<Record>, toWriter: seq<Record>,
                         memory: Memory, issued: seq<byte>, replied: seq<Return>, returned: seq<Return>,
                         served: seq<Served>, failed: bool)

  function Start(m: Memory): State {
    State(Idle, Listening, [], [], m, [], [], [], [], false)
  }

  datatype Event =
    | Send(kind: byte, data: seq<byte>)      // the writer emits a record and goes on
    | Invoke(call: byte, data: seq<byte>)    // the writer makes a call and waits
    | ReaderTakes                            // the reader takes the next record
    | HandlerAccesses(access: Access)        // the handler accesses the traced program's memory
    | HandlerReturns(result: seq<byte>)      // the handler ends and the reader replies
    | WriterTakes                            // the waiting writer takes the next record
    | ReaderResumes                          // the waiting handler takes the answer to its access

  predicate Enabled(s: State, e: Event) {
    !s.failed &&
    match e
    case Send(kind, _) => s.writer.Idle? && kind in HANDLED - CALLS
    case Invoke(call, _) => s.writer.Idle? && call in CALLS
    case ReaderTakes => s.reader.Listening? && s.toReader != []
    case HandlerAccesses(a) => s.reader.Handling? && Fits(a)
    case HandlerReturns(result) => s.reader.Handling? && s.reader.call in CALLS && |result| == ReplySize(s.reader.call)
    case WriterTakes => s.writer.Waiting? && s.writer.call in CALLS && s.toWriter != []
    case ReaderResumes => s.reader.Asking? && s.toReader != []
  }

  function Fail(s: State): State { s.(failed := true) }

  function ReaderTake(s: State): State
    requires s.reader.Listening? && s.toReader != []
  {
    var rec := s.toReader[0];
    if !rec.Other? || rec.kind !in HANDLED || !WellSized(rec.kind, |rec.data|) then Fail(s)
    else s.(toReader := s.toReader[1..], reader := if rec.kind in CALLS then Handling(rec.kind) else Listening)
  }

  function WriterTake(s: State): State
    requires s.writer.Waiting? && s.writer.call in CALLS && s.toWriter != []
  {
    var rec, call := s.toWriter[0], s.writer.call;
    if !rec.Other? then Fail(s)
    else if rec.kind == ResponseKind(call) then
      if !ReplyAccepted(call, |rec.data|) then Fail(s)
      else s.(toWriter := s.toWriter[1..], writer := Idle, returned := s.returned + [Return(call, rec.data)])
    else if rec.kind == MEMORY_REQUEST && call in SERVING then
      match HandleMemoryRequest(s.memory, rec.data)
      case None => Fail(s)
      case Some((m, answer)) => s.(toWriter := s.toWriter[1..], memory := m, toReader := s.toReader + [answer])
    else Fail(s)
  }

  function ReaderResume(s: State): State
    requires s.reader.Asking? && s.toReader != []
  {
    match TakeMemoryResponse(s.reader.access, s.toReader[0])
    case None => Fail(s)
    case Some(d) => s.(toReader := s.toReader[1..], reader := Handling(s.reader.call), served := s.served
                    + [Served(s.reader.access, d)])
  }

  function Step(s: State, e: Event): State
    requires Enabled(s, e)
  {
    match e
    case Send(kind, data) => s.(toReader := s.toReader + [Other(kind, data)])
    case Invoke(call, data) => s.(toReader := s.toReader
                               + [Other(call, data)], writer := Waiting(call), issued := s.issued + [call])
    case ReaderTakes => ReaderTake(s)
    case HandlerAccesses(a) => s.(toWriter := s.toWriter + [MemoryRequest(a)], reader := Asking(s.reader.call, a))
    case HandlerReturns(result) =>
      s.(toWriter := s.toWriter + [Other(ResponseKind(s.reader.call), result)], reader := Listening,
         replied := s.replied + [Return(s.reader.call, result)])
    case WriterTakes => WriterTake(s)
    case ReaderResumes => ReaderResume(s)
  }

  // ----- runs

  /** What the surroundings must respect: message sizes the reader insists on, and memory accesses only in
      handlers of serving calls, of at least one byte. */
  predicate Legal(s: State, e: Event) {
    match e
    case Send(kind, data) => WellSized(kind, |data|)
    case Invoke(call, data) => WellSized(call, |data|)
    case HandlerAccesses(a) => s.reader.Handling? && s.reader.call in SERVING && Servable(a)
    case _ => true
  }

  /** A run of enabled steps that respects the rules. */
  predicate LegalRun(s: State, es: seq<Event>)
    decreases |es|
  {
    es == [] || (Enabled(s, es[0]) && Legal(s, es[0]) && LegalRun(Step(s, es[0]), es[1..]))
  }

  function Run(s: State, es: seq<Event>): State
    requires LegalRun(s, es)
    decreases |es|
  {
    if es == [] then s else Run(Step(s, es[0]), es[1..])
  }

  // ----- what every step keeps

  function CallsOf(rs: seq<Return>): seq<byte> {
    seq(|rs|, i requires 0 <= i < |rs| => rs[i].call)
  }

  /** The memory after a history of accesses. */
  function Replay(m: Memory, h: seq<Served>): Memory
    decreases |h|
  {
    if h == [] then m else Updated(Replay(m, h[..|h| - 1]), h[|h| - 1].access)
  }

  /** Every access gave what a direct access to the memory at that point would have given. */
  predicate Consistent(m: Memory, h: seq<Served>)
    decreases |h|
  {
    h == [] || (Consistent(m, h[..|h| - 1]) && h[|h| - 1].result == Result(Replay(m, h[..|h| - 1]), h[|h| - 1].access))
  }

  /** Records the reader hands on without a reply. */
  predicate OneWay(rs: seq<Record>) {
    forall r :: r in rs ==> r.Other? && r.kind in HANDLED - CALLS && WellSized(r.kind, |r.data|)
  }

  /** The six situations of a run: between calls, call under way to the reader, handler at work, memory
      request under way, its answer under way, reply under way. */
  predicate Shape(s: State) {
    match (s.writer, s.reader)
    case (Idle, Listening) => OneWay(s.toReader) && s.toWriter == []
    case (Waiting(call), Listening) =>
      || (s.toWriter == [] && Delivering(s.toReader, call))
      || (s.toReader == [] && Replying(s, call))
    case (Waiting(call), Handling(c)) => c == call && call in CALLS && s.toReader == [] && s.toWriter == []
    case (Waiting(call), Asking(c, a)) => c == call && Exchanging(s, call, a)
    case _ => false
  }

  predicate Delivering(rs: seq<Record>, call: byte) {
    && |rs| > 0 && call in CALLS && OneWay(rs[..|rs| - 1])
    && rs[|rs| - 1].Other? && rs[|rs| - 1].kind == call && WellSized(call, |rs[|rs| - 1].data|)
  }

  predicate Replying(s: State, call: byte) {
    && call in CALLS && |s.replied| > 0 && s.replied[|s.replied| - 1].call == call
    && |s.replied[|s.replied| - 1].result| == ReplySize(call)
    && s.toWriter == [Other(ResponseKind(call), s.replied[|s.replied| - 1].result)]
  }

  predicate Exchanging(s: State, call: byte, a: Access) {
    && call in SERVING && Fits(a) && Servable(a)
    && ((s.toWriter == [MemoryRequest(a)] && s.toReader == []) || (s.toWriter == [] && |s.toReader| == 1))
  }

  /** A reply under way. */
  predicate ReplyPending(s: State) { s.writer.Waiting? && s.reader.Listening? && s.toReader == [] }

  /** Every call issued is replied to once, in order, by its own kind of reply, and what is returned is what
      was replied. */
  predicate Accounted(s: State) {
    && s.issued == CallsOf(s.replied) + (if s.writer.Waiting? && !ReplyPending(s) then [s.writer.call] else [])
    && s.replied == s.returned + (if ReplyPending(s) && |s.replied| > 0 then [s.replied[|s.replied| - 1]] else [])
  }

  /** An answer under way. */
  predicate AnswerPending(s: State) { s.reader.Asking? && s.toWriter == [] }

  /** The memory is the result of all accesses, an unanswered one included, and all results were right. */
  predicate MemoryRight(s: State, m: Memory) {
    && Consistent(m, s.served)
    && if AnswerPending(s) then
         && s.memory == Updated(Replay(m, s.served), s.reader.access)
         && (s.toReader != [] ==> TakeMemoryResponse(s.reader.access, s.toReader[0])
                                  == Some(Result(Replay(m, s.served), s.reader.access)))
       else s.memory == Replay(m, s.served)
  }

  predicate Inv(s: State, m: Memory) {
    !s.failed && Shape(s) && Accounted(s) && MemoryRight(s, m)
  }

  lemma StartInv(m: Memory)
    ensures Inv(Start(m), m)
  {
    assert CallsOf([]) == [];
  }

  lemma SendKeeps(s: State, m: Memory, e: Event)
    requires Inv(s, m) && Enabled(s, e) && Legal(s, e) && (e.Send? || e.Invoke?)
    ensures Inv(Step(s, e), m)
  {
    var t := Step(s, e);
    assert t.toReader[..|t.toReader| - 1] == s.toReader;
    assert CallsOf(s.replied) + [] == CallsOf(s.replied);
  }

  lemma ReaderTakesKeeps(s: State, m: Memory)
    requires Inv(s, m) && Enabled(s, ReaderTakes)
    ensures Inv(Step(s, ReaderTakes), m)
  {
    var rs := s.toReader;
    if s.writer.Waiting? && |rs| > 1 {
      assert rs[..|rs| - 1][0] == rs[0];
      assert rs[1..][..|rs[1..]| - 1] == rs[..|rs| - 1][1..];
    }
  }

  lemma AccessKeeps(s: State, m: Memory, e: Event)
    requires Inv(s, m) && Enabled(s, e) && Legal(s, e) && e.HandlerAccesses?
    ensures Inv(Step(s, e), m)
  {
  }

  lemma ReturnKeeps(s: State, m: Memory, e: Event)
    requires Inv(s, m) && Enabled(s, e) && e.HandlerReturns?
    ensures Inv(Step(s, e), m)
  {
    var t := Step(s, e);
    assert CallsOf(t.replied) == CallsOf(s.replied) + [s.reader.call];
  }

  lemma WriterTakesKeeps(s: State, m: Memory)
    requires Inv(s, m) && Enabled(s, WriterTakes)
    ensures Inv(Step(s, WriterTakes), m)
  {
    if s.reader.Asking? {
      RemoteAccess(s.memory, s.reader.access);
    }
  }

  lemma ResumeKeeps(s: State, m: Memory)
    requires Inv(s, m) && Enabled(s, ReaderResumes)
    ensures Inv(Step(s, ReaderResumes), m)
  {
    var t := Step(s, ReaderResumes);
    assert t.served[..|t.served| - 1] == s.served;
  }

  lemma StepKeeps(s: State, m: Memory, e: Event)
    requires Inv(s, m) && Enabled(s, e) && Legal(s, e)
    ensures Inv(Step(s, e), m)
  {
    hide Inv, Step;
    match e
    case Send(_, _) => SendKeeps(s, m, e);
    case Invoke(_, _) => SendKeeps(s, m, e);
    case ReaderTakes => ReaderTakesKeeps(s, m);
    case HandlerAccesses(_) => AccessKeeps(s, m, e);
    case HandlerReturns(_) => ReturnKeeps(s, m, e);
    case WriterTakes => WriterTakesKeeps(s, m);
    case ReaderResumes => ResumeKeeps(s, m);
  }

  lemma {:induction false} RunKeeps(s: State, m: Memory, es: seq<Event>)
    requires Inv(s, m) && LegalRun(s, es)
    ensures Inv(Run(s, es), m)
    decreases |es|
  {
    hide Inv, Step, Enabled, Legal;
    if es != [] {
      StepKeeps(s, m, es[0]);
      RunKeeps(Step(s, es[0]), m, es[1..]);
    }
  }

  // ----- main results

  /** Over every legal run no assertion fails on either side; every call issued was replied to exactly once,
      in order, except the one the writer still waits for, and returned what was replied; and the handlers'
      accesses behaved as if made directly on the traced program's memory, one after the other. */
  lemma ProtocolSafe(m: Memory, es: seq<Event>)
    requires LegalRun(Start(m), es)
    ensures var t := Run(Start(m), es);
            && !t.failed
            && t.returned <= t.replied && |t.replied| <= |t.returned| + 1
            && CallsOf(t.replied) <= t.issued && |t.issued| <= |t.replied| + 1
            && (t.writer.Idle? ==> t.returned == t.replied && CallsOf(t.returned) == t.issued && t.toWriter == []
                                   && t.reader.Listening?)
            && Consistent(m, t.served)
            && (!t.reader.Asking? ==> t.memory == Replay(m, t.served))
  {
    hide Consistent, Replay, Shape, Run;
    StartInv(m);
    RunKeeps(Start(m), m, es);
    var t := Run(Start(m), es);
    IdleShape(t);
  }

  lemma IdleShape(s: State)
    ensures Shape(s) && s.writer.Idle? ==> s.toWriter == [] && s.reader.Listening?
  {
  }

  /** Can the reader's side go on by itself? */
  predicate ReaderCanMove(s: State) {
    s.reader.Handling? || s.toReader != []
  }

  /** While a call is outstanding exactly one side waits and the other can move; when it returns, both
      channels are empty. */
  lemma OneSideWaits(s: State, m: Memory)
    requires Inv(s, m) && s.writer.Waiting?
    ensures Enabled(s, WriterTakes) <==> !ReaderCanMove(s)
    ensures s.reader.Listening? && s.toReader != [] ==> Enabled(s, ReaderTakes)
    ensures s.reader.Asking? && s.toReader != [] ==> Enabled(s, ReaderResumes)
    ensures Enabled(s, WriterTakes) && Step(s, WriterTakes).writer.Idle? ==>
              Step(s, WriterTakes).toReader == [] && Step(s, WriterTakes).toWriter == []
  {
    if s.reader.Asking? { RemoteAccess(s.memory, s.reader.access); }
  }

  /** Steps until the outstanding call returns, were the handler not to access memory again. */
  function Distance(s: State): nat {
    if s.writer.Idle? then 0
    else if s.reader.Handling? then 2
    else if s.reader.Asking? then (if s.toWriter != [] then 4 else 3)
    else if s.toReader != [] then |s.toReader| + 2
    else 1
  }

  /** Every step brings the outstanding call nearer to its return, but an access, which takes two steps
      more than the one that starts it. */
  lemma CallProgress(s: State, m: Memory, e: Event)
    requires Inv(s, m) && s.writer.Waiting? && Enabled(s, e) && Legal(s, e)
    ensures Distance(Step(s, e)) == if e.HandlerAccesses? then Distance(s) + 2 else Distance(s) - 1
  {
    if e.WriterTakes? && s.reader.Asking? { RemoteAccess(s.memory, s.reader.access); }
    if e.ReaderTakes? && |s.toReader| > 1 { assert s.toReader[0] in s.toReader[..|s.toReader| - 1]; }
  }

  /** The rules for accesses are needed, all of them: once a handler makes an access, the writer's next step
      fails an assertion exactly when the call does not serve memory requests, or the access is not a read
      or write of at least one byte. */
  lemma AccessFailsIff(s: State, m: Memory, a: Access)
    requires Inv(s, m) && s.reader.Handling? && Fits(a)
    ensures Enabled(s, HandlerAccesses(a)) && Enabled(Step(s, HandlerAccesses(a)), WriterTakes)
    ensures Step(Step(s, HandlerAccesses(a)), WriterTakes).failed <==> !(s.reader.call in SERVING && Servable(a))
  {
    RemoteAccess(s.memory, a);
  }

  /** The kind of message an event sends, and its size. */
  function KindOf(e: Event): byte
    requires e.Send? || e.Invoke?
  {
    if e.Send? then e.kind else e.call
  }

  /** So are the sizes: a message with its fixed fields, as the writer sends them, fails an assertion of the
      reader exactly when its size is not the asserted one. */
  lemma MessageFailsIff(s: State, m: Memory, e: Event)
    requires Inv(s, m) && Enabled(s, e) && s.toReader == [] && (e.Send? || e.Invoke?) && FieldsSent(KindOf(e), |e.data|)
    ensures Enabled(Step(s, e), ReaderTakes)
    ensures Step(Step(s, e), ReaderTakes).failed <==> !Asserted(KindOf(e), |e.data|)
  {
  }
}
