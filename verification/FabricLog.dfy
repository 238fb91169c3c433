// Whole runs of the fabric: node memory against a log of accepted operations, the fate of
// rejected requests, encrypted writes, and the atomic operations.
module FabricLog {
  import opened Bytes
  import opened Port
  import opened Fabric
  import Router
  import Cip
  import ReplayWindow
  import PyInt

  /** What an accepted request did to the memory of a node. */
  datatype MemOp =
    | Zeroed(node: nat)
    | Stored(node: nat, offset: nat, data: seq<byte>)
    | Updated(node: nat, offset: nat, rmw: Rmw)

  /** An accepted write stores the payload as the gate left it. */
  function WriteEffect(f: State, p: Pkt, payload: seq<byte>): Option<MemOp>
  {
    if p.meta.segmentId.Some? && AccessOf(f, p, |p.payload|, true) == Router.Granted && InMemory(f, p, |p.payload|)
    then Some(Stored(p.dst, GetOr(p.meta.offset, 0), payload)) else None
  }

  /** An accepted atomic operation updates the addressed word. */
  function AtomicEffect(f: State, p: Pkt): Option<MemOp>
  {
    if p.meta.segmentId.Some? && AccessOf(f, p, 8, true) == Router.Granted && InMemory(f, p, 8)
      && UpdateWord(RmwOf(p), WordIn(f.mem[p.dst], GetOr(p.meta.offset, 0))) != PackError
    then Some(Updated(p.dst, GetOr(p.meta.offset, 0), RmwOf(p))) else None
  }

  function WordIn(m: seq<byte>, offset: nat): nat
    requires offset + 8 <= |m|
  {
    UnBe(m[offset..offset + 8])
  }

  function Effect(c: Cip.Crypto, f: State, p: Pkt): Option<MemOp>
  {
    var r := Gate(c, f, p).1;
    if r.Rejected? then None
    else if IsControl(p.opcode) then (if p.opcode == OP_REG_NODE then Some(Zeroed(p.src)) else None)
    else if IsWrite(p.opcode) then WriteEffect(f, p, r.text)
    else if IsAtomic(p.opcode) then AtomicEffect(f, p)
    else None
  }

  function EffectOf(c: Cip.Crypto, f: State, e: Event): seq<MemOp>
  {
    if e.Recv? && Effect(c, f, e.pkt).Some? then [Effect(c, f, e.pkt).value] else []
  }

  function Log(c: Cip.Crypto, es: seq<Event>): seq<MemOp>
  {
    if es == [] then []
    else Log(c, es[..|es| - 1]) + EffectOf(c, Run(c, es[..|es| - 1]), es[|es| - 1])
  }

  // ---------- what a log means: the last operation on a cell decides it ----------

  function NextWord(k: Rmw, w: nat): nat
  {
    match UpdateWord(k, w)
    case StoreWord(v) => v
    case _ => w
  }

  predicate Covers(op: MemOp, node: nat, a: nat)
  {
    op.node == node &&
    match op
    case Zeroed(_) => true
    case Stored(_, offset, data) => offset <= a < offset + |data|
    case Updated(_, offset, _) => offset <= a < offset + 8
  }

  function ByteAt(log: seq<MemOp>, node: nat, a: nat): byte
    decreases |log|, 0
  {
    if log == [] then 0
    else
      var before := log[..|log| - 1];
      var op := log[|log| - 1];
      if !Covers(op, node, a) then ByteAt(before, node, a)
      else
        match op
        case Zeroed(_) => 0
        case Stored(_, offset, data) => data[a - offset]
        case Updated(_, offset, k) => Be(NextWord(k, WordAt(before, node, offset)), 8)[a - offset]
  }

  /** The n cells from an offset on. */
  function Cells(log: seq<MemOp>, node: nat, offset: nat, n: nat): (r: seq<byte>)
    ensures |r| == n
    decreases |log|, 1
  {
    seq<byte>(n, i requires 0 <= i < n => ByteAt(log, node, offset + i))
  }

  function WordAt(log: seq<MemOp>, node: nat, offset: nat): nat
    decreases |log|, 2
  {
    UnBe(Cells(log, node, offset, 8))
  }

  /** Connected nodes hold 64 MB that agree cell by cell with the log. */
  ghost predicate Agrees(mem: map<nat, seq<byte>>, log: seq<MemOp>)
  {
    forall n :: n in mem ==>
      |mem[n]| == 64 * 1024 * 1024 && forall a :: 0 <= a < |mem[n]| ==> mem[n][a] == ByteAt(log, n, a)
  }

  lemma GateKeepsMemory(c: Cip.Crypto, f: State, p: Pkt)
    ensures var (g, r) := Gate(c, f, p);
      g.mem == f.mem && g.table == f.table && (r.Plain? ==> |r.text| == |p.payload|)
  {
  }

  /** The memory after a packet, in terms of its effect. */
  function MemAfter(mem: map<nat, seq<byte>>, op: Option<MemOp>): map<nat, seq<byte>>
  {
    match op
    case None => mem
    case Some(Zeroed(n)) => mem[n := Zeros(MEMORY_SIZE)]
    case Some(Stored(n, offset, data)) =>
      if n in mem && offset + |data| <= |mem[n]|
      then mem[n := Assign(mem[n], offset, offset + |data|, data)] else mem
    case Some(Updated(n, offset, k)) =>
      if n in mem && offset + 8 <= |mem[n]|
      then mem[n := Assign(mem[n], offset, offset + 8, Be(NextWord(k, UnBe(mem[n][offset..offset + 8])), 8))] else mem
  }

  lemma KeepIsRewrite(m: seq<byte>, offset: nat)
    requires offset + 8 <= |m|
    ensures Assign(m, offset, offset + 8, Be(UnBe(m[offset..offset + 8]), 8)) == m
  {
    PackOfUnpack(m[offset..offset + 8]);
  }

  lemma AtomicMemory(f: State, p: Pkt)
    ensures HandleAtomic(f, p).state.mem == MemAfter(f.mem, AtomicEffect(f, p))
  {
    hide UnBe, Be, UpdateWord, Assign, Router.ValidateAccess, Response, RmwOf;
    if p.meta.segmentId.Some? && AccessOf(f, p, 8, true) == Router.Granted && InMemory(f, p, 8) {
      GrantedIsNonNegative(f, p, 8, true);
      KeepIsRewrite(f.mem[p.dst], GetOr(p.meta.offset, 0));
      assert f.mem[p.dst := f.mem[p.dst]] == f.mem;
    }
  }

  lemma WriteMemory(f: State, p: Pkt, payload: seq<byte>)
    requires |payload| == |p.payload|
    ensures HandleWrite(f, p, payload).state.mem == MemAfter(f.mem, WriteEffect(f, p, payload))
  {
    hide Assign, Router.ValidateAccess, Response;
    if p.meta.segmentId.Some? && AccessOf(f, p, |p.payload|, true) == Router.Granted {
      GrantedIsNonNegative(f, p, |p.payload|, true);
    }
  }

  lemma OthersKeepMemory(f: State, p: Pkt)
    ensures DispatchControl(f, p).state.mem
      == MemAfter(f.mem, if p.opcode == OP_REG_NODE then Some(Zeroed(p.src)) else None)
    ensures HandleRead(f, p).state.mem == f.mem
    ensures DispatchRest(f, p).state.mem == f.mem
  {
    hide Router.Apply, Router.ValidateAccess, Router.ImportPool, Response;
  }

  lemma EffectIgnoresCip(g: State, f: State, p: Pkt, payload: seq<byte>)
    requires g.mem == f.mem && g.table == f.table
    ensures WriteEffect(g, p, payload) == WriteEffect(f, p, payload)
    ensures AtomicEffect(g, p) == AtomicEffect(f, p)
  {
    hide UnBe, UpdateWord, RmwOf, Router.ValidateAccess;
  }

  /** A packet changes node memory by exactly its effect. */
  lemma DispatchMemory(c: Cip.Crypto, f: State, p: Pkt)
    ensures Process(c, f, p).state.mem == MemAfter(f.mem, Effect(c, f, p))
  {
    hide HandleAtomic, HandleWrite, DispatchControl, HandleRead, DispatchRest, IsControl, IsWrite;
    hide Gate, Response, Router.Apply, AtomicEffect, WriteEffect;
    GateKeepsMemory(c, f, p);
    var (g, r) := Gate(c, f, p);
    if r.Plain? {
      OthersKeepMemory(g, p);
      AtomicMemory(g, p);
      WriteMemory(g, p, r.text);
      EffectIgnoresCip(g, f, p, r.text);
    }
  }

  // ---------- the log is the memory ----------

  predicate OpFits(mem: map<nat, seq<byte>>, op: MemOp)
  {
    match op
    case Zeroed(_) => true
    case Stored(n, offset, data) => n in mem && offset + |data| <= |mem[n]|
    case Updated(n, offset, _) => n in mem && offset + 8 <= |mem[n]|
  }

  lemma EffectFits(c: Cip.Crypto, f: State, p: Pkt)
    requires Effect(c, f, p).Some?
    ensures OpFits(f.mem, Effect(c, f, p).value)
  {
    hide Gate, UpdateWord, RmwOf, WordIn;
    GateKeepsMemory(c, f, p);
  }

  lemma LastOp(log: seq<MemOp>, op: MemOp, node: nat, a: nat)
    ensures ByteAt(log + [op], node, a) ==
      if !Covers(op, node, a) then ByteAt(log, node, a)
      else match op
        case Zeroed(_) => 0
        case Stored(_, offset, data) => data[a - offset]
        case Updated(_, offset, k) => Be(NextWord(k, WordAt(log, node, offset)), 8)[a - offset]
  {
    assert (log + [op])[..|log|] == log;
  }

  lemma WordAgrees(mem: map<nat, seq<byte>>, log: seq<MemOp>, node: nat, offset: nat)
    requires Agrees(mem, log) && node in mem && offset + 8 <= MEMORY_SIZE
    ensures WordIn(mem[node], offset) == WordAt(log, node, offset)
  {
    assert mem[node][offset..offset + 8] == Cells(log, node, offset, 8);
  }

  lemma AgreesAfterOp(mem: map<nat, seq<byte>>, log: seq<MemOp>, op: MemOp)
    requires Agrees(mem, log) && OpFits(mem, op)
    ensures Agrees(MemAfter(mem, Some(op)), log + [op])
  {
    hide ByteAt, WordAt, NextWord, Be, UnBe;
    var next := MemAfter(mem, Some(op));
    if op.Updated? { WordAgrees(mem, log, op.node, op.offset); }
    forall n, a | n in next && 0 <= a < MEMORY_SIZE
      ensures |next[n]| == MEMORY_SIZE && next[n][a] == ByteAt(log + [op], n, a)
    {
      LastOp(log, op, n, a);
    }
  }

  /** In every run each connected node holds 64 MB, and every cell is what the log says of it. */
  lemma {:induction false} MemoryRefinesLog(c: Cip.Crypto, es: seq<Event>)
    ensures Agrees(Run(c, es).mem, Log(c, es))
  {
    hide Process, Effect, ByteAt;
    if es != [] {
      var before := es[..|es| - 1];
      var e := es[|es| - 1];
      MemoryRefinesLog(c, before);
      var f := Run(c, before);
      if e.Recv? {
        DispatchMemory(c, f, e.pkt);
        if Effect(c, f, e.pkt).Some? {
          EffectFits(c, f, e.pkt);
          AgreesAfterOp(f.mem, Log(c, before), Effect(c, f, e.pkt).value);
        } else {
          assert Log(c, before) + [] == Log(c, before);
        }
      } else {
        assert Log(c, before) + [] == Log(c, before);
      }
    }
  }

  // ---------- what replies carry ----------

  /** Behind the gate a read is handled on the same memory and table. */
  lemma ProcessOfRead(c: Cip.Crypto, f: State, p: Pkt)
    requires IsRead(p.opcode) && Gate(c, f, p).1.Plain?
    ensures Process(c, f, p).answer == HandleRead(f, p).answer
  {
    hide Gate, HandleAtomic, HandleWrite, DispatchControl, DispatchRest, Router.ValidateAccess, Response, PySlice;
    GateKeepsMemory(c, f, p);
    ReadIsRead(p.opcode);
  }

  /** Behind the gate a write is handled, with the payload the gate made, on the same memory and table. */
  lemma ProcessOfWrite(c: Cip.Crypto, f: State, p: Pkt)
    requires IsWrite(p.opcode) && Gate(c, f, p).1.Plain?
    ensures var o, w := Process(c, f, p), HandleWrite(f, p, Gate(c, f, p).1.text);
      && o.state.mem == w.state.mem && o.state.table == w.state.table
      && o.answer == w.answer && o.forwards == w.forwards
    ensures |Gate(c, f, p).1.text| == |p.payload|
  {
    hide Gate, HandleWrite, Dispatch;
    GateKeepsMemory(c, f, p);
    var (g, r) := Gate(c, f, p);
    DispatchOfWrite(g, p, r.text);
    WriteIgnoresCip(g, f, p, r.text);
  }

  lemma DispatchOfWrite(f: State, p: Pkt, payload: seq<byte>)
    requires IsWrite(p.opcode)
    ensures Dispatch(f, p, payload) == HandleWrite(f, p, payload)
  {
    hide HandleWrite, HandleAtomic, HandleRead, DispatchControl, DispatchRest;
  }

  lemma WriteIgnoresCip(g: State, f: State, p: Pkt, payload: seq<byte>)
    requires g.mem == f.mem && g.table == f.table && |payload| == |p.payload|
    ensures var o, w := HandleWrite(g, p, payload), HandleWrite(f, p, payload);
      && o.state.mem == w.state.mem && o.state.table == w.state.table
      && o.answer == w.answer && o.forwards == w.forwards
  {
    hide Router.ValidateAccess, Response, Assign;
  }

  lemma ReadIsRead(op: nat)
    requires IsRead(op)
    ensures !IsControl(op) && !IsWrite(op) && !IsAtomic(op)
  {
  }

  /** A read that passes the gate and is granted returns, for any length, the slice of the log's memory that
      Python takes; for a length that is not negative, the cells it names. Outside the memory it returns
      zeros. */
  lemma ReadReturnsLog(c: Cip.Crypto, es: seq<Event>, p: Pkt)
    requires IsRead(p.opcode) && p.meta.segmentId.Some? && Gate(c, Run(c, es), p).1.Plain?
    requires AccessOf(Run(c, es), p, GetOr(p.meta.length, 0), false) == Router.Granted
    ensures GetOr(p.meta.offset, 0) >= 0 && Process(c, Run(c, es), p).answer.Reply?
    ensures var offset, length := GetOr(p.meta.offset, 0), GetOr(p.meta.length, 0);
      var payload := Process(c, Run(c, es), p).answer.pkt.payload;
      if InMemory(Run(c, es), p, length) then
        && payload == PySlice(Cells(Log(c, es), p.dst, 0, MEMORY_SIZE), offset, offset + length)
        && (length >= 0 ==> payload == Cells(Log(c, es), p.dst, offset, length))
      else payload == Zeros(if length < 0 then 0 else length)
  {
    hide Run, Log, ByteAt, Gate, Process, IsRead, Router.ValidateAccess;
    MemoryRefinesLog(c, es);
    var f := Run(c, es);
    ProcessOfRead(c, f, p);
    var offset, length := GetOr(p.meta.offset, 0), GetOr(p.meta.length, 0);
    GrantedIsNonNegative(f, p, length, false);
    if InMemory(f, p, length) {
      assert f.mem[p.dst] == Cells(Log(c, es), p.dst, 0, MEMORY_SIZE);
      if length >= 0 {
        assert PySlice(f.mem[p.dst], offset, offset + length) == f.mem[p.dst][offset..offset + length];
      }
    }
  }

  /** An atomic operation that passes the gate, is granted and answered returns the word of the log, as it was
      before the operation. */
  lemma AtomicReturnsLog(c: Cip.Crypto, es: seq<Event>, p: Pkt)
    requires IsAtomic(p.opcode) && p.meta.segmentId.Some? && Gate(c, Run(c, es), p).1.Plain?
    requires AccessOf(Run(c, es), p, 8, true) == Router.Granted && InMemory(Run(c, es), p, 8)
    requires Process(c, Run(c, es), p).answer.Reply?
    ensures GetOr(p.meta.offset, 0) >= 0
    ensures Process(c, Run(c, es), p).answer.pkt.meta.report
      == Original(WordAt(Log(c, es), p.dst, GetOr(p.meta.offset, 0)))
  {
    hide Run, Log, ByteAt, WordAt, Gate, Process, IsAtomic, UpdateWord, UnBe, Be, RmwOf, Assign, Router.ValidateAccess;
    MemoryRefinesLog(c, es);
    var f := Run(c, es);
    ProcessOfAtomic(c, f, p);
    GrantedIsNonNegative(f, p, 8, true);
    WordAgrees(f.mem, Log(c, es), p.dst, GetOr(p.meta.offset, 0));
  }

  lemma ProcessOfAtomic(c: Cip.Crypto, f: State, p: Pkt)
    requires IsAtomic(p.opcode) && Gate(c, f, p).1.Plain?
    ensures Process(c, f, p).answer == HandleAtomic(f, p).answer
    ensures Process(c, f, p).state.mem == HandleAtomic(f, p).state.mem
    ensures Process(c, f, p).forwards == HandleAtomic(f, p).forwards
  {
    hide Gate, HandleAtomic, Dispatch;
    GateKeepsMemory(c, f, p);
    var (g, r) := Gate(c, f, p);
    DispatchOfAtomic(g, p, r.text);
    AtomicIgnoresCip(g, f, p);
  }

  lemma DispatchOfAtomic(f: State, p: Pkt, payload: seq<byte>)
    requires IsAtomic(p.opcode)
    ensures Dispatch(f, p, payload) == HandleAtomic(f, p)
  {
    hide HandleWrite, HandleAtomic, HandleRead, DispatchControl, DispatchRest, IsControl, IsWrite, IsRead, IsAtomic;
    AtomicIsAtomic(p.opcode);
  }

  lemma AtomicIgnoresCip(g: State, f: State, p: Pkt)
    requires g.mem == f.mem && g.table == f.table
    ensures var o, w := HandleAtomic(g, p), HandleAtomic(f, p);
      o.state.mem == w.state.mem && o.answer == w.answer && o.forwards == w.forwards
  {
    hide Router.ValidateAccess, Response, UpdateWord, RmwOf, UnBe, Be, Assign;
  }

  lemma AtomicIsAtomic(op: nat)
    requires IsAtomic(op)
    ensures !IsControl(op) && !IsWrite(op) && !IsRead(op)
  {
  }

  /** Where a read of the node's memory begins and ends, after Python's treatment of the indices. */
  function ReadFrom(p: Pkt): nat
  {
    PyIndex(MEMORY_SIZE, GetOr(p.meta.offset, 0))
  }

  function ReadTo(p: Pkt): nat
  {
    PyIndex(MEMORY_SIZE, GetOr(p.meta.offset, 0) + GetOr(p.meta.length, 0))
  }

  /** A granted read inside the memory returns the cells from ReadFrom to ReadTo. These lie in the segment,
      or are none, exactly unless a negative length ends the slice, counted from the end of the memory, past
      the segment. */
  lemma ReadInsideSegmentIff(f: State, p: Pkt)
    requires p.meta.segmentId.Some? && AccessOf(f, p, GetOr(p.meta.length, 0), false) == Router.Granted
    requires InMemory(f, p, GetOr(p.meta.length, 0)) && |f.mem[p.dst]| == MEMORY_SIZE
    ensures var offset, length := GetOr(p.meta.offset, 0), GetOr(p.meta.length, 0);
      var size := f.table.segments[p.dst][p.meta.segmentId.value].size;
      && HandleRead(f, p).answer.Reply?
      && HandleRead(f, p).answer.pkt.payload
         == (if ReadFrom(p) <= ReadTo(p) then f.mem[p.dst][ReadFrom(p)..ReadTo(p)] else [])
      && ((ReadFrom(p) >= ReadTo(p) || ReadTo(p) <= size) <==>
          (offset + length >= 0 || offset >= MEMORY_SIZE || MEMORY_SIZE + length <= 0
           || MEMORY_SIZE + offset + length <= size))
  {
    GrantedIsNonNegative(f, p, GetOr(p.meta.length, 0), false);
  }

  /** Offset 4 and length -8 in a segment of 16 bytes: the answer is all but four bytes at either end of the
      node's memory. */
  lemma ReadEscapesSegment(c: Cip.Crypto)
    ensures var f := Run(c, Registered(1, 16));
      var meta := NO_META.(segmentId := Some(1), offset := Some(4), length := Some(-8));
      var q := Packet(OP_URMA_READ, 2, 1, 0, 0, 0, 1, Zeros(16), meta, []);
      && Process(c, f, q).answer.Reply?
      && Process(c, f, q).answer.pkt.payload == Zeros(MEMORY_SIZE - 8)
  {
    hide Process, Run;
    RegisteredState(c, 1, 16);
    var f := Run(c, Registered(1, 16));
    var meta := NO_META.(segmentId := Some(1), offset := Some(4), length := Some(-8));
    var q := Packet(OP_URMA_READ, 2, 1, 0, 0, 0, 1, Zeros(16), meta, []);
    PlainGate(c, f, q);
    ProcessOfRead(c, f, q);
    ReadWrites();
    assert PySlice(Zeros(MEMORY_SIZE), 4, -4) == Zeros(MEMORY_SIZE - 8);
  }

  /** A node registers itself and a segment 1 of the given size. */
  function Registered(node: nat, size: nat): seq<Event>
  {
    [Recv(Packet(OP_REG_NODE, node, 0, 0, 0, 0, 1, Zeros(16), NO_META, [])),
     Recv(Packet(OP_REG_SEG, node, 0, 0, 0, 0, 2, Zeros(16), NO_META.(segmentId := Some(1), size := Some(size)), []))]
  }

  lemma PlainGate(c: Cip.Crypto, f: State, p: Pkt)
    requires p.flags == 0
    ensures Gate(c, f, p) == (f, Cip.Plain(p.payload)) && Process(c, f, p) == Dispatch(f, p, p.payload)
  {
    hide Dispatch;
  }

  lemma ReadWrites()
    ensures 'W' in Router.Upper("RW") && 'R' in Router.Upper("RW")
  {
    assert Router.Upper("RW") == "RW";
  }

  lemma RegisteredState(c: Cip.Crypto, node: nat, size: nat)
    ensures var f := Run(c, Registered(node, size));
      && f.mem == map[node := Zeros(MEMORY_SIZE)]
      && f.table.segments == map[node := map[1 := Router.MakeSegment(1, node, 0, size, 0, "RW")]]
  {
    hide Process, Router.Apply, Run;
    var es := Registered(node, size);
    assert [] + [es[0]] == es[..1] && es[..1] + [es[1]] == es;
    RunMore(c, [], es[0]);
    RunMore(c, es[..1], es[1]);
    assert Run(c, []) == START by { RunNothing(c); }
    NodeStep(c, START, es[0].pkt);
    SegmentStep(c, Run(c, es[..1]), es[1].pkt, size);
    TableAfter(node, size);
  }

  lemma RunMore(c: Cip.Crypto, es: seq<Event>, e: Event)
    ensures Run(c, es + [e]) == Step(c, Run(c, es), e)
  {
    hide Step;
    assert (es + [e])[..|es|] == es;
  }

  lemma RunNothing(c: Cip.Crypto)
    ensures Run(c, []) == START
  {
  }

  lemma NodeStep(c: Cip.Crypto, f: State, p: Pkt)
    requires p.opcode == OP_REG_NODE && p.flags == 0
    ensures var g := Process(c, f, p).state;
      g.mem == f.mem[p.src := Zeros(MEMORY_SIZE)] && g.table == Router.Apply(f.table, Router.RegNode(p.src))
  {
    hide Router.Apply, Response, HandleWrite, HandleAtomic, HandleRead, DispatchRest;
    PlainGate(c, f, p);
  }

  lemma SegmentStep(c: Cip.Crypto, f: State, p: Pkt, size: nat)
    requires p.opcode == OP_REG_SEG && p.flags == 0 && p.token == 0
    requires p.meta == NO_META.(segmentId := Some(1), size := Some(size))
    ensures var g := Process(c, f, p).state;
      g.mem == f.mem && g.table == Router.Apply(f.table, Router.RegSeg(p.src, 1, 0, size, 0, "RW"))
  {
    hide Router.Apply, Response, HandleWrite, HandleAtomic, HandleRead, DispatchRest;
    PlainGate(c, f, p);
  }

  lemma TableAfter(node: nat, size: nat)
    ensures Router.Apply(Router.Apply(Router.EMPTY_TABLE, Router.RegNode(node)),
                         Router.RegSeg(node, 1, 0, size, 0, "RW")).segments
      == map[node := map[1 := Router.MakeSegment(1, node, 0, size, 0, "RW")]]
  {
    hide Router.MakeSegment;
  }

  /** A granted read answers with as many bytes as it was asked for, except that a negative length
      on a connected node can reach back past the start and wrap around the end of the memory. */
  lemma ReadLengthExact(f: State, p: Pkt)
    requires p.meta.segmentId.Some? && AccessOf(f, p, GetOr(p.meta.length, 0), false) == Router.Granted
    requires p.dst in f.mem ==> |f.mem[p.dst]| == MEMORY_SIZE
    ensures var offset, length := GetOr(p.meta.offset, 0), GetOr(p.meta.length, 0);
      HandleRead(f, p).answer.Reply? &&
      (|HandleRead(f, p).answer.pkt.payload| == (if length < 0 then 0 else length) <==>
        (length >= 0 || p.dst !in f.mem || offset + length >= 0 || length + MEMORY_SIZE <= 0 || offset >= MEMORY_SIZE))
  {
    GrantedIsNonNegative(f, p, GetOr(p.meta.length, 0), false);
  }

  predicate Refused(a: Answer)
  {
    !a.Reply? || a.pkt.opcode == OP_RESP_ERR
  }

  predicate Unchanged(f: State, o: Outcome)
  {
    o.state == f && o.forwards == map[]
  }

  lemma RefusedHandlersKeepState(f: State, p: Pkt, payload: seq<byte>)
    ensures Refused(DispatchControl(f, p).answer) ==> Unchanged(f, DispatchControl(f, p))
    ensures Refused(HandleWrite(f, p, payload).answer) ==> Unchanged(f, HandleWrite(f, p, payload))
    ensures Refused(HandleRead(f, p).answer) ==> Unchanged(f, HandleRead(f, p))
    ensures Refused(HandleExport(f, p).answer) ==> Unchanged(f, HandleExport(f, p))
    ensures Refused(HandleImport(f, p).answer) ==> Unchanged(f, HandleImport(f, p))
  {
    hide Router.Apply, Router.ValidateAccess, Router.ImportPool, Assign, PySlice;
  }

  lemma RefusedAtomicKeepsState(f: State, p: Pkt)
    ensures Refused(HandleAtomic(f, p).answer) ==> Unchanged(f, HandleAtomic(f, p))
  {
    hide Router.ValidateAccess, Assign, UnBe, Be, UpdateWord, RmwOf;
  }

  lemma RefusedRestKeepsState(f: State, p: Pkt)
    ensures Refused(DispatchRest(f, p).answer) ==> Unchanged(f, DispatchRest(f, p))
  {
    hide HandleExport, HandleImport;
    RefusedHandlersKeepState(f, p, []);
  }

  lemma RefusedDispatchKeepsState(f: State, p: Pkt, payload: seq<byte>)
    ensures Refused(Dispatch(f, p, payload).answer) ==> Unchanged(f, Dispatch(f, p, payload))
  {
    hide HandleAtomic, HandleWrite, DispatchControl, HandleRead, DispatchRest;
    hide IsControl, IsWrite, IsRead, IsAtomic;
    RefusedHandlersKeepState(f, p, payload);
    RefusedAtomicKeepsState(f, p);
    RefusedRestKeepsState(f, p);
  }

  /** A request answered with an error, with nothing, or by a failing handler changes neither the
      memory nor the switch table; a rejected one can only have moved the replay window. */
  lemma RejectionChangesNothing(c: Cip.Crypto, f: State, p: Pkt)
    requires Refused(Process(c, f, p).answer)
    ensures Process(c, f, p).state.mem == f.mem && Process(c, f, p).state.table == f.table
    ensures Process(c, f, p).forwards == map[]
  {
    hide Gate, Dispatch, Response;
    GateKeepsMemory(c, f, p);
    var (g, r) := Gate(c, f, p);
    if r.Plain? { RefusedDispatchKeepsState(g, p, r.text); }
  }

  // ---------- encrypted writes ----------

  /** The packets of a run that met the replay window. */
  function GateHistory(es: seq<Event>): seq<ReplayWindow.Arrival>
  {
    if es == [] then []
    else
      var e := es[|es| - 1];
      GateHistory(es[..|es| - 1])
      + if e.Recv? && IsCip(e.pkt) && e.pkt.payload != [] then [ReplayWindow.Arrival(e.pkt.src, e.pkt.seqNum)] else []
  }

  lemma DispatchKeepsCip(f: State, p: Pkt, payload: seq<byte>)
    ensures Dispatch(f, p, payload).state.cip == f.cip
  {
    hide Router.Apply, Router.ValidateAccess, Router.ImportPool, Response, Assign, PySlice, UnBe, Be, UpdateWord, RmwOf;
  }

  lemma StepWindow(c: Cip.Crypto, f: State, e: Event)
    requires f.cip.suite == SUITE_AES_256
    ensures var g := Step(c, f, e);
      && g.cip.suite == f.cip.suite && g.cip.size == f.cip.size
      && g.cip.windows ==
         if e.Recv? && IsCip(e.pkt) && e.pkt.payload != []
         then ReplayWindow.CheckAt(f.cip.windows, ReplayWindow.Arrival(e.pkt.src, e.pkt.seqNum), f.cip.size).1
         else f.cip.windows
  {
    hide Dispatch, IsCip, Response, Router.Apply, ReplayWindow.CheckAt, Cip.TagOf, Cip.Mask;
    if e.Recv? {
      var (g, r) := Gate(c, f, e.pkt);
      if r.Plain? { DispatchKeepsCip(g, e.pkt, r.text); }
    }
  }

  /** The fabric's replay windows are those of the packets that met them, across detaches. */
  lemma {:induction false} WindowsFollowHistory(c: Cip.Crypto, es: seq<Event>)
    ensures Run(c, es).cip.suite == 0x02 && Run(c, es).cip.size == 64
    ensures Run(c, es).cip.windows == ReplayWindow.Run(GateHistory(es), WINDOW)
  {
    hide Step, IsCip, ReplayWindow.CheckAt;
    if es != [] {
      var before := es[..|es| - 1];
      WindowsFollowHistory(c, before);
      StepWindow(c, Run(c, before), es[|es| - 1]);
      var h := GateHistory(before);
      var e := es[|es| - 1];
      if e.Recv? && IsCip(e.pkt) && e.pkt.payload != [] {
        var a := ReplayWindow.Arrival(e.pkt.src, e.pkt.seqNum);
        assert (h + [a])[..|h|] == h;
      } else {
        assert h + [] == h;
      }
    }
  }

  lemma {:induction false} HistoryPrefix(es: seq<Event>, k: nat)
    requires k <= |es|
    ensures GateHistory(es[..k]) <= GateHistory(es)
    decreases |es|
  {
    if k < |es| {
      assert es[..|es| - 1][..k] == es[..k];
      HistoryPrefix(es[..|es| - 1], k);
    } else {
      assert es[..k] == es;
    }
  }

  lemma PassedMeansAdmitted(c: Cip.Crypto, es: seq<Event>, p: Pkt)
    requires IsCip(p) && p.payload != [] && Gate(c, Run(c, es), p).1.Plain?
    ensures ReplayWindow.VerdictOf(GateHistory(es), ReplayWindow.Arrival(p.src, p.seqNum), WINDOW)
      == ReplayWindow.Admitted
  {
    hide Run, ReplayWindow.CheckAt;
    WindowsFollowHistory(c, es);
  }

  ghost predicate IsEncrypted(e: Event, src: nat, seqNum: nat)
  {
    e.Recv? && IsCip(e.pkt) && e.pkt.payload != [] && e.pkt.src == src && e.pkt.seqNum == seqNum
  }

  /** Of all encrypted packets of a run with one source and sequence number at most one passes the
      gate; the others change no memory. */
  lemma EncryptedAtMostOnce(c: Cip.Crypto, es: seq<Event>, src: nat, seqNum: nat, i: nat, j: nat)
    requires i < j < |es| && IsEncrypted(es[i], src, seqNum) && IsEncrypted(es[j], src, seqNum)
    requires Gate(c, Run(c, es[..i]), es[i].pkt).1.Plain?
    ensures Gate(c, Run(c, es[..j]), es[j].pkt).1.Rejected?
    ensures Run(c, es[..j + 1]).mem == Run(c, es[..j]).mem
  {
    hide Run, Gate, GateHistory, ReplayWindow.CheckAt;
    var a := ReplayWindow.Arrival(src, seqNum);
    assert es[..j][..i] == es[..i] && es[..j][..i + 1] == es[..i + 1];
    HistoryMore(es, i);
    HistoryMore(es, j);
    HistoryPrefix(es[..j], i + 1);
    var hi := GateHistory(es[..i]);
    var hj := GateHistory(es[..j]);
    var h := hj + [a];
    assert h[..|hj|] == hj && h[..|hi|] == hi && h[|hi|] == a && h[|hj|] == a;
    PassedMeansAdmitted(c, es[..i], es[i].pkt);
    ReplayWindow.AdmittedOnce(h, |hi|, |hj|, WINDOW);
    if Gate(c, Run(c, es[..j]), es[j].pkt).1.Plain? {
      PassedMeansAdmitted(c, es[..j], es[j].pkt);
    }
    RejectedKeepsMemory(c, Run(c, es[..j]), es[j].pkt);
    assert es[..j + 1] == es[..j] + [es[j]];
    RunMore(c, es[..j], es[j]);
  }

  lemma HistoryMore(es: seq<Event>, i: nat)
    requires i < |es| && es[i].Recv? && IsCip(es[i].pkt) && es[i].pkt.payload != []
    ensures GateHistory(es[..i + 1]) == GateHistory(es[..i]) + [ReplayWindow.Arrival(es[i].pkt.src, es[i].pkt.seqNum)]
  {
    assert es[..i + 1][..i] == es[..i];
  }

  lemma RejectedKeepsMemory(c: Cip.Crypto, f: State, p: Pkt)
    requires Gate(c, f, p).1.Rejected?
    ensures Process(c, f, p).state.mem == f.mem
  {
    hide Gate, Response;
    GateKeepsMemory(c, f, p);
  }

  /** An encrypted write that takes effect stores the payload unmasked under its own token and number. */
  lemma EncryptedWriteStoresPlaintext(c: Cip.Crypto, es: seq<Event>, p: Pkt)
    requires IsWrite(p.opcode) && IsCip(p) && p.payload != [] && Effect(c, Run(c, es), p).Some?
    ensures Effect(c, Run(c, es), p).value
      == Stored(p.dst, GetOr(p.meta.offset, 0) as nat, Cip.Mask(c, p.token, p.seqNum, p.payload))
    ensures p.tag == Cip.TagOf(c, SUITE_AES_256, p.token, p.seqNum, p.payload)
  {
    hide Run, ReplayWindow.CheckAt, Router.ValidateAccess, Cip.TagOf, Cip.Mask, IsCip;
    WindowsFollowHistory(c, es);
  }

  /** What the gate says of an encrypted packet, exactly, in terms of the numbers admitted before: the window
      decides first, then the tag. */
  lemma GateExact(c: Cip.Crypto, es: seq<Event>, p: Pkt)
    requires IsCip(p) && p.payload != []
    ensures var admitted := ReplayWindow.AdmittedSet(GateHistory(es), p.src, WINDOW);
      Gate(c, Run(c, es), p).1 ==
        if ReplayWindow.TooOld(admitted, p.seqNum, WINDOW) then Cip.Rejected(Cip.ReplayStale)
        else if p.seqNum in admitted then Cip.Rejected(Cip.ReplayDuplicate)
        else if p.tag != Cip.TagOf(c, SUITE_AES_256, p.token, p.seqNum, p.payload) then Cip.Rejected(Cip.TagMismatch)
        else Cip.Plain(Cip.Mask(c, p.token, p.seqNum, p.payload))
  {
    hide Run, ReplayWindow.Check, IsCip, Cip.TagOf, Cip.Mask;
    WindowsFollowHistory(c, es);
    var h := GateHistory(es);
    ReplayWindow.WindowRefinesSet(h, p.src, WINDOW);
    ReplayWindow.CheckRefines(ReplayWindow.Lookup(ReplayWindow.Run(h, WINDOW), p.src),
                              ReplayWindow.AdmittedSet(h, p.src, WINDOW), p.seqNum, WINDOW);
  }

  /** The gate opens a packet whose flags have bit 7 under its own fields, and lets any other pass as it is. */
  lemma GateOpens(c: Cip.Crypto, f: State, p: Pkt)
    ensures var (g, r) := Gate(c, f, p);
      if PyInt.Bit(p.flags, 7) then
        var (cip, result) := Cip.Open(c, f.cip, p.payload, p.tag, p.token, p.seqNum, p.src);
        r == result && g == f.(cip := cip)
      else r == Cip.Plain(p.payload) && g == f
  {
    hide Cip.Open, PyInt.BitAnd;
    PyInt.MaskTest(p.flags, 7);
    assert PyInt.Shl(1, 7) == 0x80 by { assert PyInt.Shl(1, 4) == 16; }
  }

  /** An encrypted packet of the source that came by before, at least a window above the number. */
  ghost predicate Overtaken(es: seq<Event>, src: nat, seqNum: nat)
  {
    exists i: nat :: i < |es| && OvertakenBy(es[i], src, seqNum)
  }

  predicate OvertakenBy(e: Event, src: nat, seqNum: nat)
  {
    e.Recv? && IsCip(e.pkt) && e.pkt.payload != [] && e.pkt.src == src && seqNum + 64 <= e.pkt.seqNum
  }

  /** The packets that met the window are the encrypted ones of the run. */
  lemma {:induction false} OvertakenInHistory(es: seq<Event>, src: nat, seqNum: nat)
    ensures Overtaken(es, src, seqNum) <==> ReplayWindow.Arrived(GateHistory(es), src, seqNum + WINDOW)
  {
    hide IsCip;
    if es != [] {
      var last := |es| - 1;
      var before, e := es[..last], es[last];
      OvertakenInHistory(before, src, seqNum);
      OvertakenSplit(es, src, seqNum);
      var h := GateHistory(before);
      if e.Recv? && IsCip(e.pkt) && e.pkt.payload != [] {
        ReplayWindow.ArrivedSplit(h, ReplayWindow.Arrival(e.pkt.src, e.pkt.seqNum), src, seqNum + WINDOW);
      } else {
        assert h + [] == h;
      }
    }
  }

  lemma OvertakenSplit(es: seq<Event>, src: nat, seqNum: nat)
    requires es != []
    ensures var last := |es| - 1;
      Overtaken(es, src, seqNum) <==> Overtaken(es[..last], src, seqNum) || OvertakenBy(es[last], src, seqNum)
  {
    hide OvertakenBy;
    var last := |es| - 1;
    if i: nat :| i < |es| && OvertakenBy(es[i], src, seqNum) {
      if i < last { assert OvertakenBy(es[..last][i], src, seqNum); }
    }
    if i: nat :| i < last && OvertakenBy(es[..last][i], src, seqNum) {
      assert OvertakenBy(es[i], src, seqNum);
    }
  }

  /** The window outlives the connection, and moves before the tag is looked at: an encrypted packet is refused
      as stale exactly if some encrypted packet of its source, in this connection or an earlier one, with a
      right tag or a wrong one, had a number at least a window above. */
  lemma StaleIff(c: Cip.Crypto, es: seq<Event>, p: Pkt)
    requires IsCip(p) && p.payload != []
    ensures Gate(c, Run(c, es), p).1 == Cip.Rejected(Cip.ReplayStale) <==> Overtaken(es, p.src, p.seqNum)
  {
    hide Run, Gate, IsCip, Cip.TagOf, Cip.Mask, Overtaken, ReplayWindow.TooOld;
    GateExact(c, es, p);
    OvertakenInHistory(es, p.src, p.seqNum);
    ReplayWindow.TooOldIffArrived(GateHistory(es), p.src, p.seqNum, WINDOW);
  }

  /** A node that reattaches and counts from the start again is refused every number at least a window below
      one it had sent before, wherever it detached in between. */
  lemma WindowSurvivesDetach(c: Cip.Crypto, before: seq<Event>, q: Pkt, node: nat, after: seq<Event>, p: Pkt)
    requires IsCip(q) && q.payload != [] && IsCip(p) && p.payload != [] && q.src == p.src == node
    requires p.seqNum + 64 <= q.seqNum
    ensures Gate(c, Run(c, before + [Recv(q), Detach(node)] + after), p).1 == Cip.Rejected(Cip.ReplayStale)
  {
    hide Run, Gate, IsCip;
    var es := before + [Recv(q), Detach(node)] + after;
    assert es[|before|] == Recv(q) && OvertakenBy(es[|before|], p.src, p.seqNum);
    StaleIff(c, es, p);
  }
}
