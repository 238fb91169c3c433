// What the fabric answers: to whom, under which number, when not at all, and what an
// acknowledgement of a write is worth.
module FabricReplies {
  import opened Bytes
  import opened Port
  import opened Fabric
  import FabricLog
  import Router
  import Cip

  /** RESPONSE_OPCODES of unifiedbus/device.py. */
  predicate IsResponse(op: nat)
  {
    || op == OP_RESP_OK || op == OP_RESP_ERR || op == OP_LINK_TRAIN_ACK || op == OP_TRANS_PONG
    || op == OP_MEM_READ_RESP || op == OP_MEM_WRITE_RESP || op == OP_MEM_ATOMIC_RESP || op == OP_SNOOP_RESP
    || op == OP_URMA_READ_RESP || op == OP_URMA_ATOMIC_RESP || op == OP_CDMA_COMPLETE
    || op == OP_UMS_SYN_ACK || op == OP_UMS_ACK || op == OP_URPC_RETURN || op == OP_UMQ_ACK
  }

  /** An answer goes back to the sender, under the request's own number, with a response opcode, in clear text. */
  predicate Echoes(p: Pkt, a: Answer)
  {
    a.Reply? ==>
      && a.pkt.seqNum == p.seqNum && a.pkt.dst == p.src && IsResponse(a.pkt.opcode)
      && a.pkt.token == 0 && a.pkt.lane == 0 && a.pkt.flags == 0 && a.pkt.tag == Zeros(16)
  }

  /** Whatever is forwarded is the request itself, and only to connected nodes. */
  predicate ForwardsOnly(f: State, p: Pkt, forwards: map<nat, Pkt>)
  {
    forall n :: n in forwards ==> n in f.mem && forwards[n] == p
  }

  lemma HandlersEcho(f: State, p: Pkt, payload: seq<byte>)
    ensures Echoes(p, DispatchControl(f, p).answer)
    ensures Echoes(p, HandleWrite(f, p, payload).answer)
    ensures Echoes(p, HandleRead(f, p).answer)
    ensures Echoes(p, HandleExport(f, p).answer) && Echoes(p, HandleImport(f, p).answer)
  {
    hide Router.Apply, Router.ValidateAccess, Router.ImportPool, Assign, PySlice;
  }

  lemma AtomicEchoes(f: State, p: Pkt)
    ensures Echoes(p, HandleAtomic(f, p).answer)
  {
    hide Router.ValidateAccess, Assign, UnBe, Be, UpdateWord, RmwOf;
  }

  lemma RestEchoes(f: State, p: Pkt)
    ensures Echoes(p, DispatchRest(f, p).answer)
    ensures ForwardsOnly(f, p, DispatchRest(f, p).forwards)
  {
    hide HandleExport, HandleImport;
    HandlersEcho(f, p, []);
    ExportImportForwardNothing(f, p);
  }

  lemma ExportImportForwardNothing(f: State, p: Pkt)
    ensures HandleExport(f, p).forwards == map[] && HandleImport(f, p).forwards == map[]
  {
    hide Router.Apply, Router.ImportPool, Response;
  }

  lemma HandlersForward(f: State, p: Pkt, payload: seq<byte>)
    ensures DispatchControl(f, p).forwards == map[]
    ensures HandleRead(f, p).forwards == map[]
    ensures HandleAtomic(f, p).forwards == map[]
    ensures ForwardsOnly(f, p, HandleWrite(f, p, payload).forwards)
  {
    hide Router.Apply, Router.ValidateAccess, Response, Assign, UnBe, Be, UpdateWord, RmwOf, PySlice;
  }

  lemma DispatchEchoes(f: State, p: Pkt, payload: seq<byte>)
    ensures Echoes(p, Dispatch(f, p, payload).answer)
    ensures ForwardsOnly(f, p, Dispatch(f, p, payload).forwards)
  {
    hide DispatchControl, HandleWrite, HandleRead, HandleAtomic, DispatchRest, Echoes;
    hide IsControl, IsWrite, IsRead, IsAtomic;
    HandlersEcho(f, p, payload);
    AtomicEchoes(f, p);
    RestEchoes(f, p);
    HandlersForward(f, p, payload);
  }

  /** Every branch of the handler answers the request it was given. */
  lemma ProcessEchoes(c: Cip.Crypto, f: State, p: Pkt)
    ensures Echoes(p, Process(c, f, p).answer)
    ensures ForwardsOnly(f, p, Process(c, f, p).forwards)
  {
    hide Gate, Dispatch;
    FabricLog.GateKeepsMemory(c, f, p);
    var (g, r) := Gate(c, f, p);
    if r.Plain? { DispatchEchoes(g, p, r.text); }
  }

  /** The opcodes without a branch of their own: forwarded if the destination is connected. */
  predicate IsGeneric(op: nat)
  {
    && !IsControl(op) && !IsWrite(op) && !IsRead(op) && !IsAtomic(op)
    && op != OP_SNOOP_REQ && op != OP_CACHE_WB && op != OP_CACHE_EVICT
    && !(OP_UMS_SYN <= op <= OP_UMS_FIN) && !(OP_URPC_CALL <= op <= OP_UMQ_SUB)
    && op != OP_OBMM_EXPORT && op != OP_OBMM_IMPORT && !(OP_SENTRY_OOM_BLOCK <= op <= OP_SENTRY_REBOOT_NOTIFY)
    && op != OP_QUERY_TOPOLOGY && op != OP_QUERY_STATS
  }

  lemma HandlersNotSilent(f: State, p: Pkt, payload: seq<byte>)
    ensures DispatchControl(f, p).answer.Silent? ==> p.opcode == OP_LINK_CREDIT_UPDATE
    ensures p.opcode == OP_LINK_CREDIT_UPDATE ==> DispatchControl(f, p).answer.Silent?
    ensures !HandleWrite(f, p, payload).answer.Silent? && !HandleRead(f, p).answer.Silent?
    ensures !HandleAtomic(f, p).answer.Silent?
    ensures !HandleExport(f, p).answer.Silent? && !HandleImport(f, p).answer.Silent?
  {
    hide Router.Apply, Router.ValidateAccess, Router.ImportPool, Response, Assign, UnBe, Be, UpdateWord, RmwOf, PySlice;
  }

  lemma RestSilentExact(f: State, p: Pkt)
    requires !IsControl(p.opcode) && !IsWrite(p.opcode) && !IsRead(p.opcode) && !IsAtomic(p.opcode)
    ensures DispatchRest(f, p).answer.Silent? <==> IsGeneric(p.opcode) && p.dst !in f.mem
  {
    hide HandleExport, HandleImport, Response, IsControl, IsWrite, IsRead, IsAtomic;
    HandlersNotSilent(f, p, []);
  }

  /** A request stays without any answer exactly if it is a credit update, or has no branch of its own
      and no connected destination (and the CIP gate lets it through). */
  lemma SilentExact(c: Cip.Crypto, f: State, p: Pkt)
    ensures Process(c, f, p).answer.Silent? <==>
      Gate(c, f, p).1.Plain? && (p.opcode == OP_LINK_CREDIT_UPDATE || (IsGeneric(p.opcode) && p.dst !in f.mem))
  {
    hide Gate, DispatchControl, HandleWrite, HandleRead, HandleAtomic, DispatchRest, Response;
    FabricLog.GateKeepsMemory(c, f, p);
    var (g, r) := Gate(c, f, p);
    if r.Plain? {
      HandlersNotSilent(g, p, r.text);
      if !IsControl(p.opcode) && !IsWrite(p.opcode) && !IsRead(p.opcode) && !IsAtomic(p.opcode) {
        RestSilentExact(g, p);
      }
    }
  }

  /** A write that passes the gate and is granted is acknowledged, and a granted read of the same range then
      returns what the gate made of its payload, exactly if the range lies inside the memory of a connected node;
      otherwise it was acknowledged but not stored, and reads as zeros. */
  lemma AckedWriteReadsBack(c: Cip.Crypto, f: State, p: Pkt, q: Pkt)
    requires IsWrite(p.opcode) && p.meta.segmentId.Some? && Gate(c, f, p).1.Plain?
    requires AccessOf(f, p, |p.payload|, true) == Router.Granted
    requires IsRead(q.opcode) && q.dst == p.dst && q.meta.segmentId == p.meta.segmentId
    requires q.meta.offset == p.meta.offset && q.meta.length == Some(|p.payload|)
    requires Gate(c, Process(c, f, p).state, q).1.Plain?
    requires AccessOf(Process(c, f, p).state, q, |p.payload|, false) == Router.Granted
    ensures var w := Process(c, f, p);
      var r := Process(c, w.state, q).answer;
      var payload := Gate(c, f, p).1.text;
      && w.answer.Reply? && w.answer.pkt.opcode != OP_RESP_ERR && r.Reply?
      && (r.pkt.payload == payload <==> InMemory(f, p, |payload|) || payload == Zeros(|payload|))
  {
    hide Gate, Process, IsRead, IsWrite, Router.ValidateAccess;
    FabricLog.ProcessOfWrite(c, f, p);
    FabricLog.ProcessOfRead(c, Process(c, f, p).state, q);
    StoredReadsBack(f, p, Gate(c, f, p).1.text, Process(c, f, p).state, q);
  }

  lemma StoredReadsBack(f: State, p: Pkt, payload: seq<byte>, g: State, q: Pkt)
    requires |payload| == |p.payload| && p.meta.segmentId.Some?
    requires AccessOf(f, p, |p.payload|, true) == Router.Granted
    requires q.dst == p.dst && q.meta.segmentId == p.meta.segmentId
    requires q.meta.offset == p.meta.offset && q.meta.length == Some(|payload|)
    requires g.mem == HandleWrite(f, p, payload).state.mem
    requires AccessOf(g, q, |payload|, false) == Router.Granted
    ensures var w := HandleWrite(f, p, payload);
      && w.answer.Reply? && w.answer.pkt.opcode != OP_RESP_ERR && HandleRead(g, q).answer.Reply?
      && (HandleRead(g, q).answer.pkt.payload == payload
          <==> InMemory(f, p, |payload|) || payload == Zeros(|payload|))
  {
    hide Router.ValidateAccess;
    GrantedIsNonNegative(f, p, |p.payload|, true);
    var offset := GetOr(p.meta.offset, 0);
    if InMemory(f, p, |payload|) {
      OverwriteAt(f.mem[p.dst], offset, payload);
      assert PySlice(g.mem[p.dst], offset, offset + |payload|) == payload;
    }
  }

  /** A run in which a write past the 64 MB is acknowledged and lost. */
  lemma AckedWriteCanBeLost(c: Cip.Crypto)
    ensures var f := Run(c, FabricLog.Registered(2, MEMORY_SIZE + 8));
      var meta := NO_META.(segmentId := Some(1), offset := Some(MEMORY_SIZE), length := Some(1));
      var p := Packet(OP_URMA_WRITE, 1, 2, 0, 0, 0, 1, Zeros(16), meta, [7]);
      var q := Packet(OP_URMA_READ, 1, 2, 0, 0, 0, 2, Zeros(16), meta, []);
      var w := Process(c, f, p);
      && w.answer.Reply? && w.answer.pkt.opcode == OP_RESP_OK
      && Process(c, w.state, q).answer.Reply? && Process(c, w.state, q).answer.pkt.payload == [0]
  {
    hide Run;
    FabricLog.RegisteredState(c, 2, MEMORY_SIZE + 8);
    FabricLog.ReadWrites();
    var f := Run(c, FabricLog.Registered(2, MEMORY_SIZE + 8));
    var meta := NO_META.(segmentId := Some(1), offset := Some(MEMORY_SIZE), length := Some(1));
    var p := Packet(OP_URMA_WRITE, 1, 2, 0, 0, 0, 1, Zeros(16), meta, [7]);
    var q := Packet(OP_URMA_READ, 1, 2, 0, 0, 0, 2, Zeros(16), meta, []);
    hide Process;
    FabricLog.PlainGate(c, f, p);
    FabricLog.PlainGate(c, Process(c, f, p).state, q);
  }

  // ---------- request by request, by opcode number ----------

  /** A granted write of any of the four kinds is acknowledged in the name of its destination and passed on to it;
      inside the memory of a connected node the addressed cells become what the gate made of the payload, and
      nothing else changes. */
  lemma WriteExact(c: Cip.Crypto, f: State, p: Pkt, offset: nat)
    requires p.opcode in {0x32, 0x60, 0x61, 0x70} && Gate(c, f, p).1.Plain? && p.meta.segmentId.Some?
    requires Carries(p.meta.offset, 0, offset)
    requires Router.ValidateAccess(f.table, p.dst, p.meta.segmentId.value, offset, |p.payload|, true, p.token)
      == Router.Granted
    ensures var o := Process(c, f, p);
      var text := Gate(c, f, p).1.text;
      var stored := p.dst in f.mem && offset + |p.payload| <= |f.mem[p.dst]|;
      && |text| == |p.payload|
      && o.answer == Reply(Response(if p.opcode == 0x70 then 0x71 else 0xF0, p.dst, p, Done, []))
      && o.forwards == (if p.dst in f.mem then map[p.dst := p] else map[])
      && o.state.mem == if stored
           then f.mem[p.dst := f.mem[p.dst][..offset] + text + f.mem[p.dst][offset + |text|..]] else f.mem
  {
    hide Gate, Process, HandleWrite, Router.ValidateAccess, Response;
    FabricLog.ProcessOfWrite(c, f, p);
    WriteHandled(f, p, Gate(c, f, p).1.text, offset);
  }

  lemma WriteHandled(f: State, p: Pkt, payload: seq<byte>, offset: nat)
    requires p.opcode in {0x32, 0x60, 0x61, 0x70} && p.meta.segmentId.Some? && |payload| == |p.payload|
    requires Carries(p.meta.offset, 0, offset)
    requires Router.ValidateAccess(f.table, p.dst, p.meta.segmentId.value, offset, |p.payload|, true, p.token)
      == Router.Granted
    ensures var o := HandleWrite(f, p, payload);
      && o.answer == Reply(Response(if p.opcode == 0x70 then 0x71 else 0xF0, p.dst, p, Done, []))
      && o.forwards == (if p.dst in f.mem then map[p.dst := p] else map[])
      && o.state.mem == if p.dst in f.mem && offset + |payload| <= |f.mem[p.dst]|
           then f.mem[p.dst := f.mem[p.dst][..offset] + payload + f.mem[p.dst][offset + |payload|..]] else f.mem
  {
    hide Router.ValidateAccess, Response;
  }

  /** A granted read answers the addressed cells, or as many zeros where there is no such memory. */
  lemma ReadExact(c: Cip.Crypto, f: State, p: Pkt, offset: nat, length: nat)
    requires p.opcode in {0x30, 0x62} && Gate(c, f, p).1.Plain? && p.meta.segmentId.Some?
    requires Carries(p.meta.offset, 0, offset) && Carries(p.meta.length, 0, length)
    requires Router.ValidateAccess(f.table, p.dst, p.meta.segmentId.value, offset, length, false, p.token)
      == Router.Granted
    ensures var o := Process(c, f, p);
      var payload := if p.dst in f.mem && offset + length <= |f.mem[p.dst]|
        then f.mem[p.dst][offset..offset + length] else Zeros(length);
      && o.answer == Reply(Response(if p.opcode == 0x62 then 0x63 else 0x31, p.dst, p, Done, payload))
      && o.state.mem == f.mem && o.forwards == map[]
  {
    hide Gate, Process, Router.ValidateAccess, Response;
    FabricLog.ProcessOfRead(c, f, p);
    FabricLog.DispatchMemory(c, f, p);
    ReadHasNoEffect(c, f, p);
    ReadForwardsNothing(c, f, p);
  }

  lemma ReadHasNoEffect(c: Cip.Crypto, f: State, p: Pkt)
    requires p.opcode in {0x30, 0x62}
    ensures FabricLog.Effect(c, f, p).None?
  {
    hide Gate;
  }

  lemma ReadForwardsNothing(c: Cip.Crypto, f: State, p: Pkt)
    requires p.opcode in {0x30, 0x62} && Gate(c, f, p).1.Plain?
    ensures Process(c, f, p).forwards == map[]
  {
    hide Gate, HandleRead, Response;
    HandlersForward(Gate(c, f, p).0, p, []);
  }

  /** Link, transport and registration: what is answered, and which of them raise for want of a key. */
  lemma ControlAnswers(c: Cip.Crypto, f: State, p: Pkt)
    requires Gate(c, f, p).1.Plain?
    ensures var o := Process(c, f, p);
      && (p.opcode == 0x01 ==> o.answer == Reply(Response(0x02, 0, p, Done, [])))
      && (p.opcode == 0x03 ==> o.answer == Silent)
      && (p.opcode == 0x13 ==> o.answer == Reply(Response(0x14, 0, p, Done, [])))
      && (p.opcode == 0x20 ==> o.answer == Reply(Response(0xF0, 0, p, Done, [])))
      && (p.opcode == 0x22 ==>
            var keys := p.meta.segmentId.Some? && p.meta.size.Some?;
            o.answer == if keys then Reply(Response(0xF0, 0, p, Done, [])) else Raises)
      && (p.opcode == 0x24 ==>
            var keys := p.meta.localJetty.Some? && p.meta.remoteNode.Some? && p.meta.remoteJetty.Some?;
            o.answer == if keys then Reply(Response(0xF0, 0, p, Done, [])) else Raises)
      && (p.opcode in {0x01, 0x03, 0x13, 0x20, 0x22, 0x24} ==> o.forwards == map[])
  {
    hide Gate, HandleWrite, HandleRead, HandleAtomic, DispatchRest, Response, Router.Apply;
  }

  lemma ProcessOfRest(c: Cip.Crypto, f: State, p: Pkt)
    requires Gate(c, f, p).1.Plain?
    requires !IsControl(p.opcode) && !IsWrite(p.opcode) && !IsRead(p.opcode) && !IsAtomic(p.opcode)
    ensures Process(c, f, p) == DispatchRest(Gate(c, f, p).0, p)
    ensures Gate(c, f, p).0.mem == f.mem && Gate(c, f, p).0.table == f.table
  {
    hide Gate, HandleWrite, HandleRead, HandleAtomic, DispatchControl, DispatchRest, Response;
    hide IsControl, IsWrite, IsRead, IsAtomic;
    FabricLog.GateKeepsMemory(c, f, p);
  }

  lemma RestOpcode(op: nat)
    ensures op >= 0x80 || op in {0x50, 0x52, 0x53} ==> !IsControl(op) && !IsWrite(op) && !IsRead(op) && !IsAtomic(op)
  {
  }

  /** Coherence, sockets, calls, alarms and queries: what is answered, in whose name, and to whom the packet is
      passed on. */
  lemma RestAnswers(c: Cip.Crypto, f: State, p: Pkt)
    requires Gate(c, f, p).1.Plain?
    ensures var o := Process(c, f, p);
      && (p.opcode in {0x50, 0x52, 0x53} ==>
            o.answer == Reply(Response(0x51, p.dst, p, Done, [])) && o.forwards == map[])
      && (p.opcode in {0x80, 0x81, 0x82, 0x83, 0x84, 0x90, 0x91, 0x92, 0x93} ==>
            && o.answer == Reply(Response(0xF0, p.dst, p, Done, []))
            && o.forwards == if p.dst in f.mem then map[p.dst := p] else map[])
      && (p.opcode in {0xB0, 0xB1, 0xB2} ==>
            && o.answer == Reply(Response(0xF0, 0, p, Done, []))
            && o.forwards == map n | n in f.mem && n != p.src :: p)
      && (p.opcode in {0xC0, 0xC1} ==> o.answer == Reply(Response(0xF0, 0, p, Done, [])) && o.forwards == map[])
  {
    hide Gate, Process, HandleExport, HandleImport, Response, IsControl, IsWrite, IsRead, IsAtomic;
    RestOpcode(p.opcode);
    if p.opcode >= 0x80 || p.opcode in {0x50, 0x52, 0x53} { ProcessOfRest(c, f, p); }
  }

  /** The opcodes with a branch. */
  predicate IsHandled(op: nat)
  {
    || op in {0x01, 0x03, 0x13, 0x20, 0x22, 0x24, 0x30, 0x32, 0x34, 0x35, 0x36, 0x37, 0x39, 0x50, 0x52, 0x53}
    || op in {0x60, 0x61, 0x62, 0x67, 0x68, 0x70, 0x80, 0x81, 0x82, 0x83, 0x84, 0x90, 0x91, 0x92, 0x93}
    || op in {0xA0, 0xA1, 0xB0, 0xB1, 0xB2, 0xC0, 0xC1}
  }

  lemma HandledIff(op: nat)
    ensures IsHandled(op) <==> !IsGeneric(op)
  {
  }

  /** Every other opcode is passed on and acknowledged in the name of its destination, if that is connected. */
  lemma OtherAnswers(c: Cip.Crypto, f: State, p: Pkt)
    requires Gate(c, f, p).1.Plain? && !IsHandled(p.opcode)
    ensures var o := Process(c, f, p);
      if p.dst in f.mem then o.answer == Reply(Response(0xF0, p.dst, p, Done, [])) && o.forwards == map[p.dst := p]
      else o.answer == Silent && o.forwards == map[]
  {
    hide Gate, HandleWrite, HandleRead, HandleAtomic, DispatchControl, HandleExport, HandleImport, Response, IsHandled;
    FabricLog.GateKeepsMemory(c, f, p);
    HandledIff(p.opcode);
  }

  /** Pools: an export is told its number, an import the record or a refusal. */
  lemma PoolAnswers(c: Cip.Crypto, f: State, p: Pkt)
    requires Gate(c, f, p).1.Plain? && (p.opcode == 0xA0 || p.opcode == 0xA1)
    ensures var o := Process(c, f, p);
      && o.forwards == map[]
      && (p.opcode == 0xA0 && p.meta.size.None? ==> o.answer == Raises)
      && (p.opcode == 0xA0 && p.meta.size.Some? ==>
            o.answer == Reply(Response(0xF0, 0, p, Exported(f.table.nextPool), [])))
      && (p.opcode == 0xA1 && p.meta.poolId.None? ==> o.answer == Raises)
      && (p.opcode == 0xA1 && p.meta.poolId.Some? ==>
            match Router.ImportPool(f.table, p.meta.poolId.value, p.token)
            case None => o.answer == Reply(Response(0xF1, 0, p, ImportFailed, []))
            case Some(seg) => o.answer == Reply(Response(0xF0, 0, p, Imported(seg), [])))
  {
    hide Gate, HandleWrite, HandleRead, HandleAtomic, DispatchControl, Response, Router.Apply, Router.ImportPool;
    FabricLog.GateKeepsMemory(c, f, p);
  }

  /** What the gate refuses is answered with the reason, and a memory request that names no segment raises. */
  lemma RefusalAnswers(c: Cip.Crypto, f: State, p: Pkt)
    ensures Gate(c, f, p).1.Rejected? ==>
      Process(c, f, p).answer == Reply(Response(0xF1, 0, p, CipFailed(Gate(c, f, p).1.error), []))
    ensures
      var memory := {0x30, 0x32, 0x34, 0x35, 0x36, 0x37, 0x39, 0x60, 0x61, 0x62, 0x67, 0x68, 0x70};
      Gate(c, f, p).1.Plain? && p.meta.segmentId.None? && p.opcode in memory ==> Process(c, f, p).answer == Raises
  {
    hide Gate, DispatchControl, DispatchRest, Response;
  }
}
