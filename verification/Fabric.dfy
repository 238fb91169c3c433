// daemon/fabric.py: what UBFabricSwitch does with one packet, as a function of its state.
module Fabric {
  import opened Bytes
  import opened Port
  import PyInt
  import Router
  import Cip

  const MEMORY_SIZE: nat := 64 * 1024 * 1024

  // Protocol opcodes (daemon/port.py).
  const OP_LINK_TRAIN_REQ: nat := 0x01
  const OP_LINK_TRAIN_ACK: nat := 0x02
  const OP_LINK_CREDIT_UPDATE: nat := 0x03
  const OP_TRANS_PING: nat := 0x13
  const OP_TRANS_PONG: nat := 0x14
  const OP_REG_NODE: nat := 0x20
  const OP_REG_SEG: nat := 0x22
  const OP_CREATE_JETTY: nat := 0x24
  const OP_MEM_READ: nat := 0x30
  const OP_MEM_READ_RESP: nat := 0x31
  const OP_MEM_WRITE: nat := 0x32
  const OP_MEM_WRITE_RESP: nat := 0x33
  const OP_MEM_ATOMIC_CAS: nat := 0x34
  const OP_MEM_ATOMIC_ADD: nat := 0x35
  const OP_MEM_ATOMIC_AND: nat := 0x36
  const OP_MEM_ATOMIC_OR: nat := 0x37
  const OP_MEM_ATOMIC_SWAP: nat := 0x39
  const OP_MEM_ATOMIC_RESP: nat := 0x3A
  const OP_SNOOP_REQ: nat := 0x50
  const OP_SNOOP_RESP: nat := 0x51
  const OP_CACHE_WB: nat := 0x52
  const OP_CACHE_EVICT: nat := 0x53
  const OP_URMA_WRITE: nat := 0x60
  const OP_URMA_WRITE_IMM: nat := 0x61
  const OP_URMA_READ: nat := 0x62
  const OP_URMA_READ_RESP: nat := 0x63
  const OP_URMA_ATOMIC_CAS: nat := 0x67
  const OP_URMA_ATOMIC_ADD: nat := 0x68
  const OP_URMA_ATOMIC_RESP: nat := 0x69
  const OP_CDMA_SUBMIT: nat := 0x70
  const OP_CDMA_COMPLETE: nat := 0x71
  const OP_UMS_SYN: nat := 0x80
  const OP_UMS_SYN_ACK: nat := 0x81
  const OP_UMS_ACK: nat := 0x83
  const OP_UMS_FIN: nat := 0x84
  const OP_URPC_CALL: nat := 0x90
  const OP_URPC_RETURN: nat := 0x91
  const OP_UMQ_SUB: nat := 0x93
  const OP_UMQ_ACK: nat := 0x94
  const OP_OBMM_EXPORT: nat := 0xA0
  const OP_OBMM_IMPORT: nat := 0xA1
  const OP_SENTRY_OOM_BLOCK: nat := 0xB0
  const OP_SENTRY_REBOOT_NOTIFY: nat := 0xB2
  const OP_QUERY_TOPOLOGY: nat := 0xC0
  const OP_QUERY_STATS: nat := 0xC1
  const OP_RESP_OK: nat := 0xF0
  const OP_RESP_ERR: nat := 0xF1

  const FLAG_CIP_ENCRYPTED: nat := 0x80

  /** What a response carries in its metadata. */
  datatype Report =
    | Nothing
    | Done
    | Failed(access: Router.Access)
    | CipFailed(error: Cip.CipError)
    | ImportFailed
    | Original(value: nat)
    | Exported(pool: int)
    | Imported(seg: Router.Segment)

  /** The metadata dictionary: the keys the fabric reads, and the report of a response. */
  datatype Meta = Meta(segmentId: Option<int>, offset: Option<int>, length: Option<int>, size: Option<int>,
                       baseAddr: Option<int>, permissions: Option<string>, localJetty: Option<int>,
                       remoteNode: Option<int>, remoteJetty: Option<int>, poolId: Option<int>,
                       // the value under "swap", "add", "and" or "or", whichever the opcode reads
                       operand: Option<int>, compare: Option<int>, report: Report)

  const NO_META: Meta :=
    Meta(None, None, None, None, None, None, None, None, None, None, None, None, Nothing)

  type Pkt = Packet<Meta>

  /** dict.get(key, default) */
  function GetOr<T>(o: Option<T>, default: T): T
  {
    if o.Some? then o.value else default
  }

  /** The value under a key, or the default, is x. */
  predicate Carries<T(==)>(o: Option<T>, default: T, x: T)
  {
    o == Some(x) || (o.None? && x == default)
  }

  lemma GetCarries<T>(o: Option<T>, default: T, x: T)
    ensures GetOr(o, default) == x <==> Carries(o, default, x)
  {
  }

  /** The fabric: switch table, CIP engine, and the memory of every connected node. */
  datatype State = State(table: Router.Table, cip: Cip.CipState, mem: map<nat, seq<byte>>)

  /** A handler returns a packet, returns None, or raises. */
  datatype Answer = Reply(pkt: Pkt) | Silent | Raises

  /** forwards: the packets written to other connections before the answer. */
  datatype Outcome = Outcome(state: State, answer: Answer, forwards: map<nat, Pkt>)

  function Response(opcode: nat, src: nat, p: Pkt, report: Report, payload: seq<byte>): Pkt
  {
    Make(opcode, src, p.src, 0, 0, 0, p.seqNum, Zeros(16), NO_META.(report := report), payload)
  }

  function Respond(f: State, opcode: nat, src: nat, p: Pkt, report: Report): Outcome
  {
    Outcome(f, Reply(Response(opcode, src, p, report, [])), map[])
  }

  predicate IsCip(p: Pkt)
  {
    PyInt.BitAnd(p.flags, FLAG_CIP_ENCRYPTED) != 0
  }

  // ---------- the CIP gate ----------

  /** What the rest of the handler sees of the payload, or the reason it stops here. */
  function Gate(c: Cip.Crypto, f: State, p: Pkt): (State, Cip.Opened)
  {
    if IsCip(p) then
      var (cip, r) := Cip.Open(c, f.cip, p.payload, p.tag, p.token, p.seqNum, p.src);
      (f.(cip := cip), r)
    else (f, Cip.Plain(p.payload))
  }

  function Process(c: Cip.Crypto, f: State, p: Pkt): Outcome
  {
    var (g, r) := Gate(c, f, p);
    match r
    case Rejected(e) => Respond(g, OP_RESP_ERR, 0, p, CipFailed(e))
    case Plain(payload) => Dispatch(g, p, payload)
  }

  // ---------- the branches ----------

  predicate IsWrite(op: nat)
  {
    op == OP_URMA_WRITE || op == OP_URMA_WRITE_IMM || op == OP_CDMA_SUBMIT || op == OP_MEM_WRITE
  }

  predicate IsRead(op: nat)
  {
    op == OP_URMA_READ || op == OP_MEM_READ
  }

  predicate IsAtomic(op: nat)
  {
    || op == OP_URMA_ATOMIC_CAS || op == OP_URMA_ATOMIC_ADD || op == OP_MEM_ATOMIC_CAS || op == OP_MEM_ATOMIC_ADD
    || op == OP_MEM_ATOMIC_AND || op == OP_MEM_ATOMIC_OR || op == OP_MEM_ATOMIC_SWAP
  }

  predicate IsControl(op: nat)
  {
    || op == OP_LINK_TRAIN_REQ || op == OP_LINK_CREDIT_UPDATE || op == OP_TRANS_PING
    || op == OP_REG_NODE || op == OP_REG_SEG || op == OP_CREATE_JETTY
  }

  function Dispatch(f: State, p: Pkt, payload: seq<byte>): Outcome
  {
    if IsControl(p.opcode) then DispatchControl(f, p)
    else if IsWrite(p.opcode) then HandleWrite(f, p, payload)
    else if IsRead(p.opcode) then HandleRead(f, p)
    else if IsAtomic(p.opcode) then HandleAtomic(f, p)
    else DispatchRest(f, p)
  }

  /** The branches before the memory operations: link, transport, registration. */
  function DispatchControl(f: State, p: Pkt): Outcome
  {
    if p.opcode == OP_LINK_TRAIN_REQ then Respond(f, OP_LINK_TRAIN_ACK, 0, p, Done)
    else if p.opcode == OP_LINK_CREDIT_UPDATE then Outcome(f, Silent, map[])
    else if p.opcode == OP_TRANS_PING then Respond(f, OP_TRANS_PONG, 0, p, Done)
    else if p.opcode == OP_REG_NODE then
      Respond(f.(table := Router.Apply(f.table, Router.RegNode(p.src)), mem := f.mem[p.src := Zeros(MEMORY_SIZE)]),
              OP_RESP_OK, 0, p, Done)
    else if p.opcode == OP_REG_SEG then HandleRegSeg(f, p)
    else HandleCreateJetty(f, p)
  }

  /** The branches after the memory operations. */
  function DispatchRest(f: State, p: Pkt): Outcome
  {
    var op := p.opcode;
    if op == OP_SNOOP_REQ || op == OP_CACHE_WB || op == OP_CACHE_EVICT then
      Respond(f, OP_SNOOP_RESP, p.dst, p, Done)
    else if OP_UMS_SYN <= op <= OP_UMS_FIN || OP_URPC_CALL <= op <= OP_UMQ_SUB then
      Respond(f, OP_RESP_OK, p.dst, p, Done).(forwards := if p.dst in f.mem then map[p.dst := p] else map[])
    else if op == OP_OBMM_EXPORT then HandleExport(f, p)
    else if op == OP_OBMM_IMPORT then HandleImport(f, p)
    else if OP_SENTRY_OOM_BLOCK <= op <= OP_SENTRY_REBOOT_NOTIFY then
      Respond(f, OP_RESP_OK, 0, p, Done).(forwards := map n | n in f.mem && n != p.src :: p)
    else if op == OP_QUERY_TOPOLOGY || op == OP_QUERY_STATS then Respond(f, OP_RESP_OK, 0, p, Done)
    else if p.dst in f.mem then Respond(f, OP_RESP_OK, p.dst, p, Done).(forwards := map[p.dst := p])
    else Outcome(f, Silent, map[])
  }

  function HandleRegSeg(f: State, p: Pkt): Outcome
  {
    if p.meta.segmentId.None? || p.meta.size.None? then Outcome(f, Raises, map[])
    else
      var e := Router.RegSeg(p.src, p.meta.segmentId.value, GetOr(p.meta.baseAddr, 0), p.meta.size.value, p.token,
                             GetOr(p.meta.permissions, "RW"));
      Respond(f.(table := Router.Apply(f.table, e)), OP_RESP_OK, 0, p, Done)
  }

  function HandleCreateJetty(f: State, p: Pkt): Outcome
  {
    if p.meta.localJetty.None? || p.meta.remoteNode.None? || p.meta.remoteJetty.None? then Outcome(f, Raises, map[])
    else
      var e := Router.NewJetty(p.src, p.meta.localJetty.value, p.meta.remoteNode.value, p.meta.remoteJetty.value,
                               p.token);
      Respond(f.(table := Router.Apply(f.table, e)), OP_RESP_OK, 0, p, Done)
  }

  function AccessOf(f: State, p: Pkt, length: int, isWrite: bool): Router.Access
    requires p.meta.segmentId.Some?
  {
    Router.ValidateAccess(f.table, p.dst, p.meta.segmentId.value, GetOr(p.meta.offset, 0), length, isWrite, p.token)
  }

  /** The addressed range lies inside the memory of a connected node. */
  predicate InMemory(f: State, p: Pkt, length: int)
  {
    p.dst in f.mem && GetOr(p.meta.offset, 0) + length <= |f.mem[p.dst]|
  }

  lemma GrantedIsNonNegative(f: State, p: Pkt, length: int, isWrite: bool)
    requires p.meta.segmentId.Some? && AccessOf(f, p, length, isWrite) == Router.Granted
    ensures GetOr(p.meta.offset, 0) >= 0
  {
  }

  function HandleWrite(f: State, p: Pkt, payload: seq<byte>): Outcome
  {
    if p.meta.segmentId.None? then Outcome(f, Raises, map[])
    else
      var offset := GetOr(p.meta.offset, 0);
      var length := |p.payload|;
      var access := AccessOf(f, p, length, true);
      if access != Router.Granted then Respond(f, OP_RESP_ERR, 0, p, Failed(access))
      else
        GrantedIsNonNegative(f, p, length, true);
        var g := if InMemory(f, p, length)
          then f.(mem := f.mem[p.dst := Assign(f.mem[p.dst], offset, offset + length, payload)]) else f;
        Respond(g, if p.opcode == OP_CDMA_SUBMIT then OP_CDMA_COMPLETE else OP_RESP_OK, p.dst, p, Done)
          .(forwards := if p.dst in f.mem then map[p.dst := p] else map[])
  }

  function HandleRead(f: State, p: Pkt): Outcome
  {
    if p.meta.segmentId.None? then Outcome(f, Raises, map[])
    else
      var offset := GetOr(p.meta.offset, 0);
      var length := GetOr(p.meta.length, 0);
      var access := AccessOf(f, p, length, false);
      if access != Router.Granted then Respond(f, OP_RESP_ERR, 0, p, Failed(access))
      else
        var payload := if InMemory(f, p, length) then PySlice(f.mem[p.dst], offset, offset + length)
          else Zeros(if length < 0 then 0 else length);
        var op := if p.opcode == OP_URMA_READ then OP_URMA_READ_RESP else OP_MEM_READ_RESP;
        Outcome(f, Reply(Response(op, p.dst, p, Done, payload)), map[])
  }

  // ---------- atomics ----------

  const WORD_LIMIT: nat := 0x1_0000_0000_0000_0000

  datatype Rmw = Cas(compare: int, swap: int) | Add(v: int) | And(v: int) | Or(v: int) | Swap(v: int)

  datatype Update = Keep | StoreWord(w: nat) | PackError

  function RmwOf(p: Pkt): Rmw
  {
    var v := GetOr(p.meta.operand, 0);
    if p.opcode == OP_URMA_ATOMIC_CAS || p.opcode == OP_MEM_ATOMIC_CAS then Cas(GetOr(p.meta.compare, 0), v)
    else if p.opcode == OP_URMA_ATOMIC_ADD || p.opcode == OP_MEM_ATOMIC_ADD then Add(v)
    else if p.opcode == OP_MEM_ATOMIC_AND then And(v)
    else if p.opcode == OP_MEM_ATOMIC_OR then Or(v)
    else Swap(v)
  }

  /** struct.pack("!Q", v) */
  function PackWord(v: int): Update
  {
    if 0 <= v < WORD_LIMIT then StoreWord(v) else PackError
  }

  function UpdateWord(k: Rmw, w: nat): Update
  {
    match k
    case Cas(compare, swap) => if w == compare then PackWord(swap) else Keep
    case Add(v) => PackWord((w + v) % WORD_LIMIT)
    case And(v) => PackWord(PyInt.BitAnd(w, v))
    case Or(v) => PackWord(PyInt.BitOr(w, v))
    case Swap(v) => PackWord(v)
  }

  function HandleAtomic(f: State, p: Pkt): Outcome
  {
    if p.meta.segmentId.None? then Outcome(f, Raises, map[])
    else
      var offset := GetOr(p.meta.offset, 0);
      var access := AccessOf(f, p, 8, true);
      if access != Router.Granted then Respond(f, OP_RESP_ERR, 0, p, Failed(access))
      else
        GrantedIsNonNegative(f, p, 8, true);
        var op := if p.opcode == OP_URMA_ATOMIC_CAS || p.opcode == OP_URMA_ATOMIC_ADD
          then OP_URMA_ATOMIC_RESP else OP_MEM_ATOMIC_RESP;
        if !InMemory(f, p, 8) then Respond(f, op, p.dst, p, Original(0))
        else
          var w := UnBe(f.mem[p.dst][offset..offset + 8]);
          match UpdateWord(RmwOf(p), w)
          case Keep => Respond(f, op, p.dst, p, Original(w))
          case PackError => Outcome(f, Raises, map[])
          case StoreWord(v) =>
            Respond(f.(mem := f.mem[p.dst := Assign(f.mem[p.dst], offset, offset + 8, Be(v, 8))]),
                    op, p.dst, p, Original(w))
  }

  // ---------- pools ----------

  function HandleExport(f: State, p: Pkt): Outcome
  {
    if p.meta.size.None? then Outcome(f, Raises, map[])
    else
      var e := Router.Export(p.src, p.meta.size.value, p.token, GetOr(p.meta.permissions, "RW"));
      Respond(f.(table := Router.Apply(f.table, e)), OP_RESP_OK, 0, p, Exported(f.table.nextPool))
  }

  function HandleImport(f: State, p: Pkt): Outcome
  {
    if p.meta.poolId.None? then Outcome(f, Raises, map[])
    else
      var seg := Router.ImportPool(f.table, p.meta.poolId.value, p.token);
      if seg.None? then Respond(f, OP_RESP_ERR, 0, p, ImportFailed)
      else Respond(f, OP_RESP_OK, 0, p, Imported(seg.value))
  }

  // ---------- runs ----------

  /** A connection delivers a packet, or ends and takes its node with it. */
  datatype Event = Recv(pkt: Pkt) | Detach(node: nat)

  function Step(c: Cip.Crypto, f: State, e: Event): State
  {
    match e
    case Recv(p) => Process(c, f, p).state
    case Detach(n) =>
      if n !in f.mem then f
      else f.(table := Router.Apply(f.table, Router.UnregNode(n)), mem := f.mem - {n})
  }

  const SUITE_AES_256: byte := 0x02

  const WINDOW: int := 64

  const START: State := State(Router.EMPTY_TABLE, Cip.CipState(SUITE_AES_256, WINDOW, map[], 0, 0, 0, 0), map[])

  function Run(c: Cip.Crypto, es: seq<Event>): State
  {
    if es == [] then START else Step(c, Run(c, es[..|es| - 1]), es[|es| - 1])
  }
}
