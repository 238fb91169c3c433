// kernel/ubus_driver.c: device handles, the id counters, the layout of segments in a node's aperture and
// the translation of a submitted work request through the jetty table.
module Driver {
  import opened Bytes
  import opened Silicon

  const STRIDE: nat := 1024 * 1024

  datatype Dev = Dev(nodes: seq<Node>, open: seq<bool>, nextSeg: nat, nextJetty: nat)

  ghost predicate DevOk(d: Dev)
  {
    NodesOk(d.nodes) && |d.open| == MAX_NODES && d.nextSeg < U32 && d.nextJetty < U32
  }

  /** The transfer part of ub_ioctl_submit_wr with the user buffer. */
  datatype Transfer = Transfer(jetty: nat, opcode: nat, flags: nat, segId: nat, offset: nat, length: nat,
                               data: seq<byte>)

  datatype Call =
    | Open(node: nat)
    | Close(handle: int)
    | RegSeg(handle: int, size: nat, token: nat)
    | CreateJetty(handle: int, remoteNode: nat, token: nat)
    | Submit(handle: int, wr: Transfer)

  /** The C types, and no atomic opcode. */
  predicate TransferOk(w: Transfer)
  {
    && w.jetty < U32 && w.segId < U32 && w.offset < U64 && w.length < U32 && |w.data| == w.length
    && w.opcode != OP_CAS && w.opcode != OP_ADD
  }

  predicate CallOk(c: Call)
  {
    match c
    case Open(_) => true
    case Close(_) => true
    case RegSeg(_, size, token) => size < U64 && token < U32
    case CreateJetty(_, _, token) => token < U32
    case Submit(_, wr) => TransferOk(wr)
  }

  type SysCall = c: Call | CallOk(c) witness Close(0)

  datatype Reply =
    | Failed(code: int)
    | Opened(handle: nat)
    | Closed
    | Named(id: nat)          // segment or jetty id written back to the caller
    | Moved(out: seq<byte>)   // bytes read into the user buffer
    | OutsideMemory           // the C code leaves a table or the memory array: nothing is promised

  /** (seg_id - 1) * (1024 * 1024) in uint32 arithmetic. */
  function BaseOf(id: nat): (b: nat)
    ensures b < U32
  {
    (id - 1) % U32 * STRIDE % U32
  }

  predicate IsOpen(d: Dev, handle: int)
    requires |d.open| == MAX_NODES
  {
    0 <= handle < MAX_NODES && d.open[handle]
  }

  /** The request process_wr sees. Absent jetties read as node 0, token 0. */
  function Describe(jetties: seq<Jetty>, w: Transfer): Request
    requires |jetties| == MAX_JETTIES && w.jetty < MAX_JETTIES && TransferOk(w)
  {
    Request(w.opcode, w.flags, jetties[w.jetty].remoteNode, jetties[w.jetty].token, w.segId, w.offset, w.length, w.data)
  }

  /** Every token in a node's jetty table is a uint32. */
  ghost predicate TokensOk(jetties: seq<Jetty>)
  {
    forall i :: 0 <= i < |jetties| ==> jetties[i].token < U32
  }

  function ReplyOf(res: Result): Reply
  {
    match res
    case Ok(out) => Moved(out)
    case Err(code) => Failed(code)
    case Undefined => OutsideMemory
  }

  ghost predicate Sound(d: Dev)
  {
    DevOk(d) && forall n :: 0 <= n < MAX_NODES ==> TokensOk(d.nodes[n].jetties)
  }

  function Step(d: Dev, c: SysCall): (r: (Dev, Reply))
    requires Sound(d)
    ensures DevOk(r.0)
  {
    match c
    case Open(n) =>
      if n >= MAX_NODES then (d, Failed(-1))
      else if d.open[n] then (d, Opened(n))
      else (d.(nodes := d.nodes[n := LinkUp(d.nodes[n])], open := d.open[n := true]), Opened(n))
    case Close(h) =>
      if !IsOpen(d, h) then (d, Failed(-1))
      else (d.(nodes := d.nodes[h := LinkDown(d.nodes[h])], open := d.open[h := false]), Closed)
    case RegSeg(h, size, token) =>
      if !IsOpen(d, h) then (d, Failed(-1))
      else (d.(nodes := d.nodes[h := AddSegment(d.nodes[h], d.nextSeg, BaseOf(d.nextSeg), size, token)],
               nextSeg := (d.nextSeg + 1) % U32),
            Named(d.nextSeg))
    case CreateJetty(h, remoteNode, token) =>
      if !IsOpen(d, h) then (d, Failed(-1))
      else (d.(nodes := d.nodes[h := AddJetty(d.nodes[h], d.nextJetty, remoteNode, token)],
               nextJetty := (d.nextJetty + 1) % U32),
            Named(d.nextJetty))
    case Submit(h, wr) =>
      if !IsOpen(d, h) then (d, Failed(-1))
      else if wr.jetty >= MAX_JETTIES then (d, OutsideMemory)
      else
        var (nodes, res) := Process(d.nodes, h, Describe(d.nodes[h].jetties, wr));
        (d.(nodes := nodes), ReplyOf(res))
  }

  lemma StepKeepsTokens(d: Dev, c: SysCall)
    requires Sound(d)
    ensures Sound(Step(d, c).0)
  {
    hide Flits;
    var next := Step(d, c).0;
    forall n | 0 <= n < MAX_NODES
      ensures TokensOk(next.nodes[n].jetties)
    {
      if c.Submit? && IsOpen(d, c.handle) && c.wr.jetty < MAX_JETTIES {
        ProcessKeepsTables(d.nodes, c.handle, Describe(d.nodes[c.handle].jetties, c.wr));
      }
    }
  }

  lemma ProcessKeepsTables(nodes: seq<Node>, src: nat, r: WorkRequest)
    requires NodesOk(nodes) && src < MAX_NODES
    ensures forall n :: 0 <= n < MAX_NODES ==>
      && Process(nodes, src, r).0[n].jetties == nodes[n].jetties
      && Process(nodes, src, r).0[n].segs == nodes[n].segs
  {
    hide Flits, Execute;
    if r.dstNode < MAX_NODES { ExecuteKeeps(nodes[r.dstNode], r); }
  }

  // ---------- one call ----------

  /** A call on a handle that is not open fails with -1 and changes nothing. */
  lemma ClosedFails(d: Dev, c: SysCall)
    requires Sound(d)
    requires if c.Open? then c.node >= 64 else !(0 <= c.handle < 64 && d.open[c.handle])
    ensures Step(d, c) == (d, Failed(-1))
  {
  }

  /** Opening answers the node's number and brings its link up unless it was open; closing takes the link down. */
  lemma OpenExact(d: Dev, n: nat)
    requires Sound(d) && n < 64
    ensures var (next, reply) := Step(d, Open(n));
      && reply == Opened(n) && next.open == d.open[n := true]
      && next.nodes == (if d.open[n] then d.nodes else d.nodes[n := d.nodes[n].(linkUp := true)])
      && next.nextSeg == d.nextSeg && next.nextJetty == d.nextJetty
    ensures d.open[n] ==>
      var (next, reply) := Step(d, Close(n));
      && reply == Closed && next.open == d.open[n := false] && next.nodes == d.nodes[n := LinkDown(d.nodes[n])]
      && next.nextSeg == d.nextSeg && next.nextJetty == d.nextJetty
  {
  }

  /** REG_SEG and CREATE_JETTY name the next number and enter the record under it, if the table goes that far. */
  lemma EntriesExact(d: Dev, h: int, a: nat, token: nat)
    requires Sound(d) && 0 <= h < 64 && d.open[h] && a < U64 && token < U32
    ensures var (next, reply) := Step(d, RegSeg(h, a, token));
      var segs := d.nodes[h].segs;
      var base := (d.nextSeg + 4095) % 4096 * 0x10_0000;
      && reply == Named(d.nextSeg) && next.nextSeg == (d.nextSeg + 1) % 0x1_0000_0000
      && next.nextJetty == d.nextJetty && next.open == d.open
      && next.nodes == d.nodes[h := d.nodes[h].(segs :=
           if d.nextSeg < 256 then segs[d.nextSeg := Segment(token, base, a, true)] else segs)]
    ensures var (next, reply) := Step(d, CreateJetty(h, a, token));
      var jetties := d.nodes[h].jetties;
      && reply == Named(d.nextJetty) && next.nextJetty == (d.nextJetty + 1) % 0x1_0000_0000
      && next.nextSeg == d.nextSeg && next.open == d.open
      && next.nodes == d.nodes[h := d.nodes[h].(jetties :=
           if d.nextJetty < 512 then jetties[d.nextJetty := Jetty(a, token, true)] else jetties)]
  {
    BaseExact(d.nextSeg);
  }

  /** SUBMIT_WR sends the request to the node, and under the token, of its jetty. */
  lemma SubmitExact(d: Dev, h: int, wr: Transfer)
    requires Sound(d) && TransferOk(wr) && 0 <= h < 64 && d.open[h]
    ensures var (next, reply) := Step(d, Submit(h, wr));
      if wr.jetty >= 512 then next == d && reply == OutsideMemory
      else
        var j := d.nodes[h].jetties[wr.jetty];
        var r := Request(wr.opcode, wr.flags, j.remoteNode, j.token, wr.segId, wr.offset, wr.length, wr.data);
        && RequestOk(r) && next == d.(nodes := Process(d.nodes, h, r).0)
        && reply == match Process(d.nodes, h, r).1
                    case Ok(out) => Moved(out)
                    case Err(code) => Failed(code)
                    case Undefined => OutsideMemory
  {
    hide Process;
  }

  // ---------- whole runs ----------

  function Fresh(): (d: Dev)
    ensures Sound(d)
  {
    Dev(seq(MAX_NODES, _ => BlankNode()), seq(MAX_NODES, _ => false), 1, 1)
  }

  function Run(calls: seq<SysCall>): (d: Dev)
    ensures Sound(d)
    decreases |calls|
  {
    if calls == [] then Fresh()
    else
      StepKeepsTokens(Run(calls[..|calls| - 1]), calls[|calls| - 1]);
      Step(Run(calls[..|calls| - 1]), calls[|calls| - 1]).0
  }

  /** What the i-th call of a run returns. */
  function ReplyAt(calls: seq<SysCall>, i: nat): Reply
    requires i < |calls|
  {
    Step(Run(calls[..i]), calls[i]).1
  }

  // ---------- ids ----------

  /** The number of segment registrations a run has granted. */
  function GrantedSegs(calls: seq<SysCall>): nat
    decreases |calls|
  {
    if calls == [] then 0
    else
      var last := |calls| - 1;
      GrantedSegs(calls[..last]) + if calls[last].RegSeg? && ReplyAt(calls, last).Named? then 1 else 0
  }

  /** The id counter counts the granted registrations, in 32 bits. */
  lemma {:induction false} IdsAreCounted(calls: seq<SysCall>)
    ensures Run(calls).nextSeg == (1 + GrantedSegs(calls)) % 0x1_0000_0000
    decreases |calls|
  {
    hide Step;
    if calls != [] {
      var last := |calls| - 1;
      IdsAreCounted(calls[..last]);
      StepNames(Run(calls[..last]), calls[last]);
      CountUp(GrantedSegs(calls[..last]));
    }
  }

  lemma StepNames(d: Dev, c: SysCall)
    requires Sound(d)
    ensures var (next, reply) := Step(d, c);
      if c.RegSeg? && reply.Named? then reply.id == d.nextSeg && next.nextSeg == (d.nextSeg + 1) % U32
      else next.nextSeg == d.nextSeg
  {
    hide Process;
  }

  lemma CountUp(k: nat)
    ensures ((1 + k) % U32 + 1) % U32 == (1 + k + 1) % U32
  {
  }

  /** Two granted registrations return the same id exactly if a multiple of 2^32 registrations lies
      between them. */
  lemma IdsRepeatIff(calls: seq<SysCall>, i: nat, j: nat)
    requires i < j < |calls| && calls[i].RegSeg? && calls[j].RegSeg?
    requires ReplyAt(calls, i).Named? && ReplyAt(calls, j).Named?
    ensures ReplyAt(calls, i) == ReplyAt(calls, j) <==>
      (GrantedSegs(calls[..j]) - GrantedSegs(calls[..i])) % U32 == 0
  {
    hide Step, Run, GrantedSegs;
    IdsAreCounted(calls[..i]);
    IdsAreCounted(calls[..j]);
    StepNames(Run(calls[..i]), calls[i]);
    StepNames(Run(calls[..j]), calls[j]);
    SameResidueIff(GrantedSegs(calls[..i]), GrantedSegs(calls[..j]));
  }

  lemma SameResidueIff(x: nat, y: nat)
    ensures (1 + x) % U32 == (1 + y) % U32 <==> (y - x) % U32 == 0
  {
  }

  /** REG_SEG answers with an id in any case, but ignores whether the backend took it: the segment is there,
      for requests to find, exactly if the id is below 256. */
  lemma RegisteredIff(d: Dev, h: int, size: nat, token: nat, r: WorkRequest)
    requires Sound(d) && IsOpen(d, h) && size < U64 && token < U32 && r.segId == d.nextSeg
    ensures var (next, reply) := Step(d, RegSeg(h, size, token));
      && reply == Named(r.segId)
      && (Locate(next.nodes[h], r) != Fault(-3) <==> r.segId < 256)
  {
  }

  /** REG_SEG takes any size of 64 bits: through a segment of 2^64 - 1 bytes a request that does not wrap in it is
      let at any place below the segment's base, which belongs to segments registered before. */
  lemma HugeSegmentReachesBelow(d: Dev, h: int, dst: nat, addr: nat, length: nat)
    requires Sound(d) && IsOpen(d, h) && 1 <= d.nextSeg < MAX_SEGMENTS
    requires addr + length < (d.nextSeg - 1) * STRIDE && addr + length <= NODE_MEM_SIZE
    ensures var (next, reply) := Step(d, RegSeg(h, U64 - 1, 0));
      var r := Request(OP_READ, 0, dst, 0, d.nextSeg, U64 - (d.nextSeg - 1) * STRIDE + addr, length, Zeros(length));
      && reply == Named(d.nextSeg) && RequestOk(r) && r.offset + r.length < U64
      && Locate(next.nodes[h], r) == At(addr)
  {
    BaseOfSmall(d.nextSeg);
    hide BaseOf, Locate;
    var next := Step(d, RegSeg(h, U64 - 1, 0)).0;
    var r := Request(OP_READ, 0, dst, 0, d.nextSeg, U64 - (d.nextSeg - 1) * STRIDE + addr, length, Zeros(length));
    LongSegmentReachesBelow(next.nodes[h], r, addr);
  }

  // ---------- layout ----------

  predicate Covers(id: nat, size: nat, addr: nat)
  {
    BaseOf(id) <= addr < BaseOf(id) + size
  }

  /** As laid out, two segments of one node share a byte exactly if the lower one is longer than the
      stride between them. */
  lemma LayoutOverlapIff(i: nat, j: nat, sizeI: nat, sizeJ: nat)
    requires 1 <= i < j < MAX_SEGMENTS && sizeJ > 0
    ensures (exists a :: Covers(i, sizeI, a) && Covers(j, sizeJ, a))
      <==> sizeI > (j - i) * 0x10_0000
  {
    BaseOfSmall(i);
    BaseOfSmall(j);
    if sizeI > (j - i) * STRIDE {
      assert Covers(i, sizeI, BaseOf(j)) && Covers(j, sizeJ, BaseOf(j));
    }
  }

  lemma BaseOfSmall(id: nat)
    requires 1 <= id <= 4096
    ensures BaseOf(id) == (id - 1) * 0x10_0000 == (id - 1) * STRIDE
  {
  }

  /** Bases are a megabyte apart, in 32 bits: beyond 4096 segments they start again. */
  lemma BaseExact(id: nat)
    requires id < U32
    ensures BaseOf(id) == (id + 4095) % 4096 * 0x10_0000
  {
  }

  // ---------- the driver object ----------

  class UbusDriver {
    const fabric: seq<SiliconNode>
    const isOpen: array<bool>
    var nextSeg: nat
    var nextJetty: nat

    ghost predicate Valid()
      reads this
    {
      && FabricOk(fabric) && isOpen.Length == MAX_NODES && nextSeg < U32 && nextJetty < U32
      && isOpen !in Footprint() && this !in Footprint()
    }

    ghost function Footprint(): set<object>
    {
      Silicon.Footprint(fabric)
    }

    ghost function Abs(): Dev
      requires Valid()
      reads this, isOpen, Footprint()
    {
      Dev(AbsAll(fabric), isOpen[..], nextSeg, nextJetty)
    }

    constructor ()
      ensures Valid() && Abs() == Fresh()
    {
      var nodes: seq<SiliconNode> := [];
      for i := 0 to MAX_NODES
        invariant |nodes| == i
        invariant forall n :: 0 <= n < i ==> nodes[n].Valid() && nodes[n].Abs() == BlankNode()
        invariant forall n :: 0 <= n < i ==> fresh(nodes[n].Repr)
        invariant forall m, n :: 0 <= m < n < i ==> nodes[m].Repr !! nodes[n].Repr
      {
        var node := new SiliconNode();
        nodes := nodes + [node];
      }
      var handles := new bool[MAX_NODES](_ => false);
      fabric, isOpen, nextSeg, nextJetty := nodes, handles, 1, 1;
      new;
      assert Abs().nodes == Fresh().nodes;
    }

    method DevOpen(node: nat) returns (r: Reply)
      requires Valid() && Sound(Abs())
      modifies isOpen, Footprint()
      ensures Valid() && (Abs(), r) == Step(old(Abs()), Open(node))
    {
      if node >= MAX_NODES {
        return Failed(-1);
      }
      if isOpen[node] {
        return Opened(node);
      }
      isOpen[node] := true;
      fabric[node].Register();
      assert Abs().nodes == old(Abs()).nodes[node := LinkUp(old(Abs()).nodes[node])];
      return Opened(node);
    }

    method DevClose(handle: int) returns (r: Reply)
      requires Valid() && Sound(Abs())
      modifies isOpen, Footprint()
      ensures Valid() && (Abs(), r) == Step(old(Abs()), Close(handle))
    {
      if handle < 0 || handle >= MAX_NODES || !isOpen[handle] {
        return Failed(-1);
      }
      fabric[handle].Unregister();
      isOpen[handle] := false;
      assert Abs().nodes == old(Abs()).nodes[handle := LinkDown(old(Abs()).nodes[handle])];
      return Closed;
    }

    /** The code returned by register_segment is ignored. */
    method IoctlRegSeg(handle: int, size: nat, token: nat) returns (r: Reply)
      requires Valid() && Sound(Abs()) && CallOk(RegSeg(handle, size, token))
      modifies this`nextSeg, Footprint()
      ensures Valid() && (Abs(), r) == Step(old(Abs()), RegSeg(handle, size, token))
    {
      if handle < 0 || handle >= MAX_NODES || !isOpen[handle] {
        return Failed(-1);
      }
      var id := nextSeg;
      nextSeg := (nextSeg + 1) % U32;
      var _ := fabric[handle].RegisterSegment(id, BaseOf(id), size, token);
      assert Abs().nodes
        == old(Abs()).nodes[handle := AddSegment(old(Abs()).nodes[handle], id, BaseOf(id), size, token)];
      return Named(id);
    }

    method IoctlCreateJetty(handle: int, remoteNode: nat, token: nat) returns (r: Reply)
      requires Valid() && Sound(Abs()) && CallOk(Call.CreateJetty(handle, remoteNode, token))
      modifies this`nextJetty, Footprint()
      ensures Valid() && (Abs(), r) == Step(old(Abs()), Call.CreateJetty(handle, remoteNode, token))
    {
      if handle < 0 || handle >= MAX_NODES || !isOpen[handle] {
        return Failed(-1);
      }
      var id := nextJetty;
      nextJetty := (nextJetty + 1) % U32;
      var _ := fabric[handle].CreateJetty(id, remoteNode, token);
      assert Abs().nodes == old(Abs()).nodes[handle := AddJetty(old(Abs()).nodes[handle], id, remoteNode, token)];
      return Named(id);
    }

    method IoctlSubmitWr(handle: int, wr: Transfer) returns (r: Reply)
      requires Valid() && Sound(Abs()) && TransferOk(wr)
      modifies Footprint()
      ensures Valid() && (Abs(), r) == Step(old(Abs()), Submit(handle, wr))
    {
      hide Process;
      if handle < 0 || handle >= MAX_NODES || !isOpen[handle] {
        return Failed(-1);
      }
      if wr.jetty >= MAX_JETTIES {
        return OutsideMemory;
      }
      ghost var before := Abs();
      var jetty := fabric[handle].jetties[wr.jetty];
      var desc := Request(wr.opcode, wr.flags, jetty.remoteNode, jetty.token, wr.segId, wr.offset, wr.length, wr.data);
      assert desc == Describe(before.nodes[handle].jetties, wr);
      var res := ProcessWr(fabric, handle, desc);
      match res
      case Ok(out) => return Moved(out);
      case Err(code) => return Failed(code);
      case Undefined => return OutsideMemory;
    }
  }
}
