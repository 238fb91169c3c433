// The 64 MB aperture of every node, as its users see it: each registered segment is a byte array of its
// own, zero when registered. The flat layout of the driver refines this for segments of at most 1 MB and
// requests whose end does not wrap around 64 bits.
module Aperture {
  import opened Bytes
  import opened Silicon
  import opened Driver

  /** The aperture has room for this many strides. */
  const ROOM: nat := 64

  datatype Private = Private(token: nat, bytes: seq<byte>)

  datatype View = View(open: seq<bool>, segs: seq<map<nat, Private>>, jetties: seq<seq<Jetty>>,
                       nextSeg: nat, nextJetty: nat)

  ghost predicate ViewOk(v: View)
  {
    && |v.open| == |v.segs| == |v.jetties| == MAX_NODES
    && (forall n :: 0 <= n < MAX_NODES ==> |v.jetties[n]| == MAX_JETTIES && TokensOk(v.jetties[n]))
  }

  /** Why a request to a registered segment is refused; 0 if it is not. */
  function Refusal(p: Private, r: WorkRequest): int
  {
    if r.offset + r.length > |p.bytes| then -4
    else if r.token != 0 && p.token != 0 && r.token != p.token then -5
    else if r.segId > ROOM + 1 || (r.segId == ROOM + 1 && r.offset + r.length > 0) then -6
    else 0
  }

  /** One request on the private arrays of the destination. */
  function Access(segs: map<nat, Private>, r: WorkRequest): (res: (map<nat, Private>, Result))
  {
    if r.segId !in segs then (segs, Err(-3))
    else
      var p := segs[r.segId];
      if Refusal(p, r) != 0 then (segs, Err(Refusal(p, r)))
      else if IsStore(r.opcode) then
        (segs[r.segId := p.(bytes := Assign(p.bytes, r.offset, r.offset + r.length, StoredBytes(r)))], Ok([]))
      else if r.opcode == OP_READ then (segs, Ok(p.bytes[r.offset..r.offset + r.length]))
      else (segs, Ok([]))
  }

  function SubmitView(v: View, w: Transfer, handle: nat): (r: (View, Reply))
    requires ViewOk(v) && handle < MAX_NODES && TransferOk(w) && w.jetty < MAX_JETTIES
    ensures ViewOk(r.0)
  {
    var req := Describe(v.jetties[handle], w);
    if req.dstNode >= MAX_NODES then (v, Failed(-1))
    else if !v.open[req.dstNode] then (v, Failed(-2))
    else
      var (segs, res) := Access(v.segs[req.dstNode], req);
      (v.(segs := v.segs[req.dstNode := segs]), ReplyOf(res))
  }

  function Serve(v: View, c: SysCall): (r: (View, Reply))
    requires ViewOk(v)
    ensures ViewOk(r.0)
  {
    match c
    case Open(n) =>
      if n >= MAX_NODES then (v, Failed(-1)) else (v.(open := v.open[n := true]), Opened(n))
    case Close(h) =>
      if !Opens(v, h) then (v, Failed(-1))
      else (v.(open := v.open[h := false], segs := v.segs[h := map[]], jetties := v.jetties[h := NoJetties()]), Closed)
    case RegSeg(h, size, token) =>
      if !Opens(v, h) then (v, Failed(-1))
      else
        var added: map<nat, Private> :=
          if v.nextSeg < MAX_SEGMENTS then v.segs[h][v.nextSeg := Private(token, Zeros(size))] else v.segs[h];
        (v.(segs := v.segs[h := added], nextSeg := v.nextSeg + 1), Named(v.nextSeg))
    case CreateJetty(h, remoteNode, token) =>
      if !Opens(v, h) then (v, Failed(-1))
      else
        var added := if v.nextJetty >= MAX_JETTIES then v.jetties[h]
                     else v.jetties[h][v.nextJetty := Jetty(remoteNode, token, true)];
        (v.(jetties := v.jetties[h := added], nextJetty := (v.nextJetty + 1) % U32), Named(v.nextJetty))
    case Submit(h, wr) =>
      if !Opens(v, h) then (v, Failed(-1))
      else if wr.jetty >= MAX_JETTIES then (v, OutsideMemory)
      else SubmitView(v, wr, h)
  }

  predicate Opens(v: View, handle: int)
    requires |v.open| == MAX_NODES
  {
    0 <= handle < MAX_NODES && v.open[handle]
  }

  function FreshView(): (v: View)
    ensures ViewOk(v)
  {
    View(seq(MAX_NODES, _ => false), seq(MAX_NODES, _ => map[]), seq(MAX_NODES, _ => NoJetties()), 1, 1)
  }

  function RunView(calls: seq<SysCall>): (v: View)
    ensures ViewOk(v)
    decreases |calls|
  {
    if calls == [] then FreshView() else Serve(RunView(calls[..|calls| - 1]), calls[|calls| - 1]).0
  }

  function ViewReplyAt(calls: seq<SysCall>, i: nat): Reply
    requires i < |calls|
  {
    Serve(RunView(calls[..i]), calls[i]).1
  }

  // ---------- the relation between a node and its private arrays ----------

  ghost predicate Mirrors(n: Node, id: nat, p: Private)
    requires NodeOk(n) && id < MAX_SEGMENTS
  {
    && 1 <= id && |p.bytes| <= STRIDE
    && n.segs[id] == Segment(p.token, (id - 1) * STRIDE, |p.bytes|, true)
    && (id <= ROOM ==> n.mem[(id - 1) * STRIDE..(id - 1) * STRIDE + |p.bytes|] == p.bytes)
  }

  ghost predicate Registered(n: Node, segs: map<nat, Private>, next: nat)
    requires NodeOk(n)
  {
    && (forall id: nat :: id < MAX_SEGMENTS && n.segs[id].valid ==> id in segs)
    && (forall id: nat :: id in segs ==> id < next && id < MAX_SEGMENTS && Mirrors(n, id, segs[id]))
  }

  /** Nothing has been stored at or above the base of the next segment. */
  ghost predicate ZeroAbove(mem: seq<byte>, next: nat)
  {
    next >= 1 && forall a :: (next - 1) * STRIDE <= a < |mem| ==> mem[a] == 0
  }

  ghost predicate NodeMatches(n: Node, segs: map<nat, Private>, next: nat)
    requires NodeOk(n)
  {
    Registered(n, segs, next) && ZeroAbove(n.mem, next)
  }

  ghost predicate Matches(d: Dev, v: View)
    requires Sound(d) && ViewOk(v)
  {
    && d.open == v.open && d.nextSeg == v.nextSeg && d.nextJetty == v.nextJetty
    && (forall n :: 0 <= n < MAX_NODES ==> MatchesAt(d, v, n))
  }

  ghost predicate MatchesAt(d: Dev, v: View, n: nat)
    requires Sound(d) && ViewOk(v) && n < MAX_NODES
  {
    && d.nodes[n].linkUp == v.open[n] && d.nodes[n].jetties == v.jetties[n]
    && NodeMatches(d.nodes[n], v.segs[n], v.nextSeg)
  }

  lemma MatchesLater(n: Node, segs: map<nat, Private>, next: nat)
    requires NodeOk(n) && NodeMatches(n, segs, next)
    ensures NodeMatches(n, segs, next + 1)
  {
    hide Mirrors;
  }

  lemma NewSegmentMatches(n: Node, segs: map<nat, Private>, next: nat, size: nat, token: nat)
    requires NodeOk(n) && NodeMatches(n, segs, next) && size <= STRIDE && next < MAX_SEGMENTS
    ensures NodeMatches(AddSegment(n, next, BaseOf(next), size, token),
                        segs[next := Private(token, Zeros(size))], next + 1)
  {
    BaseOfSmall(next);
    var after := AddSegment(n, next, BaseOf(next), size, token);
    if next <= ROOM {
      assert after.mem[(next - 1) * STRIDE..(next - 1) * STRIDE + size] == Zeros(size);
    }
    assert Mirrors(after, next, Private(token, Zeros(size)));
    forall id: nat | id in segs
      ensures Mirrors(after, id, segs[id])
    {
      assert Mirrors(n, id, segs[id]);
    }
  }

  // ---------- one request ----------

  lemma LocateMatches(n: Node, segs: map<nat, Private>, next: nat, r: WorkRequest)
    requires NodeOk(n) && NodeMatches(n, segs, next) && r.offset + r.length < U64
    ensures Locate(n, r) ==
      if r.segId !in segs then Fault(-3)
      else if Refusal(segs[r.segId], r) != 0 then Fault(Refusal(segs[r.segId], r))
      else At((r.segId - 1) * STRIDE + r.offset)
  {
    hide ZeroAbove, Locate, Refusal, Mirrors;
    if r.segId in segs {
      SlotOf(n, segs, next, r.segId);
      LocateSlot(n, segs[r.segId], r);
    } else {
      NoSlot(n, r);
    }
  }

  lemma NoSlot(n: Node, r: WorkRequest)
    requires NodeOk(n) && (r.segId < MAX_SEGMENTS ==> !n.segs[r.segId].valid)
    ensures Locate(n, r) == Fault(-3)
  {
  }

  lemma LocateSlot(n: Node, p: Private, r: WorkRequest)
    requires NodeOk(n) && 1 <= r.segId < MAX_SEGMENTS && |p.bytes| <= STRIDE
    requires n.segs[r.segId] == Segment(p.token, (r.segId - 1) * STRIDE, |p.bytes|, true)
    requires r.offset + r.length < U64
    ensures Locate(n, r) ==
      if Refusal(p, r) != 0 then Fault(Refusal(p, r)) else At((r.segId - 1) * STRIDE + r.offset)
  {
    var base := (r.segId - 1) * STRIDE;
    var end := r.offset + r.length;
    WrapCases(end);
    if end <= |p.bytes| {
      AddressesFit(base, r.offset, r.length);
      RoomFor(r.segId, end);
    }
  }

  lemma AddressesFit(base: nat, offset: nat, length: nat)
    requires base < U32 && offset + length <= STRIDE
    ensures (base + offset) % U64 == base + offset
    ensures (base + offset + length) % U64 == base + offset + length
  {
  }

  lemma RoomFor(id: nat, end: nat)
    requires 1 <= id && end <= STRIDE
    ensures (id - 1) * STRIDE + end > NODE_MEM_SIZE <==> id > ROOM + 1 || (id == ROOM + 1 && end > 0)
  {
  }

  /** A store inside one stride changes that segment's array as it would a private one, and no other. */
  lemma StoreMatches(n: Node, segs: map<nat, Private>, next: nat, id: nat, offset: nat, data: seq<byte>)
    requires NodeOk(n) && NodeMatches(n, segs, next)
    requires id in segs && id <= ROOM && offset + |data| <= |segs[id].bytes|
    ensures (id - 1) * STRIDE + offset + |data| <= NODE_MEM_SIZE
    ensures var at := (id - 1) * STRIDE + offset;
      var p := segs[id];
      NodeMatches(n.(mem := Assign(n.mem, at, at + |data|, data)),
                  segs[id := p.(bytes := Assign(p.bytes, offset, offset + |data|, data))], next)
  {
    hide ZeroAbove, Assign, Mirrors;
    SlotOf(n, segs, next, id);
    var at := (id - 1) * STRIDE + offset;
    var p := segs[id];
    var p' := p.(bytes := Assign(p.bytes, offset, offset + |data|, data));
    OwnSlot(n, id, p, offset, data);
    var after := n.(mem := Assign(n.mem, at, at + |data|, data));
    ZeroAboveKept(n.mem, at, data, next, id);
    forall k: nat | k in segs && k != id
      ensures k < next && k < MAX_SEGMENTS && Mirrors(after, k, segs[k])
    {
      SlotOf(n, segs, next, k);
      OtherSlot(n, k, segs[k], id, at, data);
    }
    assert Registered(after, segs[id := p'], next);
  }

  lemma ZeroAboveKept(mem: seq<byte>, at: nat, data: seq<byte>, next: nat, id: nat)
    requires ZeroAbove(mem, next) && at + |data| <= |mem| && 1 <= id < next && at + |data| <= id * STRIDE
    ensures ZeroAbove(Assign(mem, at, at + |data|, data), next)
  {
    OverwriteAt(mem, at, data);
  }

  lemma OwnSlot(n: Node, id: nat, p: Private, offset: nat, data: seq<byte>)
    requires NodeOk(n) && 1 <= id <= ROOM && Mirrors(n, id, p) && offset + |data| <= |p.bytes|
    ensures var at := (id - 1) * STRIDE + offset;
      && at + |data| <= NODE_MEM_SIZE && |Assign(n.mem, at, at + |data|, data)| == NODE_MEM_SIZE
      && Mirrors(n.(mem := Assign(n.mem, at, at + |data|, data)), id,
                 p.(bytes := Assign(p.bytes, offset, offset + |data|, data)))
  {
    OwnArray(n.mem, (id - 1) * STRIDE, p.bytes, offset, data);
    OverwriteAt(p.bytes, offset, data);
    OverwriteAt(n.mem, (id - 1) * STRIDE + offset, data);
  }

  lemma OtherSlot(n: Node, k: nat, p: Private, id: nat, at: nat, data: seq<byte>)
    requires NodeOk(n) && k < MAX_SEGMENTS && Mirrors(n, k, p)
    requires 1 <= id <= ROOM && id != k
    requires (id - 1) * STRIDE <= at && at + |data| <= id * STRIDE
    ensures |Assign(n.mem, at, at + |data|, data)| == NODE_MEM_SIZE
    ensures Mirrors(n.(mem := Assign(n.mem, at, at + |data|, data)), k, p)
  {
    if k <= ROOM { OtherArray(n.mem, (k - 1) * STRIDE, |p.bytes|, at, data); }
  }

  lemma OwnArray(mem: seq<byte>, base: nat, bytes: seq<byte>, offset: nat, data: seq<byte>)
    requires base + |bytes| <= |mem| && mem[base..base + |bytes|] == bytes && offset + |data| <= |bytes|
    ensures Assign(mem, base + offset, base + offset + |data|, data)[base..base + |bytes|]
      == Assign(bytes, offset, offset + |data|, data)
  {
    OverwriteAt(mem, base + offset, data);
    OverwriteAt(bytes, offset, data);
    forall k | 0 <= k < |bytes|
      ensures mem[base + k] == bytes[k]
    {
      assert mem[base..base + |bytes|][k] == bytes[k];
    }
  }

  lemma OtherArray(mem: seq<byte>, base: nat, size: nat, at: nat, data: seq<byte>)
    requires base + size <= |mem| && at + |data| <= |mem|
    requires base + size <= at || at + |data| <= base
    ensures Assign(mem, at, at + |data|, data)[base..base + size] == mem[base..base + size]
  {
    OverwriteAt(mem, at, data);
  }

  lemma AccessMatches(n: Node, segs: map<nat, Private>, next: nat, r: WorkRequest)
    requires NodeOk(n) && NodeMatches(n, segs, next) && r.offset + r.length < U64
    ensures Execute(n, r).1 == Access(segs, r).1
    ensures NodeMatches(Execute(n, r).0, Access(segs, r).0, next)
  {
    hide StoredBytes, NodeMatches, Locate, Mirrors, Refusal;
    LocateMatches(n, segs, next, r);
    if Locate(n, r).At? {
      SlotOf(n, segs, next, r.segId);
      Accepted(segs[r.segId], r);
      if r.segId == ROOM + 1 {
        NothingMoves(n, segs, r);
      } else if IsStore(r.opcode) {
        StoreMatches(n, segs, next, r.segId, r.offset, StoredBytes(r));
      } else if r.opcode == OP_READ {
        ReadSlot(n, segs[r.segId], r);
      }
    }
  }

  lemma Accepted(p: Private, r: WorkRequest)
    requires Refusal(p, r) == 0
    ensures r.offset + r.length <= |p.bytes| && r.segId <= ROOM + 1
    ensures r.segId == ROOM + 1 ==> r.offset == 0 && r.length == 0
  {
  }

  lemma ReadSlot(n: Node, p: Private, r: WorkRequest)
    requires NodeOk(n) && r.segId <= ROOM && Mirrors(n, r.segId, p) && r.offset + r.length <= |p.bytes|
    ensures var at := (r.segId - 1) * STRIDE + r.offset;
      at + r.length <= NODE_MEM_SIZE && n.mem[at..at + r.length] == p.bytes[r.offset..r.offset + r.length]
  {
    ReadMatches(n, p.bytes, (r.segId - 1) * STRIDE, r.offset, r.length);
  }

  lemma SlotOf(n: Node, segs: map<nat, Private>, next: nat, id: nat)
    requires NodeOk(n) && NodeMatches(n, segs, next) && id in segs
    ensures 1 <= id < MAX_SEGMENTS && id < next && |segs[id].bytes| <= STRIDE && Mirrors(n, id, segs[id])
    ensures n.segs[id] == Segment(segs[id].token, (id - 1) * STRIDE, |segs[id].bytes|, true)
  {
  }

  lemma NothingMoves(n: Node, segs: map<nat, Private>, r: WorkRequest)
    requires NodeOk(n) && r.segId in segs && Locate(n, r) == At(NODE_MEM_SIZE)
    requires r.segId == ROOM + 1 && r.offset == 0 && r.length == 0 && Refusal(segs[r.segId], r) == 0
    ensures Execute(n, r) == (n, Ok([])) && Access(segs, r) == (segs, Ok([]))
  {
    hide Locate;
    assert StoredBytes(r) == [];
    assert Assign(n.mem, NODE_MEM_SIZE, NODE_MEM_SIZE, []) == n.mem;
    var p := segs[r.segId];
    assert Assign(p.bytes, 0, 0, []) == p.bytes;
    assert segs[r.segId := p] == segs;
  }

  lemma ReadMatches(n: Node, bytes: seq<byte>, base: nat, offset: nat, length: nat)
    requires base + |bytes| <= |n.mem| && n.mem[base..base + |bytes|] == bytes && offset + length <= |bytes|
    ensures n.mem[base + offset..base + offset + length] == bytes[offset..offset + length]
  {
    assert n.mem[base..base + |bytes|][offset..offset + length] == n.mem[base + offset..base + offset + length];
  }

  // ---------- every call ----------

  /** Segments of at most one stride, jetties inside the table, requests whose end does not wrap. */
  predicate Modest(c: SysCall)
  {
    match c
    case RegSeg(_, size, _) => size <= STRIDE
    case Submit(_, wr) => wr.jetty < MAX_JETTIES && wr.offset + wr.length < U64
    case _ => true
  }

  lemma NodeOnly(n: Node, n': Node, segs: map<nat, Private>, next: nat)
    requires NodeOk(n) && NodeMatches(n, segs, next) && NodeOk(n')
    requires n'.segs == n.segs && n'.mem == n.mem
    ensures NodeMatches(n', segs, next)
  {
    forall id: nat | id in segs
      ensures Mirrors(n', id, segs[id])
    {
      assert Mirrors(n, id, segs[id]);
    }
  }

  lemma SubmitMatches(d: Dev, v: View, handle: nat, w: Transfer)
    requires Sound(d) && ViewOk(v) && Matches(d, v)
    requires TransferOk(w) && Modest(Submit(handle, w)) && IsOpen(d, handle)
    ensures var c: SysCall := Submit(handle, w);
      Step(d, c).1 == Serve(v, c).1 && Sound(Step(d, c).0) && Matches(Step(d, c).0, Serve(v, c).0)
  {
    var c: SysCall := Submit(handle, w);
    StepKeepsTokens(d, c);
    assert MatchesAt(d, v, handle);
    var req: WorkRequest := Describe(v.jetties[handle], w);
    ProcessStep(d, v, handle, req);
    hide Execute, Access, NodeMatches, Account, Process;
    if req.dstNode < MAX_NODES && v.open[req.dstNode] {
      assert MatchesAt(d, v, req.dstNode);
      var next, view := Step(d, c).0, Serve(v, c).0;
      forall n | 0 <= n < MAX_NODES
        ensures MatchesAt(next, view, n)
      {
        assert MatchesAt(d, v, n);
      }
    }
  }

  lemma ProcessStep(d: Dev, v: View, src: nat, req: WorkRequest)
    requires Sound(d) && ViewOk(v) && Matches(d, v) && src < MAX_NODES && req.offset + req.length < U64
    ensures var (nodes, res) := Process(d.nodes, src, req);
      if req.dstNode >= MAX_NODES then res == Err(-1) && nodes == d.nodes
      else if !v.open[req.dstNode] then res == Err(-2) && nodes == d.nodes
      else
        && res == Access(v.segs[req.dstNode], req).1
        && forall n :: 0 <= n < MAX_NODES ==>
          && nodes[n].linkUp == d.nodes[n].linkUp && nodes[n].jetties == d.nodes[n].jetties
          && NodeMatches(nodes[n], if n == req.dstNode then Access(v.segs[n], req).0 else v.segs[n], v.nextSeg)
  {
    hide Execute, Access, NodeMatches, Account;
    if req.dstNode < MAX_NODES {
      assert MatchesAt(d, v, req.dstNode);
      AccessMatches(d.nodes[req.dstNode], v.segs[req.dstNode], v.nextSeg, req);
      ExecuteKeeps(d.nodes[req.dstNode], req);
      RefusedKeeps(v.segs[req.dstNode], req);
      var (node, out) := Execute(d.nodes[req.dstNode], req);
      var moved := d.nodes[req.dstNode := node];
      AccountKeeps(moved, src, req.dstNode, req.length);
      var nodes := Process(d.nodes, src, req).0;
      forall n | 0 <= n < MAX_NODES && v.open[req.dstNode]
        ensures NodeMatches(nodes[n], if n == req.dstNode then Access(v.segs[n], req).0 else v.segs[n], v.nextSeg)
      {
        assert MatchesAt(d, v, n);
        NodeOnly(if out.Ok? then moved[n] else d.nodes[n], nodes[n],
                 if n == req.dstNode then Access(v.segs[n], req).0 else v.segs[n], v.nextSeg);
      }
    }
  }

  lemma RefusedKeeps(segs: map<nat, Private>, r: WorkRequest)
    ensures !Access(segs, r).1.Ok? ==> Access(segs, r).0 == segs
  {
    hide StoredBytes;
  }

  lemma OpenMatches(d: Dev, v: View, c: SysCall)
    requires Sound(d) && ViewOk(v) && Matches(d, v) && (c.Open? || c.Close?)
    ensures Step(d, c).1 == Serve(v, c).1 && Sound(Step(d, c).0) && Matches(Step(d, c).0, Serve(v, c).0)
  {
    StepKeepsTokens(d, c);
    hide NodeMatches;
    var next, view := Step(d, c).0, Serve(v, c).0;
    forall n | 0 <= n < MAX_NODES
      ensures MatchesAt(next, view, n)
    {
      assert MatchesAt(d, v, n);
      if c.Open? {
        NodeOnly(d.nodes[n], next.nodes[n], v.segs[n], v.nextSeg);
      } else {
        DownMatches(d.nodes[n], v.segs[n], v.nextSeg);
      }
    }
    if c.Open? && c.node < MAX_NODES && d.open[c.node] { assert v.open[c.node := true] == v.open; }
  }

  lemma DownMatches(n: Node, segs: map<nat, Private>, next: nat)
    requires NodeOk(n) && NodeMatches(n, segs, next)
    ensures NodeMatches(LinkDown(n), map[], next)
  {
  }

  lemma RegisterMatches(d: Dev, v: View, c: SysCall)
    requires Sound(d) && ViewOk(v) && Matches(d, v)
    requires c.RegSeg? && c.size <= STRIDE && v.nextSeg + 1 < U32
    ensures Step(d, c).1 == Serve(v, c).1 && Sound(Step(d, c).0) && Matches(Step(d, c).0, Serve(v, c).0)
  {
    StepKeepsTokens(d, c);
    hide NodeMatches, BaseOf;
    var next, view := Step(d, c).0, Serve(v, c).0;
    if IsOpen(d, c.handle) {
      forall n | 0 <= n < MAX_NODES
        ensures MatchesAt(next, view, n)
      {
        assert MatchesAt(d, v, n);
        MatchesLater(d.nodes[n], v.segs[n], v.nextSeg);
        if n == c.handle && v.nextSeg < MAX_SEGMENTS {
          NewSegmentMatches(d.nodes[n], v.segs[n], v.nextSeg, c.size, c.token);
        }
      }
    }
  }

  lemma JettyMatches(d: Dev, v: View, c: SysCall)
    requires Sound(d) && ViewOk(v) && Matches(d, v) && c.CreateJetty?
    ensures Step(d, c).1 == Serve(v, c).1 && Sound(Step(d, c).0) && Matches(Step(d, c).0, Serve(v, c).0)
  {
    StepKeepsTokens(d, c);
    hide NodeMatches;
    var next, view := Step(d, c).0, Serve(v, c).0;
    forall n | 0 <= n < MAX_NODES
      ensures MatchesAt(next, view, n)
    {
      assert MatchesAt(d, v, n);
      NodeOnly(d.nodes[n], next.nodes[n], v.segs[n], v.nextSeg);
    }
  }

  lemma StepMatches(d: Dev, v: View, c: SysCall)
    requires Sound(d) && ViewOk(v) && Matches(d, v) && Modest(c)
    requires c.RegSeg? ==> v.nextSeg + 1 < U32
    ensures Step(d, c).1 == Serve(v, c).1 && Sound(Step(d, c).0) && Matches(Step(d, c).0, Serve(v, c).0)
  {
    hide Matches;
    match c
    case Open(_) => OpenMatches(d, v, c);
    case Close(_) => OpenMatches(d, v, c);
    case RegSeg(_, _, _) => RegisterMatches(d, v, c);
    case CreateJetty(_, _, _) => JettyMatches(d, v, c);
    case Submit(h, wr) =>
      SameHandles(d, v);
      if IsOpen(d, h) { SubmitMatches(d, v, h, wr); }
  }

  lemma SameHandles(d: Dev, v: View)
    requires Sound(d) && ViewOk(v) && Matches(d, v)
    ensures d.open == v.open
  {
  }

  lemma FreshMatches()
    ensures Matches(Fresh(), FreshView())
  {
    forall n | 0 <= n < MAX_NODES
      ensures MatchesAt(Fresh(), FreshView(), n)
    {
      assert NodeMatches(BlankNode(), map[], 1);
    }
  }

  predicate AllModest(calls: seq<SysCall>)
  {
    forall i :: 0 <= i < |calls| ==> Modest(calls[i])
  }

  lemma NextIdBound(v: View, c: SysCall)
    requires ViewOk(v)
    ensures Serve(v, c).0.nextSeg <= v.nextSeg + if c.RegSeg? then 1 else 0
  {
    hide Access;
  }

  /** How many segment registrations a run asks for. */
  function Asked(calls: seq<SysCall>): nat
  {
    if calls == [] then 0 else Asked(calls[..|calls| - 1]) + if calls[|calls| - 1].RegSeg? then 1 else 0
  }

  lemma {:induction false} StatesMatch(calls: seq<SysCall>)
    requires AllModest(calls) && Asked(calls) + 1 < U32
    ensures Matches(Run(calls), RunView(calls)) && RunView(calls).nextSeg <= Asked(calls) + 1
    decreases |calls|
  {
    hide Matches, Step, Serve;
    if calls == [] {
      FreshMatches();
    } else {
      var last := |calls| - 1;
      StatesMatch(calls[..last]);
      NextIdBound(RunView(calls[..last]), calls[last]);
      StepMatches(Run(calls[..last]), RunView(calls[..last]), calls[last]);
    }
  }

  lemma {:induction false} AskedMonotone(calls: seq<SysCall>, i: nat)
    requires i <= |calls|
    ensures Asked(calls[..i]) <= Asked(calls)
    decreases |calls|
  {
    if i < |calls| {
      var last := |calls| - 1;
      AskedMonotone(calls[..last], i);
      assert calls[..last][..i] == calls[..i];
    } else {
      assert calls[..i] == calls;
    }
  }

  /** Refinement. In every run of fewer than 2^32 - 1 registrations, with segments of at most 1 MB and
      requests that do not wrap, every call returns what it returns on private, initially zero byte
      arrays per (node, segment): the same codes, the same ids, the same bytes. */
  lemma RunsSeePrivateArrays(calls: seq<SysCall>, i: nat)
    requires AllModest(calls) && Asked(calls) + 1 < U32 && i < |calls|
    ensures ReplyAt(calls, i) == ViewReplyAt(calls, i)
    ensures ReplyAt(calls, i) != OutsideMemory
  {
    hide Matches, Step, Serve, Asked;
    var before := calls[..i];
    AskedMonotone(calls, i);
    AskedMonotone(calls, i + 1);
    assert calls[..i + 1][..i] == before;
    AskedLast(calls[..i + 1]);
    StatesMatch(before);
    StepMatches(Run(before), RunView(before), calls[i]);
    ViewIsDefined(RunView(before), calls[i]);
  }

  lemma AskedLast(calls: seq<SysCall>)
    requires calls != []
    ensures calls[|calls| - 1].RegSeg? ==> Asked(calls) == Asked(calls[..|calls| - 1]) + 1
  {
  }

  lemma ViewIsDefined(v: View, c: SysCall)
    requires ViewOk(v) && Modest(c)
    ensures Serve(v, c).1 != OutsideMemory
  {
  }

  /** A segment reads as zero until something is stored through it. */
  lemma FreshSegmentReadsZero(calls: seq<SysCall>, h: nat, size: nat, token: nat, h': nat, wr: Transfer)
    requires size <= STRIDE && token < U32 && TransferOk(wr) && Modest(Submit(h', wr))
    requires AllModest(calls) && Asked(calls) + 2 < U32
    requires var reg: SysCall := RegSeg(h, size, token);
      && ReplyAt(calls + [reg], |calls|) == Named(wr.segId) && wr.opcode == OP_READ
      && h' < MAX_NODES && Run(calls).nodes[h'].jetties[wr.jetty].remoteNode == h
    ensures var reg: SysCall := RegSeg(h, size, token);
      var reply := Step(Run(calls + [reg]), Submit(h', wr)).1;
      reply.Moved? ==> reply.out == Zeros(wr.length)
  {
    hide Matches, Run, RunView, Step, Serve, Asked;
    var reg: SysCall := RegSeg(h, size, token);
    var c: SysCall := Submit(h', wr);
    assert (calls + [reg])[..|calls|] == calls;
    RunLast(calls, reg);
    StatesMatch(calls);
    var d, v := Run(calls), RunView(calls);
    JettiesMatch(d, v, h');
    StepMatches(d, v, reg);
    OpenHandle(v, reg);
    JettiesMatch(d, v, h);
    StepMatches(Step(d, reg).0, Serve(v, reg).0, c);
    ServeFresh(v, reg, c);
  }

  lemma ServeFresh(v: View, reg: SysCall, c: SysCall)
    requires ViewOk(v) && reg.RegSeg? && c.Submit? && c.wr.opcode == OP_READ
    requires Serve(v, reg).1 == Named(c.wr.segId)
    requires 0 <= c.handle < MAX_NODES && c.wr.jetty < MAX_JETTIES
    requires v.jetties[c.handle][c.wr.jetty].remoteNode == reg.handle
    requires c.wr.segId in v.segs[reg.handle] ==> c.wr.segId < v.nextSeg
    ensures var reply := Serve(Serve(v, reg).0, c).1;
      reply.Moved? ==> reply.out == Zeros(c.wr.length)
  {
    hide Refusal;
    var p := Private(reg.token, Zeros(reg.size));
    var req: WorkRequest := Describe(v.jetties[c.handle], c.wr);
    if Refusal(p, req) == 0 {
      Accepted(p, req);
      assert p.bytes[req.offset..req.offset + req.length] == Zeros(req.length);
    }
  }

  lemma OpenHandle(v: View, c: SysCall)
    requires ViewOk(v) && c.RegSeg? && Serve(v, c).1.Named?
    ensures 0 <= c.handle < MAX_NODES
  {
  }

  lemma RunLast(calls: seq<SysCall>, c: SysCall)
    ensures Run(calls + [c]) == Step(Run(calls), c).0 && ReplyAt(calls + [c], |calls|) == Step(Run(calls), c).1
  {
    hide Step;
    assert (calls + [c])[..|calls|] == calls;
  }

  lemma JettiesMatch(d: Dev, v: View, n: nat)
    requires Sound(d) && ViewOk(v) && Matches(d, v) && n < MAX_NODES
    ensures d.nodes[n].jetties == v.jetties[n] && forall id: nat :: id in v.segs[n] ==> id < v.nextSeg
  {
    hide Mirrors;
    assert MatchesAt(d, v, n);
  }

  // ---------- why a segment must not exceed its stride ----------

  /** What is stored through the part of segment i that reaches into segment j is read back through j. */
  lemma LongSegmentsAlias(n: Node, i: nat, j: nat, dst: nat, offset: nat, data: seq<byte>)
    requires NodeOk(n) && 1 <= i < j <= ROOM && offset + |data| <= STRIDE
    requires n.segs[i].valid && n.segs[i].base == BaseOf(i) && n.segs[i].size >= (j - i) * STRIDE + offset + |data|
    requires n.segs[j].valid && n.segs[j].base == BaseOf(j) && n.segs[j].size >= offset + |data|
    ensures var w: WorkRequest := Request(OP_WRITE, 0, dst, 0, i, (j - i) * STRIDE + offset, |data|, data);
      var r: WorkRequest := Request(OP_READ, 0, dst, 0, j, offset, |data|, Zeros(|data|));
      Execute(n, w).1 == Ok([]) && Execute(Execute(n, w).0, r).1 == Ok(data)
  {
    hide BaseOf, Locate, Assign, Execute, IsCipFlagged;
    BaseOfSmall(i);
    BaseOfSmall(j);
    var at := (j - 1) * STRIDE + offset;
    var w: WorkRequest := Request(OP_WRITE, 0, dst, 0, i, (j - i) * STRIDE + offset, |data|, data);
    var r: WorkRequest := Request(OP_READ, 0, dst, 0, j, offset, |data|, Zeros(|data|));
    Stored(n.mem, at, data);
    LocateUnbarred(n, w);
    PlainStore(n, w, at);
    var after := n.(mem := Assign(n.mem, at, at + |data|, data));
    LocateUnbarred(after, r);
    PlainRead(after, r, at);
  }

  lemma PlainStore(n: Node, w: WorkRequest, at: nat)
    requires NodeOk(n) && Locate(n, w) == At(at) && at + w.length <= NODE_MEM_SIZE
    requires w.opcode == OP_WRITE && w.flags == 0
    ensures Execute(n, w) == (n.(mem := Assign(n.mem, at, at + w.length, w.data)), Ok([]))
  {
    hide Locate, Assign;
    assert StoredBytes(w) == w.data;
  }

  lemma PlainRead(n: Node, r: WorkRequest, at: nat)
    requires NodeOk(n) && Locate(n, r) == At(at) && at + r.length <= NODE_MEM_SIZE && r.opcode == OP_READ
    ensures Execute(n, r) == (n, Ok(n.mem[at..at + r.length]))
  {
    hide Locate, Assign, StoredBytes;
  }

  lemma Stored(mem: seq<byte>, at: nat, data: seq<byte>)
    requires at + |data| <= |mem|
    ensures var after := Assign(mem, at, at + |data|, data);
      |after| == |mem| && after[at..at + |data|] == data
  {
    OverwriteAt(mem, at, data);
  }

  lemma LocateUnbarred(n: Node, r: WorkRequest)
    requires NodeOk(n) && r.segId < MAX_SEGMENTS && r.token == 0 && n.segs[r.segId].valid
    requires r.offset + r.length <= n.segs[r.segId].size
    requires n.segs[r.segId].base + r.offset + r.length <= NODE_MEM_SIZE
    ensures Locate(n, r) == At(n.segs[r.segId].base + r.offset)
  {
  }
}
