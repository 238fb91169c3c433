// libobmm/obmm.c: a pool of one node borrowed by others. Each borrower's handle moves data through its own
// staging buffer, left with whatever its earlier operations put there.
module Obmm {
  import opened Bytes
  import opened Silicon
  import opened Driver
  import opened Aperture
  import opened Urma

  /** The local staging window of every imported pool. */
  const WINDOW: nat := 1024 * 1024

  /** The exported segment: its node, its id and its token. */
  datatype Pool = Pool(owner: nat, id: nat, token: nat)

  /** The fields of obmm_pool_handle that the operations read. */
  datatype Handle = Handle(fd: int, jetty: nat, poolId: nat, size: nat)

  /** The driver, and the handles in order of import with their staging buffers. */
  datatype World = World(d: Dev, handles: seq<Handle>, staging: seq<seq<byte>>)

  /** A handle is named by its place in the order of imports; beyond the last it is NULL. */
  datatype Op =
    | Import(fd: int, size: nat, token: nat, window: seq<byte>)
    | Put(h: nat, offset: nat, data: seq<byte>)
    | Get(h: nat, offset: nat, size: nat)
    | Other(call: SysCall)              // anything else the machine does meanwhile

  ghost predicate WorldOk(w: World)
  {
    && Sound(w.d) && |w.staging| == |w.handles|
    && (forall h :: 0 <= h < |w.handles| ==> HandleOk(w.handles[h]) && |w.staging[h]| == WINDOW)
  }

  predicate HandleOk(hd: Handle)
  {
    hd.jetty < U32 && hd.poolId < U32
  }

  /** The C types; the window is what malloc happens to return. */
  predicate OpOk(op: Op)
  {
    match op
    case Import(_, size, token, window) => size < U64 && token < U32 && |window| == 1024 * 1024
    case Put(_, offset, data) => offset < U64 && |data| < U64
    case Get(_, offset, size) => offset < U64 && size < U64
    case Other(_) => true
  }

  /** obmm_pool_write: copy into the staging buffer, unchecked, then urma_write from its start. */
  function PoolWrite(d: Dev, hd: Handle, staging: seq<byte>, offset: nat, data: seq<byte>): (r: (Dev, seq<byte>, Reply))
    requires Sound(d) && |staging| == WINDOW && HandleOk(hd) && offset < U64
    ensures Sound(r.0) && |r.1| == WINDOW
  {
    if (offset + |data|) % U64 > hd.size then (d, staging, Failed(-1))
    else if |data| > WINDOW then (d, staging, OutsideMemory)
    else
      var filled := Assign(staging, 0, |data|, data);
      var c: SysCall := Submit(hd.fd, WriteOf(hd.jetty, hd.poolId, offset, filled[..|data|]));
      StepKeepsTokens(d, c);
      var (next, reply) := Step(d, c);
      (next, filled, reply)
  }

  /** obmm_pool_read: urma_read to the start of the staging buffer, whose size it checks, then copy out. */
  function PoolRead(d: Dev, hd: Handle, staging: seq<byte>, offset: nat, size: nat): (r: (Dev, seq<byte>, Reply))
    requires Sound(d) && |staging| == WINDOW && HandleOk(hd) && offset < U64
    ensures Sound(r.0) && |r.1| == WINDOW
  {
    if (offset + size) % U64 > hd.size || size > WINDOW then (d, staging, Failed(-1))
    else
      var c: SysCall := Submit(hd.fd, ReadOf(hd.jetty, hd.poolId, offset, staging[..size]));
      StepKeepsTokens(d, c);
      var (next, reply) := Step(d, c);
      if reply.Moved? && |reply.out| == size then
        var filled := Assign(staging, 0, size, reply.out);
        (next, filled, Moved(filled[..size]))
      else (next, staging, reply)
  }

  function JettyCall(pool: Pool, fd: int, token: nat): SysCall
    requires token < U32
  {
    Call.CreateJetty(fd, pool.owner, token)
  }

  function WindowCall(fd: int, token: nat): SysCall
    requires token < U32
  {
    RegSeg(fd, WINDOW, token)
  }

  /** obmm_import_pool: a jetty to the owner and a registered staging window. */
  function ImportPool(w: World, pool: Pool, fd: int, size: nat, token: nat, window: seq<byte>): (r: (World, Reply))
    requires WorldOk(w) && token < U32 && |window| == WINDOW && pool.id < U32
    ensures WorldOk(r.0)
  {
    if size == 0 then (w, Failed(-1))
    else
      StepKeepsTokens(w.d, JettyCall(pool, fd, token));
      var (made, name) := Step(w.d, JettyCall(pool, fd, token));
      StepKeepsTokens(made, WindowCall(fd, token));
      if !name.Named? then (w.(d := made), Failed(-1))
      else
        (World(Step(made, WindowCall(fd, token)).0, w.handles + [Handle(fd, name.id, pool.id, size)],
               w.staging + [window]),
         Opened(|w.handles|))
  }

  function PoolStep(w: World, pool: Pool, op: Op): (r: (World, Reply))
    requires WorldOk(w) && OpOk(op) && pool.id < U32
    ensures WorldOk(r.0)
  {
    match op
    case Import(fd, size, token, window) => ImportPool(w, pool, fd, size, token, window)
    case Put(h, offset, data) =>
      if h >= |w.handles| then (w, Failed(-1))
      else
        var (d, staging, reply) := PoolWrite(w.d, w.handles[h], w.staging[h], offset, data);
        (w.(d := d, staging := w.staging[h := staging]), reply)
    case Get(h, offset, size) =>
      if h >= |w.handles| then (w, Failed(-1))
      else
        var (d, staging, reply) := PoolRead(w.d, w.handles[h], w.staging[h], offset, size);
        (w.(d := d, staging := w.staging[h := staging]), reply)
    case Other(c) =>
      StepKeepsTokens(w.d, c);
      (w.(d := Step(w.d, c).0), Step(w.d, c).1)
  }

  // ---------- the specification: one array ----------

  /** `jetty` is the number the import was given; from 512 on the driver has no room to note it. */
  datatype Member = Member(fd: int, size: nat, token: nat, jetty: nat)

  /** The pool's bytes, who has imported it, which devices are open, and the next jetty id. */
  datatype Shared = Shared(cells: seq<byte>, members: seq<Member>, open: seq<bool>, nextJetty: nat)

  predicate IsOn(sp: Shared, fd: int)
  {
    0 <= fd < |sp.open| && sp.open[fd]
  }

  /** Why the pool refuses an access that ends at `end`; 0 if it does not. */
  function Refuses(sp: Shared, pool: Pool, m: Member, end: nat): int
  {
    if pool.id >= MAX_SEGMENTS then -3
    else if end > |sp.cells| then -4
    else if m.token != 0 && pool.token != 0 && m.token != pool.token then -5
    else if pool.id > ROOM + 1 || (pool.id == ROOM + 1 && end > 0) then -6
    else 0
  }

  /** What an operation does to the array and returns; staging buffers do not occur. */
  function Share(sp: Shared, pool: Pool, op: Op): (r: (Shared, Reply))
    ensures |r.0.cells| == |sp.cells|
  {
    match op
    case Import(fd, size, token, _) =>
      if size == 0 || !IsOn(sp, fd) then (sp, Failed(-1))
      else
        (sp.(members := sp.members + [Member(fd, size, token, sp.nextJetty)], nextJetty := sp.nextJetty + 1),
         Opened(|sp.members|))
    case Put(h, offset, data) =>
      if h >= |sp.members| || offset + |data| > sp.members[h].size then (sp, Failed(-1))
      else if |data| > WINDOW || sp.members[h].jetty >= MAX_JETTIES then (sp, OutsideMemory)
      else if Refuses(sp, pool, sp.members[h], offset + |data|) != 0 then
        (sp, Failed(Refuses(sp, pool, sp.members[h], offset + |data|)))
      else (sp.(cells := Assign(sp.cells, offset, offset + |data|, data)), Moved([]))
    case Get(h, offset, size) =>
      if h >= |sp.members| || offset + size > sp.members[h].size || size > WINDOW then (sp, Failed(-1))
      else if sp.members[h].jetty >= MAX_JETTIES then (sp, OutsideMemory)
      else if Refuses(sp, pool, sp.members[h], offset + size) != 0 then
        (sp, Failed(Refuses(sp, pool, sp.members[h], offset + size)))
      else (sp, Moved(sp.cells[offset..offset + size]))
    case Other(c) => (Meanwhile(sp, c), Closed)
  }

  function Meanwhile(sp: Shared, c: SysCall): (r: Shared)
    ensures r.cells == sp.cells && r.members == sp.members
  {
    match c
    case Open(n) => if n < |sp.open| then sp.(open := sp.open[n := true]) else sp
    case Close(h) => if IsOn(sp, h) then sp.(open := sp.open[h := false]) else sp
    case CreateJetty(h, _, _) => if IsOn(sp, h) then sp.(nextJetty := sp.nextJetty + 1) else sp
    case _ => sp
  }

  /** Transfers whose end does not wrap; other calls with modest segments and requests, that neither close a
      device in use nor store into the pool directly. */
  predicate Gentle(sp: Shared, pool: Pool, op: Op)
  {
    match op
    case Import(_, _, _, _) => true
    case Put(_, offset, data) => offset + |data| < U64
    case Get(_, offset, size) => offset + size < U64
    case Other(c) =>
      && Modest(c)
      && (c.Close? ==> c.handle != pool.owner && forall h :: 0 <= h < |sp.members| ==> sp.members[h].fd != c.handle)
      && (c.Submit? ==> c.wr.segId != pool.id || !IsStore(c.wr.opcode))
  }

  // ---------- the view of the driver that corresponds to the array ----------

  ghost predicate Pooled(v: View, handles: seq<Handle>, pool: Pool, sp: Shared)
    requires ViewOk(v)
  {
    && pool.owner < MAX_NODES && v.open == sp.open && v.open[pool.owner] && v.nextJetty == sp.nextJetty
    && Holds(v.segs[pool.owner], pool, sp.cells) && pool.id < v.nextSeg && pool.id < U32
    && |handles| == |sp.members|
    && (forall h :: 0 <= h < |handles| ==> Reaches(v, handles[h], pool, sp.members[h]))
  }

  ghost predicate Holds(segs: map<nat, Private>, pool: Pool, cells: seq<byte>)
  {
    if pool.id < MAX_SEGMENTS then pool.id in segs && segs[pool.id] == Private(pool.token, cells) else pool.id !in segs
  }

  ghost predicate Reaches(v: View, hd: Handle, pool: Pool, m: Member)
    requires ViewOk(v)
  {
    && hd.fd == m.fd && hd.size == m.size && hd.poolId == pool.id
    && 0 <= hd.fd < MAX_NODES && v.open[hd.fd] && hd.jetty == m.jetty < v.nextJetty
    && (hd.jetty < MAX_JETTIES ==> v.jetties[hd.fd][hd.jetty] == Jetty(pool.owner, m.token, true))
  }

  lemma AccessPool(segs: map<nat, Private>, r: WorkRequest, pool: Pool, sp: Shared, m: Member)
    requires Holds(segs, pool, sp.cells) && r.segId == pool.id && r.token == m.token
    requires IsStore(r.opcode) || r.opcode == OP_READ
    ensures var (next, res) := Access(segs, r);
      var end := r.offset + r.length;
      if Refuses(sp, pool, m, end) != 0 then res == Err(Refuses(sp, pool, m, end)) && next == segs
      else if IsStore(r.opcode) then
        res == Ok([]) && Holds(next, pool, Assign(sp.cells, r.offset, end, StoredBytes(r)))
      else res == Ok(sp.cells[r.offset..end]) && next == segs
  {
    hide StoredBytes;
  }

  function AfterTransfer(sp: Shared, wr: Transfer, refused: bool): Shared
    requires !refused ==> wr.offset + |wr.data| <= |sp.cells|
  {
    if refused || wr.opcode != OP_WRITE then sp
    else sp.(cells := Assign(sp.cells, wr.offset, wr.offset + |wr.data|, wr.data))
  }

  /** A transfer through a handle, on the view. */
  lemma ServePool(v: View, handles: seq<Handle>, pool: Pool, sp: Shared, h: nat, wr: Transfer)
    requires ViewOk(v) && Pooled(v, handles, pool, sp) && h < |handles|
    requires TransferOk(wr) && wr.jetty == handles[h].jetty < MAX_JETTIES && wr.segId == pool.id && wr.flags == 0
    requires wr.opcode == OP_WRITE || wr.opcode == OP_READ
    ensures var (next, reply) := Serve(v, Submit(handles[h].fd, wr));
      var code := Refuses(sp, pool, sp.members[h], wr.offset + wr.length);
      && reply == (if code != 0 then Failed(code) else if wr.opcode == OP_WRITE then Moved([])
                   else Moved(sp.cells[wr.offset..wr.offset + wr.length]))
      && Pooled(next, handles, pool, AfterTransfer(sp, wr, code != 0)) && next.nextSeg == v.nextSeg
  {
    hide Access, Refuses, Holds;
    assert Reaches(v, handles[h], pool, sp.members[h]);
    var req: WorkRequest := Describe(v.jetties[handles[h].fd], wr);
    AccessPool(v.segs[pool.owner], req, pool, sp, sp.members[h]);
    FlagIsCip();
    assert StoredBytes(req) == wr.data;
    if Refuses(sp, pool, sp.members[h], wr.offset + wr.length) == 0 {
      AcceptedFits(sp, pool, sp.members[h], wr.offset + wr.length);
    }
    var next := Serve(v, Submit(handles[h].fd, wr)).0;
    forall k | 0 <= k < |handles|
      ensures Reaches(next, handles[k], pool, sp.members[k])
    {
      assert Reaches(v, handles[k], pool, sp.members[k]);
    }
  }

  lemma AcceptedFits(sp: Shared, pool: Pool, m: Member, end: nat)
    requires Refuses(sp, pool, m, end) == 0
    ensures end <= |sp.cells|
  {
  }

  lemma ServeOther(v: View, handles: seq<Handle>, pool: Pool, sp: Shared, c: SysCall)
    requires ViewOk(v) && Pooled(v, handles, pool, sp) && Gentle(sp, pool, Other(c))
    requires c.CreateJetty? ==> v.nextJetty + 1 < U32
    ensures var next := Serve(v, c).0;
      && Pooled(next, handles, pool, Meanwhile(sp, c)) && next.nextSeg <= v.nextSeg + 1
  {
    hide Access;
    var next := Serve(v, c).0;
    if c.Submit? && Opens(v, c.handle) && c.wr.jetty < MAX_JETTIES {
      AccessElsewhere(v.segs[pool.owner], Describe(v.jetties[c.handle], c.wr), pool, sp.cells);
    }
    forall k | 0 <= k < |handles|
      ensures Reaches(next, handles[k], pool, sp.members[k])
    {
      assert Reaches(v, handles[k], pool, sp.members[k]);
    }
  }

  lemma AccessElsewhere(segs: map<nat, Private>, r: WorkRequest, pool: Pool, cells: seq<byte>)
    requires Holds(segs, pool, cells) && (r.segId != pool.id || !IsStore(r.opcode))
    ensures Holds(Access(segs, r).0, pool, cells)
  {
    hide StoredBytes, Refusal;
  }

  /** Importing, on the view: two calls, and one more handle that reaches the pool. */
  lemma ServeImport(v: View, handles: seq<Handle>, pool: Pool, sp: Shared, fd: int, size: nat, token: nat)
    requires ViewOk(v) && Pooled(v, handles, pool, sp) && Opens(v, fd) && token < U32
    requires v.nextJetty + 1 < U32
    ensures var made := Serve(v, JettyCall(pool, fd, token));
      var v2 := Serve(made.0, WindowCall(fd, token)).0;
      && made.1 == Named(v.nextJetty) && v2.nextSeg == v.nextSeg + 1
      && Pooled(v2, handles + [Handle(fd, v.nextJetty, pool.id, size)], pool,
                sp.(members := sp.members + [Member(fd, size, token, sp.nextJetty)], nextJetty := sp.nextJetty + 1))
  {
    hide Holds;
    var v1 := Serve(v, JettyCall(pool, fd, token)).0;
    ServeOther(v, handles, pool, sp, JettyCall(pool, fd, token));
    var v2 := Serve(v1, WindowCall(fd, token)).0;
    ServeOther(v1, handles, pool, Meanwhile(sp, JettyCall(pool, fd, token)), WindowCall(fd, token));
    var all := handles + [Handle(fd, v.nextJetty, pool.id, size)];
    var members := sp.members + [Member(fd, size, token, sp.nextJetty)];
    forall k | 0 <= k < |all|
      ensures Reaches(v2, all[k], pool, members[k])
    {
      if k < |handles| { assert Reaches(v2, handles[k], pool, sp.members[k]); }
    }
  }

  // ---------- the machine and the array ----------

  /** The machine, its view and the array belong together, with `slack` ids left of either kind. */
  ghost predicate Together(w: World, v: View, pool: Pool, sp: Shared, slack: nat)
  {
    && WorldOk(w) && ViewOk(v) && Matches(w.d, v) && Pooled(v, w.handles, pool, sp) && pool.id < U32
    && v.nextSeg + slack < U32 && v.nextJetty + slack < U32
  }

  lemma StagingPrefix(staging: seq<byte>, data: seq<byte>)
    requires |data| <= |staging|
    ensures Assign(staging, 0, |data|, data)[..|data|] == data
  {
  }

  lemma SoundWorld(w: World)
    requires WorldOk(w)
    ensures Sound(w.d)
  {
  }

  lemma TransferTogether(w: World, v: View, pool: Pool, sp: Shared, slack: nat, h: nat, wr: Transfer)
    requires Together(w, v, pool, sp, slack) && h < |w.handles|
    requires TransferOk(wr) && wr.jetty == w.handles[h].jetty < MAX_JETTIES && wr.segId == pool.id && wr.flags == 0
    requires wr.offset + wr.length < U64 && (wr.opcode == OP_WRITE || wr.opcode == OP_READ)
    ensures var c: SysCall := Submit(w.handles[h].fd, wr);
      var (d, reply) := Step(w.d, c);
      var code := Refuses(sp, pool, sp.members[h], wr.offset + wr.length);
      && reply == (if code != 0 then Failed(code) else if wr.opcode == OP_WRITE then Moved([])
                   else Moved(sp.cells[wr.offset..wr.offset + wr.length]))
      && Sound(d) && Matches(d, Serve(v, c).0)
      && Pooled(Serve(v, c).0, w.handles, pool, AfterTransfer(sp, wr, code != 0)) && Serve(v, c).0.nextSeg == v.nextSeg
  {
    hide Step, Serve, Matches, WorldOk, Holds, Refuses;
    SoundWorld(w);
    ServePool(v, w.handles, pool, sp, h, wr);
    assert Reaches(v, w.handles[h], pool, sp.members[h]);
    StepMatches(w.d, v, Submit(w.handles[h].fd, wr));
  }

  lemma BeyondTable(d: Dev, fd: int, wr: Transfer)
    requires Sound(d) && IsOpen(d, fd) && TransferOk(wr) && wr.jetty >= MAX_JETTIES
    ensures Step(d, Submit(fd, wr)) == (d, OutsideMemory)
  {
  }

  lemma PutShares(w: World, v: View, pool: Pool, sp: Shared, slack: nat, h: nat, offset: nat, data: seq<byte>)
    returns (v': View)
    requires Together(w, v, pool, sp, slack) && offset + |data| < U64
    ensures var op := Put(h, offset, data);
      && PoolStep(w, pool, op).1 == Share(sp, pool, op).1
      && Together(PoolStep(w, pool, op).0, v', pool, Share(sp, pool, op).0, slack)
  {
    hide Step, Serve, Matches, Holds, Refuses;
    v' := v;
    if h < |w.handles| {
      var hd := w.handles[h];
      assert Reaches(v, hd, pool, sp.members[h]);
      WrapCases(offset + |data|);
      if offset + |data| <= hd.size && |data| <= WINDOW {
        StagingPrefix(w.staging[h], data);
        var wr := WriteOf(hd.jetty, hd.poolId, offset, data);
        if hd.jetty >= MAX_JETTIES {
          SameHandles(w.d, v);
          BeyondTable(w.d, hd.fd, wr);
          return;
        }
        TransferTogether(w, v, pool, sp, slack, h, wr);
        v' := Serve(v, Submit(hd.fd, wr)).0;
      }
    }
  }

  lemma GetShares(w: World, v: View, pool: Pool, sp: Shared, slack: nat, h: nat, offset: nat, size: nat)
    returns (v': View)
    requires Together(w, v, pool, sp, slack) && offset + size < U64
    ensures var op := Get(h, offset, size);
      && PoolStep(w, pool, op).1 == Share(sp, pool, op).1
      && Together(PoolStep(w, pool, op).0, v', pool, Share(sp, pool, op).0, slack)
  {
    hide Step, Serve, Matches, Holds, Refuses;
    v' := v;
    if h < |w.handles| {
      var hd := w.handles[h];
      assert Reaches(v, hd, pool, sp.members[h]);
      WrapCases(offset + size);
      if offset + size <= hd.size && size <= WINDOW {
        var rd := ReadOf(hd.jetty, hd.poolId, offset, w.staging[h][..size]);
        if hd.jetty >= MAX_JETTIES {
          SameHandles(w.d, v);
          BeyondTable(w.d, hd.fd, rd);
          return;
        }
        TransferTogether(w, v, pool, sp, slack, h, rd);
        v' := Serve(v, Submit(hd.fd, rd)).0;
        if Refuses(sp, pool, sp.members[h], offset + size) == 0 {
          AcceptedFits(sp, pool, sp.members[h], offset + size);
          StagingPrefix(w.staging[h], sp.cells[offset..offset + size]);
        }
      }
    }
  }

  lemma ImportShares(w: World, v: View, pool: Pool, sp: Shared, slack: nat, op: Op) returns (v': View)
    requires Together(w, v, pool, sp, slack) && slack > 0 && op.Import? && OpOk(op) && Gentle(sp, pool, op)
    ensures PoolStep(w, pool, op).1 == Share(sp, pool, op).1
    ensures Together(PoolStep(w, pool, op).0, v', pool, Share(sp, pool, op).0, slack - 1)
  {
    hide Matches, Holds, Process, SubmitView;
    v' := v;
    SameHandles(w.d, v);
    if op.size != 0 {
      var jet, reg := JettyCall(pool, op.fd, op.token), WindowCall(op.fd, op.token);
      StepMatches(w.d, v, jet);
      if Opens(v, op.fd) {
        var v1 := Serve(v, jet).0;
        StepMatches(Step(w.d, jet).0, v1, reg);
        ServeImport(v, w.handles, pool, sp, op.fd, op.size, op.token);
        v' := Serve(v1, reg).0;
      }
    }
  }

  lemma OtherShares(w: World, v: View, pool: Pool, sp: Shared, slack: nat, c: SysCall) returns (v': View)
    requires Together(w, v, pool, sp, slack) && slack > 0 && Gentle(sp, pool, Other(c))
    ensures Together(PoolStep(w, pool, Other(c)).0, v', pool, Meanwhile(sp, c), slack - 1)
  {
    hide Step, Serve, Matches, Gentle;
    ModestOther(sp, pool, c);
    ServeOther(v, w.handles, pool, sp, c);
    StepMatches(w.d, v, c);
    v' := Serve(v, c).0;
  }

  lemma ModestOther(sp: Shared, pool: Pool, c: SysCall)
    requires Gentle(sp, pool, Other(c))
    ensures Modest(c)
    ensures Meanwhile(sp, c).nextJetty <= sp.nextJetty + 1
  {
  }

  /** One operation returns what it returns on the shared array, and keeps machine and array together. */
  lemma StepShares(w: World, v: View, pool: Pool, sp: Shared, slack: nat, op: Op) returns (v': View)
    requires Together(w, v, pool, sp, slack) && slack > 0 && OpOk(op) && Gentle(sp, pool, op)
    ensures !op.Other? ==> PoolStep(w, pool, op).1 == Share(sp, pool, op).1
    ensures Together(PoolStep(w, pool, op).0, v', pool, Share(sp, pool, op).0, slack - 1)
  {
    hide Matches, WorldOk, Pooled, PoolWrite, PoolRead, ImportPool, Refuses;
    match op
    case Import(_, _, _, _) => v' := ImportShares(w, v, pool, sp, slack, op);
    case Put(h, offset, data) => v' := PutShares(w, v, pool, sp, slack, h, offset, data);
    case Get(h, offset, size) => v' := GetShares(w, v, pool, sp, slack, h, offset, size);
    case Other(c) => v' := OtherShares(w, v, pool, sp, slack, c);
  }

  // ---------- runs ----------

  predicate OpsOk(ops: seq<Op>)
  {
    forall i :: 0 <= i < |ops| ==> OpOk(ops[i])
  }

  function Results(w: World, pool: Pool, ops: seq<Op>): seq<Reply>
    requires WorldOk(w) && OpsOk(ops) && pool.id < U32
    decreases |ops|
  {
    if ops == [] then []
    else
      var (next, reply) := PoolStep(w, pool, ops[0]);
      (if ops[0].Other? then [] else [reply]) + Results(next, pool, ops[1..])
  }

  /** The imports and pool operations of a run, done one after the other on the array alone. */
  function SharedResults(sp: Shared, pool: Pool, ops: seq<Op>): seq<Reply>
    decreases |ops|
  {
    if ops == [] then []
    else
      var (next, reply) := Share(sp, pool, ops[0]);
      (if ops[0].Other? then [] else [reply]) + SharedResults(next, pool, ops[1..])
  }

  predicate GentleRun(sp: Shared, pool: Pool, ops: seq<Op>)
    decreases |ops|
  {
    ops != [] ==> Gentle(sp, pool, ops[0]) && GentleRun(Share(sp, pool, ops[0]).0, pool, ops[1..])
  }

  lemma {:induction false} HandlesShareOneArray(w: World, v: View, pool: Pool, sp: Shared, ops: seq<Op>)
    requires Together(w, v, pool, sp, |ops|) && OpsOk(ops) && GentleRun(sp, pool, ops)
    ensures Results(w, pool, ops) == SharedResults(sp, pool, ops)
    decreases |ops|
  {
    hide Matches, Pooled, PoolStep, Share, Gentle, OpOk;
    if ops != [] {
      var v' := StepShares(w, v, pool, sp, |ops|, ops[0]);
      HandlesShareOneArray(PoolStep(w, pool, ops[0]).0, v', pool, Share(sp, pool, ops[0]).0, ops[1..]);
    }
  }

  /** A freshly exported pool corresponds to an array of zeros that nobody has imported. */
  lemma ExportTogether(d: Dev, v: View, owner: nat, size: nat, token: nat, slack: nat)
    requires Sound(d) && ViewOk(v) && Matches(d, v) && owner < MAX_NODES && IsOpen(d, owner)
    requires size <= STRIDE && token < U32 && v.nextSeg + slack + 1 < U32 && v.nextJetty + slack < U32
    ensures var c: SysCall := RegSeg(owner, size, token);
      && Step(d, c).1 == Named(d.nextSeg)
      && Together(World(Step(d, c).0, [], []), Serve(v, c).0, Pool(owner, d.nextSeg, token),
                  Shared(Zeros(size), [], d.open, d.nextJetty), slack)
  {
    SameHandles(d, v);
    SameCounters(d, v);
    NoHighIds(d, v, owner);
    StepMatches(d, v, RegSeg(owner, size, token));
  }

  lemma SameCounters(d: Dev, v: View)
    requires Sound(d) && ViewOk(v) && Matches(d, v)
    ensures d.nextSeg == v.nextSeg && d.nextJetty == v.nextJetty
  {
  }

  lemma NoHighIds(d: Dev, v: View, n: nat)
    requires Sound(d) && ViewOk(v) && Matches(d, v) && n < MAX_NODES
    ensures forall id: nat :: id >= MAX_SEGMENTS ==> id !in v.segs[n]
  {
    hide Mirrors;
    assert MatchesAt(d, v, n);
  }

  /** All handles to one pool act as one shared byte array. From the start of the driver on, after any calls,
      let a node export a pool of at most 1 MB; then through however many imports, whatever malloc and earlier
      operations left in their staging buffers, and whatever else the driver is asked to do meanwhile, every
      import, pool write and pool read returns what it returns on one array that starts as zeros. */
  lemma PoolIsOneArray(setup: seq<SysCall>, owner: nat, size: nat, token: nat, ops: seq<Op>)
    requires AllModest(setup) && owner < MAX_NODES && IsOpen(Run(setup), owner)
    requires 0 < size <= STRIDE && token < U32 && OpsOk(ops)
    requires Asked(setup) + |ops| + 2 < U32 && Run(setup).nextJetty + |ops| < U32
    ensures var c: SysCall := RegSeg(owner, size, token);
      var (exported, name) := Step(Run(setup), c);
      && name == Named(Run(setup).nextSeg) && Sound(exported)
      && (var pool := Pool(owner, name.id, token);
          var sp := Shared(Zeros(size), [], Run(setup).open, Run(setup).nextJetty);
          GentleRun(sp, pool, ops) ==> Results(World(exported, [], []), pool, ops) == SharedResults(sp, pool, ops))
  {
    hide Matches, Pooled, Step, Serve, Run, RunView, Asked, GentleRun, Results, SharedResults;
    StatesMatch(setup);
    var d, v := Run(setup), RunView(setup);
    SameCounters(d, v);
    ExportTogether(d, v, owner, size, token, |ops|);
    var c: SysCall := RegSeg(owner, size, token);
    var pool, sp := Pool(owner, d.nextSeg, token), Shared(Zeros(size), [], d.open, d.nextJetty);
    if GentleRun(sp, pool, ops) {
      HandlesShareOneArray(World(Step(d, c).0, [], []), Serve(v, c).0, pool, sp, ops);
    }
  }

  // ---------- the handle object ----------

  class ObmmPool {
    const jetty: UrmaJetty
    const poolId: nat
    const size: nat
    const cache: UrmaSegment

    ghost predicate Valid()
    {
      cache.buffer.Length == WINDOW && jetty.id < U32 && poolId < U32
    }

    ghost function Fields(): Handle
    {
      Handle(jetty.fd, jetty.id, poolId, size)
    }

    constructor (jetty: UrmaJetty, poolId: nat, size: nat, cache: UrmaSegment)
      ensures this.jetty == jetty && this.poolId == poolId && this.size == size && this.cache == cache
    {
      this.jetty, this.poolId, this.size, this.cache := jetty, poolId, size, cache;
    }

    method Write(drv: UbusDriver, offset: nat, src: seq<byte>) returns (r: Reply)
      requires Valid() && drv.Valid() && Sound(drv.Abs()) && cache.buffer !in drv.Footprint()
      requires offset < U64 && |src| < U64
      modifies drv.Footprint(), cache.buffer
      ensures drv.Valid()
      ensures (drv.Abs(), cache.buffer[..], r)
        == PoolWrite(old(drv.Abs()), Fields(), old(cache.buffer[..]), offset, src)
    {
      hide Step, Assign;
      if (offset + |src|) % U64 > size {
        return Failed(-1);
      }
      if |src| > WINDOW {
        return OutsideMemory;
      }
      ghost var before := drv.Abs();
      CopyInto(cache.buffer, 0, src);
      assert drv.Abs() == before;
      assert cache.buffer[0..|src|] == cache.buffer[..][..|src|];
      r := UrmaWrite(drv, jetty, cache, 0, poolId, offset, |src|);
    }

    /** `r` is what the caller finds: the code, or the bytes copied out of the staging buffer. */
    method Read(drv: UbusDriver, offset: nat, count: nat) returns (r: Reply)
      requires Valid() && drv.Valid() && Sound(drv.Abs()) && cache.buffer !in drv.Footprint()
      requires offset < U64 && count < U64
      modifies drv.Footprint(), cache.buffer
      ensures drv.Valid()
      ensures (drv.Abs(), cache.buffer[..], r)
        == PoolRead(old(drv.Abs()), Fields(), old(cache.buffer[..]), offset, count)
    {
      hide Step;
      if (offset + count) % U64 > size {
        return Failed(-1);
      }
      assert count <= WINDOW ==> cache.buffer[0..count] == cache.buffer[..][..count];
      r := UrmaRead(drv, jetty, cache, 0, poolId, offset, count);
      if r.Moved? {
        r := Moved(cache.buffer[..count]);
        assert cache.buffer[..count] == cache.buffer[..][..count];
      }
    }
  }
}
