// demonstrators/demo_hccl_ring.c on the driver and the user library: what the ring's transfers leave in the
// nodes' memory. Every rank sends from its own host tensor, which no transfer writes.
module RingRun {
  import opened Arith
  import opened Bytes
  import opened Silicon
  import opened Driver
  import opened Urma
  import opened Ring

  const COLLECTIVE_TOKEN: nat := 0x5555

  /** As many ranks as there are handles beside node 0, and tensors that fit behind each other's strides. */
  predicate Fits(n: nat, size: nat)
  {
    2 <= n <= MAX_NODES - 1 && 0 < size && (n - 1) * STRIDE + size <= NODE_MEM_SIZE
  }

  /** Rank r's device is open, with its segment and its jetty to the next rank, all three numbered r + 1. */
  ghost predicate RankReady(d: Dev, r: nat, n: nat, size: nat)
    requires Sound(d) && r < n < MAX_NODES
  {
    HasSegment(d, r, size) && d.nodes[r + 1].jetties[r + 1] == Jetty(NextRank(r, n) + 1, COLLECTIVE_TOKEN, true)
  }

  ghost predicate HasSegment(d: Dev, r: nat, size: nat)
    requires Sound(d) && r + 1 < MAX_NODES
  {
    && d.open[r + 1] && d.nodes[r + 1].linkUp
    && d.nodes[r + 1].segs[r + 1] == Segment(COLLECTIVE_TOKEN, r * STRIDE, size, true)
  }

  ghost predicate Ready(d: Dev, n: nat, size: nat)
  {
    Fits(n, size) && Sound(d) && forall r: nat :: r < n ==> RankReady(d, r, n, size)
  }

  /** The bytes of rank r's segment. */
  function Content(d: Dev, r: nat, size: nat): (s: seq<byte>)
    requires NodesOk(d.nodes) && r + 1 < MAX_NODES && r * STRIDE + size <= NODE_MEM_SIZE
    ensures |s| == size
  {
    d.nodes[r + 1].mem[r * STRIDE..r * STRIDE + size]
  }

  lemma RankFits(r: nat, n: nat, size: nat)
    requires Fits(n, size) && r < n
    ensures r * STRIDE + size <= NODE_MEM_SIZE
  {
  }

  // ---------- one transfer ----------

  lemma LocateRank(n: Node, r: WorkRequest, p: nat, size: nat)
    requires NodeOk(n) && p < MAX_NODES && p * STRIDE + size <= NODE_MEM_SIZE
    requires n.segs[p + 1] == Segment(COLLECTIVE_TOKEN, p * STRIDE, size, true)
    requires r.segId == p + 1 && r.token == COLLECTIVE_TOKEN && r.offset + r.length <= size
    ensures Locate(n, r) == At(p * STRIDE + r.offset)
  {
  }

  /** A send inside the tensor succeeds; it overwrites its range of the next rank's segment, and no other byte
      of any node. */
  lemma SendMoves(d: Dev, n: nat, size: nat, r: nat, offset: nat, data: seq<byte>)
    requires Ready(d, n, size) && r < n && offset + |data| <= size
    ensures var p := NextRank(r, n);
      var (next, reply) := Step(d, Submit(r + 1, WriteOf(r + 1, p + 1, offset, data)));
      var at := p * STRIDE + offset;
      && reply == Moved([]) && Ready(next, n, size) && at + |data| <= NODE_MEM_SIZE
      && next.nodes[p + 1].mem == Assign(d.nodes[p + 1].mem, at, at + |data|, data)
      && forall k :: 0 <= k < MAX_NODES && k != p + 1 ==> next.nodes[k].mem == d.nodes[k].mem
  {
    hide Locate, Assign, Account, IsCipFlagged;
    var p := NextRank(r, n);
    RankFits(p, n, size);
    assert RankReady(d, r, n, size) && RankReady(d, p, n, size);
    var wr := WriteOf(r + 1, p + 1, offset, data);
    var req: WorkRequest := Describe(d.nodes[r + 1].jetties, wr);
    LocateRank(d.nodes[p + 1], req, p, size);
    FlagIsCip();
    assert StoredBytes(req) == data;
    AccountKeeps(d.nodes[p + 1 := Execute(d.nodes[p + 1], req).0], r + 1, p + 1, |data|);
    StepKeepsTokens(d, Submit(r + 1, wr));
    var next := Step(d, Submit(r + 1, wr)).0;
    forall k: nat | k < n
      ensures RankReady(next, k, n, size)
    {
      assert RankReady(d, k, n, size);
    }
  }

  // ---------- what has arrived ----------

  /** Byte a belongs to a chunk that rank q has sent in its first k sends. */
  ghost predicate Arrived(a: nat, q: nat, k: nat, n: nat, chunkBytes: nat)
    requires q < n
  {
    exists c: nat :: c < n && InChunk(a, c, chunkBytes) && Distance(c, q, n) < k
  }

  /** The segment of q's successor after k sends of rank q: the chunks sent are q's own, the rest is zero. */
  ghost predicate Carries(content: seq<byte>, tensor: seq<byte>, q: nat, k: nat, n: nat)
    requires q < n && |content| == |tensor|
  {
    forall a :: 0 <= a < |content| ==> content[a] == if Arrived(a, q, k, n, |tensor| / n) then tensor[a] else 0
  }

  lemma NothingArrived(tensor: seq<byte>, q: nat, n: nat)
    requires q < n
    ensures Carries(Zeros(|tensor|), tensor, q, 0, n)
  {
  }

  lemma ArrivedNext(a: nat, q: nat, k: nat, n: nat, chunkBytes: nat)
    requires q < n && k < 2 * (n - 1)
    ensures Arrived(a, q, k + 1, n, chunkBytes) <==>
      Arrived(a, q, k, n, chunkBytes) || InChunk(a, Chunk(q, k, n), chunkBytes)
  {
    var c := Chunk(q, k, n);
    OneSenderPerChunk(c, q, k, n);
    VisitsIff(c, q, k, n);
    if e: nat :| e < n && InChunk(a, e, chunkBytes) && Distance(e, q, n) < k + 1 {
      if Distance(e, q, n) == k {
        VisitsIff(e, q, k, n);
        OneSenderPerChunk(e, q, k, n);
      }
    }
  }

  /** Sending the chunk of the formula at step k. */
  lemma CarriesNext(content: seq<byte>, tensor: seq<byte>, q: nat, k: nat, n: nat)
    requires n >= 2 && q < n && k < 2 * (n - 1) && |content| == |tensor| && Carries(content, tensor, q, k, n)
    ensures var s := SendAt(k, q, n, |tensor|);
      && s.offset + s.length <= |tensor|
      && |Assign(content, s.offset, s.offset + s.length, tensor[s.offset..s.offset + s.length])| == |tensor|
      && Carries(Assign(content, s.offset, s.offset + s.length, tensor[s.offset..s.offset + s.length]),
                 tensor, q, k + 1, n)
  {
    hide Arrived, Chunk;
    SendsInBounds(k, q, n, |tensor|);
    var s := SendAt(k, q, n, |tensor|);
    var data := tensor[s.offset..s.offset + s.length];
    OverwriteAt(content, s.offset, data);
    var next := Assign(content, s.offset, s.offset + s.length, data);
    forall a | 0 <= a < |tensor|
      ensures next[a] == if Arrived(a, q, k + 1, n, |tensor| / n) then tensor[a] else 0
    {
      ArrivedNext(a, q, k, n, |tensor| / n);
    }
  }

  lemma SliceOfAssign(mem: seq<byte>, base: nat, size: nat, offset: nat, data: seq<byte>)
    requires base + size <= |mem| && offset + |data| <= size
    ensures Assign(mem, base + offset, base + offset + |data|, data)[base..base + size]
      == Assign(mem[base..base + size], offset, offset + |data|, data)
  {
  }

  /** Once a rank has made n sends, everything below n chunks has arrived, and nothing above ever does. */
  lemma ArrivedInFull(a: nat, q: nat, k: nat, n: nat, chunkBytes: nat)
    requires q < n && k >= n
    ensures Arrived(a, q, k, n, chunkBytes) <==> a < n * chunkBytes
  {
    hide InChunk, Distance;
    if a < n * chunkBytes {
      ChunkOf(a, n, chunkBytes);
      var c := a / chunkBytes;
      assert InChunk(a, c, chunkBytes) && Distance(c, q, n) < k;
    }
    if c: nat :| c < n && InChunk(a, c, chunkBytes) && Distance(c, q, n) < k {
      ChunkBelow(a, c, n, chunkBytes);
    }
  }

  lemma ChunkOf(a: nat, n: nat, chunkBytes: nat)
    requires a < n * chunkBytes
    ensures chunkBytes > 0 && a / chunkBytes < n && InChunk(a, a / chunkBytes, chunkBytes)
  {
    assert chunkBytes > 0 by { ZeroTimes(n, chunkBytes); }
    var c := a / chunkBytes;
    assert a == chunkBytes * c + a % chunkBytes;
    assert chunkBytes * c == c * chunkBytes;
    if c >= n { MulMonotone(n, c, chunkBytes); }
  }

  lemma ChunkBelow(a: nat, c: nat, n: nat, chunkBytes: nat)
    requires c < n && InChunk(a, c, chunkBytes)
    ensures a < n * chunkBytes
  {
    MulMonotone(c + 1, n, chunkBytes);
    assert (c + 1) * chunkBytes == c * chunkBytes + chunkBytes;
  }

  lemma ZeroTimes(n: nat, m: nat)
    ensures m == 0 ==> n * m == 0
  {
  }

  lemma FullDelivery(content: seq<byte>, tensor: seq<byte>, q: nat, k: nat, n: nat)
    requires n >= 2 && q < n && k >= n && |content| == |tensor| && Carries(content, tensor, q, k, n)
    ensures n * (|tensor| / n) <= |tensor|
    ensures var whole := n * (|tensor| / n);
      content == tensor[..whole] + Zeros(|tensor| - whole)
  {
    hide Arrived;
    var b := |tensor| / n;
    assert |tensor| == n * b + |tensor| % n;
    forall a | 0 <= a < |tensor|
      ensures content[a] == if a < n * b then tensor[a] else 0
    {
      ArrivedInFull(a, q, k, n, b);
    }
  }

  // ---------- the demonstrator ----------

  lemma NextRanksDiffer(q: nat, r: nat, n: nat)
    requires q < n && r < n && q != r
    ensures NextRank(q, n) != NextRank(r, n)
  {
    ModFold(q + 1, n);
    ModFold(r + 1, n);
  }

  ghost predicate TensorsOk(drv: UbusDriver, tensors: seq<array<byte>>, size: nat)
  {
    forall r :: 0 <= r < |tensors| ==> tensors[r].Length == size && tensors[r] !in drv.Footprint()
  }

  /** The first r ranks are opened and have their segments; all memory is zero. */
  ghost predicate Opening(d: Dev, r: nat, size: nat)
    requires r < MAX_NODES
  {
    && Sound(d) && d.nextSeg == r + 1 && d.nextJetty == 1
    && (forall q: nat :: q < r ==> HasSegment(d, q, size))
    && (forall k :: 0 <= k < MAX_NODES ==> d.nodes[k].mem == Zeros(NODE_MEM_SIZE))
    && (forall k :: r < k < MAX_NODES ==> !d.open[k])
  }

  lemma OpeningNext(d: Dev, r: nat, size: nat)
    requires r + 1 < MAX_NODES && Opening(d, r, size) && size < U64
    ensures var (opened', first) := Step(d, Open(r + 1));
      && Sound(opened')
      && (var (next, second) := Step(opened', RegSeg(r + 1, size, COLLECTIVE_TOKEN));
          second == Named(r + 1) && Opening(next, r + 1, size))
  {
    StepKeepsTokens(d, Open(r + 1));
    var opened' := Step(d, Open(r + 1)).0;
    StepKeepsTokens(opened', RegSeg(r + 1, size, COLLECTIVE_TOKEN));
    BaseOfSmall(r + 1);
    hide BaseOf;
    var next := Step(opened', RegSeg(r + 1, size, COLLECTIVE_TOKEN)).0;
    forall q: nat | q < r + 1
      ensures HasSegment(next, q, size)
    {
      if q < r { assert HasSegment(d, q, size); }
    }
  }

  /** All segments are there, and the jetties of the first r ranks. */
  ghost predicate Linking(d: Dev, r: nat, n: nat, size: nat)
    requires r <= n < MAX_NODES
  {
    && Sound(d) && d.nextJetty == r + 1
    && (forall q: nat :: q < n ==> HasSegment(d, q, size))
    && (forall q: nat :: q < r ==> RankReady(d, q, n, size))
    && (forall k :: 0 <= k < MAX_NODES ==> d.nodes[k].mem == Zeros(NODE_MEM_SIZE))
  }

  lemma LinkingNext(d: Dev, r: nat, n: nat, size: nat)
    requires r < n < MAX_NODES && Linking(d, r, n, size)
    ensures var (next, reply) := Step(d, Call.CreateJetty(r + 1, NextRank(r, n) + 1, COLLECTIVE_TOKEN));
      reply == Named(r + 1) && Linking(next, r + 1, n, size)
  {
    hide HasSegment, RankReady, Step;
    assert HasSegment(d, r, size);
    JettyMade(d, r, n, size);
    var c: SysCall := Call.CreateJetty(r + 1, NextRank(r, n) + 1, COLLECTIVE_TOKEN);
    var next := Step(d, c).0;
    forall q: nat | q < n
      ensures HasSegment(next, q, size) && (q < r + 1 ==> RankReady(next, q, n, size))
    {
      JettyKeepsRank(d, next, r, q, n, size);
    }
  }

  /** The driver with rank r's jetty, number r + 1, to the next rank. */
  function WithJetty(d: Dev, r: nat, n: nat): Dev
    requires NodesOk(d.nodes) && r < n < MAX_NODES
  {
    var node := AddJetty(d.nodes[r + 1], r + 1, NextRank(r, n) + 1, COLLECTIVE_TOKEN);
    d.(nextJetty := r + 2, nodes := d.nodes[r + 1 := node])
  }

  lemma JettyMade(d: Dev, r: nat, n: nat, size: nat)
    requires Sound(d) && r < n < MAX_NODES && HasSegment(d, r, size) && d.nextJetty == r + 1
    ensures var c: SysCall := Call.CreateJetty(r + 1, NextRank(r, n) + 1, COLLECTIVE_TOKEN);
      var (next, reply) := Step(d, c);
      && reply == Named(r + 1) && Sound(next) && next.nextJetty == r + 2
      && next == WithJetty(d, r, n)
  {
    StepKeepsTokens(d, Call.CreateJetty(r + 1, NextRank(r, n) + 1, COLLECTIVE_TOKEN));
  }

  lemma JettyKeepsRank(d: Dev, next: Dev, r: nat, q: nat, n: nat, size: nat)
    requires Sound(d) && Sound(next) && r < n < MAX_NODES && q < n
    requires next == WithJetty(d, r, n)
    ensures HasSegment(d, q, size) ==> HasSegment(next, q, size)
    ensures RankReady(d, q, n, size) || (q == r && HasSegment(d, q, size)) ==> RankReady(next, q, n, size)
  {
    hide TokensOk;
  }

  /** Every rank has made `step` sends, the ranks below r one more. */
  ghost predicate Sending(d: Dev, tensors: seq<seq<byte>>, step: nat, r: nat, size: nat)
  {
    && Ready(d, |tensors|, size)
    && forall q: nat :: q < |tensors| ==>
      |tensors[q]| == size && Served(d, tensors[q], q, if q < r then step + 1 else step, |tensors|)
  }

  ghost predicate Served(d: Dev, tensor: seq<byte>, q: nat, k: nat, n: nat)
    requires Fits(n, |tensor|) && NodesOk(d.nodes) && q < n
  {
    RankFits(NextRank(q, n), n, |tensor|);
    Carries(Content(d, NextRank(q, n), |tensor|), tensor, q, k, n)
  }

  lemma SendingStarts(d: Dev, tensors: seq<seq<byte>>, size: nat)
    requires Fits(|tensors|, size) && Linking(d, |tensors|, |tensors|, size)
    requires forall q :: 0 <= q < |tensors| ==> |tensors[q]| == size
    ensures Sending(d, tensors, 0, 0, size)
  {
    hide RankReady, HasSegment, Served;
    forall q: nat | q < |tensors|
      ensures Served(d, tensors[q], q, 0, |tensors|)
    {
      ServedAtStart(d, tensors[q], q, |tensors|);
    }
  }

  lemma ServedAtStart(d: Dev, tensor: seq<byte>, q: nat, n: nat)
    requires Fits(n, |tensor|) && NodesOk(d.nodes) && q < n
    requires forall k :: 0 <= k < MAX_NODES ==> d.nodes[k].mem == Zeros(NODE_MEM_SIZE)
    ensures Served(d, tensor, q, 0, n)
  {
    hide Carries;
    RankFits(NextRank(q, n), n, |tensor|);
    assert Content(d, NextRank(q, n), |tensor|) == Zeros(|tensor|);
    NothingArrived(tensor, q, n);
  }

  lemma SendingNext(d: Dev, tensors: seq<seq<byte>>, step: nat, r: nat, size: nat)
    requires r < |tensors| && |tensors| >= 2 && step < 2 * (|tensors| - 1) && Sending(d, tensors, step, r, size)
    ensures var n := |tensors|;
      var s := SendAt(step, r, n, size);
      && s.offset + s.length <= size
      && (var (next, reply) := Step(d, Submit(r + 1, WriteOf(r + 1, NextRank(r, n) + 1, s.offset,
                                                             tensors[r][s.offset..s.offset + s.length])));
          reply == Moved([]) && Sending(next, tensors, step, r + 1, size))
  {
    hide Step, Carries, RankReady, SendAt, Assign;
    var n := |tensors|;
    var s := SendAt(step, r, n, size);
    var p := NextRank(r, n);
    RankFits(p, n, size);
    assert Served(d, tensors[r], r, step, n);
    CarriesNext(Content(d, p, size), tensors[r], r, step, n);
    var data := tensors[r][s.offset..s.offset + s.length];
    SendMoves(d, n, size, r, s.offset, data);
    var next := Step(d, Submit(r + 1, WriteOf(r + 1, p + 1, s.offset, data))).0;
    SliceOfAssign(d.nodes[p + 1].mem, p * STRIDE, size, s.offset, data);
    forall q: nat | q < n
      ensures Served(next, tensors[q], q, if q < r + 1 then step + 1 else step, n)
    {
      RankFits(NextRank(q, n), n, size);
      assert Served(d, tensors[q], q, if q < r then step + 1 else step, n);
      if q != r { NextRanksDiffer(q, r, n); }
    }
  }

  /** The segment of every rank's successor holds the whole chunks of that rank's own tensor. */
  ghost predicate Shifted(d: Dev, tensors: seq<seq<byte>>, size: nat)
    requires Fits(|tensors|, size) && NodesOk(d.nodes)
  {
    forall q: nat :: q < |tensors| ==> ShiftedAt(d, tensors, size, q)
  }

  ghost predicate ShiftedAt(d: Dev, tensors: seq<seq<byte>>, size: nat, q: nat)
    requires Fits(|tensors|, size) && NodesOk(d.nodes) && q < |tensors|
  {
    var whole := |tensors| * (size / |tensors|);
    RankFits(NextRank(q, |tensors|), |tensors|, size);
    whole <= |tensors[q]| && Content(d, NextRank(q, |tensors|), size) == tensors[q][..whole] + Zeros(size - whole)
  }

  lemma SendingEnds(d: Dev, tensors: seq<seq<byte>>, size: nat)
    requires |tensors| >= 2 && Sending(d, tensors, 2 * (|tensors| - 1), 0, size)
    ensures Shifted(d, tensors, size)
  {
    hide Carries, RankReady;
    var n := |tensors|;
    forall q: nat | q < n
      ensures ShiftedAt(d, tensors, size, q)
    {
      RankFits(NextRank(q, n), n, size);
      assert Served(d, tensors[q], q, 2 * (n - 1), n);
      FullDelivery(Content(d, NextRank(q, n), size), tensors[q], q, 2 * (n - 1), n);
    }
  }

  lemma FreshOpens(size: nat)
    ensures Opening(Fresh(), 0, size)
  {
  }

  lemma OpenedLinks(d: Dev, n: nat, size: nat)
    requires n < MAX_NODES && Opening(d, n, size)
    ensures Linking(d, 0, n, size)
  {
    hide HasSegment;
  }

  /** The rank table of the demonstrator: what the library calls have returned. */
  ghost predicate Workers(segs: seq<UrmaSegment>, jetties: seq<UrmaJetty>, tensors: seq<array<byte>>, n: nat)
  {
    && |segs| <= |tensors| == n && |jetties| <= n
    && (forall r :: 0 <= r < |segs| ==> segs[r] == UrmaSegment(r + 1, COLLECTIVE_TOKEN, tensors[r]))
    && (forall r :: 0 <= r < |jetties| ==> jetties[r] == UrmaJetty(r + 1, r + 1, NextRank(r, n) + 1, COLLECTIVE_TOKEN))
  }

  /** From a fresh driver on, every call of the demonstrator succeeds; in the end each rank's segment holds the
      whole chunks of its predecessor's tensor, and nothing of any other rank's. The tensors are unchanged. */
  method RingAllReduce(drv: UbusDriver, tensors: seq<array<byte>>, size: nat)
    returns (ghost host: seq<seq<byte>>, ok: bool)
    requires drv.Valid() && drv.Abs() == Fresh() && Fits(|tensors|, size) && TensorsOk(drv, tensors, size)
    modifies drv, drv.isOpen, drv.Footprint()
    ensures drv.Valid() && NodesOk(drv.Abs().nodes) && ok
    ensures |host| == |tensors| && forall q :: 0 <= q < |tensors| ==> host[q] == old(tensors[q][..]) == tensors[q][..]
    ensures Shifted(drv.Abs(), host, size)
  {
    var n := |tensors|;
    host := seq(n, q requires 0 <= q < n => old(tensors[q][..]));
    var segs, jetties := OpenRanks(drv, tensors, size);
    SendingStarts(drv.Abs(), host, size);
    ok := true;
    hide Step, Sending, Linking, Workers, Shifted;
    for step := 0 to 2 * (n - 1)
      invariant drv.Valid() && Sending(drv.Abs(), host, step, 0, size) && ok
      invariant forall q :: 0 <= q < n ==> tensors[q][..] == host[q]
    {
      var done := SendRound(drv, tensors, segs, jetties, host, step, size);
      ok := ok && done;
      RoundDone(drv.Abs(), host, step, size);
    }
    SendingEnds(drv.Abs(), host, size);
    SendingSound(drv.Abs(), host, 2 * (n - 1), 0, size);
  }

  /** The inner loop: every rank sends one chunk. */
  method SendRound(drv: UbusDriver, tensors: seq<array<byte>>, segs: seq<UrmaSegment>, jetties: seq<UrmaJetty>,
                   ghost host: seq<seq<byte>>, step: nat, size: nat) returns (ok: bool)
    requires drv.Valid() && TensorsOk(drv, tensors, size) && |tensors| >= 2 && step < 2 * (|tensors| - 1)
    requires |segs| == |jetties| == |tensors| == |host| && Workers(segs, jetties, tensors, |tensors|)
    requires forall q :: 0 <= q < |tensors| ==> tensors[q][..] == host[q]
    requires Sending(drv.Abs(), host, step, 0, size)
    modifies drv.Footprint()
    ensures drv.Valid() && Sending(drv.Abs(), host, step, |tensors|, size) && ok
    ensures forall q :: 0 <= q < |tensors| ==> tensors[q][..] == host[q]
  {
    hide Step, Sending, Workers;
    var n := |tensors|;
    ok := true;
    for r := 0 to n
      invariant drv.Valid() && Sending(drv.Abs(), host, step, r, size) && ok
      invariant forall q :: 0 <= q < n ==> tensors[q][..] == host[q]
    {
      WorkerAt(segs, jetties, tensors, n, r);
      WorkerAt(segs, jetties, tensors, n, NextRank(r, n));
      var reply := SendChunk(drv, segs[r], jetties[r], segs[NextRank(r, n)].id, n, host, step, r, size);
      ok := ok && reply == Moved([]);
    }
  }

  lemma WorkerAt(segs: seq<UrmaSegment>, jetties: seq<UrmaJetty>, tensors: seq<array<byte>>, n: nat, r: nat)
    requires Workers(segs, jetties, tensors, n) && |segs| == |jetties| == n && r < n
    ensures segs[r] == UrmaSegment(r + 1, COLLECTIVE_TOKEN, tensors[r])
    ensures jetties[r] == UrmaJetty(r + 1, r + 1, NextRank(r, n) + 1, COLLECTIVE_TOKEN)
  {
  }

  /** The two set-up loops. */
  method OpenRanks(drv: UbusDriver, tensors: seq<array<byte>>, size: nat)
    returns (segs: seq<UrmaSegment>, jetties: seq<UrmaJetty>)
    requires drv.Valid() && drv.Abs() == Fresh() && Fits(|tensors|, size) && TensorsOk(drv, tensors, size)
    modifies drv, drv.isOpen, drv.Footprint()
    ensures drv.Valid() && Linking(drv.Abs(), |tensors|, |tensors|, size)
    ensures |segs| == |jetties| == |tensors| && Workers(segs, jetties, tensors, |tensors|)
    ensures forall q :: 0 <= q < |tensors| ==> tensors[q][..] == old(tensors[q][..])
  {
    hide Opening, Linking;
    FreshOpens(size);
    segs := OpenSegments(drv, tensors, size);
    OpenedLinks(drv.Abs(), |tensors|, size);
    jetties := LinkRanks(drv, tensors, segs, size);
  }

  /** The first loop: every rank opens its device and registers its tensor. */
  method OpenSegments(drv: UbusDriver, tensors: seq<array<byte>>, size: nat) returns (segs: seq<UrmaSegment>)
    requires drv.Valid() && Opening(drv.Abs(), 0, size) && Fits(|tensors|, size) && TensorsOk(drv, tensors, size)
    modifies drv, drv.isOpen, drv.Footprint()
    ensures drv.Valid() && Opening(drv.Abs(), |tensors|, size)
    ensures |segs| == |tensors| && Workers(segs, [], tensors, |tensors|)
    ensures forall q :: 0 <= q < |tensors| ==> tensors[q][..] == old(tensors[q][..])
  {
    hide Opening;
    segs := [];
    for r := 0 to |tensors|
      invariant drv.Valid() && Opening(drv.Abs(), r, size)
      invariant |segs| == r && Workers(segs, [], tensors, |tensors|)
      invariant forall q :: 0 <= q < |tensors| ==> tensors[q][..] == old(tensors[q][..])
    {
      var seg := OpenRank(drv, tensors[r], r, size);
      segs := segs + [seg];
    }
  }

  /** The second loop: every rank creates its jetty. */
  method LinkRanks(drv: UbusDriver, tensors: seq<array<byte>>, segs: seq<UrmaSegment>, size: nat)
    returns (jetties: seq<UrmaJetty>)
    requires drv.Valid() && Fits(|tensors|, size) && TensorsOk(drv, tensors, size)
    requires Linking(drv.Abs(), 0, |tensors|, size)
    requires |segs| == |tensors| && Workers(segs, [], tensors, |tensors|)
    modifies drv, drv.Footprint()
    ensures drv.Valid() && Linking(drv.Abs(), |tensors|, |tensors|, size)
    ensures |jetties| == |tensors| && Workers(segs, jetties, tensors, |tensors|)
    ensures forall q :: 0 <= q < |tensors| ==> tensors[q][..] == old(tensors[q][..])
  {
    hide Linking;
    jetties := [];
    for r := 0 to |tensors|
      invariant drv.Valid() && Linking(drv.Abs(), r, |tensors|, size)
      invariant |jetties| == r && Workers(segs, jetties, tensors, |tensors|)
      invariant forall q :: 0 <= q < |tensors| ==> tensors[q][..] == old(tensors[q][..])
    {
      var jetty := LinkRank(drv, r, |tensors|, size);
      jetties := jetties + [jetty];
    }
  }

  method OpenRank(drv: UbusDriver, tensor: array<byte>, r: nat, size: nat) returns (seg: UrmaSegment)
    requires drv.Valid() && r + 1 < MAX_NODES && 0 < size < U64 && Opening(drv.Abs(), r, size)
    requires tensor.Length == size && tensor !in drv.Footprint()
    modifies drv, drv.isOpen, drv.Footprint()
    ensures drv.Valid() && Opening(drv.Abs(), r + 1, size) && seg == UrmaSegment(r + 1, COLLECTIVE_TOKEN, tensor)
  {
    hide Step, HasSegment;
    OpeningNext(drv.Abs(), r, size);
    var _ := drv.DevOpen(r + 1);
    var made := Urma.RegisterSegment(drv, r + 1, tensor, COLLECTIVE_TOKEN);
    seg := made.value;
  }

  method LinkRank(drv: UbusDriver, r: nat, n: nat, size: nat) returns (jetty: UrmaJetty)
    requires drv.Valid() && r < n < MAX_NODES && Linking(drv.Abs(), r, n, size)
    modifies drv, drv.Footprint()
    ensures drv.Valid() && Linking(drv.Abs(), r + 1, n, size)
    ensures jetty == UrmaJetty(r + 1, r + 1, NextRank(r, n) + 1, COLLECTIVE_TOKEN)
  {
    hide Step, HasSegment, RankReady;
    LinkingNext(drv.Abs(), r, n, size);
    var made := Urma.CreateJetty(drv, r + 1, NextRank(r, n) + 1, COLLECTIVE_TOKEN);
    jetty := made.value;
  }

  lemma RoundDone(d: Dev, tensors: seq<seq<byte>>, step: nat, size: nat)
    requires Sending(d, tensors, step, |tensors|, size)
    ensures Sending(d, tensors, step + 1, 0, size)
  {
    hide Served, RankReady;
    forall q: nat | q < |tensors|
      ensures Served(d, tensors[q], q, step + 1, |tensors|)
    {
    }
  }

  /** The body of the inner loop. */
  method SendChunk(drv: UbusDriver, seg: UrmaSegment, jetty: UrmaJetty, nextSeg: nat, n: nat,
                   ghost host: seq<seq<byte>>, step: nat, r: nat, size: nat) returns (reply: Reply)
    requires drv.Valid() && seg.buffer !in drv.Footprint() && seg.buffer.Length == size
    requires r < n == |host| && n >= 2 && step < 2 * (n - 1) && seg.buffer[..] == host[r]
    requires jetty.fd == jetty.id == r + 1 && nextSeg == NextRank(r, n) + 1
    requires Sending(drv.Abs(), host, step, r, size)
    modifies drv.Footprint()
    ensures drv.Valid() && reply == Moved([]) && Sending(drv.Abs(), host, step, r + 1, size)
  {
    hide Step, Sending, Chunk, SendAt;
    SendingSound(drv.Abs(), host, step, r, size);
    SendingNext(drv.Abs(), host, step, r, size);
    SendParts(step, r, n, size);
    var sendChunk := (r - step + 2 * n) % n;
    var chunkBytes := size / n;
    var offset := sendChunk * chunkBytes;
    reply := SendRange(drv, seg, jetty, nextSeg, offset, chunkBytes, host[r]);
  }

  method SendRange(drv: UbusDriver, seg: UrmaSegment, jetty: UrmaJetty, nextSeg: nat, offset: nat, length: nat,
                   ghost tensor: seq<byte>) returns (reply: Reply)
    requires drv.Valid() && Sound(drv.Abs()) && seg.buffer[..] == tensor
    requires offset + length <= seg.buffer.Length <= NODE_MEM_SIZE && jetty.id < MAX_NODES && nextSeg < MAX_NODES + 1
    modifies drv.Footprint()
    ensures drv.Valid()
    ensures (drv.Abs(), reply)
      == Step(old(drv.Abs()), Submit(jetty.fd, WriteOf(jetty.id, nextSeg, offset, tensor[offset..offset + length])))
  {
    hide Step;
    assert seg.buffer[offset..offset + length] == tensor[offset..offset + length];
    reply := UrmaWrite(drv, jetty, seg, offset, nextSeg, offset, length);
  }

  lemma SendingSound(d: Dev, tensors: seq<seq<byte>>, step: nat, r: nat, size: nat)
    requires Sending(d, tensors, step, r, size)
    ensures Sound(d) && size <= NODE_MEM_SIZE && |tensors| < MAX_NODES
  {
    hide Served, RankReady;
  }

  lemma SendParts(step: nat, r: nat, n: nat, size: nat)
    requires r < n && step < 2 * (n - 1)
    ensures SendAt(step, r, n, size)
      == Send(r, NextRank(r, n), (r - step + 2 * n) % n, (r - step + 2 * n) % n * (size / n), size / n)
  {
  }
}
