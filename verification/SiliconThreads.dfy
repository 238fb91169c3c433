// Threads inside ub_silicon_process_wr, interleaved at its lock sections: the link check outside the
// lock, the section under the destination's lock, the two telemetry sections; together with
// registration calls of other threads.
module SiliconThreads {
  import opened Bytes
  import opened Silicon

  /** Where a thread is in its call; `since` is the length of the log when the call began. */
  datatype Thread =
    | Idle
    | Checked(src: nat, req: WorkRequest, since: nat)                     // passed the link check
    | Executed(src: nat, req: WorkRequest, since: nat, out: seq<byte>)    // released the destination's lock
    | Sent(src: nat, req: WorkRequest, since: nat, out: seq<byte>)        // between the two telemetry sections
    | Finished(src: nat, req: WorkRequest, since: nat, res: Result)

  /** Linearisation points, in order. */
  datatype Entry =
    | Wr(t: nat, src: nat, req: WorkRequest, res: Result)
    | Up(node: nat)
    | Down(node: nat)
    | Seg(node: nat, id: nat, base: nat, size: nat, token: nat)

  datatype Sys = Sys(nodes: seq<Node>, threads: seq<Thread>, log: seq<Entry>)

  datatype Action =
    | Begin(t: nat, src: nat, req: WorkRequest)
    | Lock(t: nat)
    | AddTx(t: nat)
    | AddRx(t: nat)
    | Collect(t: nat)
    | Register(node: nat)
    | Unregister(node: nat)
    | RegisterSegment(node: nat, id: nat, base: nat, size: nat, token: nat)

  ghost predicate SysOk(s: Sys)
  {
    && |s.nodes| == MAX_NODES
    && (forall n :: 0 <= n < MAX_NODES ==> NodeOk(s.nodes[n]))
    && (forall t :: 0 <= t < |s.threads| ==> ThreadOk(s.threads[t]))
  }

  predicate ThreadOk(th: Thread)
  {
    th.Checked? || th.Executed? || th.Sent? ==> th.src < MAX_NODES && th.req.dstNode < MAX_NODES
  }

  /** The id checks and the read of link_up, without a lock. */
  function Start(s: Sys, t: nat, src: nat, req: WorkRequest): (r: Sys)
    requires SysOk(s) && t < |s.threads|
    ensures SysOk(r)
  {
    if src >= MAX_NODES || req.dstNode >= MAX_NODES then Refuse(s, t, src, req, Err(-1))
    else if !s.nodes[req.dstNode].linkUp then Refuse(s, t, src, req, Err(-2))
    else s.(threads := s.threads[t := Checked(src, req, |s.log|)])
  }

  function Refuse(s: Sys, t: nat, src: nat, req: WorkRequest, res: Result): (r: Sys)
    requires SysOk(s) && t < |s.threads|
    ensures SysOk(r)
  {
    s.(threads := s.threads[t := Finished(src, req, |s.log|, res)], log := s.log + [Wr(t, src, req, res)])
  }

  /** The section under the destination's lock. */
  function Locked(s: Sys, t: nat): (r: Sys)
    requires SysOk(s) && t < |s.threads| && s.threads[t].Checked?
    ensures SysOk(r)
  {
    var th := s.threads[t];
    var (node, res) := Execute(s.nodes[th.req.dstNode], th.req);
    Sys(s.nodes[th.req.dstNode := node],
        s.threads[t := if res.Ok? then Executed(th.src, th.req, th.since, res.out)
                       else Finished(th.src, th.req, th.since, res)],
        s.log + [Wr(t, th.src, th.req, res)])
  }

  /** An action that is not enabled does nothing. */
  function Next(s: Sys, a: Action): (r: Sys)
    requires SysOk(s)
    ensures SysOk(r)
  {
    match a
    case Begin(t, src, req) => if t < |s.threads| && s.threads[t].Idle? then Start(s, t, src, req) else s
    case Lock(t) => if t < |s.threads| && s.threads[t].Checked? then Locked(s, t) else s
    case AddTx(t) =>
      if t >= |s.threads| || !s.threads[t].Executed? then s
      else
        var th := s.threads[t];
        s.(nodes := s.nodes[th.src := CountTx(s.nodes[th.src], th.req.length)],
           threads := s.threads[t := Sent(th.src, th.req, th.since, th.out)])
    case AddRx(t) =>
      if t >= |s.threads| || !s.threads[t].Sent? then s
      else
        var th := s.threads[t];
        s.(nodes := s.nodes[th.req.dstNode := CountRx(s.nodes[th.req.dstNode], th.req.length)],
           threads := s.threads[t := Finished(th.src, th.req, th.since, Ok(th.out))])
    case Collect(t) =>
      if t < |s.threads| && s.threads[t].Finished? then s.(threads := s.threads[t := Idle]) else s
    case Register(n) =>
      if n >= MAX_NODES then s else s.(nodes := s.nodes[n := LinkUp(s.nodes[n])], log := s.log + [Up(n)])
    case Unregister(n) =>
      if n >= MAX_NODES then s else s.(nodes := s.nodes[n := LinkDown(s.nodes[n])], log := s.log + [Down(n)])
    case RegisterSegment(n, id, base, size, token) =>
      if n >= MAX_NODES then s
      else s.(nodes := s.nodes[n := AddSegment(s.nodes[n], id, base, size, token)],
              log := s.log + [Seg(n, id, base, size, token)])
  }

  function Initial(threads: nat): (s: Sys)
    ensures SysOk(s)
  {
    Sys(seq(MAX_NODES, _ => BlankNode()), seq(threads, _ => Idle), [])
  }

  function Exec(threads: nat, actions: seq<Action>): (s: Sys)
    ensures SysOk(s)
    decreases |actions|
  {
    if actions == [] then Initial(threads)
    else Next(Exec(threads, actions[..|actions| - 1]), actions[|actions| - 1])
  }

  lemma Unroll(threads: nat, actions: seq<Action>, a: Action)
    ensures Exec(threads, actions + [a]) == Next(Exec(threads, actions), a)
  {
    hide Next;
    assert (actions + [a])[..|actions|] == actions;
  }

  // ---------- a call nobody interrupts ----------

  function Call(s: Sys, t: nat, src: nat, req: WorkRequest): (r: Sys)
    requires SysOk(s)
    ensures SysOk(r)
  {
    Next(Next(Next(Next(s, Begin(t, src, req)), Lock(t)), AddTx(t)), AddRx(t))
  }

  /** The four steps of a thread in a row are process_wr: nodes, counters and result; the call is logged once,
      and other threads are where they were. */
  lemma UninterruptedIsProcess(s: Sys, t: nat, src: nat, req: WorkRequest)
    requires SysOk(s) && t < |s.threads| && s.threads[t].Idle?
    ensures var r := Call(s, t, src, req);
      var (nodes, res) := Process(s.nodes, src, req);
      && r.nodes == nodes && r.log == s.log + [Wr(t, src, req, res)]
      && r.threads == s.threads[t := Finished(src, req, |s.log|, res)]
  {
    hide Execute, CountTx, CountRx;
    if src < MAX_NODES && req.dstNode < MAX_NODES && s.nodes[req.dstNode].linkUp {
      ExecuteKeeps(s.nodes[req.dstNode], req);
      var res := Execute(s.nodes[req.dstNode], req).1;
      var begun := Next(s, Begin(t, src, req));
      assert begun.threads[t] == Checked(src, req, |s.log|);
      var locked := Next(begun, Lock(t));
      if res.Ok? {
        assert locked.threads[t] == Executed(src, req, |s.log|, res.out);
        var sent := Next(locked, AddTx(t));
        assert sent.threads[t] == Sent(src, req, |s.log|, res.out);
      } else {
        assert locked.nodes == s.nodes && locked.threads[t] == Finished(src, req, |s.log|, res);
      }
    }
  }

  /** What is answered before the lock: -1 for an unknown node, -2 for a link that is down at that moment. */
  lemma BeginExact(s: Sys, t: nat, src: nat, req: WorkRequest)
    requires SysOk(s) && t < |s.threads| && s.threads[t].Idle?
    ensures var r := Next(s, Begin(t, src, req));
      && r.nodes == s.nodes
      && r.threads[t] ==
         if src >= 64 || req.dstNode >= 64 then Finished(src, req, |s.log|, Err(-1))
         else if !s.nodes[req.dstNode].linkUp then Finished(src, req, |s.log|, Err(-2))
         else Checked(src, req, |s.log|)
  {
  }

  // ---------- the serial specification ----------

  /** A node without its telemetry. */
  function Bare(n: Node): Node
  {
    n.(txFlits := 0, rxFlits := 0, txBytes := 0, rxBytes := 0)
  }

  function BareAll(nodes: seq<Node>): (r: seq<Node>)
    ensures |r| == |nodes|
  {
    seq(|nodes|, i requires 0 <= i < |nodes| => Bare(nodes[i]))
  }

  /** A work request as one indivisible operation: link check, validation and transfer. */
  function SerialWr(nodes: seq<Node>, src: nat, req: WorkRequest): (r: (seq<Node>, Result))
    requires NodesOk(nodes)
    ensures NodesOk(r.0)
  {
    if src >= MAX_NODES || req.dstNode >= MAX_NODES then (nodes, Err(-1))
    else if !nodes[req.dstNode].linkUp then (nodes, Err(-2))
    else
      var (node, res) := Execute(nodes[req.dstNode], req);
      (nodes[req.dstNode := node], res)
  }

  function SerialStep(nodes: seq<Node>, e: Entry): (r: seq<Node>)
    requires NodesOk(nodes)
    ensures NodesOk(r)
  {
    match e
    case Wr(_, src, req, _) => SerialWr(nodes, src, req).0
    case Up(n) => if n < MAX_NODES then nodes[n := LinkUp(nodes[n])] else nodes
    case Down(n) => if n < MAX_NODES then nodes[n := LinkDown(nodes[n])] else nodes
    case Seg(n, id, base, size, token) =>
      if n < MAX_NODES then nodes[n := AddSegment(nodes[n], id, base, size, token)] else nodes
  }

  function Replay(log: seq<Entry>): (nodes: seq<Node>)
    ensures NodesOk(nodes)
  {
    if log == [] then seq(MAX_NODES, _ => BlankNode())
    else SerialStep(Replay(log[..|log| - 1]), log[|log| - 1])
  }

  /** The logged result is that of the indivisible operation at this place in the order; but a request
      that lost its link between check and lock reports -3 (no segment) instead of -2 (offline). */
  ghost predicate Explained(nodes: seq<Node>, e: Entry)
    requires NodesOk(nodes)
  {
    e.Wr? ==>
      || e.res == SerialWr(nodes, e.src, e.req).1
      || (e.res == Err(-3) && SerialWr(nodes, e.src, e.req).1 == Err(-2))
  }

  /** Segments exist only while the link is up. */
  ghost predicate SegsNeedLink(n: Node)
    requires NodeOk(n)
  {
    !n.linkUp ==> forall i :: 0 <= i < MAX_SEGMENTS ==> !n.segs[i].valid
  }

  /** RegisterSegment is called only on nodes whose link is up. */
  ghost predicate DrivesOnline(threads: nat, actions: seq<Action>)
  {
    forall i :: 0 <= i < |actions| && actions[i].RegisterSegment? && actions[i].node < MAX_NODES ==>
      Exec(threads, actions[..i]).nodes[actions[i].node].linkUp
  }

  lemma BareExecute(n: Node, r: WorkRequest)
    requires NodeOk(n)
    ensures Execute(Bare(n), r).1 == Execute(n, r).1
    ensures Execute(Bare(n), r).0 == Bare(Execute(n, r).0)
  {
    hide StoredBytes, Assign;
  }

  lemma NoSegmentFails(n: Node, r: WorkRequest)
    requires NodeOk(n) && forall i :: 0 <= i < MAX_SEGMENTS ==> !n.segs[i].valid
    ensures Execute(n, r) == (n, Err(-3))
  {
  }

  /** Every logged result is that of the indivisible operation at its place in the log. */
  ghost predicate AllExplained(log: seq<Entry>)
  {
    forall i :: 0 <= i < |log| ==> Explained(Replay(log[..i]), log[i])
  }

  /** The relation between a concurrent state and the replay of its log. */
  ghost predicate Linearised(s: Sys)
    requires SysOk(s)
  {
    Replay(s.log) == BareAll(s.nodes) && AllExplained(s.log)
  }

  lemma BareUpdate(nodes: seq<Node>, n: nat, node: Node)
    requires n < |nodes|
    ensures BareAll(nodes[n := node]) == BareAll(nodes)[n := Bare(node)]
  {
  }

  lemma LogOne(s: Sys, e: Entry, nodes: seq<Node>)
    requires SysOk(s) && Linearised(s)
    requires Explained(Replay(s.log), e)
    requires SerialStep(Replay(s.log), e) == BareAll(nodes)
    ensures Replay(s.log + [e]) == BareAll(nodes) && AllExplained(s.log + [e])
  {
    hide Explained, SerialStep;
    var log := s.log + [e];
    assert log[..|s.log|] == s.log;
    forall i | 0 <= i < |log|
      ensures Explained(Replay(log[..i]), log[i])
    {
      if i < |s.log| { assert log[..i] == s.log[..i]; }
    }
  }

  lemma ReplayNode(s: Sys, n: nat)
    requires SysOk(s) && Replay(s.log) == BareAll(s.nodes) && n < MAX_NODES
    ensures Replay(s.log)[n] == Bare(s.nodes[n])
  {
    hide Replay;
  }

  // ---------- the section under the lock, exactly ----------

  /** What thread t is about to be given under the lock. */
  function Verdict(s: Sys, t: nat): Result
    requires SysOk(s) && t < |s.threads| && s.threads[t].Checked?
  {
    Execute(s.nodes[s.threads[t].req.dstNode], s.threads[t].req).1
  }

  predicate LinkHeld(s: Sys, t: nat)
    requires SysOk(s) && t < |s.threads| && s.threads[t].Checked?
  {
    s.nodes[s.threads[t].req.dstNode].linkUp
  }

  /** The segment of the request is registered. */
  predicate Finds(s: Sys, t: nat)
    requires SysOk(s) && t < |s.threads| && s.threads[t].Checked?
  {
    var req := s.threads[t].req;
    req.segId < MAX_SEGMENTS && s.nodes[req.dstNode].segs[req.segId].valid
  }

  lemma FindsIff(s: Sys, t: nat)
    requires SysOk(s) && t < |s.threads| && s.threads[t].Checked?
    ensures Verdict(s, t) == Err(-3) <==> !Finds(s, t)
  {
    hide StoredBytes;
  }

  function LockEntry(s: Sys, t: nat): Entry
    requires SysOk(s) && t < |s.threads| && s.threads[t].Checked?
  {
    Wr(t, s.threads[t].src, s.threads[t].req, Verdict(s, t))
  }

  /** Where the replay has followed so far, the result under the lock is that of the indivisible operation
      exactly if the link is still up. */
  lemma LockExactIff(s: Sys, t: nat)
    requires SysOk(s) && Replay(s.log) == BareAll(s.nodes) && t < |s.threads| && s.threads[t].Checked?
    ensures Verdict(s, t) == SerialWr(Replay(s.log), s.threads[t].src, s.threads[t].req).1 <==> LinkHeld(s, t)
  {
    hide Replay, Execute;
    var th := s.threads[t];
    ReplayNode(s, th.req.dstNode);
    BareExecute(s.nodes[th.req.dstNode], th.req);
    NeverOffline(s.nodes[th.req.dstNode], th.req);
  }

  lemma NeverOffline(n: Node, r: WorkRequest)
    requires NodeOk(n)
    ensures Execute(n, r).1 != Err(-2)
  {
  }

  /** It is explained, with -3 for -2 allowed, exactly if the link is up or the segment is not registered. */
  lemma LockExplainedIff(s: Sys, t: nat)
    requires SysOk(s) && Replay(s.log) == BareAll(s.nodes) && t < |s.threads| && s.threads[t].Checked?
    ensures Explained(Replay(s.log), LockEntry(s, t)) <==> LinkHeld(s, t) || !Finds(s, t)
  {
    hide Replay, Execute, Finds;
    FindsIff(s, t);
    ReplayNode(s, s.threads[t].req.dstNode);
    LockExactIff(s, t);
  }

  /** No segment is found on a node whose link is down. */
  ghost predicate SoundLock(s: Sys, a: Action)
    requires SysOk(s)
  {
    a.Lock? && a.t < |s.threads| && s.threads[a.t].Checked? ==> LinkHeld(s, a.t) || !Finds(s, a.t)
  }

  lemma LockLinearised(s: Sys, t: nat)
    requires SysOk(s) && Linearised(s) && t < |s.threads| && s.threads[t].Checked? && SoundLock(s, Lock(t))
    ensures Linearised(Locked(s, t))
  {
    hide Execute, Replay, BareAll;
    var th := s.threads[t];
    var d := th.req.dstNode;
    var (node, res) := Execute(s.nodes[d], th.req);
    BareExecute(s.nodes[d], th.req);
    BareUpdate(s.nodes, d, node);
    ExecuteKeeps(s.nodes[d], th.req);
    ReplayNode(s, d);
    LockExplainedIff(s, t);
    if !s.nodes[d].linkUp { assert s.nodes[d := node] == s.nodes; }
    LogOne(s, LockEntry(s, t), s.nodes[d := node]);
  }

  lemma BeginLinearised(s: Sys, t: nat, src: nat, req: WorkRequest)
    requires SysOk(s) && Linearised(s) && t < |s.threads|
    ensures Linearised(Start(s, t, src, req))
  {
    hide Execute, Replay, BareAll, AllExplained;
    if src >= MAX_NODES || req.dstNode >= MAX_NODES {
      LogOne(s, Wr(t, src, req, Err(-1)), s.nodes);
    } else if !s.nodes[req.dstNode].linkUp {
      ReplayNode(s, req.dstNode);
      LogOne(s, Wr(t, src, req, Err(-2)), s.nodes);
    }
  }

  lemma RegistrationLinearised(s: Sys, a: Action)
    requires SysOk(s) && Linearised(s)
    requires a.Register? || a.Unregister? || a.RegisterSegment?
    ensures Linearised(Next(s, a))
  {
    hide Execute, Replay, BareAll, AllExplained;
    if a.node < MAX_NODES {
      ReplayNode(s, a.node);
      var next := Next(s, a);
      BareUpdate(s.nodes, a.node, next.nodes[a.node]);
      LogOne(s, next.log[|s.log|], next.nodes);
    }
  }

  lemma CountingLinearised(s: Sys, a: Action)
    requires SysOk(s) && Linearised(s) && (a.AddTx? || a.AddRx? || a.Collect?)
    ensures Linearised(Next(s, a))
  {
    hide Replay, AllExplained, Flits;
    var next := Next(s, a);
    assert BareAll(next.nodes) == BareAll(s.nodes);
  }

  lemma NextLinearised(s: Sys, a: Action)
    requires SysOk(s) && Linearised(s) && SoundLock(s, a)
    ensures Linearised(Next(s, a))
  {
    hide Linearised, Start, Locked, SoundLock;
    match a
    case Begin(t, src, req) =>
      if t < |s.threads| && s.threads[t].Idle? { BeginLinearised(s, t, src, req); }
    case Lock(t) =>
      if t < |s.threads| && s.threads[t].Checked? { LockLinearised(s, t); }
    case AddTx(_) => CountingLinearised(s, a);
    case AddRx(_) => CountingLinearised(s, a);
    case Collect(_) => CountingLinearised(s, a);
    case _ => RegistrationLinearised(s, a);
  }

  // ---------- whole runs ----------

  /** The log only grows. */
  lemma LogExtends(s: Sys, a: Action)
    requires SysOk(s)
    ensures s.log <= Next(s, a).log
  {
    hide Execute, CountTx, CountRx, LinkDown, AddSegment;
  }

  lemma ExplainedPrefix(log: seq<Entry>, more: seq<Entry>)
    requires log <= more && AllExplained(more)
    ensures AllExplained(log)
  {
    hide Explained;
    forall i | 0 <= i < |log|
      ensures Explained(Replay(log[..i]), log[i])
    {
      assert more[..i] == log[..i] && more[i] == log[i];
    }
  }

  lemma UnsoundLockShows(s: Sys, a: Action)
    requires SysOk(s) && Linearised(s) && !SoundLock(s, a)
    ensures !AllExplained(Next(s, a).log)
  {
    hide Execute, Replay, Explained, BareAll;
    LockExplainedIff(s, a.t);
    var log := Next(s, a).log;
    assert log[|s.log|] == LockEntry(s, a.t) && log[..|s.log|] == s.log;
  }

  ghost predicate LocksAreSound(threads: nat, actions: seq<Action>)
  {
    forall k :: 0 <= k < |actions| ==> SoundLock(Exec(threads, actions[..k]), actions[k])
  }

  lemma {:induction false} SoundnessDecides(threads: nat, actions: seq<Action>)
    ensures LocksAreSound(threads, actions) ==> Linearised(Exec(threads, actions))
    ensures !LocksAreSound(threads, actions) ==> !AllExplained(Exec(threads, actions).log)
    decreases |actions|
  {
    hide Next, SoundLock, AllExplained, LocksAreSound, BareAll;
    if actions == [] {
      NothingToExplain(threads);
    } else {
      var last := |actions| - 1;
      var before, a := actions[..last], actions[last];
      var s := Exec(threads, before);
      SoundnessDecides(threads, before);
      SoundSplit(threads, actions);
      if LocksAreSound(threads, before) {
        if SoundLock(s, a) { NextLinearised(s, a); } else { UnsoundLockShows(s, a); }
      } else if AllExplained(Next(s, a).log) {
        LogExtends(s, a);
        ExplainedPrefix(s.log, Next(s, a).log);
      }
    }
  }

  lemma SoundSplit(threads: nat, actions: seq<Action>)
    requires actions != []
    ensures var last := |actions| - 1;
      LocksAreSound(threads, actions) <==>
        LocksAreSound(threads, actions[..last]) && SoundLock(Exec(threads, actions[..last]), actions[last])
  {
    hide Exec, SoundLock;
    var last := |actions| - 1;
    var before := actions[..last];
    assert forall k :: 0 <= k < last ==> before[..k] == actions[..k] && before[k] == actions[k];
  }

  lemma NothingToExplain(threads: nat)
    ensures AllExplained([]) && BareAll(Initial(threads).nodes) == Replay([]) && LocksAreSound(threads, [])
  {
  }

  /** Linearisation, exactly. Over every interleaving, with registrations in any order: memory, links and
      segment tables equal the serial replay of the logged operations in lock order and every logged result
      is that of the indivisible operation, if and only if no request finds a segment under the lock of a
      node whose link is down. */
  lemma LinearisesIff(threads: nat, actions: seq<Action>)
    ensures Linearised(Exec(threads, actions)) <==> LocksAreSound(threads, actions)
  {
    hide Exec, LocksAreSound;
    SoundnessDecides(threads, actions);
  }

  lemma SegsNeedLinkNext(s: Sys, a: Action)
    requires SysOk(s) && forall n :: 0 <= n < MAX_NODES ==> SegsNeedLink(s.nodes[n])
    requires a.RegisterSegment? && a.node < MAX_NODES ==> s.nodes[a.node].linkUp
    ensures forall n :: 0 <= n < MAX_NODES ==> SegsNeedLink(Next(s, a).nodes[n])
  {
    hide Execute, Flits;
    if a.Lock? && a.t < |s.threads| && s.threads[a.t].Checked? {
      ExecuteKeeps(s.nodes[s.threads[a.t].req.dstNode], s.threads[a.t].req);
    }
  }

  lemma {:induction false} SegsStayOnline(threads: nat, actions: seq<Action>)
    requires DrivesOnline(threads, actions)
    ensures forall n :: 0 <= n < MAX_NODES ==> SegsNeedLink(Exec(threads, actions).nodes[n])
    decreases |actions|
  {
    hide Next, SegsNeedLink;
    if actions == [] {
      assert forall n :: 0 <= n < MAX_NODES ==> SegsNeedLink(Initial(threads).nodes[n]) by { BlankNeedsNoLink(); }
    } else {
      var last := |actions| - 1;
      assert forall i :: 0 <= i < last ==> actions[..last][..i] == actions[..i];
      SegsStayOnline(threads, actions[..last]);
      SegsNeedLinkNext(Exec(threads, actions[..last]), actions[last]);
    }
  }

  lemma BlankNeedsNoLink()
    ensures SegsNeedLink(BlankNode())
  {
  }

  /** Linearisation. In every interleaving in which segments are registered only on nodes whose link is up
      no such lock occurs, so every run is linearised. */
  lemma RunsLinearise(threads: nat, actions: seq<Action>)
    requires DrivesOnline(threads, actions)
    ensures Linearised(Exec(threads, actions))
  {
    hide Exec, Next, Linearised;
    forall k | 0 <= k < |actions|
      ensures SoundLock(Exec(threads, actions[..k]), actions[k])
    {
      assert forall i :: 0 <= i < k ==> actions[..k][..i] == actions[..i];
      SegsStayOnline(threads, actions[..k]);
      OnlineIsSound(Exec(threads, actions[..k]), actions[k]);
    }
    LinearisesIff(threads, actions);
  }

  lemma OnlineIsSound(s: Sys, a: Action)
    requires SysOk(s) && forall n :: 0 <= n < MAX_NODES ==> SegsNeedLink(s.nodes[n])
    ensures SoundLock(s, a)
  {
    hide Execute;
    if a.Lock? && a.t < |s.threads| && s.threads[a.t].Checked? && !LinkHeld(s, a.t) {
      NoSegmentFails(s.nodes[s.threads[a.t].req.dstNode], s.threads[a.t].req);
    }
  }

  // ---------- every call has exactly one place in the order ----------

  predicate Of(e: Entry, t: nat)
  {
    e.Wr? && e.t == t
  }

  /** Thread t has made no entry since the log had length `since`. */
  predicate NoEntry(log: seq<Entry>, since: nat, t: nat)
  {
    since <= |log| && forall i :: since <= i < |log| ==> !Of(log[i], t)
  }

  /** e is the only entry thread t has made since the log had length `since`. */
  ghost predicate OneEntry(log: seq<Entry>, since: nat, t: nat, e: Entry)
  {
    exists i: nat :: since <= i < |log| && log[i] == e && NoEntry(log[..i], since, t) && NoEntry(log, i + 1, t)
  }

  ghost predicate Placed(log: seq<Entry>, t: nat, th: Thread)
  {
    match th
    case Idle => true
    case Checked(_, _, since) => NoEntry(log, since, t)
    case Executed(src, req, since, out) => OneEntry(log, since, t, Wr(t, src, req, Ok(out)))
    case Sent(src, req, since, out) => OneEntry(log, since, t, Wr(t, src, req, Ok(out)))
    case Finished(src, req, since, res) => OneEntry(log, since, t, Wr(t, src, req, res))
  }

  lemma NoEntryExtends(log: seq<Entry>, since: nat, t: nat, e: Entry)
    requires NoEntry(log, since, t) && !Of(e, t)
    ensures NoEntry(log + [e], since, t)
  {
  }

  lemma PlacedExtends(log: seq<Entry>, t: nat, th: Thread, e: Entry)
    requires Placed(log, t, th) && !Of(e, t)
    ensures Placed(log + [e], t, th)
  {
    hide NoEntry;
    match th
    case Idle =>
    case Checked(_, _, since) => NoEntryExtends(log, since, t, e);
    case Executed(src, req, since, out) => OneEntryExtends(log, since, t, Wr(t, src, req, Ok(out)), e);
    case Sent(src, req, since, out) => OneEntryExtends(log, since, t, Wr(t, src, req, Ok(out)), e);
    case Finished(src, req, since, res) => OneEntryExtends(log, since, t, Wr(t, src, req, res), e);
  }

  lemma OneEntryExtends(log: seq<Entry>, since: nat, t: nat, own: Entry, e: Entry)
    requires OneEntry(log, since, t, own) && !Of(e, t)
    ensures OneEntry(log + [e], since, t, own)
  {
    hide NoEntry;
    var i: nat :| since <= i < |log| && log[i] == own && NoEntry(log[..i], since, t) && NoEntry(log, i + 1, t);
    NoEntryExtends(log, i + 1, t, e);
    assert (log + [e])[..i] == log[..i] && (log + [e])[i] == own;
  }

  lemma OneEntryMade(log: seq<Entry>, since: nat, t: nat, e: Entry)
    requires NoEntry(log, since, t)
    ensures OneEntry(log + [e], since, t, e)
  {
    assert (log + [e])[..|log|] == log;
    assert NoEntry(log + [e], |log| + 1, t);
  }

  ghost predicate AllPlaced(s: Sys)
  {
    forall t :: 0 <= t < |s.threads| ==> Placed(s.log, t, s.threads[t])
  }

  /** Only the acting thread changes, and an entry is the acting thread's own or a registration's. */
  lemma OthersKeepPlace(s: Sys, next: Sys, actor: nat, e: Entry)
    requires AllPlaced(s) && |next.threads| == |s.threads|
    requires next.log == s.log + [e] && (e.Wr? ==> e.t == actor)
    requires forall t :: 0 <= t < |s.threads| && t != actor ==> next.threads[t] == s.threads[t]
    requires actor < |s.threads| ==> Placed(next.log, actor, next.threads[actor])
    ensures AllPlaced(next)
  {
    hide Placed;
    forall t | 0 <= t < |next.threads|
      ensures Placed(next.log, t, next.threads[t])
    {
      if t != actor { PlacedExtends(s.log, t, s.threads[t], e); }
    }
  }

  lemma NextPlaces(s: Sys, a: Action)
    requires SysOk(s) && AllPlaced(s)
    ensures AllPlaced(Next(s, a))
  {
    hide Execute, CountTx, CountRx, LinkUp, LinkDown, AddSegment, OneEntry, NoEntry;
    var next := Next(s, a);
    match a
    case Begin(t, src, req) =>
      if t < |s.threads| && s.threads[t].Idle? {
        assert NoEntry(s.log, |s.log|, t) by { EmptySpan(s.log, t); }
        if |next.log| > |s.log| {
          OneEntryMade(s.log, |s.log|, t, next.log[|s.log|]);
          OthersKeepPlace(s, next, t, next.log[|s.log|]);
        }
      }
    case Lock(t) =>
      if t < |s.threads| && s.threads[t].Checked? {
        OneEntryMade(s.log, s.threads[t].since, t, next.log[|s.log|]);
        OthersKeepPlace(s, next, t, next.log[|s.log|]);
      }
    case AddTx(_) =>
    case AddRx(_) =>
    case Collect(_) =>
    case _ => if next.log != s.log { OthersKeepPlace(s, next, |s.threads|, next.log[|s.log|]); }
  }

  lemma EmptySpan(log: seq<Entry>, t: nat)
    ensures NoEntry(log, |log|, t)
  {
  }

  /** Every call that has its result has exactly one entry in the log since it began, and that entry
      bears the result; a call still before its lock has none. So the serial order respects real time. */
  lemma {:induction false} CallsArePlaced(threads: nat, actions: seq<Action>)
    ensures AllPlaced(Exec(threads, actions))
    decreases |actions|
  {
    hide Next, Placed;
    if actions == [] {
      assert AllPlaced(Initial(threads)) by { IdlePlaced(); }
    } else {
      CallsArePlaced(threads, actions[..|actions| - 1]);
      NextPlaces(Exec(threads, actions[..|actions| - 1]), actions[|actions| - 1]);
    }
  }

  lemma IdlePlaced()
    ensures forall t: nat :: Placed([], t, Idle)
  {
  }

  // ---------- after a node has gone ----------

  /** No segment of the node is valid. */
  ghost predicate Silenced(s: Sys, n: nat)
    requires SysOk(s) && n < MAX_NODES
  {
    forall i :: 0 <= i < MAX_SEGMENTS ==> !s.nodes[n].segs[i].valid
  }

  lemma UnregisterSilences(s: Sys, n: nat)
    requires SysOk(s) && n < MAX_NODES
    ensures Silenced(Next(s, Unregister(n)), n)
  {
  }

  lemma SilencedStep(s: Sys, a: Action, n: nat)
    requires SysOk(s) && n < MAX_NODES && Silenced(s, n)
    requires a.RegisterSegment? ==> a.node != n
    ensures Silenced(Next(s, a), n) && Next(s, a).nodes[n].mem == s.nodes[n].mem
  {
    hide Execute, Flits;
    if a.Lock? && a.t < |s.threads| && s.threads[a.t].Checked? {
      var th := s.threads[a.t];
      if th.req.dstNode == n { NoSegmentFails(s.nodes[n], th.req); }
    }
  }

  /** No byte of a node changes between its unregistration and its next segment registration, whatever
      threads had passed the link check before. */
  lemma {:induction false} MemoryFrozenAfterUnregister(threads: nat, before: seq<Action>, n: nat, after: seq<Action>)
    requires n < MAX_NODES
    requires forall i :: 0 <= i < |after| && after[i].RegisterSegment? ==> after[i].node != n
    ensures var mid := Exec(threads, before + [Unregister(n)]);
      var end := Exec(threads, before + [Unregister(n)] + after);
      Silenced(end, n) && end.nodes[n].mem == mid.nodes[n].mem
    decreases |after|
  {
    hide Next, Exec, Silenced;
    var start := before + [Unregister(n)];
    if after == [] {
      assert start + after == start;
      Unroll(threads, before, Unregister(n));
      UnregisterSilences(Exec(threads, before), n);
    } else {
      var last := |after| - 1;
      MemoryFrozenAfterUnregister(threads, before, n, after[..last]);
      assert start + after == (start + after[..last]) + [after[last]];
      Unroll(threads, start + after[..last], after[last]);
      SilencedStep(Exec(threads, start + after[..last]), after[last], n);
    }
  }

  // ---------- where the serial order shows through ----------

  const PROBE: WorkRequest := Request(OP_WRITE, 0, 1, 0, 1, 0, 1, [7])

  lemma Unroll2(threads: nat, actions: seq<Action>, a: Action, b: Action)
    ensures Exec(threads, actions + [a, b]) == Next(Next(Exec(threads, actions), a), b)
  {
    hide Next;
    assert actions + [a, b] == (actions + [a]) + [b];
    Unroll(threads, actions, a);
    Unroll(threads, actions + [a], b);
  }

  lemma FromStart(threads: nat)
    ensures Exec(threads, []) == Initial(threads)
  {
  }

  /** Node 1 online with segment 1; a request for it has passed the link check. */
  ghost predicate Probing(s: Sys)
    requires SysOk(s)
  {
    && s.threads == [Checked(2, PROBE, 2)] && s.log == [Up(1), Seg(1, 1, 0, 4096, 0)]
    && s.nodes == Initial(1).nodes[1 := AddSegment(LinkUp(BlankNode()), 1, 0, 4096, 0)]
  }

  lemma ProbingReached()
    ensures Probing(Exec(1, [Register(1), RegisterSegment(1, 1, 0, 4096, 0)] + [Begin(0, 2, PROBE)]))
  {
    hide Exec;
    FromStart(1);
    Unroll2(1, [], Register(1), RegisterSegment(1, 1, 0, 4096, 0));
    assert [] + [Register(1), RegisterSegment(1, 1, 0, 4096, 0)] == [Register(1), RegisterSegment(1, 1, 0, 4096, 0)];
    Unroll(1, [Register(1), RegisterSegment(1, 1, 0, 4096, 0)], Begin(0, 2, PROBE));
  }

  lemma ProbeLands(n: Node)
    requires NodeOk(n) && n.segs[1] == Segment(0, 0, 4096, true)
    ensures Execute(n, PROBE).1 == Ok([]) && Execute(n, PROBE).0.mem[0] == 7
    ensures Execute(n, PROBE).0.linkUp == n.linkUp
  {
    assert !IsCipFlagged(0);
  }

  /** A request overtaken by an unregistration reports -3. At the place before the unregistration it would
      succeed, after it report -2: the code is that of neither serial order. */
  lemma RaceChangesErrorCode()
    ensures var before := [Register(1), RegisterSegment(1, 1, 0, 4096, 0)] + [Begin(0, 2, PROBE)];
      var s := Exec(1, before + [Unregister(1), Lock(0)]);
      && s.threads == [Finished(2, PROBE, 2, Err(-3))]
      && s.log == [Up(1), Seg(1, 1, 0, 4096, 0), Down(1), Wr(0, 2, PROBE, Err(-3))]
      && SerialWr(Replay(s.log[..2]), 2, PROBE).1 == Ok([])
      && SerialWr(Replay(s.log[..3]), 2, PROBE).1 == Err(-2)
  {
    hide Exec, Execute, Replay, BareAll, SerialWr, Linearised;
    ProbingReached();
    var before := [Register(1), RegisterSegment(1, 1, 0, 4096, 0)] + [Begin(0, 2, PROBE)];
    var s := Exec(1, before);
    Unroll2(1, before, Unregister(1), Lock(0));
    UnregisterSilences(s, 1);
    NoSegmentFails(Next(s, Unregister(1)).nodes[1], PROBE);
    SerialPlaces(s.log, s.log + [Down(1)]);
    var log := s.log + [Down(1), Wr(0, 2, PROBE, Err(-3))];
    var e := Exec(1, before + [Unregister(1), Lock(0)]);
    assert e.log == log;
    assert e.log[..2] == s.log && e.log[..3] == s.log + [Down(1)];
  }

  lemma SerialPlaces(early: seq<Entry>, late: seq<Entry>)
    requires early == [Up(1), Seg(1, 1, 0, 4096, 0)] && late == early + [Down(1)]
    ensures SerialWr(Replay(early), 2, PROBE).1 == Ok([])
    ensures SerialWr(Replay(late), 2, PROBE).1 == Err(-2)
  {
    hide Execute;
    assert late[..2] == early && early[..1] == [Up(1)] && early[..1][..0] == [];
    assert Replay(early[..1])[1] == LinkUp(BlankNode());
    assert Replay(early)[1] == AddSegment(LinkUp(BlankNode()), 1, 0, 4096, 0);
    ProbeLands(Replay(early)[1]);
  }

  /** A segment registered while the link is down opens the node again: a request that passed the link
      check before then writes to an offline node, and the run is not linearised. */
  lemma OfflineRegistrationIsNotSerial()
    ensures var before := [Register(1), RegisterSegment(1, 1, 0, 4096, 0)] + [Begin(0, 2, PROBE)];
      var run := before + [Unregister(1), RegisterSegment(1, 1, 0, 4096, 0)] + [Lock(0)];
      var s := Exec(1, run);
      && !s.nodes[1].linkUp && s.nodes[1].mem[0] == 7 && !Linearised(s)
  {
    hide Exec, Execute, Linearised;
    ProbingReached();
    var before := [Register(1), RegisterSegment(1, 1, 0, 4096, 0)] + [Begin(0, 2, PROBE)];
    var late := before + [Unregister(1), RegisterSegment(1, 1, 0, 4096, 0)];
    Unroll2(1, before, Unregister(1), RegisterSegment(1, 1, 0, 4096, 0));
    Unroll(1, late, Lock(0));
    var s := Exec(1, late);
    assert s.nodes[1].segs[1] == Segment(0, 0, 4096, true) && !s.nodes[1].linkUp;
    ProbeLands(s.nodes[1]);
    assert !LocksAreSound(1, late + [Lock(0)]) by {
      assert (late + [Lock(0)])[..|late|] == late && (late + [Lock(0)])[|late|] == Lock(0);
      assert !SoundLock(s, Lock(0));
    }
    LinearisesIff(1, late + [Lock(0)]);
  }
}
