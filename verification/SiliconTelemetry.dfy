// The flit and byte counters over all interleavings: every request granted under the destination's lock
// is counted once at its source and once at its destination, so that over any set of nodes the counters
// show what these nodes were granted to send and receive, and the totals differ by exactly the requests
// between the two telemetry sections.
module SiliconTelemetry {
  import opened Arith
  import opened Silicon
  import opened SiliconThreads

  datatype Unit = InFlits | InBytes

  datatype Side = Tx | Rx

  function Amount(req: WorkRequest, u: Unit): int
  {
    if u.InFlits? then Flits(req.length) else req.length
  }

  function Counter(n: Node, u: Unit, side: Side): int
  {
    if side.Tx? then (if u.InFlits? then n.txFlits else n.txBytes)
    else if u.InFlits? then n.rxFlits else n.rxBytes
  }

  /** Transmitted traffic belongs to the source of a request, received traffic to its destination. */
  function Party(src: nat, req: WorkRequest, side: Side): nat
  {
    if side.Tx? then src else req.dstNode
  }

  /** What a thread has been granted and has not yet counted on this side, for one of these nodes. */
  function Owed(th: Thread, u: Unit, side: Side, at: set<nat>): int
  {
    if (th.Executed? || (th.Sent? && side.Rx?)) && Party(th.src, th.req, side) in at then Amount(th.req, u) else 0
  }

  /** What a thread has counted at the source and not yet at the destination. */
  function InFlight(th: Thread, u: Unit): int
  {
    if th.Sent? then Amount(th.req, u) else 0
  }

  function Counters(nodes: seq<Node>, u: Unit, side: Side, at: set<nat>): (r: seq<int>)
    ensures |r| == |nodes|
  {
    seq(|nodes|, i requires 0 <= i < |nodes| => if i in at then Counter(nodes[i], u, side) else 0)
  }

  function Owing(threads: seq<Thread>, u: Unit, side: Side, at: set<nat>): (r: seq<int>)
    ensures |r| == |threads|
  {
    seq(|threads|, t requires 0 <= t < |threads| => Owed(threads[t], u, side, at))
  }

  function Flying(threads: seq<Thread>, u: Unit): (r: seq<int>)
    ensures |r| == |threads|
  {
    seq(|threads|, t requires 0 <= t < |threads| => InFlight(threads[t], u))
  }

  function Grant(e: Entry, u: Unit, side: Side, at: set<nat>): int
  {
    if e.Wr? && e.res.Ok? && Party(e.src, e.req, side) in at then Amount(e.req, u) else 0
  }

  function Granted(log: seq<Entry>, u: Unit, side: Side, at: set<nat>): (r: seq<int>)
    ensures |r| == |log|
  {
    seq(|log|, i requires 0 <= i < |log| => Grant(log[i], u, side, at))
  }

  // ---------- effect of one change on the three totals ----------

  lemma NodeUpdate(nodes: seq<Node>, n: nat, node: Node, u: Unit, side: Side, at: set<nat>)
    requires n < |nodes|
    ensures Sum(Counters(nodes[n := node], u, side, at)) == Sum(Counters(nodes, u, side, at))
      + if n in at then Counter(node, u, side) - Counter(nodes[n], u, side) else 0
  {
    var next := if n in at then Counter(node, u, side) else 0;
    SumUpdate(Counters(nodes, u, side, at), n, next);
    assert Counters(nodes[n := node], u, side, at) == Counters(nodes, u, side, at)[n := next];
  }

  lemma ThreadUpdate(threads: seq<Thread>, t: nat, th: Thread, u: Unit, side: Side, at: set<nat>)
    requires t < |threads|
    ensures Sum(Owing(threads[t := th], u, side, at))
      == Sum(Owing(threads, u, side, at)) - Owed(threads[t], u, side, at) + Owed(th, u, side, at)
  {
    SumUpdate(Owing(threads, u, side, at), t, Owed(th, u, side, at));
    assert Owing(threads[t := th], u, side, at) == Owing(threads, u, side, at)[t := Owed(th, u, side, at)];
  }

  lemma EntryAppend(log: seq<Entry>, e: Entry, u: Unit, side: Side, at: set<nat>)
    ensures Sum(Granted(log + [e], u, side, at)) == Sum(Granted(log, u, side, at)) + Grant(e, u, side, at)
  {
    SumAppend(Granted(log, u, side, at), Grant(e, u, side, at));
    assert Granted(log + [e], u, side, at) == Granted(log, u, side, at) + [Grant(e, u, side, at)];
  }

  function Balance(s: Sys, u: Unit, side: Side, at: set<nat>): int
  {
    Sum(Counters(s.nodes, u, side, at)) + Sum(Owing(s.threads, u, side, at)) - Sum(Granted(s.log, u, side, at))
  }

  /** Counters and debts together make up everything granted, modulo the counters' 64 bits. */
  ghost predicate Accounted(s: Sys, u: Unit, side: Side, at: set<nat>)
  {
    Balance(s, u, side, at) % U64 == 0
  }

  lemma Shift(balance: int, change: int)
    requires balance % U64 == 0 && change % U64 == 0
    ensures (balance + change) % U64 == 0
  {
  }

  lemma Wrapped(x: nat, amount: nat)
    ensures ((x + amount) % U64 - x - amount) % U64 == 0
  {
  }

  lemma LockAccounts(s: Sys, t: nat, u: Unit, side: Side, at: set<nat>)
    requires SysOk(s) && t < |s.threads| && s.threads[t].Checked? && Accounted(s, u, side, at)
    ensures Accounted(Locked(s, t), u, side, at)
  {
    hide Sum, Counters, Owing, Granted, Amount;
    var next := Locked(s, t);
    var d := s.threads[t].req.dstNode;
    ExecuteKeeps(s.nodes[d], s.threads[t].req);
    NodeUpdate(s.nodes, d, next.nodes[d], u, side, at);
    ThreadUpdate(s.threads, t, next.threads[t], u, side, at);
    EntryAppend(s.log, next.log[|s.log|], u, side, at);
  }

  lemma BeginAccounts(s: Sys, t: nat, src: nat, req: WorkRequest, u: Unit, side: Side, at: set<nat>)
    requires SysOk(s) && t < |s.threads| && s.threads[t].Idle? && Accounted(s, u, side, at)
    ensures Accounted(Start(s, t, src, req), u, side, at)
  {
    hide Sum, Counters, Owing, Granted, Amount;
    var next := Start(s, t, src, req);
    ThreadUpdate(s.threads, t, next.threads[t], u, side, at);
    if |next.log| > |s.log| { EntryAppend(s.log, next.log[|s.log|], u, side, at); }
  }

  lemma CountingAccounts(s: Sys, a: Action, u: Unit, side: Side, at: set<nat>)
    requires SysOk(s) && Accounted(s, u, side, at)
    requires a.AddTx? || a.AddRx?
    ensures Accounted(Next(s, a), u, side, at)
  {
    hide Sum, Counters, Owing, Granted, Flits;
    var next := Next(s, a);
    if a.t < |s.threads| && ((a.AddTx? && s.threads[a.t].Executed?) || (a.AddRx? && s.threads[a.t].Sent?)) {
      var th := s.threads[a.t];
      var n := if a.AddTx? then th.src else th.req.dstNode;
      NodeUpdate(s.nodes, n, next.nodes[n], u, side, at);
      ThreadUpdate(s.threads, a.t, next.threads[a.t], u, side, at);
      Wrapped(Counter(s.nodes[n], u, side), Amount(th.req, u));
      var counted := if n in at then Counter(next.nodes[n], u, side) - Counter(s.nodes[n], u, side) else 0;
      Shift(Balance(s, u, side, at), counted + Owed(next.threads[a.t], u, side, at) - Owed(th, u, side, at));
    }
  }

  lemma RegistrationAccounts(s: Sys, a: Action, u: Unit, side: Side, at: set<nat>)
    requires SysOk(s) && Accounted(s, u, side, at)
    requires a.Register? || a.Unregister? || a.RegisterSegment?
    ensures Accounted(Next(s, a), u, side, at)
  {
    hide Sum, Counters, Owing, Granted;
    if a.node < MAX_NODES {
      var next := Next(s, a);
      NodeUpdate(s.nodes, a.node, next.nodes[a.node], u, side, at);
      EntryAppend(s.log, next.log[|s.log|], u, side, at);
    }
  }

  lemma NextAccounts(s: Sys, a: Action, u: Unit, side: Side, at: set<nat>)
    requires SysOk(s) && Accounted(s, u, side, at)
    ensures Accounted(Next(s, a), u, side, at)
  {
    hide Accounted, Start, Locked;
    match a
    case Begin(t, src, req) =>
      if t < |s.threads| && s.threads[t].Idle? { BeginAccounts(s, t, src, req, u, side, at); }
    case Lock(t) =>
      if t < |s.threads| && s.threads[t].Checked? { LockAccounts(s, t, u, side, at); }
    case AddTx(_) => CountingAccounts(s, a, u, side, at);
    case AddRx(_) => CountingAccounts(s, a, u, side, at);
    case Collect(t) =>
      if t < |s.threads| && s.threads[t].Finished? { CollectAccounts(s, t, u, side, at); }
    case _ => RegistrationAccounts(s, a, u, side, at);
  }

  lemma CollectAccounts(s: Sys, t: nat, u: Unit, side: Side, at: set<nat>)
    requires t < |s.threads| && s.threads[t].Finished? && Accounted(s, u, side, at)
    ensures Accounted(s.(threads := s.threads[t := Idle]), u, side, at)
  {
    hide Sum, Counters, Owing, Granted;
    ThreadUpdate(s.threads, t, Idle, u, side, at);
  }

  /** In every reachable state, for every set of nodes, on either side and in either unit, what these nodes'
      counters show and what running calls still owe them is what all requests granted from them, or to them,
      amount to. */
  lemma {:induction false} EveryGrantCounted(threads: nat, actions: seq<Action>, u: Unit, side: Side, at: set<nat>)
    ensures Accounted(Exec(threads, actions), u, side, at)
    decreases |actions|
  {
    hide Next;
    if actions == [] {
      SumOfZeros(Counters(Initial(threads).nodes, u, side, at));
      SumOfZeros(Owing(Initial(threads).threads, u, side, at));
    } else {
      EveryGrantCounted(threads, actions[..|actions| - 1], u, side, at);
      hide Accounted;
      NextAccounts(Exec(threads, actions[..|actions| - 1]), actions[|actions| - 1], u, side, at);
    }
  }

  // ---------- all nodes together ----------

  predicate IsNode(n: nat)
  {
    n < MAX_NODES
  }

  function Everywhere(): (at: set<nat>)
    ensures forall n: nat :: n in at <==> n < MAX_NODES
  {
    set n: nat | n < MAX_NODES && IsNode(n)
  }

  predicate Placed(e: Entry)
  {
    e.Wr? && e.res.Ok? ==> e.src < MAX_NODES && e.req.dstNode < MAX_NODES
  }

  predicate AllPlaced(log: seq<Entry>)
  {
    forall i :: 0 <= i < |log| ==> Placed(log[i])
  }

  lemma NextPlaced(s: Sys, a: Action)
    requires SysOk(s) && AllPlaced(s.log)
    ensures AllPlaced(Next(s, a).log)
  {
    hide Execute, LinkDown, AddSegment, CountTx, CountRx;
  }

  /** Only requests between existing nodes are granted. */
  lemma {:induction false} GrantsPlaced(threads: nat, actions: seq<Action>)
    ensures AllPlaced(Exec(threads, actions).log)
    decreases |actions|
  {
    hide Next;
    if actions != [] {
      GrantsPlaced(threads, actions[..|actions| - 1]);
      NextPlaced(Exec(threads, actions[..|actions| - 1]), actions[|actions| - 1]);
    }
  }

  lemma SamePlaces(s: Sys, u: Unit)
    requires SysOk(s) && AllPlaced(s.log)
    ensures Granted(s.log, u, Tx, Everywhere()) == Granted(s.log, u, Rx, Everywhere())
    ensures Sum(Flying(s.threads, u))
      == Sum(Owing(s.threads, u, Rx, Everywhere())) - Sum(Owing(s.threads, u, Tx, Everywhere()))
  {
    hide Amount;
    forall i | 0 <= i < |s.log|
      ensures Granted(s.log, u, Tx, Everywhere())[i] == Granted(s.log, u, Rx, Everywhere())[i]
    {
      assert Placed(s.log[i]);
    }
    SumDifference(Owing(s.threads, u, Rx, Everywhere()), Owing(s.threads, u, Tx, Everywhere()), Flying(s.threads, u));
  }

  /** Conservation. At every interleaving point the transmitted total minus the received total is what
      requests between their two telemetry sections amount to, modulo 2^64. */
  lemma TrafficConserved(threads: nat, actions: seq<Action>, u: Unit)
    ensures var s := Exec(threads, actions);
      var sent, received := Sum(Counters(s.nodes, u, Tx, Everywhere())), Sum(Counters(s.nodes, u, Rx, Everywhere()));
      (sent - received - Sum(Flying(s.threads, u))) % U64 == 0
  {
    hide Exec, Sum, Counters, Owing, Granted, Flying;
    var s := Exec(threads, actions);
    EveryGrantCounted(threads, actions, u, Tx, Everywhere());
    EveryGrantCounted(threads, actions, u, Rx, Everywhere());
    GrantsPlaced(threads, actions);
    SamePlaces(s, u);
    ModSub(Balance(s, u, Tx, Everywhere()), Balance(s, u, Rx, Everywhere()));
  }

  lemma ModSub(x: int, y: int)
    requires x % U64 == 0 && y % U64 == 0
    ensures (x - y) % U64 == 0
  {
  }

  /** With no request between its telemetry sections the two totals agree, exactly while they fit the
      counters' width. */
  lemma QuietTotalsAgree(threads: nat, actions: seq<Action>, u: Unit)
    requires forall t :: 0 <= t < |Exec(threads, actions).threads| ==> !Exec(threads, actions).threads[t].Sent?
    ensures var s := Exec(threads, actions);
      var sent, received := Sum(Counters(s.nodes, u, Tx, Everywhere())), Sum(Counters(s.nodes, u, Rx, Everywhere()));
      && (sent - received) % U64 == 0
      && (0 <= sent < U64 && 0 <= received < U64 ==> sent == received)
  {
    hide Exec, Sum, Counters;
    var s := Exec(threads, actions);
    TrafficConserved(threads, actions, u);
    SumOfZeros(Flying(s.threads, u));
  }
}
