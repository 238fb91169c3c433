// The fabric and its guests as one step machine: FIFO byte streams carry packets both ways, the
// fabric handles one packet of a connection at a time, and any number of threads of a guest may be
// inside send_sync. Between the writes of a handler and its answer other steps may happen.
module Network {
  import opened Bytes
  import opened Port
  import opened Fabric
  import opened FabricReplies
  import opened Device
  import FabricLog
  import Router
  import Cip

  /** One guest and its connection. `issued`: numbers handed out by _get_seq and not yet used;
      `waiting`: calls inside send_sync; `answer`: what the fabric's handler still has to write.
      `asked` and `answered` record what was sent and how the fabric answered. */
  datatype Link = Link(guest: Guest, issued: set<nat>, waiting: set<nat>, up: seq<Pkt>, answer: Option<Pkt>,
                       down: seq<Pkt>, asked: map<nat, Pkt>, answered: map<nat, Pkt>)

  datatype Net = Net(fabric: State, links: map<nat, Link>)

  datatype Action =
    | Connect(node: nat)
    | NewSeq(node: nat)
    | Send(node: nat, seqNum: nat, body: Pkt)
    | Take(node: nat)
    | Answering(node: nat)
    | Arrive(node: nat)
    | Return(node: nat, seqNum: nat)
    | TimeOut(node: nat, seqNum: nat)
    | Disconnect(node: nat)

  function RegisterPacket(n: nat): Pkt
  {
    Packet(OP_REG_NODE, n, 0, 0, 0, 0, NEW_GUEST_SEQ, Zeros(16), NO_META, [])
  }

  /** The constructor of a guest: the first number goes to the registration of its node. */
  function NewLink(n: nat): Link
  {
    Link(Guest(NEW_GUEST_SEQ + 1, map[NEW_GUEST_SEQ := None], Zeros(MEMORY_SIZE)), {}, {NEW_GUEST_SEQ},
         [RegisterPacket(n)], None, [], map[NEW_GUEST_SEQ := RegisterPacket(n)], map[])
  }

  function Sent(l: Link, s: nat, p: Pkt): Link
  {
    l.(guest := Await(l.guest, s), issued := l.issued - {s}, waiting := l.waiting + {s}, up := l.up + [p],
       asked := l.asked[s := p])
  }

  function Forwarded(l: Link, m: nat, forwards: map<nat, Pkt>): Link
  {
    if m in forwards then l.(down := l.down + [forwards[m]]) else l
  }

  function Taken(l: Link, a: Answer): Link
    requires l.up != []
  {
    var k := l.(up := l.up[1..]);
    if a.Reply? then k.(answer := Some(a.pkt), answered := k.answered[l.up[0].seqNum := a.pkt]) else k
  }

  function Closed(c: Cip.Crypto, net: Net, n: nat): Net
  {
    Net(Fabric.Step(c, net.fabric, Detach(n)), net.links - {n})
  }

  function TakeStep(c: Cip.Crypto, net: Net, n: nat): Net
    requires n in net.links && net.links[n].up != []
  {
    var out := Process(c, net.fabric, net.links[n].up[0]);
    var links := net.links[n := Taken(net.links[n], out.answer)];
    var next := Net(out.state, map m | m in links :: Forwarded(links[m], m, out.forwards));
    if out.answer.Raises? then Closed(c, next, n) else next
  }

  /** An action that is not enabled does nothing, so every list of actions is a run. */
  function Next(c: Cip.Crypto, net: Net, a: Action): Net
  {
    var n := a.node;
    if a.Connect? then (if n in net.links then net else net.(links := net.links[n := NewLink(n)]))
    else if n !in net.links then net
    else
      var l := net.links[n];
      match a
      case NewSeq(_) =>
        var s := l.guest.nextSeq;
        net.(links := net.links[n := l.(guest := l.guest.(nextSeq := s + 1), issued := l.issued + {s})])
      case Send(_, s, body) =>
        if s !in l.issued then net
        else net.(links := net.links[n := Sent(l, s, body.(src := n, seqNum := s))])
      case Take(_) =>
        if l.answer.Some? || l.up == [] then net else TakeStep(c, net, n)
      case Answering(_) =>
        if l.answer.None? then net
        else net.(links := net.links[n := l.(answer := None, down := l.down + [l.answer.value])])
      case Arrive(_) =>
        if l.down == [] then net
        else net.(links := net.links[n := l.(guest := Deliver(l.guest, l.down[0]), down := l.down[1..])])
      case Return(_, s) =>
        if !HasReply(l.guest, s) then net
        else net.(links := net.links[n := l.(guest := Forget(l.guest, s), waiting := l.waiting - {s})])
      case TimeOut(_, s) =>
        if s !in l.guest.pending || HasReply(l.guest, s) then net
        else net.(links := net.links[n := l.(guest := Forget(l.guest, s), waiting := l.waiting - {s})])
      case Disconnect(_) => Closed(c, net, n)
  }

  const EMPTY_NET: Net := Net(START, map[])

  function Exec(c: Cip.Crypto, actions: seq<Action>): Net
  {
    if actions == [] then EMPTY_NET
    else Next(c, Exec(c, actions[..|actions| - 1]), actions[|actions| - 1])
  }

  // ---------- how calls and connections end ----------

  /** A call returns only once its slot holds a reply, and times out only while it holds none; either way the slot
      is gone. */
  lemma CallsEnd(c: Cip.Crypto, net: Net, n: nat, s: nat)
    requires n in net.links
    ensures var g := net.links[n].guest;
      var arrived, open := s in g.pending && g.pending[s].Some?, s in g.pending && g.pending[s].None?;
      var returned, timedOut := Next(c, net, Return(n, s)), Next(c, net, TimeOut(n, s));
      && returned.fabric == net.fabric && timedOut.fabric == net.fabric
      && (if arrived then n in returned.links && returned.links[n].guest == g.(pending := g.pending - {s})
          else returned == net)
      && (if open then n in timedOut.links && timedOut.links[n].guest == g.(pending := g.pending - {s})
          else timedOut == net)
  {
  }

  /** A handler that raises ends its connection: the node leaves the fabric and its segments the table. */
  lemma RaisingDisconnects(c: Cip.Crypto, net: Net, n: nat)
    requires n in net.links && net.links[n].answer.None? && net.links[n].up != []
    requires Process(c, net.fabric, net.links[n].up[0]).answer.Raises?
    ensures var next := Next(c, net, Take(n));
      n !in next.links && n !in next.fabric.mem && next.links.Keys == net.links.Keys - {n}
  {
    hide Process, Router.Apply;
  }

  // ---------- replies belong to their requests ----------

  /** The packet is what the fabric answered to this request in some state. */
  ghost predicate AnswerTo(c: Cip.Crypto, req: Pkt, resp: Pkt)
  {
    exists f: State :: Process(c, f, req).answer == Reply(resp)
  }

  /** Guests send no packet that looks like a response. */
  predicate AsksOnly(a: Action)
  {
    a.Send? ==> !IsResponse(a.body.opcode)
  }

  ghost predicate NumbersUnique(l: Link)
  {
    && (forall s :: s in l.issued ==> s < l.guest.nextSeq && s !in l.asked)
    && (forall s :: s in l.asked ==> s < l.guest.nextSeq && l.asked[s].seqNum == s && !IsResponse(l.asked[s].opcode))
    && l.guest.pending.Keys == l.waiting && l.waiting <= l.asked.Keys
    && (forall i :: 0 <= i < |l.up| ==>
          l.up[i].seqNum in l.asked && l.asked[l.up[i].seqNum] == l.up[i] && l.up[i].seqNum !in l.answered)
    && (forall i, j :: 0 <= i < j < |l.up| ==> l.up[i].seqNum != l.up[j].seqNum)
  }

  ghost predicate RepliesInFlight(l: Link)
  {
    && (l.answer.Some? ==> IsAnswerOf(l, l.answer.value))
    && (forall i :: 0 <= i < |l.down| && IsResponse(l.down[i].opcode) ==> IsAnswerOf(l, l.down[i]))
    && (forall s :: HasReply(l.guest, s) ==>
          IsAnswerOf(l, l.guest.pending[s].value) && l.guest.pending[s].value.seqNum == s)
  }

  predicate IsAnswerOf(l: Link, p: Pkt)
  {
    p.seqNum in l.answered && l.answered[p.seqNum] == p
  }

  /** An answer the guest still waits for is in its slot, on the wire, or about to be written. */
  ghost predicate NoneLost(l: Link)
  {
    forall s :: s in l.answered && s in l.waiting ==>
      HasReply(l.guest, s) || l.answer == Some(l.answered[s]) || l.answered[s] in l.down
  }

  ghost predicate AnswersGenuine(c: Cip.Crypto, l: Link)
  {
    forall s :: s in l.answered ==>
      && s in l.asked && AnswerTo(c, l.asked[s], l.answered[s])
      && l.answered[s].seqNum == s && IsResponse(l.answered[s].opcode)
  }

  ghost predicate Orderly(c: Cip.Crypto, l: Link)
  {
    NumbersUnique(l) && RepliesInFlight(l) && NoneLost(l) && AnswersGenuine(c, l)
  }

  lemma TakenNumbers(l: Link, a: Answer)
    requires NumbersUnique(l) && l.up != []
    ensures NumbersUnique(Taken(l, a))
  {
    hide IsResponse;
    var k := Taken(l, a);
    assert forall i :: 0 <= i < |k.up| ==> k.up[i] == l.up[i + 1];
  }

  lemma TakenReplies(c: Cip.Crypto, l: Link, a: Answer)
    requires RepliesInFlight(l) && NumbersUnique(l) && l.up != [] && l.answer.None?
    requires a.Reply? ==> a.pkt.seqNum == l.up[0].seqNum
    ensures RepliesInFlight(Taken(l, a))
  {
    hide IsResponse, NumbersUnique;
    assert l.up[0].seqNum !in l.answered by { HeadIsFresh(l); }
    var k := Taken(l, a);
    assert forall p :: IsAnswerOf(l, p) ==> IsAnswerOf(k, p);
  }

  lemma HeadIsFresh(l: Link)
    requires NumbersUnique(l) && l.up != []
    ensures l.up[0].seqNum !in l.answered
    ensures l.up[0].seqNum in l.asked && l.asked[l.up[0].seqNum] == l.up[0]
    ensures !IsResponse(l.up[0].opcode)
  {
    hide IsResponse;
  }

  lemma TakenNoneLost(l: Link, a: Answer)
    requires NoneLost(l) && l.up != [] && l.answer.None?
    ensures NoneLost(Taken(l, a))
  {
  }

  lemma TakenGenuine(c: Cip.Crypto, f: State, l: Link)
    requires AnswersGenuine(c, l) && NumbersUnique(l) && l.up != []
    ensures AnswersGenuine(c, Taken(l, Process(c, f, l.up[0]).answer))
  {
    hide Process, NumbersUnique, IsResponse;
    HeadIsFresh(l);
    ProcessEchoes(c, f, l.up[0]);
    var a := Process(c, f, l.up[0]).answer;
    if a.Reply? { assert AnswerTo(c, l.up[0], a.pkt); }
  }

  lemma TakenOrderly(c: Cip.Crypto, f: State, l: Link)
    requires Orderly(c, l) && l.up != [] && l.answer.None?
    ensures Orderly(c, Taken(l, Process(c, f, l.up[0]).answer))
  {
    hide Process, NumbersUnique, RepliesInFlight, NoneLost, AnswersGenuine, Taken, IsResponse;
    var a := Process(c, f, l.up[0]).answer;
    ProcessEchoes(c, f, l.up[0]);
    TakenNumbers(l, a);
    TakenReplies(c, l, a);
    TakenNoneLost(l, a);
    TakenGenuine(c, f, l);
  }

  lemma ForwardedOrderly(c: Cip.Crypto, l: Link, m: nat, forwards: map<nat, Pkt>)
    requires Orderly(c, l) && (m in forwards ==> !IsResponse(forwards[m].opcode))
    ensures Orderly(c, Forwarded(l, m, forwards))
  {
    hide AnswersGenuine, NumbersUnique, IsResponse;
    var k := Forwarded(l, m, forwards);
    assert NumbersUnique(k) == NumbersUnique(l) && AnswersGenuine(c, k) == AnswersGenuine(c, l) by {
      SameHistory(c, l, k);
    }
  }

  lemma SameHistory(c: Cip.Crypto, l: Link, k: Link)
    requires k == l.(answer := k.answer, down := k.down)
    ensures NumbersUnique(k) == NumbersUnique(l) && AnswersGenuine(c, k) == AnswersGenuine(c, l)
  {
  }

  lemma ArriveOrderly(c: Cip.Crypto, l: Link)
    requires Orderly(c, l) && l.down != []
    ensures Orderly(c, l.(guest := Deliver(l.guest, l.down[0]), down := l.down[1..]))
  {
    hide NumbersUnique, RepliesInFlight, NoneLost, AnswersGenuine, IsResponse, Deliver;
    ArriveNumbers(c, l);
    ArriveReplies(l);
    ArriveNoneLost(c, l);
  }

  lemma ArriveNumbers(c: Cip.Crypto, l: Link)
    requires NumbersUnique(l) && AnswersGenuine(c, l) && l.down != []
    ensures NumbersUnique(l.(guest := Deliver(l.guest, l.down[0]), down := l.down[1..]))
    ensures AnswersGenuine(c, l.(guest := Deliver(l.guest, l.down[0]), down := l.down[1..]))
  {
    hide Mirror, IsResponse, AnswersGenuine;
    var k := l.(guest := Deliver(l.guest, l.down[0]), down := l.down[1..]);
    assert k.guest.pending.Keys == l.guest.pending.Keys;
    SameAnswers(c, l, k);
  }

  /** Whether the answers are genuine depends on the requests and the answers alone. */
  lemma SameAnswers(c: Cip.Crypto, l: Link, k: Link)
    requires k.asked == l.asked && k.answered == l.answered
    ensures AnswersGenuine(c, k) == AnswersGenuine(c, l)
  {
    hide IsResponse, AnswerTo;
  }

  lemma ArriveReplies(l: Link)
    requires RepliesInFlight(l) && l.down != []
    ensures RepliesInFlight(l.(guest := Deliver(l.guest, l.down[0]), down := l.down[1..]))
  {
    hide Mirror, IsResponse;
  }

  lemma ArriveNoneLost(c: Cip.Crypto, l: Link)
    requires NoneLost(l) && AnswersGenuine(c, l) && NumbersUnique(l) && l.down != []
    ensures NoneLost(l.(guest := Deliver(l.guest, l.down[0]), down := l.down[1..]))
  {
    hide Mirror, IsResponse, AnswerTo;
    var p := l.down[0];
    var k := l.(guest := Deliver(l.guest, p), down := l.down[1..]);
    assert forall q :: q in l.down ==> q == p || q in k.down;
  }

  lemma SentOrderly(c: Cip.Crypto, l: Link, s: nat, p: Pkt)
    requires Orderly(c, l) && s in l.issued && p.seqNum == s && !IsResponse(p.opcode)
    ensures Orderly(c, Sent(l, s, p))
  {
    hide NumbersUnique, RepliesInFlight, NoneLost, AnswersGenuine, IsResponse, Sent;
    IssuedIsFresh(c, l, s);
    SentNumbers(l, s, p);
    SentReplies(c, l, s, p);
  }

  lemma SentNumbers(l: Link, s: nat, p: Pkt)
    requires NumbersUnique(l) && s in l.issued && p.seqNum == s && !IsResponse(p.opcode)
    requires s !in l.answered
    ensures NumbersUnique(Sent(l, s, p))
  {
    hide IsResponse;
    var k := Sent(l, s, p);
    assert k.guest.pending.Keys == k.waiting;
    assert forall i :: 0 <= i < |l.up| ==> k.up[i] == l.up[i];
  }

  lemma SentReplies(c: Cip.Crypto, l: Link, s: nat, p: Pkt)
    requires RepliesInFlight(l) && NoneLost(l) && AnswersGenuine(c, l) && s !in l.answered && s !in l.asked
    requires s !in l.waiting
    ensures RepliesInFlight(Sent(l, s, p)) && NoneLost(Sent(l, s, p)) && AnswersGenuine(c, Sent(l, s, p))
  {
    hide RepliesInFlight, NoneLost, AnswersGenuine, Sent;
    SentGenuine(c, l, s, p);
    SentInFlight(l, s, p);
    SentNoneLost(l, s, p);
  }

  lemma SentInFlight(l: Link, s: nat, p: Pkt)
    requires RepliesInFlight(l)
    ensures RepliesInFlight(Sent(l, s, p))
  {
    hide IsResponse;
    var k := Sent(l, s, p);
    assert forall t :: HasReply(k.guest, t) ==> HasReply(l.guest, t) && k.guest.pending[t] == l.guest.pending[t];
  }

  lemma SentNoneLost(l: Link, s: nat, p: Pkt)
    requires NoneLost(l) && s !in l.answered
    ensures NoneLost(Sent(l, s, p))
  {
    hide IsResponse;
    var k := Sent(l, s, p);
    assert forall t :: t != s && HasReply(l.guest, t) ==> HasReply(k.guest, t);
  }

  lemma SentGenuine(c: Cip.Crypto, l: Link, s: nat, p: Pkt)
    requires AnswersGenuine(c, l) && s !in l.answered
    ensures AnswersGenuine(c, Sent(l, s, p))
  {
    hide IsResponse, AnswerTo;
  }

  lemma IssuedIsFresh(c: Cip.Crypto, l: Link, s: nat)
    requires NumbersUnique(l) && AnswersGenuine(c, l) && s in l.issued
    ensures s !in l.asked && s !in l.answered && s !in l.waiting
  {
    hide IsResponse, AnswerTo;
  }

  lemma NewSeqOrderly(c: Cip.Crypto, l: Link)
    requires Orderly(c, l)
    ensures Orderly(c, l.(guest := l.guest.(nextSeq := l.guest.nextSeq + 1), issued := l.issued + {l.guest.nextSeq}))
  {
    hide AnswersGenuine, NumbersUnique, RepliesInFlight, NoneLost;
    var k := l.(guest := l.guest.(nextSeq := l.guest.nextSeq + 1), issued := l.issued + {l.guest.nextSeq});
    SameAnswers(c, l, k);
    NewSeqNumbers(l);
    NewSeqReplies(l);
  }

  lemma NewSeqNumbers(l: Link)
    requires NumbersUnique(l)
    ensures NumbersUnique(l.(guest := l.guest.(nextSeq := l.guest.nextSeq + 1), issued := l.issued + {l.guest.nextSeq}))
  {
    hide IsResponse;
  }

  lemma NewSeqReplies(l: Link)
    requires RepliesInFlight(l) && NoneLost(l)
    ensures var k := l.(guest := l.guest.(nextSeq := l.guest.nextSeq + 1), issued := l.issued + {l.guest.nextSeq});
      RepliesInFlight(k) && NoneLost(k)
  {
    hide IsResponse;
  }

  lemma ForgetOrderly(c: Cip.Crypto, l: Link, s: nat)
    requires Orderly(c, l)
    ensures Orderly(c, l.(guest := Forget(l.guest, s), waiting := l.waiting - {s}))
  {
    hide NumbersUnique, AnswersGenuine, IsResponse;
    var k := l.(guest := Forget(l.guest, s), waiting := l.waiting - {s});
    assert NumbersUnique(k) && AnswersGenuine(c, k) by { ForgetNumbers(c, l, s); }
  }

  lemma ForgetNumbers(c: Cip.Crypto, l: Link, s: nat)
    requires NumbersUnique(l) && AnswersGenuine(c, l)
    ensures NumbersUnique(l.(guest := Forget(l.guest, s), waiting := l.waiting - {s}))
    ensures AnswersGenuine(c, l.(guest := Forget(l.guest, s), waiting := l.waiting - {s}))
  {
    hide IsResponse, AnswersGenuine;
    SameAnswers(c, l, l.(guest := Forget(l.guest, s), waiting := l.waiting - {s}));
    assert Forget(l.guest, s).pending.Keys == l.waiting - {s};
  }

  lemma AnsweringOrderly(c: Cip.Crypto, l: Link)
    requires Orderly(c, l) && l.answer.Some?
    ensures Orderly(c, l.(answer := None, down := l.down + [l.answer.value]))
  {
    hide NumbersUnique, AnswersGenuine, IsResponse;
    SameHistory(c, l, l.(answer := None, down := l.down + [l.answer.value]));
  }

  lemma TakeStepOrderly(c: Cip.Crypto, net: Net, n: nat)
    requires n in net.links && net.links[n].up != [] && net.links[n].answer.None?
    requires forall m :: m in net.links ==> Orderly(c, net.links[m])
    ensures forall m :: m in TakeStep(c, net, n).links ==> Orderly(c, TakeStep(c, net, n).links[m])
  {
    hide Process, NumbersUnique, RepliesInFlight, NoneLost, AnswersGenuine, Fabric.Step;
    var p := net.links[n].up[0];
    var out := Process(c, net.fabric, p);
    assert !IsResponse(p.opcode) by { HeadIsFresh(net.links[n]); }
    ProcessEchoes(c, net.fabric, p);
    TakenOrderly(c, net.fabric, net.links[n]);
    forall m | m in net.links
      ensures Orderly(c, Forwarded(net.links[n := Taken(net.links[n], out.answer)][m], m, out.forwards))
    {
      ForwardedOrderly(c, net.links[n := Taken(net.links[n], out.answer)][m], m, out.forwards);
    }
  }

  lemma NewLinkOrderly(c: Cip.Crypto, n: nat)
    ensures Orderly(c, NewLink(n))
  {
  }

  /** In every run in which guests only ask, on every connection: no number is used twice, the table
      of pending replies holds exactly the calls inside send_sync, whatever sits in a slot is the
      fabric's answer to that very request, and no answer still waited for is lost. */
  lemma {:induction false} RunsAreOrderly(c: Cip.Crypto, actions: seq<Action>)
    requires forall i :: 0 <= i < |actions| ==> AsksOnly(actions[i])
    ensures forall n :: n in Exec(c, actions).links ==> Orderly(c, Exec(c, actions).links[n])
  {
    hide Orderly, TakeStep, Fabric.Step;
    if actions != [] {
      RunsAreOrderly(c, actions[..|actions| - 1]);
      NextOrderly(c, Exec(c, actions[..|actions| - 1]), actions[|actions| - 1]);
    }
  }

  lemma NextOrderly(c: Cip.Crypto, net: Net, a: Action)
    requires AsksOnly(a)
    requires forall m :: m in net.links ==> Orderly(c, net.links[m])
    ensures forall m :: m in Next(c, net, a).links ==> Orderly(c, Next(c, net, a).links[m])
  {
    hide Orderly, TakeStep, Fabric.Step, Sent, Deliver, Forget, HasReply;
    var n := a.node;
    NewLinkOrderly(c, n);
    if n in net.links {
      var l := net.links[n];
      match a
      case Send(_, s, body) =>
        if s in l.issued { SentOrderly(c, l, s, body.(src := n, seqNum := s)); }
      case Take(_) =>
        if l.answer.None? && l.up != [] { TakeStepOrderly(c, net, n); }
      case Arrive(_) =>
        if l.down != [] { ArriveOrderly(c, l); }
      case Return(_, s) => ForgetOrderly(c, l, s);
      case TimeOut(_, s) => ForgetOrderly(c, l, s);
      case NewSeq(_) => NewSeqOrderly(c, l);
      case Answering(_) =>
        if l.answer.Some? { AnsweringOrderly(c, l); }
      case _ =>
    }
  }

  // ---------- the answer was given in this very run ----------

  /** At some point of the run the fabric took this request from the node's connection and answered it so. */
  ghost predicate AnsweredIn(c: Cip.Crypto, actions: seq<Action>, n: nat, req: Pkt, resp: Pkt)
  {
    exists k: nat :: k < |actions| && AnsweredAt(c, actions, k, n, req, resp)
  }

  ghost predicate AnsweredAt(c: Cip.Crypto, actions: seq<Action>, k: nat, n: nat, req: Pkt, resp: Pkt)
    requires k < |actions|
  {
    actions[k] == Take(n) && Answers(c, Exec(c, actions[..k]), n, req, resp)
  }

  /** The request is next on the node's connection, nothing is left to write there, and this is what the fabric
      will answer. */
  ghost predicate Answers(c: Cip.Crypto, net: Net, n: nat, req: Pkt, resp: Pkt)
  {
    && n in net.links && net.links[n].up != [] && net.links[n].up[0] == req && net.links[n].answer.None?
    && Process(c, net.fabric, req).answer == Reply(resp)
  }

  lemma AnsweredLater(c: Cip.Crypto, actions: seq<Action>, a: Action, n: nat, req: Pkt, resp: Pkt)
    requires AnsweredIn(c, actions, n, req, resp)
    ensures AnsweredIn(c, actions + [a], n, req, resp)
  {
    hide Answers, Exec;
    var k: nat :| k < |actions| && AnsweredAt(c, actions, k, n, req, resp);
    assert (actions + [a])[..k] == actions[..k] && (actions + [a])[k] == actions[k];
    assert AnsweredAt(c, actions + [a], k, n, req, resp);
  }

  /** One step either leaves a recorded answer and its request alone, or records the answer the fabric
      gives to the request at the head of the connection. */
  lemma RecordedNow(c: Cip.Crypto, net: Net, a: Action, n: nat, s: nat)
    requires forall m :: m in net.links ==> Orderly(c, net.links[m])
    requires n in Next(c, net, a).links && s in Next(c, net, a).links[n].answered
    ensures var k := Next(c, net, a).links[n];
      || (a == Take(n) && s in k.asked && Answers(c, net, n, k.asked[s], k.answered[s]))
      || (n in net.links && s in net.links[n].answered && net.links[n].answered[s] == k.answered[s]
          && s in net.links[n].asked && s in k.asked && k.asked[s] == net.links[n].asked[s])
  {
    hide Orderly, TakeStep, Answers;
    if IsTake(net, a) {
      TakeStepIs(c, net, a);
      if a.node == n {
        HeadOwn(c, net.links[n]);
        TakeRecords(c, net, n, s);
      } else {
        TakeLeavesOthers(c, net, a.node, n);
      }
    } else {
      OthersKeepRecords(c, net, a, n, s);
    }
    if n in net.links { OwnRequest(c, net.links[n]); }
  }

  /** The fabric has a packet of the connection to handle and nothing left to write. */
  predicate IsTake(net: Net, a: Action)
  {
    a.Take? && a.node in net.links && net.links[a.node].up != [] && net.links[a.node].answer.None?
  }

  lemma TakeStepIs(c: Cip.Crypto, net: Net, a: Action)
    requires IsTake(net, a)
    ensures Next(c, net, a) == TakeStep(c, net, a.node)
  {
    hide TakeStep;
  }

  lemma HeadOwn(c: Cip.Crypto, l: Link)
    requires Orderly(c, l) && l.up != []
    ensures l.up[0].seqNum in l.asked && l.asked[l.up[0].seqNum] == l.up[0]
  {
    hide NumbersUnique, RepliesInFlight, NoneLost, AnswersGenuine;
    HeadIsFresh(l);
  }

  lemma OthersKeepRecords(c: Cip.Crypto, net: Net, a: Action, n: nat, s: nat)
    requires !IsTake(net, a)
    requires forall m :: m in net.links ==> Orderly(c, net.links[m])
    requires n in Next(c, net, a).links && s in Next(c, net, a).links[n].answered
    ensures var k := Next(c, net, a).links[n];
      && n in net.links && s in net.links[n].answered && net.links[n].answered[s] == k.answered[s]
      && (s in net.links[n].asked ==> s in k.asked && k.asked[s] == net.links[n].asked[s])
  {
    hide Orderly, Fabric.Step, Deliver, Forget, Await, HasReply;
    if n in net.links { SendKeepsRequests(c, net.links[n], s); }
  }

  lemma OwnRequest(c: Cip.Crypto, l: Link)
    requires Orderly(c, l)
    ensures forall s :: s in l.answered ==> s in l.asked
  {
    hide NumbersUnique, RepliesInFlight, NoneLost, AnswerTo;
  }

  lemma SendKeepsRequests(c: Cip.Crypto, l: Link, s: nat)
    requires Orderly(c, l)
    ensures s in l.answered ==> s !in l.issued
  {
    hide RepliesInFlight, NoneLost, AnswerTo;
  }

  lemma TakeRecords(c: Cip.Crypto, net: Net, n: nat, s: nat)
    requires n in net.links && net.links[n].up != [] && net.links[n].answer.None?
    requires net.links[n].up[0].seqNum in net.links[n].asked
    requires net.links[n].asked[net.links[n].up[0].seqNum] == net.links[n].up[0]
    requires n in TakeStep(c, net, n).links && s in TakeStep(c, net, n).links[n].answered
    ensures var k := TakeStep(c, net, n).links[n];
      && k.asked == net.links[n].asked
      && ((s in net.links[n].answered && net.links[n].answered[s] == k.answered[s])
          || (s in k.asked && Answers(c, net, n, k.asked[s], k.answered[s])))
  {
    hide Process, Fabric.Step;
  }

  lemma TakeLeavesOthers(c: Cip.Crypto, net: Net, m: nat, n: nat)
    requires m in net.links && net.links[m].up != [] && n != m && n in TakeStep(c, net, m).links
    ensures n in net.links
    ensures TakeStep(c, net, m).links[n].answered == net.links[n].answered
    ensures TakeStep(c, net, m).links[n].asked == net.links[n].asked
  {
    hide Process, Fabric.Step;
  }

  lemma {:induction false} AnswersAreFromThisRun(c: Cip.Crypto, actions: seq<Action>, n: nat, s: nat)
    requires forall i :: 0 <= i < |actions| ==> AsksOnly(actions[i])
    requires n in Exec(c, actions).links && s in Exec(c, actions).links[n].answered
    ensures var l := Exec(c, actions).links[n];
      s in l.asked && AnsweredIn(c, actions, n, l.asked[s], l.answered[s])
    decreases |actions|
  {
    hide Next, Answers, Orderly, AnsweredIn;
    var last := |actions| - 1;
    var before, a := actions[..last], actions[last];
    assert actions == before + [a];
    RunsAreOrderly(c, before);
    RecordedNow(c, Exec(c, before), a, n, s);
    var l := Exec(c, actions).links[n];
    if a == Take(n) && s in l.asked && Answers(c, Exec(c, before), n, l.asked[s], l.answered[s]) {
      AnsweredLast(c, before, n, l.asked[s], l.answered[s]);
    } else {
      AnswersAreFromThisRun(c, before, n, s);
      AnsweredLater(c, before, a, n, l.asked[s], l.answered[s]);
    }
  }

  lemma AnsweredLast(c: Cip.Crypto, before: seq<Action>, n: nat, req: Pkt, resp: Pkt)
    requires Answers(c, Exec(c, before), n, req, resp)
    ensures AnsweredIn(c, before + [Take(n)], n, req, resp)
  {
    hide Answers, Exec;
    assert (before + [Take(n)])[..|before|] == before;
    assert AnsweredAt(c, before + [Take(n)], |before|, n, req, resp);
  }

  /** What a call of send_sync gets back is what the fabric, in this run, answered to the packet it sent. */
  lemma ReturnedReplyIsOwn(c: Cip.Crypto, actions: seq<Action>, n: nat, s: nat)
    requires forall i :: 0 <= i < |actions| ==> AsksOnly(actions[i])
    requires n in Exec(c, actions).links && HasReply(Exec(c, actions).links[n].guest, s)
    ensures var l := Exec(c, actions).links[n];
      && s in l.waiting && s in l.asked && l.asked[s].seqNum == s
      && l.guest.pending[s].value.seqNum == s
      && AnsweredIn(c, actions, n, l.asked[s], l.guest.pending[s].value)
  {
    hide Exec, AnswerTo, AnsweredIn;
    RunsAreOrderly(c, actions);
    AnswersAreFromThisRun(c, actions, n, s);
  }

  // ---------- without that discipline ----------

  lemma ResponsesHaveNoBranch(op: nat)
    requires IsResponse(op)
    ensures !IsControl(op) && !IsWrite(op) && !IsRead(op) && !IsAtomic(op)
  {
  }

  /** A packet with a response opcode is forwarded to its destination, if connected, and nowhere else. */
  lemma ResponseForwarded(f: State, p: Pkt)
    requires IsResponse(p.opcode)
    ensures DispatchRest(f, p).forwards == if p.dst in f.mem then map[p.dst := p] else map[]
  {
    hide HandleExport, HandleImport, Response;
  }

  /** A forwarded packet takes slot s of a guest, empty or filled with another packet, exactly if it has a response
      opcode and that number, is addressed to the guest, who is connected, and the CIP gate lets it through: whoever
      sent it, and though it may replace a genuine reply not yet collected. */
  lemma ForwardedResponseMistaken(c: Cip.Crypto, f: State, p: Pkt, n: nat, g: Guest, s: nat)
    requires s in g.pending && g.pending[s] != Some(p)
    ensures var forwards := Process(c, f, p).forwards;
      n in forwards && s in Deliver(g, forwards[n]).pending && Deliver(g, forwards[n]).pending[s] == Some(p)
      <==> IsResponse(p.opcode) && p.seqNum == s && n == p.dst && n in f.mem && Gate(c, f, p).1.Plain?
  {
    hide Gate, Dispatch, Process, IsResponse, Deliver;
    ProcessEchoes(c, f, p);
    SlotTakenExactly(g, p, s);
    if IsResponse(p.opcode) {
      FabricLog.GateKeepsMemory(c, f, p);
      ProcessOfResponse(c, f, p);
    }
  }

  lemma ProcessOfResponse(c: Cip.Crypto, f: State, p: Pkt)
    requires IsResponse(p.opcode)
    ensures Process(c, f, p).forwards
      == if Gate(c, f, p).1.Plain? && p.dst in f.mem then map[p.dst := p] else map[]
  {
    hide Gate, DispatchControl, HandleWrite, HandleRead, HandleAtomic, DispatchRest, IsResponse, Response;
    FabricLog.GateKeepsMemory(c, f, p);
    ResponsesHaveNoBranch(p.opcode);
    ResponseForwarded(Gate(c, f, p).0, p);
  }

  // A run: guests 1 and 2 connect and are registered; 1 asks something under its number 2; 2 sends a
  // response-like packet to 1, which happens to bear its own number 2.

  const QUESTION: Pkt := Packet(OP_URPC_CALL, 1, 2, 0, 0, 0, 2, Zeros(16), NO_META, [])

  const STRAY: Pkt := Packet(OP_URPC_RETURN, 2, 1, 0, 0, 0, 2, Zeros(16), NO_META, [])

  lemma ExecMore(c: Cip.Crypto, actions: seq<Action>, a: Action)
    ensures Exec(c, actions + [a]) == Next(c, Exec(c, actions), a)
  {
    hide Next;
    assert (actions + [a])[..|actions|] == actions;
  }

  lemma PlainPacket(c: Cip.Crypto, f: State, p: Pkt)
    requires p.flags == 0
    ensures Process(c, f, p) == Dispatch(f, p, p.payload)
  {
    hide Dispatch;
  }

  lemma Registers(c: Cip.Crypto, f: State, n: nat)
    ensures var o := Process(c, f, RegisterPacket(n));
      n in o.state.mem && (forall m :: m in f.mem ==> m in o.state.mem) && o.forwards == map[] && o.answer.Reply?
  {
    hide Router.Apply, Response;
    PlainPacket(c, f, RegisterPacket(n));
  }

  /** A guest that is connected and registered, its registration answered, with no packet on the way. */
  ghost predicate Settled(net: Net, n: nat)
  {
    && n in net.links && n in net.fabric.mem
    && net.links[n].up == [] && net.links[n].answer.Some? && net.links[n].down == []
    && net.links[n].guest == NewLink(n).guest && net.links[n].issued == {}
  }

  lemma Joins(c: Cip.Crypto, actions: seq<Action>, n: nat)
    requires n !in Exec(c, actions).links
    ensures var before := Exec(c, actions);
      var net := Exec(c, actions + [Connect(n)] + [Take(n)]);
      && Settled(net, n) && net.links.Keys == before.links.Keys + {n}
      && (forall m :: m in before.links ==> net.links[m] == before.links[m])
      && (forall m :: m in before.fabric.mem ==> m in net.fabric.mem)
  {
    hide Exec, Process, Fabric.Step;
    var before := Exec(c, actions);
    ExecMore(c, actions, Connect(n));
    ExecMore(c, actions + [Connect(n)], Take(n));
    Registers(c, before.fabric, n);
  }

  /** The guest takes its number 2 and sends a packet under it. */
  lemma Sends(c: Cip.Crypto, actions: seq<Action>, n: nat, body: Pkt)
    requires Settled(Exec(c, actions), n) && body.src == n && body.seqNum == 2
    ensures var before := Exec(c, actions);
      var net := Exec(c, actions + [NewSeq(n)] + [Send(n, 2, body)]);
      && net.fabric == before.fabric && net.links.Keys == before.links.Keys
      && (forall m :: m in before.links && m != n ==> net.links[m] == before.links[m])
      && net.links[n].up == [body] && net.links[n].answer == before.links[n].answer && net.links[n].down == []
      && 2 in net.links[n].guest.pending && net.links[n].guest.pending[2] == None
  {
    hide Exec, TakeStep;
    ExecMore(c, actions, NewSeq(n));
    ExecMore(c, actions + [NewSeq(n)], Send(n, 2, body));
  }

  const SCENE: seq<Action> :=
    [] + [Connect(1)] + [Take(1)] + [Connect(2)] + [Take(2)] + [NewSeq(1)] + [Send(1, 2, QUESTION)]
    + [NewSeq(2)] + [Send(2, 2, STRAY)]

  /** In a run in which a guest sends a packet with a response opcode, another guest's call gets that packet for
      a reply: the fabric has not even seen the question. */
  lemma StrayReplyInRun(c: Cip.Crypto)
    ensures var l := Exec(c, SCENE + [Answering(2)] + [Take(2)] + [Arrive(1)]).links;
      && 1 in l && HasReply(l[1].guest, 2) && l[1].guest.pending[2] == Some(STRAY)
      && l[1].up == [QUESTION] && STRAY.src == 2
  {
    hide Exec, Process, Fabric.Step, Settled;
    EmptyStart(c);
    Joins(c, [], 1);
    var one := [] + [Connect(1)] + [Take(1)];
    Joins(c, one, 2);
    var two := one + [Connect(2)] + [Take(2)];
    SettledFacts(Exec(c, one), 1);
    StaysSettled(Exec(c, one), Exec(c, two), 1);
    Sends(c, two, 1, QUESTION);
    var asked := two + [NewSeq(1)] + [Send(1, 2, QUESTION)];
    SettledFacts(Exec(c, two), 2);
    StaysSettled(Exec(c, two), Exec(c, asked), 2);
    Sends(c, asked, 2, STRAY);
    SettledFacts(Exec(c, two), 1);
    SettledFacts(Exec(c, asked), 2);
    StrayArrives(c, SCENE);
  }

  lemma EmptyStart(c: Cip.Crypto)
    ensures Exec(c, []) == EMPTY_NET
  {
  }

  lemma StaysSettled(before: Net, net: Net, n: nat)
    requires Settled(before, n) && n in net.links && net.links[n] == before.links[n] && n in net.fabric.mem
    ensures Settled(net, n)
  {
  }

  lemma SettledFacts(net: Net, n: nat)
    requires Settled(net, n)
    ensures n in net.fabric.mem && net.links[n].answer.Some?
  {
  }

  lemma StrayArrives(c: Cip.Crypto, actions: seq<Action>)
    requires var net := Exec(c, actions);
      && 1 in net.fabric.mem && net.links.Keys == {1, 2}
      && net.links[2].up == [STRAY] && net.links[2].answer.Some?
      && net.links[1].up == [QUESTION] && net.links[1].down == []
      && 2 in net.links[1].guest.pending && net.links[1].guest.pending[2] == None
    ensures var l := Exec(c, actions + [Answering(2)] + [Take(2)] + [Arrive(1)]).links;
      && 1 in l && HasReply(l[1].guest, 2) && l[1].guest.pending[2] == Some(STRAY) && l[1].up == [QUESTION]
  {
    hide Exec, Process, Fabric.Step;
    var net := Exec(c, actions);
    ExecMore(c, actions, Answering(2));
    ExecMore(c, actions + [Answering(2)], Take(2));
    ExecMore(c, actions + [Answering(2)] + [Take(2)], Arrive(1));
    StrayForwarded(c, net.fabric);
  }

  lemma StrayForwarded(c: Cip.Crypto, f: State)
    requires 1 in f.mem
    ensures Process(c, f, STRAY).forwards == map[1 := STRAY] && !Process(c, f, STRAY).answer.Raises?
  {
    hide Response;
    PlainPacket(c, f, STRAY);
  }
}
