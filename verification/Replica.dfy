// Agreement between the fabric's copy of a node's memory and the guest's own copy, over whole runs.
module Replica {
  import opened Bytes
  import opened Port
  import opened Fabric
  import opened FabricReplies
  import opened Device
  import opened Network
  import FabricLog
  import Router
  import Cip

  /** The guest's memory after the packets on the wire have been applied in order. */
  function MirrorAll(mem: seq<byte>, ps: seq<Pkt>): seq<byte>
    decreases |ps|
  {
    if ps == [] then mem else MirrorAll(Mirror(mem, ps[0]), ps[1..])
  }

  lemma {:induction false} MirrorAllAppend(mem: seq<byte>, ps: seq<Pkt>, p: Pkt)
    ensures MirrorAll(mem, ps + [p]) == Mirror(MirrorAll(mem, ps), p)
    decreases |ps|
  {
    hide Mirror;
    if ps == [] {
      assert (ps + [p])[1..] == [];
    } else {
      assert (ps + [p])[1..] == ps[1..] + [p];
      MirrorAllAppend(Mirror(mem, ps[0]), ps[1..], p);
    }
  }

  /** The writes of the theorem: unencrypted URMA_WRITE or CDMA_SUBMIT, and no other request that
      stores into node memory. */
  predicate WritesMirrored(p: Pkt)
  {
    && p.opcode != OP_REG_NODE && !IsAtomic(p.opcode)
    && (IsWrite(p.opcode) ==> IsMirrored(p.opcode) && !IsCip(p))
  }

  predicate MirroredAction(a: Action)
  {
    a.Send? ==> WritesMirrored(a.body)
  }

  function CopyOf(f: State, n: nat): seq<byte>
  {
    if n in f.mem then f.mem[n] else Zeros(MEMORY_SIZE)
  }

  ghost predicate QueueOk(f: State, n: nat, up: seq<Pkt>)
  {
    forall i :: 0 <= i < |up| ==>
      (up[i].src == n && WritesMirrored(up[i])) || (i == 0 && up[i] == RegisterPacket(n) && n !in f.mem)
  }

  ghost predicate LinkInSync(f: State, n: nat, l: Link)
  {
    && |CopyOf(f, n)| == MEMORY_SIZE
    && MirrorAll(l.guest.mem, l.down) == CopyOf(f, n)
    && QueueOk(f, n, l.up)
    && (l.answer.Some? ==> !IsMirrored(l.answer.value.opcode))
  }

  /** On every connection: the fabric's copy is the guest's copy after the writes still in flight. */
  ghost predicate InSync(net: Net)
  {
    && net.fabric.mem.Keys <= net.links.Keys
    && forall n :: n in net.links ==> LinkInSync(net.fabric, n, net.links[n])
  }

  // ---------- one packet ----------

  lemma UnencryptedGate(c: Cip.Crypto, f: State, p: Pkt)
    requires !IsCip(p)
    ensures Process(c, f, p) == Dispatch(f, p, p.payload)
  {
    hide Dispatch;
  }

  lemma WriteMirrors(f: State, p: Pkt, m: nat)
    requires IsMirrored(p.opcode) && m in f.mem
    ensures var o := HandleWrite(f, p, p.payload);
      && o.state.mem.Keys == f.mem.Keys
      && o.state.mem[m] == (if m in o.forwards then Mirror(f.mem[m], o.forwards[m]) else f.mem[m])
      && |o.state.mem[m]| == |f.mem[m]|
  {
    hide Router.ValidateAccess, Response, StoreLocal, Assign;
    if p.meta.segmentId.Some? && AccessOf(f, p, |p.payload|, true) == Router.Granted {
      GrantedIsNonNegative(f, p, |p.payload|, true);
      StoreLocalIsAssign(f.mem[m], GetOr(p.meta.offset, 0), p.payload);
    }
  }

  lemma MirroredIsWrite(op: nat)
    requires IsMirrored(op)
    ensures IsWrite(op) && !IsControl(op) && !IsResponse(op)
  {
  }

  /** A packet changes the copy of each node exactly as what it puts on that node's wire will change
      the guest's. */
  lemma PacketMirrors(c: Cip.Crypto, f: State, p: Pkt, m: nat)
    requires WritesMirrored(p) && m in f.mem
    ensures var o := Process(c, f, p);
      && o.state.mem.Keys == f.mem.Keys
      && o.state.mem[m] == (if m in o.forwards then Mirror(f.mem[m], o.forwards[m]) else f.mem[m])
      && |o.state.mem[m]| == |f.mem[m]|
  {
    hide Process, Dispatch, HandleWrite, Mirror, IsCip;
    if IsWrite(p.opcode) {
      UnencryptedGate(c, f, p);
      MirroredIsWrite(p.opcode);
      WriteMirrors(f, p, m);
      DispatchOfWrite(f, p);
    } else {
      FabricLog.DispatchMemory(c, f, p);
      NoEffect(c, f, p);
      ProcessEchoes(c, f, p);
      NotMirrored(p, f.mem[m]);
    }
  }

  lemma DispatchOfWrite(f: State, p: Pkt)
    requires IsWrite(p.opcode) && !IsControl(p.opcode)
    ensures Dispatch(f, p, p.payload) == HandleWrite(f, p, p.payload)
  {
    hide HandleWrite, IsWrite, IsControl;
  }

  lemma NoEffect(c: Cip.Crypto, f: State, p: Pkt)
    requires p.opcode != OP_REG_NODE && !IsAtomic(p.opcode) && !IsWrite(p.opcode)
    ensures FabricLog.Effect(c, f, p) == None
  {
    hide Gate, IsAtomic, IsWrite, IsControl;
  }

  lemma NotMirrored(p: Pkt, mem: seq<byte>)
    requires !IsWrite(p.opcode)
    ensures Mirror(mem, p) == mem && !IsMirrored(p.opcode)
  {
  }

  // ---------- the actions ----------

  lemma RegisterProcess(c: Cip.Crypto, f: State, n: nat)
    ensures var o := Process(c, f, RegisterPacket(n));
      o.state.mem == f.mem[n := Zeros(MEMORY_SIZE)] && o.forwards == map[] && o.answer.Reply?
  {
    hide Router.Apply, Response;
    UnencryptedGate(c, f, RegisterPacket(n));
  }

  lemma ForwardInSync(f: State, g: State, m: nat, l: Link, forwards: map<nat, Pkt>)
    requires LinkInSync(f, m, l)
    requires m in f.mem <==> m in g.mem
    requires m in forwards ==> m in f.mem
    requires m in f.mem ==> |g.mem[m]| == |f.mem[m]|
    requires m in f.mem ==> g.mem[m] == if m in forwards then Mirror(f.mem[m], forwards[m]) else f.mem[m]
    ensures LinkInSync(g, m, Forwarded(l, m, forwards))
  {
    hide Mirror, WritesMirrored;
    if m in forwards {
      MirrorAllAppend(l.guest.mem, l.down, forwards[m]);
    }
  }

  lemma TakenInSync(f: State, n: nat, l: Link, a: Answer)
    requires LinkInSync(f, n, l) && l.up != [] && WritesMirrored(l.up[0])
    requires a.Reply? ==> !IsMirrored(a.pkt.opcode)
    ensures LinkInSync(f, n, Taken(l, a))
  {
    hide Mirror, WritesMirrored;
    var k := Taken(l, a);
    forall i | 0 <= i < |k.up|
      ensures k.up[i].src == n && WritesMirrored(k.up[i])
    {
      assert k.up[i] == l.up[i + 1];
    }
  }

  lemma AnswerNotMirrored(c: Cip.Crypto, f: State, p: Pkt)
    ensures var a := Process(c, f, p).answer; a.Reply? ==> !IsMirrored(a.pkt.opcode)
  {
    hide Process;
    ProcessEchoes(c, f, p);
    var a := Process(c, f, p).answer;
    if a.Reply? && IsMirrored(a.pkt.opcode) { MirroredIsWrite(a.pkt.opcode); }
  }

  lemma ClosedInSync(c: Cip.Crypto, net: Net, n: nat)
    requires InSync(net)
    ensures InSync(Closed(c, net, n))
  {
    hide Mirror, WritesMirrored, Router.Apply;
    var next := Closed(c, net, n);
    forall m | m in next.links
      ensures LinkInSync(next.fabric, m, next.links[m])
    {
      assert CopyOf(next.fabric, m) == CopyOf(net.fabric, m);
    }
  }

  lemma TakeInSync(c: Cip.Crypto, net: Net, n: nat)
    requires InSync(net) && n in net.links && net.links[n].up != [] && net.links[n].answer.None?
    ensures InSync(TakeStep(c, net, n))
  {
    hide Process, LinkInSync, Closed, Taken, Forwarded, WritesMirrored, IsMirrored;
    var l := net.links[n];
    var p := l.up[0];
    var f := net.fabric;
    var o := Process(c, f, p);
    var links := net.links[n := Taken(l, o.answer)];
    var next := Net(o.state, map m | m in links :: Forwarded(links[m], m, o.forwards));
    assert InSync(next) by {
      if p.opcode == OP_REG_NODE {
        HeadRegisters(f, n, l);
        RegisterInSync(c, net, n);
      } else {
        HeadMirrors(f, n, l);
        AnswerNotMirrored(c, f, p);
        TakenInSync(f, n, l, o.answer);
        ProcessEchoes(c, f, p);
        ForwardsAreConnected(f, p, o.forwards);
        KeysKept(c, f, p);
        forall m | m in next.links
          ensures LinkInSync(o.state, m, next.links[m])
        {
          if m in f.mem { PacketMirrors(c, f, p, m); }
          ForwardInSync(f, o.state, m, links[m], o.forwards);
        }
      }
    }
    ClosedInSync(c, next, n);
  }

  lemma ForwardsAreConnected(f: State, p: Pkt, forwards: map<nat, Pkt>)
    requires ForwardsOnly(f, p, forwards)
    ensures forall m :: m in forwards ==> m in f.mem
  {
  }

  lemma KeysKept(c: Cip.Crypto, f: State, p: Pkt)
    requires WritesMirrored(p)
    ensures Process(c, f, p).state.mem.Keys == f.mem.Keys
  {
    hide Process, WritesMirrored;
    if m :| m in f.mem {
      PacketMirrors(c, f, p, m);
    } else {
      assert f.mem == map[];
      FabricLog.DispatchMemory(c, f, p);
      NothingConnected(c, f, p);
    }
  }

  lemma NothingConnected(c: Cip.Crypto, f: State, p: Pkt)
    requires f.mem == map[] && WritesMirrored(p)
    ensures FabricLog.MemAfter(f.mem, FabricLog.Effect(c, f, p)) == f.mem
  {
    hide Gate, UpdateWord, RmwOf, Router.ValidateAccess, IsWrite, IsAtomic, IsControl;
  }

  lemma HeadRegisters(f: State, n: nat, l: Link)
    requires LinkInSync(f, n, l) && l.up != [] && l.up[0].opcode == OP_REG_NODE
    ensures l.up[0] == RegisterPacket(n) && n !in f.mem
  {
    hide MirrorAll;
  }

  lemma HeadMirrors(f: State, n: nat, l: Link)
    requires LinkInSync(f, n, l) && l.up != [] && l.up[0].opcode != OP_REG_NODE
    ensures WritesMirrored(l.up[0])
  {
    hide MirrorAll, WritesMirrored;
  }

  lemma RegisterInSync(c: Cip.Crypto, net: Net, n: nat)
    requires InSync(net) && n in net.links && net.links[n].up != [] && net.links[n].up[0] == RegisterPacket(n)
    requires n !in net.fabric.mem
    ensures var o := Process(c, net.fabric, RegisterPacket(n));
      var links := net.links[n := Taken(net.links[n], o.answer)];
      InSync(Net(o.state, map m | m in links :: Forwarded(links[m], m, o.forwards)))
  {
    hide Process, WritesMirrored, MirrorAll;
    var l := net.links[n];
    var f := net.fabric;
    var o := Process(c, f, RegisterPacket(n));
    RegisterProcess(c, f, n);
    AnswerNotMirrored(c, f, RegisterPacket(n));
    var links := net.links[n := Taken(l, o.answer)];
    forall m | m in links
      ensures LinkInSync(o.state, m, links[m])
    {
      if m == n {
        forall i | 0 <= i < |links[n].up|
          ensures links[n].up[i].src == n && WritesMirrored(links[n].up[i])
        {
          assert links[n].up[i] == l.up[i + 1];
        }
      } else {
        assert CopyOf(o.state, m) == CopyOf(f, m);
      }
    }
  }

  lemma ArriveInSync(f: State, n: nat, l: Link)
    requires LinkInSync(f, n, l) && l.down != []
    ensures LinkInSync(f, n, l.(guest := Deliver(l.guest, l.down[0]), down := l.down[1..]))
  {
    hide WritesMirrored, StoreLocal;
    var p := l.down[0];
    if IsAwaited(l.guest, p) && IsMirrored(p.opcode) { MirroredIsWrite(p.opcode); }
    assert Deliver(l.guest, p).mem == Mirror(l.guest.mem, p);
  }

  lemma AnsweringInSync(f: State, n: nat, l: Link)
    requires LinkInSync(f, n, l) && l.answer.Some?
    ensures LinkInSync(f, n, l.(answer := None, down := l.down + [l.answer.value]))
  {
    hide WritesMirrored, StoreLocal, MirrorAll;
    MirrorAllAppend(l.guest.mem, l.down, l.answer.value);
  }

  lemma OtherInSync(f: State, n: nat, l: Link, k: Link)
    requires LinkInSync(f, n, l)
    requires k.guest.mem == l.guest.mem && k.down == l.down && k.answer == l.answer
    requires k.up == l.up || exists p :: k.up == l.up + [p] && p.src == n && WritesMirrored(p)
    ensures LinkInSync(f, n, k)
  {
    hide WritesMirrored, MirrorAll;
  }

  lemma UpdateInSync(net: Net, n: nat, k: Link)
    requires InSync(net) && n in net.links && LinkInSync(net.fabric, n, k)
    ensures InSync(net.(links := net.links[n := k]))
  {
    hide LinkInSync;
  }

  lemma NewLinkInSync(net: Net, n: nat)
    requires InSync(net) && n !in net.links
    ensures InSync(net.(links := net.links[n := NewLink(n)]))
  {
    hide WritesMirrored, Mirror;
    assert n !in net.fabric.mem;
    assert LinkInSync(net.fabric, n, NewLink(n));
  }

  lemma NextInSync(c: Cip.Crypto, net: Net, a: Action)
    requires InSync(net) && MirroredAction(a)
    ensures InSync(Next(c, net, a))
  {
    hide InSync, LinkInSync, TakeStep, Closed, Sent, Deliver, Forget, HasReply, WritesMirrored;
    var n := a.node;
    if a.Connect? {
      if n !in net.links { NewLinkInSync(net, n); }
    } else if n in net.links {
      var l := net.links[n];
      LinkOf(net, n);
      match a
      case NewSeq(_) =>
        var k := l.(guest := l.guest.(nextSeq := l.guest.nextSeq + 1), issued := l.issued + {l.guest.nextSeq});
        OtherInSync(net.fabric, n, l, k);
        UpdateInSync(net, n, k);
      case Send(_, s, body) =>
        if s in l.issued {
          var p := body.(src := n, seqNum := s);
          HeaderKeepsKind(body, n, s);
          SentParts(l, s, p);
          OtherInSync(net.fabric, n, l, Sent(l, s, p));
          UpdateInSync(net, n, Sent(l, s, p));
        }
      case Take(_) =>
        if l.answer.None? && l.up != [] { TakeInSync(c, net, n); }
      case Answering(_) =>
        if l.answer.Some? {
          AnsweringInSync(net.fabric, n, l);
          UpdateInSync(net, n, l.(answer := None, down := l.down + [l.answer.value]));
        }
      case Arrive(_) =>
        if l.down != [] {
          ArriveInSync(net.fabric, n, l);
          UpdateInSync(net, n, l.(guest := Deliver(l.guest, l.down[0]), down := l.down[1..]));
        }
      case Return(_, s) =>
        ForgetParts(l, s);
        OtherInSync(net.fabric, n, l, l.(guest := Forget(l.guest, s), waiting := l.waiting - {s}));
        UpdateInSync(net, n, l.(guest := Forget(l.guest, s), waiting := l.waiting - {s}));
      case TimeOut(_, s) =>
        ForgetParts(l, s);
        OtherInSync(net.fabric, n, l, l.(guest := Forget(l.guest, s), waiting := l.waiting - {s}));
        UpdateInSync(net, n, l.(guest := Forget(l.guest, s), waiting := l.waiting - {s}));
      case Disconnect(_) => ClosedInSync(c, net, n);
    }
  }

  lemma LinkOf(net: Net, n: nat)
    requires InSync(net) && n in net.links
    ensures LinkInSync(net.fabric, n, net.links[n])
  {
    hide LinkInSync;
  }

  lemma SentParts(l: Link, s: nat, p: Pkt)
    ensures var k := Sent(l, s, p);
      k.guest.mem == l.guest.mem && k.down == l.down && k.answer == l.answer && k.up == l.up + [p]
  {
  }

  lemma HeaderKeepsKind(p: Pkt, n: nat, s: nat)
    requires WritesMirrored(p)
    ensures WritesMirrored(p.(src := n, seqNum := s))
  {
  }

  lemma ForgetParts(l: Link, s: nat)
    ensures Forget(l.guest, s).mem == l.guest.mem
  {
  }

  /** Replica agreement: in every reachable state of every run whose stores are unencrypted URMA_WRITE
      or CDMA_SUBMIT, the fabric's copy of each connected node equals the guest's copy after the
      forwarded packets still in flight on its connection. */
  lemma {:induction false} ReplicasAgree(c: Cip.Crypto, actions: seq<Action>)
    requires forall i :: 0 <= i < |actions| ==> MirroredAction(actions[i])
    ensures InSync(Exec(c, actions))
  {
    hide Next, LinkInSync, MirroredAction;
    if actions != [] {
      ReplicasAgree(c, actions[..|actions| - 1]);
      NextInSync(c, Exec(c, actions[..|actions| - 1]), actions[|actions| - 1]);
    }
  }

  // ---------- where agreement ends ----------

  /** For a write of any kind that passes the gate and is granted inside the memory, agreement survives exactly if
      the guest stores the same: a mirrored opcode whose bytes the gate left as they were, or otherwise bytes that
      were there already. */
  lemma WriteKeepsAgreementIff(c: Cip.Crypto, f: State, p: Pkt)
    requires IsWrite(p.opcode) && p.meta.segmentId.Some? && Gate(c, f, p).1.Plain?
    requires AccessOf(f, p, |p.payload|, true) == Router.Granted && InMemory(f, p, |p.payload|)
    ensures GetOr(p.meta.offset, 0) >= 0 && |Gate(c, f, p).1.text| == |p.payload|
    ensures var o := Process(c, f, p);
      var offset, payload := GetOr(p.meta.offset, 0), Gate(c, f, p).1.text;
      && o.forwards == map[p.dst := p] && p.dst in o.state.mem
      && (o.state.mem[p.dst] == Mirror(f.mem[p.dst], p) <==>
           (if IsMirrored(p.opcode) then payload == p.payload
            else payload == f.mem[p.dst][offset..offset + |payload|]))
  {
    hide Gate, Process, IsWrite, HandleWrite, Mirror, Router.ValidateAccess;
    GrantedIsNonNegative(f, p, |p.payload|, true);
    FabricLog.ProcessOfWrite(c, f, p);
    StoreKeepsAgreementIff(f, p, Gate(c, f, p).1.text);
  }

  lemma StoreKeepsAgreementIff(f: State, p: Pkt, payload: seq<byte>)
    requires IsWrite(p.opcode) && |payload| == |p.payload| && p.meta.segmentId.Some?
    requires AccessOf(f, p, |p.payload|, true) == Router.Granted && InMemory(f, p, |p.payload|)
    ensures GetOr(p.meta.offset, 0) >= 0
    ensures var o := HandleWrite(f, p, payload);
      var offset := GetOr(p.meta.offset, 0);
      && o.forwards == map[p.dst := p] && p.dst in o.state.mem
      && (o.state.mem[p.dst] == Mirror(f.mem[p.dst], p) <==>
           (if IsMirrored(p.opcode) then payload == p.payload
            else payload == f.mem[p.dst][offset..offset + |payload|]))
  {
    hide Router.ValidateAccess, Response, StoreLocal, Assign;
    GrantedIsNonNegative(f, p, |p.payload|, true);
    var offset := GetOr(p.meta.offset, 0);
    var mem := f.mem[p.dst];
    StoreLocalIsAssign(mem, offset, p.payload);
    AssignInjective(mem, offset, payload, p.payload);
    AssignInjective(mem, offset, payload, mem[offset..offset + |payload|]);
    AssignBack(mem, offset, |payload|);
  }

  lemma AssignBack(mem: seq<byte>, offset: nat, n: nat)
    requires offset + n <= |mem|
    ensures Assign(mem, offset, offset + n, mem[offset..offset + n]) == mem
  {
  }

  lemma AssignInjective(mem: seq<byte>, offset: nat, a: seq<byte>, b: seq<byte>)
    requires |a| == |b| && offset + |a| <= |mem|
    ensures Assign(mem, offset, offset + |a|, a) == Assign(mem, offset, offset + |b|, b) <==> a == b
  {
    assert Assign(mem, offset, offset + |a|, a)[offset..offset + |a|] == a;
    assert Assign(mem, offset, offset + |b|, b)[offset..offset + |b|] == b;
  }

  /** Atomic operations are not forwarded: agreement survives exactly if the word keeps its value. */
  lemma AtomicKeepsAgreementIff(c: Cip.Crypto, f: State, p: Pkt)
    requires IsAtomic(p.opcode) && p.meta.segmentId.Some? && Gate(c, f, p).1.Plain?
    requires AccessOf(f, p, 8, true) == Router.Granted && InMemory(f, p, 8)
    requires Process(c, f, p).answer.Reply?
    ensures GetOr(p.meta.offset, 0) >= 0
    ensures var w := FabricLog.WordIn(f.mem[p.dst], GetOr(p.meta.offset, 0));
      && Process(c, f, p).forwards == map[] && p.dst in Process(c, f, p).state.mem
      && (Process(c, f, p).state.mem[p.dst] == f.mem[p.dst] <==> FabricLog.NextWord(RmwOf(p), w) == w)
  {
    hide Gate, Process, IsAtomic, HandleAtomic, RmwOf, UpdateWord, Router.ValidateAccess;
    FabricLog.ProcessOfAtomic(c, f, p);
    UpdateKeepsAgreementIff(f, p);
  }

  lemma UpdateKeepsAgreementIff(f: State, p: Pkt)
    requires p.meta.segmentId.Some? && AccessOf(f, p, 8, true) == Router.Granted && InMemory(f, p, 8)
    requires HandleAtomic(f, p).answer.Reply?
    ensures GetOr(p.meta.offset, 0) >= 0
    ensures var w := FabricLog.WordIn(f.mem[p.dst], GetOr(p.meta.offset, 0));
      && HandleAtomic(f, p).forwards == map[] && p.dst in HandleAtomic(f, p).state.mem
      && (HandleAtomic(f, p).state.mem[p.dst] == f.mem[p.dst] <==> FabricLog.NextWord(RmwOf(p), w) == w)
  {
    hide Router.ValidateAccess, Response, RmwOf, UpdateWord;
    GrantedIsNonNegative(f, p, 8, true);
    var offset := GetOr(p.meta.offset, 0);
    var mem := f.mem[p.dst];
    var w := FabricLog.WordIn(mem, offset);
    PackOfUnpack(mem[offset..offset + 8]);
    assert Assign(mem, offset, offset + 8, mem[offset..offset + 8]) == mem;
    var v := FabricLog.NextWord(RmwOf(p), w);
    AssignInjective(mem, offset, Be(v, 8), Be(w, 8));
    if UpdateWord(RmwOf(p), w).StoreWord? {
      StoredFits(RmwOf(p), w);
      PowerValues();
      UnpackOfPack(v, 8);
      UnpackOfPack(w, 8);
    }
  }

  lemma StoredFits(k: Rmw, w: nat)
    requires UpdateWord(k, w).StoreWord?
    ensures UpdateWord(k, w).w < WORD_LIMIT
  {
  }

  /** A node that is connected and registers again is given a fresh memory in the fabric, and the guest hears
      nothing of it: agreement survives exactly if the copy was all zeros. */
  lemma ReRegistrationKeepsAgreementIff(c: Cip.Crypto, f: State, p: Pkt)
    requires p.opcode == OP_REG_NODE && p.src in f.mem && Gate(c, f, p).1.Plain?
    ensures var o := Process(c, f, p);
      && o.forwards == map[] && p.src in o.state.mem
      && (forall n :: n in f.mem && n != p.src ==> n in o.state.mem && o.state.mem[n] == f.mem[n])
      && (o.state.mem[p.src] == f.mem[p.src] <==> f.mem[p.src] == Zeros(MEMORY_SIZE))
  {
    hide Gate, Router.Apply, Response, HandleWrite, HandleRead, HandleAtomic, DispatchRest;
    FabricLog.GateKeepsMemory(c, f, p);
  }
}
