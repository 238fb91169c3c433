// What the packets of a run leave in the switch table, by their opcode numbers and fields, and which
// requests it then grants.
module FabricTable {
  import opened Bytes
  import opened Port
  import opened Fabric
  import FabricLog
  import Router
  import Cip

  function Permissions(p: Pkt): string
  {
    if p.meta.permissions.Some? then p.meta.permissions.value else "RW"
  }

  /** REG_NODE 0x20, REG_SEG 0x22, CREATE_JETTY 0x24 and OBMM_EXPORT 0xA0, if their required keys are there. */
  function Caused(p: Pkt): Option<Router.Event>
  {
    if p.opcode == 0x20 then Some(Router.RegNode(p.src))
    else if p.opcode == 0x22 && p.meta.segmentId.Some? && p.meta.size.Some? then
      var base := if p.meta.baseAddr.Some? then p.meta.baseAddr.value else 0;
      Some(Router.RegSeg(p.src, p.meta.segmentId.value, base, p.meta.size.value, p.token, Permissions(p)))
    else if p.opcode == 0x24 && p.meta.localJetty.Some? && p.meta.remoteNode.Some? && p.meta.remoteJetty.Some? then
      Some(Router.NewJetty(p.src, p.meta.localJetty.value, p.meta.remoteNode.value, p.meta.remoteJetty.value, p.token))
    else if p.opcode == 0xA0 && p.meta.size.Some? then
      Some(Router.Export(p.src, p.meta.size.value, p.token, Permissions(p)))
    else None
  }

  /** Only packets that pass the gate reach the table, and only a connected node can leave it. */
  function TableEvent(c: Cip.Crypto, f: State, e: Event): Option<Router.Event>
  {
    match e
    case Recv(p) => if Gate(c, f, p).1.Plain? then Caused(p) else None
    case Detach(n) => if n in f.mem then Some(Router.UnregNode(n)) else None
  }

  lemma HandlersKeepTable(f: State, p: Pkt, payload: seq<byte>)
    ensures HandleWrite(f, p, payload).state.table == f.table
    ensures HandleRead(f, p).state.table == f.table
    ensures HandleImport(f, p).state.table == f.table
  {
    hide Router.ValidateAccess, Router.ImportPool, Response, Assign, PySlice;
  }

  lemma AtomicKeepsTable(f: State, p: Pkt)
    ensures HandleAtomic(f, p).state.table == f.table
  {
    hide Router.ValidateAccess, Response, Assign, UnBe, Be, UpdateWord, RmwOf;
  }

  lemma ControlTable(f: State, p: Pkt)
    requires IsControl(p.opcode)
    ensures DispatchControl(f, p).state.table
      == if Caused(p).Some? then Router.Apply(f.table, Caused(p).value) else f.table
  {
    hide Router.Apply, Response;
  }

  lemma RestTable(f: State, p: Pkt)
    requires !IsControl(p.opcode)
    ensures DispatchRest(f, p).state.table
      == if Caused(p).Some? then Router.Apply(f.table, Caused(p).value) else f.table
  {
    hide Router.Apply, Router.ImportPool, Response;
  }

  lemma OthersCauseNothing(p: Pkt)
    ensures IsWrite(p.opcode) || IsRead(p.opcode) || IsAtomic(p.opcode) ==> Caused(p).None?
  {
  }

  lemma DispatchTable(f: State, p: Pkt, payload: seq<byte>)
    ensures Dispatch(f, p, payload).state.table
      == if Caused(p).Some? then Router.Apply(f.table, Caused(p).value) else f.table
  {
    hide Caused, HandleAtomic, HandleWrite, DispatchControl, HandleRead, DispatchRest, Router.Apply;
    hide IsControl, IsWrite, IsRead, IsAtomic;
    OthersCauseNothing(p);
    HandlersKeepTable(f, p, payload);
    AtomicKeepsTable(f, p);
    if IsControl(p.opcode) { ControlTable(f, p); } else { RestTable(f, p); }
  }

  lemma StepTable(c: Cip.Crypto, f: State, e: Event)
    ensures Step(c, f, e).table
      == if TableEvent(c, f, e).Some? then Router.Apply(f.table, TableEvent(c, f, e).value) else f.table
  {
    hide Gate, Dispatch, Caused, Response, Router.Apply;
    if e.Recv? {
      FabricLog.GateKeepsMemory(c, f, e.pkt);
      var (g, r) := Gate(c, f, e.pkt);
      if r.Plain? { DispatchTable(g, e.pkt, r.text); }
    }
  }

  /** The table events of a run, in order. */
  function TableEvents(c: Cip.Crypto, es: seq<Event>): seq<Router.Event>
  {
    if es == [] then []
    else
      var e := TableEvent(c, Run(c, es[..|es| - 1]), es[|es| - 1]);
      TableEvents(c, es[..|es| - 1]) + if e.Some? then [e.value] else []
  }

  /** The switch table of a run is that of its table events: what is proved of histories of the table (entries,
      jetties, pools, imports) holds of the packets. */
  lemma {:induction false} TableFollows(c: Cip.Crypto, es: seq<Event>)
    ensures Run(c, es).table == Router.RunEvents(TableEvents(c, es))
  {
    hide TableEvent, Step, Router.Apply;
    if es != [] {
      var before, e := es[..|es| - 1], es[|es| - 1];
      TableFollows(c, before);
      StepTable(c, Run(c, before), e);
      var h := TableEvents(c, before);
      var o := TableEvent(c, Run(c, before), e);
      if o.Some? {
        assert (h + [o.value])[..|h|] == h;
      } else {
        assert h + [] == h;
      }
    }
  }

  // ---------- segments ----------

  /** The pools exported so far. */
  function Pools(c: Cip.Crypto, es: seq<Event>): nat
  {
    Router.Exports(TableEvents(c, es))
  }

  lemma NextPool(c: Cip.Crypto, es: seq<Event>)
    ensures Run(c, es).table.nextPool == 1 + Pools(c, es)
  {
    hide Run, TableEvents;
    TableFollows(c, es);
    Router.NextPoolCounts(TableEvents(c, es));
  }

  predicate Passed(c: Cip.Crypto, es: seq<Event>, i: nat)
  {
    i < |es| && es[i].Recv? && Gate(c, Run(c, es[..i]), es[i].pkt).1.Plain?
  }

  /** REG_SEG for the segment, or OBMM_EXPORT under its number, both with a size. */
  predicate Fits(p: Pkt, nextPool: int, node: nat, seg: int)
  {
    && p.src == node && p.meta.size.Some?
    && ((p.opcode == 0x22 && p.meta.segmentId == Some(seg)) || (p.opcode == 0xA0 && seg == nextPool))
  }

  /** Event i of a run is a packet of the node that registers the segment, or exports it under the next number. */
  predicate Sets(c: Cip.Crypto, es: seq<Event>, i: nat, node: nat, seg: int)
  {
    Passed(c, es, i) && Fits(es[i].pkt, 1 + Pools(c, es[..i]), node, seg)
  }

  predicate Leaves(c: Cip.Crypto, es: seq<Event>, i: nat, node: nat)
  {
    i < |es| && es[i] == Detach(node) && node in Run(c, es[..i]).mem
  }

  /** ... and since then the node has neither set it again nor left. */
  ghost predicate Standing(c: Cip.Crypto, es: seq<Event>, i: nat, node: nat, seg: int)
  {
    && Sets(c, es, i, node, seg)
    && forall j: nat :: i < j < |es| ==> !Sets(c, es, j, node, seg) && !Leaves(c, es, j, node)
  }

  /** The record the packet makes. */
  function RecordOf(p: Pkt, seg: int): Router.Segment
    requires p.meta.size.Some?
  {
    var base := if p.opcode == 0x22 && p.meta.baseAddr.Some? then p.meta.baseAddr.value else 0;
    Router.Segment(seg, p.src, base, p.meta.size.value, p.token, Router.Upper(Permissions(p)))
  }

  lemma SetsPrefix(c: Cip.Crypto, es: seq<Event>, i: nat, k: nat, node: nat, seg: int)
    requires i < k <= |es|
    ensures Sets(c, es[..k], i, node, seg) == Sets(c, es, i, node, seg)
    ensures Leaves(c, es[..k], i, node) == Leaves(c, es, i, node)
  {
    hide Run, Gate;
    assert es[..k][..i] == es[..i];
  }

  /** The entry a packet leaves behind. */
  lemma CausedEntry(t: Router.Table, p: Pkt, node: nat, seg: int)
    ensures Router.Entry(if Caused(p).Some? then Router.Apply(t, Caused(p).value) else t, node, seg)
      == if Fits(p, t.nextPool, node, seg) then Some(RecordOf(p, seg)) else Router.Entry(t, node, seg)
  {
    hide Router.Apply, Router.Entry, Router.Upper;
    if Caused(p).Some? { Router.EntryAfter(t, Caused(p).value, node, seg); }
  }

  lemma SizedIfFits(p: Pkt, nextPool: int, node: nat, seg: int)
    ensures Fits(p, nextPool, node, seg) ==> p.meta.size.Some?
  {
  }

  /** What the last event does to the entry under (node, seg). */
  lemma LastEvent(c: Cip.Crypto, es: seq<Event>, node: nat, seg: int)
    requires es != []
    ensures var last := |es| - 1;
      Router.Entry(Run(c, es).table, node, seg) ==
        if Sets(c, es, last, node, seg) then Some(RecordOf(es[last].pkt, seg))
        else if Leaves(c, es, last, node) then None
        else Router.Entry(Run(c, es[..last]).table, node, seg)
  {
    hide Gate, Step, Run, Caused, Fits, RecordOf, Router.Apply, Router.Entry, Pools;
    var before, e := es[..|es| - 1], es[|es| - 1];
    var f := Run(c, before);
    StepTable(c, f, e);
    NextPool(c, before);
    FabricLog.RunMore(c, before, e);
    assert before + [e] == es;
    if e.Recv? {
      CausedEntry(f.table, e.pkt, node, seg);
      SizedIfFits(e.pkt, f.table.nextPool, node, seg);
    } else if e.node in f.mem {
      Router.EntryAfter(f.table, Router.UnregNode(e.node), node, seg);
    }
  }

  /** A segment entry exists exactly when some packet stands that made it, and it is the packet's record. */
  lemma {:induction false} EntryStands(c: Cip.Crypto, es: seq<Event>, node: nat, seg: int, r: Router.Segment)
    ensures Router.Entry(Run(c, es).table, node, seg) == Some(r)
      <==> exists i: nat :: Standing(c, es, i, node, seg) && r == RecordOf(es[i].pkt, seg)
  {
    hide Run, Sets, Leaves, RecordOf;
    if es == [] {
      FabricLog.RunNothing(c);
      NothingSets(c, node, seg);
    } else {
      var last := |es| - 1;
      LastEvent(c, es, node, seg);
      SetsInside(c, es, node, seg);
      if Sets(c, es, last, node, seg) {
        assert Standing(c, es, last, node, seg);
      } else {
        EntryStands(c, es[..last], node, seg, r);
        StandingPrefix(c, es, node, seg);
        SetsInside(c, es[..last], node, seg);
        if i: nat :| Standing(c, es[..last], i, node, seg) && r == RecordOf(es[..last][i].pkt, seg) {
          assert es[..last][i] == es[i];
        }
        if i: nat :| Standing(c, es, i, node, seg) && r == RecordOf(es[i].pkt, seg) {
          assert Standing(c, es[..last], i, node, seg) && es[..last][i] == es[i];
        }
      }
    }
  }

  lemma NothingSets(c: Cip.Crypto, node: nat, seg: int)
    ensures forall i: nat :: !Sets(c, [], i, node, seg)
  {
  }

  lemma SetsInside(c: Cip.Crypto, es: seq<Event>, node: nat, seg: int)
    ensures forall i: nat :: Sets(c, es, i, node, seg) ==> i < |es| && es[i].Recv? && es[i].pkt.meta.size.Some?
  {
    hide Run, Gate;
  }

  /** Without a new setting, what stood before the last event stands unless the node has left. */
  lemma StandingPrefix(c: Cip.Crypto, es: seq<Event>, node: nat, seg: int)
    requires es != [] && !Sets(c, es, |es| - 1, node, seg)
    ensures forall i: nat ::
      Standing(c, es, i, node, seg) <==> Standing(c, es[..|es| - 1], i, node, seg) && !Leaves(c, es, |es| - 1, node)
    ensures forall i: nat :: i < |es| - 1 ==> es[..|es| - 1][i] == es[i]
  {
    hide Sets, Leaves;
    var last := |es| - 1;
    SetsInside(c, es, node, seg);
    SetsInside(c, es[..last], node, seg);
    forall i: nat | i < last
      ensures Sets(c, es[..last], i, node, seg) == Sets(c, es, i, node, seg)
      ensures Leaves(c, es[..last], i, node) == Leaves(c, es, i, node)
    {
      SetsPrefix(c, es, i, last, node, seg);
    }
    forall i: nat
      ensures Standing(c, es, i, node, seg)
        <==> Standing(c, es[..last], i, node, seg) && !Leaves(c, es, last, node)
    {
      if Standing(c, es, i, node, seg) {
        assert i < last;
        forall j: nat | i < j < last
          ensures !Sets(c, es[..last], j, node, seg) && !Leaves(c, es[..last], j, node)
        {
          assert !Sets(c, es, j, node, seg) && !Leaves(c, es, j, node);
        }
      } else if Standing(c, es[..last], i, node, seg) && !Leaves(c, es, last, node) {
        forall j: nat | i < j < |es|
          ensures !Sets(c, es, j, node, seg) && !Leaves(c, es, j, node)
        {
          if j < last {
            assert !Sets(c, es[..last], j, node, seg) && !Leaves(c, es[..last], j, node);
          }
        }
      }
    }
  }

  // ---------- access ----------

  /** The packet's segment covers the range, its token is 0 or the right one, and its permissions have the letter. */
  predicate Allows(p: Pkt, offset: int, length: int, isWrite: bool, token: int)
  {
    && p.meta.size.Some? && 0 <= offset && offset + length <= p.meta.size.value
    && (p.token == 0 || p.token == token) && Router.Lets(Permissions(p), isWrite)
  }

  /** In every run an access is granted exactly if a packet stands that set the segment and allows it. */
  lemma AccessStands(c: Cip.Crypto, es: seq<Event>, node: nat, seg: int, offset: int, length: int, isWrite: bool,
                     token: int)
    ensures Router.ValidateAccess(Run(c, es).table, node, seg, offset, length, isWrite, token) == Router.Granted
      <==> exists i: nat :: Standing(c, es, i, node, seg) && Allows(es[i].pkt, offset, length, isWrite, token)
  {
    hide Run, Sets, Leaves, Router.Upper, Router.Lets;
    SetsInside(c, es, node, seg);
    var t := Run(c, es).table;
    forall i: nat | Standing(c, es, i, node, seg)
      ensures Router.ValidateAccess(t, node, seg, offset, length, isWrite, token) == Router.Granted
        <==> Allows(es[i].pkt, offset, length, isWrite, token)
    {
      var p := es[i].pkt;
      EntryStands(c, es, node, seg, RecordOf(p, seg));
      SetsOwn(c, es, i, node, seg);
      Router.RecordAccess(t, node, seg, RecordOf(p, seg).base, p.meta.size.value, p.token, Permissions(p),
                          offset, length, isWrite, token);
    }
    if Router.Entry(t, node, seg).Some? {
      EntryStands(c, es, node, seg, Router.Entry(t, node, seg).value);
    }
  }

  lemma SetsOwn(c: Cip.Crypto, es: seq<Event>, i: nat, node: nat, seg: int)
    ensures Sets(c, es, i, node, seg) ==> es[i].pkt.src == node
  {
    hide Run, Gate;
  }

  /** The range a request names: the length of its payload for a write, eight for an atomic operation, and for a
      read what its metadata says. */
  predicate Asks(p: Pkt, seg: int, offset: int, length: int)
  {
    && p.meta.segmentId == Some(seg) && Carries(p.meta.offset, 0, offset)
    && (p.opcode in {0x32, 0x60, 0x61, 0x70} ==> length == |p.payload|)
    && (p.opcode in {0x30, 0x62} ==> Carries(p.meta.length, 0, length))
    && (p.opcode in {0x34, 0x35, 0x36, 0x37, 0x39, 0x67, 0x68} ==> length == 8)
  }

  lemma HandlersRefuse(f: State, p: Pkt, payload: seq<byte>, seg: int, offset: int, length: int)
    requires Asks(p, seg, offset, length)
    ensures p.opcode in {0x32, 0x60, 0x61, 0x70} ==>
      var a := Router.ValidateAccess(f.table, p.dst, seg, offset, length, true, p.token);
      Router.Granted != a <==> HandleWrite(f, p, payload).answer == Reply(Response(0xF1, 0, p, Failed(a), []))
    ensures p.opcode in {0x30, 0x62} ==>
      var a := Router.ValidateAccess(f.table, p.dst, seg, offset, length, false, p.token);
      Router.Granted != a <==> HandleRead(f, p).answer == Reply(Response(0xF1, 0, p, Failed(a), []))
    ensures p.opcode in {0x34, 0x35, 0x36, 0x37, 0x39, 0x67, 0x68} ==>
      var a := Router.ValidateAccess(f.table, p.dst, seg, offset, length, true, p.token);
      Router.Granted != a <==> HandleAtomic(f, p).answer == Reply(Response(0xF1, 0, p, Failed(a), []))
  {
    hide Router.ValidateAccess, Assign, PySlice, UnBe, Be, UpdateWord, RmwOf;
  }

  /** A read, write or atomic request behind the gate is refused with the reason of the access check, exactly
      unless a packet stands that set its segment and allows the range. */
  lemma RefusedIff(c: Cip.Crypto, es: seq<Event>, p: Pkt, seg: int, offset: int, length: int)
    requires p.opcode in {0x30, 0x32, 0x34, 0x35, 0x36, 0x37, 0x39, 0x60, 0x61, 0x62, 0x67, 0x68, 0x70}
    requires Gate(c, Run(c, es), p).1.Plain? && Asks(p, seg, offset, length)
    ensures var isWrite := p.opcode != 0x30 && p.opcode != 0x62;
      var a := Router.ValidateAccess(Run(c, es).table, p.dst, seg, offset, length, isWrite, p.token);
      var granted := exists i: nat ::
        Standing(c, es, i, p.dst, seg) && Allows(es[i].pkt, offset, length, isWrite, p.token);
      Process(c, Run(c, es), p).answer == Reply(Response(0xF1, 0, p, Failed(a), [])) <==> !granted
  {
    hide Run, Gate, Process, HandleWrite, HandleRead, HandleAtomic, Router.ValidateAccess, Response, Standing, Allows;
    var f := Run(c, es);
    AccessStands(c, es, p.dst, seg, offset, length, p.opcode != 0x30 && p.opcode != 0x62, p.token);
    if p.opcode == 0x30 || p.opcode == 0x62 {
      FabricLog.ProcessOfRead(c, f, p);
    } else if p.opcode in {0x32, 0x60, 0x61, 0x70} {
      FabricLog.ProcessOfWrite(c, f, p);
    } else {
      FabricLog.ProcessOfAtomic(c, f, p);
    }
    HandlersRefuse(f, p, Gate(c, f, p).1.text, seg, offset, length);
  }

  // ---------- connected nodes ----------

  /** REG_NODE 0x20 of the node. */
  predicate Joins(c: Cip.Crypto, es: seq<Event>, i: nat, node: nat)
  {
    Passed(c, es, i) && es[i].pkt.opcode == 0x20 && es[i].pkt.src == node
  }

  ghost predicate Joined(c: Cip.Crypto, es: seq<Event>, i: nat, node: nat)
  {
    Joins(c, es, i, node) && forall j :: i < j < |es| ==> es[j] != Detach(node)
  }

  lemma EffectNodes(c: Cip.Crypto, f: State, p: Pkt)
    ensures Process(c, f, p).state.mem.Keys
      == f.mem.Keys + if Gate(c, f, p).1.Plain? && p.opcode == 0x20 then {p.src} else {}
  {
    hide Process, Gate, UpdateWord, RmwOf, UnBe, Be, Assign, FabricLog.WordIn, FabricLog.NextWord;
    hide Router.ValidateAccess;
    FabricLog.DispatchMemory(c, f, p);
  }

  lemma LastNode(c: Cip.Crypto, es: seq<Event>, node: nat)
    requires es != []
    ensures var last := |es| - 1;
      var stays := node in Run(c, es[..last]).mem && es[last] != Detach(node);
      node in Run(c, es).mem <==> Joins(c, es, last, node) || stays
  {
    hide Gate, Process, Run;
    var before, e := es[..|es| - 1], es[|es| - 1];
    FabricLog.RunMore(c, before, e);
    assert before + [e] == es;
    if e.Recv? { EffectNodes(c, Run(c, before), e.pkt); }
  }

  lemma JoinsInside(c: Cip.Crypto, es: seq<Event>, i: nat, node: nat)
    ensures Joins(c, es, i, node) ==> i < |es| && es[i].Recv?
  {
    hide Run, Gate;
  }

  lemma JoinsPrefix(c: Cip.Crypto, es: seq<Event>, i: nat, node: nat)
    requires i < |es| - 1
    ensures Joins(c, es[..|es| - 1], i, node) == Joins(c, es, i, node)
  {
    hide Run, Gate;
    assert es[..|es| - 1][..i] == es[..i];
  }

  lemma JoinedPrefix(c: Cip.Crypto, es: seq<Event>, i: nat, node: nat)
    requires i < |es| - 1
    ensures Joined(c, es, i, node) <==> Joined(c, es[..|es| - 1], i, node) && es[|es| - 1] != Detach(node)
  {
    hide Joins;
    var last := |es| - 1;
    JoinsPrefix(c, es, i, node);
    assert forall j :: i < j < last ==> es[..last][j] == es[j];
    if Joined(c, es, i, node) { assert es[last] != Detach(node); }
  }

  /** A node is connected exactly when it joined and has not left since. */
  lemma {:induction false} ConnectedIff(c: Cip.Crypto, es: seq<Event>, node: nat)
    ensures node in Run(c, es).mem <==> exists i: nat :: Joined(c, es, i, node)
  {
    hide Run, Joins;
    if es == [] {
      FabricLog.RunNothing(c);
      forall i: nat
        ensures !Joined(c, es, i, node)
      {
        JoinsInside(c, es, i, node);
      }
    } else {
      var last := |es| - 1;
      ConnectedIff(c, es[..last], node);
      LastNode(c, es, node);
      forall i: nat
        ensures Joined(c, es, i, node) ==> i <= last
        ensures Joined(c, es[..last], i, node) ==> i < last
      {
        JoinsInside(c, es, i, node);
        JoinsInside(c, es[..last], i, node);
      }
      forall i: nat | i < last
        ensures Joined(c, es, i, node) <==> Joined(c, es[..last], i, node) && es[last] != Detach(node)
      {
        JoinedPrefix(c, es, i, node);
      }
      if Joins(c, es, last, node) { assert Joined(c, es, last, node); }
    }
  }
}
