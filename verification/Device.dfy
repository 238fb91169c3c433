// unifiedbus/device.py: the guest's side of a connection: sequence numbers, the table of pending
// replies, and the replica of the node's memory.
module Device {
  import opened Bytes
  import opened Port
  import opened Fabric
  import opened FabricReplies

  /** The fields of UBDevice that its threads share under one lock. */
  datatype Guest = Guest(nextSeq: nat, pending: map<nat, Option<Pkt>>, mem: seq<byte>)

  const NEW_GUEST_SEQ: nat := 1

  /** Writes the receive loop applies to the local memory. */
  predicate IsMirrored(op: nat)
  {
    op == OP_URMA_WRITE || op == OP_CDMA_SUBMIT
  }

  /** `mem[i:j] = data` under a length check on i + len(data), as Python evaluates it. */
  function StoreLocal(mem: seq<byte>, offset: int, data: seq<byte>): seq<byte>
  {
    if offset + |data| > |mem| then mem
    else
      var lo := PyIndex(|mem|, offset);
      var hi := PyIndex(|mem|, offset + |data|);
      Assign(mem, lo, if hi < lo then lo else hi, data)
  }

  /** What an incoming packet does to the local memory when it is no awaited reply. */
  function Mirror(mem: seq<byte>, p: Pkt): seq<byte>
  {
    if IsMirrored(p.opcode) then StoreLocal(mem, GetOr(p.meta.offset, 0), p.payload) else mem
  }

  predicate IsAwaited(g: Guest, p: Pkt)
  {
    IsResponse(p.opcode) && p.seqNum in g.pending
  }

  /** One packet of the receive loop. */
  function Deliver(g: Guest, p: Pkt): Guest
  {
    if IsAwaited(g, p) then g.(pending := g.pending[p.seqNum := Some(p)])
    else g.(mem := Mirror(g.mem, p))
  }

  function Await(g: Guest, seqNum: nat): Guest
  {
    g.(pending := g.pending[seqNum := None])
  }

  function Forget(g: Guest, seqNum: nat): Guest
  {
    g.(pending := g.pending - {seqNum})
  }

  predicate HasReply(g: Guest, seqNum: nat)
  {
    seqNum in g.pending && g.pending[seqNum].Some?
  }

  /** A packet as sendall got it, and whether its reply slot was there at that moment. */
  datatype Transmission = Transmission(pkt: Pkt, awaited: bool)

  // ---------- the object ----------

  class UBDevice {
    var seqCounter: nat
    var pendingReplies: map<nat, Option<Pkt>>
    var localMemory: seq<byte>
    ghost var wire: seq<Transmission>    // what has been handed to sendall

    ghost function Abs(): Guest
      reads this
    {
      Guest(seqCounter, pendingReplies, localMemory)
    }

    constructor ()
      ensures Abs() == Guest(1, map[], Zeros(64 * 1024 * 1024)) && wire == []
    {
      seqCounter := NEW_GUEST_SEQ;
      pendingReplies := map[];
      localMemory := Zeros(MEMORY_SIZE);
      wire := [];
    }

    method GetSeq() returns (s: nat)
      modifies this`seqCounter
      ensures s == old(seqCounter)
      ensures Abs() == old(Abs()).(nextSeq := s + 1)
    {
      s := seqCounter;
      seqCounter := seqCounter + 1;
    }

    /** sendall. */
    method SendAll(p: Pkt)
      modifies this`wire
      ensures wire == old(wire) + [Transmission(p, p.seqNum in pendingReplies)]
    {
      wire := wire + [Transmission(p, p.seqNum in pendingReplies)];
    }

    /** send_sync up to the wait: the slot is installed when the bytes leave; if they cannot be packed or sent
        the slot is removed again. */
    method BeginSend(p: Pkt, sendable: bool) returns (sent: bool)
      modifies this`pendingReplies, this`wire
      ensures sent == sendable
      ensures sent ==> Abs() == Await(old(Abs()), p.seqNum) && wire == old(wire) + [Transmission(p, true)]
      ensures !sent ==> Abs() == Forget(old(Abs()), p.seqNum) && wire == old(wire)
    {
      pendingReplies := pendingReplies[p.seqNum := None];
      if !sendable {
        pendingReplies := pendingReplies - {p.seqNum};
        assert pendingReplies == old(pendingReplies) - {p.seqNum};
        return false;
      }
      SendAll(p);
      return true;
    }

    /** The body of the inner receive loop. */
    method OnPacket(p: Pkt)
      modifies this`pendingReplies, this`localMemory
      ensures Abs() == Deliver(old(Abs()), p)
    {
      if IsResponse(p.opcode) && p.seqNum in pendingReplies {
        pendingReplies := pendingReplies[p.seqNum := Some(p)];
      } else if IsMirrored(p.opcode) {
        var offset := GetOr(p.meta.offset, 0);
        if offset + |p.payload| <= |localMemory| {
          var lo := PyIndex(|localMemory|, offset);
          var hi := PyIndex(|localMemory|, offset + |p.payload|);
          localMemory := Assign(localMemory, lo, if hi < lo then lo else hi, p.payload);
        }
      }
    }

    /** The end of send_sync: the reply if there is one, or the timeout. */
    method EndSend(seqNum: nat) returns (reply: Option<Pkt>)
      requires seqNum in pendingReplies
      modifies this`pendingReplies
      ensures reply == old(pendingReplies)[seqNum]
      ensures Abs() == Forget(old(Abs()), seqNum)
    {
      reply := pendingReplies[seqNum];
      pendingReplies := pendingReplies - {seqNum};
    }
  }

  // ---------- small facts ----------

  /** For offsets the fabric lets through the guest stores what the fabric stores, under the same check. */
  lemma StoreLocalIsAssign(mem: seq<byte>, offset: int, data: seq<byte>)
    requires offset >= 0
    ensures StoreLocal(mem, offset, data)
      == if offset + |data| <= |mem| then Assign(mem, offset, offset + |data|, data) else mem
    ensures |StoreLocal(mem, offset, data)| == |mem|
  {
    if offset + |data| <= |mem| { OverwriteAt(mem, offset, data); }
  }

  /** A packet takes a reply slot, whatever that holds, exactly if it has a response opcode and the slot's
      number, whoever sent it: only the opcodes keep requests of other guests out of the table, and nothing keeps
      a reply there until it is collected. */
  lemma SlotTakenExactly(g: Guest, p: Pkt, seqNum: nat)
    requires seqNum in g.pending && g.pending[seqNum] != Some(p)
    ensures Deliver(g, p).pending.Keys == g.pending.Keys
    ensures Deliver(g, p).pending[seqNum] == Some(p) <==> IsResponse(p.opcode) && p.seqNum == seqNum
  {
  }

  /** The receive loop, by opcode number: a reply someone waits for goes into its slot; a write 0x60 or 0x70 that is
      not too long for the memory replaces the slice Python takes, which for an offset that is not negative are the
      addressed cells; anything else is dropped. */
  lemma DeliverExact(g: Guest, p: Pkt, offset: int)
    requires Carries(p.meta.offset, 0, offset)
    ensures var r := Deliver(g, p);
      var n, end := |g.mem|, offset + |p.payload|;
      var lo := if offset >= 0 then offset else if n + offset >= 0 then n + offset else 0;
      var hi := if end >= 0 then end else if n + end >= 0 then n + end else 0;
      var awaited := p.seqNum in g.pending
        && p.opcode in {0x02, 0x14, 0x31, 0x33, 0x3A, 0x51, 0x63, 0x69, 0x71, 0x81, 0x83, 0x91, 0x94, 0xF0, 0xF1};
      && r.nextSeq == g.nextSeq
      && r.pending == (if awaited then g.pending[p.seqNum := Some(p)] else g.pending)
      && r.mem == if p.opcode in {0x60, 0x70} && end <= n
           then g.mem[..lo] + p.payload + g.mem[if lo <= hi then hi else lo..] else g.mem
  {
  }
}
