// daemon/fabric.py: the switch object. Every method computes the corresponding function of Fabric
// on the state the object stands for.
module FabricSwitch {
  import opened Bytes
  import opened Port
  import opened Fabric
  import Router
  import Cip

  /** The connection record of a node, with its simulated memory. */
  class UBNodeConnection {
    const nodeId: nat
    var localMemory: seq<byte>

    constructor (nodeId: nat)
      ensures this.nodeId == nodeId && localMemory == Zeros(MEMORY_SIZE)
    {
      this.nodeId := nodeId;
      localMemory := Zeros(MEMORY_SIZE);
    }
  }

  class UBFabricSwitch {
    const switchTable: Router.UBMMSwitch
    const cipEngine: Cip.CIPEngine
    var nodes: map<nat, UBNodeConnection>

    ghost predicate Valid()
      reads this, cipEngine, nodes.Values
    {
      cipEngine.Valid() && forall n :: n in nodes ==> nodes[n].nodeId == n
    }

    ghost function Memories(): map<nat, seq<byte>>
      reads this, nodes.Values
    {
      map n | n in nodes :: nodes[n].localMemory
    }

    ghost function Abs(): State
      requires Valid()
      reads this, cipEngine, switchTable, nodes.Values
    {
      State(switchTable.State(), cipEngine.State(), Memories())
    }

    constructor (crypto: Cip.Crypto)
      ensures Valid() && Abs() == START && cipEngine.crypto == crypto
      ensures fresh(switchTable) && fresh(cipEngine)
    {
      switchTable := new Router.UBMMSwitch();
      cipEngine := new Cip.CIPEngine(crypto, SUITE_AES_256, WINDOW);
      nodes := map[];
    }

    /** What deserialisation guarantees of a packet. */
    ghost predicate FromWire(p: Pkt)
    {
      p.token < 0x1_0000_0000 && p.seqNum < 0x1_0000_0000 && |p.payload| < 0x1_0000_0000
    }

    method ProcessPacket(p: Pkt) returns (answer: Answer, forwards: map<nat, Pkt>)
      requires Valid() && FromWire(p)
      modifies this, switchTable, cipEngine, nodes.Values
      ensures Valid() && fresh(nodes.Values - old(nodes.Values))
      ensures Outcome(Abs(), answer, forwards) == Process(cipEngine.crypto, old(Abs()), p)
    {
      hide Dispatch, Response, Cip.Open;
      var payload := p.payload;
      if IsCip(p) {
        var opened' := cipEngine.DecryptAndVerify(p.payload, p.tag, p.token, p.seqNum, p.src);
        assert Memories() == old(Memories());
        if opened'.Rejected? {
          return Reply(Response(OP_RESP_ERR, 0, p, CipFailed(opened'.error), [])), map[];
        }
        payload := opened'.text;
      }
      answer, forwards := Handle(p, payload);
    }

    /** The if-chain of _process_packet behind the CIP gate. */
    method Handle(p: Pkt, payload: seq<byte>) returns (answer: Answer, forwards: map<nat, Pkt>)
      requires Valid()
      modifies this, switchTable, nodes.Values
      ensures Valid() && fresh(nodes.Values - old(nodes.Values))
      ensures Outcome(Abs(), answer, forwards) == Dispatch(old(Abs()), p, payload)
    {
      hide DispatchControl, HandleWrite, HandleRead, HandleAtomic, DispatchRest, IsControl, IsWrite, IsRead, IsAtomic;
      if IsControl(p.opcode) {
        answer := Control(p);
        forwards := map[];
      } else if IsWrite(p.opcode) {
        answer, forwards := Write(p, payload);
      } else if IsRead(p.opcode) {
        answer := Read(p);
        forwards := map[];
      } else if IsAtomic(p.opcode) {
        answer := Atomic(p);
        forwards := map[];
      } else {
        answer, forwards := Rest(p);
      }
    }

    method Control(p: Pkt) returns (answer: Answer)
      requires Valid()
      modifies this, switchTable
      ensures Valid() && fresh(nodes.Values - old(nodes.Values))
      ensures Outcome(Abs(), answer, map[]) == DispatchControl(old(Abs()), p)
    {
      hide Response, Router.Apply;
      assert Memories() == old(Memories());
      if p.opcode == OP_LINK_TRAIN_REQ {
        return Reply(Response(OP_LINK_TRAIN_ACK, 0, p, Done, []));
      } else if p.opcode == OP_LINK_CREDIT_UPDATE {
        return Silent;
      } else if p.opcode == OP_TRANS_PING {
        return Reply(Response(OP_TRANS_PONG, 0, p, Done, []));
      } else if p.opcode == OP_REG_NODE {
        var conn := new UBNodeConnection(p.src);
        nodes := nodes[p.src := conn];
        switchTable.RegisterNode(p.src);
        assert Memories() == old(Memories())[p.src := Zeros(MEMORY_SIZE)];
        return Reply(Response(OP_RESP_OK, 0, p, Done, []));
      } else if p.opcode == OP_REG_SEG {
        if p.meta.segmentId.None? || p.meta.size.None? {
          return Raises;
        }
        var _ := switchTable.RegisterSegment(p.src, p.meta.segmentId.value, GetOr(p.meta.baseAddr, 0),
                                             p.meta.size.value, p.token, GetOr(p.meta.permissions, "RW"));
        assert Memories() == old(Memories());
        return Reply(Response(OP_RESP_OK, 0, p, Done, []));
      } else {
        if p.meta.localJetty.None? || p.meta.remoteNode.None? || p.meta.remoteJetty.None? {
          return Raises;
        }
        var _ := switchTable.CreateJetty(p.src, p.meta.localJetty.value, p.meta.remoteNode.value,
                                         p.meta.remoteJetty.value, p.token);
        assert Memories() == old(Memories());
        return Reply(Response(OP_RESP_OK, 0, p, Done, []));
      }
    }

    method Write(p: Pkt, payload: seq<byte>) returns (answer: Answer, forwards: map<nat, Pkt>)
      requires Valid()
      modifies nodes.Values
      ensures Valid()
      ensures Outcome(Abs(), answer, forwards) == HandleWrite(old(Abs()), p, payload)
    {
      hide Response, Router.ValidateAccess, Assign;
      assert Memories() == old(Memories());
      if p.meta.segmentId.None? {
        return Raises, map[];
      }
      var offset := GetOr(p.meta.offset, 0);
      var length := |p.payload|;
      var access := Router.ValidateAccess(switchTable.State(), p.dst, p.meta.segmentId.value, offset, length, true,
                                          p.token);
      if access != Router.Granted {
        return Reply(Response(OP_RESP_ERR, 0, p, Failed(access), [])), map[];
      }
      GrantedIsNonNegative(old(Abs()), p, length, true);
      forwards := map[];
      if p.dst in nodes {
        var conn := nodes[p.dst];
        if offset + length <= |conn.localMemory| {
          conn.localMemory := Assign(conn.localMemory, offset, offset + length, payload);
          assert Memories() == old(Memories())[p.dst := conn.localMemory];
        }
        forwards := map[p.dst := p];
      }
      var op := if p.opcode == OP_CDMA_SUBMIT then OP_CDMA_COMPLETE else OP_RESP_OK;
      answer := Reply(Response(op, p.dst, p, Done, []));
    }

    method Read(p: Pkt) returns (answer: Answer)
      requires Valid()
      ensures Outcome(Abs(), answer, map[]) == HandleRead(Abs(), p)
    {
      hide Response, Router.ValidateAccess, PySlice;
      if p.meta.segmentId.None? {
        return Raises;
      }
      var offset := GetOr(p.meta.offset, 0);
      var length := GetOr(p.meta.length, 0);
      var access := Router.ValidateAccess(switchTable.State(), p.dst, p.meta.segmentId.value, offset, length, false,
                                          p.token);
      if access != Router.Granted {
        return Reply(Response(OP_RESP_ERR, 0, p, Failed(access), []));
      }
      var payload := Zeros(if length < 0 then 0 else length);
      if p.dst in nodes && offset + length <= |nodes[p.dst].localMemory| {
        payload := PySlice(nodes[p.dst].localMemory, offset, offset + length);
      }
      var op := if p.opcode == OP_URMA_READ then OP_URMA_READ_RESP else OP_MEM_READ_RESP;
      answer := Reply(Response(op, p.dst, p, Done, payload));
    }

    method Atomic(p: Pkt) returns (answer: Answer)
      requires Valid()
      modifies nodes.Values
      ensures Valid()
      ensures Outcome(Abs(), answer, map[]) == HandleAtomic(old(Abs()), p)
    {
      hide Response, Router.ValidateAccess, Assign, UnBe, Be, UpdateWord, RmwOf;
      assert Memories() == old(Memories());
      if p.meta.segmentId.None? {
        return Raises;
      }
      var offset := GetOr(p.meta.offset, 0);
      var access := Router.ValidateAccess(switchTable.State(), p.dst, p.meta.segmentId.value, offset, 8, true,
                                          p.token);
      if access != Router.Granted {
        return Reply(Response(OP_RESP_ERR, 0, p, Failed(access), []));
      }
      GrantedIsNonNegative(old(Abs()), p, 8, true);
      var original := 0;
      if p.dst in nodes && offset + 8 <= |nodes[p.dst].localMemory| {
        var conn := nodes[p.dst];
        original := UnBe(conn.localMemory[offset..offset + 8]);
        var update := UpdateWord(RmwOf(p), original);
        match update {
          case Keep =>
          case PackError =>
            return Raises;
          case StoreWord(v) =>
            conn.localMemory := Assign(conn.localMemory, offset, offset + 8, Be(v, 8));
            assert Memories() == old(Memories())[p.dst := conn.localMemory];
        }
      }
      var op := if p.opcode == OP_URMA_ATOMIC_CAS || p.opcode == OP_URMA_ATOMIC_ADD
        then OP_URMA_ATOMIC_RESP else OP_MEM_ATOMIC_RESP;
      answer := Reply(Response(op, p.dst, p, Original(original), []));
    }

    method Rest(p: Pkt) returns (answer: Answer, forwards: map<nat, Pkt>)
      requires Valid()
      modifies switchTable
      ensures Valid()
      ensures Outcome(Abs(), answer, forwards) == DispatchRest(old(Abs()), p)
    {
      hide Response, Router.Apply;
      assert Memories() == old(Memories());
      var op := p.opcode;
      forwards := map[];
      if op == OP_SNOOP_REQ || op == OP_CACHE_WB || op == OP_CACHE_EVICT {
        answer := Reply(Response(OP_SNOOP_RESP, p.dst, p, Done, []));
      } else if OP_UMS_SYN <= op <= OP_UMS_FIN || OP_URPC_CALL <= op <= OP_UMQ_SUB {
        if p.dst in nodes {
          forwards := map[p.dst := p];
        }
        answer := Reply(Response(OP_RESP_OK, p.dst, p, Done, []));
      } else if op == OP_OBMM_EXPORT {
        if p.meta.size.None? {
          return Raises, map[];
        }
        var pool := switchTable.ExportMemoryPool(p.src, p.meta.size.value, p.token, GetOr(p.meta.permissions, "RW"));
        assert Memories() == old(Memories());
        answer := Reply(Response(OP_RESP_OK, 0, p, Exported(pool), []));
      } else if op == OP_OBMM_IMPORT {
        if p.meta.poolId.None? {
          return Raises, map[];
        }
        var seg := Router.ImportPool(switchTable.State(), p.meta.poolId.value, p.token);
        if seg.None? {
          answer := Reply(Response(OP_RESP_ERR, 0, p, ImportFailed, []));
        } else {
          answer := Reply(Response(OP_RESP_OK, 0, p, Imported(seg.value), []));
        }
      } else if OP_SENTRY_OOM_BLOCK <= op <= OP_SENTRY_REBOOT_NOTIFY {
        forwards := map n | n in nodes && n != p.src :: p;
        answer := Reply(Response(OP_RESP_OK, 0, p, Done, []));
      } else if op == OP_QUERY_TOPOLOGY || op == OP_QUERY_STATS {
        answer := Reply(Response(OP_RESP_OK, 0, p, Done, []));
      } else if p.dst in nodes {
        forwards := map[p.dst := p];
        answer := Reply(Response(OP_RESP_OK, p.dst, p, Done, []));
      } else {
        answer := Silent;
      }
    }

    /** The end of a connection that had registered a node. */
    method DetachNode(node: nat)
      requires Valid()
      modifies this, switchTable
      ensures Valid() && nodes.Values <= old(nodes.Values)
      ensures Abs() == Step(cipEngine.crypto, old(Abs()), Detach(node))
    {
      hide Router.Apply;
      if node in nodes {
        nodes := nodes - {node};
        switchTable.UnregisterNode(node);
        assert Memories() == old(Memories()) - {node};
      }
    }
  }
}
