// liburma/urma.c: transfers between a local buffer and a remote segment, and the sender's side of an
// encrypted write.
module Urma {
  import opened Bytes
  import opened Silicon
  import opened Driver

  const FLAG_CIP: nat := 0x80

  datatype UrmaSegment = UrmaSegment(id: nat, token: nat, buffer: array<byte>)

  datatype UrmaJetty = UrmaJetty(fd: int, id: nat, remoteNode: nat, token: nat)

  function WriteOf(jetty: nat, segId: nat, offset: nat, data: seq<byte>): Transfer
  {
    Transfer(jetty, OP_WRITE, 0, segId, offset, |data|, data)
  }

  function ReadOf(jetty: nat, segId: nat, offset: nat, buffer: seq<byte>): Transfer
  {
    Transfer(jetty, OP_READ, 0, segId, offset, |buffer|, buffer)
  }

  /** urma_write_encrypted_cip: the sender transforms under its own token and sets the flag. */
  function SealedOf(jetty: nat, token: nat, segId: nat, offset: nat, data: seq<byte>): Transfer
  {
    Transfer(jetty, OP_WRITE, FLAG_CIP, segId, offset, |data|, Transform(data, token))
  }

  /** The local range of a transfer under the library's check: the sum has 64 bits, the length field of the
      request 32. Outside: the check passes, but the range leaves the buffer. */
  datatype Range = Refused | Outside | Within(count: nat)

  function LocalRange(size: nat, from: nat, length: nat): (r: Range)
    ensures r.Within? ==> from + r.count <= size && r.count < U32
    ensures from + length < U64 ==> (r.Refused? <==> from + length > size) && !r.Outside?
  {
    if (from + length) % U64 > size then Refused
    else if from + length % U32 > size then Outside
    else Within(length % U32)
  }

  /** A range is refused exactly if its end, less 2^64 if it reaches that, is beyond the buffer; so a range that
      ends within 64 bits is let in exactly if it lies in the buffer, and one that does not may leave it. */
  lemma LocalRangeExact(size: nat, from: nat, length: nat)
    requires from < 0x1_0000_0000_0000_0000 && length < 0x1_0000_0000_0000_0000
    ensures var wraps := from + length >= 0x1_0000_0000_0000_0000;
      var end := if wraps then from + length - 0x1_0000_0000_0000_0000 else from + length;
      var count := length % 0x1_0000_0000;
      && (LocalRange(size, from, length) == Refused <==> end > size)
      && (LocalRange(size, from, length) == Outside <==> end <= size && from + count > size)
      && (LocalRange(size, from, length) == Within(count) <==> end <= size && from + count <= size)
      && (!wraps ==> LocalRange(size, from, length) != Outside)
  {
    WrapCases(from + length);
  }

  /** The C types of a transfer's arguments. */
  predicate ArgsOk(jetty: UrmaJetty, localOffset: nat, remoteSeg: nat, remoteOffset: nat, length: nat)
  {
    jetty.id < U32 && remoteSeg < U32 && localOffset < U64 && remoteOffset < U64 && length < U64
  }

  // ---------- the library calls ----------

  method RegisterSegment(drv: UbusDriver, fd: int, buffer: array<byte>, token: nat) returns (seg: Option<UrmaSegment>)
    requires drv.Valid() && Sound(drv.Abs()) && CallOk(RegSeg(fd, buffer.Length, token))
    modifies drv`nextSeg, drv.Footprint()
    ensures drv.Valid()
    ensures if buffer.Length == 0 then seg == None && drv.Abs() == old(drv.Abs())
            else
              var (next, reply) := Step(old(drv.Abs()), RegSeg(fd, buffer.Length, token));
              drv.Abs() == next
              && seg == if reply.Named? then Some(UrmaSegment(reply.id, token, buffer)) else None
  {
    hide Step;
    if buffer.Length == 0 {
      return None;
    }
    var reply := drv.IoctlRegSeg(fd, buffer.Length, token);
    match reply
    case Named(id) => return Some(UrmaSegment(id, token, buffer));
    case _ => return None;
  }

  method CreateJetty(drv: UbusDriver, fd: int, remoteNode: nat, token: nat) returns (jetty: Option<UrmaJetty>)
    requires drv.Valid() && Sound(drv.Abs()) && CallOk(Call.CreateJetty(fd, remoteNode, token))
    modifies drv`nextJetty, drv.Footprint()
    ensures drv.Valid()
    ensures var (next, reply) := Step(old(drv.Abs()), Call.CreateJetty(fd, remoteNode, token));
      drv.Abs() == next && jetty == if reply.Named? then Some(UrmaJetty(fd, reply.id, remoteNode, token)) else None
  {
    hide Step;
    var reply := drv.IoctlCreateJetty(fd, remoteNode, token);
    match reply
    case Named(id) => return Some(UrmaJetty(fd, id, remoteNode, token));
    case _ => return None;
  }

  /** Moved stands for the returned 0. */
  method UrmaWrite(drv: UbusDriver, jetty: UrmaJetty, seg: UrmaSegment, localOffset: nat, remoteSeg: nat,
                   remoteOffset: nat, length: nat) returns (r: Reply)
    requires drv.Valid() && Sound(drv.Abs()) && ArgsOk(jetty, localOffset, remoteSeg, remoteOffset, length)
    modifies drv.Footprint()
    ensures drv.Valid()
    ensures match LocalRange(seg.buffer.Length, localOffset, length)
      case Refused => r == Failed(-1) && drv.Abs() == old(drv.Abs())
      case Outside => r == OutsideMemory && drv.Abs() == old(drv.Abs())
      case Within(count) =>
        var wr := Transfer(jetty.id, 0x60, 0, remoteSeg, remoteOffset, count,
                           old(seg.buffer[localOffset..localOffset + count]));
        (drv.Abs(), r) == Step(old(drv.Abs()), Submit(jetty.fd, wr))
  {
    hide Step;
    if (localOffset + length) % U64 > seg.buffer.Length {
      return Failed(-1);
    }
    if localOffset + length % U32 > seg.buffer.Length {
      return OutsideMemory;
    }
    var count := length % U32;
    var wr := Transfer(jetty.id, 0x60, 0, remoteSeg, remoteOffset, count,
                       seg.buffer[localOffset..localOffset + count]);
    r := drv.IoctlSubmitWr(jetty.fd, wr);
  }

  method UrmaRead(drv: UbusDriver, jetty: UrmaJetty, seg: UrmaSegment, localOffset: nat, remoteSeg: nat,
                  remoteOffset: nat, length: nat) returns (r: Reply)
    requires drv.Valid() && Sound(drv.Abs()) && ArgsOk(jetty, localOffset, remoteSeg, remoteOffset, length)
    requires seg.buffer !in drv.Footprint()
    modifies drv.Footprint(), seg.buffer
    ensures drv.Valid()
    ensures match LocalRange(seg.buffer.Length, localOffset, length)
      case Refused => r == Failed(-1) && drv.Abs() == old(drv.Abs()) && seg.buffer[..] == old(seg.buffer[..])
      case Outside => r == OutsideMemory && drv.Abs() == old(drv.Abs()) && seg.buffer[..] == old(seg.buffer[..])
      case Within(count) =>
        var rd := Transfer(jetty.id, 0x62, 0, remoteSeg, remoteOffset, count,
                           old(seg.buffer[localOffset..localOffset + count]));
        && (drv.Abs(), r) == Step(old(drv.Abs()), Submit(jetty.fd, rd))
        && (r.Moved? ==> |r.out| == count)
        && seg.buffer[..] == if r.Moved?
                             then Assign(old(seg.buffer[..]), localOffset, localOffset + count, r.out)
                             else old(seg.buffer[..])
  {
    hide Step;
    if (localOffset + length) % U64 > seg.buffer.Length {
      return Failed(-1);
    }
    var count := length % U32;
    if localOffset + count > seg.buffer.Length {
      return OutsideMemory;
    }
    var rd := Transfer(jetty.id, 0x62, 0, remoteSeg, remoteOffset, count,
                       seg.buffer[localOffset..localOffset + count]);
    ghost var before := drv.Abs();
    r := drv.IoctlSubmitWr(jetty.fd, rd);
    assert seg.buffer[..] == old(seg.buffer[..]);
    if r.Moved? {
      MovedRead(before, jetty.fd, rd);
      CopyInto(seg.buffer, localOffset, r.out);
    }
  }

  /** memcpy into a host buffer. */
  method CopyInto(buffer: array<byte>, from: nat, data: seq<byte>)
    requires from + |data| <= buffer.Length
    modifies buffer
    ensures buffer[..] == Assign(old(buffer[..]), from, from + |data|, data)
  {
    forall i | 0 <= i < |data| {
      buffer[from + i] := data[i];
    }
  }

  /** The sender's byte loop. */
  method CipClientEncrypt(input: array<byte>, from: nat, output: array<byte>, token: nat)
    requires from + output.Length <= input.Length && input != output
    modifies output
    ensures output[..] == Transform(input[from..from + output.Length], token)
  {
    var keySeed := KeySeed(token);
    for i := 0 to output.Length
      invariant forall k :: 0 <= k < i ==> output[k] == TransformByte(input[from + k], token, k)
    {
      output[i] := XorBits(input[from + i], keySeed + i * 31 % 256, 9) % 256;
    }
    ghost var plain := input[from..from + output.Length];
    assert forall k :: 0 <= k < output.Length ==> plain[k] == input[from + k];
  }

  /** The code checks no local bound: a range beyond the buffer is read all the same. */
  method UrmaWriteEncryptedCip(drv: UbusDriver, jetty: UrmaJetty, seg: UrmaSegment, localOffset: nat, remoteSeg: nat,
                               remoteOffset: nat, length: nat) returns (r: Reply)
    requires drv.Valid() && Sound(drv.Abs()) && ArgsOk(jetty, localOffset, remoteSeg, remoteOffset, length)
    modifies drv.Footprint()
    ensures drv.Valid()
    ensures localOffset + length > seg.buffer.Length ==> r == OutsideMemory && drv.Abs() == old(drv.Abs())
    ensures localOffset + length <= seg.buffer.Length ==>
      var plain := old(seg.buffer[localOffset..localOffset + length % U32]);
      var wr := Transfer(jetty.id, 0x60, 0x80, remoteSeg, remoteOffset, |plain|, Transform(plain, jetty.token));
      (drv.Abs(), r) == Step(old(drv.Abs()), Submit(jetty.fd, wr))
  {
    hide Step, Transform;
    if localOffset + length > seg.buffer.Length {
      return OutsideMemory;
    }
    var cipher := new byte[length];
    CipClientEncrypt(seg.buffer, localOffset, cipher, jetty.token);
    var count := length % U32;
    TransformPrefix(seg.buffer[localOffset..localOffset + length], jetty.token, count);
    assert seg.buffer[localOffset..localOffset + length][..count] == seg.buffer[localOffset..localOffset + count];
    var wr := Transfer(jetty.id, 0x60, 0x80, remoteSeg, remoteOffset, count, cipher[..count]);
    assert cipher[..count] == cipher[..][..count];
    r := drv.IoctlSubmitWr(jetty.fd, wr);
  }

  lemma TransformPrefix(data: seq<byte>, token: nat, n: nat)
    requires n <= |data|
    ensures Transform(data, token)[..n] == Transform(data[..n], token)
  {
  }

  // ---------- an encrypted write, then a plain read ----------

  /** What was stored is what a read of the same range returns, whatever was counted in between. */
  lemma ReadAfterStore(n: Node, w: WorkRequest, n': Node, r: WorkRequest)
    requires NodeOk(n) && NodeOk(n') && IsStore(w.opcode) && r.opcode == OP_READ
    requires r.segId == w.segId && r.offset == w.offset && r.length == w.length
    requires Execute(n, w).1.Ok? && Execute(n', r).1.Ok?
    requires n'.mem == Execute(n, w).0.mem && n'.segs == n.segs
    ensures Execute(n', r).1.out == StoredBytes(w)
  {
    hide StoredBytes;
    var addr := Locate(n, w).addr;
    OverwriteAt(n.mem, addr, StoredBytes(w));
  }

  /** A moved store leaves its bytes in the destination, and every jetty table as it was. */
  lemma MovedStore(d: Dev, h: int, wr: Transfer)
    requires Sound(d) && TransferOk(wr) && IsStore(wr.opcode) && Step(d, Submit(h, wr)).1.Moved?
    ensures IsOpen(d, h) && wr.jetty < MAX_JETTIES
    ensures var req: WorkRequest := Describe(d.nodes[h].jetties, wr);
      var next := Step(d, Submit(h, wr)).0;
      && req.dstNode < MAX_NODES && Execute(d.nodes[req.dstNode], req).1.Ok?
      && next.nodes[req.dstNode].mem == Execute(d.nodes[req.dstNode], req).0.mem
      && next.nodes[req.dstNode].segs == d.nodes[req.dstNode].segs
      && next.open == d.open && next.nodes[req.dstNode].linkUp
      && forall n :: 0 <= n < MAX_NODES ==> next.nodes[n].jetties == d.nodes[n].jetties
  {
    hide Execute, Account;
    var req: WorkRequest := Describe(d.nodes[h].jetties, wr);
    var dst := req.dstNode;
    ExecuteKeeps(d.nodes[dst], req);
    AccountKeeps(d.nodes[dst := Execute(d.nodes[dst], req).0], h, dst, req.length);
    ProcessKeepsTables(d.nodes, h, req);
  }

  /** A read of a range that a store was let into is let into it, too, under the same token. */
  lemma ReadAdmitted(n: Node, w: WorkRequest, n': Node, r: WorkRequest)
    requires NodeOk(n) && NodeOk(n') && IsStore(w.opcode) && r.opcode == OP_READ
    requires r.segId == w.segId && r.offset == w.offset && r.length == w.length && r.token == w.token
    requires Execute(n, w).1.Ok? && n'.segs == n.segs
    ensures Execute(n', r).1.Ok?
  {
    hide StoredBytes;
  }

  lemma ReadMoves(d: Dev, h: int, rd: Transfer)
    requires Sound(d) && TransferOk(rd) && IsOpen(d, h) && rd.jetty < MAX_JETTIES
    requires var req: WorkRequest := Describe(d.nodes[h].jetties, rd);
      req.dstNode < MAX_NODES && d.nodes[req.dstNode].linkUp && Execute(d.nodes[req.dstNode], req).1.Ok?
    ensures Step(d, Submit(h, rd)).1.Moved?
  {
    hide Execute, Account;
  }

  lemma MovedRead(d: Dev, h: int, wr: Transfer)
    requires Sound(d) && TransferOk(wr) && wr.opcode == OP_READ && Step(d, Submit(h, wr)).1.Moved?
    ensures IsOpen(d, h) && wr.jetty < MAX_JETTIES
    ensures var req: WorkRequest := Describe(d.nodes[h].jetties, wr);
      && req.dstNode < MAX_NODES && Execute(d.nodes[req.dstNode], req).1 == Ok(Step(d, Submit(h, wr)).1.out)
      && |Step(d, Submit(h, wr)).1.out| == wr.length
  {
    hide Execute, Account;
    var req: WorkRequest := Describe(d.nodes[h].jetties, wr);
    if req.dstNode < MAX_NODES { ReadFills(d.nodes[req.dstNode], req); }
  }

  lemma ReadFills(n: Node, r: WorkRequest)
    requires NodeOk(n) && r.opcode == OP_READ
    ensures Execute(n, r).1.Ok? ==> |Execute(n, r).1.out| == r.length
  {
    hide StoredBytes;
  }

  /** A write through one jetty, plain or encrypted, followed by a plain read of the same range through
      any jetty to the same node returns what the destination stored; under the same token the read
      succeeds if the write did. */
  lemma WriteThenRead(d: Dev, h: int, wr: Transfer, h': int, rd: Transfer)
    requires Sound(d) && TransferOk(wr) && TransferOk(rd) && IsStore(wr.opcode) && rd.opcode == OP_READ
    requires rd.segId == wr.segId && rd.offset == wr.offset && rd.length == wr.length
    requires IsOpen(d, h) && IsOpen(d, h') && wr.jetty < MAX_JETTIES && rd.jetty < MAX_JETTIES
    requires d.nodes[h'].jetties[rd.jetty].remoteNode == d.nodes[h].jetties[wr.jetty].remoteNode
    ensures Sound(Step(d, Submit(h, wr)).0)
    ensures var (next, first) := Step(d, Submit(h, wr));
      var second := Step(next, Submit(h', rd)).1;
      && (first.Moved? && second.Moved? ==> second.out == StoredBytes(Describe(d.nodes[h].jetties, wr)))
      && (first.Moved? && d.nodes[h'].jetties[rd.jetty].token == d.nodes[h].jetties[wr.jetty].token ==> second.Moved?)
  {
    hide Execute, StoredBytes, Step;
    StepKeepsTokens(d, Submit(h, wr));
    var (next, first) := Step(d, Submit(h, wr));
    if first.Moved? {
      MovedStore(d, h, wr);
      var req: WorkRequest := Describe(d.nodes[h].jetties, wr);
      var back: WorkRequest := Describe(next.nodes[h'].jetties, rd);
      if back.token == req.token {
        ReadAdmitted(d.nodes[req.dstNode], req, next.nodes[req.dstNode], back);
        ReadMoves(next, h', rd);
      }
      if Step(next, Submit(h', rd)).1.Moved? {
        MovedRead(next, h', rd);
        ReadAfterStore(d.nodes[req.dstNode], req, next.nodes[req.dstNode], back);
      }
    }
  }

  /** The flag 0x80 has the CIP bit. */
  lemma FlagIsCip()
    ensures IsCipFlagged(FLAG_CIP) && !IsCipFlagged(0)
  {
    hide PyInt.BitAnd;
    PyInt.AndStep(0x80, 0x80);
    PyInt.AndStep(0x40, 0x40);
    PyInt.AndStep(0x20, 0x20);
    PyInt.AndStep(0x10, 0x10);
    PyInt.AndStep(8, 8);
    PyInt.AndStep(4, 4);
    PyInt.AndStep(2, 2);
    PyInt.AndStep(1, 1);
    NoFlags();
  }

  lemma NoFlags()
    ensures PyInt.BitAnd(0, 0) == 0 && PyInt.BitAnd(0, 0x80) == 0
  {
  }

  /** An encrypted write followed by a plain read of the same range returns the sender's plaintext exactly
      if the sender's token and the token in the driver's jetty table agree in which of their lowest eight bits differ
      from the bits eight places above. */
  lemma EncryptedWriteReadsBackIff(d: Dev, h: int, jetty: nat, token: nat, segId: nat, offset: nat, data: seq<byte>,
                                   h': int, jetty': nat, buffer: seq<byte>)
    requires Sound(d) && IsOpen(d, h) && IsOpen(d, h') && data != [] && |buffer| == |data|
    requires jetty < MAX_JETTIES && jetty' < MAX_JETTIES
    requires TransferOk(SealedOf(jetty, token, segId, offset, data))
    requires TransferOk(ReadOf(jetty', segId, offset, buffer))
    requires d.nodes[h'].jetties[jetty'].remoteNode == d.nodes[h].jetties[jetty].remoteNode
    ensures Sound(Step(d, Submit(h, SealedOf(jetty, token, segId, offset, data))).0)
    ensures var (next, written) := Step(d, Submit(h, SealedOf(jetty, token, segId, offset, data)));
      var reply := Step(next, Submit(h', ReadOf(jetty', segId, offset, buffer))).1;
      written.Moved? && reply.Moved? ==>
        (reply.out == data <==> SameSeed(token, d.nodes[h].jetties[jetty].token))
  {
    hide Step, IsCipFlagged, SameSeed, Transform;
    WriteThenRead(d, h, SealedOf(jetty, token, segId, offset, data), h', ReadOf(jetty', segId, offset, buffer));
    FlagIsCip();
    TransformTwiceIff(data, token, d.nodes[h].jetties[jetty].token);
  }

  // ---------- both sides use the same token ----------

  /** A jetty handle agrees with the driver's table. */
  ghost predicate Agrees(d: Dev, j: UrmaJetty)
    requires Sound(d)
  {
    0 <= j.fd < MAX_NODES && j.id < MAX_JETTIES && d.nodes[j.fd].jetties[j.id] == Jetty(j.remoteNode, j.token, true)
  }

  /** Only closing the device, or 2^32 further jetties, can part a handle from its table entry. */
  lemma AgreementLasts(d: Dev, c: SysCall, j: UrmaJetty)
    requires Sound(d) && Agrees(d, j) && IsOpen(d, j.fd)
    requires c != Close(j.fd) && !(c.CreateJetty? && Step(d, c).1 == Named(j.id))
    ensures Sound(Step(d, c).0) && Agrees(Step(d, c).0, j) && IsOpen(Step(d, c).0, j.fd)
  {
    hide Execute, Account;
    StepKeepsTokens(d, c);
    if c.Submit? && IsOpen(d, c.handle) && c.wr.jetty < MAX_JETTIES {
      ProcessKeepsTables(d.nodes, c.handle, Describe(d.nodes[c.handle].jetties, c.wr));
    }
  }

  lemma CreatedJettyAgrees(d: Dev, fd: int, remoteNode: nat, token: nat)
    requires Sound(d) && token < U32 && d.nextJetty < MAX_JETTIES && IsOpen(d, fd)
    ensures var c: SysCall := Call.CreateJetty(fd, remoteNode, token);
      && Step(d, c).1 == Named(d.nextJetty) && Sound(Step(d, c).0)
      && Agrees(Step(d, c).0, UrmaJetty(fd, d.nextJetty, remoteNode, token)) && IsOpen(Step(d, c).0, fd)
  {
    hide Process;
    StepKeepsTokens(d, Call.CreateJetty(fd, remoteNode, token));
  }

  function After(d: Dev, calls: seq<SysCall>): (r: Dev)
    requires Sound(d)
    ensures Sound(r)
    decreases |calls|
  {
    if calls == [] then d
    else
      StepKeepsTokens(d, calls[0]);
      After(Step(d, calls[0]).0, calls[1..])
  }

  /** The device is not closed and the jetty's id not given out again. */
  ghost predicate Spares(d: Dev, calls: seq<SysCall>, j: UrmaJetty)
    requires Sound(d)
    decreases |calls|
  {
    if calls == [] then true
    else
      StepKeepsTokens(d, calls[0]);
      && calls[0] != Close(j.fd) && !(calls[0].CreateJetty? && Step(d, calls[0]).1 == Named(j.id))
      && Spares(Step(d, calls[0]).0, calls[1..], j)
  }

  lemma {:induction false} JettyStays(d: Dev, calls: seq<SysCall>, j: UrmaJetty)
    requires Sound(d) && Agrees(d, j) && IsOpen(d, j.fd) && Spares(d, calls, j)
    ensures Agrees(After(d, calls), j) && IsOpen(After(d, calls), j.fd)
    decreases |calls|
  {
    hide Step, Agrees;
    if calls != [] {
      AgreementLasts(d, calls[0], j);
      JettyStays(Step(d, calls[0]).0, calls[1..], j);
    }
  }

  /** While a handle agrees with the table, a plain read through it after an encrypted write that succeeded
      succeeds, too, and returns the sender's plaintext. */
  lemma AgreedRoundTrip(d: Dev, j: UrmaJetty, segId: nat, offset: nat, data: seq<byte>, buffer: seq<byte>)
    requires Sound(d) && Agrees(d, j) && IsOpen(d, j.fd)
    requires |buffer| == |data| && segId < U32 && offset < U64 && |data| < U32
    ensures Sound(Step(d, Submit(j.fd, SealedOf(j.id, j.token, segId, offset, data))).0)
    ensures var (next, written) := Step(d, Submit(j.fd, SealedOf(j.id, j.token, segId, offset, data)));
      written.Moved? ==> Step(next, Submit(j.fd, ReadOf(j.id, segId, offset, buffer))).1 == Moved(data)
  {
    hide Step;
    WriteThenRead(d, j.fd, SealedOf(j.id, j.token, segId, offset, data), j.fd, ReadOf(j.id, segId, offset, buffer));
    if data != [] {
      EncryptedWriteReadsBackIff(d, j.fd, j.id, j.token, segId, offset, data, j.fd, j.id, buffer);
    }
  }

  /** From urma_create_jetty on, after any calls that neither close the device nor give the jetty's id out
      again: if an encrypted write through the jetty succeeds, so does a plain read of the same range through
      it, and returns the sender's plaintext. */
  lemma EncryptedRoundTrip(d: Dev, fd: int, remoteNode: nat, token: nat, calls: seq<SysCall>,
                           segId: nat, offset: nat, data: seq<byte>, buffer: seq<byte>)
    requires Sound(d) && IsOpen(d, fd) && token < U32 && d.nextJetty < MAX_JETTIES
    requires |buffer| == |data| && segId < U32 && offset < U64 && |data| < U32
    ensures var create: SysCall := Call.CreateJetty(fd, remoteNode, token);
      var (made, name) := Step(d, create);
      && Sound(made) && name == Named(d.nextJetty)
      && (Spares(made, calls, UrmaJetty(fd, name.id, remoteNode, token)) ==>
          var sealed: SysCall := Submit(fd, SealedOf(name.id, token, segId, offset, data));
          var (next, written) := Step(After(made, calls), sealed);
          && Sound(next)
          && (written.Moved? ==> Step(next, Submit(fd, ReadOf(name.id, segId, offset, buffer))).1 == Moved(data)))
  {
    hide Step, After, Spares, Agrees;
    var create: SysCall := Call.CreateJetty(fd, remoteNode, token);
    CreatedJettyAgrees(d, fd, remoteNode, token);
    var made := Step(d, create).0;
    var j := UrmaJetty(fd, d.nextJetty, remoteNode, token);
    if Spares(made, calls, j) {
      JettyStays(made, calls, j);
      AgreedRoundTrip(After(made, calls), j, segId, offset, data, buffer);
    }
  }
}
