// The receive loops of daemon/fabric.py and unifiedbus/device.py: bytes arrive in
// arbitrary chunks, and every complete frame at the front of the buffer is taken off.
module Reassembly {
  import opened Bytes
  import opened Port

  /** All frames at the front of a buffer: packets, what is left, and whether no frame was bad. */
  datatype Drained<+M> = Drained(pkts: seq<Packet<M>>, rest: seq<byte>, alive: bool)

  function Drain<M>(c: Codec<M>, buf: seq<byte>): (d: Drained<M>)
    decreases |buf|
  {
    match Deserialize(c, buf)
    case NeedMore => Drained([], buf, true)
    case Bad(_) => Drained([], buf, false)
    case Got(p, n) =>
      var d := Drain(c, buf[n..]);
      Drained([p] + d.pkts, d.rest, d.alive)
  }

  /** The connection's view of a chunk sequence; a bad frame ends it. */
  function Feed<M>(c: Codec<M>, buf: seq<byte>, chunks: seq<seq<byte>>): Drained<M>
    decreases |chunks|
  {
    if chunks == [] then Drained([], buf, true)
    else
      var d := Drain(c, buf + chunks[0]);
      if !d.alive then d
      else
        var e := Feed(c, d.rest, chunks[1..]);
        Drained(d.pkts + e.pkts, e.rest, e.alive)
  }

  class PacketStream<M> {
    const codec: Codec<M>
    var buffer: seq<byte>

    constructor (codec: Codec<M>)
      ensures buffer == [] && this.codec == codec
    {
      this.codec := codec;
      buffer := [];
    }

    /** One iteration of the outer loop: extend the buffer, then parse until more is needed. */
    method Receive(chunk: seq<byte>) returns (pkts: seq<Packet<M>>, alive: bool)
      modifies this
      ensures Drained(pkts, buffer, alive) == Drain(codec, old(buffer) + chunk)
    {
      buffer := buffer + chunk;
      ghost var whole := buffer;
      pkts := [];
      alive := true;
      while true
        invariant alive
        invariant Drain(codec, whole)
          == Drained(pkts + Drain(codec, buffer).pkts, Drain(codec, buffer).rest, Drain(codec, buffer).alive)
        decreases |buffer|
      {
        var r := Deserialize(codec, buffer);
        match r
        case NeedMore =>
          assert pkts + [] == pkts;
          return;
        case Bad(_) =>
          assert pkts + [] == pkts;
          alive := false;
          return;
        case Got(p, n) =>
          assert pkts + ([p] + Drain(codec, buffer[n..]).pkts) == pkts + [p] + Drain(codec, buffer[n..]).pkts;
          buffer := buffer[n..];
          pkts := pkts + [p];
      }
    }
  }

  // ---------- the chunking does not matter ----------

  lemma {:induction false} DrainRestIsStuck<M>(c: Codec<M>, buf: seq<byte>)
    requires Drain(c, buf).alive
    ensures Deserialize(c, Drain(c, buf).rest) == NeedMore
    decreases |buf|
  {
    match Deserialize(c, buf)
    case NeedMore =>
    case Bad(_) =>
    case Got(_, n) => DrainRestIsStuck(c, buf[n..]);
  }

  lemma {:induction false} DrainAppend<M>(c: Codec<M>, buf: seq<byte>, more: seq<byte>)
    ensures var d := Drain(c, buf);
      if d.alive then
        var e := Drain(c, d.rest + more);
        Drain(c, buf + more) == Drained(d.pkts + e.pkts, e.rest, e.alive)
      else
        Drain(c, buf + more) == d.(rest := d.rest + more)
    decreases |buf|
  {
    hide Deserialize;
    match Deserialize(c, buf)
    case NeedMore =>
      assert [] + Drain(c, buf + more).pkts == Drain(c, buf + more).pkts;
    case Bad(_) =>
      VerdictStable(c, buf, more);
    case Got(p, n) =>
      VerdictStable(c, buf, more);
      assert (buf + more)[n..] == buf[n..] + more;
      DrainAppend(c, buf[n..], more);
      var d := Drain(c, buf[n..]);
      var e := Drain(c, d.rest + more);
      assert [p] + (d.pkts + e.pkts) == [p] + d.pkts + e.pkts;
  }

  function Concat(chunks: seq<seq<byte>>): seq<byte>
  {
    if chunks == [] then [] else chunks[0] + Concat(chunks[1..])
  }

  /** For any bytes, good or bad: the packets delivered, whether the connection survives and,
      if so, the bytes still buffered depend on the concatenation of the chunks alone. */
  lemma {:induction false} ChunkingIrrelevant<M>(c: Codec<M>, buf: seq<byte>, chunks: seq<seq<byte>>)
    requires Deserialize(c, buf) == NeedMore
    ensures var f := Feed(c, buf, chunks);
      var d := Drain(c, buf + Concat(chunks));
      f.pkts == d.pkts && f.alive == d.alive && (f.alive ==> f.rest == d.rest)
    decreases |chunks|
  {
    hide Deserialize;
    if chunks == [] {
      assert buf + [] == buf;
    } else {
      var first := Drain(c, buf + chunks[0]);
      DrainAppend(c, buf + chunks[0], Concat(chunks[1..]));
      assert buf + Concat(chunks) == buf + chunks[0] + Concat(chunks[1..]);
      if first.alive {
        DrainRestIsStuck(c, buf + chunks[0]);
        ChunkingIrrelevant(c, first.rest, chunks[1..]);
      }
    }
  }

  // ---------- streams of good frames ----------

  ghost predicate AllExact<M>(c: Codec<M>, ps: seq<Packet<M>>)
  {
    forall i :: 0 <= i < |ps| ==> WireExact(c, ps[i])
  }

  function FrameOf<M>(c: Codec<M>, p: Packet<M>): seq<byte>
    requires WireExact(c, p)
  {
    Serialize(c, p).value
  }

  ghost function SerializeAll<M(!new)>(c: Codec<M>, ps: seq<Packet<M>>): seq<byte>
    requires AllExact(c, ps)
  {
    if ps == [] then [] else FrameOf(c, ps[0]) + SerializeAll(c, ps[1..])
  }

  /** How many of the frames fit into the first k bytes. */
  ghost function Arrived<M(!new)>(c: Codec<M>, ps: seq<Packet<M>>, k: nat): (n: nat)
    requires AllExact(c, ps)
    ensures n <= |ps|
  {
    if ps == [] || k < TotalBytes(c, ps[0]) then 0 else 1 + Arrived(c, ps[1..], k - TotalBytes(c, ps[0]))
  }

  lemma FrameFacts<M(!new)>(c: Codec<M>, p: Packet<M>, rest: seq<byte>)
    requires Faithful(c) && WireExact(c, p)
    ensures |FrameOf(c, p)| == TotalBytes(c, p) > 0
    ensures Deserialize(c, FrameOf(c, p) + rest) == Got(p, TotalBytes(c, p))
    ensures forall k :: 0 <= k < |FrameOf(c, p)| ==> Deserialize(c, FrameOf(c, p)[..k]) == NeedMore
  {
    ParseOfFrame(c, p, rest);
    RoundTripIff(c, p, rest);
    forall k | 0 <= k < |FrameOf(c, p)|
      ensures Deserialize(c, FrameOf(c, p)[..k]) == NeedMore
    {
      PrefixNeedsMore(c, p, k);
    }
  }

  lemma EmptyNeedsMore<M>(c: Codec<M>)
    ensures Deserialize(c, []) == NeedMore
  {
  }

  /** Exactly the frames that lie in the first k bytes of the stream are out, in order, and what is
      buffered is a strict prefix of the next frame, or nothing after the last. */
  ghost predicate Standing<M(!new)>(c: Codec<M>, ps: seq<Packet<M>>, k: nat, d: Drained<M>)
    requires AllExact(c, ps) && k <= |SerializeAll(c, ps)|
  {
    var n := Arrived(c, ps, k);
    && d.alive && d.pkts == ps[..n]
    && SerializeAll(c, ps)[..k] == SerializeAll(c, ps[..n]) + d.rest
    && (if n == |ps| then d.rest == []
        else |d.rest| < |FrameOf(c, ps[n])| && d.rest == FrameOf(c, ps[n])[..|d.rest|])
  }

  lemma StandingBeforeFirst<M(!new)>(c: Codec<M>, ps: seq<Packet<M>>, k: nat)
    requires AllExact(c, ps) && k <= |SerializeAll(c, ps)|
    requires ps != [] && |FrameOf(c, ps[0])| == TotalBytes(c, ps[0]) && k < |FrameOf(c, ps[0])|
    ensures Standing(c, ps, k, Drained([], SerializeAll(c, ps)[..k], true))
    ensures SerializeAll(c, ps)[..k] == FrameOf(c, ps[0])[..k]
  {
    hide FrameOf, WireExact;
    var s := SerializeAll(c, ps);
    assert s[..k] == FrameOf(c, ps[0])[..k];
    assert SerializeAll(c, ps[..0]) + s[..k] == s[..k];
  }

  lemma StandingAfterFirst<M(!new)>(c: Codec<M>, ps: seq<Packet<M>>, k: nat, d: Drained<M>)
    requires AllExact(c, ps) && k <= |SerializeAll(c, ps)|
    requires ps != [] && |FrameOf(c, ps[0])| == TotalBytes(c, ps[0]) && k >= |FrameOf(c, ps[0])|
    requires Standing(c, ps[1..], k - |FrameOf(c, ps[0])|, d)
    ensures Standing(c, ps, k, Drained([ps[0]] + d.pkts, d.rest, true))
  {
    hide FrameOf, WireExact, SerializeAll, TotalBytes;
    var f := FrameOf(c, ps[0]);
    var n := Arrived(c, ps[1..], k - |f|);
    SerializeFirst(c, ps);
    assert Arrived(c, ps, k) == n + 1;
    assert ps[..n + 1] == [ps[0]] + ps[1..][..n];
    assert SerializeAll(c, ps[..n + 1]) == f + SerializeAll(c, ps[1..][..n]) by {
      SerializeFirst(c, ps[..n + 1]);
      assert ps[..n + 1][1..] == ps[1..][..n];
    }
    assert SerializeAll(c, ps)[..k] == f + SerializeAll(c, ps[1..])[..k - |f|];
    if n < |ps| - 1 { assert ps[1..][n] == ps[n + 1]; }
  }

  lemma SerializeFirst<M(!new)>(c: Codec<M>, ps: seq<Packet<M>>)
    requires AllExact(c, ps) && ps != []
    ensures SerializeAll(c, ps) == FrameOf(c, ps[0]) + SerializeAll(c, ps[1..])
  {
  }

  /** The buffer after any k bytes of a stream of frames. */
  lemma {:induction false} DrainOfPrefix<M(!new)>(c: Codec<M>, ps: seq<Packet<M>>, k: nat)
    requires Faithful(c) && AllExact(c, ps) && k <= |SerializeAll(c, ps)|
    ensures Standing(c, ps, k, Drain(c, SerializeAll(c, ps)[..k]))
    decreases |ps|
  {
    hide Deserialize, FrameOf, WireExact, Standing, Arrived;
    var s := SerializeAll(c, ps);
    if ps == [] {
      EmptyNeedsMore(c);
      assert s[..k] == [];
      StandingAtEnd(c);
    } else {
      var f := FrameOf(c, ps[0]);
      FrameFacts(c, ps[0], []);
      if k < |f| {
        StandingBeforeFirst(c, ps, k);
      } else {
        var t := SerializeAll(c, ps[1..])[..k - |f|];
        assert s[..k] == f + t && (f + t)[|f|..] == t;
        FrameFacts(c, ps[0], t);
        DrainOfPrefix(c, ps[1..], k - |f|);
        assert Drain(c, t).alive by { StandingIsAlive(c, ps[1..], k - |f|, Drain(c, t)); }
        StandingAfterFirst(c, ps, k, Drain(c, t));
      }
    }
  }

  lemma StandingAtEnd<M(!new)>(c: Codec<M>)
    ensures Standing(c, [], 0, Drained([], [], true))
  {
    assert SerializeAll<M>(c, [])[..0] == SerializeAll<M>(c, [][..0]) + [];
  }

  lemma StandingIsAlive<M(!new)>(c: Codec<M>, ps: seq<Packet<M>>, k: nat, d: Drained<M>)
    requires AllExact(c, ps) && k <= |SerializeAll(c, ps)| && Standing(c, ps, k, d)
    ensures d.alive
  {
  }

  lemma {:induction false} ArrivedAll<M(!new)>(c: Codec<M>, ps: seq<Packet<M>>)
    requires Faithful(c) && AllExact(c, ps)
    ensures Arrived(c, ps, |SerializeAll(c, ps)|) == |ps|
    decreases |ps|
  {
    if ps != [] {
      ParseOfFrame(c, ps[0], []);
      ArrivedAll(c, ps[1..]);
    }
  }

  /** However the serialisation of a packet list is cut, the receive loop yields that list. */
  lemma StreamDelivered<M(!new)>(c: Codec<M>, ps: seq<Packet<M>>, chunks: seq<seq<byte>>)
    requires Faithful(c) && AllExact(c, ps) && Concat(chunks) == SerializeAll(c, ps)
    ensures Feed(c, [], chunks) == Drained(ps, [], true)
  {
    hide Deserialize, FrameOf, WireExact;
    var s := SerializeAll(c, ps);
    EmptyNeedsMore(c);
    ChunkingIrrelevant(c, [], chunks);
    assert [] + Concat(chunks) == s && s[..|s|] == s;
    DrainOfPrefix(c, ps, |s|);
    ArrivedAll(c, ps);
  }

  lemma {:induction false} ConcatPrefix(chunks: seq<seq<byte>>, m: nat)
    requires m <= |chunks|
    ensures Concat(chunks[..m]) <= Concat(chunks)
  {
    if m > 0 {
      assert chunks[..m][1..] == chunks[1..][..m - 1];
      ConcatPrefix(chunks[1..], m - 1);
    }
  }

  /** At every chunk boundary exactly the complete frames are out, in order, and the residue is a
      strict prefix of the next frame (or empty after the last). */
  lemma DeliveredSoFar<M(!new)>(c: Codec<M>, ps: seq<Packet<M>>, chunks: seq<seq<byte>>, m: nat)
    requires Faithful(c) && AllExact(c, ps) && Concat(chunks) == SerializeAll(c, ps) && m <= |chunks|
    ensures |Concat(chunks[..m])| <= |SerializeAll(c, ps)|
    ensures Standing(c, ps, |Concat(chunks[..m])|, Feed(c, [], chunks[..m]))
  {
    hide Deserialize, FrameOf, WireExact, Arrived;
    var s := SerializeAll(c, ps);
    ConcatPrefix(chunks, m);
    var k := |Concat(chunks[..m])|;
    assert Concat(chunks[..m]) == s[..k];
    EmptyNeedsMore(c);
    ChunkingIrrelevant(c, [], chunks[..m]);
    assert [] + Concat(chunks[..m]) == s[..k];
    DrainOfPrefix(c, ps, k);
  }
}
