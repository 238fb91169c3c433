// daemon/port.py: the UBPacket record and its frame: a 44-byte big-endian header,
// JSON metadata, payload, and a CRC-32 over metadata and payload.
module Port {
  import opened Bytes
  import PyInt
  import Crc32

  const FRAME_HEADER: nat := 44
  const FLIT_SIZE: nat := 64

  /** What the constructor of UBPacket leaves in the object. */
  datatype Packet<+M> = Packet(opcode: nat, src: nat, dst: nat, token: nat, lane: nat, flags: nat,
                              seqNum: nat, tag: seq<byte>, meta: M, payload: seq<byte>)

  /** json.dumps / json.loads; `empty` is the dictionary {}. */
  datatype Codec<!M> = Codec(enc: M -> seq<byte>, dec: seq<byte> -> Option<M>, empty: M)

  /** The two JSON functions are inverse on metadata and never produce an empty text. */
  ghost predicate Faithful<M(!new)>(c: Codec<M>)
  {
    forall m :: c.dec(c.enc(m)) == Some(m) && c.enc(m) != []
  }

  function NormalTag(tag: seq<byte>): (t: seq<byte>)
    ensures |t| == 16 && forall k :: 0 <= k < 16 ==> t[k] == if k < |tag| then tag[k] else 0
  {
    if |tag| == 16 then tag else (tag + Zeros(16))[..16]
  }

  function Make<M>(opcode: nat, src: nat, dst: nat, token: nat, lane: nat, flags: nat,
                   seqNum: nat, tag: seq<byte>, meta: M, payload: seq<byte>): Packet<M>
  {
    Packet(opcode, src, dst, token, PyInt.BitAnd(lane, 0x0F), flags, seqNum, NormalTag(tag), meta, payload)
  }

  function TotalBytes<M>(c: Codec<M>, p: Packet<M>): nat
  {
    FRAME_HEADER + |c.enc(p.meta)| + |p.payload|
  }

  function FlitCount<M>(c: Codec<M>, p: Packet<M>): nat
  {
    (TotalBytes(c, p) + FLIT_SIZE - 1) / FLIT_SIZE
  }

  // ---------- frames ----------

  /** The values struct.pack accepts for the header format; others raise struct.error. */
  predicate Packable<M>(c: Codec<M>, p: Packet<M>)
  {
    && p.opcode < 0x100 && p.seqNum < 0x1_0000_0000 && p.src < 0x1_0000 && p.dst < 0x1_0000
    && p.token < 0x1_0000_0000 && |c.enc(p.meta)| < 0x1_0000_0000 && |p.payload| < 0x1_0000_0000
    && |p.tag| == 16
  }

  function FlagsLane(flags: nat, lane: nat): int
  {
    PyInt.BitOr(PyInt.BitAnd(flags, 0xF0), PyInt.BitAnd(lane, 0x0F))
  }

  /** The fields of the header format, after the magic number. */
  datatype FrameHeader = FrameHeader(opcode: nat, flagsLane: nat, seqNum: nat, src: nat, dst: nat, token: nat,
                                     metaLen: nat, payloadLen: nat, crc: nat, tag: seq<byte>)

  const MAGIC: seq<byte> := [0x55, 0x42]

  function PackHeader(h: FrameHeader): (s: seq<byte>)
    ensures |s| == 28 + |h.tag|
  {
    MAGIC + Be(h.opcode, 1) + Be(h.flagsLane, 1) + Be(h.seqNum, 4) + Be(h.src, 2) + Be(h.dst, 2)
    + Be(h.token, 4) + Be(h.metaLen, 4) + Be(h.payloadLen, 4) + Be(h.crc, 4) + h.tag
  }

  function UnpackHeader(s: seq<byte>): FrameHeader
    requires |s| == FRAME_HEADER
  {
    FrameHeader(UnBe(s[2..3]), UnBe(s[3..4]), UnBe(s[4..8]), UnBe(s[8..10]), UnBe(s[10..12]), UnBe(s[12..16]),
                UnBe(s[16..20]), UnBe(s[20..24]), UnBe(s[24..28]), s[28..44])
  }

  function HeaderFor<M>(c: Codec<M>, p: Packet<M>): FrameHeader
  {
    NibblesAreNat(p.flags, p.lane);
    FrameHeader(p.opcode, FlagsLane(p.flags, p.lane), p.seqNum, p.src, p.dst, p.token,
                |c.enc(p.meta)|, |p.payload|, Crc32.Crc(c.enc(p.meta) + p.payload), p.tag)
  }

  function Serialize<M>(c: Codec<M>, p: Packet<M>): Option<seq<byte>>
  {
    if !Packable(c, p) then None
    else Some(PackHeader(HeaderFor(c, p)) + (c.enc(p.meta) + p.payload))
  }

  datatype ParseError = BadMagic | BadCrc | BadMetadata

  datatype Parse<+M> = NeedMore | Bad(error: ParseError) | Got(pkt: Packet<M>, consumed: nat)

  function Deserialize<M>(c: Codec<M>, buf: seq<byte>): (r: Parse<M>)
    ensures r.Got? ==> FRAME_HEADER <= r.consumed <= |buf|
  {
    if |buf| < FRAME_HEADER then NeedMore
    else if buf[..2] != MAGIC then Bad(BadMagic)
    else
      var h := UnpackHeader(buf[..FRAME_HEADER]);
      var total := FRAME_HEADER + h.metaLen + h.payloadLen;
      if |buf| < total then NeedMore else ParseBody(c, h, buf[FRAME_HEADER..total])
  }

  function ParseBody<M>(c: Codec<M>, h: FrameHeader, body: seq<byte>): (r: Parse<M>)
    requires |body| == h.metaLen + h.payloadLen
    ensures r.Got? ==> r.consumed == FRAME_HEADER + |body|
  {
    var meta := body[..h.metaLen];
    var payload := body[h.metaLen..];
    if Crc32.Crc(meta + payload) != h.crc then Bad(BadCrc)
    else
      var decoded := if h.metaLen > 0 then c.dec(meta) else Some(c.empty);
      if decoded.None? then Bad(BadMetadata)
      else
        Got(Make(h.opcode, h.src, h.dst, h.token, PyInt.BitAnd(h.flagsLane, 0x0F), PyInt.BitAnd(h.flagsLane, 0xF0),
                 h.seqNum, h.tag, decoded.value, payload), FRAME_HEADER + |body|)
  }

  // ---------- the nibbles of the flags byte ----------

  lemma LowNibble(x: nat)
    ensures PyInt.BitAnd(x, 0x0F) == x % 16
  {
    hide PyInt.BitAnd;
    var a := x / 2;
    var b := a / 2;
    var c := b / 2;
    var d := c / 2;
    PyInt.AndStep(x, 15);
    PyInt.AndStep(a, 7);
    PyInt.AndStep(b, 3);
    PyInt.AndStep(c, 1);
    PyInt.AndZero(d);
    LastDigits(x, a, b, c, d);
  }

  lemma LastDigits(x: nat, a: nat, b: nat, c: nat, d: nat)
    requires a == x / 2 && b == a / 2 && c == b / 2 && d == c / 2
    ensures x % 16 == x % 2 + 2 * (a % 2 + 2 * (b % 2 + 2 * (c % 2)))
  {
    assert x == 16 * d + (x % 2 + 2 * (a % 2 + 2 * (b % 2 + 2 * (c % 2))));
  }

  lemma HighNibble(x: nat)
    ensures PyInt.BitAnd(x, 0xF0) == 16 * (x / 16 % 16)
  {
    hide PyInt.BitAnd;
    LowNibble(x / 16);
    PyInt.AndStep(x, 240);
    PyInt.AndStep(x / 2, 120);
    PyInt.AndStep(x / 2 / 2, 60);
    PyInt.AndStep(x / 2 / 2 / 2, 30);
    assert x / 2 / 2 / 2 / 2 == x / 16;
  }

  lemma JoinNibbles(h: nat, l: nat)
    requires l < 16
    ensures PyInt.BitOr(16 * h, l) == 16 * h + l
  {
    if h > 0 {
      PyInt.OrZero(h);
      assert PyInt.BitOr(2 * h, l / 8) == 2 * h + l / 8 by { assert l / 8 / 2 == 0; }
      assert PyInt.BitOr(4 * h, l / 4) == 4 * h + l / 4 by { assert l / 4 / 2 == l / 8; }
      assert PyInt.BitOr(8 * h, l / 2) == 8 * h + l / 2 by { assert l / 2 / 2 == l / 4; }
    }
  }

  lemma NibblesAreNat(flags: nat, lane: nat)
    ensures FlagsLane(flags, lane) == 16 * (flags / 16 % 16) + lane % 16
  {
    HighNibble(flags);
    LowNibble(lane);
    JoinNibbles(flags / 16 % 16, lane % 16);
  }

  // ---------- the bytes of a frame ----------

  lemma PackOne(n: nat)
    requires n < 0x100
    ensures Be(n, 1) == [n]
  {
    assert Be(n, 1) == Be(n / 256, 0) + [n % 256];
  }

  lemma HeaderBytes(h: FrameHeader)
    requires h.opcode < 0x100 && h.flagsLane < 0x100
    ensures PackHeader(h) == [0x55, 0x42, h.opcode, h.flagsLane]
      + BigEndian4(h.seqNum) + BigEndian2(h.src) + BigEndian2(h.dst) + BigEndian4(h.token)
      + BigEndian4(h.metaLen) + BigEndian4(h.payloadLen) + BigEndian4(h.crc) + h.tag
  {
    hide Be, BigEndian2, BigEndian4;
    PackOne(h.opcode);
    PackOne(h.flagsLane);
    PackFour(h.seqNum);
    PackTwo(h.src);
    PackTwo(h.dst);
    PackFour(h.token);
    PackFour(h.metaLen);
    PackFour(h.payloadLen);
    PackFour(h.crc);
    assert MAGIC + [h.opcode] + [h.flagsLane] == [0x55, 0x42, h.opcode, h.flagsLane];
  }

  /** A packet whose fields fit their widths is written byte by byte as follows; any other makes the packing raise. */
  lemma FrameBytes<M>(c: Codec<M>, p: Packet<M>)
    ensures var meta := c.enc(p.meta);
      var fits :=
        && p.opcode < 0x100 && p.seqNum < 0x1_0000_0000 && p.src < 0x1_0000 && p.dst < 0x1_0000
        && p.token < 0x1_0000_0000 && |meta| < 0x1_0000_0000 && |p.payload| < 0x1_0000_0000 && |p.tag| == 16;
      if fits then
        Serialize(c, p) == Some([0x55, 0x42, p.opcode, 16 * (p.flags / 16 % 16) + p.lane % 16]
          + BigEndian4(p.seqNum) + BigEndian2(p.src) + BigEndian2(p.dst) + BigEndian4(p.token)
          + BigEndian4(|meta|) + BigEndian4(|p.payload|) + BigEndian4(Crc32.Crc(meta + p.payload)) + p.tag
          + meta + p.payload)
      else Serialize(c, p) == None
  {
    hide PackHeader, FlagsLane, Crc32.Crc, BigEndian2, BigEndian4;
    if Packable(c, p) {
      NibblesAreNat(p.flags, p.lane);
      SplitByte(p.flags / 16 % 16, p.lane % 16);
      HeaderBytes(HeaderFor(c, p));
      assert PackHeader(HeaderFor(c, p)) + (c.enc(p.meta) + p.payload)
          == PackHeader(HeaderFor(c, p)) + c.enc(p.meta) + p.payload;
    }
  }

  /** Less than a header waits for more, and another magic is refused. */
  lemma ForeignRefused<M>(c: Codec<M>, buf: seq<byte>)
    ensures |buf| < 44 ==> Deserialize(c, buf) == NeedMore
    ensures |buf| >= 44 && (buf[0] != 0x55 || buf[1] != 0x42) ==> Deserialize(c, buf) == Bad(BadMagic)
  {
    hide ParseBody, UnpackHeader;
    if |buf| >= 44 { assert buf[..2] == [buf[0], buf[1]]; }
  }

  /** A header that announces n bytes of metadata, m of payload and a checksum: the frame waits for its bytes, is
      refused by the checksum or the metadata, or is taken. */
  lemma AnnouncedVerdict<M>(c: Codec<M>, buf: seq<byte>, n: nat, m: nat, crc: nat)
    requires |buf| >= 44 && buf[0] == 0x55 && buf[1] == 0x42
    requires n < 0x1_0000_0000 && m < 0x1_0000_0000 && crc < 0x1_0000_0000
    requires buf[16..20] == BigEndian4(n) && buf[20..24] == BigEndian4(m) && buf[24..28] == BigEndian4(crc)
    ensures var r := Deserialize(c, buf);
      if |buf| < 44 + n + m then r == NeedMore
      else
        var meta, payload := buf[44..44 + n], buf[44 + n..44 + n + m];
        if Crc32.Crc(meta + payload) != crc then r == Bad(BadCrc)
        else if n > 0 && c.dec(meta).None? then r == Bad(BadMetadata)
        else
          && r.Got? && r.consumed == 44 + n + m && r.pkt.payload == payload
          && r.pkt.meta == if n > 0 then c.dec(meta).value else c.empty
  {
    hide Crc32.Crc, UnBe, Be, PyInt.BitAnd, BigEndian4;
    Announced(buf, n, m, crc);
    assert buf[..2] == [buf[0], buf[1]];
    if |buf| >= 44 + n + m {
      var body := buf[44..44 + n + m];
      assert body[..n] == buf[44..44 + n] && body[n..] == buf[44 + n..44 + n + m];
    }
  }

  lemma Announced(buf: seq<byte>, n: nat, m: nat, crc: nat)
    requires |buf| >= 44 && n < 0x1_0000_0000 && m < 0x1_0000_0000 && crc < 0x1_0000_0000
    requires buf[16..20] == BigEndian4(n) && buf[20..24] == BigEndian4(m) && buf[24..28] == BigEndian4(crc)
    ensures var h := UnpackHeader(buf[..44]);
      h.metaLen == n && h.payloadLen == m && h.crc == crc
  {
    hide UnBe, Be, BigEndian4;
    PowerValues();
    PackFour(n);
    PackFour(m);
    PackFour(crc);
    UnpackOfPack(n, 4);
    UnpackOfPack(m, 4);
    UnpackOfPack(crc, 4);
    var s := buf[..44];
    assert s[16..20] == buf[16..20] && s[20..24] == buf[20..24] && s[24..28] == buf[24..28];
  }

  // ---------- round trip ----------

  lemma Fields<T>(a: seq<T>, b: seq<T>, c: seq<T>, d: seq<T>, e: seq<T>, f: seq<T>, g: seq<T>,
                  h: seq<T>, i: seq<T>, j: seq<T>, k: seq<T>)
    requires |a| == 2 && |b| == 1 && |c| == 1 && |d| == 4 && |e| == 2 && |f| == 2 && |g| == 4
    requires |h| == 4 && |i| == 4 && |j| == 4 && |k| == 16
    ensures var s := a + b + c + d + e + f + g + h + i + j + k;
      && s[..2] == a && s[2..3] == b && s[3..4] == c && s[4..8] == d && s[8..10] == e && s[10..12] == f
      && s[12..16] == g && s[16..20] == h && s[20..24] == i && s[24..28] == j && s[28..44] == k
  {
  }

  predicate HeaderInRange(h: FrameHeader)
  {
    && h.opcode < 0x100 && h.flagsLane < 0x100 && h.seqNum < 0x1_0000_0000 && h.src < 0x1_0000
    && h.dst < 0x1_0000 && h.token < 0x1_0000_0000 && h.metaLen < 0x1_0000_0000
    && h.payloadLen < 0x1_0000_0000 && h.crc < 0x1_0000_0000 && |h.tag| == 16
  }

  /** struct.unpack undoes struct.pack for values the format can hold. */
  lemma UnpackOfPackHeader(h: FrameHeader)
    requires HeaderInRange(h)
    ensures PackHeader(h)[..2] == MAGIC
    ensures UnpackHeader(PackHeader(h)) == h
  {
    Fields(MAGIC, Be(h.opcode, 1), Be(h.flagsLane, 1), Be(h.seqNum, 4), Be(h.src, 2), Be(h.dst, 2),
           Be(h.token, 4), Be(h.metaLen, 4), Be(h.payloadLen, 4), Be(h.crc, 4), h.tag);
    PowerValues();
    UnpackOfPack(h.opcode, 1);
    UnpackOfPack(h.flagsLane, 1);
    UnpackOfPack(h.seqNum, 4);
    UnpackOfPack(h.src, 2);
    UnpackOfPack(h.dst, 2);
    UnpackOfPack(h.token, 4);
    UnpackOfPack(h.metaLen, 4);
    UnpackOfPack(h.payloadLen, 4);
    UnpackOfPack(h.crc, 4);
  }

  lemma HeaderForInRange<M>(c: Codec<M>, p: Packet<M>)
    requires Packable(c, p)
    ensures HeaderInRange(HeaderFor(c, p))
  {
    NibblesAreNat(p.flags, p.lane);
    Crc32.CrcFits(c.enc(p.meta) + p.payload);
  }

  /** A header in front of a body of the announced length: the verdict is that of the body. */
  lemma ParseOfParts<M>(c: Codec<M>, h: FrameHeader, body: seq<byte>, rest: seq<byte>)
    requires HeaderInRange(h) && |body| == h.metaLen + h.payloadLen
    ensures Deserialize(c, PackHeader(h) + body + rest) == ParseBody(c, h, body)
  {
    UnpackOfPackHeader(h);
    var b := PackHeader(h) + body + rest;
    assert b[..FRAME_HEADER] == PackHeader(h);
    assert b[..2] == PackHeader(h)[..2];
    assert b[FRAME_HEADER..FRAME_HEADER + |body|] == body;
  }

  lemma NibblesBack(flags: nat, lane: nat)
    ensures FlagsLane(flags, lane) >= 0
    ensures PyInt.BitAnd(FlagsLane(flags, lane), 0x0F) == lane % 16
    ensures PyInt.BitAnd(FlagsLane(flags, lane), 0xF0) == 16 * (flags / 16 % 16)
    ensures PyInt.BitAnd(lane % 16, 0x0F) == lane % 16
  {
    NibblesAreNat(flags, lane);
    var x := FlagsLane(flags, lane);
    SplitByte(flags / 16 % 16, lane % 16);
    LowNibble(x);
    HighNibble(x);
    LowNibble(lane % 16);
  }

  lemma SplitByte(h: nat, l: nat)
    requires h < 16 && l < 16
    ensures (16 * h + l) % 16 == l && (16 * h + l) / 16 % 16 == h && l % 16 == l
  {
  }

  lemma BodyOfFrame<M(!new)>(c: Codec<M>, p: Packet<M>)
    requires Faithful(c) && Packable(c, p)
    ensures ParseBody(c, HeaderFor(c, p), c.enc(p.meta) + p.payload)
      == Got(p.(flags := 16 * (p.flags / 16 % 16), lane := p.lane % 16), TotalBytes(c, p))
  {
    var meta := c.enc(p.meta);
    var body := meta + p.payload;
    assert body[..|meta|] == meta && body[|meta|..] == p.payload;
    NibblesBack(p.flags, p.lane);
  }

  /** A frame followed by any bytes parses to the packet, except for the low flag bits. */
  lemma ParseOfFrame<M(!new)>(c: Codec<M>, p: Packet<M>, rest: seq<byte>)
    requires Faithful(c) && Packable(c, p)
    ensures Deserialize(c, Serialize(c, p).value + rest)
      == Got(p.(flags := 16 * (p.flags / 16 % 16), lane := p.lane % 16), TotalBytes(c, p))
    ensures |Serialize(c, p).value| == TotalBytes(c, p)
  {
    hide Deserialize, PackHeader, ParseBody, FlagsLane, Crc32.Crc;
    HeaderForInRange(c, p);
    ParseOfParts(c, HeaderFor(c, p), c.enc(p.meta) + p.payload, rest);
    BodyOfFrame(c, p);
  }

  /** Packets that survive the wire unchanged: four flag bits, a four-bit lane. */
  predicate WireExact<M>(c: Codec<M>, p: Packet<M>)
  {
    Packable(c, p) && p.flags < 0x100 && p.flags % 16 == 0 && p.lane < 16
  }

  /** The round trip is exact for precisely the packets whose flags fit the high nibble. */
  lemma RoundTripIff<M(!new)>(c: Codec<M>, p: Packet<M>, rest: seq<byte>)
    requires Faithful(c) && Packable(c, p)
    ensures Deserialize(c, Serialize(c, p).value + rest) == Got(p, TotalBytes(c, p)) <==> WireExact(c, p)
  {
    ParseOfFrame(c, p, rest);
    FlagsExact(p.flags);
    LaneExact(p.lane);
  }

  lemma FlagsExact(f: nat)
    ensures 16 * (f / 16 % 16) == f <==> f < 0x100 && f % 16 == 0
  {
  }

  lemma LaneExact(l: nat)
    ensures l % 16 == l <==> l < 16
  {
  }

  /** Flits cover the frame and the last one is not empty. */
  lemma FlitsCoverFrame<M(!new)>(c: Codec<M>, p: Packet<M>)
    requires Faithful(c) && Packable(c, p)
    ensures (FlitCount(c, p) - 1) * 64 < |Serialize(c, p).value| <= FlitCount(c, p) * 64
  {
    ParseOfFrame(c, p, []);
  }

  // ---------- incremental parsing ----------

  /** A verdict other than "need more" does not depend on later bytes. */
  lemma VerdictStable<M>(c: Codec<M>, buf: seq<byte>, more: seq<byte>)
    requires !Deserialize(c, buf).NeedMore?
    ensures Deserialize(c, buf + more) == Deserialize(c, buf)
  {
    var b := buf + more;
    assert b[..2] == buf[..2] && b[..FRAME_HEADER] == buf[..FRAME_HEADER];
    if buf[..2] == MAGIC {
      var h := UnpackHeader(buf[..FRAME_HEADER]);
      var total := FRAME_HEADER + h.metaLen + h.payloadLen;
      assert b[FRAME_HEADER..total] == buf[FRAME_HEADER..total];
    }
  }

  lemma PrefixOfWhole<M>(c: Codec<M>, f: seq<byte>, k: nat)
    requires Deserialize(c, f).Got? && Deserialize(c, f).consumed == |f| && k < |f|
    ensures Deserialize(c, f[..k]) == NeedMore
  {
    hide Deserialize;
    assert f == f[..k] + f[k..];
    if !Deserialize(c, f[..k]).NeedMore? {
      VerdictStable(c, f[..k], f[k..]);
    }
  }

  /** A strict prefix of a frame asks for more bytes. */
  lemma PrefixNeedsMore<M(!new)>(c: Codec<M>, p: Packet<M>, k: nat)
    requires Faithful(c) && Packable(c, p) && k < |Serialize(c, p).value|
    ensures Deserialize(c, Serialize(c, p).value[..k]) == NeedMore
  {
    hide Deserialize;
    var f := Serialize(c, p).value;
    ParseOfFrame(c, p, []);
    assert f + [] == f;
    PrefixOfWhole(c, f, k);
  }

  lemma UnpackedInRange(s: seq<byte>)
    requires |s| == FRAME_HEADER
    ensures HeaderInRange(UnpackHeader(s))
  {
    PowerValues();
    PackOfUnpack(s[2..3]);
    PackOfUnpack(s[3..4]);
    PackOfUnpack(s[4..8]);
    PackOfUnpack(s[8..10]);
    PackOfUnpack(s[10..12]);
    PackOfUnpack(s[12..16]);
    PackOfUnpack(s[16..20]);
    PackOfUnpack(s[20..24]);
    PackOfUnpack(s[24..28]);
  }

  lemma BodyInRange<M>(c: Codec<M>, h: FrameHeader, body: seq<byte>)
    requires HeaderInRange(h) && |body| == h.metaLen + h.payloadLen && ParseBody(c, h, body).Got?
    ensures InRange(ParseBody(c, h, body).pkt)
  {
    hide Crc32.Crc, PyInt.BitAnd;
    LowNibble(h.flagsLane);
    HighNibble(h.flagsLane);
    LowNibble(h.flagsLane % 16);
  }

  /** Values the fields of a received header can hold. */
  predicate InRange<M>(p: Packet<M>)
  {
    && p.opcode < 0x100 && p.seqNum < 0x1_0000_0000 && p.src < 0x1_0000 && p.dst < 0x1_0000
    && p.token < 0x1_0000_0000 && |p.payload| < 0x1_0000_0000 && |p.tag| == 16
    && p.flags < 0x100 && p.flags % 16 == 0 && p.lane < 16
  }

  /** Every parsed packet carries values its header fields can hold. */
  lemma ParsedInRange<M>(c: Codec<M>, buf: seq<byte>)
    requires Deserialize(c, buf).Got?
    ensures InRange(Deserialize(c, buf).pkt)
  {
    hide ParseBody, UnpackHeader, InRange, HeaderInRange;
    var h := UnpackHeader(buf[..FRAME_HEADER]);
    UnpackedInRange(buf[..FRAME_HEADER]);
    BodyInRange(c, h, buf[FRAME_HEADER..FRAME_HEADER + h.metaLen + h.payloadLen]);
  }

  lemma SerializedParts<M>(c: Codec<M>, p: Packet<M>)
    requires Packable(c, p)
    ensures HeaderInRange(HeaderFor(c, p))
    ensures Serialize(c, p).value[..FRAME_HEADER] == PackHeader(HeaderFor(c, p))
  {
    hide PackHeader, Crc32.Crc, FlagsLane;
    HeaderForInRange(c, p);
  }

  lemma WrongCrcRejected<M>(c: Codec<M>, h: FrameHeader, body: seq<byte>)
    requires |body| == h.metaLen + h.payloadLen && Crc32.Crc(body) != h.crc
    ensures ParseBody(c, h, body) == Bad(BadCrc)
  {
    hide Crc32.Crc;
    assert body[..h.metaLen] + body[h.metaLen..] == body;
  }

  /** A frame whose body was altered inside four consecutive bytes is rejected by its CRC. */
  lemma AlteredBodyRejected<M>(c: Codec<M>, p: Packet<M>, before: seq<byte>, u: seq<byte>, v: seq<byte>,
                               after: seq<byte>, rest: seq<byte>)
    requires Packable(c, p) && c.enc(p.meta) + p.payload == before + u + after
    requires |u| == |v| <= 4 && u != v
    ensures Deserialize(c, Serialize(c, p).value[..FRAME_HEADER] + (before + v + after) + rest) == Bad(BadCrc)
  {
    hide Deserialize, Serialize, PackHeader, ParseBody, HeaderInRange, FlagsLane, Crc32.Crc;
    var h := HeaderFor(c, p);
    var body := before + v + after;
    SerializedParts(c, p);
    assert |body| == |before + u + after|;
    ParseOfParts(c, h, body, rest);
    Crc32.WindowDetected(before, u, v, after);
    WrongCrcRejected(c, h, body);
  }
}
