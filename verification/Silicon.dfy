// silicon/ub_silicon_backend.c: the nodes of the silicon fabric, and the locked sections of a work
// request. Unsigned C arithmetic wraps and is written out.
module Silicon {
  import opened Bytes
  import PyInt
  import Arith

  const MAX_NODES: nat := 64
  const MAX_SEGMENTS: nat := 256
  const MAX_JETTIES: nat := 512
  const NODE_MEM_SIZE: nat := 64 * 1024 * 1024
  const FLIT: nat := 64
  const U32: nat := 0x1_0000_0000
  const U64: nat := 0x1_0000_0000_0000_0000

  datatype Segment = Segment(token: nat, base: nat, size: nat, valid: bool)

  datatype Jetty = Jetty(remoteNode: nat, token: nat, valid: bool)

  const NO_SEGMENT: Segment := Segment(0, 0, 0, false)
  const NO_JETTY: Jetty := Jetty(0, 0, false)

  datatype Node = Node(linkUp: bool, segs: seq<Segment>, jetties: seq<Jetty>, mem: seq<byte>,
                       txFlits: nat, rxFlits: nat, txBytes: nat, rxBytes: nat)

  predicate NodeOk(n: Node)
  {
    |n.segs| == MAX_SEGMENTS && |n.jetties| == MAX_JETTIES && |n.mem| == NODE_MEM_SIZE
  }

  function NoSegments(): (s: seq<Segment>)
    ensures |s| == MAX_SEGMENTS && forall i :: 0 <= i < |s| ==> s[i] == NO_SEGMENT
  {
    seq(MAX_SEGMENTS, _ => NO_SEGMENT)
  }

  function NoJetties(): (s: seq<Jetty>)
    ensures |s| == MAX_JETTIES && forall i :: 0 <= i < |s| ==> s[i] == NO_JETTY
  {
    seq(MAX_JETTIES, _ => NO_JETTY)
  }

  function BlankNode(): (n: Node)
    ensures NodeOk(n)
  {
    Node(false, NoSegments(), NoJetties(), Zeros(NODE_MEM_SIZE), 0, 0, 0, 0)
  }

  // ---------- requests ----------

  const OP_WRITE: nat := 0x60
  const OP_READ: nat := 0x62
  const OP_CAS: nat := 0x67
  const OP_ADD: nat := 0x68
  const OP_CDMA: nat := 0x70

  /** The descriptor fields a work request is decided by, and the caller's buffer. */
  datatype Request = Request(opcode: nat, flags: nat, dstNode: nat, token: nat, segId: nat,
                             offset: nat, length: nat, data: seq<byte>)

  /** The descriptor's C types, a buffer of the announced length, and no atomic opcode. */
  predicate RequestOk(r: Request)
  {
    && r.offset < U64 && r.length < U32 && r.token < U32 && r.segId < U32
    && r.opcode != OP_CAS && r.opcode != OP_ADD && |r.data| == r.length
  }

  type WorkRequest = r: Request | RequestOk(r) witness Request(OP_READ, 0, 0, 0, 0, 0, 0, [])

  /** Undefined: the access leaves the memory array, where C promises nothing. */
  datatype Result = Ok(out: seq<byte>) | Err(code: int) | Undefined

  predicate IsStore(op: nat)
  {
    op == OP_WRITE || op == OP_CDMA
  }

  predicate IsCipFlagged(flags: nat)
  {
    PyInt.BitAnd(flags, 0x80) != 0
  }

  // ---------- the CIP byte loop ----------

  function KeySeed(token: nat): byte
  {
    Xor(token % 256, token / 256 % 256)
  }

  /** in[i] ^ (key_seed + (uint8_t)(i * 31)) in int arithmetic, stored into a uint8_t. */
  function TransformByte(b: byte, token: nat, i: nat): byte
  {
    XorBits(b, KeySeed(token) + i * 31 % 256, 9) % 256
  }

  function Transform(data: seq<byte>, token: nat): (r: seq<byte>)
    ensures |r| == |data|
  {
    seq(|data|, i requires 0 <= i < |data| => TransformByte(data[i], token, i))
  }

  // ---------- the critical section of process_wr ----------

  datatype Located = At(addr: nat) | Fault(code: int)

  function Locate(n: Node, r: Request): Located
    requires NodeOk(n)
  {
    if r.segId >= MAX_SEGMENTS || !n.segs[r.segId].valid then Fault(-3)
    else
      var seg := n.segs[r.segId];
      if (r.offset + r.length) % U64 > seg.size then Fault(-4)
      else if r.token != 0 && seg.token != 0 && r.token != seg.token then Fault(-5)
      else
        var addr := (seg.base + r.offset) % U64;
        if (addr + r.length) % U64 > NODE_MEM_SIZE then Fault(-6) else At(addr)
  }

  /** The bytes a store leaves in memory. */
  function StoredBytes(r: Request): (d: seq<byte>)
    ensures |d| == |r.data|
  {
    if IsCipFlagged(r.flags) then Transform(r.data, r.token) else r.data
  }

  function Execute(n: Node, r: WorkRequest): (res: (Node, Result))
    requires NodeOk(n)
    ensures NodeOk(res.0)
  {
    match Locate(n, r)
    case Fault(code) => (n, Err(code))
    case At(addr) =>
      if !IsStore(r.opcode) && r.opcode != OP_READ then (n, Ok([]))
      else if addr + r.length > NODE_MEM_SIZE then (n, Undefined)
      else if IsStore(r.opcode) then (n.(mem := Assign(n.mem, addr, addr + r.length, StoredBytes(r))), Ok([]))
      else (n, Ok(n.mem[addr..addr + r.length]))
  }

  // ---------- telemetry sections ----------

  /** uint32 arithmetic: (length + 63) / 64, at least 1. */
  function Flits(length: nat): (f: nat)
    ensures f >= 1
  {
    var f := (length + FLIT - 1) % U32 / FLIT;
    if f == 0 then 1 else f
  }

  function CountTx(n: Node, length: nat): Node
  {
    n.(txFlits := (n.txFlits + Flits(length)) % U64, txBytes := (n.txBytes + length) % U64)
  }

  function CountRx(n: Node, length: nat): Node
  {
    n.(rxFlits := (n.rxFlits + Flits(length)) % U64, rxBytes := (n.rxBytes + length) % U64)
  }

  // ---------- a whole work request ----------

  ghost predicate NodesOk(nodes: seq<Node>)
  {
    |nodes| == MAX_NODES && forall n :: 0 <= n < MAX_NODES ==> NodeOk(nodes[n])
  }

  /** The two telemetry sections; source and destination may be one node. */
  function Account(nodes: seq<Node>, src: nat, dst: nat, length: nat): (r: seq<Node>)
    requires NodesOk(nodes) && src < MAX_NODES && dst < MAX_NODES
    ensures NodesOk(r)
  {
    var sent := nodes[src := CountTx(nodes[src], length)];
    sent[dst := CountRx(sent[dst], length)]
  }

  lemma AccountKeeps(nodes: seq<Node>, src: nat, dst: nat, length: nat)
    requires NodesOk(nodes) && src < MAX_NODES && dst < MAX_NODES
    ensures forall n :: 0 <= n < MAX_NODES ==>
      && Account(nodes, src, dst, length)[n].linkUp == nodes[n].linkUp
      && Account(nodes, src, dst, length)[n].jetties == nodes[n].jetties
      && Account(nodes, src, dst, length)[n].segs == nodes[n].segs
      && Account(nodes, src, dst, length)[n].mem == nodes[n].mem
  {
    hide Flits;
  }

  /** process_wr with nothing in between. */
  function Process(nodes: seq<Node>, src: nat, r: WorkRequest): (res: (seq<Node>, Result))
    requires NodesOk(nodes)
    ensures NodesOk(res.0)
  {
    if src >= MAX_NODES || r.dstNode >= MAX_NODES then (nodes, Err(-1))
    else if !nodes[r.dstNode].linkUp then (nodes, Err(-2))
    else
      var (node, out) := Execute(nodes[r.dstNode], r);
      if !out.Ok? then (nodes, out)
      else (Account(nodes[r.dstNode := node], src, r.dstNode, r.length), out)
  }

  /** The locked section touches nothing of a node but its memory, and without success not even that. */
  lemma ExecuteKeeps(n: Node, r: WorkRequest)
    requires NodeOk(n)
    ensures var (next, res) := Execute(n, r);
      && next == n.(mem := next.mem)
      && (!res.Ok? ==> next == n)
  {
    hide StoredBytes;
  }

  // ---------- registration ----------

  function LinkUp(n: Node): Node
  {
    n.(linkUp := true)
  }

  function LinkDown(n: Node): Node
  {
    n.(linkUp := false, segs := NoSegments(), jetties := NoJetties())
  }

  function AddSegment(n: Node, id: nat, base: nat, size: nat, token: nat): Node
    requires NodeOk(n)
  {
    if id >= MAX_SEGMENTS then n else n.(segs := n.segs[id := Segment(token, base, size, true)])
  }

  function AddJetty(n: Node, id: nat, remoteNode: nat, token: nat): Node
    requires NodeOk(n)
  {
    if id >= MAX_JETTIES then n else n.(jetties := n.jetties[id := Jetty(remoteNode, token, true)])
  }

  // ---------- where an accepted access lands ----------

  /** A segment record of the C types: both fields have 64 bits, their sum may not. */
  predicate IsUint64(seg: Segment)
  {
    seg.base < U64 && seg.size < U64
  }

  /** An accepted access lies inside its segment exactly if neither its end, counted in the segment, nor its
      address wraps around 64 bits; the checks of the code notice neither wrap. */
  lemma InsideSegmentIff(n: Node, r: WorkRequest)
    requires NodeOk(n) && Locate(n, r).At? && IsUint64(n.segs[r.segId])
    ensures var seg := n.segs[r.segId];
      var addr := Locate(n, r).addr;
      (seg.base <= addr && addr + r.length <= seg.base + seg.size)
        <==> r.offset + r.length < U64 && seg.base + r.offset < U64
  {
    var seg := n.segs[r.segId];
    WrapCases(seg.base + r.offset);
    WrapCases(r.offset + r.length);
  }

  lemma WrapCases(x: nat)
    requires x < 2 * U64
    ensures x % U64 == if x < U64 then x else x - U64
  {
  }

  /** An accepted access lies at the place it names, and in the memory array, exactly if the end of that place
      does not wrap; and it leaves the array exactly if the end of the address it is given wraps, which the
      capacity check does not notice either. */
  lemma InsideMemoryIff(n: Node, r: WorkRequest)
    requires NodeOk(n) && Locate(n, r).At? && IsUint64(n.segs[r.segId])
    ensures var place := n.segs[r.segId].base + r.offset;
      var addr := Locate(n, r).addr;
      && ((addr == place && addr + r.length <= NODE_MEM_SIZE) <==> place + r.length < U64)
      && (addr + r.length > NODE_MEM_SIZE <==> addr + r.length >= U64)
  {
    var seg := n.segs[r.segId];
    WrapCases(seg.base + r.offset);
    WrapCases(Locate(n, r).addr + r.length);
  }

  /** The outcome C leaves undefined, exactly: a store or read that passes the checks and whose address ends
      beyond 64 bits. */
  lemma UndefinedIff(n: Node, r: WorkRequest)
    requires NodeOk(n)
    ensures Execute(n, r).1.Undefined?
      <==> (IsStore(r.opcode) || r.opcode == OP_READ) && Locate(n, r).At? && Locate(n, r).addr + r.length >= U64
  {
    hide StoredBytes;
    if Locate(n, r).At? { WrapCases(Locate(n, r).addr + r.length); }
  }

  /** The three wraps: the end in the segment, the address, and the end of the address. A request whose end wraps
      is accepted although it lies eight bytes below its segment ... */
  lemma WrapReachesNeighbour()
    ensures var n := BlankNode().(linkUp := true, segs := NoSegments()[2 := Segment(0, 0x10_0000, 4096, true)]);
      var r := Request(OP_READ, 0, 0, 0, 2, U64 - 8, 16, Zeros(16));
      RequestOk(r) && Locate(n, r) == At(0x10_0000 - 8)
  {
  }

  /** ... through a segment that is long enough a request that does not wrap in it reaches, by a wrapping address,
      every place below the segment ... */
  lemma LongSegmentReachesBelow(n: Node, r: WorkRequest, addr: nat)
    requires NodeOk(n) && r.segId < MAX_SEGMENTS && n.segs[r.segId].valid && r.token == 0
    requires n.segs[r.segId].size == U64 - 1 && n.segs[r.segId].base < U64
    requires addr + r.length < n.segs[r.segId].base && addr + r.length <= NODE_MEM_SIZE
    requires r.offset == U64 - n.segs[r.segId].base + addr
    ensures r.offset + r.length < U64 && Locate(n, r) == At(addr)
  {
    WrapCases(n.segs[r.segId].base + r.offset);
  }

  /** ... or, by an address whose end wraps, leaves the memory array. */
  lemma WrapLeavesMemory()
    ensures var n := BlankNode().(linkUp := true, segs := NoSegments()[2 := Segment(0, 0x10_0000, U64 - 1, true)]);
      var r := Request(OP_READ, 0, 0, 0, 2, U64 - 0x10_0008, 16, Zeros(16));
      RequestOk(r) && r.offset + r.length < U64 && Execute(n, r).1 == Undefined
  {
  }

  // ---------- the CIP loop is an involution ----------

  lemma {:induction false} XorIgnoresHighBits(a: nat, b: nat, width: nat, more: nat)
    ensures XorBits(a, b, width + more) % Pow(2, width) == XorBits(a, b, width)
  {
    if width > 0 {
      XorIgnoresHighBits(a / 2, b / 2, width - 1, more);
      DoubleMod(XorBits(a / 2, b / 2, width - 1 + more), if a % 2 != b % 2 then 1 else 0, Pow(2, width - 1));
    }
  }

  lemma DoubleMod(x: nat, bit: nat, m: nat)
    requires m > 0 && bit <= 1
    ensures (bit + 2 * x) % (2 * m) == bit + 2 * (x % m)
  {
    var q := x / m;
    assert x == m * q + x % m;
    assert bit + 2 * x == (2 * m) * q + (bit + 2 * (x % m));
    Arith.ModUnique(bit + 2 * x, 2 * m, q, bit + 2 * (x % m));
  }

  lemma HalfMod(b: nat, m: nat)
    requires m > 0
    ensures b % (2 * m) == b % 2 + 2 * (b / 2 % m)
  {
    DoubleMod(b / 2, b % 2, m);
  }

  lemma {:induction false} XorModulo(a: nat, b: nat, c: nat, width: nat)
    requires b % Pow(2, width) == c % Pow(2, width)
    ensures XorBits(a, b, width) == XorBits(a, c, width)
  {
    if width > 0 {
      HalfMod(b, Pow(2, width - 1));
      HalfMod(c, Pow(2, width - 1));
      SameHalves(b % 2, b / 2 % Pow(2, width - 1), c % 2, c / 2 % Pow(2, width - 1));
      XorModulo(a / 2, b / 2, c / 2, width - 1);
    }
  }

  lemma SameHalves(x: nat, y: nat, u: nat, v: nat)
    requires x <= 1 && u <= 1 && x + 2 * y == u + 2 * v
    ensures x == u && y == v
  {
  }

  /** The nine-bit sum, truncated after the exclusive or, acts as its low eight bits. */
  lemma TransformIsXor(b: byte, token: nat, i: nat)
    ensures TransformByte(b, token, i) == Xor(b, (KeySeed(token) + i * 31 % 256) % 256)
  {
    ByteWidth();
    XorIgnoresHighBits(b, KeySeed(token) + i * 31 % 256, 8, 1);
    var sum := KeySeed(token) + i * 31 % 256;
    XorModulo(b, sum, sum % 256, 8);
  }

  // ---------- the key seed, in the bits of the token ----------

  lemma {:induction false} BitOfRemainder(n: nat, width: nat, k: nat)
    requires k < width
    ensures PyInt.Bit(n % Pow(2, width), k) <==> PyInt.Bit(n, k)
  {
    HalfMod(n, Pow(2, width - 1));
    var rest := n / 2 % Pow(2, width - 1);
    assert (n % 2 + 2 * rest) % 2 == n % 2 && (n % 2 + 2 * rest) / 2 == rest;
    if k > 0 { BitOfRemainder(n / 2, width - 1, k - 1); }
  }

  lemma BitOfQuotient(n: nat, k: nat)
    ensures PyInt.Bit(n / 16, k) <==> PyInt.Bit(n, k + 4)
  {
    assert n / 2 / 2 / 2 / 2 == n / 16;
    assert PyInt.Bit(n, k + 4) == PyInt.Bit(n / 2, k + 3) == PyInt.Bit(n / 2 / 2, k + 2);
    assert PyInt.Bit(n / 2 / 2, k + 2) == PyInt.Bit(n / 2 / 2 / 2, k + 1) == PyInt.Bit(n / 2 / 2 / 2 / 2, k);
  }

  /** A bit of the token, exclusive or the one eight places above. */
  predicate SeedBit(token: nat, k: nat)
  {
    PyInt.Bit(token, k) != PyInt.Bit(token, k + 8)
  }

  lemma SixteenSquared(n: nat)
    ensures n / 16 / 16 == n / 256
  {
  }

  lemma KeySeedAt(token: nat, k: nat)
    requires k < 8
    ensures PyInt.Bit(KeySeed(token), k) <==> SeedBit(token, k)
  {
    hide XorBits, PyInt.Bit, Xor;
    ByteWidth();
    SixteenSquared(token);
    BitOfRemainder(token, 8, k);
    BitOfRemainder(token / 256, 8, k);
    BitOfQuotient(token / 16, k);
    BitOfQuotient(token, k + 4);
    XorAt(token % 256, token / 256 % 256, k);
  }

  lemma {:induction false} BitsDecide(a: nat, b: nat, width: nat)
    requires a < Pow(2, width) && b < Pow(2, width)
    requires forall k: nat :: k < width ==> (PyInt.Bit(a, k) <==> PyInt.Bit(b, k))
    ensures a == b
  {
    if width > 0 {
      assert PyInt.Bit(a, 0) == PyInt.Bit(b, 0);
      forall k: nat | k < width - 1
        ensures PyInt.Bit(a / 2, k) <==> PyInt.Bit(b / 2, k)
      {
        assert PyInt.Bit(a, k + 1) == PyInt.Bit(b, k + 1);
      }
      BitsDecide(a / 2, b / 2, width - 1);
    }
  }

  predicate SameSeed(token: nat, token': nat)
  {
    forall k: nat :: k < 8 ==> (SeedBit(token, k) <==> SeedBit(token', k))
  }

  lemma SeedsAgreeIff(token: nat, token': nat)
    ensures KeySeed(token) == KeySeed(token') <==> SameSeed(token, token')
  {
    hide KeySeed, SeedBit;
    ByteWidth();
    forall k: nat | k < 8
      ensures PyInt.Bit(KeySeed(token), k) <==> SeedBit(token, k)
      ensures PyInt.Bit(KeySeed(token'), k) <==> SeedBit(token', k)
    {
      KeySeedAt(token, k);
      KeySeedAt(token', k);
    }
    if SameSeed(token, token') { BitsDecide(KeySeed(token), KeySeed(token'), 8); }
  }

  lemma KeyStep(seed: nat, n: nat)
    ensures (seed + n % 256) % 256 == (seed + n) % 256
    ensures seed < 256 ==> (seed + 0) % 256 == seed
  {
  }

  /** Byte i of the transformed data is the exclusive or of the input byte with the seed, whose bits are those of
      the token exclusive or the ones eight places above, plus 31 * i, modulo 256. */
  lemma TransformExact(data: seq<byte>, token: nat, seed: byte, i: nat, k: nat)
    requires i < |data| && k < 8
    requires forall j: nat :: j < 8 ==> (PyInt.Bit(seed, j) <==> SeedBit(token, j))
    ensures PyInt.Bit(Transform(data, token)[i], k)
      <==> PyInt.Bit(data[i], k) != PyInt.Bit((seed + 31 * i) % 256, k)
  {
    hide KeySeed, SeedBit, TransformByte, Xor, PyInt.Bit;
    ByteWidth();
    forall j: nat | j < 8
      ensures PyInt.Bit(KeySeed(token), j) <==> PyInt.Bit(seed, j)
    {
      KeySeedAt(token, j);
    }
    BitsDecide(KeySeed(token), seed, 8);
    TransformIsXor(data[i], token, i);
    KeyStep(seed, 31 * i);
    XorAt(data[i], (seed + 31 * i) % 256, k);
  }

  /** The first byte of a transformed zero is the seed. */
  lemma TransformedZero(token: nat, k: nat)
    requires k < 8
    ensures PyInt.Bit(Transform([0], token)[0], k) <==> PyInt.Bit(token, k) != PyInt.Bit(token, k + 8)
  {
    hide TransformByte, KeySeed, PyInt.Bit;
    KeyStep(KeySeed(token), 0);
    forall j: nat | j < 8
      ensures PyInt.Bit(KeySeed(token), j) <==> SeedBit(token, j)
    {
      KeySeedAt(token, j);
    }
    TransformExact([0], token, KeySeed(token), 0, k);
    PyInt.BitOfZero(k);
  }

  /** Transforming twice gives the data back exactly if the two tokens agree in which of their lowest eight bits
      differ from the bits eight places above. */
  lemma TransformTwiceIff(data: seq<byte>, token: nat, token': nat)
    requires data != []
    ensures Transform(Transform(data, token), token') == data <==> SameSeed(token, token')
  {
    hide TransformByte, KeySeed, Xor, SameSeed;
    SeedsAgreeIff(token, token');
    var t := Transform(data, token);
    if KeySeed(token) == KeySeed(token') {
      forall i | 0 <= i < |data|
        ensures Transform(t, token')[i] == data[i]
      {
        TransformIsXor(data[i], token, i);
        TransformIsXor(t[i], token', i);
        XorInvolution(data[i], (KeySeed(token) + i * 31 % 256) % 256);
      }
      assert Transform(t, token') == data;
    } else if Transform(t, token') == data {
      TransformIsXor(data[0], token, 0);
      TransformIsXor(t[0], token', 0);
      assert Xor(t[0], KeySeed(token')) == data[0] by { assert Transform(t, token')[0] == data[0]; }
      XorInvolution(data[0], KeySeed(token));
      XorInjective(t[0], KeySeed(token), KeySeed(token'));
    }
  }

  // ---------- what a request does, by opcode number and flag bit ----------

  lemma FlaggedIsBit(flags: nat)
    ensures IsCipFlagged(flags) <==> PyInt.Bit(flags, 7)
  {
    hide PyInt.BitAnd;
    PyInt.MaskTest(flags, 7);
    assert PyInt.Shl(1, 7) == 0x80 by { assert PyInt.Shl(1, 4) == 16; }
  }

  /** Which error a request meets under the lock, the first that applies, and where it is let otherwise. */
  lemma ErrorsExact(n: Node, r: WorkRequest)
    requires NodeOk(n)
    ensures var found := r.segId < 256 && n.segs[r.segId].valid;
      && (Execute(n, r).1 == Err(-3) <==> !found)
      && (found ==>
            var seg := n.segs[r.segId];
            var fits := (r.offset + r.length) % 0x1_0000_0000_0000_0000 <= seg.size;
            var opens := r.token == 0 || seg.token == 0 || r.token == seg.token;
            var place := (seg.base + r.offset) % 0x1_0000_0000_0000_0000;
            var room := (place + r.length) % 0x1_0000_0000_0000_0000 <= 64 * 1024 * 1024;
            && (Execute(n, r).1 == Err(-4) <==> !fits)
            && (Execute(n, r).1 == Err(-5) <==> fits && !opens)
            && (Execute(n, r).1 == Err(-6) <==> fits && opens && !room)
            && (Locate(n, r) == At(place) <==> fits && opens && room))
  {
    hide StoredBytes;
  }

  /** A request that is let in: 0x60 and 0x70 store their data, transformed if flag bit 7 is set, 0x62 reads, and
      any other opcode does nothing. */
  lemma ExecuteExact(n: Node, r: WorkRequest)
    requires NodeOk(n) && Locate(n, r).At? && !Execute(n, r).1.Undefined?
    ensures var (next, res) := Execute(n, r);
      var from := Locate(n, r).addr;
      var to := from + r.length;
      && res.Ok? && (r.opcode in {0x60, 0x62, 0x70} ==> to <= 64 * 1024 * 1024 == |n.mem|)
      && (r.opcode in {0x60, 0x70} ==>
            var stored := if PyInt.Bit(r.flags, 7) then Transform(r.data, r.token) else r.data;
            res.out == [] && next == n.(mem := n.mem[..from] + stored + n.mem[to..]))
      && (r.opcode == 0x62 ==> next == n && res.out == n.mem[from..to])
      && (r.opcode !in {0x60, 0x62, 0x70} ==> next == n && res.out == [])
  {
    hide Locate, Transform, IsCipFlagged;
    FlaggedIsBit(r.flags);
  }

  // ---------- flits ----------

  /** How many flits of 64 bytes a transfer counts: enough for its bytes and no more; one for no bytes, and one
      also for the lengths whose 32-bit sum with 63 wraps. */
  predicate FlitCount(length: nat, f: nat)
  {
    if length == 0 || length + 63 >= 0x1_0000_0000 then f == 1 else (f - 1) * 64 < length <= f * 64
  }

  lemma FlitsExact(length: nat, f: nat)
    requires length < U32
    ensures Flits(length) == f <==> FlitCount(length, f)
  {
  }

  /** A whole request: -1 for an unknown node, -2 for a link that is down, and otherwise what the locked section
      at the destination answers and leaves in its memory; no other memory and no table changes. */
  lemma ProcessExact(nodes: seq<Node>, src: nat, r: WorkRequest)
    requires NodesOk(nodes)
    ensures var (next, res) := Process(nodes, src, r);
      if src >= 64 || r.dstNode >= 64 then res == Err(-1) && next == nodes
      else if !nodes[r.dstNode].linkUp then res == Err(-2) && next == nodes
      else
        && res == Execute(nodes[r.dstNode], r).1
        && next[r.dstNode].mem == Execute(nodes[r.dstNode], r).0.mem
        && forall n :: 0 <= n < 64 ==>
          && next[n].linkUp == nodes[n].linkUp && next[n].segs == nodes[n].segs
          && next[n].jetties == nodes[n].jetties && (n != r.dstNode ==> next[n].mem == nodes[n].mem)
  {
    hide Execute, Flits;
    if src < MAX_NODES && r.dstNode < MAX_NODES { ExecuteKeeps(nodes[r.dstNode], r); }
  }

  /** Bringing a link up changes the link alone; taking it down empties both tables and spares memory and counters. */
  lemma LinkExact(n: Node, i: nat)
    requires NodeOk(n)
    ensures LinkUp(n) == n.(linkUp := true)
    ensures var d := LinkDown(n);
      && !d.linkUp && |d.segs| == 256 && |d.jetties| == 512
      && (i < 256 ==> !d.segs[i].valid) && (i < 512 ==> d.jetties[i] == Jetty(0, 0, false))
      && d.mem == n.mem && d.txFlits == n.txFlits && d.rxFlits == n.rxFlits
      && d.txBytes == n.txBytes && d.rxBytes == n.rxBytes
  {
  }

  /** A request that succeeds has counted its flits and bytes, modulo 2^64, as sent at its source and as received
      at its destination, which may be one node, and nothing else; one that fails has counted nothing. */
  lemma ProcessCounts(nodes: seq<Node>, src: nat, r: WorkRequest, f: nat, n: nat)
    requires NodesOk(nodes) && n < MAX_NODES && FlitCount(r.length, f)
    ensures var (next, res) := Process(nodes, src, r);
      var sent, received := res.Ok? && n == src, res.Ok? && n == r.dstNode;
      && next[n].txFlits == (if sent then (nodes[n].txFlits + f) % 0x1_0000_0000_0000_0000 else nodes[n].txFlits)
      && next[n].txBytes == (if sent then (nodes[n].txBytes + r.length) % 0x1_0000_0000_0000_0000 else nodes[n].txBytes)
      && next[n].rxFlits == (if received then (nodes[n].rxFlits + f) % 0x1_0000_0000_0000_0000 else nodes[n].rxFlits)
      && next[n].rxBytes
         == (if received then (nodes[n].rxBytes + r.length) % 0x1_0000_0000_0000_0000 else nodes[n].rxBytes)
  {
    hide Execute, Flits, FlitCount;
    FlitsExact(r.length, f);
    if src < MAX_NODES && r.dstNode < MAX_NODES { ExecuteKeeps(nodes[r.dstNode], r); }
  }

  // ---------- the node object ----------

  class SiliconNode {
    const memory: array<byte>
    const segments: array<Segment>
    const jetties: array<Jetty>
    var linkUp: bool
    var txFlits: nat
    var rxFlits: nat
    var txBytes: nat
    var rxBytes: nat

    ghost const Repr: set<object>

    ghost predicate Valid()
    {
      && Repr == {this, memory, segments, jetties}
      && memory.Length == NODE_MEM_SIZE && segments.Length == MAX_SEGMENTS && jetties.Length == MAX_JETTIES
    }

    ghost function Abs(): Node
      reads this, memory, segments, jetties
    {
      Node(linkUp, segments[..], jetties[..], memory[..], txFlits, rxFlits, txBytes, rxBytes)
    }

    /** calloc: everything zero. */
    constructor ()
      ensures Valid() && fresh(Repr) && Abs() == BlankNode()
      ensures memory.Length == 64 * 1024 * 1024 && segments.Length == 256 && jetties.Length == 512
    {
      var m := new byte[NODE_MEM_SIZE](_ => 0);
      var s := new Segment[MAX_SEGMENTS](_ => NO_SEGMENT);
      var j := new Jetty[MAX_JETTIES](_ => NO_JETTY);
      memory, segments, jetties := m, s, j;
      Repr := {this, m, s, j};
      linkUp, txFlits, rxFlits, txBytes, rxBytes := false, 0, 0, 0, 0;
      new;
      assert memory[..] == Zeros(NODE_MEM_SIZE) && segments[..] == NoSegments() && jetties[..] == NoJetties();
    }

    method Register()
      requires Valid()
      modifies this`linkUp
      ensures Valid() && Abs() == LinkUp(old(Abs()))
    {
      linkUp := true;
    }

    method Unregister()
      requires Valid()
      modifies this`linkUp, segments, jetties
      ensures Valid() && Abs() == LinkDown(old(Abs()))
    {
      linkUp := false;
      forall i | 0 <= i < segments.Length {
        segments[i] := NO_SEGMENT;
      }
      forall i | 0 <= i < jetties.Length {
        jetties[i] := NO_JETTY;
      }
      assert segments[..] == NoSegments() && jetties[..] == NoJetties();
    }

    method RegisterSegment(id: nat, base: nat, size: nat, token: nat) returns (code: int)
      requires Valid()
      modifies segments
      ensures Valid() && Abs() == AddSegment(old(Abs()), id, base, size, token)
      ensures code == if id < MAX_SEGMENTS then 0 else -1
    {
      if id >= MAX_SEGMENTS {
        return -1;
      }
      segments[id] := Segment(token, base, size, true);
      return 0;
    }

    method CreateJetty(id: nat, remoteNode: nat, token: nat) returns (code: int)
      requires Valid()
      modifies jetties
      ensures Valid() && Abs() == AddJetty(old(Abs()), id, remoteNode, token)
      ensures code == if id < MAX_JETTIES then 0 else -1
    {
      if id >= MAX_JETTIES {
        return -1;
      }
      jetties[id] := Jetty(remoteNode, token, true);
      return 0;
    }

    /** cip_crypto_transform, from the caller's buffer into the aperture. */
    method CipTransform(input: seq<byte>, at: nat, token: nat)
      requires Valid() && at + |input| <= NODE_MEM_SIZE
      modifies memory
      ensures Abs() == old(Abs()).(mem := Assign(old(memory[..]), at, at + |input|, Transform(input, token)))
    {
      var keySeed := KeySeed(token);
      for i := 0 to |input|
        invariant forall k :: 0 <= k < i ==> memory[at + k] == TransformByte(input[k], token, k)
        invariant forall k :: 0 <= k < NODE_MEM_SIZE && !(at <= k < at + i) ==> memory[k] == old(memory[k])
      {
        memory[at + i] := XorBits(input[i], keySeed + i * 31 % 256, 9) % 256;
      }
      ghost var target := Assign(old(memory[..]), at, at + |input|, Transform(input, token));
      OverwriteAt(old(memory[..]), at, Transform(input, token));
      forall k | 0 <= k < NODE_MEM_SIZE
        ensures memory[..][k] == target[k]
      {
        if at <= k < at + |input| { assert memory[at + (k - at)] == TransformByte(input[k - at], token, k - at); }
      }
      assert memory[..] == target;
    }

    /** The section of process_wr under the destination's lock. */
    method ExecuteLocked(r: WorkRequest) returns (res: Result)
      requires Valid()
      modifies memory
      ensures Valid() && (Abs(), res) == Execute(old(Abs()), r)
    {
      hide Transform, IsCipFlagged;
      if r.segId >= MAX_SEGMENTS || !segments[r.segId].valid {
        return Err(-3);
      }
      var seg := segments[r.segId];
      if (r.offset + r.length) % U64 > seg.size {
        return Err(-4);
      }
      if r.token != 0 && seg.token != 0 && r.token != seg.token {
        return Err(-5);
      }
      var addr := (seg.base + r.offset) % U64;
      if (addr + r.length) % U64 > NODE_MEM_SIZE {
        return Err(-6);
      }
      ghost var n := old(Abs());
      assert Locate(n, r) == At(addr);
      res := Ok([]);
      if !IsStore(r.opcode) && r.opcode != OP_READ {
        return;
      }
      if addr + r.length > NODE_MEM_SIZE {
        return Undefined;
      }
      if IsStore(r.opcode) {
        Store(r, addr);
      } else {
        res := Ok(memory[addr..addr + r.length]);
        assert memory[addr..addr + r.length] == n.mem[addr..addr + r.length];
      }
    }

    method Store(r: WorkRequest, addr: nat)
      requires Valid() && addr + r.length <= NODE_MEM_SIZE
      modifies memory
      ensures Abs() == old(Abs()).(mem := Assign(old(memory[..]), addr, addr + r.length, StoredBytes(r)))
    {
      hide Transform, IsCipFlagged;
      if IsCipFlagged(r.flags) {
        CipTransform(r.data, addr, r.token);
      } else {
        forall i | 0 <= i < r.length {
          memory[addr + i] := r.data[i];
        }
        assert memory[..] == Assign(old(memory[..]), addr, addr + r.length, r.data);
      }
    }

    method AccountTx(length: nat)
      requires Valid()
      modifies this`txFlits, this`txBytes
      ensures Valid() && Abs() == CountTx(old(Abs()), length)
    {
      txFlits := (txFlits + Flits(length)) % U64;
      txBytes := (txBytes + length) % U64;
    }

    method AccountRx(length: nat)
      requires Valid()
      modifies this`rxFlits, this`rxBytes
      ensures Valid() && Abs() == CountRx(old(Abs()), length)
    {
      rxFlits := (rxFlits + Flits(length)) % U64;
      rxBytes := (rxBytes + length) % U64;
    }
  }

  // ---------- the fabric ----------

  /** The nodes array of the fabric structure: 64 separate nodes. */
  ghost predicate FabricOk(fabric: seq<SiliconNode>)
  {
    && |fabric| == MAX_NODES
    && (forall n :: 0 <= n < MAX_NODES ==> fabric[n].Valid())
    && (forall m, n :: 0 <= m < n < MAX_NODES ==> fabric[m].Repr !! fabric[n].Repr)
  }

  ghost function Footprint(fabric: seq<SiliconNode>): set<object>
  {
    set n, o: object | 0 <= n < |fabric| && o in fabric[n].Repr :: o
  }

  ghost function AbsAll(fabric: seq<SiliconNode>): (nodes: seq<Node>)
    requires FabricOk(fabric)
    reads Footprint(fabric)
    ensures NodesOk(nodes)
  {
    seq(MAX_NODES, n requires 0 <= n < MAX_NODES && FabricOk(fabric) reads Footprint(fabric) => fabric[n].Abs())
  }

  /** ub_silicon_process_wr run by one thread with nothing in between. */
  method ProcessWr(fabric: seq<SiliconNode>, src: nat, r: WorkRequest) returns (res: Result)
    requires FabricOk(fabric)
    modifies Footprint(fabric)
    ensures (AbsAll(fabric), res) == Process(old(AbsAll(fabric)), src, r)
  {
    hide Execute, Flits;
    if src >= MAX_NODES || r.dstNode >= MAX_NODES {
      return Err(-1);
    }
    if !fabric[r.dstNode].linkUp {
      return Err(-2);
    }
    ghost var before := AbsAll(fabric);
    res := RunLocked(fabric[src], fabric[r.dstNode], r);
    forall n | 0 <= n < MAX_NODES
      ensures AbsAll(fabric)[n] == Process(before, src, r).0[n]
    {
      if n != src && n != r.dstNode { assert fabric[n].Abs() == before[n]; }
    }
    assert AbsAll(fabric) == Process(before, src, r).0;
  }

  /** The locked section and, if it succeeds, the telemetry; src and dst may be one node. */
  method RunLocked(src: SiliconNode, dst: SiliconNode, r: WorkRequest) returns (res: Result)
    requires src.Valid() && dst.Valid() && (src == dst || src.Repr !! dst.Repr)
    modifies src`txFlits, src`txBytes, dst`rxFlits, dst`rxBytes, dst.memory
    ensures res == Execute(old(dst.Abs()), r).1
    ensures !res.Ok? ==> src.Abs() == old(src.Abs()) && dst.Abs() == old(dst.Abs())
    ensures res.Ok? && src == dst ==>
      dst.Abs() == CountRx(CountTx(Execute(old(dst.Abs()), r).0, r.length), r.length)
    ensures res.Ok? && src != dst ==>
      && src.Abs() == CountTx(old(src.Abs()), r.length)
      && dst.Abs() == CountRx(Execute(old(dst.Abs()), r).0, r.length)
  {
    hide Execute, Flits;
    res := dst.ExecuteLocked(r);
    if !res.Ok? {
      ExecuteKeeps(old(dst.Abs()), r);
      return;
    }
    src.AccountTx(r.length);
    dst.AccountRx(r.length);
  }
}
