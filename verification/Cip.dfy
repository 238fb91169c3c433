// daemon/cip.py: the CIP engine. SHA-256 and HMAC-SHA-256 are parameters of which only
// the 32-byte output length is known.
module Cip {
  import opened Bytes
  import opened ReplayWindow
  import PyInt

  type Hash = f: seq<byte> -> seq<byte> | forall x :: |f(x)| == 32 witness x => Zeros(32)
  type Mac = f: (seq<byte>, seq<byte>) -> seq<byte> | forall k, x :: |f(k, x)| == 32 witness (k, x) => Zeros(32)

  datatype Crypto = Crypto(sha256: Hash, hmac: Mac)

  const SUITE_NONE: byte := 0x00

  /** The ASCII bytes of "UnifiedBus_CIP_Root_Key". */
  const SALT: seq<byte> :=
    [85, 110, 105, 102, 105, 101, 100, 66, 117, 115, 95, 67, 73, 80, 95, 82, 111, 111, 116, 95, 75, 101, 121]

  function DeriveKey(c: Crypto, token: nat): seq<byte>
  {
    (c.sha256)(SALT + Be(token, 4))
  }

  function Nonce(token: nat, seqNum: nat): seq<byte>
  {
    Be(token, 4) + Be(seqNum, 8)
  }

  /** Keystream block number i under a key and a nonce. */
  function Block(c: Crypto, key: seq<byte>, nonce: seq<byte>, i: nat): (b: seq<byte>)
    ensures |b| == 32
  {
    (c.sha256)(key + (nonce + Be(i, 4)))
  }

  /** Byte j of the unbounded keystream of a packet. */
  function KeystreamByte(c: Crypto, token: nat, seqNum: nat, j: nat): byte
  {
    Block(c, DeriveKey(c, token), Nonce(token, seqNum), j / 32)[j % 32]
  }

  /** Data combined bytewise with the keystream: encryption and decryption alike. */
  function Mask(c: Crypto, token: nat, seqNum: nat, data: seq<byte>): (r: seq<byte>)
    ensures |r| == |data|
  {
    seq(|data|, i requires 0 <= i < |data| => Xor(data[i], KeystreamByte(c, token, seqNum, i)))
  }

  function TagOf(c: Crypto, suite: byte, token: nat, seqNum: nat, ciphertext: seq<byte>): (t: seq<byte>)
    ensures |t| == 16
  {
    (c.hmac)(DeriveKey(c, token), ciphertext + Nonce(token, seqNum) + [suite])[..16]
  }

  function Seal(c: Crypto, suite: byte, payload: seq<byte>, token: nat, seqNum: nat): (seq<byte>, seq<byte>)
  {
    if suite == SUITE_NONE || payload == [] then (payload, Zeros(16))
    else
      var ciphertext := Mask(c, token, seqNum, payload);
      (ciphertext, TagOf(c, suite, token, seqNum, ciphertext))
  }

  datatype CipState = CipState(suite: byte, size: int, windows: map<nat, Window>,
                               encrypted: nat, decrypted: nat, tampered: nat, replayed: nat)

  datatype CipError = ReplayStale | ReplayDuplicate | TagMismatch

  datatype Opened = Plain(text: seq<byte>) | Rejected(error: CipError)

  /** decrypt_and_verify: the window moves before the tag is looked at. */
  function Open(c: Crypto, st: CipState, ciphertext: seq<byte>, tag: seq<byte>, token: nat, seqNum: nat, src: nat)
    : (CipState, Opened)
  {
    if st.suite == SUITE_NONE || ciphertext == [] then (st, Plain(ciphertext))
    else
      var (verdict, windows) := CheckAt(st.windows, Arrival(src, seqNum), st.size);
      match verdict
      case Stale => (st.(replayed := st.replayed + 1), Rejected(ReplayStale))
      case Duplicate => (st.(replayed := st.replayed + 1), Rejected(ReplayDuplicate))
      case Admitted =>
        if tag != TagOf(c, st.suite, token, seqNum, ciphertext) then
          (st.(windows := windows, tampered := st.tampered + 1), Rejected(TagMismatch))
        else
          (st.(windows := windows, decrypted := st.decrypted + 1), Plain(Mask(c, token, seqNum, ciphertext)))
  }

  lemma OpenCases(c: Crypto, st: CipState, ct: seq<byte>, tag: seq<byte>, token: nat, seqNum: nat, src: nat)
    ensures var o := Open(c, st, ct, tag, token, seqNum, src);
      if st.suite == SUITE_NONE || ct == [] then o == (st, Plain(ct))
      else
        var (verdict, windows) := CheckAt(st.windows, Arrival(src, seqNum), st.size);
        var expected := (c.hmac)(DeriveKey(c, token), ct + Nonce(token, seqNum) + [st.suite])[..16];
        && (verdict == Stale ==> o == (st.(replayed := st.replayed + 1), Rejected(ReplayStale)))
        && (verdict == Duplicate ==> o == (st.(replayed := st.replayed + 1), Rejected(ReplayDuplicate)))
        && (verdict == Admitted ==>
            var next := st.(windows := windows);
            o == if tag != expected then (next.(tampered := st.tampered + 1), Rejected(TagMismatch))
                 else (next.(decrypted := st.decrypted + 1), Plain(Mask(c, token, seqNum, ct))))
  {
    hide CheckAt, Mask, DeriveKey, Nonce;
  }

  // ---------- the keystream ----------

  /** What the while loops have accumulated after n rounds. */
  function Blocks(c: Crypto, key: seq<byte>, nonce: seq<byte>, n: nat): (r: seq<byte>)
    ensures |r| == 32 * n
  {
    if n == 0 then [] else Blocks(c, key, nonce, n - 1) + Block(c, key, nonce, n - 1)
  }

  lemma {:induction false} BlocksAreKeystream(c: Crypto, token: nat, seqNum: nat, n: nat, j: nat)
    requires j < 32 * n
    ensures Blocks(c, DeriveKey(c, token), Nonce(token, seqNum), n)[j] == KeystreamByte(c, token, seqNum, j)
  {
    hide Block, DeriveKey, Nonce;
    if j < 32 * (n - 1) {
      BlocksAreKeystream(c, token, seqNum, n - 1, j);
    } else {
      assert j / 32 == n - 1 && j % 32 == j - 32 * (n - 1);
    }
  }

  /** Masking twice under the same token and number restores the data. */
  lemma MaskInvolution(c: Crypto, token: nat, seqNum: nat, data: seq<byte>)
    ensures Mask(c, token, seqNum, Mask(c, token, seqNum, data)) == data
  {
    var m := Mask(c, token, seqNum, data);
    forall i | 0 <= i < |data|
      ensures Mask(c, token, seqNum, m)[i] == data[i]
    {
      XorInvolution(data[i], KeystreamByte(c, token, seqNum, i));
    }
  }

  /** A shorter message meets a prefix of the keystream of a longer one. */
  lemma MaskOfPrefix(c: Crypto, token: nat, seqNum: nat, data: seq<byte>, more: seq<byte>)
    ensures Mask(c, token, seqNum, data + more)[..|data|] == Mask(c, token, seqNum, data)
  {
  }

  // ---------- properties of the engine ----------

  /** What a sender of the same suite sealed is opened to the payload exactly when the receiver's
      window admits its number; empty payloads and suite NONE do not meet the window at all. */
  lemma OpenOfSeal(c: Crypto, st: CipState, payload: seq<byte>, token: nat, seqNum: nat, src: nat)
    ensures var (ct, tag) := Seal(c, st.suite, payload, token, seqNum);
      var (next, r) := Open(c, st, ct, tag, token, seqNum, src);
      if st.suite == SUITE_NONE || payload == [] then r == Plain(payload) && next == st
      else r == Plain(payload) <==> CheckAt(st.windows, Arrival(src, seqNum), st.size).0 == Admitted
  {
    if st.suite != SUITE_NONE && payload != [] {
      MaskInvolution(c, token, seqNum, payload);
    }
  }

  /** Whatever the outcome of the tag check, a number that passed the window is used up:
      no later packet of the source under it is opened, in any further run. */
  lemma AdmissionConsumesNumber(c: Crypto, st: CipState, h: seq<Arrival>, ct: seq<byte>, tag: seq<byte>, token: nat,
                                src: nat, seqNum: nat, ct': seq<byte>, tag': seq<byte>, token': nat)
    requires st.suite != SUITE_NONE && ct != [] && ct' != []
    requires st.windows == Run(h, st.size)
    requires CheckAt(st.windows, Arrival(src, seqNum), st.size).0 == Admitted
    ensures Open(c, Open(c, st, ct, tag, token, seqNum, src).0, ct', tag', token', seqNum, src).1.Rejected?
  {
    var a := Arrival(src, seqNum);
    var h' := h + [a, a];
    assert h'[..|h|] == h && h'[..|h| + 1] == h + [a] && (h + [a])[..|h|] == h;
    AdmittedOnce(h', |h|, |h| + 1, st.size);
    assert Open(c, st, ct, tag, token, seqNum, src).0.windows == Run(h + [a], st.size);
  }

  /** Every call that meets the window is counted once: as decrypted, tampered or replayed. */
  lemma OpenIsCountedOnce(c: Crypto, st: CipState, ct: seq<byte>, tag: seq<byte>, token: nat, seqNum: nat, src: nat)
    requires st.suite != SUITE_NONE && ct != []
    ensures var (next, r) := Open(c, st, ct, tag, token, seqNum, src);
      && next.decrypted == st.decrypted + (if r.Plain? then 1 else 0)
      && next.tampered == st.tampered + (if r == Rejected(TagMismatch) then 1 else 0)
      && next.replayed == st.replayed + (if r.Rejected? && r.error != TagMismatch then 1 else 0)
      && (r.Rejected? && r.error != TagMismatch ==> next.windows == st.windows)
  {
  }

  // ---------- the bytes on the wire ----------

  function Ascii(text: string): seq<byte>
    requires forall i :: 0 <= i < |text| ==> text[i] < 128 as char
  {
    seq(|text|, i requires 0 <= i < |text| => text[i] as int)
  }

  function KeyOf(c: Crypto, token: nat): seq<byte>
  {
    (c.sha256)(Ascii("UnifiedBus_CIP_Root_Key") + BigEndian4(token))
  }

  /** Byte i of a message meets byte i % 32 of the hash of key, token, number and i / 32. */
  function StreamByte(c: Crypto, token: nat, seqNum: nat, i: nat): byte
  {
    (c.sha256)(KeyOf(c, token) + BigEndian4(token) + BigEndian8(seqNum) + BigEndian4(i / 32))[i % 32]
  }

  function MacMessage(suite: byte, token: nat, seqNum: nat, ciphertext: seq<byte>): seq<byte>
  {
    ciphertext + BigEndian4(token) + BigEndian8(seqNum) + [suite]
  }

  function MacOf(c: Crypto, suite: byte, token: nat, seqNum: nat, ciphertext: seq<byte>): seq<byte>
  {
    (c.hmac)(KeyOf(c, token), MacMessage(suite, token, seqNum, ciphertext))[..16]
  }

  lemma KeyBytes(c: Crypto, token: nat)
    ensures DeriveKey(c, token) == KeyOf(c, token)
  {
    PackFour(token);
    assert SALT == Ascii("UnifiedBus_CIP_Root_Key");
  }

  lemma NonceBytes(token: nat, seqNum: nat)
    ensures Nonce(token, seqNum) == BigEndian4(token) + BigEndian8(seqNum)
  {
    PackFour(token);
    PackEight(seqNum);
  }

  lemma StreamBytes(c: Crypto, token: nat, seqNum: nat, i: nat)
    ensures KeystreamByte(c, token, seqNum, i) == StreamByte(c, token, seqNum, i)
  {
    hide DeriveKey, KeyOf, Nonce, Be, BigEndian4, BigEndian8;
    KeyBytes(c, token);
    NonceBytes(token, seqNum);
    PackFour(i / 32);
    var key := KeyOf(c, token);
    assert key + (BigEndian4(token) + BigEndian8(seqNum) + BigEndian4(i / 32))
        == key + BigEndian4(token) + BigEndian8(seqNum) + BigEndian4(i / 32);
  }

  lemma TagBytes(c: Crypto, suite: byte, token: nat, seqNum: nat, ciphertext: seq<byte>)
    ensures TagOf(c, suite, token, seqNum, ciphertext) == MacOf(c, suite, token, seqNum, ciphertext)
  {
    hide DeriveKey, KeyOf, Nonce, BigEndian4, BigEndian8;
    KeyBytes(c, token);
    NonceBytes(token, seqNum);
    assert ciphertext + (BigEndian4(token) + BigEndian8(seqNum)) == ciphertext + BigEndian4(token) + BigEndian8(seqNum);
  }

  lemma MaskAt(c: Crypto, token: nat, seqNum: nat, data: seq<byte>, i: nat, k: nat)
    requires i < |data| && k < 8
    ensures PyInt.Bit(Mask(c, token, seqNum, data)[i], k)
      <==> PyInt.Bit(data[i], k) != PyInt.Bit(StreamByte(c, token, seqNum, i), k)
  {
    hide KeystreamByte, StreamByte, Xor;
    StreamBytes(c, token, seqNum, i);
    XorAt(data[i], StreamByte(c, token, seqNum, i), k);
  }

  /** Each bit of the ciphertext is that of the payload, exclusive or that of the hash byte; the tag is the first
      half of the HMAC of ciphertext, token, number and suite. Without a suite or a payload nothing is done. */
  lemma SealExact(c: Crypto, suite: byte, payload: seq<byte>, token: nat, seqNum: nat, i: nat, k: nat)
    requires k < 8
    ensures var (ct, tag) := Seal(c, suite, payload, token, seqNum);
      if suite == 0 || payload == [] then ct == payload && tag == Zeros(16)
      else
        && |ct| == |payload| && tag == MacOf(c, suite, token, seqNum, ct)
        && (i < |payload| ==>
            (PyInt.Bit(ct[i], k) <==> PyInt.Bit(payload[i], k) != PyInt.Bit(StreamByte(c, token, seqNum, i), k)))
  {
    hide Mask, TagOf, MacOf, StreamByte;
    TagBytes(c, suite, token, seqNum, Mask(c, token, seqNum, payload));
    if i < |payload| { MaskAt(c, token, seqNum, payload, i, k); }
  }

  /** What the window admits is refused exactly if the tag is another one, and else opened bit by bit; what the
      window does not admit is refused as a replay, and what has no suite or no bytes is passed on. */
  lemma OpenExact(c: Crypto, st: CipState, ct: seq<byte>, tag: seq<byte>, token: nat, seqNum: nat, src: nat,
                  i: nat, k: nat)
    requires k < 8
    ensures var r := Open(c, st, ct, tag, token, seqNum, src).1;
      if st.suite == 0 || ct == [] then r == Plain(ct)
      else
        match CheckAt(st.windows, Arrival(src, seqNum), st.size).0
        case Stale => r == Rejected(ReplayStale)
        case Duplicate => r == Rejected(ReplayDuplicate)
        case Admitted =>
          && (r == Rejected(TagMismatch) <==> tag != MacOf(c, st.suite, token, seqNum, ct))
          && (tag == MacOf(c, st.suite, token, seqNum, ct) ==>
              && r.Plain? && |r.text| == |ct|
              && (i < |ct| ==>
                (PyInt.Bit(r.text[i], k) <==> PyInt.Bit(ct[i], k) != PyInt.Bit(StreamByte(c, token, seqNum, i), k))))
  {
    hide Mask, TagOf, MacOf, StreamByte, CheckAt;
    TagBytes(c, st.suite, token, seqNum, ct);
    if i < |ct| { MaskAt(c, token, seqNum, ct, i, k); }
  }

  // ---------- the key matters ----------

  /** A hash that answers ones on one input and zeros elsewhere. */
  function Marking(x: seq<byte>): Hash
  {
    (y: seq<byte>) => if y == x then seq<byte>(32, _ => 255) else Zeros(32)
  }

  /** Tells the first block of the keystream under this token and number from every other block. */
  function Telling(token: nat, seqNum: nat): Crypto
  {
    Crypto(Marking(Zeros(32) + BigEndian4(token) + BigEndian8(seqNum) + [0, 0, 0, 0]), (k, x) => Zeros(32))
  }

  lemma TellingKey(token: nat, seqNum: nat, token': nat)
    ensures KeyOf(Telling(token, seqNum), token') == Zeros(32)
  {
    hide Zeros;
    var x := Zeros(32) + BigEndian4(token) + BigEndian8(seqNum) + [0, 0, 0, 0];
    assert |x| == 48 && |Ascii("UnifiedBus_CIP_Root_Key") + BigEndian4(token')| == 27;
  }

  lemma WordsDecide(token: nat, seqNum: nat, token': nat, seqNum': nat)
    requires token < 0x1_0000_0000 && token' < 0x1_0000_0000
    requires seqNum < 0x1_0000_0000_0000_0000 && seqNum' < 0x1_0000_0000_0000_0000
    requires BigEndian4(token) == BigEndian4(token') && BigEndian8(seqNum) == BigEndian8(seqNum')
    ensures token == token' && seqNum == seqNum'
  {
    hide BigEndian4, BigEndian8, Be, UnBe;
    PowerValues();
    PackFour(token);
    PackFour(token');
    PackEight(seqNum);
    PackEight(seqNum');
    UnpackOfPack(token, 4);
    UnpackOfPack(token', 4);
    UnpackOfPack(seqNum, 8);
    UnpackOfPack(seqNum', 8);
  }

  lemma TellingByte(token: nat, seqNum: nat, token': nat, seqNum': nat)
    requires token < 0x1_0000_0000 && token' < 0x1_0000_0000
    requires seqNum < 0x1_0000_0000_0000_0000 && seqNum' < 0x1_0000_0000_0000_0000
    ensures StreamByte(Telling(token, seqNum), token', seqNum', 0)
      == if (token, seqNum) == (token', seqNum') then 255 else 0
  {
    hide BigEndian4, BigEndian8, KeyOf;
    var c := Telling(token, seqNum);
    TellingKey(token, seqNum, token');
    ZeroWord();
    var x := Zeros(32) + BigEndian4(token) + BigEndian8(seqNum) + [0, 0, 0, 0];
    var y := Zeros(32) + BigEndian4(token') + BigEndian8(seqNum') + [0, 0, 0, 0];
    WordLengths(token, seqNum);
    WordLengths(token', seqNum');
    if x == y {
      assert x[32..36] == BigEndian4(token) && y[32..36] == BigEndian4(token');
      assert x[36..44] == BigEndian8(seqNum) && y[36..44] == BigEndian8(seqNum');
      WordsDecide(token, seqNum, token', seqNum');
    }
  }

  lemma WordLengths(token: nat, seqNum: nat)
    ensures |BigEndian4(token)| == 4 && |BigEndian8(seqNum)| == 8
  {
  }

  lemma ZeroWord()
    ensures BigEndian4(0) == [0, 0, 0, 0]
  {
  }

  /** Sealing under another token or another number changes a payload's ciphertext for some hash function. */
  lemma KeyMatters(suite: byte, payload: seq<byte>, token: nat, seqNum: nat, token': nat, seqNum': nat)
    requires suite != 0 && payload != [] && (token, seqNum) != (token', seqNum')
    requires token < 0x1_0000_0000 && token' < 0x1_0000_0000
    requires seqNum < 0x1_0000_0000_0000_0000 && seqNum' < 0x1_0000_0000_0000_0000
    ensures var c := Telling(token, seqNum);
      Seal(c, suite, payload, token, seqNum).0 != Seal(c, suite, payload, token', seqNum').0
  {
    hide Seal, StreamByte, Telling, MacOf, BigEndian4, BigEndian8;
    var c := Telling(token, seqNum);
    SealExact(c, suite, payload, token, seqNum, 0, 0);
    SealExact(c, suite, payload, token', seqNum', 0, 0);
    TellingByte(token, seqNum, token, seqNum);
    TellingByte(token, seqNum, token', seqNum');
  }

  // ---------- altered packets ----------

  /** The MAC tells these two pairs of key and message apart if they differ. */
  predicate Separates(mac: Mac, key: seq<byte>, x: seq<byte>, key': seq<byte>, y: seq<byte>)
  {
    (key, x) != (key', y) ==> mac(key, x)[..16] != mac(key', y)[..16]
  }

  lemma MessagesDecide(suite: byte, token: nat, seqNum: nat, ct: seq<byte>,
                       suite': byte, token': nat, seqNum': nat, ct': seq<byte>)
    requires token < 0x1_0000_0000 && token' < 0x1_0000_0000
    requires seqNum < 0x1_0000_0000_0000_0000 && seqNum' < 0x1_0000_0000_0000_0000
    requires MacMessage(suite, token, seqNum, ct) == MacMessage(suite', token', seqNum', ct')
    ensures (suite, token, seqNum, ct) == (suite', token', seqNum', ct')
  {
    hide BigEndian4, BigEndian8;
    WordLengths(token, seqNum);
    WordLengths(token', seqNum');
    var x, y := MacMessage(suite, token, seqNum, ct), MacMessage(suite', token', seqNum', ct');
    var n := |ct|;
    assert |x| == n + 13 && |y| == |ct'| + 13;
    assert x[..n] == ct && y[..n] == ct';
    assert x[n..n + 4] == BigEndian4(token) && y[n..n + 4] == BigEndian4(token');
    assert x[n + 4..n + 12] == BigEndian8(seqNum) && y[n + 4..n + 12] == BigEndian8(seqNum');
    assert x[n + 12] == suite && y[n + 12] == suite';
    WordsDecide(token, seqNum, token', seqNum');
  }

  /** A packet whose ciphertext, token, number or suite is not what was sealed, and that the window admits, is
      refused by its tag, whenever the MAC does not collide on the two messages concerned. */
  lemma AlteredIsRejected(c: Crypto, st: CipState, suite: byte, payload: seq<byte>, token: nat, seqNum: nat,
                          ct': seq<byte>, token': nat, seqNum': nat, src: nat)
    requires suite != 0 && payload != [] && st.suite != 0 && ct' != []
    requires token < 0x1_0000_0000 && token' < 0x1_0000_0000
    requires seqNum < 0x1_0000_0000_0000_0000 && seqNum' < 0x1_0000_0000_0000_0000
    requires CheckAt(st.windows, Arrival(src, seqNum'), st.size).0 == Admitted
    requires (suite, token, seqNum, Seal(c, suite, payload, token, seqNum).0) != (st.suite, token', seqNum', ct')
    requires Separates(c.hmac,
                       KeyOf(c, token), MacMessage(suite, token, seqNum, Seal(c, suite, payload, token, seqNum).0),
                       KeyOf(c, token'), MacMessage(st.suite, token', seqNum', ct'))
    ensures Open(c, st, ct', Seal(c, suite, payload, token, seqNum).1, token', seqNum', src).1 == Rejected(TagMismatch)
  {
    hide Seal, Open, KeyOf, MacMessage, StreamByte, CheckAt;
    var (ct, tag) := Seal(c, suite, payload, token, seqNum);
    SealExact(c, suite, payload, token, seqNum, 0, 0);
    OpenExact(c, st, ct', tag, token', seqNum', src, 0, 0);
    if MacMessage(suite, token, seqNum, ct) == MacMessage(st.suite, token', seqNum', ct') {
      MessagesDecide(suite, token, seqNum, ct, st.suite, token', seqNum', ct');
    }
  }

  // ---------- the engine object ----------

  class CIPEngine {
    const crypto: Crypto
    const cipherSuite: byte
    const windowSize: int
    var highestSeqSeen: map<nat, int>
    var replayBitmap: map<nat, nat>
    var totalEncrypted: nat
    var totalDecrypted: nat
    var totalTampered: nat
    var totalReplayed: nat

    ghost predicate Valid()
      reads `highestSeqSeen, `replayBitmap
    {
      highestSeqSeen.Keys == replayBitmap.Keys
    }

    ghost function Windows(): map<nat, Window>
      requires Valid()
      reads `highestSeqSeen, `replayBitmap
    {
      map s | s in highestSeqSeen :: Window(highestSeqSeen[s], replayBitmap[s])
    }

    ghost function State(): CipState
      requires Valid()
      reads this
    {
      CipState(cipherSuite, windowSize, Windows(),
               totalEncrypted, totalDecrypted, totalTampered, totalReplayed)
    }

    constructor (crypto: Crypto, cipherSuite: byte, windowSize: int)
      ensures Valid() && this.crypto == crypto
      ensures State() == CipState(cipherSuite, windowSize, map[], 0, 0, 0, 0)
    {
      this.crypto := crypto;
      this.cipherSuite := cipherSuite;
      this.windowSize := windowSize;
      highestSeqSeen, replayBitmap := map[], map[];
      totalEncrypted, totalDecrypted, totalTampered, totalReplayed := 0, 0, 0, 0;
    }

    /** The bound on the length is that of the 32-bit block counter. */
    /** The loop of both calls; the bound on the length is that of the 32-bit block counter. */
    method Keystream(token: nat, seqNum: nat, length: nat) returns (keystream: seq<byte>)
      requires token < 0x1_0000_0000 && seqNum < 0x1_0000_0000_0000_0000 && length <= 32 * 0x1_0000_0000
      ensures |keystream| >= length
      ensures forall data: seq<byte> :: |data| == length ==>
        Combine(data, keystream) == Mask(crypto, token, seqNum, data)
    {
      hide Be, Block, DeriveKey, Nonce, Mask, Combine;
      var key := DeriveKey(crypto, token);
      var nonce := Nonce(token, seqNum);
      keystream := [];
      var counter := 0;
      while |keystream| < length
        invariant 0 <= counter <= 0x1_0000_0000
        invariant keystream == Blocks(crypto, key, nonce, counter)
        decreases length - |keystream|
      {
        keystream := keystream + Block(crypto, key, nonce, counter);
        counter := counter + 1;
      }
      forall data: seq<byte> | |data| == length
        ensures Combine(data, keystream) == Mask(crypto, token, seqNum, data)
      {
        CombineIsMask(crypto, token, seqNum, data, counter);
      }
    }

    method EncryptAndTag(payload: seq<byte>, token: nat, seqNum: nat) returns (ciphertext: seq<byte>, tag: seq<byte>)
      requires Valid() && token < 0x1_0000_0000 && seqNum < 0x1_0000_0000_0000_0000
      requires |payload| <= 32 * 0x1_0000_0000
      modifies this`totalEncrypted
      ensures Valid() && (ciphertext, tag) == Seal(crypto, cipherSuite, payload, token, seqNum)
      ensures State() == old(State()).(encrypted := old(totalEncrypted)
        + if cipherSuite == SUITE_NONE || payload == [] then 0 else 1)
    {
      hide DeriveKey, Nonce, Mask, CheckAt, Combine, Windows, Valid;
      if cipherSuite == SUITE_NONE || payload == [] {
        return payload, Zeros(16);
      }
      var keystream := Keystream(token, seqNum, |payload|);
      ciphertext := Combine(payload, keystream);
      tag := (crypto.hmac)(DeriveKey(crypto, token), ciphertext + Nonce(token, seqNum) + [cipherSuite])[..16];
      assert (ciphertext, tag) == Seal(crypto, cipherSuite, payload, token, seqNum);
      totalEncrypted := totalEncrypted + 1;
      assert Windows() == old(State()).windows;
    }

    method DecryptAndVerify(ciphertext: seq<byte>, tag: seq<byte>, token: nat, seqNum: nat, src: nat)
      returns (result: Opened)
      requires Valid() && token < 0x1_0000_0000 && seqNum < 0x1_0000_0000_0000_0000
      requires |ciphertext| <= 32 * 0x1_0000_0000
      modifies this
      ensures Valid()
      ensures (State(), result) == Open(crypto, old(State()), ciphertext, tag, token, seqNum, src)
    {
      hide Open, DeriveKey, Nonce, Mask, CheckAt, Combine, Windows, Valid, Zeros, Be;
      OpenCases(crypto, State(), ciphertext, tag, token, seqNum, src);
      if cipherSuite == SUITE_NONE || ciphertext == [] {
        return Plain(ciphertext);
      }
      var verdict := CheckReplay(seqNum, src);
      if verdict == Stale {
        result := Rejected(ReplayStale);
      } else if verdict == Duplicate {
        result := Rejected(ReplayDuplicate);
      } else {
        result := Unmask(ciphertext, tag, token, seqNum);
      }
    }

    /** What follows the replay check: the tag, then the keystream. */
    method Unmask(ciphertext: seq<byte>, tag: seq<byte>, token: nat, seqNum: nat) returns (result: Opened)
      requires token < 0x1_0000_0000 && seqNum < 0x1_0000_0000_0000_0000
      requires |ciphertext| <= 32 * 0x1_0000_0000
      modifies this`totalTampered, this`totalDecrypted
      ensures var expected := (crypto.hmac)(DeriveKey(crypto, token),
                                            ciphertext + Nonce(token, seqNum) + [cipherSuite])[..16];
        result == if tag != expected then Rejected(TagMismatch) else Plain(Mask(crypto, token, seqNum, ciphertext))
      ensures totalTampered == old(totalTampered) + if result.Rejected? then 1 else 0
      ensures totalDecrypted == old(totalDecrypted) + if result.Plain? then 1 else 0
    {
      hide DeriveKey, Nonce, Mask, Combine, Zeros, Be;
      var expected := (crypto.hmac)(DeriveKey(crypto, token), ciphertext + Nonce(token, seqNum) + [cipherSuite])[..16];
      if tag != expected {
        totalTampered := totalTampered + 1;
        return Rejected(TagMismatch);
      }
      var keystream := Keystream(token, seqNum, |ciphertext|);
      totalDecrypted := totalDecrypted + 1;
      return Plain(Combine(ciphertext, keystream));
    }

    /** The replay check of decrypt_and_verify. */
    method CheckReplay(seqNum: nat, src: nat) returns (verdict: Verdict)
      requires Valid()
      modifies this`highestSeqSeen, this`replayBitmap, this`totalReplayed
      ensures Valid()
      ensures (verdict, Windows()) == CheckAt(old(State()).windows, Arrival(src, seqNum), windowSize)
      ensures totalReplayed == old(totalReplayed) + if verdict == Admitted then 0 else 1
    {
      if src in highestSeqSeen {
        var highest := highestSeqSeen[src];
        var diff := highest - seqNum;
        if diff >= windowSize {
          totalReplayed := totalReplayed + 1;
          assert Windows() == old(State()).windows;
          return Stale;
        }
        if diff >= 0 {
          var bit := PyInt.Shl(1, diff);
          PyInt.ShlIsNat(1, diff);
          PyInt.OrIsNat(replayBitmap[src], bit);
          if PyInt.BitAnd(replayBitmap[src], bit) != 0 {
            totalReplayed := totalReplayed + 1;
            assert Windows() == old(State()).windows;
            return Duplicate;
          }
          replayBitmap := replayBitmap[src := PyInt.BitOr(replayBitmap[src], bit)];
        } else {
          var shift := -diff;
          if shift >= windowSize {
            replayBitmap := replayBitmap[src := 1];
          } else {
            PyInt.ShlIsNat(replayBitmap[src], shift);
            PyInt.OrIsNat(PyInt.Shl(replayBitmap[src], shift), 1);
            replayBitmap := replayBitmap[src := PyInt.BitOr(PyInt.Shl(replayBitmap[src], shift), 1)];
          }
          highestSeqSeen := highestSeqSeen[src := seqNum];
        }
      } else {
        highestSeqSeen := highestSeqSeen[src := seqNum];
        replayBitmap := replayBitmap[src := 1];
      }
      assert Windows() == old(State()).windows[src := Window(highestSeqSeen[src], replayBitmap[src])];
      return Admitted;
    }
  }

  /** bytes(p ^ k for p, k in zip(data, keystream)). */
  function Combine(data: seq<byte>, keystream: seq<byte>): (r: seq<byte>)
    requires |data| <= |keystream|
    ensures |r| == |data|
  {
    seq(|data|, i requires 0 <= i < |data| => Xor(data[i], keystream[i]))
  }

  lemma CombineIsMask(c: Crypto, token: nat, seqNum: nat, data: seq<byte>, n: nat)
    requires |data| <= 32 * n
    ensures Combine(data, Blocks(c, DeriveKey(c, token), Nonce(token, seqNum), n)) == Mask(c, token, seqNum, data)
  {
    var blocks := Blocks(c, DeriveKey(c, token), Nonce(token, seqNum), n);
    forall i | 0 <= i < |data|
      ensures Combine(data, blocks)[i] == Mask(c, token, seqNum, data)[i]
    {
      BlocksAreKeystream(c, token, seqNum, n, i);
    }
  }
}
