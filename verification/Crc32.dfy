// The CRC-32 of zlib, bit by bit (section 8 of RFC 1952): a 32-bit register,
// complemented on entry and exit, that takes the message bits least significant
// first through the reflected polynomial 0xEDB88320. A register is the list of
// its bits, least significant first.
module Crc32 {
  import opened Bytes
  import PyInt

  type Register = r: seq<bool> | |r| == 32 witness seq(32, _ => false)

  // ---------- numbers and their bits ----------

  function BitsLe(n: nat, width: nat): (r: seq<bool>)
    ensures |r| == width
  {
    if width == 0 then [] else [n % 2 == 1] + BitsLe(n / 2, width - 1)
  }

  function FromBits(r: seq<bool>): nat
  {
    if r == [] then 0 else (if r[0] then 1 else 0) + 2 * FromBits(r[1..])
  }

  lemma {:induction false} BitsOfNumber(n: nat, width: nat)
    requires n < Pow(2, width)
    ensures FromBits(BitsLe(n, width)) == n
  {
    if width > 0 {
      assert BitsLe(n, width)[1..] == BitsLe(n / 2, width - 1);
      BitsOfNumber(n / 2, width - 1);
    }
  }

  lemma {:induction false} NumberOfBits(r: seq<bool>)
    ensures FromBits(r) < Pow(2, |r|)
    ensures BitsLe(FromBits(r), |r|) == r
  {
    if r != [] {
      NumberOfBits(r[1..]);
      assert FromBits(r) / 2 == FromBits(r[1..]);
      assert r == [r[0]] + r[1..];
    }
  }

  lemma {:induction false} TopBit(n: nat, width: nat)
    requires width > 0 && Pow(2, width - 1) <= n < Pow(2, width)
    ensures BitsLe(n, width)[width - 1]
  {
    if width > 1 {
      assert Pow(2, width - 1) == 2 * Pow(2, width - 2);
      TopBit(n / 2, width - 1);
    }
  }

  lemma RegisterPowers()
    ensures Pow(2, 8) == 256 && Pow(2, 31) == 0x8000_0000 && Pow(2, 32) == 0x1_0000_0000
  {
    assert Pow(2, 4) == 2 * (2 * (2 * (2 * Pow(2, 0))));
    assert Pow(2, 8) == 2 * (2 * (2 * (2 * Pow(2, 4))));
    assert Pow(2, 12) == 2 * (2 * (2 * (2 * Pow(2, 8))));
    assert Pow(2, 16) == 2 * (2 * (2 * (2 * Pow(2, 12))));
    assert Pow(2, 20) == 2 * (2 * (2 * (2 * Pow(2, 16))));
    assert Pow(2, 24) == 2 * (2 * (2 * (2 * Pow(2, 20))));
    assert Pow(2, 28) == 2 * (2 * (2 * (2 * Pow(2, 24))));
    assert Pow(2, 31) == 2 * (2 * (2 * Pow(2, 28)));
  }

  // ---------- the checksum ----------

  function AllOnes(): Register
  {
    seq(32, _ => true)
  }

  function Polynomial(): Register
  {
    BitsLe(0xEDB8_8320, 32)
  }

  function XorBits(a: Register, b: Register): Register
  {
    seq(32, i requires 0 <= i < 32 => a[i] != b[i])
  }

  function Shift(c: Register): Register
  {
    if c[0] then XorBits(c[1..] + [false], Polynomial()) else c[1..] + [false]
  }

  function BitStep(c: Register, b: bool): Register
  {
    Shift(c[0 := c[0] != b])
  }

  function BitRun(c: Register, bits: seq<bool>): Register
    decreases |bits|
  {
    if bits == [] then c else BitRun(BitStep(c, bits[0]), bits[1..])
  }

  function BitsOf(s: seq<byte>): (r: seq<bool>)
    ensures |r| == 8 * |s|
  {
    if s == [] then [] else BitsLe(s[0], 8) + BitsOf(s[1..])
  }

  /** zlib.crc32(s) & 0xFFFFFFFF. */
  function Crc(s: seq<byte>): nat
  {
    FromBits(XorBits(BitRun(AllOnes(), BitsOf(s)), AllOnes()))
  }

  lemma CrcFits(s: seq<byte>)
    ensures Crc(s) < 0x1_0000_0000
  {
    NumberOfBits(XorBits(BitRun(AllOnes(), BitsOf(s)), AllOnes()));
    RegisterPowers();
  }

  // ---------- the register step is injective and lets a higher bit pass ----------

  lemma PolynomialTop()
    ensures Polynomial()[31]
  {
    RegisterPowers();
    TopBit(0xEDB8_8320, 32);
  }

  lemma ShiftAt(c: Register, k: nat)
    requires k < 32
    ensures Shift(c)[k] == ((k < 31 && c[k + 1]) != (c[0] && Polynomial()[k]))
  {
  }

  lemma ShiftInjective(a: Register, b: Register)
    requires Shift(a) == Shift(b)
    ensures a == b
  {
    PolynomialTop();
    ShiftAt(a, 31);
    ShiftAt(b, 31);
    forall k | 0 <= k < 32
      ensures a[k] == b[k]
    {
      if k > 0 {
        ShiftAt(a, k - 1);
        ShiftAt(b, k - 1);
      }
    }
  }

  function ShiftN(c: Register, n: nat): Register
    decreases n
  {
    if n == 0 then c else ShiftN(Shift(c), n - 1)
  }

  lemma {:induction false} ShiftNInjective(a: Register, b: Register, n: nat)
    requires ShiftN(a, n) == ShiftN(b, n)
    ensures a == b
    decreases n
  {
    if n > 0 {
      ShiftNInjective(Shift(a), Shift(b), n - 1);
      ShiftInjective(a, b);
    }
  }

  /** At most 32 bits laid over a register, the first over the least significant bit. */
  function Overlay(c: Register, bits: seq<bool>): Register
    requires |bits| <= 32
  {
    seq(32, i requires 0 <= i < 32 => if i < |bits| then c[i] != bits[i] else c[i])
  }

  /** A bit that waits above the bottom of the register arrives there unreduced. */
  lemma OverlayStep(c: Register, bits: seq<bool>)
    requires 0 < |bits| <= 32
    ensures Shift(Overlay(c, bits)) == Overlay(BitStep(c, bits[0]), bits[1..])
  {
    var l := Shift(Overlay(c, bits));
    var r := Overlay(BitStep(c, bits[0]), bits[1..]);
    var x := c[0 := c[0] != bits[0]];
    assert Overlay(c, bits)[0] == x[0];
    forall k | 0 <= k < 32
      ensures l[k] == r[k]
    {
      ShiftAt(Overlay(c, bits), k);
      ShiftAt(x, k);
    }
  }

  lemma {:induction false} RunOfWord(c: Register, bits: seq<bool>)
    requires |bits| <= 32
    ensures BitRun(c, bits) == ShiftN(Overlay(c, bits), |bits|)
    decreases |bits|
  {
    if bits == [] {
      assert Overlay(c, bits) == c;
    } else {
      OverlayStep(c, bits);
      RunOfWord(BitStep(c, bits[0]), bits[1..]);
    }
  }

  lemma OverlayInjective(c: Register, u: seq<bool>, v: seq<bool>)
    requires |u| == |v| <= 32 && Overlay(c, u) == Overlay(c, v)
    ensures u == v
  {
    forall i | 0 <= i < |u|
      ensures u[i] == v[i]
    {
      assert Overlay(c, u)[i] == Overlay(c, v)[i];
    }
  }

  // ---------- error detection ----------

  lemma {:induction false} RunConcat(c: Register, a: seq<bool>, b: seq<bool>)
    ensures BitRun(c, a + b) == BitRun(BitRun(c, a), b)
    decreases |a|
  {
    if a == [] {
      assert a + b == b;
    } else {
      assert (a + b)[1..] == a[1..] + b;
      RunConcat(BitStep(c, a[0]), a[1..], b);
    }
  }

  lemma {:induction false} RunInjective(c: Register, d: Register, bits: seq<bool>)
    requires BitRun(c, bits) == BitRun(d, bits)
    ensures c == d
    decreases |bits|
  {
    if bits != [] {
      RunInjective(BitStep(c, bits[0]), BitStep(d, bits[0]), bits[1..]);
      var x, y := c[0 := c[0] != bits[0]], d[0 := d[0] != bits[0]];
      ShiftInjective(x, y);
      assert forall k :: 0 <= k < 32 ==> x[k] == y[k];
      assert forall k :: 1 <= k < 32 ==> c[k] == x[k] && d[k] == y[k];
      assert x[0] == (c[0] != bits[0]) && y[0] == (d[0] != bits[0]);
    }
  }

  /** Every error burst of at most 32 bits, at any bit position, changes the register. */
  lemma BurstChangesRegister(c: Register, before: seq<bool>, u: seq<bool>, v: seq<bool>, after: seq<bool>)
    requires |u| == |v| <= 32 && u != v
    ensures BitRun(c, before + u + after) != BitRun(c, before + v + after)
  {
    RunConcat(c, before + u, after);
    RunConcat(c, before + v, after);
    RunConcat(c, before, u);
    RunConcat(c, before, v);
    var d := BitRun(c, before);
    if BitRun(c, before + u + after) == BitRun(c, before + v + after) {
      RunInjective(BitRun(d, u), BitRun(d, v), after);
      RunOfWord(d, u);
      RunOfWord(d, v);
      ShiftNInjective(Overlay(d, u), Overlay(d, v), |u|);
      OverlayInjective(d, u, v);
    }
  }

  lemma {:induction false} BitsConcat(a: seq<byte>, b: seq<byte>)
    ensures BitsOf(a + b) == BitsOf(a) + BitsOf(b)
  {
    if a == [] {
      assert a + b == b;
    } else {
      assert (a + b)[1..] == a[1..] + b;
      BitsConcat(a[1..], b);
    }
  }

  lemma {:induction false} BitsInjective(a: seq<byte>, b: seq<byte>)
    requires |a| == |b| && BitsOf(a) == BitsOf(b)
    ensures a == b
  {
    if a != [] {
      assert BitsOf(a)[..8] == BitsLe(a[0], 8) && BitsOf(b)[..8] == BitsLe(b[0], 8);
      assert BitsOf(a)[8..] == BitsOf(a[1..]) && BitsOf(b)[8..] == BitsOf(b[1..]);
      RegisterPowers();
      BitsOfNumber(a[0], 8);
      BitsOfNumber(b[0], 8);
      BitsInjective(a[1..], b[1..]);
      assert a == [a[0]] + a[1..] && b == [b[0]] + b[1..];
    }
  }

  lemma CrcDecidesRegister(s: seq<byte>, t: seq<byte>)
    requires Crc(s) == Crc(t)
    ensures BitRun(AllOnes(), BitsOf(s)) == BitRun(AllOnes(), BitsOf(t))
  {
    var x, y := BitRun(AllOnes(), BitsOf(s)), BitRun(AllOnes(), BitsOf(t));
    NumberOfBits(XorBits(x, AllOnes()));
    NumberOfBits(XorBits(y, AllOnes()));
    forall k | 0 <= k < 32
      ensures x[k] == y[k]
    {
      assert XorBits(x, AllOnes())[k] == XorBits(y, AllOnes())[k];
    }
  }

  /** Messages that differ only inside a window of four consecutive bytes have different CRCs. */
  lemma WindowDetected(before: seq<byte>, u: seq<byte>, v: seq<byte>, after: seq<byte>)
    requires |u| == |v| <= 4 && u != v
    ensures Crc(before + u + after) != Crc(before + v + after)
  {
    BitsConcat(before + u, after);
    BitsConcat(before + v, after);
    BitsConcat(before, u);
    BitsConcat(before, v);
    if BitsOf(u) == BitsOf(v) { BitsInjective(u, v); }
    BurstChangesRegister(AllOnes(), BitsOf(before), BitsOf(u), BitsOf(v), BitsOf(after));
    if Crc(before + u + after) == Crc(before + v + after) {
      CrcDecidesRegister(before + u + after, before + v + after);
    }
  }

  // ---------- the value of the checksum, on machine words ----------

  predicate Odd(v: bv32)
  {
    v & 1 == 1
  }

  function Half(v: bv32): bv32
  {
    v >> 1
  }

  function Sixteenth(v: bv32): bv32
  {
    v >> 4
  }

  function XorWord(a: bv32, b: bv32): bv32
  {
    a ^ b
  }

  /** The lowest bits of a word, least significant first. */
  function WordBits(v: bv32, width: nat): (r: seq<bool>)
    ensures |r| == width
  {
    if width == 0 then [] else [Odd(v)] + WordBits(Half(v), width - 1)
  }

  function WordValue(v: bv32, width: nat): nat
  {
    if width == 0 then 0 else (if Odd(v) then 1 else 0) + 2 * WordValue(Half(v), width - 1)
  }

  lemma {:induction false} ValueOfWord(v: bv32, width: nat)
    ensures BitsLe(WordValue(v, width), width) == WordBits(v, width)
    ensures FromBits(WordBits(v, width)) == WordValue(v, width)
    decreases width
  {
    hide Odd, Half;
    if width > 0 {
      ValueOfWord(Half(v), width - 1);
      assert WordBits(v, width)[1..] == WordBits(Half(v), width - 1);
      assert WordValue(v, width) / 2 == WordValue(Half(v), width - 1);
    }
  }

  lemma FourMore(v: bv32, width: nat)
    ensures WordValue(v, width + 4) == (if Odd(v) then 1 else 0) + (if Odd(Half(v)) then 2 else 0)
      + (if Odd(Half(Half(v))) then 4 else 0) + (if Odd(Half(Half(Half(v)))) then 8 else 0)
      + 16 * WordValue(Sixteenth(v), width)
  {
    hide Odd, Half, Sixteenth, WordValue;
    HalfFour(v);
    OneMore(v, width + 3);
    OneMore(Half(v), width + 2);
    OneMore(Half(Half(v)), width + 1);
    OneMore(Half(Half(Half(v))), width);
  }

  lemma HalfFour(v: bv32)
    ensures Half(Half(Half(Half(v)))) == Sixteenth(v)
  {
  }

  lemma OneMore(v: bv32, width: nat)
    ensures WordValue(v, width + 1) == (if Odd(v) then 1 else 0) + 2 * WordValue(Half(v), width)
  {
    hide Odd, Half;
  }

  lemma NoValue(v: bv32)
    ensures WordValue(v, 0) == 0
  {
  }

  lemma PolynomialWord()
    ensures Polynomial() == WordBits(0xEDB8_8320, 32)
  {
    hide WordValue, BitsLe, WordBits;
    FourMore(0xEDB8_8320, 28);
    FourMore(0xEDB_8832, 24);
    FourMore(0xED_B883, 20);
    FourMore(0xE_DB88, 16);
    FourMore(0xEDB8, 12);
    FourMore(0xEDB, 8);
    FourMore(0xED, 4);
    FourMore(0xE, 0);
    NoValue(0);
    ValueOfWord(0xEDB8_8320, 32);
  }

  lemma ResidueValue()
    ensures WordValue(0x2144_DF1C, 32) == 0x2144_DF1C
  {
    hide WordValue;
    FourMore(0x2144_DF1C, 28);
    FourMore(0x214_4DF1, 24);
    FourMore(0x21_44DF, 20);
    FourMore(0x2_144D, 16);
    FourMore(0x2144, 12);
    FourMore(0x214, 8);
    FourMore(0x21, 4);
    FourMore(0x2, 0);
    NoValue(0);
  }

  lemma XorHalves(a: bv32, b: bv32)
    ensures Half(XorWord(a, b)) == XorWord(Half(a), Half(b))
    ensures Odd(XorWord(a, b)) <==> Odd(a) != Odd(b)
  {
  }

  lemma {:induction false} XorWords(a: bv32, b: bv32, width: nat, k: nat)
    requires k < width
    ensures WordBits(XorWord(a, b), width)[k] == (WordBits(a, width)[k] != WordBits(b, width)[k])
    decreases width
  {
    hide Odd, Half, XorWord;
    XorHalves(a, b);
    if k > 0 { XorWords(Half(a), Half(b), width - 1, k - 1); }
  }

  predicate AtMost(v: bv32, u: bv32)
  {
    v <= u
  }

  /** k shifts clear the word. */
  predicate Spent(u: bv32, k: nat)
  {
    if k == 0 then AtMost(u, 0) else Spent(Half(u), k - 1)
  }

  lemma HalfOrder(v: bv32, u: bv32)
    requires AtMost(v, u)
    ensures AtMost(Half(v), Half(u))
    ensures AtMost(u, 0) ==> !Odd(v)
  {
  }

  lemma {:induction false} ClearAbove(v: bv32, u: bv32, k: nat)
    requires AtMost(v, u) && Spent(u, k)
    ensures !WordBits(v, k + 1)[k]
    decreases k
  {
    hide Odd, Half, AtMost;
    HalfOrder(v, u);
    if k > 0 { ClearAbove(Half(v), Half(u), k - 1); }
  }

  lemma SpentFour(u: bv32, k: nat)
    requires Spent(Sixteenth(u), k)
    ensures Spent(u, k + 4)
  {
    hide Half, Sixteenth, AtMost, Spent;
    HalfFour(u);
    SpentOne(Half(Half(Half(u))), k);
    SpentOne(Half(Half(u)), k + 1);
    SpentOne(Half(u), k + 2);
    SpentOne(u, k + 3);
  }

  lemma SpentOne(u: bv32, k: nat)
    requires Spent(Half(u), k)
    ensures Spent(u, k + 1)
  {
    hide Half, AtMost;
  }

  lemma SpentWord()
    ensures Spent(0x7FFF_FFFF, 31)
  {
    hide Spent;
    SpentNone();
    SpentOne(1, 0);
    SpentOne(3, 1);
    SpentOne(7, 2);
    SpentFour(0x7F, 3);
    SpentFour(0x7FF, 7);
    SpentFour(0x7FFF, 11);
    SpentFour(0x7_FFFF, 15);
    SpentFour(0x7F_FFFF, 19);
    SpentFour(0x7FF_FFFF, 23);
    SpentFour(0x7FFF_FFFF, 27);
  }

  lemma SpentNone()
    ensures Spent(0, 0)
  {
  }

  /** One step of the register on a word. */
  function WordShift(v: bv32): bv32
  {
    if Odd(v) then XorWord(Half(v), 0xEDB8_8320) else Half(v)
  }

  lemma HalfIsSmall(v: bv32)
    ensures AtMost(Half(v), 0x7FFF_FFFF)
  {
  }

  lemma {:induction false} WordBitsPrefix(v: bv32, width: nat)
    ensures WordBits(v, width + 1)[..width] == WordBits(v, width)
    decreases width
  {
    hide Odd, Half;
    if width > 0 { WordBitsPrefix(Half(v), width - 1); }
  }

  lemma ShiftWord(v: bv32)
    ensures Shift(WordBits(v, 32)) == WordBits(WordShift(v), 32)
  {
    hide Odd, Half, XorWord, AtMost, Spent, Polynomial;
    var c := WordBits(v, 32);
    var moved := WordBits(Half(v), 32);
    assert c[1..] + [false] == moved by {
      assert c[1..] == WordBits(Half(v), 31);
      WordBitsPrefix(Half(v), 31);
      HalfIsSmall(v);
      SpentWord();
      ClearAbove(Half(v), 0x7FFF_FFFF, 31);
    }
    if Odd(v) {
      PolynomialWord();
      forall k | 0 <= k < 32
        ensures XorBits(moved, Polynomial())[k] == WordBits(WordShift(v), 32)[k]
      {
        XorWords(Half(v), 0xEDB8_8320, 32, k);
      }
    }
  }

  function ShiftWordN(v: bv32, n: nat): bv32
    decreases n
  {
    if n == 0 then v else ShiftWordN(WordShift(v), n - 1)
  }

  lemma {:induction false} ShiftWords(v: bv32, n: nat)
    ensures ShiftN(WordBits(v, 32), n) == WordBits(ShiftWordN(v, n), 32)
    decreases n
  {
    hide WordShift, WordBits, Shift;
    if n > 0 {
      ShiftWord(v);
      ShiftWords(WordShift(v), n - 1);
    }
  }

  lemma EightShifts(v: bv32, n: nat)
    ensures ShiftWordN(v, n + 8)
      == ShiftWordN(WordShift(WordShift(WordShift(WordShift(
           WordShift(WordShift(WordShift(WordShift(v)))))))), n)
  {
    hide WordShift, ShiftWordN;
    var w := WordShift(WordShift(WordShift(WordShift(v))));
    OneShift(v, n + 7);
    OneShift(WordShift(v), n + 6);
    OneShift(WordShift(WordShift(v)), n + 5);
    OneShift(WordShift(WordShift(WordShift(v))), n + 4);
    OneShift(w, n + 3);
    OneShift(WordShift(w), n + 2);
    OneShift(WordShift(WordShift(w)), n + 1);
    OneShift(WordShift(WordShift(WordShift(w))), n);
  }

  lemma OneShift(v: bv32, n: nat)
    ensures ShiftWordN(v, n + 1) == ShiftWordN(WordShift(v), n)
    ensures ShiftWordN(v, 0) == v
  {
    hide WordShift;
  }

  /** 32 steps of a register of ones. */
  lemma OnesAfterWord()
    ensures ShiftWordN(0xFFFF_FFFF, 32) == 0xDEBB_20E3
  {
    hide ShiftWordN;
    EightShifts(0xFFFF_FFFF, 24);
    EightShifts(0x2DFD_1072, 16);
    EightShifts(0xBE26_ED00, 8);
    EightShifts(0x00BE_26ED, 0);
    OneShift(0xDEBB_20E3, 0);
  }

  lemma OnesWord()
    ensures AllOnes() == WordBits(0xFFFF_FFFF, 32)
  {
    hide WordValue, BitsLe, WordBits;
    FourMore(0xFFFF_FFFF, 28);
    FourMore(0xFFF_FFFF, 24);
    FourMore(0xFF_FFFF, 20);
    FourMore(0xF_FFFF, 16);
    FourMore(0xFFFF, 12);
    FourMore(0xFFF, 8);
    FourMore(0xFF, 4);
    FourMore(0xF, 0);
    NoValue(0);
    ValueOfWord(0xFFFF_FFFF, 32);
    RegisterPowers();
    forall i | 0 <= i < 32
      ensures BitsLe(0xFFFF_FFFF, 32)[i]
    {
      OnesAt(32, i);
    }
  }

  lemma {:induction false} OnesAt(width: nat, i: nat)
    requires i < width
    ensures BitsLe(Pow(2, width) - 1, width)[i]
  {
    assert (Pow(2, width) - 1) / 2 == Pow(2, width - 1) - 1;
    if i > 0 { OnesAt(width - 1, i - 1); }
  }

  lemma {:induction false} FromConcat(a: seq<bool>, b: seq<bool>)
    ensures FromBits(a + b) == FromBits(a) + Pow(2, |a|) * FromBits(b)
  {
    if a == [] {
      assert a + b == b;
    } else {
      assert (a + b)[1..] == a[1..] + b;
      FromConcat(a[1..], b);
      DoubleProduct(Pow(2, |a| - 1), FromBits(b));
    }
  }

  lemma DoubleProduct(p: nat, f: nat)
    ensures 2 * p * f == 2 * (p * f)
  {
  }

  lemma {:induction false} ValueOfBytes(s: seq<byte>)
    ensures FromBits(BitsOf(s)) == if s == [] then 0 else s[0] + 256 * FromBits(BitsOf(s[1..]))
  {
    if s != [] {
      RegisterPowers();
      BitsOfNumber(s[0], 8);
      FromConcat(BitsLe(s[0], 8), BitsOf(s[1..]));
    }
  }

  lemma FourBytes(a: byte, b: byte, c: byte, d: byte)
    ensures FromBits(BitsOf([a, b, c, d])) == a + 0x100 * b + 0x1_0000 * c + 0x100_0000 * d
  {
    hide BitsOf, FromBits;
    ValueOfBytes([a, b, c, d]);
    assert [a, b, c, d][1..] == [b, c, d] && [b, c, d][1..] == [c, d] && [c, d][1..] == [d] && [d][1..] == [];
    ValueOfBytes([b, c, d]);
    ValueOfBytes([c, d]);
    ValueOfBytes([d]);
    ValueOfBytes([]);
  }

  lemma SameValue(x: seq<bool>, y: seq<bool>)
    requires |x| == |y| && FromBits(x) == FromBits(y)
    ensures x == y
  {
    NumberOfBits(x);
    NumberOfBits(y);
  }

  /** A message followed by its own checksum, least significant byte first, always has the same checksum. */
  lemma Residue(s: seq<byte>, a: byte, b: byte, c: byte, d: byte)
    requires Crc(s) == a + 0x100 * b + 0x1_0000 * c + 0x100_0000 * d
    ensures Crc(s + [a, b, c, d]) == 0x2144_DF1C
  {
    hide BitsOf, FromBits, ShiftWordN, WordBits, WordValue, ShiftN, BitRun;
    var r := BitRun(AllOnes(), BitsOf(s));
    FourBytes(a, b, c, d);
    SameValue(BitsOf([a, b, c, d]), XorBits(r, AllOnes()));
    BitsConcat(s, [a, b, c, d]);
    RunConcat(AllOnes(), BitsOf(s), BitsOf([a, b, c, d]));
    RunOfWord(r, XorBits(r, AllOnes()));
    assert Overlay(r, XorBits(r, AllOnes())) == AllOnes();
    OnesWord();
    ShiftWords(0xFFFF_FFFF, 32);
    OnesAfterWord();
    ComplementOfResidue();
  }

  /** ... in particular its checksum as it is written out. */
  lemma OwnChecksum(s: seq<byte>)
    ensures var n := Crc(s);
      Crc(s + [n % 0x100, n / 0x100 % 0x100, n / 0x1_0000 % 0x100, n / 0x100_0000 % 0x100]) == 0x2144_DF1C
  {
    hide Crc;
    CrcFits(s);
    var n := Crc(s);
    LittleEndian(n);
    Residue(s, n % 0x100, n / 0x100 % 0x100, n / 0x1_0000 % 0x100, n / 0x100_0000 % 0x100);
  }

  lemma LittleEndian(n: nat)
    requires n < 0x1_0000_0000
    ensures n == n % 0x100 + 0x100 * (n / 0x100 % 0x100) + 0x1_0000 * (n / 0x1_0000 % 0x100)
      + 0x100_0000 * (n / 0x100_0000 % 0x100)
  {
    var m := n / 0x100;
    var k := m / 0x100;
    assert k == n / 0x1_0000 && k / 0x100 == n / 0x100_0000;
  }

  lemma ComplementOfResidue()
    ensures FromBits(XorBits(WordBits(0xDEBB_20E3, 32), AllOnes())) == 0x2144_DF1C
  {
    hide WordBits, WordValue, FromBits;
    OnesWord();
    forall k | 0 <= k < 32
      ensures XorBits(WordBits(0xDEBB_20E3, 32), AllOnes())[k] == WordBits(0x2144_DF1C, 32)[k]
    {
      XorWords(0xDEBB_20E3, 0xFFFF_FFFF, 32, k);
    }
    assert XorBits(WordBits(0xDEBB_20E3, 32), AllOnes()) == WordBits(0x2144_DF1C, 32);
    ValueOfWord(0x2144_DF1C, 32);
    ResidueValue();
  }

  /** Nothing has checksum 0: the register begins as it is complemented in the end. */
  lemma NothingIsZero()
    ensures Crc([]) == 0
  {
    hide FromBits;
    var x := XorBits(AllOnes(), AllOnes());
    assert forall k :: 0 <= k < 32 ==> !x[k];
    NoBitsSet(x);
  }

  lemma {:induction false} NoBitsSet(r: seq<bool>)
    requires forall k :: 0 <= k < |r| ==> !r[k]
    ensures FromBits(r) == 0
  {
    if r != [] { NoBitsSet(r[1..]); }
  }
}
