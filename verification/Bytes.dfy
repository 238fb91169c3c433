// Bytes, big-endian integers and slice assignment, as Python's `struct`,
// `bytes` and `bytearray` give them.
module Bytes {
  import PyInt

  type byte = x: int | 0 <= x < 256

  datatype Option<+T> = None | Some(value: T)

  function Pow(base: nat, exp: nat): (r: nat)
    ensures base > 0 ==> r > 0
  {
    if exp == 0 then 1 else base * Pow(base, exp - 1)
  }

  function Zeros(n: nat): (s: seq<byte>)
    ensures |s| == n && forall i :: 0 <= i < n ==> s[i] == 0
  {
    seq(n, _ => 0)
  }

  // ---------- exclusive or ----------

  /** a ^ b on the lowest bits of two numbers. */
  function XorBits(a: nat, b: nat, width: nat): (r: nat)
    ensures r < Pow(2, width)
  {
    if width == 0 then 0 else (if a % 2 != b % 2 then 1 else 0) + 2 * XorBits(a / 2, b / 2, width - 1)
  }

  lemma ByteWidth()
    ensures Pow(2, 8) == 256
  {
    assert Pow(2, 4) == 2 * (2 * (2 * (2 * Pow(2, 0))));
    assert Pow(2, 8) == 2 * (2 * (2 * (2 * Pow(2, 4))));
  }

  function Xor(a: byte, b: byte): byte
  {
    ByteWidth();
    XorBits(a, b, 8)
  }

  lemma {:induction false} XorBitsTwice(a: nat, b: nat, width: nat)
    requires a < Pow(2, width)
    ensures XorBits(XorBits(a, b, width), b, width) == a
  {
    if width > 0 {
      var r := XorBits(a, b, width);
      assert r / 2 == XorBits(a / 2, b / 2, width - 1);
      XorBitsTwice(a / 2, b / 2, width - 1);
    }
  }

  lemma {:induction false} XorBitsSwap(a: nat, b: nat, width: nat)
    ensures XorBits(a, b, width) == XorBits(b, a, width)
  {
    if width > 0 { XorBitsSwap(a / 2, b / 2, width - 1); }
  }

  lemma XorInvolution(a: byte, b: byte)
    ensures Xor(Xor(a, b), b) == a
  {
    ByteWidth();
    XorBitsTwice(a, b, 8);
  }

  lemma XorCommutes(a: byte, b: byte)
    ensures Xor(a, b) == Xor(b, a)
  {
    XorBitsSwap(a, b, 8);
  }

  /** Bit by bit. */
  lemma {:induction false} XorBitsAt(a: nat, b: nat, width: nat, i: nat)
    ensures PyInt.Bit(XorBits(a, b, width), i) <==> i < width && PyInt.Bit(a, i) != PyInt.Bit(b, i)
  {
    if width == 0 {
      PyInt.BitOfZero(i);
    } else if i > 0 {
      XorBitsAt(a / 2, b / 2, width - 1, i - 1);
    }
  }

  lemma XorAt(a: byte, b: byte, i: nat)
    requires i < 8
    ensures PyInt.Bit(Xor(a, b), i) <==> PyInt.Bit(a, i) != PyInt.Bit(b, i)
  {
    ByteWidth();
    XorBitsAt(a, b, 8, i);
  }

  /** Two masks turn some byte into the same value only if they are the same mask. */
  lemma XorInjective(a: byte, b: byte, c: byte)
    requires Xor(a, b) == Xor(a, c)
    ensures b == c
  {
    XorCommutes(a, b);
    XorCommutes(a, c);
    XorInvolution(b, a);
    XorInvolution(c, a);
  }

  // ---------- big-endian packing (struct formats "!B", "!H", "!I", "!Q") ----------

  function Be(n: nat, width: nat): (s: seq<byte>)
    ensures |s| == width
  {
    if width == 0 then [] else Be(n / 256, width - 1) + [n % 256]
  }

  function UnBe(s: seq<byte>): nat
  {
    if s == [] then 0 else 256 * UnBe(s[..|s| - 1]) + s[|s| - 1]
  }

  /** The most significant byte comes first. */
  function BigEndian2(n: nat): seq<byte>
  {
    [n / 0x100 % 256, n % 256]
  }

  function BigEndian4(n: nat): seq<byte>
  {
    [n / 0x100_0000 % 256, n / 0x1_0000 % 256, n / 0x100 % 256, n % 256]
  }

  function BigEndian8(n: nat): seq<byte>
  {
    BigEndian4(n / 0x1_0000_0000) + BigEndian4(n)
  }

  lemma PackTwo(n: nat)
    ensures Be(n, 2) == BigEndian2(n)
  {
    assert Be(n / 256, 1) == Be(n / 256 / 256, 0) + [n / 256 % 256];
  }

  lemma PackFour(n: nat)
    ensures Be(n, 4) == BigEndian4(n)
  {
    PackTwo(n / 0x1_0000);
    assert Be(n / 256, 3) == Be(n / 256 / 256, 2) + [n / 256 % 256];
    assert n / 256 / 256 == n / 0x1_0000 && n / 0x1_0000 / 0x100 == n / 0x100_0000;
  }

  lemma PackEight(n: nat)
    ensures Be(n, 8) == BigEndian8(n)
  {
    var m := n / 256 / 256;
    PackFour(m / 256 / 256);
    PackFour(n);
    assert m / 256 / 256 == n / 0x1_0000_0000;
    assert Be(n, 8) == Be(n / 256, 7) + [n % 256] && Be(n / 256, 7) == Be(m, 6) + [n / 256 % 256];
    assert Be(m, 6) == Be(m / 256, 5) + [m % 256] && Be(m / 256, 5) == Be(m / 256 / 256, 4) + [m / 256 % 256];
  }

  lemma {:induction false} UnpackOfPack(n: nat, width: nat)
    requires n < Pow(256, width)
    ensures UnBe(Be(n, width)) == n
  {
    if width > 0 {
      var s := Be(n, width);
      assert s[..|s| - 1] == Be(n / 256, width - 1);
      UnpackOfPack(n / 256, width - 1);
    }
  }

  lemma {:induction false} PackOfUnpack(s: seq<byte>)
    ensures UnBe(s) < Pow(256, |s|)
    ensures Be(UnBe(s), |s|) == s
  {
    if s != [] {
      PackOfUnpack(s[..|s| - 1]);
      assert s == s[..|s| - 1] + [s[|s| - 1]];
      assert UnBe(s) / 256 == UnBe(s[..|s| - 1]);
    }
  }

  lemma PowerValues()
    ensures Pow(256, 1) == 0x100
    ensures Pow(256, 2) == 0x1_0000
    ensures Pow(256, 4) == 0x1_0000_0000
    ensures Pow(256, 8) == 0x1_0000_0000_0000_0000
  {
    assert Pow(256, 2) == 0x1_0000;
    assert Pow(256, 4) == 256 * (256 * Pow(256, 2));
    assert Pow(256, 6) == 256 * (256 * Pow(256, 4));
    assert Pow(256, 8) == 256 * (256 * Pow(256, 6));
  }

  // ---------- slices ----------

  /** Python's `s[i:j]` for a sequence, with its treatment of negative and too large indices. */
  function PySlice<T>(s: seq<T>, i: int, j: int): seq<T>
  {
    var lo := PyIndex(|s|, i);
    var hi := PyIndex(|s|, j);
    if lo <= hi then s[lo..hi] else []
  }

  function PyIndex(len: nat, i: int): (k: nat)
    ensures k <= len
  {
    if i < 0 then (if len + i < 0 then 0 else len + i) else if i > len then len else i
  }

  /** `s[i:j] = data` on a bytearray: the slice is replaced, whatever the length of data. */
  function Assign<T>(s: seq<T>, i: nat, j: nat, data: seq<T>): seq<T>
    requires i <= j <= |s|
  {
    s[..i] + data + s[j..]
  }

  /** Overwriting in place keeps the length and changes exactly the addressed cells. */
  lemma OverwriteAt<T>(s: seq<T>, i: nat, data: seq<T>)
    requires i + |data| <= |s|
    ensures |Assign(s, i, i + |data|, data)| == |s|
    ensures forall k :: 0 <= k < |s| ==>
      Assign(s, i, i + |data|, data)[k] == if i <= k < i + |data| then data[k - i] else s[k]
  {
  }
}
