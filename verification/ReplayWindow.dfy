// The anti-replay window of daemon/cip.py: per source the highest sequence number and
// an integer bitmap that is shifted but never masked to the window size.
module ReplayWindow {
  import opened Bytes
  import opened PyInt

  datatype Window = Window(highest: int, bitmap: nat)

  datatype Verdict = Admitted | Stale | Duplicate

  /** The check of one source's window: the verdict and the window afterwards. */
  function Check(w: Option<Window>, seqNum: int, size: int): (r: (Verdict, Option<Window>))
    ensures if r.0 == Admitted then r.1.Some? else r.1 == w
  {
    if w.None? then (Admitted, Some(Window(seqNum, 1)))
    else
      var diff := w.value.highest - seqNum;
      if diff >= size then (Stale, w)
      else if diff >= 0 then
        if BitAnd(w.value.bitmap, Shl(1, diff)) != 0 then (Duplicate, w)
        else
          ShlIsNat(1, diff);
          OrIsNat(w.value.bitmap, Shl(1, diff));
          (Admitted, Some(Window(w.value.highest, BitOr(w.value.bitmap, Shl(1, diff)))))
      else
        var shift := -diff;
        ShlIsNat(w.value.bitmap, shift);
        OrIsNat(Shl(w.value.bitmap, shift), 1);
        var bitmap := if shift >= size then 1 else BitOr(Shl(w.value.bitmap, shift), 1);
        (Admitted, Some(Window(seqNum, bitmap)))
  }

  // ---------- the set a window stands for ----------

  /** New, and above the highest admitted number minus the window size. */
  predicate Fresh(admitted: set<int>, seqNum: int, size: int)
  {
    !TooOld(admitted, seqNum, size) && seqNum !in admitted
  }

  predicate TooOld(admitted: set<int>, seqNum: int, size: int)
  {
    exists a :: a in admitted && seqNum <= a - size
  }

  /** The stored highest is the maximum; below the window size bit i says whether highest - i was
      admitted; a set bit at or above it also names an admitted number, a clear one says nothing. */
  ghost predicate Represents(w: Option<Window>, admitted: set<int>, size: int)
  {
    match w
    case None => admitted == {}
    case Some(v) =>
      && v.highest in admitted
      && (forall a :: a in admitted ==> a <= v.highest)
      && (forall i: nat :: i < size ==> (Bit(v.bitmap, i) <==> v.highest - i in admitted))
      && (forall i: nat :: Bit(v.bitmap, i) ==> v.highest - i in admitted)
  }

  lemma SetBit(b: nat, d: nat, i: nat)
    ensures Bit(BitOr(b, Shl(1, d)), i) <==> Bit(b, i) || i == d
  {
    ShlIsNat(1, d);
    BitOfOr(b, Shl(1, d), i);
    BitOfShl(1, d, i);
    if i >= d { BitOfOne(i - d); }
  }

  lemma ShiftIn(b: nat, k: nat, i: nat)
    requires k > 0
    ensures Shl(b, k) >= 0
    ensures Bit(BitOr(Shl(b, k), 1), i) <==> i == 0 || (i >= k && Bit(b, i - k))
  {
    ShlIsNat(b, k);
    BitOfOr(Shl(b, k), 1, i);
    BitOfShl(b, k, i);
    BitOfOne(i);
  }

  /** One check: the verdict is that of the set, and the set grows by exactly the admitted number. */
  lemma CheckRefines(w: Option<Window>, admitted: set<int>, seqNum: int, size: int)
    requires Represents(w, admitted, size)
    ensures Check(w, seqNum, size).0 ==
      (if TooOld(admitted, seqNum, size) then Stale else if seqNum in admitted then Duplicate else Admitted)
    ensures Represents(Check(w, seqNum, size).1,
                       if Fresh(admitted, seqNum, size) then admitted + {seqNum} else admitted, size)
  {
    if w.None? {
      forall i: nat
        ensures Bit(1, i) <==> i == 0
      {
        BitOfOne(i);
      }
    } else {
      var v := w.value;
      var diff := v.highest - seqNum;
      if diff >= size {
        assert seqNum <= v.highest - size;
      } else if diff >= 0 {
        MaskTest(v.bitmap, diff);
        assert Bit(v.bitmap, diff) <==> v.highest - diff in admitted;
        forall i: nat
          ensures Bit(BitOr(v.bitmap, Shl(1, diff)), i) <==> Bit(v.bitmap, i) || i == diff
        {
          SetBit(v.bitmap, diff, i);
        }
      } else {
        AdvanceRefines(v, admitted, seqNum, size);
      }
    }
  }

  lemma AdvanceRefines(v: Window, admitted: set<int>, seqNum: int, size: int)
    requires Represents(Some(v), admitted, size) && v.highest < seqNum && v.highest - seqNum < size
    ensures Fresh(admitted, seqNum, size)
    ensures Check(Some(v), seqNum, size).0 == Admitted
    ensures Represents(Check(Some(v), seqNum, size).1, admitted + {seqNum}, size)
  {
    var shift := seqNum - v.highest;
    if shift >= size {
      forall i: nat
        ensures Bit(1, i) <==> i == 0
      {
        BitOfOne(i);
      }
    } else {
      ShlIsNat(v.bitmap, shift);
      forall i: nat
        ensures Bit(BitOr(Shl(v.bitmap, shift), 1), i) <==> i == 0 || (i >= shift && Bit(v.bitmap, i - shift))
      {
        ShiftIn(v.bitmap, shift, i);
      }
      forall i: nat | i < size
        ensures Bit(BitOr(Shl(v.bitmap, shift), 1), i) <==> seqNum - i in admitted + {seqNum}
      {
        if i >= shift {
          assert Bit(v.bitmap, i - shift) <==> v.highest - (i - shift) in admitted;
        }
      }
    }
  }

  // ---------- whole runs over many sources ----------

  /** A packet that reached the window check. */
  datatype Arrival = Arrival(src: nat, seqNum: int)

  function Lookup(ws: map<nat, Window>, src: nat): Option<Window>
  {
    if src in ws then Some(ws[src]) else None
  }

  function CheckAt(ws: map<nat, Window>, a: Arrival, size: int): (r: (Verdict, map<nat, Window>))
    ensures r.0 != Admitted ==> r.1 == ws
  {
    var (verdict, w) := Check(Lookup(ws, a.src), a.seqNum, size);
    (verdict, if verdict == Admitted then ws[a.src := w.value] else ws)
  }

  function Run(h: seq<Arrival>, size: int): map<nat, Window>
  {
    if h == [] then map[] else CheckAt(Run(h[..|h| - 1], size), h[|h| - 1], size).1
  }

  function VerdictOf(h: seq<Arrival>, a: Arrival, size: int): Verdict
  {
    CheckAt(Run(h, size), a, size).0
  }

  /** The numbers of one source admitted over a run, by the set rule alone. */
  ghost function AdmittedSet(h: seq<Arrival>, src: nat, size: int): set<int>
  {
    if h == [] then {}
    else
      var before := AdmittedSet(h[..|h| - 1], src, size);
      var a := h[|h| - 1];
      if a.src == src && Fresh(before, a.seqNum, size) then before + {a.seqNum} else before
  }

  /** After every run each source's window stands for the set of its admitted numbers. */
  lemma {:induction false} WindowRefinesSet(h: seq<Arrival>, src: nat, size: int)
    ensures Represents(Lookup(Run(h, size), src), AdmittedSet(h, src, size), size)
  {
    if h != [] {
      WindowRefinesSet(h[..|h| - 1], src, size);
      var a := h[|h| - 1];
      if a.src == src {
        CheckRefines(Lookup(Run(h[..|h| - 1], size), src), AdmittedSet(h[..|h| - 1], src, size), a.seqNum, size);
      }
    }
  }

  /** A packet passes exactly when its number is new and above the maximum minus the window size. */
  lemma AdmissionExact(h: seq<Arrival>, a: Arrival, size: int)
    ensures VerdictOf(h, a, size) == Admitted <==> Fresh(AdmittedSet(h, a.src, size), a.seqNum, size)
    ensures VerdictOf(h, a, size) == Stale <==> TooOld(AdmittedSet(h, a.src, size), a.seqNum, size)
  {
    WindowRefinesSet(h, a.src, size);
    CheckRefines(Lookup(Run(h, size), a.src), AdmittedSet(h, a.src, size), a.seqNum, size);
  }

  lemma {:induction false} AdmittedStays(h: seq<Arrival>, k: nat, src: nat, size: int)
    requires k <= |h|
    ensures AdmittedSet(h[..k], src, size) <= AdmittedSet(h, src, size)
    decreases |h|
  {
    if k < |h| {
      assert h[..|h| - 1][..k] == h[..k];
      AdmittedStays(h[..|h| - 1], k, src, size);
    } else {
      assert h[..k] == h;
    }
  }

  /** No (source, number) pair is admitted twice in any run. */
  lemma AdmittedOnce(h: seq<Arrival>, i: nat, j: nat, size: int)
    requires i < j < |h| && h[i] == h[j]
    requires VerdictOf(h[..i], h[i], size) == Admitted
    ensures VerdictOf(h[..j], h[j], size) != Admitted
  {
    AdmissionExact(h[..i], h[i], size);
    AdmissionExact(h[..j], h[j], size);
    var k := i + 1;
    assert h[..k][..i] == h[..i] && h[..k][|h[..k]| - 1] == h[i];
    assert h[i].seqNum in AdmittedSet(h[..k], h[i].src, size);
    assert h[..j][..k] == h[..k];
    AdmittedStays(h[..j], k, h[i].src, size);
  }

  // ---------- stale numbers, in terms of arrivals ----------

  /** The source has sent a number of at least `bound`, admitted or not. */
  ghost predicate Arrived(h: seq<Arrival>, src: nat, bound: int)
  {
    exists i: nat :: i < |h| && Reaches(h[i], src, bound)
  }

  predicate Reaches(a: Arrival, src: nat, bound: int)
  {
    a.src == src && bound <= a.seqNum
  }

  lemma ArrivedSplit(h: seq<Arrival>, a: Arrival, src: nat, bound: int)
    ensures Arrived(h + [a], src, bound) <==> Arrived(h, src, bound) || Reaches(a, src, bound)
  {
    hide Reaches;
    if i: nat :| i < |h| + 1 && Reaches((h + [a])[i], src, bound) {
      if i < |h| { assert Reaches(h[i], src, bound); }
    }
    if i: nat :| i < |h| && Reaches(h[i], src, bound) {
      assert Reaches((h + [a])[i], src, bound);
    }
    assert (h + [a])[|h|] == a;
  }

  /** Every arrival is admitted, or is not above an admitted number: so a number is too old exactly if the
      source has sent, admitted or not, one at least the window size above it. */
  lemma {:induction false} TooOldIffArrived(h: seq<Arrival>, src: nat, seqNum: int, size: int)
    requires size >= 0
    ensures TooOld(AdmittedSet(h, src, size), seqNum, size) <==> Arrived(h, src, seqNum + size)
  {
    if h != [] {
      var g, a := h[..|h| - 1], h[|h| - 1];
      var before := AdmittedSet(g, src, size);
      TooOldIffArrived(g, src, seqNum, size);
      assert h == g + [a];
      ArrivedSplit(g, a, src, seqNum + size);
      if a.src == src && !Fresh(before, a.seqNum, size) && seqNum + size <= a.seqNum {
        if a.seqNum in before {
        } else {
          var b :| b in before && a.seqNum <= b - size;
          assert seqNum <= b - size;
        }
        assert TooOld(before, seqNum, size);
      }
    }
  }

  // ---------- the bits at and above the window size ----------

  /** Equal but for bits at or above the window size. */
  ghost predicate SameBelow(w: Option<Window>, v: Option<Window>, size: int)
  {
    && w.Some? == v.Some?
    && (w.Some? ==>
      && w.value.highest == v.value.highest
      && forall i: nat :: i < size ==> (Bit(w.value.bitmap, i) <==> Bit(v.value.bitmap, i)))
  }

  lemma HighBitsIgnored(w: Option<Window>, v: Option<Window>, seqNum: int, size: int)
    requires SameBelow(w, v, size)
    ensures Check(w, seqNum, size).0 == Check(v, seqNum, size).0
    ensures SameBelow(Check(w, seqNum, size).1, Check(v, seqNum, size).1, size)
  {
    if w.Some? {
      var diff := w.value.highest - seqNum;
      if 0 <= diff < size {
        MaskTest(w.value.bitmap, diff);
        MaskTest(v.value.bitmap, diff);
        assert Bit(w.value.bitmap, diff) <==> Bit(v.value.bitmap, diff);
        forall i: nat | i < size
          ensures Bit(BitOr(w.value.bitmap, Shl(1, diff)), i) <==> Bit(BitOr(v.value.bitmap, Shl(1, diff)), i)
        {
          SetBit(w.value.bitmap, diff, i);
          SetBit(v.value.bitmap, diff, i);
        }
      } else if diff < size && -diff < size {
        var shift := -diff;
        ShlIsNat(w.value.bitmap, shift);
        ShlIsNat(v.value.bitmap, shift);
        forall i: nat | i < size
          ensures Bit(BitOr(Shl(w.value.bitmap, shift), 1), i) <==> Bit(BitOr(Shl(v.value.bitmap, shift), 1), i)
        {
          ShiftIn(w.value.bitmap, shift, i);
          ShiftIn(v.value.bitmap, shift, i);
        }
      }
    }
  }

  function Verdicts(w: Option<Window>, seqNums: seq<int>, size: int): seq<Verdict>
    decreases |seqNums|
  {
    if seqNums == [] then []
    else
      var (verdict, next) := Check(w, seqNums[0], size);
      [verdict] + Verdicts(next, seqNums[1..], size)
  }

  /** Bits at or above the window size are never consulted, however long the run goes on. */
  lemma {:induction false} HighBitsNeverConsulted(w: Option<Window>, v: Option<Window>, seqNums: seq<int>, size: int)
    requires SameBelow(w, v, size)
    ensures Verdicts(w, seqNums, size) == Verdicts(v, seqNums, size)
    decreases |seqNums|
  {
    if seqNums != [] {
      HighBitsIgnored(w, v, seqNums[0], size);
      HighBitsNeverConsulted(Check(w, seqNums[0], size).1, Check(v, seqNums[0], size).1, seqNums[1..], size);
    }
  }

  // ---------- what every bit of the bitmap says ----------

  /** The number lies at least the window size above all admitted ones (or there are none). */
  ghost predicate Jumps(admitted: set<int>, seqNum: int, size: int)
  {
    forall a :: a in admitted ==> a + size <= seqNum
  }

  /** The numbers of one source admitted since its bitmap was last set to 1. */
  ghost function Kept(h: seq<Arrival>, src: nat, size: int): set<int>
  {
    if h == [] then {}
    else
      var g, a := h[..|h| - 1], h[|h| - 1];
      var admitted := AdmittedSet(g, src, size);
      if a.src != src || !Fresh(admitted, a.seqNum, size) then Kept(g, src, size)
      else if Jumps(admitted, a.seqNum, size) then {a.seqNum}
      else Kept(g, src, size) + {a.seqNum}
  }

  /** Bit i is set exactly if the number i below the highest is among those. */
  ghost predicate Records(w: Option<Window>, kept: set<int>)
  {
    match w
    case None => kept == {}
    case Some(v) =>
      && v.highest in kept && (forall a :: a in kept ==> a <= v.highest)
      && (forall i: nat :: Bit(v.bitmap, i) <==> v.highest - i in kept)
  }

  lemma CheckRecords(w: Option<Window>, admitted: set<int>, kept: set<int>, seqNum: int, size: int)
    requires Represents(w, admitted, size) && Records(w, kept)
    ensures Records(Check(w, seqNum, size).1,
                    if !Fresh(admitted, seqNum, size) then kept
                    else if Jumps(admitted, seqNum, size) then {seqNum} else kept + {seqNum})
  {
    CheckRefines(w, admitted, seqNum, size);
    if Fresh(admitted, seqNum, size) {
      if w.None? || seqNum - w.value.highest >= size {
        forall i: nat
          ensures Bit(1, i) <==> i == 0
        {
          BitOfOne(i);
        }
        if w.Some? { ResetWindow(w.value, admitted, seqNum, size); }
      } else if seqNum <= w.value.highest {
        var diff := w.value.highest - seqNum;
        assert !Jumps(admitted, seqNum, size) by { assert w.value.highest in admitted; }
        forall i: nat
          ensures Bit(BitOr(w.value.bitmap, Shl(1, diff)), i) <==> Bit(w.value.bitmap, i) || i == diff
        {
          SetBit(w.value.bitmap, diff, i);
        }
      } else {
        var shift := seqNum - w.value.highest;
        assert !Jumps(admitted, seqNum, size) by { assert w.value.highest in admitted; }
        ShlIsNat(w.value.bitmap, shift);
        forall i: nat
          ensures Bit(BitOr(Shl(w.value.bitmap, shift), 1), i)
            <==> i == 0 || (i >= shift && Bit(w.value.bitmap, i - shift))
        {
          ShiftIn(w.value.bitmap, shift, i);
        }
      }
    }
  }

  lemma ResetWindow(v: Window, admitted: set<int>, seqNum: int, size: int)
    requires Represents(Some(v), admitted, size) && Fresh(admitted, seqNum, size) && seqNum - v.highest >= size
    ensures Jumps(admitted, seqNum, size)
    ensures Check(Some(v), seqNum, size).1 == Some(Window(seqNum, 1))
  {
    assert v.highest in admitted;
    assert !(seqNum <= v.highest - size);
  }

  /** After every run, for every i: bit i of a source's bitmap is set exactly if the number i below the
      highest was admitted since the bitmap was last set to 1. */
  lemma {:induction false} BitmapExact(h: seq<Arrival>, src: nat, size: int)
    ensures Records(Lookup(Run(h, size), src), Kept(h, src, size))
  {
    hide Records, Represents, Check, Fresh, Jumps;
    if h != [] {
      var g, a := h[..|h| - 1], h[|h| - 1];
      BitmapExact(g, src, size);
      if a.src == src {
        WindowRefinesSet(g, src, size);
        CheckRecords(Lookup(Run(g, size), src), AdmittedSet(g, src, size), Kept(g, src, size), a.seqNum, size);
      }
    } else {
      assert Records(None, {}) by { NothingRecorded(); }
    }
  }

  lemma NothingRecorded()
    ensures Records(None, {})
  {
  }

  lemma {:induction false} HighBitsClear(b: nat, n: nat, i: nat)
    requires b < Pow(2, n) && i >= n
    ensures !Bit(b, i)
  {
    if n > 0 {
      assert Pow(2, n) == 2 * Pow(2, n - 1);
      HighBitsClear(b / 2, n - 1, i - 1);
    } else {
      BitOfZero(i);
    }
  }

  lemma {:induction false} SomeHighBit(b: nat, n: nat) returns (i: nat)
    requires b >= Pow(2, n)
    ensures i >= n && Bit(b, i)
    decreases b
  {
    if n == 0 && b % 2 == 1 {
      i := 0;
    } else {
      if n > 0 { assert Pow(2, n) == 2 * Pow(2, n - 1); }
      var k := SomeHighBit(b / 2, if n == 0 then 0 else n - 1);
      i := k + 1;
    }
  }

  /** The bitmap fits n bits (64, say) exactly if all numbers it records lie less than n below the highest. */
  lemma BitmapFitsIff(h: seq<Arrival>, src: nat, size: int, n: nat)
    requires src in Run(h, size)
    ensures var w := Run(h, size)[src];
      w.bitmap < Pow(2, n) <==> forall a :: a in Kept(h, src, size) ==> w.highest - a < n
  {
    hide Run, Kept;
    BitmapExact(h, src, size);
    var w := Run(h, size)[src];
    if w.bitmap < Pow(2, n) {
      forall a | a in Kept(h, src, size)
        ensures w.highest - a < n
      {
        if w.highest - a >= n {
          HighBitsClear(w.bitmap, n, w.highest - a);
        }
      }
    } else {
      var i := SomeHighBit(w.bitmap, n);
      var a := w.highest - i;
      assert a in Kept(h, src, size) && w.highest - a >= n;
    }
  }

  /** 0, 1, ..., n from one source. */
  function Consecutive(src: nat, n: nat): (h: seq<Arrival>)
    ensures |h| == n + 1 && h[n] == Arrival(src, n)
    ensures n > 0 ==> h[..n] == Consecutive(src, n - 1)
  {
    if n == 0 then [Arrival(src, 0)] else Consecutive(src, n - 1) + [Arrival(src, n)]
  }

  /** The bitmap outgrows every width: n + 1 consecutive numbers set bits 0 to n, all of them, in a window of
      two numbers or more. */
  lemma {:induction false} BitmapExceedsWindow(src: nat, n: nat, size: int)
    requires size >= 2
    ensures src in Run(Consecutive(src, n), size)
    ensures var w := Run(Consecutive(src, n), size)[src];
      w.highest == n && w.bitmap >= Pow(2, n) && forall i: nat :: Bit(w.bitmap, i) <==> i <= n
  {
    hide Check, Bit, Run, Pow;
    var h := Consecutive(src, n);
    RunLast(h, src, size);
    if n == 0 {
      assert h[..0] == [];
      RunNone(size);
      FirstNumber(size);
    } else {
      BitmapExceedsWindow(src, n - 1, size);
      NextNumber(Run(Consecutive(src, n - 1), size)[src], size);
    }
    var w := Run(h, size)[src];
    if w.bitmap < Pow(2, n) { HighBitsClear(w.bitmap, n, n); }
  }

  lemma RunLast(h: seq<Arrival>, src: nat, size: int)
    requires h != [] && h[|h| - 1].src == src
    ensures var w := Lookup(Run(h[..|h| - 1], size), src);
      Check(w, h[|h| - 1].seqNum, size).0 == Admitted ==>
        Lookup(Run(h, size), src) == Check(w, h[|h| - 1].seqNum, size).1
  {
    hide Check;
  }

  lemma RunNone(size: int)
    ensures Run([], size) == map[]
  {
  }

  lemma FirstNumber(size: int)
    ensures Check(None, 0, size) == (Admitted, Some(Window(0, 1)))
    ensures forall i: nat :: Bit(1, i) <==> i <= 0
  {
    forall i: nat
      ensures Bit(1, i) <==> i <= 0
    {
      BitOfOne(i);
    }
  }

  lemma NextNumber(w: Window, size: int)
    requires size >= 2 && w.highest >= 0 && forall i: nat :: Bit(w.bitmap, i) <==> i <= w.highest
    ensures Check(Some(w), w.highest + 1, size).0 == Admitted
    ensures var v := Check(Some(w), w.highest + 1, size).1;
      v.Some? && v.value.highest == w.highest + 1 && forall i: nat :: Bit(v.value.bitmap, i) <==> i <= w.highest + 1
  {
    ShlIsNat(w.bitmap, 1);
    forall i: nat
      ensures Bit(BitOr(Shl(w.bitmap, 1), 1), i) <==> i <= w.highest + 1
    {
      ShiftIn(w.bitmap, 1, i);
    }
  }
}
