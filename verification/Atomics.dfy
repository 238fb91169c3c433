// Runs of atomic operations on one word of one node, in between arbitrary other traffic.
module Atomics {
  import opened Arith
  import opened Bytes
  import opened Fabric
  import opened FabricLog
  import Cip
  import PyInt
  import Router

  /** The operation touches some byte of the word at (node, offset). */
  predicate Touches(op: MemOp, node: nat, offset: nat)
  {
    op.node == node &&
    match op
    case Zeroed(_) => true
    case Stored(_, o, data) => data != [] && o < offset + 8 && offset < o + |data|
    case Updated(_, o, _) => o < offset + 8 && offset < o + 8
  }

  lemma UntouchedWord(log: seq<MemOp>, op: MemOp, node: nat, offset: nat)
    requires !Touches(op, node, offset)
    ensures WordAt(log + [op], node, offset) == WordAt(log, node, offset)
  {
    hide ByteAt, UnBe;
    forall i | 0 <= i < 8
      ensures Cells(log + [op], node, offset, 8)[i] == Cells(log, node, offset, 8)[i]
    {
      LastOp(log, op, node, offset + i);
    }
    assert Cells(log + [op], node, offset, 8) == Cells(log, node, offset, 8);
  }

  lemma WordInRange(log: seq<MemOp>, node: nat, offset: nat)
    ensures WordAt(log, node, offset) < WORD_LIMIT
  {
    PackOfUnpack(Cells(log, node, offset, 8));
    PowerValues();
  }

  /** An update of exactly this word replaces its value by the operation's result. */
  lemma UpdatedWord(log: seq<MemOp>, op: MemOp, node: nat, offset: nat)
    requires op.Updated? && op.node == node && op.offset == offset
    ensures WordAt(log + [op], node, offset) == NextWord(op.rmw, WordAt(log, node, offset))
  {
    hide ByteAt, Be, UnBe, NextWord;
    var v := NextWord(op.rmw, WordAt(log, node, offset));
    NextWordInRange(op.rmw, WordAt(log, node, offset), log, node, offset);
    forall i | 0 <= i < 8
      ensures Cells(log + [op], node, offset, 8)[i] == Be(v, 8)[i]
    {
      LastOp(log, op, node, offset + i);
    }
    assert Cells(log + [op], node, offset, 8) == Be(v, 8);
    PowerValues();
    UnpackOfPack(v, 8);
  }

  lemma NextWordInRange(k: Rmw, w: nat, log: seq<MemOp>, node: nat, offset: nat)
    requires w == WordAt(log, node, offset)
    ensures NextWord(k, w) < WORD_LIMIT
  {
    WordInRange(log, node, offset);
  }

  // ---------- fetch-and-add ----------

  predicate OnlyAdds(ops: seq<MemOp>, node: nat, offset: nat)
  {
    forall i :: 0 <= i < |ops| && Touches(ops[i], node, offset) ==>
      ops[i].Updated? && ops[i].offset == offset && ops[i].rmw.Add?
  }

  /** What the operations added to the word, in order. */
  function Addends(ops: seq<MemOp>, node: nat, offset: nat): seq<int>
    requires OnlyAdds(ops, node, offset)
  {
    if ops == [] then []
    else
      var op := ops[|ops| - 1];
      Addends(ops[..|ops| - 1], node, offset) + if Touches(op, node, offset) then [op.rmw.v] else []
  }

  lemma ModAdd(a: int, b: int)
    ensures (a % WORD_LIMIT + b) % WORD_LIMIT == (a + b) % WORD_LIMIT
  {
  }

  /** While nothing but additions touches a word, it is its initial value plus all the addends so far,
      modulo 2^64. With FabricLog.AtomicReturnsLog this is also what each addition returns. */
  lemma {:induction false} FetchAddsAccumulate(log: seq<MemOp>, ops: seq<MemOp>, node: nat, offset: nat)
    requires OnlyAdds(ops, node, offset)
    ensures WordAt(log + ops, node, offset)
      == (WordAt(log, node, offset) + Sum(Addends(ops, node, offset))) % WORD_LIMIT
  {
    hide WordAt, NextWord, Sum;
    SumOfZeros([]);
    WordInRange(log, node, offset);
    if ops == [] {
      assert log + ops == log;
    } else {
      var before := ops[..|ops| - 1];
      var op := ops[|ops| - 1];
      FetchAddsAccumulate(log, before, node, offset);
      assert log + ops == (log + before) + [op];
      var w := WordAt(log + before, node, offset);
      if Touches(op, node, offset) {
        AddendsLast(ops, node, offset);
        UpdatedWord(log + before, op, node, offset);
        AddsModulo(op.rmw.v, w);
        ModAdd(WordAt(log, node, offset) + Sum(Addends(before, node, offset)), op.rmw.v);
      } else {
        UntouchedWord(log + before, op, node, offset);
        assert Addends(before, node, offset) + [] == Addends(before, node, offset);
      }
    }
  }

  lemma AddendsLast(ops: seq<MemOp>, node: nat, offset: nat)
    requires ops != [] && OnlyAdds(ops, node, offset) && Touches(ops[|ops| - 1], node, offset)
    ensures Sum(Addends(ops, node, offset))
      == Sum(Addends(ops[..|ops| - 1], node, offset)) + ops[|ops| - 1].rmw.v
  {
    var xs := Addends(ops[..|ops| - 1], node, offset);
    assert (xs + [ops[|ops| - 1].rmw.v])[..|xs|] == xs;
  }

  lemma AddsModulo(v: int, w: nat)
    ensures NextWord(Add(v), w) == (w + v) % WORD_LIMIT
  {
  }

  /** The final value does not depend on the order of the additions, nor on the other traffic. */
  lemma FetchAddsCommute(log: seq<MemOp>, ops: seq<MemOp>, ops': seq<MemOp>, node: nat, offset: nat)
    requires OnlyAdds(ops, node, offset) && OnlyAdds(ops', node, offset)
    requires multiset(Addends(ops, node, offset)) == multiset(Addends(ops', node, offset))
    ensures WordAt(log + ops, node, offset) == WordAt(log + ops', node, offset)
  {
    hide WordAt;
    FetchAddsAccumulate(log, ops, node, offset);
    FetchAddsAccumulate(log, ops', node, offset);
    SumIgnoresOrder(Addends(ops, node, offset), Addends(ops', node, offset));
  }

  // ---------- compare-and-swap ----------

  /** All operations on the word compare it with c and would replace it by something else. */
  predicate OnlyCas(ops: seq<MemOp>, node: nat, offset: nat, c: nat)
  {
    forall i :: 0 <= i < |ops| && Touches(ops[i], node, offset) ==>
      && ops[i].Updated? && ops[i].offset == offset && ops[i].rmw.Cas?
      && ops[i].rmw.compare == c && ops[i].rmw.swap != c && 0 <= ops[i].rmw.swap < WORD_LIMIT
  }

  /** How many of the operations found the compare value and stored theirs. */
  function Successes(log: seq<MemOp>, ops: seq<MemOp>, node: nat, offset: nat, c: nat): nat
  {
    if ops == [] then 0
    else
      var before := ops[..|ops| - 1];
      Successes(log, before, node, offset, c)
      + if Touches(ops[|ops| - 1], node, offset) && WordAt(log + before, node, offset) == c then 1 else 0
  }

  /** Among competing compare-and-swaps at most one succeeds; one does exactly when the word held the
      compare value and there was a competitor, and from then on the word holds something else. */
  lemma {:induction false} CasSucceedsOnce(log: seq<MemOp>, ops: seq<MemOp>, node: nat, offset: nat, c: nat)
    requires OnlyCas(ops, node, offset, c)
    ensures var initial := WordAt(log, node, offset) == c;
      var contested := exists i :: 0 <= i < |ops| && Touches(ops[i], node, offset);
      && Successes(log, ops, node, offset, c) == (if initial && contested then 1 else 0)
      && (WordAt(log + ops, node, offset) == c <==> initial && !contested)
      && (!initial || !contested ==> WordAt(log + ops, node, offset) == WordAt(log, node, offset))
  {
    hide WordAt, UpdateWord, NextWord;
    if ops == [] {
      assert log + ops == log;
    } else {
      var last := |ops| - 1;
      var before := ops[..last];
      var op := ops[last];
      CasSucceedsOnce(log, before, node, offset, c);
      assert log + ops == (log + before) + [op];
      assert forall i :: 0 <= i < last ==> before[i] == ops[i];
      if Touches(op, node, offset) {
        UpdatedWord(log + before, op, node, offset);
        CasResult(op.rmw, WordAt(log + before, node, offset));
      } else {
        UntouchedWord(log + before, op, node, offset);
      }
    }
  }

  lemma CasResult(k: Rmw, w: nat)
    requires k.Cas? && 0 <= k.swap < WORD_LIMIT
    ensures NextWord(k, w) == if w == k.compare then k.swap else w
  {
  }

  // ---------- in terms of fabric runs ----------

  lemma {:induction false} LogGrows(c: Cip.Crypto, es: seq<Event>, m: nat)
    requires m <= |es|
    ensures Log(c, es[..m]) <= Log(c, es)
    decreases |es|
  {
    hide EffectOf;
    if m < |es| {
      assert es[..|es| - 1][..m] == es[..m];
      LogGrows(c, es[..|es| - 1], m);
    } else {
      assert es[..m] == es;
    }
  }

  /** What a run has logged since its first m events. */
  function Since(c: Cip.Crypto, es: seq<Event>, m: nat): (ops: seq<MemOp>)
    requires m <= |es|
    ensures Log(c, es) == Log(c, es[..m]) + ops
  {
    LogGrows(c, es, m);
    Log(c, es)[|Log(c, es[..m])|..]
  }

  /** An accepted atomic operation is answered with the word of the log, as it was before it. */
  lemma UpdateAnswers(c: Cip.Crypto, es: seq<Event>, p: Pkt)
    requires Effect(c, Run(c, es), p).Some? && Effect(c, Run(c, es), p).value.Updated?
    ensures var op := Effect(c, Run(c, es), p).value;
      && Process(c, Run(c, es), p).answer.Reply?
      && Process(c, Run(c, es), p).answer.pkt.meta.report == Original(WordAt(Log(c, es), op.node, op.offset))
  {
    hide Run, Log, WordAt, Gate, UpdateWord, WordIn;
    hide HandleAtomic, HandleWrite, HandleRead, DispatchControl, DispatchRest;
    var f := Run(c, es);
    GateKeepsMemory(c, f, p);
    MemoryRefinesLog(c, es);
    AtomicIsAtomic(p.opcode);
    var g := Gate(c, f, p).0;
    EffectIgnoresCip(g, f, p, []);
    AtomicAnswers(g, p);
    var op := Effect(c, f, p).value;
    WordAgrees(f.mem, Log(c, es), op.node, op.offset);
  }

  lemma AtomicAnswers(f: State, p: Pkt)
    requires AtomicEffect(f, p).Some?
    ensures HandleAtomic(f, p).answer.Reply?
    ensures HandleAtomic(f, p).answer.pkt.meta.report == Original(WordIn(f.mem[p.dst], GetOr(p.meta.offset, 0)))
  {
    hide Router.ValidateAccess, UpdateWord, RmwOf, UnBe, Be, Assign;
  }

  /** While, since event m, only additions touched a word, each further accepted addition returns the word
      at event m plus all earlier addends, modulo 2^64. */
  lemma FetchAddReturns(c: Cip.Crypto, es: seq<Event>, m: nat, p: Pkt, node: nat, offset: nat, v: int)
    requires m <= |es| && Effect(c, Run(c, es), p) == Some(Updated(node, offset, Add(v)))
    requires OnlyAdds(Since(c, es, m), node, offset)
    ensures Process(c, Run(c, es), p).answer.Reply?
    ensures Process(c, Run(c, es), p).answer.pkt.meta.report
      == Original((WordAt(Log(c, es[..m]), node, offset) + Sum(Addends(Since(c, es, m), node, offset))) % WORD_LIMIT)
  {
    hide Run, Log, WordAt, Effect, Process, Since;
    UpdateAnswers(c, es, p);
    FetchAddsAccumulate(Log(c, es[..m]), Since(c, es, m), node, offset);
  }

  lemma Logged(c: Cip.Crypto, es: seq<Event>, i: nat, op: MemOp)
    requires i < |es| && es[i].Recv? && Effect(c, Run(c, es[..i]), es[i].pkt) == Some(op)
    ensures Log(c, es[..i + 1]) == Log(c, es[..i]) + [op]
  {
    hide Run, Effect;
    assert es[..i + 1][..i] == es[..i];
  }

  /** Of two competing compare-and-swaps in a run, with nothing but such competitors in between, at most
      one is answered with the compare value. */
  lemma CasWonOnce(c: Cip.Crypto, es: seq<Event>, i: nat, j: nat, node: nat, offset: nat, expected: nat, s: int, t: int)
    requires i < j < |es| && es[i].Recv? && es[j].Recv?
    requires Effect(c, Run(c, es[..i]), es[i].pkt) == Some(Updated(node, offset, Cas(expected, s)))
    requires Effect(c, Run(c, es[..j]), es[j].pkt) == Some(Updated(node, offset, Cas(expected, t)))
    requires OnlyCas(Since(c, es[..j], i), node, offset, expected)
    ensures Process(c, Run(c, es[..i]), es[i].pkt).answer.Reply? && Process(c, Run(c, es[..j]), es[j].pkt).answer.Reply?
    ensures Process(c, Run(c, es[..i]), es[i].pkt).answer.pkt.meta.report == Original(expected) ==>
      Process(c, Run(c, es[..j]), es[j].pkt).answer.pkt.meta.report != Original(expected)
  {
    hide Run, Log, WordAt, Effect, Process, NextWord, UpdateWord, Since;
    assert es[..j][..i] == es[..i] && es[..j][..i + 1] == es[..i + 1];
    UpdateAnswers(c, es[..i], es[i].pkt);
    UpdateAnswers(c, es[..j], es[j].pkt);
    var before := Log(c, es[..i]);
    var ops := Since(c, es[..j], i);
    CasSucceedsOnce(before, ops, node, offset, expected);
    var first := Updated(node, offset, Cas(expected, s));
    Logged(c, es, i, first);
    LogGrows(c, es[..j], i + 1);
    assert (before + ops)[|before|] == first;
    assert ops[0] == first && Touches(ops[0], node, offset);
  }

  /** The word of a connected node after a run in which, since event m, only additions touched it. */
  lemma FabricFetchAdds(c: Cip.Crypto, es: seq<Event>, m: nat, node: nat, offset: nat)
    requires m <= |es| && node in Run(c, es).mem && offset + 8 <= MEMORY_SIZE
    requires OnlyAdds(Since(c, es, m), node, offset)
    ensures |Run(c, es).mem[node]| == MEMORY_SIZE
    ensures WordIn(Run(c, es).mem[node], offset)
      == (WordAt(Log(c, es[..m]), node, offset) + Sum(Addends(Since(c, es, m), node, offset))) % WORD_LIMIT
  {
    hide Run, Log, WordAt, Since;
    MemoryRefinesLog(c, es);
    WordAgrees(Run(c, es).mem, Log(c, es), node, offset);
    FetchAddsAccumulate(Log(c, es[..m]), Since(c, es, m), node, offset);
  }

  // ---------- one packet, by its opcode number ----------

  /** The packet asks for an atomic operation on a word of a connected node, and may: offset, operand v and
      compare value are those of its metadata. */
  predicate AsksWord(c: Cip.Crypto, f: State, p: Pkt, offset: nat, v: int, compare: int)
  {
    && p.opcode in {0x34, 0x35, 0x36, 0x37, 0x39, 0x67, 0x68} && Gate(c, f, p).1.Plain? && p.meta.segmentId.Some?
    && Carries(p.meta.offset, 0, offset) && Carries(p.meta.operand, 0, v) && Carries(p.meta.compare, 0, compare)
    && Router.ValidateAccess(f.table, p.dst, p.meta.segmentId.value, offset, 8, true, p.token) == Router.Granted
    && p.dst in f.mem && offset + 8 <= |f.mem[p.dst]|
  }

  predicate IsWord(v: int)
  {
    0 <= v < 0x1_0000_0000_0000_0000
  }

  /** What the opcode makes of a word: compare-and-swap 0x34 and 0x67, add 0x35 and 0x68, and 0x36, or 0x37,
      swap 0x39. */
  ghost predicate WordBecomes(op: nat, w: nat, v: int, compare: int, next: nat)
  {
    && (op == 0x34 || op == 0x67 ==> next == if w == compare then v else w)
    && (op == 0x35 || op == 0x68 ==> next == (w + v) % 0x1_0000_0000_0000_0000)
    && (op == 0x36 ==> forall i: nat :: PyInt.Bit(next, i) <==> PyInt.Bit(w, i) && PyInt.Bit(v, i))
    && (op == 0x37 ==> forall i: nat :: PyInt.Bit(next, i) <==> PyInt.Bit(w, i) || PyInt.Bit(v, i))
    && (op == 0x39 ==> next == v)
  }

  /** The handler raises: the word to be packed is none. */
  predicate CannotPack(op: nat, w: nat, v: int, compare: int)
  {
    !IsWord(v) && (op == 0x37 || op == 0x39 || ((op == 0x34 || op == 0x67) && w == compare))
  }

  lemma UpdateExact(p: Pkt, w: nat, v: int, compare: int)
    requires p.opcode in {0x34, 0x35, 0x36, 0x37, 0x39, 0x67, 0x68} && IsWord(w)
    requires Carries(p.meta.operand, 0, v) && Carries(p.meta.compare, 0, compare)
    ensures UpdateWord(RmwOf(p), w) == PackError <==> CannotPack(p.opcode, w, v, compare)
    ensures UpdateWord(RmwOf(p), w) != PackError ==>
      IsWord(NextWord(RmwOf(p), w)) && WordBecomes(p.opcode, w, v, compare, NextWord(RmwOf(p), w))
  {
    if p.opcode == 0x36 {
      forall i: nat
        ensures PyInt.Bit(PyInt.BitAnd(w, v), i) <==> PyInt.Bit(w, i) && PyInt.Bit(v, i)
      {
        PyInt.BitOfAnd(w, v, i);
      }
    } else if p.opcode == 0x37 {
      PyInt.WordWidth();
      PyInt.OrInRange(w, v, 64);
      forall i: nat
        ensures PyInt.Bit(PyInt.BitOr(w, v), i) <==> PyInt.Bit(w, i) || PyInt.Bit(v, i)
      {
        PyInt.BitOfOr(w, v, i);
      }
    }
  }

  /** The handler on a word of connected memory: it raises, or answers the old word and stores the next one. */
  lemma WordHandled(f: State, p: Pkt, offset: nat)
    requires p.meta.segmentId.Some? && Carries(p.meta.offset, 0, offset)
    requires Router.ValidateAccess(f.table, p.dst, p.meta.segmentId.value, offset, 8, true, p.token) == Router.Granted
    requires p.dst in f.mem && offset + 8 <= |f.mem[p.dst]|
    ensures var o := HandleAtomic(f, p);
      var w := WordIn(f.mem[p.dst], offset);
      if UpdateWord(RmwOf(p), w) == PackError then o.answer.Raises? && o.state.mem == f.mem
      else
        && o.answer.Reply? && o.answer.pkt.meta.report == Original(w)
        && o.answer.pkt.opcode == (if p.opcode == 0x67 || p.opcode == 0x68 then 0x69 else 0x3A)
        && o.state.mem ==
           f.mem[p.dst := Assign(f.mem[p.dst], offset, offset + 8, Be(NextWord(RmwOf(p), w), 8))]
  {
    hide Router.ValidateAccess, UnBe, Be, UpdateWord, RmwOf, Assign;
    KeepIsRewrite(f.mem[p.dst], offset);
    assert f.mem[p.dst := f.mem[p.dst]] == f.mem;
  }

  lemma WordBounds(m: seq<byte>, offset: nat)
    requires offset + 8 <= |m|
    ensures IsWord(WordIn(m, offset))
  {
    hide UnBe, Be;
    PackOfUnpack(m[offset..offset + 8]);
    PowerValues();
  }

  /** Writing a word and reading it back. */
  lemma WordStored(m: seq<byte>, offset: nat, w: nat)
    requires offset + 8 <= |m| && IsWord(w)
    ensures var next := Assign(m, offset, offset + 8, Be(w, 8));
      && |next| == |m| && WordIn(next, offset) == w
      && forall a :: 0 <= a < |m| && !(offset <= a < offset + 8) ==> next[a] == m[a]
  {
    hide UnBe, Be;
    PowerValues();
    UnpackOfPack(w, 8);
    OverwriteAt(m, offset, Be(w, 8));
    assert Assign(m, offset, offset + 8, Be(w, 8))[offset..offset + 8] == Be(w, 8);
  }

  /** An atomic packet: the handler raises exactly if the word it would pack is out of range; otherwise it
      answers the old word, the word becomes what the opcode says, and no other cell changes. */
  lemma AtomicExact(c: Cip.Crypto, f: State, p: Pkt, offset: nat, v: int, compare: int)
    requires AsksWord(c, f, p, offset, v, compare)
    ensures var o := Process(c, f, p);
      var m := f.mem[p.dst];
      var w := WordIn(m, offset);
      if CannotPack(p.opcode, w, v, compare) then o.answer.Raises? && o.state.mem == f.mem
      else
        && o.answer.Reply? && o.answer.pkt.meta.report == Original(w)
        && o.answer.pkt.opcode == (if p.opcode == 0x67 || p.opcode == 0x68 then 0x69 else 0x3A)
        && o.state.mem.Keys == f.mem.Keys && (forall n :: n in f.mem && n != p.dst ==> o.state.mem[n] == f.mem[n])
        && |o.state.mem[p.dst]| == |m|
        && WordBecomes(p.opcode, w, v, compare, WordIn(o.state.mem[p.dst], offset))
        && forall a :: 0 <= a < |m| && !(offset <= a < offset + 8) ==> o.state.mem[p.dst][a] == m[a]
  {
    hide Process, Gate, HandleAtomic, UpdateWord, RmwOf, NextWord, WordIn, Be, Assign, WordBecomes;
    hide Router.ValidateAccess;
    var m := f.mem[p.dst];
    var w := WordIn(m, offset);
    ProcessOfAtomic(c, f, p);
    WordHandled(f, p, offset);
    WordBounds(m, offset);
    UpdateExact(p, w, v, compare);
    if !CannotPack(p.opcode, w, v, compare) {
      WordStored(m, offset, NextWord(RmwOf(p), w));
    }
  }

  /** Past the memory, or on a node that is not connected, nothing is stored and the answer is zero. */
  lemma AtomicOutside(c: Cip.Crypto, f: State, p: Pkt, offset: nat)
    requires p.opcode in {0x34, 0x35, 0x36, 0x37, 0x39, 0x67, 0x68} && Gate(c, f, p).1.Plain?
    requires p.meta.segmentId.Some? && Carries(p.meta.offset, 0, offset)
    requires Router.ValidateAccess(f.table, p.dst, p.meta.segmentId.value, offset, 8, true, p.token) == Router.Granted
    requires p.dst !in f.mem || offset + 8 > |f.mem[p.dst]|
    ensures var o := Process(c, f, p);
      && o.state.mem == f.mem && o.answer.Reply? && o.answer.pkt.meta.report == Original(0)
      && o.answer.pkt.opcode == (if p.opcode == 0x67 || p.opcode == 0x68 then 0x69 else 0x3A)
  {
    hide Process, Gate, UpdateWord, RmwOf, UnBe, Be, Router.ValidateAccess;
    ProcessOfAtomic(c, f, p);
  }
}
