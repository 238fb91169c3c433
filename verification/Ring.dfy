// demonstrators/demo_hccl_ring.c: the schedule of the ring all-reduce, for any number of ranks n >= 2, and
// the index paths it induces. What the transfers do to memory is in RingRun.
module Ring {
  import opened Arith

  /** (r - step + 2 * NUM_RANKS) % NUM_RANKS; the dividend is never negative in the loop. */
  function Chunk(r: nat, step: nat, n: nat): (c: nat)
    requires r < n && step < 2 * (n - 1)
    ensures c < n
  {
    (r - step + 2 * n) % n
  }

  function NextRank(r: nat, n: nat): (q: nat)
    requires r < n
    ensures q < n
  {
    (r + 1) % n
  }

  /** One urma_write of the inner loop; source and destination offsets are equal. */
  datatype Send = Send(rank: nat, to: nat, chunk: nat, offset: nat, length: nat)

  function SendAt(step: nat, r: nat, n: nat, tensorBytes: nat): Send
    requires r < n && step < 2 * (n - 1)
  {
    Send(r, NextRank(r, n), Chunk(r, step, n), Chunk(r, step, n) * (tensorBytes / n), tensorBytes / n)
  }

  /** The sends of the ranks below |row| at one step. */
  predicate IsRow(row: seq<Send>, step: nat, n: nat, tensorBytes: nat)
    requires |row| <= n && step < 2 * (n - 1)
  {
    forall r :: 0 <= r < |row| ==> row[r] == SendAt(step, r, n, tensorBytes)
  }

  predicate IsSchedule(steps: seq<seq<Send>>, n: nat, tensorBytes: nat)
    requires n >= 2 && |steps| <= 2 * (n - 1)
  {
    forall s :: 0 <= s < |steps| ==> |steps[s]| == n && IsRow(steps[s], s, n, tensorBytes)
  }

  method RingSteps(n: nat, tensorBytes: nat) returns (steps: seq<seq<Send>>)
    requires n >= 2
    ensures |steps| == 2 * (n - 1) && IsSchedule(steps, n, tensorBytes)
  {
    steps := [];
    var chunkBytes := tensorBytes / n;
    for step := 0 to 2 * (n - 1)
      invariant |steps| == step && IsSchedule(steps, n, tensorBytes)
    {
      var sends: seq<Send> := [];
      for r := 0 to n
        invariant |sends| == r && IsRow(sends, step, n, tensorBytes)
      {
        var sendChunk := (r - step + 2 * n) % n;
        var send := Send(r, NextRank(r, n), sendChunk, sendChunk * chunkBytes, chunkBytes);
        assert send == SendAt(step, r, n, tensorBytes);
        sends := sends + [send];
      }
      hide SendAt, IsRow;
      steps := steps + [sends];
    }
  }

  // ---------- the path of a chunk ----------

  /** The rank that sends chunk c at a step, and holds it before that step. */
  function Sender(c: nat, step: nat, n: nat): (r: nat)
    requires c < n
    ensures r < n
  {
    (c + step) % n
  }

  /** At every step each chunk is sent by exactly one rank: no two ranks send the same chunk. */
  lemma OneSenderPerChunk(c: nat, r: nat, step: nat, n: nat)
    requires c < n && r < n && step < 2 * (n - 1)
    ensures Chunk(r, step, n) == c <==> r == Sender(c, step, n)
  {
    ModFold(c + step, n);
    ModFold(r - step + 2 * n, n);
  }

  lemma DistinctChunks(r: nat, q: nat, step: nat, n: nat)
    requires r < n && q < n && r != q && step < 2 * (n - 1)
    ensures Chunk(r, step, n) != Chunk(q, step, n)
  {
    OneSenderPerChunk(Chunk(r, step, n), r, step, n);
    OneSenderPerChunk(Chunk(r, step, n), q, step, n);
  }

  /** At step s + 1 every rank sends on the chunk it received at step s. */
  lemma ForwardsWhatItReceived(r: nat, step: nat, n: nat)
    requires r < n && step + 1 < 2 * (n - 1)
    ensures Chunk(NextRank(r, n), step + 1, n) == Chunk(r, step, n)
  {
    ModFold(r + 1, n);
    ModFold(r - step + 2 * n, n);
    ModFold(NextRank(r, n) - (step + 1) + 2 * n, n);
  }

  /** The path of a chunk is contiguous on the ring. */
  lemma PathIsContiguous(c: nat, step: nat, n: nat)
    requires c < n && step + 1 < 2 * n
    ensures Sender(c, step + 1, n) == NextRank(Sender(c, step, n), n)
  {
    ModFold(c + step, n);
    ModFold(c + step + 1, n);
    ModFold(Sender(c, step, n) + 1, n);
  }

  /** Distance of a rank from the chunk's first sender, along the ring. */
  function Distance(c: nat, r: nat, n: nat): (d: nat)
    requires c < n && r < n
    ensures d < n
  {
    if r >= c then r - c else r + n - c
  }

  /** Rank r is on the chunk's path exactly at its distance and, one round later, at its distance plus n. */
  lemma VisitsIff(c: nat, r: nat, step: nat, n: nat)
    requires c < n && r < n && step < 2 * n
    ensures Sender(c, step, n) == r <==> step == Distance(c, r, n) || step == Distance(c, r, n) + n
  {
    ModFold(c + step, n);
  }

  // ---------- index paths ----------

  // A chain of sends of chunk c, each made by the rank the former was addressed to, is a path of indices. The
  // demonstrator sends from host tensors that no transfer writes, so no data moves along these paths (see
  // RingRun); they are what a receiver that combines and passes on would rely on.

  /** The ranks from which a chain of sends of chunk c, in step order, leads to rank r in the first steps. */
  ghost function Origins(c: nat, r: nat, step: nat, n: nat): set<nat>
    requires c < n && r < n && step <= 2 * (n - 1)
    decreases step
  {
    if step == 0 then {r}
    else
      var from := Sender(c, step - 1, n);
      if NextRank(from, n) == r then Origins(c, r, step - 1, n) + Origins(c, from, step - 1, n)
      else Origins(c, r, step - 1, n)
  }

  /** Rank q sends chunk c at some step t, and the chain of sends from there reaches r by step u. */
  ghost predicate Leads(c: nat, q: nat, r: nat, step: nat, n: nat)
    requires c < n
  {
    q == r || exists t: nat, u: nat :: t < u <= step && Sender(c, t, n) == q && Sender(c, u, n) == r
  }

  /** The ranks at distance at most d. */
  ghost function Arc(c: nat, d: nat, n: nat): set<nat>
    requires c < n
  {
    set q: nat | q < n && Distance(c, q, n) <= d
  }

  ghost function All(n: nat): set<nat>
  {
    set q: nat | q < n && IsRank(q, n)
  }

  predicate IsRank(q: nat, n: nat)
  {
    q < n
  }

  lemma ArcGrows(c: nat, r: nat, d: nat, n: nat)
    requires c < n && r < n && Distance(c, r, n) == d + 1
    ensures {r} + Arc(c, d, n) == Arc(c, d + 1, n)
  {
  }

  lemma WholeArc(c: nat, d: nat, n: nat)
    requires c < n && d + 1 >= n
    ensures Arc(c, d, n) == All(n)
  {
  }

  /** Exactly from where chains lead to a rank after every step: from itself until the chunk's path comes by,
      then from the arc of ranks the path has passed, and after the second round from everywhere. */
  lemma {:induction false} OriginsExactly(c: nat, r: nat, step: nat, n: nat)
    requires c < n && r < n && step <= 2 * (n - 1)
    ensures Origins(c, r, step, n) ==
      if step >= Distance(c, r, n) + n then All(n)
      else if step >= Distance(c, r, n) then Arc(c, Distance(c, r, n), n)
      else {r}
    decreases step
  {
    var d := Distance(c, r, n);
    if step == 0 {
      assert d == 0 ==> Arc(c, 0, n) == {r};
    } else {
      var from := Sender(c, step - 1, n);
      OriginsExactly(c, r, step - 1, n);
      OriginsExactly(c, from, step - 1, n);
      PathIsContiguous(c, step - 1, n);
      VisitsIff(c, from, step - 1, n);
      VisitsIff(c, r, step, n);
      if NextRank(from, n) == r {
        OriginsOfReceiver(c, r, from, step, n);
      }
    }
  }

  lemma OriginsOfReceiver(c: nat, r: nat, from: nat, step: nat, n: nat)
    requires c < n && r < n && from < n && 1 <= step <= 2 * (n - 1)
    requires step == Distance(c, r, n) || step == Distance(c, r, n) + n
    requires step - 1 == Distance(c, from, n) || step - 1 == Distance(c, from, n) + n
    ensures var d := Distance(c, r, n);
      var e := Distance(c, from, n);
      (if step - 1 >= d then Arc(c, d, n) else {r}) + (if step - 1 >= e + n then All(n) else Arc(c, e, n))
      == if step >= d + n then All(n) else Arc(c, d, n)
  {
    var d := Distance(c, r, n);
    var e := Distance(c, from, n);
    if step == d {
      ArcGrows(c, r, e, n);
    } else if step - 1 == e {
      WholeArc(c, e, n);
    }
  }

  /** The recursion gathers exactly the ranks the sends of the chunk lead from. */
  lemma OriginsArePaths(c: nat, q: nat, r: nat, step: nat, n: nat)
    requires c < n && q < n && r < n && step <= 2 * (n - 1)
    ensures q in Origins(c, r, step, n) <==> Leads(c, q, r, step, n)
  {
    OriginsExactly(c, r, step, n);
    var d, e := Distance(c, r, n), Distance(c, q, n);
    assert IsRank(q, n);
    if q != r {
      PathOf(c, q, e, n);
      PathOf(c, r, d, n);
      if step >= d + n {
        assert e < d + n <= step && Sender(c, e, n) == q && Sender(c, d + n, n) == r;
      } else if step >= d && e < d {
        assert e < d <= step && Sender(c, e, n) == q && Sender(c, d, n) == r;
      } else if Leads(c, q, r, step, n) {
        var t: nat, u: nat :| t < u <= step && Sender(c, t, n) == q && Sender(c, u, n) == r;
        VisitsIff(c, q, t, n);
        VisitsIff(c, r, u, n);
        SameDistance(c, q, r, n);
      }
    }
  }

  lemma PathOf(c: nat, r: nat, d: nat, n: nat)
    requires c < n && r < n && d == Distance(c, r, n)
    ensures Sender(c, d, n) == r && Sender(c, d + n, n) == r
  {
    VisitsIff(c, r, d, n);
    VisitsIff(c, r, d + n, n);
  }

  lemma SameDistance(c: nat, q: nat, r: nat, n: nat)
    requires c < n && q < n && r < n && Distance(c, q, n) == Distance(c, r, n)
    ensures q == r
  {
  }

  /** After 2(n - 1) steps chains lead from every rank to every rank. */
  lemma AllPathsComplete(c: nat, r: nat, n: nat)
    requires n >= 2 && c < n && r < n
    ensures Origins(c, r, 2 * (n - 1), n) == All(n)
  {
    OriginsExactly(c, r, 2 * (n - 1), n);
    if Distance(c, r, n) == n - 1 { WholeArc(c, n - 1, n); }
  }

  /** No fewer steps do: one step earlier exactly the last receiver of each chunk is not reached from all. */
  lemma NoStepIsSpare(c: nat, r: nat, n: nat)
    requires n >= 2 && c < n && r < n
    ensures Origins(c, r, 2 * n - 3, n) != All(n) <==> Distance(c, r, n) == n - 2
  {
    var d := Distance(c, r, n);
    OriginsExactly(c, r, 2 * n - 3, n);
    if d == n - 1 {
      WholeArc(c, d, n);
    } else if d == n - 2 {
      ArcMissesLast(c, d, n);
    }
  }

  lemma ArcMissesLast(c: nat, d: nat, n: nat)
    requires c < n && d + 1 < n
    ensures Arc(c, d, n) != All(n)
  {
    var missing := if c >= 1 then c - 1 else n - 1;
    assert IsRank(missing, n) && missing in All(n) && missing !in Arc(c, d, n);
  }

  /** After the first n - 1 steps the path has passed every rank: exactly its last receiver is reached from
      all. */
  lemma FirstRoundEndsAt(c: nat, r: nat, n: nat)
    requires n >= 2 && c < n && r < n
    ensures Origins(c, r, n - 1, n) == All(n) <==> r == Sender(c, n - 1, n)
  {
    OriginsExactly(c, r, n - 1, n);
    VisitsIff(c, r, n - 1, n);
    var d := Distance(c, r, n);
    if d == n - 1 {
      WholeArc(c, d, n);
    } else {
      ArcMissesLast(c, d, n);
    }
  }

  // ---------- byte ranges ----------

  predicate InChunk(a: nat, c: nat, chunkBytes: nat)
  {
    c * chunkBytes <= a < c * chunkBytes + chunkBytes
  }

  predicate Covered(a: nat, n: nat, chunkBytes: nat)
  {
    exists c: nat :: c < n && InChunk(a, c, chunkBytes)
  }

  lemma ChunksDisjoint(a: nat, c: nat, d: nat, chunkBytes: nat)
    requires InChunk(a, c, chunkBytes) && InChunk(a, d, chunkBytes)
    ensures c == d
  {
    if c < d {
      MulMonotone(c + 1, d, chunkBytes);
    } else if d < c {
      MulMonotone(d + 1, c, chunkBytes);
    }
  }

  /** Every send lies in the tensor, whatever its size. */
  lemma SendsInBounds(step: nat, r: nat, n: nat, tensorBytes: nat)
    requires n >= 2 && r < n && step < 2 * (n - 1)
    ensures var s := SendAt(step, r, n, tensorBytes);
      s.offset + s.length <= tensorBytes
  {
    var b := tensorBytes / n;
    MulMonotone(Chunk(r, step, n) + 1, n, b);
    assert tensorBytes == n * b + tensorBytes % n;
  }

  /** The chunk ranges, which never overlap, cover the tensor exactly if n divides its size. */
  lemma ChunksPartitionIff(n: nat, tensorBytes: nat)
    requires n >= 2
    ensures (forall a: nat :: a < tensorBytes ==> Covered(a, n, tensorBytes / n)) <==> tensorBytes % n == 0
  {
    var b := tensorBytes / n;
    assert tensorBytes == n * b + tensorBytes % n;
    if tensorBytes % n == 0 {
      forall a: nat | a < tensorBytes
        ensures Covered(a, n, b)
      {
        var c := a / b;
        assert a == b * c + a % b;
        if c >= n { MulMonotone(n, c, b); }
        assert InChunk(a, c, b);
      }
    } else {
      var last := tensorBytes - 1;
      forall c: nat | c < n
        ensures !InChunk(last, c, b)
      {
        MulMonotone(c + 1, n, b);
      }
      assert !Covered(last, n, b);
    }
  }
}
