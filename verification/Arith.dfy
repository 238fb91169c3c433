// Products and remainders with a variable modulus, and sums of sequences.
module Arith {
  lemma ModUnique(n: nat, m: nat, q: nat, r: nat)
    requires m > 0 && n == m * q + r && r < m
    ensures n % m == r
  {
    RemainderUnique(m, n / m, n % m, q, r);
  }

  lemma RemainderUnique(m: nat, p: nat, t: nat, q: nat, r: nat)
    requires m * p + t == m * q + r && t < m && r < m
    ensures t == r
  {
    if p > q {
      MulGap(m, p, q);
    } else if p < q {
      MulGap(m, q, p);
    }
  }

  lemma {:induction false} MulGap(m: nat, a: nat, b: nat)
    requires a > b
    ensures m * a >= m * b + m
    decreases a
  {
    assert m * a == m * (a - 1) + m;
    if a - 1 > b { MulGap(m, a - 1, b); }
  }

  lemma {:induction false} MulMonotone(a: nat, b: nat, m: nat)
    requires a <= b
    ensures a * m <= b * m
    decreases b
  {
    if a < b {
      MulMonotone(a, b - 1, m);
      assert b * m == (b - 1) * m + m;
    }
  }

  lemma ModShift(x: nat, n: nat)
    requires n > 0
    ensures (x + n) % n == x % n
  {
    assert x + n == n * (x / n + 1) + x % n;
    ModUnique(x + n, n, x / n + 1, x % n);
  }

  /** Remainders of numbers below four times the modulus. */
  lemma ModFold(x: nat, n: nat)
    requires n > 0 && x < 4 * n
    ensures x % n == if x < n then x else if x < 2 * n then x - n else if x < 3 * n then x - 2 * n else x - 3 * n
  {
    if x >= n { ModShift(x - n, n); }
    if x >= 2 * n { ModShift(x - 2 * n, n); }
    if x >= 3 * n { ModShift(x - 3 * n, n); }
    var rest := if x < n then x else if x < 2 * n then x - n else if x < 3 * n then x - 2 * n else x - 3 * n;
    ModUnique(rest, n, 0, rest);
  }

  // ---------- sums ----------

  function Sum(xs: seq<int>): int
  {
    if xs == [] then 0 else Sum(xs[..|xs| - 1]) + xs[|xs| - 1]
  }

  lemma {:induction false} SumUpdate(xs: seq<int>, i: nat, v: int)
    requires i < |xs|
    ensures Sum(xs[i := v]) == Sum(xs) - xs[i] + v
    decreases |xs|
  {
    var last := |xs| - 1;
    if i == last {
      assert xs[i := v][..last] == xs[..last];
    } else {
      assert xs[i := v][..last] == xs[..last][i := v];
      SumUpdate(xs[..last], i, v);
    }
  }

  lemma SumAppend(xs: seq<int>, v: int)
    ensures Sum(xs + [v]) == Sum(xs) + v
  {
    assert (xs + [v])[..|xs|] == xs;
  }

  lemma {:induction false} SumDifference(xs: seq<int>, ys: seq<int>, zs: seq<int>)
    requires |xs| == |ys| == |zs|
    requires forall i :: 0 <= i < |xs| ==> zs[i] == xs[i] - ys[i]
    ensures Sum(zs) == Sum(xs) - Sum(ys)
    decreases |xs|
  {
    if xs != [] {
      var last := |xs| - 1;
      SumDifference(xs[..last], ys[..last], zs[..last]);
    }
  }

  lemma {:induction false} SumOfZeros(xs: seq<int>)
    requires forall i :: 0 <= i < |xs| ==> xs[i] == 0
    ensures Sum(xs) == 0
    decreases |xs|
  {
    if xs != [] { SumOfZeros(xs[..|xs| - 1]); }
  }

  lemma {:induction false} SumTakeOut(xs: seq<int>, i: nat)
    requires i < |xs|
    ensures Sum(xs) == Sum(xs[..i] + xs[i + 1..]) + xs[i]
    decreases |xs|
  {
    var last := |xs| - 1;
    if i == last {
      assert xs[..i] + xs[i + 1..] == xs[..last];
    } else {
      SumTakeOut(xs[..last], i);
      var rest := xs[..i] + xs[i + 1..];
      assert rest[..|rest| - 1] == xs[..last][..i] + xs[..last][i + 1..];
      assert rest[|rest| - 1] == xs[last];
    }
  }

  lemma RemoveOne(ys: seq<int>, i: nat)
    requires i < |ys|
    ensures multiset(ys) == multiset(ys[..i] + ys[i + 1..]) + multiset{ys[i]}
  {
    assert ys == ys[..i] + ([ys[i]] + ys[i + 1..]);
  }

  lemma {:induction false} SumIgnoresOrder(xs: seq<int>, ys: seq<int>)
    requires multiset(xs) == multiset(ys)
    ensures Sum(xs) == Sum(ys)
    decreases |xs|
  {
    if xs == [] {
      assert |multiset(ys)| == 0;
    } else {
      var last := xs[|xs| - 1];
      assert last in multiset(xs);
      var i :| 0 <= i < |ys| && ys[i] == last;
      var rest := ys[..i] + ys[i + 1..];
      assert xs == xs[..|xs| - 1] + [last];
      RemoveOne(ys, i);
      RemoveOne(xs, |xs| - 1);
      assert xs[..|xs| - 1] + xs[|xs|..] == xs[..|xs| - 1];
      assert multiset(xs[..|xs| - 1]) == multiset(xs) - multiset{last};
      SumIgnoresOrder(xs[..|xs| - 1], rest);
      SumTakeOut(ys, i);
    }
  }
}
