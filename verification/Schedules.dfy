/** The scheduler: two endless streams, each repeating a finite list of samples. */
module Schedules {
  import opened Options

  lemma NextModulo(k: nat, n: nat)
    requires 0 < n
    ensures (k + 1) % n == if k % n + 1 == n then 0 else k % n + 1
  {
    var q := k / n;
    assert k == q * n + k % n;
    if k % n + 1 == n {
      assert k + 1 == (q + 1) * n by { assert (q + 1) * n == q * n + n; }
      ModuloIs(k + 1, n, q + 1, 0);
    } else {
      ModuloIs(k + 1, n, q, k % n + 1);
    }
  }

  lemma ModuloIs(x: nat, n: nat, q: nat, r: nat)
    requires r < n && x == q * n + r
    ensures x % n == r
  {
    assert (x / n) * n + x % n == x;
    assert (x / n - q) * n == (x / n) * n - q * n;
    SmallMultiple(x / n - q, n);
  }

  lemma SmallMultiple(d: int, n: int)
    requires 0 < n && -n < d * n < n
    ensures d == 0
  {
    assert 1 <= d ==> n <= d * n;
    assert d <= -1 ==> d * n <= -n;
  }

  /** The samples of n consecutive calls, the first one being call k + 1. */
  function Window<T>(s: seq<T>, k: nat): seq<T> {
    seq(|s|, j requires 0 <= j < |s| => s[(k + 1 + j) % |s|])
  }

  function Sum(s: seq<real>): real {
    if s == [] then 0.0 else s[0] + Sum(s[1..])
  }

  lemma {:induction false} SumConcat(a: seq<real>, b: seq<real>)
    ensures Sum(a + b) == Sum(a) + Sum(b)
  {
    if a == [] {
      assert a + b == b;
    } else {
      SumConcat(a[1..], b);
      assert (a + b)[1..] == a[1..] + b;
    }
  }

  lemma {:induction false} ShiftModulo(k: nat, j: nat, n: nat)
    requires j < n
    ensures (k + j) % n == if k % n + j < n then k % n + j else k % n + j - n
  {
    if j == 0 {
    } else {
      ShiftModulo(k, j - 1, n);
      NextModulo(k + (j - 1), n);
      assert k + (j - 1) + 1 == k + j;
    }
  }

  /** Consecutive samples are the list, rotated. */
  lemma WindowRotates<T>(s: seq<T>, k: nat)
    requires s != []
    ensures Window(s, k) == s[(k + 1) % |s|..] + s[..(k + 1) % |s|]
  {
    var n, r := |s|, (k + 1) % |s|;
    forall j | 0 <= j < n ensures Window(s, k)[j] == (s[r..] + s[..r])[j] {
      ShiftModulo(k + 1, j, n);
    }
  }

  /** As many consecutive calls as there are samples return every sample once, and add up to the
      total of the list, wherever they start. */
  lemma WindowSum(s: seq<real>, k: nat)
    requires s != []
    ensures multiset(Window(s, k)) == multiset(s) && Sum(Window(s, k)) == Sum(s)
  {
    var r := (k + 1) % |s|;
    WindowRotates(s, k);
    assert s == s[..r] + s[r..];
    SumConcat(s[..r], s[r..]);
    SumConcat(s[r..], s[..r]);
  }

  class Scheduler {
    const interBurstTimes: seq<real>
    const burstSizes: seq<int>
    var iBtime: nat
    var iBsize: nat
    // how often each stream has been drawn from
    ghost var timeCalls: nat
    ghost var sizeCalls: nat

    /** Each cursor is the number of calls modulo the number of samples. */
    ghost predicate Valid()
      reads this
    {
      && |interBurstTimes| == |burstSizes|
      && iBtime == (if interBurstTimes == [] then 0 else timeCalls % |interBurstTimes|)
      && iBsize == (if burstSizes == [] then 0 else sizeCalls % |burstSizes|)
    }

    constructor (interBurstTimes: seq<real>, burstSizes: seq<int>)
      requires |interBurstTimes| == |burstSizes|
      ensures Valid() && timeCalls == sizeCalls == 0
      ensures this.interBurstTimes == interBurstTimes && this.burstSizes == burstSizes
    {
      this.interBurstTimes, this.burstSizes := interBurstTimes, burstSizes;
      iBtime, iBsize, timeCalls, sizeCalls := 0, 0, 0, 0;
    }

    /** The k-th call returns sample k modulo the number of samples; without samples it fails. */
    method NextInterBurstTime() returns (x: Option<real>)
      requires Valid()
      modifies this`iBtime, this`timeCalls
      ensures Valid() && timeCalls == old(timeCalls) + 1
      ensures x == if interBurstTimes == [] then None else Some(interBurstTimes[timeCalls % |interBurstTimes|])
    {
      if interBurstTimes != [] { NextModulo(timeCalls, |interBurstTimes|); }
      timeCalls := timeCalls + 1;
      iBtime := iBtime + 1;
      if iBtime + 1 > |interBurstTimes| { iBtime := 0; }
      if iBtime >= |interBurstTimes| { return None; }
      x := Some(interBurstTimes[iBtime]);
    }

    method NextBurstSize() returns (x: Option<int>)
      requires Valid()
      modifies this`iBsize, this`sizeCalls
      ensures Valid() && sizeCalls == old(sizeCalls) + 1
      ensures x == if burstSizes == [] then None else Some(burstSizes[sizeCalls % |burstSizes|])
    {
      if burstSizes != [] { NextModulo(sizeCalls, |burstSizes|); }
      sizeCalls := sizeCalls + 1;
      iBsize := iBsize + 1;
      if iBsize + 1 > |burstSizes| { iBsize := 0; }
      if iBsize >= |burstSizes| { return None; }
      x := Some(burstSizes[iBsize]);
    }
  }
}
