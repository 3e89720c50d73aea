/** Pacing: how a rate that is not a whole number per burst is kept exactly. */
module Pacing {

  /** The settings that `pps` derives from the rate and the send interval (in milliseconds). */
  class Settings {
    var pps: nat
    var sendInterval: real
    var burstRateReal: real
    var burstRate: int
    var missingPacketsPerSendInterval: real

    /** The burst rate is what is due per interval, split into a whole part and a fraction. */
    ghost predicate Set()
      reads this
    {
      && 0 < pps
      && burstRateReal * 1000.0 == pps as real * sendInterval && 1.0 <= burstRateReal
      && burstRate as real + missingPacketsPerSendInterval == burstRateReal
      && 1 <= burstRate && 0.0 <= missingPacketsPerSendInterval < 1.0
    }

    /** What is due after k intervals. */
    ghost function Due(k: nat): int
      reads this
    {
      (k as real * (pps as real * sendInterval) / 1000.0).Floor
    }

    lemma DueIs(k: nat)
      requires Set()
      ensures Due(k) == (k as real * burstRateReal).Floor
    {
      TimesThousand(k as real, burstRateReal, pps as real * sendInterval);
    }

    constructor (sendInterval: real)
      ensures this.sendInterval == sendInterval
    {
      this.sendInterval := sendInterval;
      pps, burstRateReal, burstRate, missingPacketsPerSendInterval := 0, 0.0, 0, 0.0;
    }

    /** Set the rate. The interval is stretched if it is too short for a whole message; a burst is
        then the whole part of what is due per interval, at least one message, and the missing part
        is its fraction. */
    method SetPps(pps: nat)
      requires 0 < pps
      modifies this
      ensures Set() && this.pps == pps
      ensures burstRateReal == pps as real * sendInterval / 1000.0 && burstRate == burstRateReal.Floor
      ensures 1 <= burstRate && missingPacketsPerSendInterval == burstRateReal - burstRate as real
      ensures sendInterval == old(sendInterval)
        || (old(sendInterval) < sendInterval && pps as real * sendInterval == 1000.0)
    {
      this.pps := pps;
      LeastInterval(sendInterval, pps as real);
      if sendInterval < 1000.0 / pps as real {
        sendInterval := 1000.0 / pps as real;
      }
      burstRateReal := pps as real * sendInterval / 1000.0;
      burstRate := burstRateReal.Floor;
      missingPacketsPerSendInterval := burstRateReal - burstRate as real;
    }
  }

  lemma TimesThousand(k: real, rate: real, due: real)
    requires rate * 1000.0 == due
    ensures k * due / 1000.0 == k * rate
  {
    assert k * due == k * rate * 1000.0;
  }

  lemma LeastInterval(interval: real, pps: real)
    requires 1.0 <= pps
    ensures pps * (1000.0 / pps) == 1000.0
    ensures 1000.0 / pps <= interval ==> 1000.0 <= pps * interval
  {
    if 1000.0 / pps <= interval { Monotonic(1000.0 / pps, interval, pps); }
  }

  lemma Monotonic(x: real, y: real, z: real)
    requires x <= y && 0.0 <= z
    ensures z * x <= z * y
  {
  }

  // ----- the carry -----

  /** Messages sent to a connection so far, and the fraction of a message still owed. */
  datatype Pace = Pace(sent: int, carry: real)

  /** One burst of the given scheduled size. */
  function Burst(p: Pace, size: int, missing: real): Pace {
    var owed := p.carry + missing;
    var extra := owed.Floor;
    Pace(p.sent + size + extra, if extra > 0 then owed - extra as real else owed)
  }

  function Bursts(p: Pace, sizes: seq<int>, missing: real): Pace {
    if sizes == [] then p
    else Burst(Bursts(p, sizes[..|sizes| - 1], missing), sizes[|sizes| - 1], missing)
  }

  function Total(sizes: seq<int>): int {
    if sizes == [] then 0 else Total(sizes[..|sizes| - 1]) + sizes[|sizes| - 1]
  }

  function Times(k: nat, x: real): real {
    if k == 0 then 0.0 else Times(k - 1, x) + x
  }

  lemma {:induction false} TimesIsProduct(k: nat, x: real)
    ensures Times(k, x) == k as real * x
  {
    if k > 0 {
      TimesIsProduct(k - 1, x);
      OneMore((k - 1) as real, x);
      assert k as real == (k - 1) as real + 1.0;
    }
  }

  lemma OneMore(a: real, x: real)
    ensures (a + 1.0) * x == a * x + x
  {
  }

  lemma BurstStep(p: Pace, owed: real, total: int, size: int, missing: real)
    requires 0.0 <= p.carry < 1.0 && 0.0 <= missing < 1.0
    requires p.sent == total + owed.Floor && p.carry == owed - owed.Floor as real
    ensures var q := Burst(p, size, missing);
      && q.sent == total + size + (owed + missing).Floor
      && q.carry == owed + missing - (owed + missing).Floor as real
      && 0.0 <= q.carry < 1.0
  {
  }

  lemma {:induction false} PaceSum(p: Pace, sizes: seq<int>, missing: real)
    requires 0.0 <= p.carry < 1.0 && 0.0 <= missing < 1.0
    ensures var q, owed := Bursts(p, sizes, missing), p.carry + Times(|sizes|, missing);
      && 0.0 <= q.carry < 1.0
      && q.sent == p.sent + Total(sizes) + owed.Floor
      && q.carry == owed - owed.Floor as real
  {
    hide Burst;
    if sizes != [] {
      var k := |sizes| - 1;
      PaceSum(p, sizes[..k], missing);
      BurstStep(Bursts(p, sizes[..k], missing), p.carry + Times(k, missing), p.sent + Total(sizes[..k]),
                sizes[k], missing);
    }
  }

  /** Whatever the burst sizes: after k bursts the connection has been sent their total, and as many
      messages more as are whole in k times the missing fraction; the rest is carried, never a whole one. */
  lemma PaceOf(p: Pace, sizes: seq<int>, missing: real)
    requires 0.0 <= p.carry < 1.0 && 0.0 <= missing < 1.0
    ensures Bursts(p, sizes, missing).sent == p.sent + Total(sizes) + (p.carry + |sizes| as real * missing).Floor
    ensures 0.0 <= Bursts(p, sizes, missing).carry < 1.0
  {
    hide Bursts, Total, Times;
    PaceSum(p, sizes, missing);
    TimesIsProduct(|sizes|, missing);
  }

  /** With uniform bursts of the whole part of the rate, the pacing is exact: after k bursts, exactly
      the whole part of k times the rate has been sent, and the rest is carried. */
  lemma ExactPacing(sizes: seq<int>, rate: real)
    requires forall i | 0 <= i < |sizes| :: sizes[i] == rate.Floor
    ensures var q := Bursts(Pace(0, 0.0), sizes, rate - rate.Floor as real);
      && q.sent == (|sizes| as real * rate).Floor
      && q.carry == |sizes| as real * rate - q.sent as real
      && 0.0 <= q.carry < 1.0
  {
    hide Bursts, Total, Times;
    var missing, k := rate - rate.Floor as real, |sizes|;
    PaceSum(Pace(0, 0.0), sizes, missing);
    UniformTotal(sizes, rate.Floor);
    TimesSplits(k, rate.Floor, missing);
    TimesIsProduct(k, rate);
    FloorOfWhole(Total(sizes), Times(k, missing));
  }

  lemma {:induction false} TimesSplits(k: nat, n: int, x: real)
    ensures Times(k, n as real + x) == (k * n) as real + Times(k, x)
  {
    if k > 0 {
      TimesSplits(k - 1, n, x);
      assert k * n == (k - 1) * n + n;
    }
  }

  lemma FloorOfWhole(n: int, x: real)
    ensures (n as real + x).Floor == n + x.Floor
  {
  }

  lemma {:induction false} UniformTotal(sizes: seq<int>, n: int)
    requires forall i | 0 <= i < |sizes| :: sizes[i] == n
    ensures Total(sizes) == |sizes| * n
  {
    if sizes != [] {
      UniformTotal(sizes[..|sizes| - 1], n);
      assert |sizes| * n == (|sizes| - 1) * n + n;
    }
  }
}
