/** The packet dispatcher: transaction ids, bursts, and when sending stops. */
module Dispatching {
  import opened Accounting
  import opened History
  import opened Ledger
  import opened Counters
  import Schedules
  import Pacing

  /** Transaction ids set aside for each connection. */
  const XID_SPAN: nat := 10_000_000

  /** The id of request i on connection c, before it is cut to 32 bits. */
  function XidFor(c: nat, i: nat): nat {
    i + XID_SPAN * c + 1
  }

  /** Every request carries the id that its place gives it. */
  ghost predicate Allocated(rows: seq<Row>) {
    forall c, i | 0 <= c < |rows| && 0 <= i < |rows[c].reqs| :: rows[c].reqs[i].xid == XidFor(c, i)
  }

  // ----- what the ids tell -----

  /** Dividing an id by the span gives back its connection exactly up to request 9 999 998. */
  lemma XidTellsConnectionIff(c: nat, i: nat)
    ensures XidFor(c, i) / XID_SPAN == c <==> i < XID_SPAN - 1
  {
  }

  /** Two requests share an id exactly when they are whole spans apart. */
  lemma XidsEqualIff(c: nat, i: nat, d: nat, j: nat)
    ensures XidFor(c, i) == XidFor(d, j) <==> i - j == XID_SPAN * (d - c)
  {
  }

  /** The ids in numbers: connection 0 starts at 1, connection 1 at 10000001, and so on. */
  lemma XidValues(c: nat, i: nat)
    ensures XidFor(0, 0) == 1 && XidFor(1, 0) == 10000001 && XidFor(2, 0) == 20000001
    ensures XidFor(c, i + 1) == XidFor(c, i) + 1 && XidFor(c + 1, i) == XidFor(c, i) + 10000000
  {
  }

  ghost predicate XidsDistinct(rows: seq<Row>) {
    forall c, i, d, j | 0 <= c < |rows| && 0 <= i < |rows[c].reqs| && 0 <= d < |rows| && 0 <= j < |rows[d].reqs| ::
      rows[c].reqs[i].xid == rows[d].reqs[j].xid ==> c == d && i == j
  }

  /** No connection has run over into the span of a later one that has sent something. */
  ghost predicate SpansKept(rows: seq<Row>) {
    forall c, d | 0 <= c < d < |rows| && rows[d].reqs != [] :: |rows[c].reqs| <= XID_SPAN * (d - c)
  }

  /** All ids in use are different exactly when no connection runs over into the span of another
      that has sent something. */
  lemma XidsDistinctIff(rows: seq<Row>)
    requires Allocated(rows)
    ensures XidsDistinct(rows) <==> SpansKept(rows)
  {
    if SpansKept(rows) {
      forall c, i, d, j |
        0 <= c < |rows| && 0 <= i < |rows[c].reqs| && 0 <= d < |rows| && 0 <= j < |rows[d].reqs| &&
        rows[c].reqs[i].xid == rows[d].reqs[j].xid
        ensures c == d && i == j
      {
        XidsEqualIff(c, i, d, j);
      }
    } else {
      var c, d :| 0 <= c < d < |rows| && rows[d].reqs != [] && |rows[c].reqs| > XID_SPAN * (d - c);
      XidsEqualIff(c, XID_SPAN * (d - c), d, 0);
      assert rows[c].reqs[XID_SPAN * (d - c)].xid == rows[d].reqs[0].xid;
    }
  }

  /** With allocated ids, only the first answer of a row can be mistaken: a foreign id is counted for
      the first request exactly when nothing has been answered yet and the id lies below the row's. */
  lemma GapIsBelowFirst(rows: seq<Row>, c: nat, x: nat)
    requires Allocated(rows) && c < |rows| && Aligned(rows[c])
    ensures FallsInGap(rows[c], x) <==> rows[c].reqs != [] && rows[c].resps == [] && 0 < x <= XID_SPAN * c
  {
    var n := |rows[c].resps|;
    if 0 < n < |rows[c].reqs| {
      assert rows[c].reqs[n - 1].xid == XidFor(c, n - 1) && rows[c].reqs[n].xid == XidFor(c, n);
    }
    if n == 0 < |rows[c].reqs| { assert rows[c].reqs[0].xid == XidFor(c, 0); }
  }

  lemma AllocatedMore(rows: seq<Row>, c: nat, m: Message)
    requires Allocated(rows) && c < |rows| && m.xid == XidFor(c, |rows[c].reqs|)
    ensures Allocated(rows[c := Request(rows[c], m)]) && Beyond(rows[c], m.xid)
  {
  }

  /** Every request the dispatcher sends carries the id of its place; anything else may happen between. */
  ghost predicate DispatchedNext(st: State, a: Action) {
    a.On? && a.event.Sent? && a.conn < |st.rows| ==> a.event.m.xid == XidFor(a.conn, |st.rows[a.conn].reqs|)
  }

  ghost predicate Dispatched(acts: seq<Action>) {
    acts != [] ==> Dispatched(acts[..|acts| - 1]) && DispatchedNext(RunAll(acts[..|acts| - 1]), acts[|acts| - 1])
  }

  lemma RespondKeepsRequests(row: Row, m: Message)
    ensures Respond(row, m).reqs == row.reqs
  {}

  lemma ApplyAllocated(st: State, a: Action)
    requires Allocated(st.rows) && DispatchedNext(st, a)
    ensures Allocated(Apply(st, a).rows)
  {
    match a
    case NewInterval =>
    case Connect =>
    case On(c, e) =>
      if c < |st.rows| {
        match e
        case Sent(m) => AllocatedMore(st.rows, c, m);
        case Got(m) => RespondKeepsRequests(st.rows[c], m);
      }
  }

  /** In every reachable state, under every interleaving of the dispatcher's requests with new connections,
      responses with any ids, and reports, request i of connection c carries the id of its place. */
  lemma {:induction false} AllocatedAlways(acts: seq<Action>)
    requires Dispatched(acts)
    ensures Allocated(RunAll(acts).rows)
  {
    if acts == [] {
    } else {
      hide Apply, Allocated, DispatchedNext;
      AllocatedAlways(acts[..|acts| - 1]);
      ApplyAllocated(RunAll(acts[..|acts| - 1]), acts[|acts| - 1]);
    }
  }

  lemma {:induction false} SumUpdate(ns: seq<nat>, c: nat, n: nat)
    requires c < |ns|
    ensures Sum(ns[c := n]) == Sum(ns) - ns[c] + n
  {
    var k := |ns| - 1;
    if c == k {
      assert ns[c := n][..k] == ns[..k];
    } else {
      SumUpdate(ns[..k], c, n);
      assert ns[c := n][..k] == ns[..k][c := n];
    }
  }

  /** n more requests on each of the connections given. */
  ghost predicate Grown(before: seq<nat>, after: seq<nat>, conns: seq<nat>, n: nat) {
    && |after| == |before|
    && (forall c: nat | c < |before| :: after[c] == before[c] + if c in conns then n else 0)
    && Sum(after) == Sum(before) + n * |conns|
  }

  lemma GrowOne(before: seq<nat>, after: seq<nat>, conns: seq<nat>, c: nat)
    requires Grown(before, after, conns, 1) && c !in conns && c < |before|
    ensures Grown(before, after[c := after[c] + 1], conns + [c], 1)
  {
    SumUpdate(after, c, after[c] + 1);
    assert forall d :: d in conns + [c] <==> d in conns || d == c;
  }

  lemma GrowAgain(before: seq<nat>, mid: seq<nat>, after: seq<nat>, conns: seq<nat>, n: nat, k: nat)
    requires Grown(before, mid, conns, n) && Grown(mid, after, conns, k)
    ensures Grown(before, after, conns, n + k)
  {
    assert (n + k) * |conns| == n * |conns| + k * |conns|;
  }

  lemma GrowNone(before: seq<nat>, conns: seq<nat>)
    ensures Grown(before, before, conns, 0) && Grown(before, before, [], 1)
  {
  }

  /** The samples that k calls draw, after `calls` earlier ones. */
  function Drawn(samples: seq<int>, calls: nat, k: nat): seq<int>
    requires samples != []
  {
    seq(k, j requires 0 <= j < k => samples[(calls + 1 + j) % |samples|])
  }

  lemma DrawnMore(samples: seq<int>, calls: nat, k: nat)
    requires samples != []
    ensures Drawn(samples, calls, k + 1) == Drawn(samples, calls, k) + [samples[(calls + 1 + k) % |samples|]]
  {
  }

  /** Readings of the clock, in order: the first one at `from`, and all before `to`. */
  ghost predicate Readings(at: seq<nat>, from: nat, to: nat) {
    && (at != [] ==> at[0] == from)
    && (forall i | 0 <= i < |at| :: from <= at[i] < to)
    && (forall i, j | 0 <= i < j < |at| :: at[i] < at[j])
  }

  ghost predicate AllBefore(clock: nat -> real, at: seq<nat>, deadline: real) {
    forall i | 0 <= i < |at| :: clock(at[i]) < deadline
  }

  lemma OneReadingMore(clock: nat -> real, at: seq<nat>, from: nat, reading: nat, to: nat, deadline: real)
    requires Readings(at, from, reading) && from <= reading < to && (at == [] ==> reading == from)
    ensures Readings(at + [reading], from, to)
    ensures AllBefore(clock, at, deadline) && clock(reading) < deadline ==>
              AllBefore(clock, at + [reading], deadline)
  {}

  lemma NoReadings(clock: nat -> real, from: nat, deadline: real)
    ensures Readings([], from, from) && AllBefore(clock, [], deadline)
  {}

  lemma ReadingsLater(at: seq<nat>, from: nat, to: nat, later: nat)
    requires Readings(at, from, to) && to <= later
    ensures Readings(at, from, later)
  {}

  datatype StopReason = Stopped | Limited

  class Dispatcher {
    const cntr: Counter
    const scheduler: Schedules.Scheduler
    const conns: seq<nat>              // list index of each connection
    const msgBytes: nat
    const msgType: nat
    const missingPerInterval: real
    const clock: nat -> real           // readings of the clock
    const finished: nat -> bool        // readings of the flag that another thread sets
    var ticks: nat
    var missingPackets: real
    var nextBurstTime: real
    var requestingFinished: bool

    /** The connections are established and different, and there are few enough for an 8-bit index. */
    ghost predicate Connected()
      reads cntr
    {
      && cntr.Valid() && Allocated(cntr.Rows())
      && |conns| <= 255
      && (forall c | c in conns :: c < |cntr.connIds|)
      && (forall i, j | 0 <= i < j < |conns| :: conns[i] != conns[j])
    }

    /** Each connection can be given n more ids of 32 bits. */
    ghost predicate Room(n: nat)
      requires cntr.Valid()
      reads this, cntr
    {
      forall c | c in conns && c < |cntr.requests| :: XidFor(c, cntr.requests[c]) + n <= WORD
    }

    constructor (cntr: Counter, scheduler: Schedules.Scheduler, conns: seq<nat>, msgBytes: nat, msgType: nat,
                 missingPerInterval: real, clock: nat -> real, finished: nat -> bool)
      ensures this.cntr == cntr && this.scheduler == scheduler && this.conns == conns
      ensures this.missingPerInterval == missingPerInterval && missingPackets == 0.0 && !requestingFinished
    {
      this.cntr, this.scheduler, this.conns := cntr, scheduler, conns;
      this.msgBytes, this.msgType, this.missingPerInterval := msgBytes, msgType, missingPerInterval;
      this.clock, this.finished := clock, finished;
      ticks, missingPackets, nextBurstTime, requestingFinished := 0, 0.0, 0.0, false;
    }

    method Timestamp() returns (t: real)
      modifies this`ticks
      ensures t == clock(old(ticks)) && ticks == old(ticks) + 1
    {
      t := clock(ticks);
      ticks := ticks + 1;
    }

    /** Send one message on connection c under the next id of that connection. */
    method SendOne(c: nat)
      requires cntr.Valid() && Allocated(cntr.Rows()) && c < |cntr.connIds|
      requires XidFor(c, cntr.requests[c]) < WORD
      modifies this`ticks, cntr`requests, cntr`reqs, cntr`intervalRequests, cntr`reqTotalBytes
      ensures cntr.Valid() && Allocated(cntr.Rows())
      ensures cntr.requests == old(cntr.requests)[c := old(cntr.requests)[c] + 1]
      ensures cntr.Recorded() == Apply(old(cntr.Recorded()),
        On(c, Sent(Message(XidFor(c, old(cntr.requests)[c]), clock(old(ticks)), msgBytes, msgType))))
      ensures ticks == old(ticks) + 1
    {
      hide Uniform, RowsOf, Tallied, Allocated, Ordered, Beyond;
      var xid := (cntr.requests[c] + XID_SPAN * c + 1) % WORD;
      var time := Timestamp();
      TalliedAt(cntr.Rows(), cntr.requests, cntr.responses, c);
      AllocatedMore(cntr.Rows(), c, Message(xid, time, msgBytes, msgType));
      cntr.CountRequest(xid, time, msgBytes, msgType, c);
    }

    /** Send one message on every connection. */
    method SendRound()
      requires Connected() && Room(1)
      modifies this`ticks, cntr`requests, cntr`reqs, cntr`intervalRequests, cntr`reqTotalBytes
      ensures Connected() && Grown(old(cntr.requests), cntr.requests, conns, 1) && old(ticks) <= ticks
    {
      hide Uniform, RowsOf, Tallied, Allocated, Grown;
      GrowNone(cntr.requests, conns);
      for c := 0 to |conns|
        invariant cntr.Valid() && Allocated(cntr.Rows()) && old(ticks) <= ticks
        invariant Grown(old(cntr.requests), cntr.requests, conns[..c], 1)
      {
        var index := conns[c];
        assert index in conns && index !in conns[..c];
        GrownAt(old(cntr.requests), cntr.requests, conns[..c], 1, index);
        GrowOne(old(cntr.requests), cntr.requests, conns[..c], index);
        SendOne(index);
        assert conns[..c + 1] == conns[..c] + [index];
      }
      assert conns[..|conns|] == conns;
    }
  
    /** A burst: so many messages on every connection. */
    method SendBurst(n: nat)
      requires Connected() && Room(n)
      modifies this`ticks, cntr`requests, cntr`reqs, cntr`intervalRequests, cntr`reqTotalBytes
      ensures Connected() && Grown(old(cntr.requests), cntr.requests, conns, n) && old(ticks) <= ticks
    {
      hide Uniform, RowsOf, Tallied, Allocated, Grown;
      GrowNone(cntr.requests, conns);
      for a := 0 to n
        invariant Connected() && Grown(old(cntr.requests), cntr.requests, conns, a) && old(ticks) <= ticks
      {
        forall c | c in conns ensures XidFor(c, cntr.requests[c]) + 1 <= WORD {
          GrownAt(old(cntr.requests), cntr.requests, conns, a, c);
          assert XidFor(c, old(cntr.requests)[c]) + n <= WORD;
        }
        label before:
        SendRound();
        GrowAgain(old(cntr.requests), old@before(cntr.requests), cntr.requests, conns, a, 1);
      }
    }

    /** The burst size due next: the scheduled size, and what has been missed in whole messages. */
    method NextBurst(ghost p: Pacing.Pace, ghost size: int) returns (burstRate: int)
      requires scheduler.Valid() && scheduler.burstSizes != []
      requires p.carry == missingPackets
      requires size == scheduler.burstSizes[(scheduler.sizeCalls + 1) % |scheduler.burstSizes|]
      modifies this`missingPackets, scheduler`iBsize, scheduler`sizeCalls
      ensures scheduler.Valid() && scheduler.sizeCalls == old(scheduler.sizeCalls) + 1
      ensures Pacing.Burst(p, size, missingPerInterval) == Pacing.Pace(p.sent + burstRate, missingPackets)
    {
      missingPackets := missingPackets + missingPerInterval;
      var missedRounded := missingPackets.Floor;
      if missedRounded > 0 {
        missingPackets := missingPackets - missedRounded as real;
      }
      var next := scheduler.NextBurstSize();
      burstRate := next.value + missedRounded;
    }

    /** What has been sent after k bursts, by the pacing of the given start. */
    ghost function Paced(calls: nat, carry: real, k: nat): Pacing.Pace
      requires scheduler.burstSizes != []
    {
      Pacing.Bursts(Pacing.Pace(0, carry), Drawn(scheduler.burstSizes, calls, k), missingPerInterval)
    }

    lemma PacedMore(calls: nat, carry: real, k: nat)
      requires scheduler.burstSizes != []
      ensures Paced(calls, carry, k + 1) == Pacing.Burst(Paced(calls, carry, k),
        scheduler.burstSizes[(calls + 1 + k) % |scheduler.burstSizes|], missingPerInterval)
    {
      var sizes := Drawn(scheduler.burstSizes, calls, k);
      DrawnMore(scheduler.burstSizes, calls, k);
      assert Drawn(scheduler.burstSizes, calls, k + 1)[..k] == sizes;
    }

    /** Send one burst, below the packet limit; p is what the pacing had sent since `before`. */
    method SendPaced(ghost before: seq<nat>, ghost p: Pacing.Pace, ghost maxSize: nat) returns (ghost q: Pacing.Pace)
      requires Connected() && conns != []
      requires scheduler.Valid() && scheduler.burstSizes != []
      requires forall b | b in scheduler.burstSizes :: 1 <= b <= maxSize
      requires 0.0 <= p.carry == missingPackets < 1.0 && 0.0 <= missingPerInterval < 1.0
      requires 0 <= p.sent && Grown(before, cntr.requests, conns, p.sent) && Sum(cntr.requests) < cntr.maxPackets
      requires forall c | c in conns && c < |before| :: XidFor(c, before[c]) + cntr.maxPackets + maxSize + 1 <= WORD
      modifies this`ticks, this`missingPackets, scheduler`iBsize, scheduler`sizeCalls
      modifies cntr`requests, cntr`reqs, cntr`intervalRequests, cntr`reqTotalBytes
      ensures Connected() && scheduler.Valid() && scheduler.sizeCalls == old(scheduler.sizeCalls) + 1
      ensures q == Pacing.Burst(p, scheduler.burstSizes[scheduler.sizeCalls % |scheduler.burstSizes|],
                                missingPerInterval)
      ensures p.sent < q.sent && 0.0 <= q.carry == missingPackets < 1.0
      ensures Grown(before, cntr.requests, conns, q.sent)
      ensures old(Sum(cntr.requests)) < Sum(cntr.requests) < cntr.maxPackets + (maxSize + 1) * |conns|
      ensures old(ticks) <= ticks
    {
      hide Grown, Sum, XidFor, Uniform, RowsOf, Tallied, Allocated;
      ghost var size := scheduler.burstSizes[(scheduler.sizeCalls + 1) % |scheduler.burstSizes|];
      assert size in scheduler.burstSizes;
      var burstRate := NextBurst(p, size);
      BurstBounds(p, size, missingPerInterval);
      var lastSend := Timestamp();
      RoomLeft(before, cntr.requests, conns, p.sent, burstRate, cntr.maxPackets, maxSize);
      ghost var now := cntr.requests;
      ConnectedFrame();
      SendBurst(burstRate);
      GrowAgain(before, now, cntr.requests, conns, p.sent, burstRate);
      GrownSum(now, cntr.requests, conns, burstRate);
      BurstSum(burstRate, |conns|, maxSize + 1);
      q := Pacing.Pace(p.sent + burstRate, missingPackets);
    }

    /** Draw the time until the next burst, and ask whether a limit is reached. */
    method NextTurn() returns (reached: bool)
      requires Connected() && scheduler.Valid() && scheduler.interBurstTimes != []
      modifies this`ticks, this`nextBurstTime, cntr`finished, scheduler`iBtime, scheduler`timeCalls
      ensures Connected() && scheduler.Valid() && scheduler.timeCalls == old(scheduler.timeCalls) + 1
      ensures nextBurstTime == scheduler.interBurstTimes[scheduler.timeCalls % |scheduler.interBurstTimes|]
      ensures reached == cntr.finished
      ensures !reached ==> !old(cntr.finished) && (0 < cntr.maxPackets ==> Sum(cntr.requests) < cntr.maxPackets)
      ensures ticks == old(ticks) + 1
      ensures !reached && 0 < cntr.maxTime && 0.0 < cntr.startTime ==>
        clock(old(ticks)) < cntr.startTime + cntr.maxTime as real
      ensures reached && !old(cntr.finished) && (cntr.maxPackets == 0 || Sum(cntr.requests) < cntr.maxPackets) ==>
        0 < cntr.maxTime && 0.0 < cntr.startTime && cntr.startTime + cntr.maxTime as real <= clock(old(ticks))
    {
      hide Sum, Uniform, RowsOf, Tallied, Allocated;
      var time := scheduler.NextInterBurstTime();
      nextBurstTime := time.value;
      var now := Timestamp();
      reached := cntr.LimitReached(now);
    }

    /** Send bursts until a limit is reached or another thread says to stop. Every connection is sent
        exactly what the pacing says; the packet limit is overshot by less than one burst; no burst is sent
        on a reading of the clock at or past the deadline. `passed` tells which readings let the loop go on. */
    method SendLoop(ghost maxSize: nat) returns (why: StopReason, ghost bursts: nat, ghost passed: seq<nat>)
      requires Connected() && conns != [] && 0 < cntr.maxPackets
      requires Room(cntr.maxPackets + maxSize + 1)
      requires scheduler.Valid() && scheduler.burstSizes != []
      requires forall b | b in scheduler.burstSizes :: 1 <= b <= maxSize
      requires 0.0 <= missingPackets < 1.0 && 0.0 <= missingPerInterval < 1.0
      requires scheduler.timeCalls == scheduler.sizeCalls + 1 && scheduler.interBurstTimes != []
      modifies this`ticks, this`missingPackets, this`nextBurstTime, this`requestingFinished
      modifies cntr`requests, cntr`reqs, cntr`intervalRequests, cntr`reqTotalBytes, cntr`finished
      modifies scheduler`iBsize, scheduler`sizeCalls, scheduler`iBtime, scheduler`timeCalls
      ensures Connected() && scheduler.Valid()
      ensures scheduler.sizeCalls == old(scheduler.sizeCalls) + bursts
      ensures scheduler.timeCalls == scheduler.sizeCalls + (if why.Limited? then 2 else 1)
      ensures var p := Paced(old(scheduler.sizeCalls), old(missingPackets), bursts);
        && 0 <= p.sent && missingPackets == p.carry
        && Grown(old(cntr.requests), cntr.requests, conns, p.sent)
      ensures bursts == 0 || Sum(cntr.requests) < cntr.maxPackets + (maxSize + 1) * |conns|
      ensures why.Limited? ==> requestingFinished
      ensures |passed| == bursts && Readings(passed, old(ticks), ticks)
      ensures 0 < cntr.maxTime && 0.0 < cntr.startTime ==>
        AllBefore(clock, passed, cntr.startTime + cntr.maxTime as real)
      ensures why.Limited? && !old(cntr.finished) && Sum(cntr.requests) < cntr.maxPackets ==>
        && old(ticks) < ticks && 0 < cntr.maxTime && 0.0 < cntr.startTime
        && cntr.startTime + cntr.maxTime as real <= clock(ticks - 1)
    {
      hide Grown, Drawn, Sum, Paced, XidFor, Pacing.Burst, Counter.Valid, Connected, Schedules.Scheduler.Valid;
      hide Readings, AllBefore;
      ghost var deadline := cntr.startTime + cntr.maxTime as real;
      NoReadings(clock, ticks, deadline);
      ConnectedFrame();
      bursts, passed := 0, [];
      var checks := 0;
      ghost var calls, carry, before := scheduler.sizeCalls, missingPackets, cntr.requests;
      ghost var p := Pacing.Pace(0, carry);
      NothingPaced(calls, carry);
      GrowNone(before, conns);
      while !finished(checks)
        invariant Connected() && scheduler.Valid()
        invariant scheduler.sizeCalls == calls + bursts && scheduler.timeCalls == scheduler.sizeCalls + 1
        invariant p == Paced(calls, carry, bursts) && 0 <= p.sent
        invariant 0.0 <= p.carry == missingPackets < 1.0
        invariant Grown(before, cntr.requests, conns, p.sent)
        invariant bursts == 0 || Sum(cntr.requests) < cntr.maxPackets + (maxSize + 1) * |conns|
        invariant cntr.finished == old(cntr.finished)
        invariant old(ticks) <= ticks && (bursts == 0 ==> ticks == old(ticks))
        invariant |passed| == bursts && Readings(passed, old(ticks), ticks)
        invariant 0 < cntr.maxTime && 0.0 < cntr.startTime ==>
          AllBefore(clock, passed, deadline)
        decreases cntr.maxPackets - Sum(cntr.requests)
      {
        checks := checks + 1;
        ghost var reading := ticks;
        var reached := NextTurn();
        if reached {
          requestingFinished := true;
          ReadingsLater(passed, old(ticks), reading, ticks);
          return Limited, bursts, passed;
        }
        OneReadingMore(clock, passed, old(ticks), reading, ticks, deadline);
        passed := passed + [reading];
        PacedMore(calls, carry, bursts);
        ghost var checked := ticks;
        p := SendPaced(before, p, maxSize);
        ReadingsLater(passed, old(ticks), checked, ticks);
        bursts := bursts + 1;
      }
      why := Stopped;
    }

    /** With uniform bursts of the whole part of a rate, and its fraction as the missing part, k bursts
        from a fresh start send every connection exactly the whole part of k times the rate. */
    lemma UniformPaced(calls: nat, k: nat, rate: real)
      requires scheduler.burstSizes != [] && forall b | b in scheduler.burstSizes :: b == rate.Floor
      requires missingPerInterval == rate - rate.Floor as real
      ensures Paced(calls, 0.0, k).sent == (k as real * rate).Floor
    {
      hide Pacing.Bursts;
      var sizes := Drawn(scheduler.burstSizes, calls, k);
      forall i | 0 <= i < k ensures sizes[i] == rate.Floor {
        assert scheduler.burstSizes[(calls + 1 + i) % |scheduler.burstSizes|] in scheduler.burstSizes;
      }
      Pacing.ExactPacing(sizes, rate);
    }

    /** The bursts and the missing part are those of the settings, and the bursts are uniform. */
    ghost predicate Uniformly(settings: Pacing.Settings)
      reads settings
    {
      && settings.Set()
      && (forall b | b in scheduler.burstSizes :: b == settings.burstRate)
      && missingPerInterval == settings.missingPacketsPerSendInterval
    }

    lemma RatePaced(settings: Pacing.Settings, calls: nat, k: nat)
      requires scheduler.burstSizes != [] && Uniformly(settings)
      ensures Paced(calls, 0.0, k).sent == settings.Due(k)
    {
      hide Paced;
      var rate := settings.burstRateReal;
      assert rate.Floor == settings.burstRate;
      UniformPaced(calls, k, rate);
      settings.DueIs(k);
    }

    /** With the settings that `pps` makes and uniform bursts, after k bursts the loop has sent every
        connection exactly floor(k * pps * interval / 1000) requests, the interval being in milliseconds. */
    method SendAtRate(ghost settings: Pacing.Settings) returns (why: StopReason, ghost bursts: nat)
      requires Connected() && conns != [] && 0 < cntr.maxPackets
      requires scheduler.Valid() && scheduler.burstSizes != [] && scheduler.interBurstTimes != []
      requires Uniformly(settings) && missingPackets == 0.0
      requires Room(cntr.maxPackets + settings.burstRate + 1)
      requires scheduler.timeCalls == scheduler.sizeCalls + 1
      modifies this`ticks, this`missingPackets, this`nextBurstTime, this`requestingFinished
      modifies cntr`requests, cntr`reqs, cntr`intervalRequests, cntr`reqTotalBytes, cntr`finished
      modifies scheduler`iBsize, scheduler`sizeCalls, scheduler`iBtime, scheduler`timeCalls
      ensures var due := (bursts as real * (settings.pps as real * settings.sendInterval) / 1000.0).Floor;
        Connected() && 0 <= due && Grown(old(cntr.requests), cntr.requests, conns, due)
    {
      hide Grown, Drawn, Sum, Paced, XidFor, Counter.Valid, Connected;
      ghost var calls, maxSize := scheduler.sizeCalls, settings.burstRate;
      ghost var passed;
      why, bursts, passed := SendLoop(maxSize);
      RatePaced(settings, calls, bursts);
    }

    lemma NothingPaced(calls: nat, carry: real)
      requires scheduler.burstSizes != []
      ensures Paced(calls, carry, 0) == Pacing.Pace(0, carry)
    {
      NothingDrawn(scheduler.burstSizes, calls);
    }

    lemma ConnectedFrame()
      requires Connected()
      ensures cntr.Valid() && forall c | c in conns :: c < |cntr.requests|
    {
      hide Uniform, RowsOf, Tallied, Allocated;
    }
  }

  lemma NothingDrawn(samples: seq<int>, calls: nat)
    requires samples != []
    ensures Drawn(samples, calls, 0) == []
  {
  }

  lemma BurstBounds(p: Pacing.Pace, size: int, missing: real)
    requires 0.0 <= p.carry < 1.0 && 0.0 <= missing < 1.0
    ensures var q := Pacing.Burst(p, size, missing);
      size <= q.sent - p.sent <= size + 1 && 0.0 <= q.carry < 1.0
  {
  }

  lemma BurstSum(n: nat, m: nat, bound: nat)
    requires 0 < n <= bound && 0 < m
    ensures 0 < n * m <= bound * m
  {
    assert (bound - n) * m >= 0;
  }

  lemma GrownSum(before: seq<nat>, after: seq<nat>, conns: seq<nat>, n: nat)
    requires Grown(before, after, conns, n)
    ensures Sum(after) == Sum(before) + n * |conns|
  {
  }

  /** Until the packet limit is reached, there is room for one more burst. */
  lemma RoomLeft(before: seq<nat>, now: seq<nat>, conns: seq<nat>, sent: nat, n: nat, maxPackets: nat, maxSize: nat)
    requires Grown(before, now, conns, sent) && conns != [] && Sum(now) < maxPackets && n <= maxSize + 1
    requires forall c | c in conns && c < |before| :: XidFor(c, before[c]) + maxPackets + maxSize + 1 <= WORD
    ensures forall c | c in conns && c < |now| :: XidFor(c, now[c]) + n <= WORD
  {
    hide Sum;
    AtLeast(sent, |conns|);
    assert Sum(now) == Sum(before) + sent * |conns|;
  }

  lemma AtLeast(n: nat, m: nat)
    requires 0 < m
    ensures n <= n * m
  {
  }

  lemma GrownAt(before: seq<nat>, after: seq<nat>, conns: seq<nat>, n: nat, c: nat)
    requires Grown(before, after, conns, n) && c < |before|
    ensures |after| == |before| && after[c] == before[c] + if c in conns then n else 0
  {
  }
}
