/** The barrier at the end of a run: each tenant's thread sets its flag and then scans the flags of
    all tenants; the thread that finds them all set signals that the run is over. */
module Barrier {

  /** Where a tenant's thread is: still sending, about to look at a flag, or done. */
  datatype Thread = Sending | Scanning(next: nat) | Returned

  datatype World = World(threads: seq<Thread>, finished: seq<bool>, signals: nat)

  /** Steps of different threads interleave in any order. */
  datatype Step = SetFlag(tenant: nat) | Look(tenant: nat)

  function Start(n: nat): World {
    World(seq(n, _ => Sending), seq(n, _ => false), 0)
  }

  predicate Enabled(w: World, s: Step) {
    && s.tenant < |w.threads| == |w.finished|
    && match s
       case SetFlag(t) => w.threads[t].Sending?
       case Look(t) => w.threads[t].Scanning?
  }

  /** Look: past the last flag the scan is over and the signal is given; at a flag not set the thread
      returns; at a flag that is set it moves on. */
  function Do(w: World, s: Step): World
    requires Enabled(w, s)
  {
    var t := s.tenant;
    match s
    case SetFlag(_) => w.(threads := w.threads[t := Scanning(0)], finished := w.finished[t := true])
    case Look(_) =>
      var i := w.threads[t].next;
      if i >= |w.finished| then w.(threads := w.threads[t := Returned], signals := w.signals + 1)
      else if !w.finished[i] then w.(threads := w.threads[t := Returned])
      else w.(threads := w.threads[t := Scanning(i + 1)])
  }

  ghost predicate AllFinished(w: World) {
    forall t | 0 <= t < |w.finished| :: w.finished[t]
  }

  ghost predicate AllReturned(w: World) {
    forall t | 0 <= t < |w.threads| :: w.threads[t].Returned?
  }

  function CountReturned(threads: seq<Thread>): (n: nat)
    ensures n <= |threads|
  {
    if threads == [] then 0
    else CountReturned(threads[..|threads| - 1]) + (if threads[|threads| - 1].Returned? then 1 else 0)
  }

  lemma {:induction false} CountUpdate(threads: seq<Thread>, t: nat, th: Thread)
    requires t < |threads|
    ensures CountReturned(threads[t := th])
         == CountReturned(threads) - (if threads[t].Returned? then 1 else 0) + (if th.Returned? then 1 else 0)
  {
    var n := |threads| - 1;
    if t == n {
      assert threads[t := th][..n] == threads[..n];
    } else {
      CountUpdate(threads[..n], t, th);
      assert threads[t := th][..n] == threads[..n][t := th];
    }
  }

  /** What holds in every state of every run. */
  ghost predicate Inv(w: World) {
    && |w.threads| == |w.finished|
    && (forall t | 0 <= t < |w.threads| :: w.finished[t] <==> !w.threads[t].Sending?)
    && (forall t | 0 <= t < |w.threads| && w.threads[t].Scanning? ::
          w.threads[t].next <= |w.finished| && forall j | 0 <= j < w.threads[t].next :: w.finished[j])
    && (w.signals > 0 ==> AllFinished(w))
    && (AllFinished(w) && w.signals == 0 && w.threads != [] ==>
          exists t | 0 <= t < |w.threads| :: w.threads[t].Scanning?)
    && w.signals <= CountReturned(w.threads)
  }

  lemma StartInv(n: nat)
    ensures Inv(Start(n))
  {
    var w := Start(n);
    assert n > 0 ==> !w.finished[0];
  }

  lemma SetFlagInv(w: World, t: nat)
    requires Inv(w) && Enabled(w, SetFlag(t))
    ensures Inv(Do(w, SetFlag(t)))
  {
    var w' := Do(w, SetFlag(t));
    CountUpdate(w.threads, t, Scanning(0));
    assert !w.finished[t] && w'.threads[t].Scanning?;
    hide CountReturned;
  }

  /** A thread that moves on or returns leaves the flags alone. */
  lemma ThreadInv(w: World, t: nat, th: Thread, signals: nat)
    requires Inv(w) && t < |w.threads| && w.threads[t].Scanning?
    requires th.Scanning? ==> th.next <= |w.finished| && forall j | 0 <= j < th.next :: w.finished[j]
    requires !th.Sending? && w.signals <= signals
    requires w.signals < signals ==> AllFinished(w) && th.Returned? && signals == w.signals + 1
    requires th.Returned? && w.signals == signals == 0 ==> !AllFinished(w)
    ensures Inv(w.(threads := w.threads[t := th], signals := signals))
  {
    var w' := w.(threads := w.threads[t := th], signals := signals);
    CountUpdate(w.threads, t, th);
    hide CountReturned;
    assert w'.threads[t] == th;
  }

  lemma LookInv(w: World, t: nat)
    requires Inv(w) && Enabled(w, Look(t))
    ensures Inv(Do(w, Look(t)))
  {
    var i := w.threads[t].next;
    if i >= |w.finished| {
      ThreadInv(w, t, Returned, w.signals + 1);
    } else if !w.finished[i] {
      ThreadInv(w, t, Returned, w.signals);
    } else {
      ThreadInv(w, t, Scanning(i + 1), w.signals);
    }
    hide Inv;
  }

  lemma DoInv(w: World, s: Step)
    requires Inv(w) && Enabled(w, s)
    ensures Inv(Do(w, s))
  {
    hide Inv, Do, Enabled;
    match s
    case SetFlag(t) => SetFlagInv(w, t);
    case Look(t) => LookInv(w, t);
  }

  /** The run of these steps, each enabled in its turn, takes state u to state w. */
  ghost predicate LeadsTo(u: World, steps: seq<Step>, w: World) {
    if steps == [] then w == u
    else
      var k := |steps| - 1;
      exists v :: LeadsTo(u, steps[..k], v) && Enabled(v, steps[k]) && w == Do(v, steps[k])
  }

  /** The run of these steps takes n tenants to state w. */
  ghost predicate ReachedBy(n: nat, steps: seq<Step>, w: World) {
    LeadsTo(Start(n), steps, w)
  }

  ghost predicate Reachable(n: nat, w: World) {
    exists steps :: ReachedBy(n, steps, w)
  }

  lemma {:induction false} ReachedInv(n: nat, steps: seq<Step>, w: World)
    requires ReachedBy(n, steps, w)
    ensures Inv(w) && |w.threads| == n
  {
    if steps == [] {
      StartInv(n);
    } else {
      var k := |steps| - 1;
      var v :| ReachedBy(n, steps[..k], v) && Enabled(v, steps[k]) && w == Do(v, steps[k]);
      ReachedInv(n, steps[..k], v);
      DoInv(v, steps[k]);
      hide Inv;
    }
  }

  lemma ReachableInv(n: nat, w: World)
    requires Reachable(n, w)
    ensures Inv(w) && |w.threads| == n
  {
    hide Inv;
    var steps :| ReachedBy(n, steps, w);
    ReachedInv(n, steps, w);
  }

  lemma ReachableDo(n: nat, w: World, s: Step)
    requires Reachable(n, w) && Enabled(w, s)
    ensures Reachable(n, Do(w, s))
  {
    hide Do, Enabled;
    var steps :| ReachedBy(n, steps, w);
    assert (steps + [s])[..|steps|] == steps;
    assert ReachedBy(n, steps + [s], Do(w, s));
  }

  // ----- safety and liveness -----

  /** In every run, under every interleaving: no signal before every tenant has finished; no more
      signals than tenants; and once all threads have returned, there has been a signal. */
  lemma BarrierSafeAndLive(n: nat, w: World)
    requires Reachable(n, w)
    ensures w.signals > 0 ==> AllFinished(w)
    ensures w.signals <= n
    ensures AllReturned(w) && n > 0 ==> 1 <= w.signals
  {
    ReachableInv(n, w);
    if AllReturned(w) && n > 0 { assert AllFinished(w); }
  }

  /** A run that has not ended can go on. */
  lemma NoDeadlock(n: nat, w: World)
    requires Reachable(n, w) && !AllReturned(w)
    ensures exists s :: Enabled(w, s)
  {
    ReachableInv(n, w);
    var t :| 0 <= t < |w.threads| && !w.threads[t].Returned?;
    if w.threads[t].Sending? { assert Enabled(w, SetFlag(t)); } else { assert Enabled(w, Look(t)); }
  }

  /** Steps a thread can still take, of n tenants. */
  function StepsLeft(th: Thread, n: nat): nat {
    match th
    case Sending => n + 2
    case Scanning(i) => if i <= n then n + 1 - i else 0
    case Returned => 0
  }

  function AllStepsLeft(threads: seq<Thread>, n: nat): nat {
    if threads == [] then 0 else AllStepsLeft(threads[..|threads| - 1], n) + StepsLeft(threads[|threads| - 1], n)
  }

  lemma {:induction false} StepsLeftUpdate(threads: seq<Thread>, t: nat, th: Thread, n: nat)
    requires t < |threads|
    ensures AllStepsLeft(threads[t := th], n) == AllStepsLeft(threads, n) - StepsLeft(threads[t], n) + StepsLeft(th, n)
  {
    var k := |threads| - 1;
    if t == k {
      assert threads[t := th][..k] == threads[..k];
    } else {
      StepsLeftUpdate(threads[..k], t, th, n);
      assert threads[t := th][..k] == threads[..k][t := th];
    }
  }

  lemma {:induction false} StartSteps(threads: seq<Thread>, n: nat)
    requires forall t | 0 <= t < |threads| :: threads[t].Sending?
    ensures AllStepsLeft(threads, n) == |threads| * (n + 2)
  {
    if threads != [] {
      var k := |threads| - 1;
      StartSteps(threads[..k], n);
      assert (k + 1) * (n + 2) == k * (n + 2) + (n + 2);
    }
  }

  lemma {:induction false} StepsTaken(n: nat, steps: seq<Step>, w: World)
    requires ReachedBy(n, steps, w)
    ensures |steps| + AllStepsLeft(w.threads, n) <= n * (n + 2)
  {
    if steps == [] {
      StartSteps(w.threads, n);
    } else {
      hide Inv;
      var k := |steps| - 1;
      var v :| ReachedBy(n, steps[..k], v) && Enabled(v, steps[k]) && w == Do(v, steps[k]);
      StepsTaken(n, steps[..k], v);
      ReachedInv(n, steps[..k], v);
      StepUsesOne(n, v, steps[k]);
    }
  }

  lemma StepUsesOne(n: nat, v: World, s: Step)
    requires Inv(v) && |v.threads| == n && Enabled(v, s)
    ensures AllStepsLeft(Do(v, s).threads, n) < AllStepsLeft(v.threads, n)
  {
    StepsLeftUpdate(v.threads, s.tenant, Do(v, s).threads[s.tenant], n);
  }

  /** Every run ends: it takes at most n (n + 2) steps. */
  lemma RunsEnd(n: nat, steps: seq<Step>, w: World)
    requires ReachedBy(n, steps, w)
    ensures |steps| <= n * (n + 2)
  {
    StepsTaken(n, steps, w);
  }

  // ----- how many signals -----

  /** A thread whose scan meets only flags that are set ends by signalling. */
  lemma {:induction false} ScanThrough(n: nat, w: World, t: nat)
    requires Reachable(n, w) && t < |w.threads| && w.threads[t].Scanning? && AllFinished(w)
    ensures Reachable(n, w.(threads := w.threads[t := Returned], signals := w.signals + 1))
    decreases n - w.threads[t].next
  {
    hide Inv, Reachable, CountReturned;
    ScanBound(n, w, t);
    ReachableDo(n, w, Look(t));
    if w.threads[t].next < n {
      var w' := Do(w, Look(t));
      ScanThrough(n, w', t);
      assert w'.threads[t := Returned] == w.threads[t := Returned];
    }
  }

  lemma ScanBound(n: nat, w: World, t: nat)
    requires Reachable(n, w) && t < |w.threads| && w.threads[t].Scanning?
    ensures w.threads[t].next <= |w.finished| == |w.threads| == n
  {
    ReachableInv(n, w);
  }

  /** A thread whose scan will meet a flag not set ends by just returning. */
  lemma {:induction false} ScanStops(n: nat, w: World, t: nat, i: nat)
    requires Reachable(n, w) && t < |w.threads| && w.threads[t].Scanning?
    requires w.threads[t].next <= i < |w.finished| && !w.finished[i] && forall j | 0 <= j < i :: w.finished[j]
    ensures Reachable(n, w.(threads := w.threads[t := Returned]))
    decreases i - w.threads[t].next
  {
    hide Inv, Reachable;
    ScanBound(n, w, t);
    ReachableDo(n, w, Look(t));
    if w.threads[t].next < i {
      var w' := Do(w, Look(t));
      ScanStops(n, w', t, i);
      assert w'.threads[t := Returned] == w.threads[t := Returned];
    }
  }

  /** The first r of n tenants have returned, the next s - r have set their flags and not looked yet. */
  function Stage(n: nat, r: nat, s: nat, signals: nat): World {
    World(seq(n, t => if t < r then Returned else if t < s then Scanning(0) else Sending), seq(n, t => t < s), signals)
  }

  lemma {:induction false} EarlyTenants(n: nat, r: nat)
    requires r < n
    ensures Reachable(n, Stage(n, r, r, 0))
  {
    if r == 0 {
      assert Stage(n, 0, 0, 0) == Start(n);
      assert ReachedBy(n, [], Start(n));
    } else {
      EarlyTenants(n, r - 1);
      var w := Stage(n, r - 1, r - 1, 0);
      ReachableDo(n, w, SetFlag(r - 1));
      var w' := Do(w, SetFlag(r - 1));
      assert w' == Stage(n, r - 1, r, 0);
      ScanStops(n, w', r - 1, r);
      assert w'.(threads := w'.threads[r - 1 := Returned]) == Stage(n, r, r, 0);
    }
  }

  lemma {:induction false} RestSetFlags(n: nat, r: nat, s: nat)
    requires r <= s <= n && r < n
    ensures Reachable(n, Stage(n, r, s, 0))
  {
    if s == r {
      EarlyTenants(n, r);
    } else {
      RestSetFlags(n, r, s - 1);
      var w := Stage(n, r, s - 1, 0);
      ReachableDo(n, w, SetFlag(s - 1));
      assert Do(w, SetFlag(s - 1)) == Stage(n, r, s, 0);
    }
  }

  lemma {:induction false} RestSignal(n: nat, r: nat, d: nat)
    requires r < n && r + d <= n
    ensures Reachable(n, Stage(n, r + d, n, d))
  {
    hide Reachable;
    if d == 0 {
      RestSetFlags(n, r, n);
    } else {
      RestSignal(n, r, d - 1);
      var w := Stage(n, r + d - 1, n, d - 1);
      ScanThrough(n, w, r + d - 1);
      assert w.(threads := w.threads[r + d - 1 := Returned], signals := w.signals + 1) == Stage(n, r + d, n, d);
    }
  }

  /** The number of signals of a complete run of n tenants, under all interleavings, can be any
      number from 1 to n, and no other. */
  lemma SignalCounts(n: nat, k: nat)
    requires 0 < n
    ensures (exists w :: Reachable(n, w) && AllReturned(w) && w.signals == k) <==> 1 <= k <= n
  {
    hide Reachable;
    if 1 <= k <= n {
      RestSignal(n, n - k, k);
      assert AllReturned(Stage(n, n, n, k));
    }
    forall w | Reachable(n, w) && AllReturned(w) ensures 1 <= w.signals <= n {
      BarrierSafeAndLive(n, w);
    }
  }

  // ----- how many signals a given run gives -----

  function CountScanning(threads: seq<Thread>): (n: nat) {
    if threads == [] then 0
    else CountScanning(threads[..|threads| - 1]) + (if threads[|threads| - 1].Scanning? then 1 else 0)
  }

  lemma {:induction false} ScanningUpdate(threads: seq<Thread>, t: nat, th: Thread)
    requires t < |threads|
    ensures CountScanning(threads[t := th])
         == CountScanning(threads) - (if threads[t].Scanning? then 1 else 0) + (if th.Scanning? then 1 else 0)
  {
    var n := |threads| - 1;
    if t == n {
      assert threads[t := th][..n] == threads[..n];
    } else {
      ScanningUpdate(threads[..n], t, th);
      assert threads[t := th][..n] == threads[..n][t := th];
    }
  }

  lemma {:induction false} NoneScanning(threads: seq<Thread>)
    ensures CountScanning(threads) == 0 <==> forall t | 0 <= t < |threads| :: !threads[t].Scanning?
  {
    if threads == [] {
    } else {
      NoneScanning(threads[..|threads| - 1]);
    }
  }

  /** Once all flags are set, every thread still scanning is worth one signal. */
  lemma LookConserves(w: World, s: Step)
    requires Inv(w) && AllFinished(w) && Enabled(w, s)
    ensures AllFinished(Do(w, s))
    ensures Do(w, s).signals + CountScanning(Do(w, s).threads) == w.signals + CountScanning(w.threads)
  {
    assert s.Look?;
    var t := s.tenant;
    ScanningUpdate(w.threads, t, Do(w, s).threads[t]);
  }

  lemma {:induction false} SignalsConserved(u: World, steps: seq<Step>, v: World)
    requires Inv(u) && AllFinished(u) && LeadsTo(u, steps, v)
    ensures Inv(v) && AllFinished(v)
    ensures v.signals + CountScanning(v.threads) == u.signals + CountScanning(u.threads)
  {
    hide Inv, AllFinished, Do, Enabled, CountScanning;
    if steps == [] {
    } else {
      var k := |steps| - 1;
      var w :| LeadsTo(u, steps[..k], w) && Enabled(w, steps[k]) && v == Do(w, steps[k]);
      SignalsConserved(u, steps[..k], w);
      LookConserves(w, steps[k]);
      DoInv(w, steps[k]);
    }
  }

  /** When tenant t sets the last flag, the number of signals of every complete continuation is decided:
      one for the thread of t, and one for every other thread that is scanning at that moment. */
  lemma SignalsAfterLastFlag(n: nat, w: World, t: nat, steps: seq<Step>, v: World)
    requires Reachable(n, w) && Enabled(w, SetFlag(t)) && AllFinished(Do(w, SetFlag(t)))
    requires LeadsTo(Do(w, SetFlag(t)), steps, v) && AllReturned(v)
    ensures v.signals == CountScanning(w.threads) + 1
  {
    ReachableInv(n, w);
    SetFlagInv(w, t);
    assert !w.finished[t] && w.signals == 0;
    hide Inv, AllFinished, Reachable;
    ScanningUpdate(w.threads, t, Scanning(0));
    SignalsConserved(Do(w, SetFlag(t)), steps, v);
    NoneScanning(v.threads);
  }

  /** Step k of the run sets the last flag, in state w, and the other steps lead on to v. */
  ghost predicate LastFlagAt(n: nat, steps: seq<Step>, k: nat, w: World, v: World) {
    && k < |steps| && steps[k].SetFlag?
    && ReachedBy(n, steps[..k], w) && Enabled(w, steps[k]) && AllFinished(Do(w, steps[k]))
    && LeadsTo(Do(w, steps[k]), steps[k + 1..], v)
  }

  lemma LeadsToMore(u: World, steps: seq<Step>, v: World, s: Step)
    requires LeadsTo(u, steps, v) && Enabled(v, s)
    ensures LeadsTo(u, steps + [s], Do(v, s))
  {
    hide Do, Enabled;
    assert (steps + [s])[..|steps|] == steps;
  }

  lemma {:induction false} LastFlag(n: nat, steps: seq<Step>, v: World) returns (k: nat, w: World)
    requires 0 < n && ReachedBy(n, steps, v) && AllFinished(v)
    ensures LastFlagAt(n, steps, k, w, v)
  {
    assert steps != [] by { assert !Start(n).finished[0]; }
    var last := |steps| - 1;
    var u :| LeadsTo(Start(n), steps[..last], u) && Enabled(u, steps[last]) && v == Do(u, steps[last]);
    if AllFinished(u) {
      hide Do, Enabled, AllFinished;
      k, w := LastFlag(n, steps[..last], u);
      assert steps[..last][..k] == steps[..k] && steps[..last][k + 1..] + [steps[last]] == steps[k + 1..];
      LeadsToMore(Do(w, steps[k]), steps[..last][k + 1..], u, steps[last]);
    } else {
      k, w := last, u;
      assert steps[last].SetFlag?;
      assert steps[last + 1..] == [];
    }
  }

  /** A complete run signals exactly once if and only if no thread is scanning when the last flag is set. */
  lemma SignalsOnceIff(n: nat, steps: seq<Step>, v: World)
    requires 0 < n && ReachedBy(n, steps, v) && AllReturned(v)
    ensures v.signals == 1 <==>
            exists k: nat, w ::
              LastFlagAt(n, steps, k, w, v) && forall t | 0 <= t < |w.threads| :: !w.threads[t].Scanning?
  {
    assert AllFinished(v) by { ReachableInv(n, v); }
    var k, w := LastFlag(n, steps, v);
    forall k': nat, w' | LastFlagAt(n, steps, k', w', v)
      ensures v.signals == 1 <==> forall t | 0 <= t < |w'.threads| :: !w'.threads[t].Scanning?
    {
      hide Do, Enabled, AllFinished, LeadsTo, CountScanning;
      assert Reachable(n, w');
      SignalsAfterLastFlag(n, w', steps[k'].tenant, steps[k' + 1..], v);
      NoneScanning(w'.threads);
    }
    hide LastFlagAt;
  }

  // ----- setting and scanning in one go -----

  /** A tenant finishes with no other thread in between. */
  function FinishAtomically(w: World, t: nat): World
    requires t < |w.threads| == |w.finished|
  {
    var finished := w.finished[t := true];
    World(w.threads[t := Returned], finished,
          w.signals + if forall j | 0 <= j < |finished| :: finished[j] then 1 else 0)
  }

  /** Finishing atomically is one of the possible interleavings. */
  lemma AtomicIsRun(n: nat, w: World, t: nat)
    requires Reachable(n, w) && t < |w.threads| && w.threads[t].Sending?
    ensures |w.threads| == |w.finished| && Reachable(n, FinishAtomically(w, t))
  {
    ReachableInv(n, w);
    hide Reachable, Inv;
    ReachableDo(n, w, SetFlag(t));
    var w' := Do(w, SetFlag(t));
    assert w'.threads[t := Returned] == w.threads[t := Returned];
    if AllFinished(w') {
      ScanThrough(n, w', t);
    } else {
      var i := FirstUnset(w'.finished);
      ScanStops(n, w', t, i);
    }
  }

  lemma {:induction false} FirstUnset(finished: seq<bool>) returns (i: nat)
    requires exists j | 0 <= j < |finished| :: !finished[j]
    ensures i < |finished| && !finished[i] && forall j | 0 <= j < i :: finished[j]
  {
    i := 0;
    while finished[i]
      invariant i < |finished| && forall j | 0 <= j < i :: finished[j]
      invariant exists j | i <= j < |finished| :: !finished[j]
      decreases |finished| - i
    {
      i := i + 1;
    }
  }

  ghost predicate Tenants(n: nat, order: seq<nat>) {
    forall i | 0 <= i < |order| :: order[i] < n
  }

  /** The state after the tenants listed have finished atomically, one after the other. */
  ghost function RunAtomically(n: nat, order: seq<nat>): (w: World)
    requires Tenants(n, order)
    ensures |w.threads| == |w.finished| == n
  {
    if order == [] then Start(n)
    else
      assert order[|order| - 1] < n;
      FinishAtomically(RunAtomically(n, order[..|order| - 1]), order[|order| - 1])
  }

  lemma {:induction false} AtomicFlags(n: nat, order: seq<nat>, t: nat)
    requires Tenants(n, order) && t < n
    ensures RunAtomically(n, order).finished[t] <==> t in order
  {
    if order != [] {
      var k := |order| - 1;
      AtomicFlags(n, order[..k], t);
      assert order == order[..k] + [order[k]];
    }
  }

  ghost predicate Everyone(n: nat, order: seq<nat>) {
    forall t: nat | t < n :: t in order
  }

  /** When every tenant finishes once, in any order and each atomically, there is exactly one signal:
      none before the last tenant, one with it. */
  lemma {:induction false} AtomicSignalsOnce(n: nat, order: seq<nat>)
    requires 0 < n && Tenants(n, order)
    requires forall i, j | 0 <= i < j < |order| :: order[i] != order[j]
    ensures RunAtomically(n, order).signals == if Everyone(n, order) then 1 else 0
  {
    if order == [] {
      assert !Everyone(n, order) by { assert 0 !in order; }
    } else {
      var k := |order| - 1;
      AtomicSignalsOnce(n, order[..k]);
      assert !Everyone(n, order[..k]) by {
        assert order[k] !in order[..k];
        assert order[k] < n;
      }
      forall t: nat | t < n ensures RunAtomically(n, order).finished[t] <==> t in order { AtomicFlags(n, order, t); }
      var all := RunAtomically(n, order).finished;
      assert (forall j | 0 <= j < |all| :: all[j]) <==> Everyone(n, order);
    }
  }

  // ----- the objects -----

  /** The global state that the tenants' threads share. */
  class SystemState {
    var tenantsFinished: seq<bool>
    var signals: nat
    var finished: bool

    /** Exactly one signal has been given if all tenants have finished, and none before. */
    ghost predicate Valid()
      reads this
    {
      && tenantsFinished != []
      && finished == (forall t | 0 <= t < |tenantsFinished| :: tenantsFinished[t])
      && signals == if finished then 1 else 0
    }

    constructor (n: nat)
      requires 0 < n
      ensures Valid() && |tenantsFinished| == n && forall t | 0 <= t < n :: !tenantsFinished[t]
    {
      tenantsFinished := seq(n, _ => false);
      signals, finished := 0, false;
      new;
      assert !tenantsFinished[0];
    }

    method AllTenantsFinished()
      modifies this`signals, this`finished
      ensures signals == old(signals) + 1 && finished
    {
      signals := signals + 1;
      finished := true;
    }

    /** Scan the flags; signal if all are set. */
    method TenantFinished()
      modifies this`signals, this`finished
      ensures var all := forall t | 0 <= t < |tenantsFinished| :: tenantsFinished[t];
        signals == old(signals) + (if all then 1 else 0) && finished == (old(finished) || all)
    {
      for i := 0 to |tenantsFinished|
        invariant forall t | 0 <= t < i :: tenantsFinished[t]
        invariant signals == old(signals) && finished == old(finished)
      {
        if !tenantsFinished[i] {
          return;
        }
      }
      AllTenantsFinished();
    }

    /** A tenant has sent everything: set its flag, then scan, with no other thread in between. */
    method TestcaseFinished(t: nat)
      requires Valid() && t < |tenantsFinished| && !tenantsFinished[t]
      modifies this
      ensures Valid() && tenantsFinished == old(tenantsFinished)[t := true]
    {
      tenantsFinished := tenantsFinished[t := true];
      TenantFinished();
    }
  }
}
