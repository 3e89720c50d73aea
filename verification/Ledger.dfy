/** All connections of one counter together: the figures kept while running against the rows,
    and against the log written at the end. */
module Ledger {
  import opened Accounting
  import opened History

  /** Counted answers, losses, summed latency and summed bytes. */
  datatype Totals = Totals(answers: int, losses: int, latency: real, bytes: int) {
    function Plus(t: Totals): Totals {
      Totals(answers + t.answers, losses + t.losses, latency + t.latency, bytes + t.bytes)
    }
  }

  const ZERO := Totals(0, 0, 0.0, 0)

  function Minus(t: Totals, u: Totals): Totals {
    Totals(t.answers - u.answers, t.losses - u.losses, t.latency - u.latency, t.bytes - u.bytes)
  }

  lemma PlusZero(t: Totals)
    ensures t.Plus(ZERO) == t
  {
  }

  lemma Exchange(all: Totals, old_: Totals, new_: Totals, added: Totals, lost: Totals)
    requires old_.Plus(added) == new_.Plus(lost)
    ensures all.Plus(Minus(new_, old_)).Plus(lost) == all.Plus(added)
  {
  }

  lemma PlusSwap(t: Totals, d: Totals, r: Totals)
    ensures t.Plus(d).Plus(r) == t.Plus(r).Plus(d)
  {
  }

  lemma PlusMinus(t: Totals, r: Totals, r': Totals)
    ensures t.Plus(r') == t.Plus(r).Plus(Minus(r', r))
  {
  }

  lemma PlusAssociates(t: Totals, u: Totals, v: Totals)
    ensures t.Plus(u).Plus(v) == t.Plus(u.Plus(v))
  {
  }

  lemma CloseWindow(t: Totals, w: Totals)
    ensures t.Plus(w.(bytes := 0)).Plus(Totals(0, 0, 0.0, w.bytes)) == t.Plus(w)
  {
  }

  lemma Carry(rows: Totals, lost: Totals, rows': Totals, lost1: Totals, added: Totals)
    requires rows'.Plus(lost1) == rows.Plus(added)
    ensures rows.Plus(lost).Plus(added) == rows'.Plus(lost.Plus(lost1))
  {
  }

  /** `window` holds the figures of the current report interval; its `bytes` run on over all intervals. */
  datatype State = State(rows: seq<Row>, windowRequests: int, window: Totals, reqBytes: int)

  const START := State([], 0, ZERO, 0)

  datatype Action = Connect | On(conn: nat, event: Event) | NewInterval

  /** What one response adds to the figures of its interval. */
  function Figures(row: Row, m: Message): Totals {
    match Classify(row, m.xid)
    case Dropped => ZERO
    case Counted(i, losses) => Totals(1, losses, m.time - row.reqs[i].time, m.bytes)
  }

  function Apply(st: State, a: Action): State {
    match a
    case Connect => st.(rows := st.rows + [EMPTY_ROW])
    case NewInterval => st.(windowRequests := 0, window := Totals(0, 0, 0.0, st.window.bytes))
    case On(c, e) =>
      if c >= |st.rows| then st
      else match e
        case Sent(m) =>
          st.(rows := st.rows[c := Request(st.rows[c], m)],
              windowRequests := st.windowRequests + 1, reqBytes := st.reqBytes + m.bytes)
        case Got(m) =>
          st.(rows := st.rows[c := Respond(st.rows[c], m)], window := st.window.Plus(Figures(st.rows[c], m)))
  }

  function RunAll(acts: seq<Action>): State {
    if acts == [] then START else Apply(RunAll(acts[..|acts| - 1]), acts[|acts| - 1])
  }

  /** Connections are numbered in the order in which they come up; each has a legal history. */
  ghost predicate Allowed(st: State, a: Action) {
    a.On? ==> a.conn < |st.rows| && LegalNext(st.rows[a.conn].reqs, a.event)
  }

  ghost predicate AllAllowed(acts: seq<Action>) {
    acts != [] ==> AllAllowed(acts[..|acts| - 1]) && Allowed(RunAll(acts[..|acts| - 1]), acts[|acts| - 1])
  }

  /** No row has more answers than requests. */
  ghost predicate Fits(rows: seq<Row>) {
    forall c | 0 <= c < |rows| :: |rows[c].resps| <= |rows[c].reqs|
  }

  ghost predicate AllAligned(rows: seq<Row>) {
    Fits(rows) && forall c | 0 <= c < |rows| :: Aligned(rows[c])
  }

  lemma StepAligned(row: Row, e: Event)
    requires Aligned(row) && LegalNext(row.reqs, e)
    ensures Aligned(Step(row, e))
  {
    match e
    case Sent(m) => RequestKeepsAligned(row, m);
    case Got(m) => IssuedNotInGap(row, m.xid); RespondKeepsAlignedIff(row, m);
  }

  lemma ApplyAligned(st: State, a: Action)
    requires AllAligned(st.rows) && Allowed(st, a)
    ensures AllAligned(Apply(st, a).rows)
  {
    if a.On? { StepAligned(st.rows[a.conn], a.event); }
  }

  /** In every state that a run reaches, every row is aligned. */
  lemma {:induction false} RunAligned(acts: seq<Action>)
    requires AllAllowed(acts)
    ensures AllAligned(RunAll(acts).rows)
  {
    if acts == [] {
    } else {
      RunAligned(acts[..|acts| - 1]);
      ApplyAligned(RunAll(acts[..|acts| - 1]), acts[|acts| - 1]);
    }
  }

  // ----- the history of one connection within a run -----

  function Project(acts: seq<Action>, c: nat): seq<Event> {
    if acts == [] then []
    else
      var a := acts[|acts| - 1];
      Project(acts[..|acts| - 1], c) + (if a.On? && a.conn == c then [a.event] else [])
  }

  lemma {:induction false} ProjectNothing(acts: seq<Action>, c: nat)
    requires AllAllowed(acts) && |RunAll(acts).rows| <= c
    ensures Project(acts, c) == []
  {
    if acts != [] {
      ProjectNothing(acts[..|acts| - 1], c);
    }
  }

  /** Connections do not disturb one another: the row of a connection is the one its own history
      leaves, and that history is legal. */
  lemma {:induction false} ConnectionsIndependent(acts: seq<Action>, c: nat)
    requires AllAllowed(acts) && c < |RunAll(acts).rows|
    ensures Legal(Project(acts, c))
    ensures RunAll(acts).rows[c] == Run(Project(acts, c))
  {
    var before, a := acts[..|acts| - 1], acts[|acts| - 1];
    if c < |RunAll(before).rows| {
      ConnectionsIndependent(before, c);
      if a.On? && a.conn == c {
        RunReflects(Project(before, c));
        RunMore(Project(before, c), a.event);
      } else {
        assert Project(acts, c) == Project(before, c);
      }
    } else {
      ProjectNothing(before, c);
    }
  }

  // ----- the running figures against the rows -----

  /** What one slot of a row is worth. */
  function SlotTotals(q: Message, a: Message): Totals {
    if a.xid == 0 then Totals(0, 1, 0.0, a.bytes) else Totals(1, 0, a.time - q.time, a.bytes)
  }

  function RowTotals(reqs: seq<Message>, resps: seq<Message>): Totals
    requires |resps| <= |reqs|
  {
    if resps == [] then ZERO
    else
      var n := |resps| - 1;
      RowTotals(reqs, resps[..n]).Plus(SlotTotals(reqs[n], resps[n]))
  }

  lemma {:induction false} RowTotalsMoreRequests(reqs: seq<Message>, resps: seq<Message>, m: Message)
    requires |resps| <= |reqs|
    ensures RowTotals(reqs + [m], resps) == RowTotals(reqs, resps)
  {
    if resps != [] {
      RowTotalsMoreRequests(reqs, resps[..|resps| - 1], m);
      assert (reqs + [m])[|resps| - 1] == reqs[|resps| - 1];
    }
  }

  lemma {:induction false} RowTotalsAppend(reqs: seq<Message>, resps: seq<Message>, k: nat, m: Message)
    requires |resps| + k < |reqs|
    ensures RowTotals(reqs, resps + Skipped(k) + [m])
         == RowTotals(reqs, resps).Plus(Totals(0, k, 0.0, 0)).Plus(SlotTotals(reqs[|resps| + k], m))
  {
    var all := resps + Skipped(k) + [m];
    assert all[..|all| - 1] == resps + Skipped(k);
    if k == 0 {
      assert resps + Skipped(k) == resps;
    } else {
      RowTotalsAppend(reqs, resps, k - 1, PLACEHOLDER);
      assert resps + Skipped(k) == resps + Skipped(k - 1) + [PLACEHOLDER];
    }
  }

  lemma {:induction false} RowTotalsUpdate(reqs: seq<Message>, resps: seq<Message>, i: nat, m: Message)
    requires |resps| <= |reqs| && i < |resps|
    ensures RowTotals(reqs, resps[i := m])
         == RowTotals(reqs, resps).Plus(Minus(SlotTotals(reqs[i], m), SlotTotals(reqs[i], resps[i])))
  {
    var n := |resps| - 1;
    if i == n {
      assert resps[i := m][..n] == resps[..n];
    } else {
      RowTotalsUpdate(reqs, resps[..n], i, m);
      assert resps[i := m][..n] == resps[..n][i := m];
    }
  }

  /** What an old repeat throws away: the answer it overwrites, counted once more. */
  function Displaced(row: Row, x: nat): Totals
  {
    if Overwrites(row, x) then
      var i := Classify(row, x).index;
      Totals(1, -1, row.resps[i].time - row.reqs[i].time, row.resps[i].bytes)
    else ZERO
  }

  lemma LateTotals(row: Row, m: Message, i: nat)
    requires |row.resps| <= |row.reqs| && m.xid != 0
    requires Classify(row, m.xid) == Counted(i, -1)
    requires row.resps[i].xid == 0 ==> row.resps[i] == PLACEHOLDER
    ensures RowTotals(row.reqs, row.resps).Plus(Figures(row, m))
         == RowTotals(row.reqs, row.resps[i := m]).Plus(Displaced(row, m.xid))
  {
    RowTotalsUpdate(row.reqs, row.resps, i, m);
    assert Figures(row, m) == Totals(1, -1, m.time - row.reqs[i].time, m.bytes);
    if row.resps[i].xid == 0 {
      assert Displaced(row, m.xid) == ZERO;
    } else {
      assert Displaced(row, m.xid) == Totals(1, -1, row.resps[i].time - row.reqs[i].time, row.resps[i].bytes);
    }
  }

  lemma NewTotals(row: Row, m: Message, i: nat, k: nat)
    requires |row.resps| <= |row.reqs| && m.xid != 0
    requires Classify(row, m.xid) == Counted(i, k)
    ensures i == |row.resps| + k
    ensures RowTotals(row.reqs, row.resps).Plus(Figures(row, m))
         == RowTotals(row.reqs, row.resps + Skipped(k) + [m]).Plus(Displaced(row, m.xid))
  {
    RowTotalsAppend(row.reqs, row.resps, k, m);
  }

  /** The figures of a response are what it adds to its row, plus what it throws away. */
  lemma RespondTotals(row: Row, m: Message)
    requires Aligned(row) && m.xid != 0
    ensures |Respond(row, m).resps| <= |row.reqs|
    ensures RowTotals(row.reqs, row.resps).Plus(Figures(row, m))
         == RowTotals(row.reqs, Respond(row, m).resps).Plus(Displaced(row, m.xid))
  {
    match Classify(row, m.xid)
    case Dropped =>
    case Counted(i, losses) =>
      if losses < 0 {
        LateTotals(row, m, i);
      } else {
        NewTotals(row, m, i, losses);
      }
  }

  function AllTotals(rows: seq<Row>): Totals
    requires Fits(rows)
  {
    if rows == [] then ZERO
    else
      var n := |rows| - 1;
      AllTotals(rows[..n]).Plus(RowTotals(rows[n].reqs, rows[n].resps))
  }

  lemma {:induction false} AllTotalsUpdate(rows: seq<Row>, c: nat, row: Row)
    requires Fits(rows)
    requires c < |rows| && |row.resps| <= |row.reqs|
    ensures Fits(rows[c := row])
    ensures AllTotals(rows[c := row])
         == AllTotals(rows).Plus(Minus(RowTotals(row.reqs, row.resps), RowTotals(rows[c].reqs, rows[c].resps)))
  {
    hide RowTotals, Totals.Plus, Minus;
    var n, rest := |rows| - 1, rows[..|rows| - 1];
    var old_, new_ := RowTotals(rows[c].reqs, rows[c].resps), RowTotals(row.reqs, row.resps);
    if c == n {
      assert rows[c := row][..n] == rest;
      PlusMinus(AllTotals(rest), old_, new_);
    } else {
      AllTotalsUpdate(rest, c, row);
      assert rows[c := row][..n] == rest[c := row];
      PlusSwap(AllTotals(rest), Minus(new_, old_), RowTotals(rows[n].reqs, rows[n].resps));
    }
  }

  /** The figures of all intervals closed so far. */
  function Closed(acts: seq<Action>): Totals {
    if acts == [] then ZERO
    else
      var before := acts[..|acts| - 1];
      if acts[|acts| - 1].NewInterval? then Closed(before).Plus(RunAll(before).window.(bytes := 0))
      else Closed(before)
  }

  /** The figures over all intervals, the current one included. */
  function Grand(acts: seq<Action>): Totals {
    Closed(acts).Plus(RunAll(acts).window)
  }

  function EventFigures(row: Row, e: Event): Totals {
    match e case Sent(_) => ZERO case Got(m) => Figures(row, m)
  }

  function EventDisplaced(row: Row, e: Event): Totals {
    match e case Sent(_) => ZERO case Got(m) => Displaced(row, m.xid)
  }

  /** What all old repeats of a run have thrown away. */
  function AllDisplaced(acts: seq<Action>): Totals {
    if acts == [] then ZERO
    else
      var before, a := acts[..|acts| - 1], acts[|acts| - 1];
      AllDisplaced(before).Plus(DisplacedBy(RunAll(before), a))
  }

  function DisplacedBy(st: State, a: Action): Totals {
    if a.On? && a.conn < |st.rows| then EventDisplaced(st.rows[a.conn], a.event) else ZERO
  }

  /** What an action adds to the figures over all intervals. */
  function Adds(st: State, a: Action): Totals {
    if a.On? && a.conn < |st.rows| then EventFigures(st.rows[a.conn], a.event) else ZERO
  }

  lemma StepTotals(row: Row, e: Event)
    requires Aligned(row) && LegalNext(row.reqs, e)
    ensures Aligned(Step(row, e)) && |Step(row, e).resps| <= |Step(row, e).reqs|
    ensures RowTotals(row.reqs, row.resps).Plus(EventFigures(row, e))
         == RowTotals(Step(row, e).reqs, Step(row, e).resps).Plus(EventDisplaced(row, e))
  {
    StepAligned(row, e);
    match e
    case Sent(m) => RowTotalsMoreRequests(row.reqs, row.resps, m);
    case Got(m) => RespondTotals(row, m);
  }

  lemma ReplaceRow(rows: seq<Row>, c: nat, row: Row, added: Totals, lost: Totals)
    requires Fits(rows) && c < |rows| && |row.resps| <= |row.reqs|
    requires RowTotals(rows[c].reqs, rows[c].resps).Plus(added) == RowTotals(row.reqs, row.resps).Plus(lost)
    ensures Fits(rows[c := row])
    ensures AllTotals(rows[c := row]).Plus(lost) == AllTotals(rows).Plus(added)
  {
    AllTotalsUpdate(rows, c, row);
    Exchange(AllTotals(rows), RowTotals(rows[c].reqs, rows[c].resps), RowTotals(row.reqs, row.resps), added, lost);
  }

  lemma GrandStep(acts: seq<Action>)
    requires acts != []
    ensures Grand(acts) == Grand(acts[..|acts| - 1]).Plus(Adds(RunAll(acts[..|acts| - 1]), acts[|acts| - 1]))
  {
    hide Totals.Plus, Figures, Respond, Request;
    var before, a := acts[..|acts| - 1], acts[|acts| - 1];
    var w := RunAll(before).window;
    PlusZero(Closed(before).Plus(w));
    match a
    case Connect =>
    case NewInterval => CloseWindow(Closed(before), w);
    case On(c, e) =>
      if c < |RunAll(before).rows| && e.Got? {
        PlusAssociates(Closed(before), w, Figures(RunAll(before).rows[c], e.m));
      }
  }

  lemma OnTotals(rows: seq<Row>, c: nat, e: Event)
    requires AllAligned(rows) && c < |rows| && LegalNext(rows[c].reqs, e)
    ensures AllAligned(rows[c := Step(rows[c], e)])
    ensures AllTotals(rows[c := Step(rows[c], e)]).Plus(EventDisplaced(rows[c], e))
         == AllTotals(rows).Plus(EventFigures(rows[c], e))
  {
    hide Aligned, Step, RowTotals, AllTotals, LegalNext;
    StepTotals(rows[c], e);
    ReplaceRow(rows, c, Step(rows[c], e), EventFigures(rows[c], e), EventDisplaced(rows[c], e));
  }

  lemma ConnectTotals(rows: seq<Row>)
    requires AllAligned(rows)
    ensures AllAligned(rows + [EMPTY_ROW])
    ensures AllTotals(rows + [EMPTY_ROW]) == AllTotals(rows)
  {
    assert Aligned(EMPTY_ROW);
    hide Aligned;
    assert (rows + [EMPTY_ROW])[..|rows|] == rows;
  }

  lemma ApplyTotals(st: State, a: Action)
    requires AllAligned(st.rows) && Allowed(st, a)
    ensures AllAligned(Apply(st, a).rows)
    ensures AllTotals(Apply(st, a).rows).Plus(DisplacedBy(st, a)) == AllTotals(st.rows).Plus(Adds(st, a))
  {
    match a
    case NewInterval =>
    case Connect => ConnectTotals(st.rows);
    case On(c, e) =>
      OnTotals(st.rows, c, e);
      assert Apply(st, a).rows == st.rows[c := Step(st.rows[c], e)];
  }

  /** In every run the figures over all intervals are the totals of the rows, plus what old
      repeats have thrown away. */
  lemma {:induction false} FiguresMatchRows(acts: seq<Action>)
    requires AllAllowed(acts)
    ensures AllAligned(RunAll(acts).rows)
    ensures Grand(acts) == AllTotals(RunAll(acts).rows).Plus(AllDisplaced(acts))
  {
    if acts == [] {
    } else {
      hide Totals.Plus, Grand, Apply, DisplacedBy, Adds, Allowed, AllTotals;
      var before, a := acts[..|acts| - 1], acts[|acts| - 1];
      var st := RunAll(before);
      FiguresMatchRows(before);
      GrandStep(acts);
      ApplyTotals(st, a);
      Carry(AllTotals(st.rows), AllDisplaced(before), AllTotals(Apply(st, a).rows), DisplacedBy(st, a), Adds(st, a));
    }
  }

  // ----- when nothing is thrown away -----

  /** No connection saw an old answer repeated. */
  ghost predicate Clean(acts: seq<Action>) {
    forall c: nat :: Repeats(Project(acts, c)) == 0
  }

  /** The action repeats an old answer on its connection. */
  ghost predicate RepeatsOld(before: seq<Action>, a: Action) {
    a.On? && IsRepeat(Requests(Project(before, a.conn)), Answers(Project(before, a.conn)), a.event)
  }

  lemma ProjectRepeats(before: seq<Action>, a: Action, c: nat)
    ensures Repeats(Project(before + [a], c))
         == Repeats(Project(before, c)) + if RepeatsOld(before, a) && a.conn == c then 1 else 0
  {
    hide IsRepeat;
    var es := Project(before, c);
    assert (before + [a])[..|before|] == before;
    if a.On? && a.conn == c {
      assert (es + [a.event])[..|es|] == es;
    } else {
      assert es + [] == es;
    }
  }

  lemma CleanStep(before: seq<Action>, a: Action)
    ensures Clean(before + [a]) <==> Clean(before) && !RepeatsOld(before, a)
  {
    forall c: nat
      ensures Repeats(Project(before + [a], c))
           == Repeats(Project(before, c)) + if RepeatsOld(before, a) && a.conn == c then 1 else 0
    {
      ProjectRepeats(before, a, c);
    }
    if RepeatsOld(before, a) {
      assert Repeats(Project(before + [a], a.conn)) != 0;
    }
    if Clean(before + [a]) {
      forall c: nat ensures Repeats(Project(before, c)) == 0 {
        assert Repeats(Project(before + [a], c)) == 0;
      }
    }
  }

  lemma DisplacedIsRepeat(acts: seq<Action>, a: Action)
    requires AllAllowed(acts) && Allowed(RunAll(acts), a)
    ensures DisplacedBy(RunAll(acts), a).answers == if RepeatsOld(acts, a) then 1 else 0
  {
    if a.On? { OnRepeat(acts, a); }
  }

  lemma OnRepeat(acts: seq<Action>, a: Action)
    requires AllAllowed(acts) && Allowed(RunAll(acts), a) && a.On?
    ensures DisplacedBy(RunAll(acts), a).answers == if RepeatsOld(acts, a) then 1 else 0
  {
    ConnectionsIndependent(acts, a.conn);
    RunReflects(Project(acts, a.conn));
    hide Reflects, Classify;
    match a.event
    case Sent(_) =>
    case Got(m) =>
      var es := Project(acts, a.conn);
      OverwritesIffOldRepeat(RunAll(acts).rows[a.conn], Requests(es), Answers(es), m.xid);
  }

  lemma DisplacedShape(st: State, a: Action)
    ensures DisplacedBy(st, a) == ZERO || DisplacedBy(st, a).answers == 1
  {
  }

  lemma {:induction false} DisplacedNothingIff(acts: seq<Action>)
    requires AllAllowed(acts)
    ensures AllDisplaced(acts).answers >= 0
    ensures AllDisplaced(acts).answers == 0 <==> Clean(acts)
  {
    if acts == [] {
    } else {
      hide Clean, DisplacedBy, RepeatsOld, Allowed, Apply;
      var before, a := acts[..|acts| - 1], acts[|acts| - 1];
      DisplacedNothingIff(before);
      assert before + [a] == acts;
      CleanStep(before, a);
      DisplacedIsRepeat(before, a);
    }
  }

  lemma {:induction false} CleanDisplacesNothing(acts: seq<Action>)
    requires AllAllowed(acts) && Clean(acts)
    ensures AllDisplaced(acts) == ZERO
  {
    if acts == [] {
    } else {
      hide Clean, DisplacedBy, RepeatsOld, Allowed, Apply;
      var before, a := acts[..|acts| - 1], acts[|acts| - 1];
      assert before + [a] == acts;
      CleanStep(before, a);
      CleanDisplacesNothing(before);
      DisplacedIsRepeat(before, a);
      DisplacedShape(RunAll(before), a);
    }
  }

  /** The number of answers counted over all intervals is the number of answers in the rows exactly
      when no connection saw an old answer repeated; then all other figures agree as well. */
  lemma FiguresExactIff(acts: seq<Action>)
    requires AllAllowed(acts)
    ensures AllAligned(RunAll(acts).rows)
    ensures Grand(acts).answers == AllTotals(RunAll(acts).rows).answers <==> Clean(acts)
    ensures Clean(acts) ==> Grand(acts) == AllTotals(RunAll(acts).rows)
  {
    hide Clean, Grand, RunAll, Aligned;
    FiguresMatchRows(acts);
    DisplacedNothingIff(acts);
    if Clean(acts) {
      CleanDisplacesNothing(acts);
      PlusZero(AllTotals(RunAll(acts).rows));
    }
  }

  /** How often a response of the run repeated an old answer. */
  ghost function RepeatCount(acts: seq<Action>): (n: nat) {
    if acts == [] then 0
    else
      var before, a := acts[..|acts| - 1], acts[|acts| - 1];
      RepeatCount(before) + if RepeatsOld(before, a) then 1 else 0
  }

  lemma {:induction false} DisplacedCount(acts: seq<Action>)
    requires AllAllowed(acts)
    ensures AllDisplaced(acts).answers == RepeatCount(acts)
  {
    if acts == [] {
    } else {
      hide DisplacedBy, RepeatsOld, Allowed, Apply;
      DisplacedCount(acts[..|acts| - 1]);
      DisplacedIsRepeat(acts[..|acts| - 1], acts[|acts| - 1]);
    }
  }

  /** In every run, as many answers too many are counted as old answers were repeated. */
  lemma ExcessIsRepeats(acts: seq<Action>)
    requires AllAllowed(acts)
    ensures AllAligned(RunAll(acts).rows)
    ensures Grand(acts).answers == AllTotals(RunAll(acts).rows).answers + RepeatCount(acts)
  {
    hide Grand, RunAll, Aligned, AllDisplaced, RepeatCount;
    FiguresMatchRows(acts);
    DisplacedCount(acts);
  }

  /** The history of one connection, as a run of all connections. */
  function Alone(es: seq<Event>): seq<Action> {
    if es == [] then [Connect] else Alone(es[..|es| - 1]) + [On(0, es[|es| - 1])]
  }

  lemma {:induction false} AloneIs(es: seq<Event>)
    requires Legal(es)
    ensures AllAllowed(Alone(es)) && RunAll(Alone(es)).rows == [Run(es)]
    ensures Project(Alone(es), 0) == es && RepeatCount(Alone(es)) == Repeats(es)
  {
    hide IsRepeat, LegalNext, Request, Respond;
    if es == [] {
      AloneAtFirst();
    } else {
      var front, e := es[..|es| - 1], es[|es| - 1];
      assert es == front + [e];
      AloneIs(front);
      RunReflects(front);
      AloneMore(front, e);
    }
  }

  lemma AloneAtFirst()
    ensures AllAllowed([Connect]) && RunAll([Connect]).rows == [Run([])]
    ensures Project([Connect], 0) == [] && RepeatCount([Connect]) == Repeats([])
  {
    var one := [Connect];
    assert one[..0] == [] && [] + [EMPTY_ROW] == [EMPTY_ROW];
  }

  lemma AloneRow(acts: seq<Action>, row: Row, e: Event)
    requires AllAllowed(acts) && RunAll(acts).rows == [row] && LegalNext(row.reqs, e)
    ensures AllAllowed(acts + [On(0, e)]) && RunAll(acts + [On(0, e)]).rows == [Step(row, e)]
  {
    hide LegalNext, Request, Respond;
    assert (acts + [On(0, e)])[..|acts|] == acts;
    assert [row][0 := Step(row, e)] == [Step(row, e)];
  }

  lemma AloneCount(acts: seq<Action>, es: seq<Event>, e: Event)
    requires Project(acts, 0) == es
    ensures Project(acts + [On(0, e)], 0) == es + [e]
    ensures RepeatCount(acts + [On(0, e)])
         == RepeatCount(acts) + if IsRepeat(Requests(es), Answers(es), e) then 1 else 0
  {
    hide IsRepeat;
    assert (acts + [On(0, e)])[..|acts|] == acts;
  }

  lemma AloneAppend(front: seq<Event>, e: Event)
    ensures Alone(front + [e]) == Alone(front) + [On(0, e)]
  {
    assert (front + [e])[..|front|] == front;
  }

  lemma AloneMore(front: seq<Event>, e: Event)
    requires Legal(front + [e]) && Legal(front) && Run(front).reqs == Requests(front)
    requires AllAllowed(Alone(front)) && RunAll(Alone(front)).rows == [Run(front)]
    requires Project(Alone(front), 0) == front && RepeatCount(Alone(front)) == Repeats(front)
    ensures AllAllowed(Alone(front + [e])) && RunAll(Alone(front + [e])).rows == [Run(front + [e])]
    ensures Project(Alone(front + [e]), 0) == front + [e] && RepeatCount(Alone(front + [e])) == Repeats(front + [e])
  {
    hide Run, RunAll, Alone, Legal, AllAllowed, Repeats, RepeatCount, Project, Requests, Answers, IsRepeat;
    hide LegalNext, Step, Allowed, Apply;
    AloneAppend(front, e);
    RunMore(front, e);
    AnswersMore(front, e);
    AloneRow(Alone(front), Run(front), e);
    AloneCount(Alone(front), front, e);
  }

  /** Such a history, of three requests: two answers are in the row, three are counted. */
  lemma RepeatIsCountedTwice(q1: Message, q2: Message, q3: Message, a2: Message, a3: Message)
    requires 0 < q1.xid < q2.xid < q3.xid && a2.xid == q2.xid && a3.xid == q3.xid
    ensures var acts := Alone(Repeating(q1, q2, q3, a2, a3));
      && AllAllowed(acts) && !Clean(acts) && Grand(acts).answers == 3
      && Fits(RunAll(acts).rows) && AllTotals(RunAll(acts).rows).answers == 2
  {
    var es := Repeating(q1, q2, q3, a2, a3);
    hide Repeating, Grand, RunAll, Run, Legal, Repeats, Project, RepeatCount, Alone, AllAllowed;
    RepeatMiscounts(q1, q2, q3, a2, a3);
    AloneIs(es);
    ExcessIsRepeats(Alone(es));
    AnswersOfThree([q1, q2, q3], PLACEHOLDER, a2, a3);
    OneRow(Run(es));
    assert Repeats(Project(Alone(es), 0)) != 0;
  }

  lemma OneSlotMore(reqs: seq<Message>, resps: seq<Message>, m: Message)
    requires |resps| < |reqs|
    ensures RowTotals(reqs, resps + [m]).answers == RowTotals(reqs, resps).answers + if m.xid == 0 then 0 else 1
  {
    assert (resps + [m])[..|resps|] == resps;
  }

  lemma NoSlots(reqs: seq<Message>)
    ensures RowTotals(reqs, []).answers == 0
  {}

  lemma AnswersOfThree(reqs: seq<Message>, a1: Message, a2: Message, a3: Message)
    requires |reqs| == 3 && a1.xid == 0 && a2.xid != 0 && a3.xid != 0
    ensures RowTotals(reqs, [a1, a2, a3]).answers == 2
  {
    hide RowTotals;
    NoSlots(reqs);
    OneSlotMore(reqs, [], a1);
    OneSlotMore(reqs, [a1], a2);
    OneSlotMore(reqs, [a1, a2], a3);
    assert [] + [a1] == [a1] && [a1] + [a2] == [a1, a2] && [a1, a2] + [a3] == [a1, a2, a3];
  }

  lemma OneRow(row: Row)
    requires |row.resps| <= |row.reqs|
    ensures Fits([row]) && AllTotals([row]).answers == RowTotals(row.reqs, row.resps).answers
  {
    var one := [row];
    assert one[..0] == [];
  }

  // ----- the figures of the requests -----

  function BytesOf(reqs: seq<Message>): nat {
    if reqs == [] then 0 else BytesOf(reqs[..|reqs| - 1]) + reqs[|reqs| - 1].bytes
  }

  /** How many requests the rows hold, and their bytes. */
  function RequestTotals(rows: seq<Row>): (nat, nat) {
    if rows == [] then (0, 0)
    else
      var n := |rows| - 1;
      var rest := RequestTotals(rows[..n]);
      (rest.0 + |rows[n].reqs|, rest.1 + BytesOf(rows[n].reqs))
  }

  lemma BytesMore(reqs: seq<Message>, m: Message)
    ensures BytesOf(reqs + [m]) == BytesOf(reqs) + m.bytes
  {
    assert (reqs + [m])[..|reqs|] == reqs;
  }

  lemma {:induction false} RequestsUpdate(rows: seq<Row>, c: nat, row: Row)
    requires c < |rows|
    ensures RequestTotals(rows[c := row]).0 == RequestTotals(rows).0 - |rows[c].reqs| + |row.reqs|
    ensures RequestTotals(rows[c := row]).1 == RequestTotals(rows).1 - BytesOf(rows[c].reqs) + BytesOf(row.reqs)
  {
    hide BytesOf;
    var n := |rows| - 1;
    if c == n {
      assert rows[c := row][..n] == rows[..n];
    } else {
      RequestsUpdate(rows[..n], c, row);
      assert rows[c := row][..n] == rows[..n][c := row];
    }
  }

  /** The requests of all intervals closed so far. */
  function ClosedRequests(acts: seq<Action>): int {
    if acts == [] then 0
    else
      var before := acts[..|acts| - 1];
      ClosedRequests(before) + if acts[|acts| - 1].NewInterval? then RunAll(before).windowRequests else 0
  }

  lemma RespondRequests(row: Row, m: Message)
    ensures Respond(row, m).reqs == row.reqs
  {
  }

  lemma RequestFiguresStep(st: State, a: Action)
    ensures !a.NewInterval? ==>
      Apply(st, a).windowRequests - st.windowRequests == RequestTotals(Apply(st, a).rows).0 - RequestTotals(st.rows).0
    ensures a.NewInterval? ==> Apply(st, a).windowRequests == 0 && Apply(st, a).rows == st.rows
    ensures Apply(st, a).reqBytes - st.reqBytes == RequestTotals(Apply(st, a).rows).1 - RequestTotals(st.rows).1
  {
    hide Respond, BytesOf, RequestTotals;
    match a
    case NewInterval =>
    case Connect => RequestsConnect(st.rows);
    case On(c, e) =>
      if c < |st.rows| {
        RequestsUpdate(st.rows, c, Step(st.rows[c], e));
        match e
        case Sent(m) => BytesMore(st.rows[c].reqs, m);
        case Got(m) => RespondRequests(st.rows[c], m);
      }
  }

  lemma RequestsConnect(rows: seq<Row>)
    ensures RequestTotals(rows + [EMPTY_ROW]) == RequestTotals(rows)
  {
    assert (rows + [EMPTY_ROW])[..|rows|] == rows;
  }

  /** In every run the requests reported over all intervals, the current one included, are as many as were
      sent, and the byte total is the sum of their sizes. */
  lemma {:induction false} RequestFigures(acts: seq<Action>)
    ensures ClosedRequests(acts) + RunAll(acts).windowRequests == RequestTotals(RunAll(acts).rows).0
    ensures RunAll(acts).reqBytes == RequestTotals(RunAll(acts).rows).1
  {
    hide Apply, RequestTotals;
    if acts == [] {
      NothingSent();
    } else {
      RequestFigures(acts[..|acts| - 1]);
      RequestFiguresStep(RunAll(acts[..|acts| - 1]), acts[|acts| - 1]);
    }
  }

  lemma NothingSent()
    ensures RequestTotals([]) == (0, 0)
  {
  }

  // ----- losses -----

  function SumMissing(rows: seq<Row>): nat {
    if rows == [] then 0 else SumMissing(rows[..|rows| - 1]) + rows[|rows| - 1].missing
  }

  lemma {:induction false} SumMissingUpdate(rows: seq<Row>, c: nat, row: Row)
    requires c < |rows|
    ensures SumMissing(rows[c := row]) == SumMissing(rows) + row.missing - rows[c].missing
  {
    var n := |rows| - 1;
    if c == n {
      assert rows[c := row][..n] == rows[..n];
    } else {
      SumMissingUpdate(rows[..n], c, row);
      assert rows[c := row][..n] == rows[..n][c := row];
    }
  }

  lemma NothingLost()
    ensures SameWord(SumMissing(RunAll([]).rows), Grand([]).losses)
  {
    hide Apply, SameWord;
    assert RunAll([]) == START && Closed([]) == ZERO;
    SameWordSelf(0);
  }

  /** Equal as 32-bit values. */
  predicate SameWord(x: int, y: int) {
    (x - y) % WORD == 0
  }

  lemma SameWordAdd(x: int, y: int, dx: int, dy: int)
    requires SameWord(x, y) && SameWord(dx, dy)
    ensures SameWord(x + dx, y + dy)
  {
    assert x + dx - (y + dy) == (x - y) + (dx - dy);
  }

  lemma SameWordSelf(x: int)
    ensures SameWord(x, x)
  {}

  /** The missing responses of all connections are the losses over all intervals, as 32-bit values:
      in every run, single intervals with negative losses and old repeats included. */
  lemma {:induction false} LossesConserved(acts: seq<Action>)
    ensures SameWord(SumMissing(RunAll(acts).rows), Grand(acts).losses)
  {
    hide Apply, Adds, Grand, SumMissing, SameWord;
    if acts == [] {
      NothingLost();
    } else {
      var before, a := acts[..|acts| - 1], acts[|acts| - 1];
      LossesConserved(before);
      GrandStep(acts);
      LossesStep(RunAll(before), a, Grand(before).losses);
    }
  }

  lemma LossesStep(st: State, a: Action, losses: int)
    requires SameWord(SumMissing(st.rows), losses)
    ensures SameWord(SumMissing(Apply(st, a).rows), losses + Adds(st, a).losses)
  {
    hide SameWord;
    match a
    case NewInterval =>
    case Connect => assert (st.rows + [EMPTY_ROW])[..|st.rows|] == st.rows;
    case On(c, e) => if c < |st.rows| { OnLosses(st.rows, c, e, losses); }
  }

  lemma OnLosses(rows: seq<Row>, c: nat, e: Event, losses: int)
    requires c < |rows| && SameWord(SumMissing(rows), losses)
    ensures SameWord(SumMissing(rows[c := Step(rows[c], e)]), losses + EventFigures(rows[c], e).losses)
  {
    SumMissingUpdate(rows, c, Step(rows[c], e));
    StepLosses(rows[c], e);
    hide Step, EventFigures, SumMissing, SameWord;
    SameWordAdd(SumMissing(rows), losses, Step(rows[c], e).missing - rows[c].missing, EventFigures(rows[c], e).losses);
  }

  lemma StepLosses(row: Row, e: Event)
    ensures SameWord(Step(row, e).missing - row.missing, EventFigures(row, e).losses)
  {
    hide Locate;
  }

  lemma {:induction false} LossesArePlaceholders(reqs: seq<Message>, resps: seq<Message>)
    requires |resps| <= |reqs|
    ensures RowTotals(reqs, resps).losses == Placeholders(resps)
  {
    if resps != [] { LossesArePlaceholders(reqs, resps[..|resps| - 1]); }
  }

  lemma {:induction false} MissingAreLosses(rows: seq<Row>)
    requires Fits(rows)
    requires forall c | 0 <= c < |rows| :: rows[c].missing == Placeholders(rows[c].resps)
    ensures SumMissing(rows) == AllTotals(rows).losses
  {
    if rows != [] {
      var n := |rows| - 1;
      MissingAreLosses(rows[..n]);
      LossesArePlaceholders(rows[n].reqs, rows[n].resps);
    }
  }

  lemma {:induction false} ProjectBound(acts: seq<Action>, c: nat)
    ensures |Project(acts, c)| <= |acts|
  {
    if acts != [] { ProjectBound(acts[..|acts| - 1], c); }
  }

  /** Without old repeats the losses over all intervals are exactly the missing responses of all
      connections, and those of one connection are exactly its placeholders. */
  lemma LossesExact(acts: seq<Action>)
    requires AllAllowed(acts) && |acts| < WORD && Clean(acts)
    ensures Grand(acts).losses == SumMissing(RunAll(acts).rows)
    ensures forall c | 0 <= c < |RunAll(acts).rows| ::
      RunAll(acts).rows[c].missing == Placeholders(RunAll(acts).rows[c].resps)
  {
    hide RunAll, AllAllowed, Run, Repeats, Placeholders, Aligned, Grand;
    FiguresExactIff(acts);
    forall c | 0 <= c < |RunAll(acts).rows|
      ensures RunAll(acts).rows[c].missing == Placeholders(RunAll(acts).rows[c].resps)
    {
      ConnectionsIndependent(acts, c);
      ProjectBound(acts, c);
      MissingExactIff(Project(acts, c));
    }
    MissingAreLosses(RunAll(acts).rows);
  }
}
