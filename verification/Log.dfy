/** The logfile: one line per request, and its agreement with the figures kept while running. */
module Log {
  import opened Accounting
  import opened History
  import opened Ledger

  datatype Line = Line(
    reqXid: nat, reqType: nat, reqTime: real, reqBytes: nat,
    respType: nat, respTime: real, respBytes: nat, latency: real, conn: nat)

  /** The slot that the log pairs with request r: zeros when the row is not that long yet. */
  function SlotOf(resps: seq<Message>, r: nat): Message {
    if r < |resps| then resps[r] else PLACEHOLDER
  }

  function LineFor(q: Message, a: Message, c: nat): Line {
    Line(q.xid, q.kind, q.time, q.bytes, a.kind, a.time, a.bytes,
         if a.time == 0.0 then 0.0 else (a.time - q.time) * 1000.0, c)
  }

  function RowLines(row: Row, c: nat): (lines: seq<Line>)
    ensures |lines| == |row.reqs|
  {
    seq(|row.reqs|, r requires 0 <= r < |row.reqs| => LineFor(row.reqs[r], SlotOf(row.resps, r), c))
  }

  function AllLines(rows: seq<Row>): seq<Line> {
    if rows == [] then [] else AllLines(rows[..|rows| - 1]) + RowLines(rows[|rows| - 1], |rows| - 1)
  }

  // ----- a line shows its own answer -----

  /** In every run, line r of a connection shows the answer to request r when that request counts
      as answered, and zeros when it does not. */
  lemma LineShowsOwnAnswer(acts: seq<Action>, c: nat, r: nat)
    requires AllAllowed(acts) && c < |RunAll(acts).rows| && r < |RunAll(acts).rows[c].reqs|
    ensures var s, g, row := Requests(Project(acts, c)), Answers(Project(acts, c)), RunAll(acts).rows[c];
      && r < |s| && RowLines(row, c)[r].reqXid == s[r].xid
      && (r in AnswerSet(s, g) ==>
            exists a | a in g && a.xid == s[r].xid :: RowLines(row, c)[r] == LineFor(s[r], a, c))
      && (r !in AnswerSet(s, g) ==> RowLines(row, c)[r] == LineFor(s[r], PLACEHOLDER, c))
  {
    hide AnswerSet, Run, RunAll, AllAllowed, Legal, Requests, Answers;
    ConnectionsIndependent(acts, c);
    FinalRow(Project(acts, c));
    var s, g, row := Requests(Project(acts, c)), Answers(Project(acts, c)), RunAll(acts).rows[c];
    if r in AnswerSet(s, g) {
      assert SlotOf(row.resps, r) in g && SlotOf(row.resps, r).xid == s[r].xid;
    }
  }

  // ----- reading the log back -----

  /** The lines of one connection, in the order in which they stand in the log. */
  function LinesOf(lines: seq<Line>, c: nat): seq<Line> {
    if lines == [] then []
    else LinesOf(lines[..|lines| - 1], c) + if lines[|lines| - 1].conn == c then [lines[|lines| - 1]] else []
  }

  /** The requests that lines tell of. */
  function RequestsIn(lines: seq<Line>): (s: seq<Message>)
    ensures |s| == |lines|
  {
    seq(|lines|, i requires 0 <= i < |lines| =>
      Message(lines[i].reqXid, lines[i].reqTime, lines[i].reqBytes, lines[i].reqType))
  }

  lemma {:induction false} LinesOfAppend(a: seq<Line>, b: seq<Line>, c: nat)
    ensures LinesOf(a + b, c) == LinesOf(a, c) + LinesOf(b, c)
  {
    if b == [] {
      assert a + b == a;
    } else {
      LinesOfAppend(a, b[..|b| - 1], c);
      assert (a + b)[..|a + b| - 1] == a + b[..|b| - 1];
    }
  }

  lemma {:induction false} LinesOfSame(lines: seq<Line>, c: nat, d: nat)
    requires forall l | l in lines :: l.conn == d
    ensures LinesOf(lines, c) == if c == d then lines else []
  {
    if lines == [] {
    } else {
      assert forall l | l in lines[..|lines| - 1] :: l in lines;
      LinesOfSame(lines[..|lines| - 1], c, d);
    }
  }

  lemma {:induction false} LinesOfAll(rows: seq<Row>, c: nat)
    ensures LinesOf(AllLines(rows), c) == if c < |rows| then RowLines(rows[c], c) else []
  {
    hide LinesOf;
    if rows == [] {
      LinesOfSame([], c, 0);
    } else {
      var n := |rows| - 1;
      LinesOfAll(rows[..n], c);
      LinesOfAppend(AllLines(rows[..n]), RowLines(rows[n], n), c);
      LinesOfSame(RowLines(rows[n], n), c, n);
    }
  }

  /** The log lists the connections one after the other. */
  lemma {:induction false} LinesInOrder(rows: seq<Row>)
    ensures forall i | 0 <= i < |AllLines(rows)| :: AllLines(rows)[i].conn < |rows|
    ensures forall i, j | 0 <= i < j < |AllLines(rows)| :: AllLines(rows)[i].conn <= AllLines(rows)[j].conn
  {
    hide LineFor;
    if rows == [] {
    } else {
      LinesInOrder(rows[..|rows| - 1]);
      LinesHaveConn(rows[|rows| - 1], |rows| - 1);
    }
  }

  lemma LinesHaveConn(row: Row, c: nat)
    ensures forall i | 0 <= i < |row.reqs| :: RowLines(row, c)[i].conn == c
  {
  }

  /** For every run, the requests read back from the lines of a connection, in order, are exactly the
      requests sent on it: ids, times, sizes and types. */
  lemma RequestsReadBack(acts: seq<Action>, c: nat)
    requires AllAllowed(acts) && c < |RunAll(acts).rows|
    ensures RequestsIn(LinesOf(AllLines(RunAll(acts).rows), c)) == Requests(Project(acts, c))
  {
    hide LinesOf, AllLines, Run, RunAll, AllAllowed, Legal, Requests, Answers;
    ConnectionsIndependent(acts, c);
    RunReflects(Project(acts, c));
    LinesOfAll(RunAll(acts).rows, c);
  }

  /** What line l tells of the answer to its request is what answer a was: its time, size and type, and the
      time from request to answer in milliseconds. */
  predicate TellsOf(l: Line, a: Message) {
    && l.respTime == a.time && l.respBytes == a.bytes && l.respType == a.kind
    && l.latency == if a.time == 0.0 then 0.0 else (a.time - l.reqTime) * 1000.0
  }

  /** For every run, line r of a connection tells of the copy of the answer to request r that is kept, and
      of nothing when the request does not count as answered. */
  lemma AnswersReadBack(acts: seq<Action>, c: nat, r: nat)
    requires AllAllowed(acts) && c < |RunAll(acts).rows| && r < |Requests(Project(acts, c))|
    ensures var s, g := Requests(Project(acts, c)), Answers(Project(acts, c));
      var lines := LinesOf(AllLines(RunAll(acts).rows), c);
      && r < |lines|
      && (r in AnswerSet(s, g) ==> exists a :: Keeps(s, g, a) && a.xid == s[r].xid && TellsOf(lines[r], a))
      && (r !in AnswerSet(s, g) ==>
            lines[r].respTime == lines[r].latency == 0.0 && lines[r].respBytes == lines[r].respType == 0)
  {
    hide AnswerSet, Keeps, LinesOf, AllLines, Run, RunAll, AllAllowed, Legal, Requests, Answers;
    ConnectionsIndependent(acts, c);
    FinalRow(Project(acts, c));
    LinesOfAll(RunAll(acts).rows, c);
    var s, g, row := Requests(Project(acts, c)), Answers(Project(acts, c)), RunAll(acts).rows[c];
    if r in AnswerSet(s, g) {
      assert Keeps(s, g, row.resps[r]) && row.resps[r].xid == s[r].xid;
      assert TellsOf(RowLines(row, c)[r], row.resps[r]);
    }
  }

  // ----- summing up the log -----

  /** Answered lines, their latency in milliseconds, and their bytes. */
  function LineTotals(l: Line): Totals {
    Totals(if l.respTime == 0.0 then 0 else 1, 0, l.latency, l.respBytes)
  }

  function SumLines(lines: seq<Line>): Totals {
    if lines == [] then ZERO else SumLines(lines[..|lines| - 1]).Plus(LineTotals(lines[|lines| - 1]))
  }

  lemma {:induction false} SumLinesAppend(a: seq<Line>, b: seq<Line>)
    ensures SumLines(a + b) == SumLines(a).Plus(SumLines(b))
  {
    hide LineTotals, Totals.Plus;
    if b == [] {
      assert a + b == a;
      PlusZero(SumLines(a));
    } else {
      var n := |b| - 1;
      SumLinesAppend(a, b[..n]);
      assert (a + b)[..|a + b| - 1] == a + b[..n];
      PlusAssociates(SumLines(a), SumLines(b[..n]), LineTotals(b[n]));
    }
  }

  /** The figures of the rows as the log shows them: no losses, latency in milliseconds. */
  function InLog(t: Totals): Totals {
    Totals(t.answers, 0, t.latency * 1000.0, t.bytes)
  }

  lemma InLogPlus(t: Totals, u: Totals)
    ensures InLog(t.Plus(u)) == InLog(t).Plus(InLog(u))
  {
  }

  /** Every answer carries the non-zero time of a clock; every empty slot is all zero. */
  ghost predicate Timed(row: Row) {
    forall i | 0 <= i < |row.resps| ::
      row.resps[i] == PLACEHOLDER || (row.resps[i].xid != 0 && row.resps[i].time != 0.0)
  }

  lemma LineIsSlot(q: Message, a: Message, c: nat)
    requires a == PLACEHOLDER || (a.xid != 0 && a.time != 0.0)
    ensures LineTotals(LineFor(q, a, c)) == InLog(SlotTotals(q, a))
  {
  }

  /** Summing the first n lines of a row is summing its first n slots. */
  lemma {:induction false} SumRowLines(row: Row, c: nat, n: nat)
    requires Timed(row) && |row.resps| <= |row.reqs| && n <= |row.reqs|
    ensures SumLines(RowLines(row, c)[..n])
         == InLog(RowTotals(row.reqs, row.resps[..if n < |row.resps| then n else |row.resps|]))
  {
    hide LineTotals, Totals.Plus, SlotTotals, LineFor, InLog;
    if n == 0 {
      assert InLog(ZERO) == ZERO by { InLogZero(); }
    } else {
      SumRowLines(row, c, n - 1);
      var line := RowLines(row, c)[n - 1];
      assert RowLines(row, c)[..n][..n - 1] == RowLines(row, c)[..n - 1];
      LineIsSlot(row.reqs[n - 1], SlotOf(row.resps, n - 1), c);
      if n <= |row.resps| {
        assert row.resps[..n][..n - 1] == row.resps[..n - 1];
        InLogPlus(RowTotals(row.reqs, row.resps[..n - 1]), SlotTotals(row.reqs[n - 1], row.resps[n - 1]));
      } else {
        NoSlot(row.reqs[n - 1], c);
        PlusZero(InLog(RowTotals(row.reqs, row.resps)));
        assert row.resps[..|row.resps|] == row.resps;
      }
    }
  }

  lemma InLogZero()
    ensures InLog(ZERO) == ZERO
  {
  }

  lemma NoSlot(q: Message, c: nat)
    ensures LineTotals(LineFor(q, PLACEHOLDER, c)) == ZERO
  {
  }

  lemma {:induction false} SumAllLines(rows: seq<Row>)
    requires Fits(rows) && forall c | 0 <= c < |rows| :: Timed(rows[c])
    ensures SumLines(AllLines(rows)) == InLog(AllTotals(rows))
  {
    hide LineTotals, Totals.Plus, InLog, RowTotals, Timed;
    if rows == [] {
      InLogZero();
    } else {
      var n := |rows| - 1;
      var row := rows[n];
      SumAllLines(rows[..n]);
      SumRowLines(row, n, |row.reqs|);
      assert RowLines(row, n)[..|row.reqs|] == RowLines(row, n);
      assert row.resps[..|row.resps|] == row.resps;
      SumLinesAppend(AllLines(rows[..n]), RowLines(row, n));
      InLogPlus(AllTotals(rows[..n]), RowTotals(row.reqs, row.resps));
    }
  }

  ghost predicate TimedAction(a: Action) {
    a.On? && a.event.Got? ==> a.event.m.time != 0.0
  }

  lemma {:induction false} RunTimed(acts: seq<Action>)
    requires AllAllowed(acts) && forall a | a in acts :: TimedAction(a)
    ensures forall c | 0 <= c < |RunAll(acts).rows| :: Timed(RunAll(acts).rows[c])
  {
    if acts == [] {
    } else {
      hide Timed, Aligned;
      var before, a := acts[..|acts| - 1], acts[|acts| - 1];
      RunTimed(before);
      RunAligned(before);
      assert TimedAction(a);
      assert Timed(EMPTY_ROW) by { EmptyTimed(); }
      if a.On? { StepTimed(RunAll(before).rows[a.conn], a.event); }
    }
  }

  lemma EmptyTimed()
    ensures Timed(EMPTY_ROW)
  {
  }

  lemma StepTimed(row: Row, e: Event)
    requires Timed(row) && Aligned(row) && LegalNext(row.reqs, e)
    requires e.Got? ==> e.m.time != 0.0
    ensures Timed(Step(row, e))
  {
    hide Locate;
    assert e.Got? ==> e.m.xid != 0;
  }

  /** The log has as many answered lines as responses were reported over all intervals if and only if no
      old answer was repeated; then their latencies (in milliseconds, the figures being in seconds) and
      their bytes add up as well, late arrivals included. */
  lemma LogAddsUp(acts: seq<Action>)
    requires AllAllowed(acts) && forall a | a in acts :: TimedAction(a)
    ensures SumLines(AllLines(RunAll(acts).rows)).answers == Grand(acts).answers <==> Clean(acts)
    ensures Clean(acts) ==>
      && SumLines(AllLines(RunAll(acts).rows)).latency == Grand(acts).latency * 1000.0
      && SumLines(AllLines(RunAll(acts).rows)).bytes == Grand(acts).bytes
  {
    hide Timed, RunAll, Grand, SumLines, AllLines, AllTotals, Clean, AllAllowed, Aligned;
    FiguresExactIff(acts);
    RunTimed(acts);
    SumAllLines(RunAll(acts).rows);
  }
}
