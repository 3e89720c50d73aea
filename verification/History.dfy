/** Whole histories of one connection: the order in which answers arrive does not matter. */
module History {
  import opened Accounting

  datatype Event = Sent(m: Message) | Got(m: Message)

  function Step(row: Row, e: Event): Row {
    match e
    case Sent(m) => Request(row, m)
    case Got(m) => Respond(row, m)
  }

  /** The row after a history, starting from a fresh connection. */
  function Run(es: seq<Event>): Row {
    if es == [] then EMPTY_ROW else Step(Run(es[..|es| - 1]), es[|es| - 1])
  }

  function Requests(es: seq<Event>): seq<Message> {
    if es == [] then []
    else match es[|es| - 1]
      case Sent(m) => Requests(es[..|es| - 1]) + [m]
      case Got(_) => Requests(es[..|es| - 1])
  }

  function Answers(es: seq<Event>): seq<Message> {
    if es == [] then []
    else match es[|es| - 1]
      case Sent(_) => Answers(es[..|es| - 1])
      case Got(m) => Answers(es[..|es| - 1]) + [m]
  }

  /** Requests get positive increasing ids; the id of an answer was issued before. */
  ghost predicate LegalNext(s: seq<Message>, e: Event) {
    match e
    case Sent(m) => 0 < m.xid && forall i | 0 <= i < |s| :: s[i].xid < m.xid
    case Got(m) => Issued(s, m.xid)
  }

  /** Answers may come in any order and any number of times. */
  ghost predicate Legal(es: seq<Event>) {
    es != [] ==> Legal(es[..|es| - 1]) && LegalNext(Requests(es[..|es| - 1]), es[|es| - 1])
  }

  ghost predicate Delivered(g: seq<Message>, x: nat) {
    exists k | 0 <= k < |g| :: g[k].xid == x
  }

  /** Request i counts as answered: its answer arrived, and for the very first request the
      answer was moreover the first one to arrive. The order of arrival plays no other part. */
  ghost predicate Answered(s: seq<Message>, g: seq<Message>, i: nat)
    requires i < |s|
  {
    Delivered(g, s[i].xid) && (i == 0 ==> g[0].xid == s[0].xid)
  }

  predicate Filled(row: Row, i: nat) {
    i < |row.resps| && row.resps[i].xid != 0
  }

  /** Exactly the answered slots hold answers. */
  ghost predicate FillsAnswered(row: Row, s: seq<Message>, g: seq<Message>) {
    forall i: nat | i < |s| :: Filled(row, i) <==> Answered(s, g, i)
  }

  /** Every filled slot holds one of the answers that arrived. */
  ghost predicate HoldsAnswers(row: Row, g: seq<Message>) {
    forall i: nat | Filled(row, i) :: row.resps[i] in g
  }

  /** `last` is the greatest id that arrived. */
  ghost predicate NewestAnswer(row: Row, g: seq<Message>) {
    && (g == [] <==> row.resps == [])
    && (g != [] ==> Delivered(g, row.last))
    && (forall k | 0 <= k < |g| :: g[k].xid <= row.last)
  }

  /** How the row relates to the requests s and the answers g of its history. */
  ghost predicate Reflects(row: Row, s: seq<Message>, g: seq<Message>) {
    row.reqs == s && Aligned(row) && FillsAnswered(row, s, g) && HoldsAnswers(row, g) && NewestAnswer(row, g)
  }

  lemma SentReflects(row: Row, s: seq<Message>, g: seq<Message>, m: Message)
    requires Reflects(row, s, g) && 0 < m.xid
    requires forall i | 0 <= i < |s| :: s[i].xid < m.xid
    ensures Reflects(Request(row, m), s + [m], g)
  {
    var s' := s + [m];
    assert forall k | 0 <= k < |g| :: g[k].xid < m.xid;
    forall i: nat | i < |s'| ensures Filled(Request(row, m), i) <==> Answered(s', g, i) {
      if i < |s| {
        assert s'[i] == s[i] && (i == 0 ==> s'[0] == s[0]);
        assert Filled(row, i) <==> Answered(s, g, i);
      }
    }
  }

  lemma DeliveredMore(g: seq<Message>, m: Message, x: nat)
    ensures Delivered(g + [m], x) <==> Delivered(g, x) || x == m.xid
  {
    var g' := g + [m];
    assert g'[|g|] == m;
    if Delivered(g, x) {
      var k :| 0 <= k < |g| && g[k].xid == x;
      assert g'[k].xid == x;
    }
  }

  /** A response to request j either fills slot j, leaving which other slots are filled as it was,
      or is dropped: because slot j is filled already, or because it answers the first request late. */
  lemma RespondFills(row: Row, j: nat, m: Message)
    requires Aligned(row) && j < |row.reqs| && m.xid == row.reqs[j].xid
    ensures forall i: nat | i != j :: Filled(Respond(row, m), i) <==> Filled(row, i)
    ensures forall i: nat | i != j && Filled(row, i) :: Respond(row, m).resps[i] == row.resps[i]
    ensures j != 0 || row.resps == [] ==> Filled(Respond(row, m), j)
    ensures Filled(Respond(row, m), j) && !Filled(row, j) ==> Respond(row, m).resps[j] == m
    ensures j == 0 && row.resps != [] ==> (Filled(Respond(row, m), 0) <==> Filled(row, 0))
    ensures Filled(row, j) && Filled(Respond(row, m), j) ==> Respond(row, m).resps[j] in {m, row.resps[j]}
    ensures Respond(row, m).last == if m.xid < row.last then row.last else m.xid
    ensures Respond(row, m).resps != []
  {
    LocateIs(row.reqs, j);
    var n := |row.resps|;
    assert j < n - 1 ==> m.xid < row.last;
    assert n <= j && n > 0 ==> row.last < m.xid;
    assert n < j ==> row.reqs[n].xid < m.xid;
  }

  lemma AnsweredMore(s: seq<Message>, g: seq<Message>, m: Message, j: nat, i: nat)
    requires Ascending(s) && i < |s| && j < |s| && s[j].xid == m.xid
    ensures Answered(s, g + [m], i) <==>
            if i == j then j != 0 || g == [] || g[0].xid == s[0].xid else Answered(s, g, i)
  {
    DeliveredMore(g, m, s[i].xid);
    assert i != j ==> s[i].xid != s[j].xid;
    assert g != [] ==> (g + [m])[0] == g[0];
  }

  lemma FirstAnswered(row: Row, s: seq<Message>, g: seq<Message>)
    requires Reflects(row, s, g) && s != []
    ensures Filled(row, 0) <==> g != [] && g[0].xid == s[0].xid
  {
    assert Filled(row, 0) <==> Answered(s, g, 0);
  }

  lemma GotFills(row: Row, s: seq<Message>, g: seq<Message>, m: Message, j: nat, i: nat)
    requires Reflects(row, s, g) && i < |s| && j < |s| && s[j].xid == m.xid
    ensures Filled(Respond(row, m), i) <==> Answered(s, g + [m], i)
  {
    RespondFills(row, j, m);
    AnsweredMore(s, g, m, j, i);
    FirstAnswered(row, s, g);
    assert i != j ==> (Filled(row, i) <==> Answered(s, g, i));
  }

  lemma GotHolds(row: Row, g: seq<Message>, m: Message, j: nat)
    requires Aligned(row) && HoldsAnswers(row, g) && j < |row.reqs| && row.reqs[j].xid == m.xid
    ensures HoldsAnswers(Respond(row, m), g + [m])
  {
    RespondFills(row, j, m);
    var row', g' := Respond(row, m), g + [m];
    assert g'[|g|] == m;
    assert forall a | a in g :: a in g';
    forall i: nat | Filled(row', i) ensures row'.resps[i] in g' {
      if Filled(row, i) { assert row.resps[i] in g; }
    }
  }

  lemma GotNewest(row: Row, g: seq<Message>, m: Message, j: nat)
    requires Aligned(row) && NewestAnswer(row, g) && j < |row.reqs| && row.reqs[j].xid == m.xid
    ensures NewestAnswer(Respond(row, m), g + [m])
  {
    RespondFills(row, j, m);
    DeliveredMore(g, m, row.last);
    DeliveredMore(g, m, m.xid);
  }

  lemma GotReflects(row: Row, s: seq<Message>, g: seq<Message>, m: Message)
    requires Reflects(row, s, g) && Issued(s, m.xid)
    ensures Reflects(Respond(row, m), s, g + [m])
  {
    IssuedNotInGap(row, m.xid);
    RespondKeepsAlignedIff(row, m);
    var j: nat :| j < |s| && s[j].xid == m.xid;
    forall i: nat | i < |s| ensures Filled(Respond(row, m), i) <==> Answered(s, g + [m], i) {
      GotFills(row, s, g, m, j, i);
    }
    GotHolds(row, g, m, j);
    GotNewest(row, g, m, j);
  }

  /** Every legal history leaves a row that reflects its requests and its answers. */
  lemma {:induction false} RunReflects(es: seq<Event>)
    requires Legal(es)
    ensures Reflects(Run(es), Requests(es), Answers(es))
  {
    if es == [] {
    } else {
      RunReflects(es[..|es| - 1]);
      var row, s, g := Run(es[..|es| - 1]), Requests(es[..|es| - 1]), Answers(es[..|es| - 1]);
      match es[|es| - 1]
      case Sent(m) => SentReflects(row, s, g, m);
      case Got(m) => GotReflects(row, s, g, m);
    }
  }

  // ----- the row is a function of which requests were answered -----

  ghost function AnswerSet(s: seq<Message>, g: seq<Message>): set<nat> {
    set i: nat | i < |s| && Answered(s, g, i)
  }

  /** Number of empty slots. */
  function Placeholders(resps: seq<Message>): (n: nat)
    ensures n <= |resps|
  {
    if resps == [] then 0
    else Placeholders(resps[..|resps| - 1]) + (if resps[|resps| - 1].xid == 0 then 1 else 0)
  }

  lemma {:induction false} FilledCount(resps: seq<Message>)
    ensures |set i: nat | i < |resps| && resps[i].xid != 0| == |resps| - Placeholders(resps)
  {
    var all := set i: nat | i < |resps| && resps[i].xid != 0;
    if resps == [] {
      assert all == {};
    } else {
      var n, init := |resps| - 1, resps[..|resps| - 1];
      FilledCount(init);
      var less := set i: nat | i < |init| && init[i].xid != 0;
      assert all == if resps[n].xid != 0 then less + {n} else less;
    }
  }

  lemma {:induction false} PlaceholdersAppend(resps: seq<Message>, k: nat, m: Message)
    ensures Placeholders(resps + Skipped(k) + [m]) == Placeholders(resps) + k + (if m.xid == 0 then 1 else 0)
  {
    var all := resps + Skipped(k) + [m];
    assert all[..|all| - 1] == resps + Skipped(k);
    if k == 0 {
      assert resps + Skipped(k) == resps;
    } else {
      PlaceholdersAppend(resps, k - 1, PLACEHOLDER);
      assert resps + Skipped(k) == resps + Skipped(k - 1) + [PLACEHOLDER];
    }
  }

  lemma {:induction false} PlaceholdersUpdate(resps: seq<Message>, i: nat, m: Message)
    requires i < |resps| && m.xid != 0
    ensures Placeholders(resps[i := m]) == Placeholders(resps) - (if resps[i].xid == 0 then 1 else 0)
  {
    var n := |resps| - 1;
    if i == n {
      assert resps[i := m][..n] == resps[..n];
    } else {
      PlaceholdersUpdate(resps[..n], i, m);
      assert resps[i := m][..n] == resps[..n][i := m];
    }
  }

  /** The response answers a request overtaken by later answers whose own answer is already there. */
  predicate Overwrites(row: Row, x: nat) {
    match Classify(row, x)
    case Dropped => false
    case Counted(i, losses) => losses < 0 && row.resps[i].xid != 0
  }

  /** The same, told from the history alone: x arrived before, so did a greater id, and x is not
      the id of the first request. */
  ghost predicate OldRepeat(s: seq<Message>, g: seq<Message>, x: nat) {
    && s != [] && s[0].xid != x
    && Delivered(g, x)
    && exists k | 0 <= k < |g| :: x < g[k].xid
  }

  lemma OverwritesIffOldRepeat(row: Row, s: seq<Message>, g: seq<Message>, x: nat)
    requires Reflects(row, s, g) && Issued(s, x)
    ensures Overwrites(row, x) <==> OldRepeat(s, g, x)
  {
    var j: nat :| j < |s| && s[j].xid == x;
    LocateIs(s, j);
    assert j != 0 ==> s[0].xid < s[j].xid;
    assert (exists k | 0 <= k < |g| :: x < g[k].xid) <==> x < row.last;
    assert Filled(row, j) <==> Answered(s, g, j);
    var n := |row.resps|;
    assert x < row.last ==> j < n by {
      if n <= j { assert n > 0 ==> s[n - 1].xid < s[j].xid; }
    }
  }

  ghost predicate IsRepeat(s: seq<Message>, g: seq<Message>, e: Event) {
    e.Got? && OldRepeat(s, g, e.m.xid)
  }

  /** How often a response repeated an old answer. */
  ghost function Repeats(es: seq<Event>): (n: nat)
    ensures n <= |es|
  {
    if es == [] then 0
    else
      var before := es[..|es| - 1];
      Repeats(before) + (if IsRepeat(Requests(before), Answers(before), es[|es| - 1]) then 1 else 0)
  }

  function LossesOf(row: Row, x: nat): int {
    match Classify(row, x) case Dropped => 0 case Counted(_, losses) => losses
  }

  /** A response changes the number of placeholders by its losses, unless it overwrites. */
  lemma RespondPlaceholders(row: Row, m: Message)
    requires m.xid != 0
    ensures Placeholders(Respond(row, m).resps)
         == Placeholders(row.resps) + LossesOf(row, m.xid) + (if Overwrites(row, m.xid) then 1 else 0)
  {
    match Classify(row, m.xid)
    case Dropped =>
    case Counted(i, losses) =>
      if losses < 0 {
        PlaceholdersUpdate(row.resps, i, m);
      } else {
        PlaceholdersAppend(row.resps, losses, m);
      }
  }

  lemma AddModulo(a: int, b: int)
    ensures (a % WORD + b) % WORD == (a + b) % WORD
    ensures (a % WORD + WORD - 1) % WORD == (a - 1) % WORD
  {
  }

  lemma RespondMissing(row: Row, m: Message, exact: int)
    requires row.missing == exact % WORD
    ensures Respond(row, m).missing == (exact + LossesOf(row, m.xid)) % WORD
  {
    AddModulo(exact, LossesOf(row, m.xid));
  }

  /** `missing` is the number of placeholders less n, as a 32-bit value. */
  predicate MissingFits(row: Row, n: int) {
    row.missing == (Placeholders(row.resps) - n) % WORD
  }

  lemma RespondFits(row: Row, m: Message, n: int)
    requires MissingFits(row, n) && m.xid != 0
    ensures MissingFits(Respond(row, m), n + if Overwrites(row, m.xid) then 1 else 0)
  {
    hide Overwrites, LossesOf, Respond, Placeholders;
    RespondPlaceholders(row, m);
    RespondMissing(row, m, Placeholders(row.resps) - n);
  }

  lemma StepMissing(row: Row, s: seq<Message>, g: seq<Message>, e: Event, repeats: nat)
    requires Reflects(row, s, g) && LegalNext(s, e)
    requires MissingFits(row, repeats)
    ensures MissingFits(Step(row, e), repeats + if IsRepeat(s, g, e) then 1 else 0)
  {
    assert e.Got? ==> e.m.xid != 0;
    match e
    case Sent(m) =>
      assert Request(row, m).resps == row.resps && Request(row, m).missing == row.missing;
    case Got(m) =>
      hide Reflects, OldRepeat, Overwrites, Respond, MissingFits;
      OverwritesIffOldRepeat(row, s, g, m.xid);
      RespondFits(row, m, repeats);
  }

  /** `missing` is the number of placeholders less the number of old repeats, as a 32-bit value. */
  lemma {:induction false} MissingCounts(es: seq<Event>)
    requires Legal(es)
    ensures MissingFits(Run(es), Repeats(es))
  {
    if es == [] {
    } else {
      var before := es[..|es| - 1];
      MissingCounts(before);
      RunReflects(before);
      StepMissing(Run(before), Requests(before), Answers(before), es[|es| - 1], Repeats(before));
    }
  }

  lemma FitsExactly(row: Row, n: nat)
    requires MissingFits(row, n) && |row.resps| < WORD && n < WORD
    ensures row.missing == Placeholders(row.resps) <==> n == 0
  {
  }

  /** `missing` is the number of placeholders exactly when no old answer was repeated. */
  lemma MissingExactIff(es: seq<Event>)
    requires Legal(es) && |es| < WORD
    ensures Run(es).missing == Placeholders(Run(es).resps) <==> Repeats(es) == 0
  {
    MissingCounts(es);
    SlotsBound(es);
    FitsExactly(Run(es), Repeats(es));
  }

  lemma SlotsBound(es: seq<Event>)
    requires Legal(es)
    ensures |Run(es).resps| <= |es|
  {
    RunReflects(es);
    RequestsBound(es);
  }

  lemma {:induction false} RequestsBound(es: seq<Event>)
    ensures |Requests(es)| + |Answers(es)| == |es|
  {
    if es != [] { RequestsBound(es[..|es| - 1]); }
  }

  ghost predicate AtMostOnce(g: seq<Message>) {
    forall i, j | 0 <= i < j < |g| :: g[i].xid != g[j].xid
  }

  lemma {:induction false} NoRepeats(es: seq<Event>)
    requires AtMostOnce(Answers(es))
    ensures Repeats(es) == 0
  {
    if es != [] {
      var before, g := es[..|es| - 1], Answers(es);
      assert AtMostOnce(Answers(before)) by {
        assert forall k | 0 <= k < |Answers(before)| :: g[k] == Answers(before)[k];
      }
      NoRepeats(before);
      if es[|es| - 1].Got? {
        var g0, m := Answers(before), es[|es| - 1].m;
        assert forall k | 0 <= k < |g0| :: g0[k].xid != m.xid by {
          forall k | 0 <= k < |g0| ensures g0[k].xid != m.xid { assert g[k] == g0[k] && g[|g0|] == m; }
        }
      }
    }
  }

  // ----- which copy of an answer a slot keeps -----

  /** Answer k was counted when it arrived: it was the first with its id, or it repeated an old one. */
  ghost predicate Accepted(s: seq<Message>, g: seq<Message>, k: nat)
    requires k < |g|
  {
    !Delivered(g[..k], g[k].xid) || OldRepeat(s, g[..k], g[k].xid)
  }

  /** Of the answers with its id, m is the last one that was counted. */
  ghost predicate Keeps(s: seq<Message>, g: seq<Message>, m: Message) {
    exists k: nat | k < |g| ::
      g[k] == m && Accepted(s, g, k) && forall l: nat | k < l < |g| && g[l].xid == m.xid :: !Accepted(s, g, l)
  }

  ghost predicate HoldsKept(row: Row, s: seq<Message>, g: seq<Message>) {
    forall i: nat | Filled(row, i) :: Keeps(s, g, row.resps[i])
  }

  lemma AcceptedMore(s: seq<Message>, g: seq<Message>, m: Message)
    ensures forall k: nat | k < |g| :: Accepted(s, g + [m], k) <==> Accepted(s, g, k)
    ensures Accepted(s, g + [m], |g|) <==> !Delivered(g, m.xid) || OldRepeat(s, g, m.xid)
  {
    hide Delivered, OldRepeat;
    assert forall k: nat | k <= |g| :: (g + [m])[..k] == g[..k];
    assert g[..|g|] == g;
  }

  lemma KeepsMore(s: seq<Message>, g: seq<Message>, m: Message, a: Message)
    requires Keeps(s, g, a) && (a.xid == m.xid ==> !Accepted(s, g + [m], |g|))
    ensures Keeps(s, g + [m], a)
  {
    hide Accepted;
    AcceptedMore(s, g, m);
    var k: nat :| k < |g| && g[k] == a && Accepted(s, g, k)
      && forall l: nat | k < l < |g| && g[l].xid == a.xid :: !Accepted(s, g, l);
    assert (g + [m])[k] == a && forall l: nat | l < |g| :: (g + [m])[l] == g[l];
  }

  lemma KeepsNew(s: seq<Message>, g: seq<Message>, m: Message)
    requires Accepted(s, g + [m], |g|)
    ensures Keeps(s, g + [m], m)
  {
    hide Accepted;
    assert (g + [m])[|g|] == m;
  }

  /** At most one answer of each id is kept. */
  lemma KeptIsOne(s: seq<Message>, g: seq<Message>, a: Message, b: Message)
    requires Keeps(s, g, a) && Keeps(s, g, b) && a.xid == b.xid
    ensures a == b
  {
    hide Accepted;
  }

  /** An answer of every id that arrived is kept. */
  lemma {:induction false} KeptIsSome(s: seq<Message>, g: seq<Message>, x: nat) returns (m: Message)
    requires Delivered(g, x)
    ensures Keeps(s, g, m) && m.xid == x
  {
    var front, last := g[..|g| - 1], g[|g| - 1];
    assert g == front + [last];
    DeliveredMore(front, last, x);
    AcceptedMore(s, front, last);
    hide Accepted, Keeps, OldRepeat;
    if last.xid == x && Accepted(s, front + [last], |front|) {
      m := last;
      KeepsNew(s, front, last);
    } else {
      m := KeptIsSome(s, front, x);
      KeepsMore(s, front, last, m);
    }
  }

  lemma KeptIsDelivered(s: seq<Message>, g: seq<Message>, m: Message)
    requires Keeps(s, g, m)
    ensures m in g && Delivered(g, m.xid)
  {
    hide Accepted;
  }

  /** A filled slot is overwritten by a response exactly when the response overwrites. */
  lemma FilledKeeps(row: Row, j: nat, m: Message)
    requires Aligned(row) && j < |row.reqs| && m.xid == row.reqs[j].xid && Filled(row, j)
    ensures Filled(Respond(row, m), j)
    ensures Respond(row, m).resps[j] == if Overwrites(row, m.xid) then m else row.resps[j]
  {
    LocateIs(row.reqs, j);
    var n := |row.resps|;
    assert j < n - 1 ==> m.xid < row.last;
  }

  lemma GotKept(row: Row, s: seq<Message>, g: seq<Message>, m: Message, j: nat)
    requires Reflects(row, s, g) && HoldsKept(row, s, g) && j < |s| && s[j].xid == m.xid
    ensures HoldsKept(Respond(row, m), s, g + [m])
  {
    RespondFills(row, j, m);
    OverwritesIffOldRepeat(row, s, g, m.xid);
    AcceptedMore(s, g, m);
    assert Filled(row, j) <==> Answered(s, g, j);
    assert row.resps == [] ==> !Delivered(g, m.xid);
    if Filled(row, j) { FilledKeeps(row, j, m); }
    var row' := Respond(row, m);
    assert forall i: nat | i != j && Filled(row, i) :: row.resps[i].xid != m.xid;
    hide Accepted, Keeps, OldRepeat, Overwrites, Respond, FillsAnswered, NewestAnswer, HoldsAnswers;
    forall i: nat | Filled(row', i) ensures Keeps(s, g + [m], row'.resps[i]) {
      if i != j || (Filled(row, j) && !Overwrites(row, m.xid)) {
        KeepsMore(s, g, m, row.resps[i]);
      } else {
        KeepsNew(s, g, m);
      }
    }
  }

  lemma SentKept(row: Row, s: seq<Message>, g: seq<Message>, m: Message)
    requires Reflects(row, s, g) && HoldsKept(row, s, g)
    ensures HoldsKept(Request(row, m), s + [m], g)
  {
    assert s == [] ==> row.resps == [];
    assert s != [] ==> (s + [m])[0] == s[0];
    assert s != [] ==> forall k: nat | k < |g| :: Accepted(s + [m], g, k) <==> Accepted(s, g, k);
    hide Accepted;
  }

  /** In every legal history each filled slot keeps, of the answers with its id, the last one that was
      counted: the first to arrive, unless old answers were repeated. */
  lemma {:induction false} RunKeeps(es: seq<Event>)
    requires Legal(es)
    ensures HoldsKept(Run(es), Requests(es), Answers(es))
  {
    hide Reflects, HoldsKept, LegalNext, Request, Respond;
    if es == [] {
      assert HoldsKept(Run([]), [], []) by { NothingKept(); }
    } else {
      var front := es[..|es| - 1];
      var row, s, g := Run(front), Requests(front), Answers(front);
      RunKeeps(front);
      RunReflects(front);
      match es[|es| - 1]
      case Sent(m) => SentKept(row, s, g, m);
      case Got(m) =>
        var j := PlaceOf(s, es[|es| - 1]);
        GotKept(row, s, g, m, j);
    }
  }

  lemma NothingKept()
    ensures HoldsKept(EMPTY_ROW, [], [])
  {}

  lemma PlaceOf(s: seq<Message>, e: Event) returns (j: nat)
    requires e.Got? && LegalNext(s, e)
    ensures j < |s| && s[j].xid == e.m.xid
  {
    j :| j < |s| && s[j].xid == e.m.xid;
  }

  /** The first answer of its id. */
  ghost predicate IsFirst(g: seq<Message>, m: Message) {
    exists k: nat | k < |g| :: g[k] == m && !Delivered(g[..k], m.xid)
  }

  lemma {:induction false} NoOldRepeats(es: seq<Event>)
    requires Legal(es) && Repeats(es) == 0
    ensures forall k: nat | k < |Answers(es)| :: !OldRepeat(Requests(es), Answers(es)[..k], Answers(es)[k].xid)
  {
    if es == [] {
    } else {
      var front := es[..|es| - 1];
      NoOldRepeats(front);
      RunReflects(front);
      var s, g := Requests(front), Answers(front);
      assert s == [] ==> g == [];
      hide Delivered, Run, Reflects;
      match es[|es| - 1]
      case Sent(m) => assert s != [] ==> (s + [m])[0] == s[0];
      case Got(m) => assert forall k: nat | k <= |g| :: (g + [m])[..k] == g[..k];
    }
  }

  /** When no old answer was repeated, the slots keep the first copies. */
  lemma KeepsFirstIff(es: seq<Event>, m: Message)
    requires Legal(es) && Repeats(es) == 0
    ensures Keeps(Requests(es), Answers(es), m) <==> IsFirst(Answers(es), m)
  {
    NoOldRepeats(es);
    var s, g := Requests(es), Answers(es);
    assert forall k: nat | k < |g| :: Accepted(s, g, k) <==> !Delivered(g[..k], g[k].xid);
    if k: nat :| k < |g| && g[k] == m && !Delivered(g[..k], m.xid) {
      forall l: nat | k < l < |g| && g[l].xid == m.xid ensures !Accepted(s, g, l) {
        assert g[..l][k] == m;
      }
    }
    hide Accepted, OldRepeat, Delivered;
  }

  /** The row that the requests s and the answers g determine, D being the answered requests: there
      are 1 + max D slots; slot i holds the answer to request i that was counted last if i is in D and a
      placeholder otherwise; `last` is the id of request max D; `missing` is the number of slots less |D|,
      less the old repeats. */
  ghost predicate DeterminedBy(row: Row, s: seq<Message>, g: seq<Message>, repeats: nat) {
    var D := AnswerSet(s, g);
    && row.reqs == s && |row.resps| <= |s|
    && (forall i | i in D :: i < |row.resps|)
    && (row.resps != [] ==> |row.resps| - 1 in D)
    && (forall i | 0 <= i < |row.resps| ::
          if i in D then Keeps(s, g, row.resps[i]) && row.resps[i].xid == s[i].xid else row.resps[i] == PLACEHOLDER)
    && row.last == (if row.resps == [] then 0 else s[|row.resps| - 1].xid)
    && row.missing == (|row.resps| - |D| - repeats) % WORD
  }

  lemma ReflectsDetermines(row: Row, s: seq<Message>, g: seq<Message>, repeats: nat)
    requires Reflects(row, s, g) && HoldsKept(row, s, g) && MissingFits(row, repeats)
    ensures DeterminedBy(row, s, g, repeats)
  {
    hide Keeps;
    FilledCount(row.resps);
    AnswerSetIsFilled(row, s, g);
    forall i | 0 <= i < |row.resps| && row.resps[i].xid != 0 ensures Keeps(s, g, row.resps[i]) {
      assert Filled(row, i);
    }
  }

  /** The row of every legal history is determined by its requests and by which copies of which answers
      were counted. When no answer is repeated, it has no old repeats. */
  lemma FinalRow(es: seq<Event>)
    requires Legal(es)
    ensures DeterminedBy(Run(es), Requests(es), Answers(es), Repeats(es))
    ensures AtMostOnce(Answers(es)) ==> Repeats(es) == 0
  {
    hide DeterminedBy, Keeps, Reflects, HoldsKept, MissingFits;
    RunReflects(es);
    RunKeeps(es);
    MissingCounts(es);
    if AtMostOnce(Answers(es)) { NoRepeats(es); }
    ReflectsDetermines(Run(es), Requests(es), Answers(es), Repeats(es));
  }

  lemma AnswerSetIsFilled(row: Row, s: seq<Message>, g: seq<Message>)
    requires Reflects(row, s, g)
    ensures AnswerSet(s, g) == set i: nat | i < |row.resps| && row.resps[i].xid != 0
  {
    var D, F := AnswerSet(s, g), set i: nat | i < |row.resps| && row.resps[i].xid != 0;
    forall i ensures i in D <==> i in F {
      if 0 <= i < |s| { assert Filled(row, i) <==> Answered(s, g, i); }
    }
  }

  /** Did the answer to the first request arrive before all others? */
  predicate FirstInTime(s: seq<Message>, g: seq<Message>) {
    s != [] && g != [] && g[0].xid == s[0].xid
  }

  /** The copies that are kept are the same. */
  ghost predicate SameKept(s: seq<Message>, g: seq<Message>, h: seq<Message>) {
    forall m :: Keeps(s, g, m) <==> Keeps(s, h, m)
  }

  /** Two interleavings of the same requests, of whose answers the same copies are kept and with as many old
      repeats, leave the very same row exactly when they agree on whether the first request was answered
      first. Nothing else of the order matters. */
  lemma KeptCopiesDecide(es: seq<Event>, fs: seq<Event>)
    requires Legal(es) && Legal(fs) && Requests(es) == Requests(fs)
    requires SameKept(Requests(es), Answers(es), Answers(fs)) && Repeats(es) == Repeats(fs)
    ensures Run(es) == Run(fs) <==>
            FirstInTime(Requests(es), Answers(es)) == FirstInTime(Requests(fs), Answers(fs))
  {
    hide DeterminedBy, SameKept, FirstInTime, Run, Repeats, Requests, Answers;
    FinalRow(es);
    FinalRow(fs);
    if FirstInTime(Requests(es), Answers(es)) == FirstInTime(Requests(fs), Answers(fs)) {
      DeterminedUniquely(Run(es), Run(fs), Requests(es), Answers(es), Answers(fs), Repeats(es));
    } else {
      RequestsAscend(es);
      assert Requests(es) != [] by { NotInTime(Answers(es)); NotInTime(Answers(fs)); }
      FirstSlotTells(Run(es), Requests(es), Answers(es), Repeats(es));
      FirstSlotTells(Run(fs), Requests(fs), Answers(fs), Repeats(fs));
    }
  }

  lemma NotInTime(g: seq<Message>)
    ensures !FirstInTime([], g)
  {}

  /** Without old repeats the first copy of each answer is the one that counts; answers repeated at once
      may come any number of times. */
  lemma FirstCopiesDecide(es: seq<Event>, fs: seq<Event>)
    requires Legal(es) && Legal(fs) && Requests(es) == Requests(fs)
    requires Repeats(es) == 0 && Repeats(fs) == 0
    requires forall m :: IsFirst(Answers(es), m) <==> IsFirst(Answers(fs), m)
    ensures Run(es) == Run(fs) <==>
            FirstInTime(Requests(es), Answers(es)) == FirstInTime(Requests(fs), Answers(fs))
  {
    hide Keeps, IsFirst, FirstInTime, Run, Repeats, Requests, Answers, Legal;
    forall m ensures Keeps(Requests(es), Answers(es), m) <==> Keeps(Requests(es), Answers(fs), m) {
      KeepsFirstIff(es, m);
      KeepsFirstIff(fs, m);
    }
    KeptCopiesDecide(es, fs);
  }

  lemma OnceIsFirst(g: seq<Message>, m: Message)
    requires AtMostOnce(g)
    ensures IsFirst(g, m) <==> m in g
  {
    if k: nat :| k < |g| && g[k] == m {
      forall j | 0 <= j < k ensures g[..k][j].xid != m.xid { assert g[j].xid != g[k].xid; }
    }
  }

  /** Two interleavings of the same requests with the same answers, each answered at most once,
      leave the very same row exactly when they agree on whether the first request was answered first. */
  lemma OrderIndependence(es: seq<Event>, fs: seq<Event>)
    requires Legal(es) && Legal(fs)
    requires Requests(es) == Requests(fs)
    requires forall m :: m in Answers(es) <==> m in Answers(fs)
    requires AtMostOnce(Answers(es)) && AtMostOnce(Answers(fs))
    ensures Run(es) == Run(fs) <==>
            FirstInTime(Requests(es), Answers(es)) == FirstInTime(Requests(fs), Answers(fs))
  {
    hide IsFirst, AtMostOnce, FirstInTime, Run, Repeats, Requests, Answers, Legal;
    NoRepeats(es);
    NoRepeats(fs);
    forall m ensures IsFirst(Answers(es), m) <==> IsFirst(Answers(fs), m) {
      OnceIsFirst(Answers(es), m);
      OnceIsFirst(Answers(fs), m);
    }
    FirstCopiesDecide(es, fs);
  }

  lemma RequestsAscend(es: seq<Event>)
    requires Legal(es)
    ensures Ascending(Requests(es))
  {
    RunReflects(es);
  }

  lemma FirstSlotTells(row: Row, s: seq<Message>, g: seq<Message>, repeats: nat)
    requires DeterminedBy(row, s, g, repeats) && Ascending(s) && s != []
    ensures FirstInTime(s, g) <==> 0 in AnswerSet(s, g)
    ensures FirstInTime(s, g) <==> row.resps != [] && row.resps[0] != PLACEHOLDER
  {
    assert FirstInTime(s, g) ==> Delivered(g, s[0].xid);
    assert 0 in AnswerSet(s, g) <==> Answered(s, g, 0);
  }

  lemma DeterminedUniquely(a: Row, b: Row, s: seq<Message>, g: seq<Message>, h: seq<Message>, repeats: nat)
    requires DeterminedBy(a, s, g, repeats) && DeterminedBy(b, s, h, repeats)
    requires SameKept(s, g, h) && FirstInTime(s, g) == FirstInTime(s, h)
    ensures a == b
  {
    hide Keeps, FirstInTime;
    SameAnswerSet(s, g, h);
    assert |a.resps| == |b.resps|;
    forall i | 0 <= i < |a.resps| ensures a.resps[i] == b.resps[i] {
      if i in AnswerSet(s, g) {
        assert Keeps(s, g, b.resps[i]);
        KeptIsOne(s, g, a.resps[i], b.resps[i]);
      }
    }
  }

  lemma SameAnswerSet(s: seq<Message>, g: seq<Message>, h: seq<Message>)
    requires SameKept(s, g, h) && FirstInTime(s, g) == FirstInTime(s, h)
    ensures AnswerSet(s, g) == AnswerSet(s, h)
  {
    hide Keeps;
    forall x: nat ensures Delivered(g, x) <==> Delivered(h, x) {
      if Delivered(g, x) { var m := KeptIsSome(s, g, x); KeptIsDelivered(s, h, m); }
      if Delivered(h, x) { var m := KeptIsSome(s, h, x); KeptIsDelivered(s, g, m); }
    }
    forall i: nat | i < |s| ensures Answered(s, g, i) <==> Answered(s, h, i) {
      assert Delivered(g, s[i].xid) <==> Delivered(h, s[i].xid);
    }
  }

  lemma RunMore(es: seq<Event>, e: Event)
    ensures Run(es + [e]) == Step(Run(es), e)
    ensures Legal(es + [e]) <==> Legal(es) && LegalNext(Requests(es), e)
    ensures Requests(es + [e]) == if e.Sent? then Requests(es) + [e.m] else Requests(es)
  {
    assert (es + [e])[..|es|] == es;
  }

  /** The two cases are both met: the answer to request 1 is lost when it comes after that to request 2. */
  lemma LateFirstAnswerIsLost(q1: Message, q2: Message, a1: Message, a2: Message)
    requires 0 < q1.xid < q2.xid && a1.xid == q1.xid && a2.xid == q2.xid
    ensures var late := [Sent(q1)] + [Sent(q2)] + [Got(a2)] + [Got(a1)];
            Legal(late) && Run(late) == Row([q1, q2], [PLACEHOLDER, a2], q2.xid, 1)
    ensures var inTime := [Sent(q1)] + [Sent(q2)] + [Got(a1)] + [Got(a2)];
            Legal(inTime) && Run(inTime) == Row([q1, q2], [a1, a2], q2.xid, 0)
  {
    var sent, row := [Sent(q1)] + [Sent(q2)], Row([q1, q2], [], 0, 0);
    assert [] + [Sent(q1)] == [Sent(q1)] && [q1] + [q2] == [q1, q2];
    RunMore([], Sent(q1));
    RunMore([Sent(q1)], Sent(q2));
    assert Run(sent) == row && Requests(sent) == [q1, q2] && Legal(sent);
    assert row.reqs[0] == q1 && row.reqs[1] == q2;
    TwoAnswers(sent, a2, a1);
    TwoAnswers(sent, a1, a2);
    SecondThenFirst(row, q1, q2, a1, a2);
    FirstThenSecond(row, q1, q2, a1, a2);
  }

  lemma SecondThenFirst(row: Row, q1: Message, q2: Message, a1: Message, a2: Message)
    requires 0 < q1.xid < q2.xid && a1.xid == q1.xid && a2.xid == q2.xid
    requires row == Row([q1, q2], [], 0, 0)
    ensures Respond(Respond(row, a2), a1) == Row([q1, q2], [PLACEHOLDER, a2], q2.xid, 1)
  {
    LocateIs(row.reqs, 0);
    LocateIs(row.reqs, 1);
    assert Classify(row, a2.xid) == Counted(1, 1);
  }

  lemma FirstThenSecond(row: Row, q1: Message, q2: Message, a1: Message, a2: Message)
    requires 0 < q1.xid < q2.xid && a1.xid == q1.xid && a2.xid == q2.xid
    requires row == Row([q1, q2], [], 0, 0)
    ensures Respond(Respond(row, a1), a2) == Row([q1, q2], [a1, a2], q2.xid, 0)
  {
    LocateIs(row.reqs, 0);
    LocateIs(row.reqs, 1);
    assert Classify(row, a1.xid) == Counted(0, 0);
    assert Respond(row, a1).resps == [a1];
  }

  lemma TwoAnswers(sent: seq<Event>, a: Message, b: Message)
    requires Legal(sent) && Issued(Requests(sent), a.xid) && Issued(Requests(sent), b.xid)
    ensures Legal(sent + [Got(a)] + [Got(b)])
    ensures Run(sent + [Got(a)] + [Got(b)]) == Respond(Respond(Run(sent), a), b)
  {
    RunMore(sent, Got(a));
    RunMore(sent + [Got(a)], Got(b));
  }

  lemma RespondAt(row: Row, m: Message, i: nat)
    requires Ascending(row.reqs) && i < |row.reqs| && row.reqs[i].xid == m.xid
    requires |row.resps| <= i && row.last < m.xid
    ensures Respond(row, m) == Row(row.reqs, row.resps + Skipped(i - |row.resps|) + [m], m.xid,
                                   (row.missing + (i - |row.resps|)) % WORD)
  {
    LocateIs(row.reqs, i);
  }

  lemma RespondLate(row: Row, m: Message, i: nat)
    requires Ascending(row.reqs) && 0 < i < |row.resps| <= |row.reqs| && row.reqs[i].xid == m.xid < row.last
    ensures Respond(row, m) == row.(resps := row.resps[i := m], missing := (row.missing + WORD - 1) % WORD)
  {
    LocateIs(row.reqs, i);
  }

  /** A history that goes wrong, and none is shorter: three requests, answers to the second and the
      third, and the answer to the second again. */
  function Repeating(q1: Message, q2: Message, q3: Message, a2: Message, a3: Message): seq<Event> {
    [Sent(q1)] + [Sent(q2)] + [Sent(q3)] + [Got(a2)] + [Got(a3)] + [Got(a2)]
  }

  lemma ThreeSent(q1: Message, q2: Message, q3: Message) returns (sent: seq<Event>)
    requires 0 < q1.xid < q2.xid < q3.xid
    ensures sent == [Sent(q1)] + [Sent(q2)] + [Sent(q3)]
    ensures Legal(sent) && Requests(sent) == [q1, q2, q3] && Answers(sent) == []
    ensures Repeats(sent) == 0 && Run(sent) == Row([q1, q2, q3], [], 0, 0)
  {
    sent := [Sent(q1)] + [Sent(q2)] + [Sent(q3)];
    assert [] + [Sent(q1)] == [Sent(q1)];
    RunMore([], Sent(q1));
    RunMore([Sent(q1)], Sent(q2));
    RunMore([Sent(q1)] + [Sent(q2)], Sent(q3));
    assert [q1] + [q2] + [q3] == [q1, q2, q3];
    AnswersMore([], Sent(q1));
    AnswersMore([Sent(q1)], Sent(q2));
    AnswersMore([Sent(q1)] + [Sent(q2)], Sent(q3));
  }

  lemma AnswersMore(es: seq<Event>, e: Event)
    ensures Answers(es + [e]) == if e.Got? then Answers(es) + [e.m] else Answers(es)
    ensures Repeats(es + [e]) == Repeats(es) + if IsRepeat(Requests(es), Answers(es), e) then 1 else 0
  {
    assert (es + [e])[..|es|] == es;
  }

  lemma ThirdOvertakes(row: Row, a2: Message, a3: Message)
    requires Ascending(row.reqs) && |row.reqs| == 3 && row == Row(row.reqs, [], 0, 0)
    requires 0 < a2.xid < a3.xid && a2.xid == row.reqs[1].xid && a3.xid == row.reqs[2].xid
    ensures Respond(Respond(row, a2), a3) == Row(row.reqs, [PLACEHOLDER, a2, a3], a3.xid, 1)
  {
    hide Respond;
    RespondAt(row, a2, 1);
    assert [] + Skipped(1) + [a2] == [PLACEHOLDER, a2];
    RespondAt(Row(row.reqs, [PLACEHOLDER, a2], a2.xid, 1), a3, 2);
    assert [PLACEHOLDER, a2] + Skipped(0) + [a3] == [PLACEHOLDER, a2, a3];
  }

  lemma SecondAgain(row: Row, a2: Message, a3: Message)
    requires Ascending(row.reqs) && |row.reqs| == 3 && a2.xid == row.reqs[1].xid < a3.xid
    requires row == Row(row.reqs, [PLACEHOLDER, a2, a3], a3.xid, 1)
    ensures Respond(row, a2) == Row(row.reqs, [PLACEHOLDER, a2, a3], a3.xid, 0)
  {
    hide Respond;
    RespondLate(row, a2, 1);
    assert [PLACEHOLDER, a2, a3][1 := a2] == [PLACEHOLDER, a2, a3];
  }

  lemma RepeatRow(row: Row, q1: Message, q2: Message, q3: Message, a2: Message, a3: Message)
    requires 0 < q1.xid < q2.xid < q3.xid && a2.xid == q2.xid && a3.xid == q3.xid
    requires row == Row([q1, q2, q3], [], 0, 0)
    ensures Respond(Respond(Respond(row, a2), a3), a2) == Row([q1, q2, q3], [PLACEHOLDER, a2, a3], q3.xid, 0)
  {
    assert row.reqs[0] == q1 && row.reqs[1] == q2 && row.reqs[2] == q3;
    hide Respond;
    ThirdOvertakes(row, a2, a3);
    SecondAgain(Row(row.reqs, [PLACEHOLDER, a2, a3], a3.xid, 1), a2, a3);
  }

  lemma OneRepeat(s: seq<Message>, a2: Message, a3: Message)
    requires s != [] && 0 < s[0].xid < a2.xid < a3.xid
    ensures !IsRepeat(s, [], Got(a2)) && !IsRepeat(s, [a2], Got(a3)) && IsRepeat(s, [a2, a3], Got(a2))
  {
    assert [a2, a3][0] == a2 && [a2, a3][1] == a3;
    assert Delivered([a2, a3], a2.xid);
    assert !Delivered([a2], a3.xid) && !Delivered([], a2.xid);
  }

  /** It leaves the placeholder of the first request, but counts no missing response. */
  lemma RepeatMiscounts(q1: Message, q2: Message, q3: Message, a2: Message, a3: Message)
    requires 0 < q1.xid < q2.xid < q3.xid && a2.xid == q2.xid && a3.xid == q3.xid
    ensures var es := Repeating(q1, q2, q3, a2, a3);
      && Legal(es) && Repeats(es) == 1
      && Run(es) == Row([q1, q2, q3], [PLACEHOLDER, a2, a3], q3.xid, 0)
      && Placeholders(Run(es).resps) == 1
  {
    hide Run, Repeats, Respond, Requests, Answers, Legal, Placeholders, IsRepeat;
    var sent := ThreeSent(q1, q2, q3);
    var two, three := sent + [Got(a2)], sent + [Got(a2)] + [Got(a3)];
    assert [q1, q2, q3][0] == q1 && [q1, q2, q3][1] == q2 && [q1, q2, q3][2] == q3;
    RunMore(sent, Got(a2));
    RunMore(two, Got(a3));
    RunMore(three, Got(a2));
    RepeatRow(Run(sent), q1, q2, q3, a2, a3);
    AnswersMore(sent, Got(a2));
    AnswersMore(two, Got(a3));
    AnswersMore(three, Got(a2));
    OneRepeat([q1, q2, q3], a2, a3);
    assert [] + [a2] == [a2] && [a2] + [a3] == [a2, a3];
    OnePlaceholder(a2, a3);
  }

  lemma OnePlaceholder(a2: Message, a3: Message)
    requires a2.xid != 0 && a3.xid != 0
    ensures Placeholders([PLACEHOLDER, a2, a3]) == 1
  {
    var one := [] + Skipped(1) + [a2];
    PlaceholdersAppend([], 1, a2);
    PlaceholdersAppend(one, 0, a3);
    assert one + Skipped(0) + [a3] == [PLACEHOLDER, a2, a3];
  }

  lemma OldRepeatNeeds(row: Row, s: seq<Message>, g: seq<Message>, x: nat)
    requires Reflects(row, s, g) && Issued(s, x) && OldRepeat(s, g, x)
    ensures 3 <= |s| && 2 <= |g|
  {
    var j: nat :| j < |s| && s[j].xid == x;
    var n := |row.resps|;
    assert x < row.last == s[n - 1].xid;
    assert 0 < j < n - 1;
  }

  /** No shorter history than that goes wrong. */
  lemma {:induction false} ShortestRepeat(es: seq<Event>)
    requires Legal(es) && Repeats(es) > 0
    ensures 6 <= |es|
  {
    var front, e := es[..|es| - 1], es[|es| - 1];
    if Repeats(front) > 0 {
      ShortestRepeat(front);
    } else {
      RunReflects(front);
      RequestsBound(front);
      OldRepeatNeeds(Run(front), Requests(front), Answers(front), e.m.xid);
    }
  }
}
