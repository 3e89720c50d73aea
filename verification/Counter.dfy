/** The counter object: parallel columns per connection, updated in place. */
module Counters {
  import opened Accounting
  import opened History
  import opened Ledger
  import opened Log

  function PutAt<T>(columns: seq<seq<T>>, c: nat, i: nat, x: T): seq<seq<T>>
    requires c < |columns| && i < |columns[c]|
  {
    columns[c := columns[c][i := x]]
  }

  /** Four parallel vectors, each holding one column per connection. */
  datatype Table = Table(xids: seq<seq<nat>>, times: seq<seq<real>>, bytes: seq<seq<nat>>, kinds: seq<seq<nat>>) {

    /** There are n connections, and the columns of each are parallel. */
    ghost predicate Covers(n: nat) {
      && |xids| == |times| == |bytes| == |kinds| == n
      && forall c | 0 <= c < n :: |xids[c]| == |times[c]| == |bytes[c]| == |kinds[c]|
    }

    function Messages(c: nat): (ms: seq<Message>)
      requires c < |xids| && Covers(|xids|)
      ensures |ms| == |xids[c]|
      ensures forall i | 0 <= i < |ms| :: ms[i].xid == xids[c][i]
    {
      seq(|xids[c]|, i requires 0 <= i < |xids[c]| => Message(xids[c][i], times[c][i], bytes[c][i], kinds[c][i]))
    }

    function Open(): Table {
      Table(xids + [[]], times + [[]], bytes + [[]], kinds + [[]])
    }

    function Push(c: nat, m: Message): Table
      requires c < |xids| && Covers(|xids|)
    {
      Table(xids[c := xids[c] + [m.xid]], times[c := times[c] + [m.time]],
            bytes[c := bytes[c] + [m.bytes]], kinds[c := kinds[c] + [m.kind]])
    }

    function Put(c: nat, i: nat, m: Message): Table
      requires c < |xids| && Covers(|xids|) && i < |xids[c]|
    {
      Table(PutAt(xids, c, i, m.xid), PutAt(times, c, i, m.time),
            PutAt(bytes, c, i, m.bytes), PutAt(kinds, c, i, m.kind))
    }

    lemma OpenMessages(n: nat)
      requires Covers(n)
      ensures |xids| == n && |Open().xids| == n + 1 && Open().Covers(n + 1)
      ensures forall d | 0 <= d <= n :: Open().Messages(d) == if d < n then Messages(d) else []
    {
    }

    lemma PushMessages(n: nat, c: nat, m: Message)
      requires Covers(n) && c < n
      ensures |xids| == n && |Push(c, m).xids| == n && Push(c, m).Covers(n)
      ensures forall d | 0 <= d < n :: Push(c, m).Messages(d) == if d == c then Messages(c) + [m] else Messages(d)
    {
    }

    lemma PutMessages(n: nat, c: nat, i: nat, m: Message)
      requires Covers(n) && c < n && i < |xids[c]|
      ensures |xids| == n && |Put(c, i, m).xids| == n && Put(c, i, m).Covers(n)
      ensures forall d | 0 <= d < n :: Put(c, i, m).Messages(d) == if d == c then Messages(c)[i := m] else Messages(d)
    {
    }
  }

  /** The four tables and vectors that make up the rows of n connections. */
  ghost predicate Uniform(n: nat, reqs: Table, resps: Table, last: seq<nat>, missing: seq<nat>) {
    reqs.Covers(n) && resps.Covers(n) && |last| == |missing| == n
  }

  ghost function RowOf(n: nat, reqs: Table, resps: Table, last: seq<nat>, missing: seq<nat>, c: nat): Row
    requires Uniform(n, reqs, resps, last, missing) && c < n
  {
    Row(reqs.Messages(c), resps.Messages(c), last[c], missing[c])
  }

  ghost function RowsOf(n: nat, reqs: Table, resps: Table, last: seq<nat>, missing: seq<nat>): (rows: seq<Row>)
    requires Uniform(n, reqs, resps, last, missing)
    ensures |rows| == n && forall c | 0 <= c < n :: rows[c] == RowOf(n, reqs, resps, last, missing, c)
  {
    seq(n, c requires 0 <= c < n => RowOf(n, reqs, resps, last, missing, c))
  }

  lemma UniformCovers(n: nat, reqs: Table, resps: Table, last: seq<nat>, missing: seq<nat>)
    requires Uniform(n, reqs, resps, last, missing)
    ensures resps.Covers(n)
  {
  }

  lemma XidColumn(n: nat, reqs: Table, resps: Table, last: seq<nat>, missing: seq<nat>, c: nat)
    requires Uniform(n, reqs, resps, last, missing) && c < n
    ensures c < |reqs.xids| && |reqs.xids[c]| == |RowsOf(n, reqs, resps, last, missing)[c].reqs|
    ensures forall i | 0 <= i < |reqs.xids[c]| ::
      reqs.xids[c][i] == RowsOf(n, reqs, resps, last, missing)[c].reqs[i].xid
  {
  }

  lemma RowsOpened(n: nat, reqs: Table, resps: Table, last: seq<nat>, missing: seq<nat>)
    requires Uniform(n, reqs, resps, last, missing)
    ensures Uniform(n + 1, reqs.Open(), resps.Open(), last + [0], missing + [0])
    ensures RowsOf(n + 1, reqs.Open(), resps.Open(), last + [0], missing + [0])
         == RowsOf(n, reqs, resps, last, missing) + [EMPTY_ROW]
  {
    reqs.OpenMessages(n);
    resps.OpenMessages(n);
    hide Table.Messages, Table.Open, Table.Covers;
  }

  lemma RequestPushed(n: nat, reqs: Table, resps: Table, last: seq<nat>, missing: seq<nat>, c: nat, m: Message)
    requires Uniform(n, reqs, resps, last, missing) && c < n
    ensures c < |reqs.xids| == n && reqs.Covers(|reqs.xids|)
    ensures Uniform(n, reqs.Push(c, m), resps, last, missing)
    ensures var rows := RowsOf(n, reqs, resps, last, missing);
      RowsOf(n, reqs.Push(c, m), resps, last, missing) == rows[c := Request(rows[c], m)]
  {
    reqs.PushMessages(n, c, m);
    hide Table.Messages, Table.Push, Table.Covers;
  }

  /** The vectors after a late answer. */
  lemma AnswerPut(n: nat, reqs: Table, resps: Table, last: seq<nat>, missing: seq<nat>, c: nat, i: nat, m: Message)
    requires Uniform(n, reqs, resps, last, missing) && c < n
    requires Classify(RowsOf(n, reqs, resps, last, missing)[c], m.xid) == Counted(i, -1)
    ensures c < |resps.xids| == n && resps.Covers(|resps.xids|) && i < |resps.xids[c]|
    ensures c < |reqs.times| && i < |reqs.times[c]|
    ensures reqs.times[c][i] == RowsOf(n, reqs, resps, last, missing)[c].reqs[i].time && |last| == |missing| == n
    ensures var missing' := missing[c := (missing[c] + WORD - 1) % WORD];
      && Uniform(n, reqs, resps.Put(c, i, m), last, missing')
      && var rows := RowsOf(n, reqs, resps, last, missing);
         RowsOf(n, reqs, resps.Put(c, i, m), last, missing') == rows[c := Respond(rows[c], m)]
  {
    resps.PutMessages(n, c, i, m);
    ghost var row := RowOf(n, reqs, resps, last, missing, c);
    assert reqs.times[c][i] == row.reqs[i].time;
    assert Respond(row, m) == row.(resps := row.resps[i := m], missing := (row.missing + WORD - 1) % WORD);
    hide Table.Messages, Table.Push, Table.Covers, Classify, Respond;
  }

  /** `filled` is `table` with k placeholders more on connection c. */
  ghost predicate Padded(n: nat, table: Table, c: nat, k: nat, filled: Table)
    requires table.Covers(n) && c < n
  {
    && filled.Covers(n)
    && forall d | 0 <= d < n ::
         filled.Messages(d) == if d == c then table.Messages(c) + Skipped(k) else table.Messages(d)
  }

  lemma RespondBeyond(row: Row, m: Message, i: nat, skipped: nat)
    requires Classify(row, m.xid) == Counted(i, skipped)
    ensures Respond(row, m) == Row(row.reqs, row.resps + Skipped(skipped) + [m], m.xid, (row.missing + skipped) % WORD)
  {
    hide Locate;
  }

  /** The vectors after an answer beyond all others; `filled` already holds the placeholders. */
  lemma AnswerPushed(n: nat, reqs: Table, resps: Table, last: seq<nat>, missing: seq<nat>,
                     c: nat, i: nat, skipped: nat, m: Message, filled: Table)
    requires Uniform(n, reqs, resps, last, missing) && c < n
    requires Classify(RowsOf(n, reqs, resps, last, missing)[c], m.xid) == Counted(i, skipped)
    requires Padded(n, resps, c, skipped, filled)
    ensures c < |filled.xids| == n && filled.Covers(|filled.xids|) && |last| == |missing| == n
    ensures var last', missing' := last[c := m.xid], missing[c := (missing[c] + skipped) % WORD];
      && Uniform(n, reqs, filled.Push(c, m), last', missing')
      && var rows := RowsOf(n, reqs, resps, last, missing);
         RowsOf(n, reqs, filled.Push(c, m), last', missing') == rows[c := Respond(rows[c], m)]
  {
    hide Table.Messages, Table.Push, Table.Covers, Classify, Respond, Skipped;
    filled.PushMessages(n, c, m);
    RespondBeyond(RowOf(n, reqs, resps, last, missing, c), m, i, skipped);
  }

  /** The time of the request that an answer is counted for. */
  lemma RequestTime(n: nat, reqs: Table, resps: Table, last: seq<nat>, missing: seq<nat>,
                    c: nat, x: nat, i: nat, losses: int)
    requires Uniform(n, reqs, resps, last, missing) && c < n
    requires Classify(RowsOf(n, reqs, resps, last, missing)[c], x) == Counted(i, losses)
    ensures c < |reqs.times| && i < |reqs.times[c]|
    ensures reqs.times[c][i] == RowsOf(n, reqs, resps, last, missing)[c].reqs[i].time
  {
    ghost var row := RowOf(n, reqs, resps, last, missing, c);
    assert reqs.times[c][i] == row.reqs[i].time;
  }

  /** One placeholder for each skipped request. */
  method PushPlaceholders(table: Table, n: nat, c: nat, skipped: nat) returns (filled: Table)
    requires table.Covers(n) && c < n
    ensures Padded(n, table, c, skipped, filled)
  {
    hide Table.Push, Table.Messages;
    filled := table;
    assert table.Messages(c) + Skipped(0) == table.Messages(c);
    for k := 0 to skipped
      invariant Padded(n, table, c, k, filled)
    {
      filled.PushMessages(n, c, PLACEHOLDER);
      filled := filled.Push(c, PLACEHOLDER);
      assert table.Messages(c) + Skipped(k) + [PLACEHOLDER] == table.Messages(c) + Skipped(k + 1);
    }
  }

  /** The id is greater than those of all requests so far. */
  ghost predicate Beyond(row: Row, xid: nat) {
    forall i | 0 <= i < |row.reqs| :: row.reqs[i].xid < xid
  }

  /** The counts kept beside the rows are their lengths, and every row is ordered. */
  ghost predicate Tallied(rows: seq<Row>, requests: seq<nat>, responses: seq<nat>) {
    && |rows| == |requests| == |responses|
    && forall c | 0 <= c < |rows| ::
         Ordered(rows[c]) && requests[c] == |rows[c].reqs| && responses[c] == |rows[c].resps|
  }

  lemma TalliedOpen(rows: seq<Row>, requests: seq<nat>, responses: seq<nat>)
    requires Tallied(rows, requests, responses)
    ensures Tallied(rows + [EMPTY_ROW], requests + [0], responses + [0])
  {
  }

  lemma TalliedUpdate(rows: seq<Row>, requests: seq<nat>, responses: seq<nat>, c: nat, row: Row)
    requires Tallied(rows, requests, responses) && c < |rows| && Ordered(row)
    ensures Tallied(rows[c := row], requests[c := |row.reqs|], responses[c := |row.resps|])
  {
  }

  lemma TalliedAt(rows: seq<Row>, requests: seq<nat>, responses: seq<nat>, c: nat)
    requires Tallied(rows, requests, responses) && c < |rows|
    ensures Ordered(rows[c]) && requests[c] == |rows[c].reqs| && responses[c] == |rows[c].resps|
    ensures requests[c := |rows[c].reqs|] == requests && responses[c := |rows[c].resps|] == responses
  {
  }

  function Sum(ns: seq<nat>): nat {
    if ns == [] then 0 else Sum(ns[..|ns| - 1]) + ns[|ns| - 1]
  }

  class Counter {
    // one entry per connection in each vector
    var connIds: seq<int>
    var requests: seq<nat>
    var responses: seq<nat>
    var lastResponseXid: seq<nat>
    var missingResponses: seq<nat>
    var reqs: Table
    var resps: Table
    // figures of the current interval, and running byte totals
    var intervalRequests: int
    var intervalResponses: int
    var intervalLosses: int
    var intervalLatencySum: real
    var reqTotalBytes: int
    var respTotalBytes: int
    // when the interval began, and how many there were
    var intervalStart: real
    var intervals: nat
    // limits
    var startTime: real
    var maxTime: nat
    var maxPackets: nat
    var finished: bool

    /** All thirteen vectors have one entry per connection, and parallel columns. */
    ghost predicate SameLength()
      reads this`connIds, this`requests, this`responses, this`lastResponseXid, this`missingResponses
      reads this`reqs, this`resps
    {
      && |connIds| == |requests| == |responses|
      && Uniform(|connIds|, reqs, resps, lastResponseXid, missingResponses)
    }

    ghost function Rows(): (rows: seq<Row>)
      requires SameLength()
      reads this`connIds, this`requests, this`responses, this`lastResponseXid, this`missingResponses
      reads this`reqs, this`resps
      ensures |rows| == |connIds|
    {
      RowsOf(|connIds|, reqs, resps, lastResponseXid, missingResponses)
    }

    ghost function RowAt(c: nat): Row
      requires SameLength() && c < |connIds|
      reads this`connIds, this`requests, this`responses, this`lastResponseXid, this`missingResponses
      reads this`reqs, this`resps
    {
      Rows()[c]
    }

    ghost predicate Valid()
      reads this`connIds, this`requests, this`responses, this`lastResponseXid, this`missingResponses
      reads this`reqs, this`resps
    {
      SameLength() && Tallied(Rows(), requests, responses)
    }

    /** What the counter has recorded. */
    ghost function Recorded(): State
      requires SameLength()
      reads this
    {
      State(Rows(), intervalRequests,
            Totals(intervalResponses, intervalLosses, intervalLatencySum, respTotalBytes), reqTotalBytes)
    }

    constructor (maxTime: nat, maxPackets: nat)
      ensures Valid() && Recorded() == START
      ensures !finished && startTime == intervalStart == 0.0 && this.maxTime == maxTime && this.maxPackets == maxPackets
    {
      connIds, requests, responses, lastResponseXid, missingResponses := [], [], [], [], [];
      reqs, resps := Table([], [], [], []), Table([], [], [], []);
      intervalRequests, intervalResponses, intervalLosses, intervalLatencySum := 0, 0, 0, 0.0;
      reqTotalBytes, respTotalBytes := 0, 0;
      intervalStart, startTime, this.maxTime, this.maxPackets, finished := 0.0, 0.0, maxTime, maxPackets, false;
    }

    /** A connection has come up: one new entry in every vector. */
    method AddConnection(connId: int) returns (listIndex: nat)
      requires Valid()
      modifies this`connIds, this`requests, this`responses, this`lastResponseXid, this`missingResponses
      modifies this`reqs, this`resps
      ensures Valid() && connIds == old(connIds) + [connId] && listIndex == |old(connIds)|
      ensures Recorded() == Apply(old(Recorded()), Connect)
      ensures requests == old(requests) + [0]
    {
      hide Uniform, RowsOf, Tallied, Table.Open;
      TalliedOpen(Rows(), requests, responses);
      RowsOpened(|connIds|, reqs, resps, lastResponseXid, missingResponses);
      connIds := connIds + [connId];
      listIndex := |connIds| - 1;
      requests, responses := requests + [0], responses + [0];
      lastResponseXid, missingResponses := lastResponseXid + [0], missingResponses + [0];
      reqs, resps := reqs.Open(), resps.Open();
    }

    /** Count a request; the dispatcher hands out increasing positive transaction ids. */
    method CountRequest(xid: nat, time: real, bytes: nat, kind: nat, c: nat)
      requires Valid() && c < |connIds|
      requires 0 < xid && Beyond(RowAt(c), xid)
      modifies this`requests, this`reqs, this`intervalRequests, this`reqTotalBytes
      ensures Valid()
      ensures requests == old(requests)[c := old(requests)[c] + 1]
      ensures Recorded() == Apply(old(Recorded()), On(c, Sent(Message(xid, time, bytes, kind))))
    {
      var m := Message(xid, time, bytes, kind);
      hide Uniform, RowsOf, Tallied, Ordered, Beyond, Apply, Request, Table.Covers, Table.Push;
      RequestTallied(Rows(), requests, responses, c, m);
      ApplySent(Recorded(), c, m);
      RequestPushed(|connIds|, reqs, resps, lastResponseXid, missingResponses, c, m);
      reqs := reqs.Push(c, m);
      reqTotalBytes := reqTotalBytes + bytes;
      requests := requests[c := requests[c] + 1];
      intervalRequests := intervalRequests + 1;
    }

    /** The transaction id at index i of the request column; past its end, an id no message carries. */
    function XidAt(c: nat, i: nat): int
      requires SameLength() && c < |connIds|
      reads this
    {
      if i < |reqs.xids[c]| then reqs.xids[c][i] else -1
    }

    /** Walk back from the first unanswered request to the one with this id; index 0 is never looked at. */
    method SearchBackwards(xid: nat, c: nat) returns (found: bool, i: nat)
      requires Valid() && c < |connIds| && xid < lastResponseXid[c]
      ensures found ==> 0 < i && Classify(RowAt(c), xid) == Counted(i, -1)
      ensures !found ==> Classify(RowAt(c), xid) == Dropped
    {
      ghost var row := RowAt(c);
      i := responses[c];
      TalliedAt(Rows(), requests, responses, c);
      var probe := XidAt(c, i);
      while xid != probe
        invariant 0 < i <= responses[c] && probe == XidAt(c, i)
        invariant forall j | i <= j < responses[c] && (i < j || probe != xid) :: row.reqs[j].xid != xid
        decreases i
      {
        i := i - 1;
        if i <= 0 {
          LateDropped(row, xid);
          return false, i;
        }
        probe := reqs.xids[c][i];
      }
      LateFound(row, xid, i);
      found := true;
    }

    /** Walk on from the first unanswered request to the one with this id, counting those skipped. */
    method SearchForwards(xid: nat, c: nat) returns (found: bool, i: nat, skipped: nat)
      requires Valid() && c < |connIds| && lastResponseXid[c] < xid
      requires XidAt(c, responses[c]) < xid && RowAt(c).reqs != []
      ensures found ==> Classify(RowAt(c), xid) == Counted(i, skipped)
      ensures !found ==> Classify(RowAt(c), xid) == Dropped
    {
      hide Tallied, Ordered, Classify, RowsOf, Table.Covers;
      ghost var row := RowAt(c);
      TalliedAt(Rows(), requests, responses, c);
      XidColumn(|connIds|, reqs, resps, lastResponseXid, missingResponses, c);
      i, skipped := responses[c], 0;
      OrderedBounds(row);
      var probe := XidAt(c, i);
      while xid != probe
        invariant responses[c] <= i <= requests[c] && skipped == i - responses[c]
        invariant probe == XidAt(c, i)
        invariant forall j | responses[c] <= j < i :: row.reqs[j].xid != xid
        decreases requests[c] - i
      {
        skipped := skipped + 1;
        i := i + 1;
        if i > requests[c] - 1 {
          NewDropped(row, xid);
          return false, i, skipped;
        }
        probe := reqs.xids[c][i];
      }
      NewFound(row, xid, i);
      found := true;
    }

    /** The figures of an answer that was recorded. */
    method CountAnswer(latency: real, bytes: nat)
      modifies this`respTotalBytes, this`intervalResponses, this`intervalLatencySum
      ensures respTotalBytes == old(respTotalBytes) + bytes && intervalResponses == old(intervalResponses) + 1
      ensures intervalLatencySum == old(intervalLatencySum) + latency
    {
      respTotalBytes := respTotalBytes + bytes;
      intervalResponses := intervalResponses + 1;
      intervalLatencySum := intervalLatencySum + latency;
    }

    /** A late answer takes the place of its placeholder: it was no loss after all. */
    method RecordLate(m: Message, c: nat, i: nat)
      requires Valid() && c < |connIds| && Classify(RowAt(c), m.xid) == Counted(i, -1)
      modifies this`resps, this`missingResponses
      modifies this`intervalLosses, this`intervalResponses, this`intervalLatencySum, this`respTotalBytes
      ensures Valid()
      ensures Recorded() == Apply(old(Recorded()), On(c, Got(m)))
    {
      hide Padded, Uniform, RowsOf, RowOf, Tallied, Classify, Apply, Respond;
      hide Table.Covers, Table.Messages, Table.Push, Table.Put;
      LateTallied(Rows(), requests, responses, c, m, i);
      ApplyCounted(Recorded(), c, m, i, -1);
      AnswerPut(|connIds|, reqs, resps, lastResponseXid, missingResponses, c, i, m);
      var latency := m.time - reqs.times[c][i];
      resps := resps.Put(c, i, m);
      intervalLosses := intervalLosses - 1;
      missingResponses := missingResponses[c := (missingResponses[c] + WORD - 1) % WORD];
      CountAnswer(latency, m.bytes);
    }

    /** Put an answer into the columns, behind placeholders for the requests it overtook. */
    method PushAnswer(m: Message, c: nat, i: nat, skipped: nat)
      requires Valid() && c < |connIds| && Classify(RowAt(c), m.xid) == Counted(i, skipped)
      modifies this`resps, this`responses, this`lastResponseXid, this`missingResponses
      ensures Valid() && Rows() == old(Rows())[c := Respond(old(RowAt(c)), m)]
    {
      hide Padded, Uniform, RowsOf, RowOf, Tallied, Classify, Respond;
      hide Table.Covers, Table.Messages, Table.Push, Table.Put;
      UniformCovers(|connIds|, reqs, resps, lastResponseXid, missingResponses);
      NewTallied(Rows(), requests, responses, c, m, i, skipped);
      var table := PushPlaceholders(resps, |connIds|, c, skipped);
      AnswerPushed(|connIds|, reqs, resps, lastResponseXid, missingResponses, c, i, skipped, m, table);
      resps := table.Push(c, m);
      responses := responses[c := responses[c] + skipped + 1];
      missingResponses := missingResponses[c := (missingResponses[c] + skipped) % WORD];
      lastResponseXid := lastResponseXid[c := m.xid];
    }

    /** An answer beyond all others: the requests it overtook get placeholders. */
    method RecordNew(m: Message, c: nat, i: nat, skipped: nat)
      requires Valid() && c < |connIds| && Classify(RowAt(c), m.xid) == Counted(i, skipped)
      modifies this`resps, this`responses, this`lastResponseXid, this`missingResponses
      modifies this`intervalLosses, this`intervalResponses, this`intervalLatencySum, this`respTotalBytes
      ensures Valid()
      ensures Recorded() == Apply(old(Recorded()), On(c, Got(m)))
    {
      hide Uniform, RowsOf, RowOf, Tallied, Classify, Apply, Respond;
      ApplyCounted(Recorded(), c, m, i, skipped);
      RequestTime(|connIds|, reqs, resps, lastResponseXid, missingResponses, c, m.xid, i, skipped);
      PushAnswer(m, c, i, skipped);
      intervalLosses := intervalLosses + skipped;
      CountAnswer(m.time - reqs.times[c][i], m.bytes);
    }

    /** Match a response with its request: forwards past requests not answered yet, leaving
        placeholders for them, or backwards to a placeholder left before. */
    method CountResponse(xid: nat, time: real, bytes: nat, kind: nat, c: nat)
      requires Valid() && c < |connIds|
      requires RowAt(c).reqs != [] || xid == lastResponseXid[c]
      modifies this`resps, this`responses, this`lastResponseXid, this`missingResponses
      modifies this`intervalLosses, this`intervalResponses, this`intervalLatencySum, this`respTotalBytes
      ensures Valid()
      ensures Recorded() == Apply(old(Recorded()), On(c, Got(Message(xid, time, bytes, kind))))
    {
      if xid == lastResponseXid[c] { return; }
      var m := Message(xid, time, bytes, kind);
      TalliedAt(Rows(), requests, responses, c);
      if Classify(RowAt(c), xid) == Dropped { ApplyDropped(Recorded(), c, m); }
      hide Apply;
      var i := responses[c];
      if xid < lastResponseXid[c] {
        var found;
        found, i := SearchBackwards(xid, c);
        if found { RecordLate(m, c, i); }
      } else if xid > XidAt(c, i) && xid != 0 {
        var found, skipped;
        found, i, skipped := SearchForwards(xid, c);
        if found { RecordNew(m, c, i, skipped); }
      } else {
        RecordNew(m, c, i, 0);
      }
    }
  
    /** The lines of one connection, one per request. */
    method WriteRow(c: nat) returns (lines: seq<Line>)
      requires Valid() && c < |connIds|
      ensures lines == RowLines(RowAt(c), c)
    {
      ghost var row := RowAt(c);
      lines := [];
      for r := 0 to |reqs.xids[c]|
        invariant lines == RowLines(row, c)[..r]
      {
        var respMsgtype, respTime, respBytes, lat := 0, 0.0, 0, 0.0;
        if |resps.kinds[c]| >= r + 1 {
          respMsgtype, respTime, respBytes := resps.kinds[c][r], resps.times[c][r], resps.bytes[c][r];
        }
        if respTime != 0.0 {
          lat := (respTime - reqs.times[c][r]) * 1000.0;
        }
        var line := Line(reqs.xids[c][r], reqs.kinds[c][r], reqs.times[c][r], reqs.bytes[c][r],
                         respMsgtype, respTime, respBytes, lat, c);
        assert line == RowLines(row, c)[r];
        lines := lines + [line];
      }
    }

    /** Write the log, connection by connection. */
    method WriteLogfile() returns (lines: seq<Line>)
      requires Valid()
      ensures lines == AllLines(Rows())
    {
      hide Uniform, RowsOf, Tallied, RowLines;
      lines := [];
      for c := 0 to |connIds|
        invariant lines == AllLines(Rows()[..c])
      {
        var more := WriteRow(c);
        lines := lines + more;
        assert Rows()[..c + 1][..c] == Rows()[..c];
      }
      assert Rows()[..|connIds|] == Rows();
    }

    /** A report was made at `now`: the figures of the interval start again. */
    method NewInterval(now: real)
      requires Valid()
      modifies this`intervalRequests, this`intervalResponses, this`intervalLatencySum, this`intervalLosses
      modifies this`intervalStart, this`intervals
      ensures Valid() && Recorded() == Apply(old(Recorded()), Ledger.NewInterval)
      ensures intervalStart == now && intervals == (old(intervals) + 1) % WORD
    {
      hide Uniform, RowsOf, Tallied;
      intervalStart := now;
      intervalRequests, intervalResponses, intervalLatencySum, intervalLosses := 0, 0, 0.0, 0;
      intervals := (intervals + 1) % WORD;
    }

    /** The counts are set to zero, but not the columns they count: the counter stays consistent
        exactly when nothing has been requested yet. */
    method ZeroCounts()
      requires Valid()
      modifies this`requests, this`responses
      ensures SameLength() && Rows() == old(Rows())
      ensures forall c | 0 <= c < |connIds| :: requests[c] == responses[c] == 0
      ensures Valid() <==> forall c | 0 <= c < |connIds| :: Rows()[c].reqs == []
    {
      hide Uniform, RowsOf, Ordered, Tallied;
      requests := seq(|requests|, _ => 0);
      responses := seq(|responses|, _ => 0);
      ZeroTallied(Rows(), old(requests), old(responses), requests, responses);
    }

    /** Start again. The other figures of the interval and the ids answered last are left as they are. */
    method Reset(now: real)
      requires Valid()
      modifies this`requests, this`responses, this`intervalRequests, this`startTime, this`intervalStart
      modifies this`intervals, this`reqTotalBytes, this`respTotalBytes, this`finished
      ensures SameLength() && Rows() == old(Rows())
      ensures forall c | 0 <= c < |connIds| :: requests[c] == responses[c] == 0
      ensures Valid() <==> forall c | 0 <= c < |connIds| :: Rows()[c].reqs == []
      ensures startTime == now && intervalStart == 0.0 && intervals == 0 && !finished
      ensures reqTotalBytes == 0 && respTotalBytes == 0 && intervalRequests == 0
    {
      hide Valid, SameLength, Rows;
      intervalStart := 0.0;
      intervalRequests := 0;
      startTime := now;
      intervals := 0;
      ZeroCounts();
      reqTotalBytes := 0;
      respTotalBytes := 0;
      finished := false;
    }

    method Finish()
      modifies this`finished
      ensures finished
    {
      finished := true;
    }

    /** A limit is reached: the counter was finished before, there is a time limit, the clock was started
        and runs that much later at `now`, or there is a packet limit and so much was sent. Once reached
        it stays reached. */
    method LimitReached(now: real) returns (reached: bool)
      modifies this`finished
      ensures reached == (old(finished)
                          || (0 < maxTime && 0.0 < startTime && startTime + maxTime as real <= now)
                          || (0 < maxPackets && maxPackets <= Sum(requests)))
      ensures finished == reached
    {
      if finished {
        return true;
      }
      if maxTime > 0 && startTime > 0.0 {
        if now - startTime >= maxTime as real {
          Finish();
          return true;
        }
      }
      if maxPackets > 0 {
        if Sum(requests) >= maxPackets {
          Finish();
          return true;
        }
      }
      return false;
    }
  }

  lemma ZeroTallied(rows: seq<Row>, requests: seq<nat>, responses: seq<nat>, zeros: seq<nat>, zeros': seq<nat>)
    requires Tallied(rows, requests, responses)
    requires |zeros| == |zeros'| == |rows| && forall c | 0 <= c < |rows| :: zeros[c] == 0 && zeros'[c] == 0
    ensures Tallied(rows, zeros, zeros') <==> forall c | 0 <= c < |rows| :: rows[c].reqs == []
  {
  }

  lemma RequestTallied(rows: seq<Row>, requests: seq<nat>, responses: seq<nat>, c: nat, m: Message)
    requires Tallied(rows, requests, responses) && c < |rows| && 0 < m.xid
    requires Beyond(rows[c], m.xid)
    ensures Tallied(rows[c := Request(rows[c], m)], requests[c := requests[c] + 1], responses)
  {
    TalliedAt(rows, requests, responses, c);
    RequestKeepsOrdered(rows[c], m);
    TalliedUpdate(rows, requests, responses, c, Request(rows[c], m));
  }

  lemma LateTallied(rows: seq<Row>, requests: seq<nat>, responses: seq<nat>, c: nat, m: Message, i: nat)
    requires Tallied(rows, requests, responses) && c < |rows| && Classify(rows[c], m.xid) == Counted(i, -1)
    ensures Tallied(rows[c := Respond(rows[c], m)], requests, responses)
  {
    TalliedAt(rows, requests, responses, c);
    RespondKeepsOrdered(rows[c], m);
    TalliedUpdate(rows, requests, responses, c, Respond(rows[c], m));
  }

  lemma NewTallied(rows: seq<Row>, requests: seq<nat>, responses: seq<nat>, c: nat, m: Message, i: nat, k: nat)
    requires Tallied(rows, requests, responses) && c < |rows| && Classify(rows[c], m.xid) == Counted(i, k)
    ensures Tallied(rows[c := Respond(rows[c], m)], requests, responses[c := responses[c] + k + 1])
  {
    TalliedAt(rows, requests, responses, c);
    RespondKeepsOrdered(rows[c], m);
    TalliedUpdate(rows, requests, responses, c, Respond(rows[c], m));
  }

  lemma ApplySent(st: State, c: nat, m: Message)
    requires c < |st.rows|
    ensures Apply(st, On(c, Sent(m)))
         == State(st.rows[c := Request(st.rows[c], m)], st.windowRequests + 1, st.window, st.reqBytes + m.bytes)
  {
  }

  lemma ApplyDropped(st: State, c: nat, m: Message)
    requires c < |st.rows| && Classify(st.rows[c], m.xid) == Dropped
    ensures Apply(st, On(c, Got(m))) == st
  {
  }

  lemma ApplyCounted(st: State, c: nat, m: Message, i: nat, losses: int)
    requires c < |st.rows| && Classify(st.rows[c], m.xid) == Counted(i, losses)
    ensures Apply(st, On(c, Got(m)))
         == State(st.rows[c := Respond(st.rows[c], m)], st.windowRequests,
                  Totals(st.window.answers + 1, st.window.losses + losses,
                         st.window.latency + (m.time - st.rows[c].reqs[i].time), st.window.bytes + m.bytes),
                  st.reqBytes)
  {
  }

  lemma OrderedBounds(row: Row)
    requires Ordered(row)
    ensures |row.resps| <= |row.reqs|
  {
  }

  lemma NewFound(row: Row, x: nat, i: nat)
    requires Ordered(row) && row.last < x && |row.resps| <= i < |row.reqs| && row.reqs[i].xid == x
    ensures Classify(row, x) == Counted(i, i - |row.resps|)
  {
    LocateIs(row.reqs, i);
    assert |row.resps| < i ==> row.reqs[|row.resps|].xid < x;
  }

  lemma NewDropped(row: Row, x: nat)
    requires Ordered(row) && row.last < x
    requires |row.resps| < |row.reqs| ==> row.reqs[|row.resps|].xid < x
    requires forall j | |row.resps| <= j < |row.reqs| :: row.reqs[j].xid != x
    ensures Classify(row, x) == Dropped
  {
  }

  lemma LateFound(row: Row, x: nat, i: nat)
    requires Ordered(row) && x < row.last && 0 < i < |row.reqs| && i <= |row.resps| && row.reqs[i].xid == x
    ensures Classify(row, x) == Counted(i, -1)
  {
    LocateIs(row.reqs, i);
  }

  lemma LateDropped(row: Row, x: nat)
    requires Ordered(row) && x < row.last
    requires forall j | 0 < j < |row.resps| :: row.reqs[j].xid != x
    ensures Classify(row, x) == Dropped
  {
  }
}
