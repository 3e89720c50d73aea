/** One connection's request/response row, as a value: what `Counter` keeps for it,
    what one response does to it, and what a whole history of requests and responses leaves. */
module Accounting {

  /** Number of values of the 32-bit counters. */
  const WORD: nat := 0x1_0000_0000

  /** One counted message: the four parallel columns of the row at one index. */
  datatype Message = Message(xid: nat, time: real, bytes: nat, kind: nat)

  /** What is pushed for a request that a later answer overtook. */
  const PLACEHOLDER := Message(0, 0.0, 0, 0)

  datatype Row = Row(reqs: seq<Message>, resps: seq<Message>, last: nat, missing: nat)

  const EMPTY_ROW := Row([], [], 0, 0)

  /** What a response does: nothing, or it is counted for one request, changing the losses. */
  datatype Effect = Dropped | Counted(index: nat, losses: int)

  /** Requests carry positive, strictly increasing transaction ids. */
  ghost predicate Ascending(reqs: seq<Message>) {
    && (forall i | 0 <= i < |reqs| :: 0 < reqs[i].xid)
    && (forall i, j | 0 <= i < j < |reqs| :: reqs[i].xid < reqs[j].xid)
  }

  /** Index of the request with transaction id x, or |reqs| when there is none. */
  function Locate(reqs: seq<Message>, x: nat): (i: nat)
    ensures i <= |reqs|
    ensures i < |reqs| ==> reqs[i].xid == x
    ensures forall j | 0 <= j < i :: reqs[j].xid != x
  {
    if reqs == [] then 0 else if reqs[0].xid == x then 0 else 1 + Locate(reqs[1..], x)
  }

  lemma LocateIs(reqs: seq<Message>, i: nat)
    requires Ascending(reqs) && i < |reqs|
    ensures Locate(reqs, reqs[i].xid) == i
  {
    assert forall j | 0 <= j < i :: reqs[j].xid != reqs[i].xid;
  }

  /** The alignment of a row: slot i holds the answer to request i or a placeholder,
      and the last slot holds the answer with the greatest transaction id so far. */
  ghost predicate Aligned(row: Row) {
    && Ascending(row.reqs)
    && |row.resps| <= |row.reqs|
    && (forall i | 0 <= i < |row.resps| :: row.resps[i] == PLACEHOLDER || row.resps[i].xid == row.reqs[i].xid)
    && row.last == (if row.resps == [] then 0 else row.reqs[|row.resps| - 1].xid)
    && (row.resps != [] ==> row.resps[|row.resps| - 1].xid == row.last)
  }

  /** What every row satisfies, whatever ids its responses carried. */
  ghost predicate Ordered(row: Row) {
    && Ascending(row.reqs)
    && |row.resps| <= |row.reqs|
    && (if row.resps == [] then row.last == 0 else row.last <= row.reqs[|row.resps| - 1].xid)
    && row.missing < WORD
  }

  /** The decision of `count_response` on transaction id x. */
  function Classify(row: Row, x: nat): (e: Effect)
    ensures e.Counted? ==> e.index < |row.reqs| && (e.losses < 0 ==> e.index < |row.resps|)
  {
    var n, i := |row.resps|, Locate(row.reqs, x);
    if x == row.last then Dropped
    else if x < row.last then (if 0 < i < n && i < |row.reqs| then Counted(i, -1) else Dropped)
    else if n < |row.reqs| && x < row.reqs[n].xid then Counted(n, 0)
    else if n <= i < |row.reqs| then Counted(i, i - n)
    else Dropped
  }

  function Skipped(k: nat): (s: seq<Message>)
    ensures |s| == k && forall i | 0 <= i < k :: s[i] == PLACEHOLDER
  {
    seq(k, _ => PLACEHOLDER)
  }

  function Respond(row: Row, m: Message): Row {
    match Classify(row, m.xid)
    case Dropped => row
    case Counted(i, losses) =>
      if losses < 0 then
        row.(resps := row.resps[i := m], missing := (row.missing + WORD - 1) % WORD)
      else
        row.(resps := row.resps + Skipped(losses) + [m], last := m.xid, missing := (row.missing + losses) % WORD)
  }

  function Request(row: Row, m: Message): Row {
    row.(reqs := row.reqs + [m])
  }

  // ----- one step -----

  ghost predicate Issued(reqs: seq<Message>, x: nat) {
    exists i | 0 <= i < |reqs| :: reqs[i].xid == x
  }

  /** A transaction id never issued on this row, between the newest answer and the next request. */
  predicate FallsInGap(row: Row, x: nat) {
    |row.resps| < |row.reqs| && row.last < x < row.reqs[|row.resps|].xid
  }

  lemma RequestKeepsOrdered(row: Row, m: Message)
    requires Ordered(row) && 0 < m.xid
    requires forall i | 0 <= i < |row.reqs| :: row.reqs[i].xid < m.xid
    ensures Ordered(Request(row, m))
  {
  }

  lemma RespondKeepsOrdered(row: Row, m: Message)
    requires Ordered(row)
    ensures Ordered(Respond(row, m))
  {
  }

  lemma RequestKeepsAligned(row: Row, m: Message)
    requires Aligned(row) && 0 < m.xid
    requires forall i | 0 <= i < |row.reqs| :: row.reqs[i].xid < m.xid
    ensures Aligned(Request(row, m))
  {
  }

  /** A response keeps the row aligned exactly when its transaction id does not fall in the gap. */
  lemma RespondKeepsAlignedIff(row: Row, m: Message)
    requires Aligned(row)
    ensures Aligned(Respond(row, m)) <==> !FallsInGap(row, m.xid)
  {
    var row', n := Respond(row, m), |row.resps|;
    match Classify(row, m.xid)
    case Dropped =>
    case Counted(i, losses) =>
      if FallsInGap(row, m.xid) {
        assert row'.resps[n] == m && m != PLACEHOLDER;
      } else if losses < 0 {
        assert row.reqs[i].xid < row.reqs[n - 1].xid;
      } else {
        assert row'.resps[|row'.resps| - 1] == m;
      }
  }

  /** An id that was issued never falls in the gap. */
  lemma IssuedNotInGap(row: Row, x: nat)
    requires Aligned(row) && Issued(row.reqs, x)
    ensures !FallsInGap(row, x)
  {
    var i :| 0 <= i < |row.reqs| && row.reqs[i].xid == x;
    var n := |row.resps|;
    assert i < n ==> i == n - 1 || row.reqs[i].xid < row.reqs[n - 1].xid;
    assert n < i ==> row.reqs[n].xid < row.reqs[i].xid;
  }
}
