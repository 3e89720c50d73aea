/** The flow table of the software switch: what a flow-mod does to the table, and to the flow that
    each packet is given. */
module FlowTables {
  import opened Flows
  import opened Options

  datatype FlowMod = AddFlow(flow: Flow) | DeleteFlows(pattern: Flow) | OtherCommand

  /** Index of the first entry that strictly matches f, or |t|. */
  function FirstStrict(r: Reading, t: seq<Flow>, f: Flow): (i: nat)
    ensures i <= |t|
    ensures i < |t| ==> StrictMatch(r, t[i], f)
    ensures forall j | 0 <= j < i :: !StrictMatch(r, t[j], f)
  {
    if t == [] || StrictMatch(r, t[0], f) then 0 else 1 + FirstStrict(r, t[1..], f)
  }

  lemma {:induction false} FirstStrictIs(r: Reading, t: seq<Flow>, f: Flow, i: nat)
    requires i <= |t| && (i < |t| ==> StrictMatch(r, t[i], f))
    requires forall j | 0 <= j < i :: !StrictMatch(r, t[j], f)
    ensures FirstStrict(r, t, f) == i
  {
    hide StrictMatch;
  }

  function Erase(t: seq<Flow>, i: nat): seq<Flow> {
    if i < |t| then t[..i] + t[i + 1..] else t
  }

  /** Where an entry of priority p goes: before all entries of the same or a greater priority. */
  function Slot(t: seq<Flow>, p: nat): (i: nat)
    ensures i <= |t|
    ensures i < |t| ==> p <= t[i].priority
    ensures forall j | 0 <= j < i :: t[j].priority < p
  {
    if t == [] || p <= t[0].priority then 0 else 1 + Slot(t[1..], p)
  }

  function Insert(t: seq<Flow>, f: Flow): seq<Flow> {
    t[..Slot(t, f.priority)] + [f] + t[Slot(t, f.priority)..]
  }

  function Add(r: Reading, t: seq<Flow>, f: Flow): seq<Flow> {
    Insert(Erase(t, FirstStrict(r, t, f)), f)
  }

  function Delete(r: Reading, t: seq<Flow>, d: Flow): seq<Flow> {
    if t == [] then []
    else if NonStrictMatch(r, d, t[|t| - 1]) then Delete(r, t[..|t| - 1], d)
    else Delete(r, t[..|t| - 1], d) + [t[|t| - 1]]
  }

  function Modify(r: Reading, t: seq<Flow>, m: FlowMod): seq<Flow> {
    match m
    case AddFlow(f) => Add(r, t, f)
    case DeleteFlows(d) => Delete(r, t, d)
    case OtherCommand => t
  }

  function ModifyAll(r: Reading, ms: seq<FlowMod>): seq<Flow> {
    if ms == [] then [] else Modify(r, ModifyAll(r, ms[..|ms| - 1]), ms[|ms| - 1])
  }

  /** The flow a packet is given: the first entry that matches it. */
  function Winner(t: seq<Flow>, p: Match): (w: Option<Flow>)
    ensures w.Some? ==> w.value in t && PktMatch(w.value, p)
    ensures w.None? ==> forall e | e in t :: !PktMatch(e, p)
  {
    if t == [] then None
    else if PktMatch(t[0], p) then Some(t[0])
    else Winner(t[1..], p)
  }

  ghost predicate Sorted(t: seq<Flow>) {
    forall i, j | 0 <= i < j < |t| :: t[i].priority <= t[j].priority
  }

  /** No two entries strictly match each other. */
  ghost predicate NoTwins(r: Reading, t: seq<Flow>) {
    forall i, j | 0 <= i < j < |t| :: !StrictMatch(r, t[i], t[j])
  }

  // ----- the winner of a changed table -----

  lemma {:induction false} WinnerConcat(a: seq<Flow>, b: seq<Flow>, p: Match)
    ensures Winner(a + b, p) == if Winner(a, p).Some? then Winner(a, p) else Winner(b, p)
  {
    hide PktMatch;
    if a == [] {
      assert a + b == b;
    } else {
      WinnerConcat(a[1..], b, p);
      assert (a + b)[1..] == a[1..] + b;
    }
  }

  /** The winner of t, in terms of the entries before i, entry i, and the entries after it. */
  lemma WinnerAround(t: seq<Flow>, i: nat, p: Match)
    requires i < |t|
    ensures Winner(t, p) ==
      if Winner(t[..i], p).Some? then Winner(t[..i], p)
      else if PktMatch(t[i], p) then Some(t[i])
      else Winner(t[i + 1..], p)
  {
    hide PktMatch;
    assert t == t[..i] + t[i..];
    WinnerConcat(t[..i], t[i..], p);
    assert t[i..][1..] == t[i + 1..];
  }

  lemma WinnerErase(t: seq<Flow>, i: nat, p: Match)
    requires i < |t|
    ensures Winner(Erase(t, i), p) ==
      if Winner(t[..i], p).Some? then Winner(t[..i], p) else Winner(t[i + 1..], p)
    ensures !PktMatch(t[i], p) ==> Winner(Erase(t, i), p) == Winner(t, p)
  {
    hide PktMatch, Winner;
    WinnerConcat(t[..i], t[i + 1..], p);
    WinnerAround(t, i, p);
  }

  lemma WinnerInsert(t: seq<Flow>, f: Flow, p: Match)
    ensures Winner(Insert(t, f), p) ==
      if Winner(t[..Slot(t, f.priority)], p).Some? then Winner(t[..Slot(t, f.priority)], p)
      else if PktMatch(f, p) then Some(f)
      else Winner(t, p)
  {
    hide PktMatch, Slot;
    var i := Slot(t, f.priority);
    var all := Insert(t, f);
    assert all[..i] == t[..i] && all[i] == f && all[i + 1..] == t[i..];
    WinnerAround(all, i, p);
    assert t == t[..i] + t[i..];
    WinnerConcat(t[..i], t[i..], p);
  }

  lemma SlotIs(t: seq<Flow>, k: nat, i: nat)
    requires i <= |t| && (i < |t| ==> k <= t[i].priority)
    requires forall j | 0 <= j < i :: t[j].priority < k
    ensures Slot(t, k) == i
  {
  }

  lemma SlotSplits(t: seq<Flow>, k: nat, e: Flow)
    requires Sorted(t)
    ensures e in t[..Slot(t, k)] ==> e.priority < k
    ensures e in t[Slot(t, k)..] ==> k <= e.priority
  {
    var i := Slot(t, k);
    if e in t[i..] {
      var j :| i <= j < |t| && t[j] == e;
      assert i < j ==> t[i].priority <= t[j].priority;
    }
  }

  /** In a sorted table the winner has a priority below k exactly when an entry below slot k matches. */
  lemma WinnerBelow(t: seq<Flow>, k: nat, p: Match)
    requires Sorted(t)
    ensures Winner(t[..Slot(t, k)], p) ==
      if Winner(t, p).Some? && Winner(t, p).value.priority < k then Winner(t, p) else None
  {
    hide PktMatch, Winner, Slot, Sorted;
    var lo, hi := t[..Slot(t, k)], t[Slot(t, k)..];
    assert t == lo + hi;
    WinnerConcat(lo, hi, p);
    if Winner(lo, p).Some? { SlotSplits(t, k, Winner(lo, p).value); }
    if Winner(hi, p).Some? { SlotSplits(t, k, Winner(hi, p).value); }
  }

  lemma SlotErase(t: seq<Flow>, i: nat)
    requires Sorted(t) && i < |t|
    ensures var k := t[i].priority;
      Slot(Erase(t, i), k) == Slot(t, k) <= i && Erase(t, i)[..Slot(t, k)] == t[..Slot(t, k)]
  {
    hide Slot;
    var k, t' := t[i].priority, Erase(t, i);
    var s := Slot(t, k);
    assert s <= i;
    assert t'[..i] == t[..i] && t'[i..] == t[i + 1..];
    if s < i {
      assert t'[s] == t[s];
    } else if i + 1 < |t| {
      assert t'[i] == t[i + 1];
    }
    assert t'[..s] == t[..s];
    hide Sorted, Erase;
    forall j | 0 <= j < s ensures t'[j].priority < k { assert t'[j] == t'[..s][j] == t[j]; }
    SlotIs(t', k, s);
  }

  /** What an ADD does to the lookup of every packet, in a sorted table and under either reading.
      A packet that the new flow matches is given the new flow, unless its winner has a smaller
      priority number; any other packet is given the winner among the entries left. */
  lemma AddLookup(r: Reading, t: seq<Flow>, f: Flow, p: Match)
    requires Sorted(t)
    ensures Winner(Add(r, t, f), p) ==
      if !PktMatch(f, p) then Winner(Erase(t, FirstStrict(r, t, f)), p)
      else if Winner(t, p).Some? && Winner(t, p).value.priority < f.priority then Winner(t, p)
      else Some(f)
  {
    hide PktMatch, MatchStrict, Winner, Slot, Insert, Sorted, FirstStrict, Erase;
    var i := FirstStrict(r, t, f);
    var t' := Erase(t, i);
    WinnerInsert(t', f, p);
    WinnerBelow(t, f.priority, p);
    if i < |t| {
      SlotErase(t, i);
    } else {
      EraseNothing(t, i);
    }
    assert t' == t'[..Slot(t', f.priority)] + t'[Slot(t', f.priority)..];
    WinnerConcat(t'[..Slot(t', f.priority)], t'[Slot(t', f.priority)..], p);
  }

  lemma EraseNothing(t: seq<Flow>, i: nat)
    requires i >= |t|
    ensures Erase(t, i) == t
  {
  }

  /** Read as documented, an ADD leaves the lookup of every packet alone that the new flow does not match. */
  lemma AddFrame(t: seq<Flow>, f: Flow, p: Match)
    requires Sorted(t) && !PktMatch(f, p)
    ensures Winner(Add(Documented, t, f), p) == Winner(t, p)
  {
    hide PktMatch, MatchStrict, Winner;
    AddLookup(Documented, t, f, p);
    var i := FirstStrict(Documented, t, f);
    if i < |t| {
      StrictIsSamePackets(t[i], f);
      WinnerErase(t, i, p);
    }
  }

  /** In either reading and for any sorted table: an ADD leaves the lookup of a packet alone that the new
      flow does not match if and only if the entry it erases was not the packet's winner, or its place
      is taken by an equal one. */
  lemma AddFrameIff(r: Reading, t: seq<Flow>, f: Flow, p: Match)
    requires Sorted(t) && !PktMatch(f, p)
    ensures var i := FirstStrict(r, t, f);
            Winner(Add(r, t, f), p) == Winner(t, p) <==>
            (i < |t| && PktMatch(t[i], p) && Winner(t[..i], p).None? ==> Winner(t[i + 1..], p) == Some(t[i]))
  {
    hide PktMatch, MatchStrict, Winner, FirstStrict;
    AddLookup(r, t, f, p);
    var i := FirstStrict(r, t, f);
    if i < |t| {
      WinnerErase(t, i, p);
      WinnerAround(t, i, p);
    }
  }

  // ----- DELETE -----

  /** A DELETE keeps, in order, exactly the entries that its pattern does not non-strictly match. */
  lemma {:induction false} DeleteKeeps(r: Reading, t: seq<Flow>, d: Flow, e: Flow)
    ensures multiset(Delete(r, t, d))[e] == if NonStrictMatch(r, d, e) then 0 else multiset(t)[e]
  {
    hide NonStrictMatch;
    if t == [] {
    } else {
      var n := |t| - 1;
      DeleteKeeps(r, t[..n], d, e);
      assert t == t[..n] + [t[n]];
    }
  }

  lemma DeleteMembers(r: Reading, t: seq<Flow>, d: Flow, e: Flow)
    ensures e in Delete(r, t, d) <==> e in t && !NonStrictMatch(r, d, e)
  {
    DeleteKeeps(r, t, d, e);
    assert e in t <==> multiset(t)[e] > 0;
    assert e in Delete(r, t, d) <==> multiset(Delete(r, t, d))[e] > 0;
  }

  /** What a DELETE does to the lookup of a packet: its winner stays the winner exactly when the
      pattern does not non-strictly match it. */
  lemma {:induction false} DeleteLookup(r: Reading, t: seq<Flow>, d: Flow, p: Match)
    ensures Winner(Delete(r, t, d), p) == Winner(t, p) <==>
            (Winner(t, p).Some? ==> !NonStrictMatch(r, d, Winner(t, p).value))
  {
    hide NonStrictMatch, PktMatch;
    if t == [] {
    } else {
      var n, init := |t| - 1, t[..|t| - 1];
      DeleteLookup(r, init, d, p);
      assert t == init + [t[n]];
      WinnerConcat(init, [t[n]], p);
      WinnerConcat(Delete(r, init, d), [t[n]], p);
      if Winner(t, p).Some? { DeleteMembers(r, t, d, Winner(t, p).value); }
      if Winner(Delete(r, init, d), p).Some? { DeleteMembers(r, init, d, Winner(Delete(r, init, d), p).value); }
    }
  }

  /** Read as documented, a DELETE leaves the lookup of every packet alone that its pattern does not
      match, and removes just the entries all of whose packets its pattern matches. */
  lemma DeleteFrame(t: seq<Flow>, d: Flow, p: Match)
    requires !PktMatch(d, p)
    ensures Winner(Delete(Documented, t, d), p) == Winner(t, p)
  {
    hide PktMatch, NonStrictMatch;
    DeleteLookup(Documented, t, d, p);
    if Winner(t, p).Some? { NonStrictIsInclusion(d, Winner(t, p).value); }
  }

  lemma DeleteRemovesCovered(t: seq<Flow>, d: Flow, e: Flow)
    ensures e in Delete(Documented, t, d) <==> e in t && exists p: Match :: PktMatch(e, p) && !PktMatch(d, p)
  {
    hide PktMatch, NonStrictMatch;
    DeleteMembers(Documented, t, d, e);
    NonStrictIsInclusion(d, e);
  }

  /** Every packet outside d that entry i matches is matched by an earlier entry. */
  ghost predicate Shadowed(t: seq<Flow>, i: nat, d: Flow)
    requires i < |t|
  {
    forall p: Match | PktMatch(t[i], p) && !PktMatch(d, p) :: Winner(t[..i], p).Some?
  }

  /** A DELETE leaves the lookup of a packet outside its pattern alone. */
  ghost predicate Undisturbed(r: Reading, t: seq<Flow>, d: Flow, p: Match) {
    Winner(Delete(r, t, d), p) == Winner(t, p)
  }

  lemma ErasedWinner(r: Reading, t: seq<Flow>, d: Flow, p: Match, i: nat)
    requires i < |t| && NonStrictMatch(r, d, t[i]) && PktMatch(t[i], p) && Winner(t[..i], p).None?
    ensures !Undisturbed(r, t, d, p)
  {
    hide PktMatch, NonStrictMatch, Winner;
    DeleteLookup(r, t, d, p);
    WinnerAround(t, i, p);
  }

  lemma {:induction false} WinnerAt(t: seq<Flow>, p: Match) returns (i: nat)
    requires Winner(t, p).Some?
    ensures i < |t| && t[i] == Winner(t, p).value && PktMatch(t[i], p) && Winner(t[..i], p).None?
  {
    hide PktMatch;
    if PktMatch(t[0], p) {
      i := 0;
    } else {
      i := WinnerAt(t[1..], p);
      assert t[..i + 1][1..] == t[1..][..i];
      i := i + 1;
    }
  }

  /** In either reading and for any table: a DELETE leaves all packets outside its pattern alone if and
      only if each entry that it erases is shadowed there by earlier entries. */
  lemma DeleteFrameIff(r: Reading, t: seq<Flow>, d: Flow)
    ensures (forall p: Match | !PktMatch(d, p) :: Undisturbed(r, t, d, p)) <==>
            (forall i | 0 <= i < |t| && NonStrictMatch(r, d, t[i]) :: Shadowed(t, i, d))
  {
    hide PktMatch, NonStrictMatch, Winner, Undisturbed;
    if forall p: Match | !PktMatch(d, p) :: Undisturbed(r, t, d, p) {
      forall i, p: Match | 0 <= i < |t| && NonStrictMatch(r, d, t[i]) && PktMatch(t[i], p) && !PktMatch(d, p)
        ensures Winner(t[..i], p).Some?
      {
        if Winner(t[..i], p).None? { ErasedWinner(r, t, d, p, i); }
      }
    }
    if forall i | 0 <= i < |t| && NonStrictMatch(r, d, t[i]) :: Shadowed(t, i, d) {
      forall p: Match | !PktMatch(d, p) ensures Undisturbed(r, t, d, p) {
        OutsideUndisturbed(r, t, d, p);
      }
    }
  }

  lemma OutsideUndisturbed(r: Reading, t: seq<Flow>, d: Flow, p: Match)
    requires !PktMatch(d, p)
    requires forall i | 0 <= i < |t| && NonStrictMatch(r, d, t[i]) :: Shadowed(t, i, d)
    ensures Undisturbed(r, t, d, p)
  {
    hide PktMatch, NonStrictMatch, Winner;
    DeleteLookup(r, t, d, p);
    if Winner(t, p).Some? {
      var i := WinnerAt(t, p);
    }
  }

  // ----- the table over every sequence of flow-mods -----

  lemma InsertSorted(t: seq<Flow>, f: Flow)
    requires Sorted(t)
    ensures Sorted(Insert(t, f))
  {
    var i, all := Slot(t, f.priority), Insert(t, f);
    forall j, k | 0 <= j < k < |all| ensures all[j].priority <= all[k].priority {
      SlotSplits(t, f.priority, all[j]);
      SlotSplits(t, f.priority, all[k]);
    }
  }

  lemma EraseSorted(t: seq<Flow>, i: nat)
    requires Sorted(t)
    ensures Sorted(Erase(t, i))
  {
  }

  lemma {:induction false} DeleteSorted(r: Reading, t: seq<Flow>, d: Flow)
    requires Sorted(t)
    ensures Sorted(Delete(r, t, d))
  {
    hide NonStrictMatch;
    if t != [] {
      var n := |t| - 1;
      DeleteSorted(r, t[..n], d);
      var t' := Delete(r, t[..n], d);
      forall j | 0 <= j < |t'| ensures t'[j].priority <= t[n].priority {
        DeleteMembers(r, t[..n], d, t'[j]);
        var k :| 0 <= k < n && t[k] == t'[j];
      }
    }
  }

  lemma ModifySorted(r: Reading, t: seq<Flow>, m: FlowMod)
    requires Sorted(t)
    ensures Sorted(Modify(r, t, m))
  {
    hide Sorted;
    match m
    case AddFlow(f) =>
      EraseSorted(t, FirstStrict(r, t, f));
      InsertSorted(Erase(t, FirstStrict(r, t, f)), f);
    case DeleteFlows(d) => DeleteSorted(r, t, d);
    case OtherCommand =>
  }

  lemma StrictTransitive(x: Flow, y: Flow, z: Flow)
    requires StrictMatch(Documented, x, y) && StrictMatch(Documented, y, z)
    ensures StrictMatch(Documented, x, z)
  {
    hide StrictMatch, PktMatch;
    StrictIsSamePackets(x, y);
    StrictIsSamePackets(y, z);
    StrictIsSamePackets(x, z);
  }

  /** At most one entry strictly matches f. */
  ghost predicate OneTwin(r: Reading, t: seq<Flow>, f: Flow) {
    forall i, j | 0 <= i < j < |t| :: !(StrictMatch(r, t[i], f) && StrictMatch(r, t[j], f))
  }

  lemma EraseNoTwins(r: Reading, t: seq<Flow>, i: nat)
    requires NoTwins(r, t)
    ensures NoTwins(r, Erase(t, i))
  {
    hide StrictMatch;
  }

  /** No entry of t strictly matches f. */
  ghost predicate NoTwinOf(r: Reading, t: seq<Flow>, f: Flow) {
    forall i | 0 <= i < |t| :: !StrictMatch(r, t[i], f)
  }

  /** `all` is t with f put in at place s. */
  ghost predicate Inserted(t: seq<Flow>, f: Flow, s: nat, all: seq<Flow>) {
    && s <= |t| && |all| == |t| + 1 && all[s] == f
    && (forall i | 0 <= i < s :: all[i] == t[i])
    && (forall i | s < i <= |t| :: all[i] == t[i - 1])
  }

  lemma InsertAt(t: seq<Flow>, f: Flow)
    ensures Inserted(t, f, Slot(t, f.priority), Insert(t, f))
  {
    hide Slot;
  }

  lemma InsertedPair(r: Reading, t: seq<Flow>, f: Flow, s: nat, all: seq<Flow>, i: nat, j: nat)
    requires Inserted(t, f, s, all) && i < j < |all|
    requires NoTwins(r, t) && NoTwinOf(r, t, f)
    ensures !StrictMatch(r, all[i], all[j])
  {
    hide StrictMatch;
    if i == s { StrictSymmetric(r, t[j - 1], f); }
  }

  lemma InsertKeepsNoTwins(r: Reading, t: seq<Flow>, f: Flow)
    requires NoTwins(r, t) && NoTwinOf(r, t, f)
    ensures NoTwins(r, Insert(t, f))
  {
    hide StrictMatch, Slot, Insert, Inserted, NoTwinOf;
    var s, all := Slot(t, f.priority), Insert(t, f);
    InsertAt(t, f);
    forall i, j | 0 <= i < j < |all| ensures !StrictMatch(r, all[i], all[j]) {
      InsertedPair(r, t, f, s, all, i, j);
    }
  }

  lemma InsertedHasNoTwin(r: Reading, t: seq<Flow>, f: Flow)
    requires NoTwins(r, Insert(t, f))
    ensures NoTwinOf(r, t, f)
  {
    hide StrictMatch, Slot, Insert;
    var s, all := Slot(t, f.priority), Insert(t, f);
    InsertAt(t, f);
    forall i | 0 <= i < |t| ensures !StrictMatch(r, t[i], f) {
      StrictSymmetric(r, t[i], f);
      var k := if i < s then i else i + 1;
      assert all[k] == t[i];
    }
  }

  lemma InsertNoTwinsIff(r: Reading, t: seq<Flow>, f: Flow)
    requires NoTwins(r, t)
    ensures NoTwins(r, Insert(t, f)) <==> NoTwinOf(r, t, f)
  {
    hide NoTwins, NoTwinOf, Insert;
    if NoTwins(r, Insert(t, f)) { InsertedHasNoTwin(r, t, f); }
    if NoTwinOf(r, t, f) { InsertKeepsNoTwins(r, t, f); }
  }

  lemma EraseFirstTwin(r: Reading, t: seq<Flow>, f: Flow)
    ensures NoTwinOf(r, Erase(t, FirstStrict(r, t, f)), f) <==> OneTwin(r, t, f)
  {
    hide StrictMatch, FirstStrict;
    var i := FirstStrict(r, t, f);
    var t' := Erase(t, i);
    assert forall j | 0 <= j < |t'| :: t'[j] == if j < i then t[j] else t[j + 1];
    if i < |t| {
      forall j | i < j < |t| ensures t'[j - 1] == t[j] {}
    }
  }

  /** An ADD keeps the table free of twins exactly when at most one entry strictly matches the new
      flow: it erases only the first such entry. */
  lemma AddNoTwinsIff(r: Reading, t: seq<Flow>, f: Flow)
    requires NoTwins(r, t)
    ensures NoTwins(r, Add(r, t, f)) <==> OneTwin(r, t, f)
  {
    hide NoTwins, OneTwin, NoTwinOf, StrictMatch, FirstStrict, Erase, Insert;
    EraseNoTwins(r, t, FirstStrict(r, t, f));
    InsertNoTwinsIff(r, Erase(t, FirstStrict(r, t, f)), f);
    EraseFirstTwin(r, t, f);
  }

  /** Read as documented, strict match is an equivalence, so there never is more than one. */
  lemma DocumentedOneTwin(t: seq<Flow>, f: Flow)
    requires NoTwins(Documented, t)
    ensures OneTwin(Documented, t, f)
  {
    hide StrictMatch;
    forall i, j | 0 <= i < j < |t| ensures !(StrictMatch(Documented, t[i], f) && StrictMatch(Documented, t[j], f)) {
      if StrictMatch(Documented, t[i], f) && StrictMatch(Documented, t[j], f) {
        StrictSymmetric(Documented, t[j], f);
        StrictTransitive(t[i], f, t[j]);
      }
    }
  }

  lemma {:induction false} DeleteNoTwins(r: Reading, t: seq<Flow>, d: Flow)
    requires NoTwins(r, t)
    ensures NoTwins(r, Delete(r, t, d))
  {
    hide NonStrictMatch, StrictMatch;
    if t != [] {
      var n := |t| - 1;
      DeleteNoTwins(r, t[..n], d);
      var t' := Delete(r, t[..n], d);
      forall j | 0 <= j < |t'| ensures !StrictMatch(r, t'[j], t[n]) {
        DeleteMembers(r, t[..n], d, t'[j]);
        var k :| 0 <= k < n && t[k] == t'[j];
      }
    }
  }

  /** Read as documented: after every sequence of flow-mods, the table is in ascending order of
      priority and no two of its entries strictly match each other. */
  lemma {:induction false} TableInvariant(ms: seq<FlowMod>)
    ensures Sorted(ModifyAll(Documented, ms))
    ensures NoTwins(Documented, ModifyAll(Documented, ms))
  {
    hide Sorted, NoTwins, Add, Delete;
    if ms == [] {
      EmptyTable();
    } else {
      var t := ModifyAll(Documented, ms[..|ms| - 1]);
      TableInvariant(ms[..|ms| - 1]);
      ModifySorted(Documented, t, ms[|ms| - 1]);
      match ms[|ms| - 1]
      case AddFlow(f) => DocumentedOneTwin(t, f); AddNoTwinsIff(Documented, t, f);
      case DeleteFlows(d) => DeleteNoTwins(Documented, t, d);
      case OtherCommand =>
    }
  }

  lemma EmptyTable()
    ensures Sorted([]) && forall r :: NoTwins(r, [])
  {
  }

  /** As compiled, the table is still in ascending order of priority. */
  lemma {:induction false} CompiledSorted(ms: seq<FlowMod>)
    ensures Sorted(ModifyAll(Compiled, ms))
  {
    hide Sorted;
    if ms == [] {
      EmptyTable();
    } else {
      CompiledSorted(ms[..|ms| - 1]);
      ModifySorted(Compiled, ModifyAll(Compiled, ms[..|ms| - 1]), ms[|ms| - 1]);
    }
  }

  // ----- what the compiled predicates do to lookups -----

  /** As compiled, an ADD leaves the lookup of a packet alone that the new flow does not match if the
      entry it erases wildcards no field that the new flow matches exactly. */
  lemma CompiledAddFrame(t: seq<Flow>, f: Flow, p: Match)
    requires Sorted(t) && !PktMatch(f, p)
    requires FirstStrict(Compiled, t, f) < |t| ==> NoWider(f, t[FirstStrict(Compiled, t, f)])
    ensures Winner(Add(Compiled, t, f), p) == Winner(t, p)
  {
    hide PktMatch, StrictMatch, Winner, NoWider, NonStrictMatch;
    AddLookup(Compiled, t, f, p);
    var i := FirstStrict(Compiled, t, f);
    if i < |t| {
      StrictIsNonStrict(t[i], f);
      CompiledNonStrict(f, t[i]);
      NonStrictIsInclusion(f, t[i]);
      WinnerErase(t, i, p);
    }
  }

  /** As compiled, a DELETE leaves the lookup of a packet alone that its pattern does not match if
      no entry it erases wildcards a field that the pattern matches exactly. */
  lemma CompiledDeleteFrame(t: seq<Flow>, d: Flow, p: Match)
    requires !PktMatch(d, p)
    requires forall e | e in t && NonStrictMatch(Compiled, d, e) :: NoWider(d, e)
    ensures Winner(Delete(Compiled, t, d), p) == Winner(t, p)
  {
    hide PktMatch, NonStrictMatch, NoWider;
    DeleteLookup(Compiled, t, d, p);
    if Winner(t, p).Some? {
      CompiledNonStrict(d, Winner(t, p).value);
      NonStrictIsInclusion(d, Winner(t, p).value);
    }
  }

  /** A flow on the ingress port alone, or on nothing while remembering a port. */
  function PortFlow(wildcards: bv32, port: bv16): Flow {
    var zero := Mac(0, 0);
    Flow(1, Match(wildcards, port, zero, zero, 0, 0, 0, 0, 0, 0, 0, 0, 0), 0xFFFF_FFFF, 0xFFFF_FFFF, [])
  }

  const ANY := ALL_FLAGS
  const ON_PORT := ALL_FLAGS & !IN_PORT

  lemma PortFlowsStrict(aw: bv32, a: bv16, bw: bv32, b: bv16)
    requires (aw == ANY || aw == ON_PORT) && (bw == ANY || bw == ON_PORT)
    ensures StrictMatch(Compiled, PortFlow(aw, a), PortFlow(bw, b)) <==> (aw == ANY && bw == ANY) || a == b
    ensures NonStrictMatch(Compiled, PortFlow(aw, a), PortFlow(bw, b)) <==> aw == ANY || a == b
    ensures NoWider(PortFlow(aw, a), PortFlow(bw, b)) <==> (bw == ANY ==> aw == ANY)
  {
  }

  lemma AddToOne(r: Reading, x: Flow, y: Flow)
    requires x.priority == y.priority && !StrictMatch(r, x, y)
    ensures Add(r, [], x) == [x] && Add(r, [x], y) == [y, x]
  {
    hide StrictMatch, FirstStrict, Slot;
    FirstStrictIs(r, [], x, 0);
    FirstStrictIs(r, [x], y, 1);
    SlotIs([], x.priority, 0);
    SlotIs([x], y.priority, 0);
  }

  lemma AddReplacesFirst(r: Reading, x: Flow, y: Flow, z: Flow)
    requires x.priority == z.priority && StrictMatch(r, y, z)
    ensures Add(r, [y, x], z) == [z, x]
  {
    hide StrictMatch, FirstStrict, Slot;
    FirstStrictIs(r, [y, x], z, 0);
    SlotIs([x], z.priority, 0);
    assert Erase([y, x], 0) == [x];
  }

  lemma ThreeAdds(x: Flow, y: Flow, z: Flow)
    requires x.priority == y.priority == z.priority
    requires !StrictMatch(Compiled, x, y) && StrictMatch(Compiled, y, z)
    ensures ModifyAll(Compiled, [AddFlow(x)] + [AddFlow(y)] + [AddFlow(z)]) == [z, x]
  {
    hide StrictMatch, Add;
    AddToOne(Compiled, x, y);
    AddReplacesFirst(Compiled, x, y, z);
    var m1, m2 := [AddFlow(x)], [AddFlow(x)] + [AddFlow(y)];
    assert m1[..0] == [] && m2[..1] == m1 && (m2 + [AddFlow(z)])[..2] == m2;
    assert ModifyAll(Compiled, m1) == [x];
    assert ModifyAll(Compiled, m2) == [y, x];
  }

  /** The compiled strict match is not transitive, and an ADD can leave two entries that strictly
      match each other; the guards above can fail too. */
  lemma CompiledTwins()
    ensures var any1, on2, any2 := PortFlow(ANY, 1), PortFlow(ON_PORT, 2), PortFlow(ANY, 2);
      && ModifyAll(Compiled, [AddFlow(any1)] + [AddFlow(on2)] + [AddFlow(any2)]) == [any2, any1]
      && !NoTwins(Compiled, [any2, any1])
      && !NoWider(on2, any2) && StrictMatch(Compiled, any2, on2) && NonStrictMatch(Compiled, on2, any2)
  {
    SamePriority(ANY, 1);
    SamePriority(ON_PORT, 2);
    SamePriority(ANY, 2);
    hide StrictMatch, NonStrictMatch, NoWider, PortFlow, ModifyAll;
    PortFlowsStrict(ANY, 1, ON_PORT, 2);
    PortFlowsStrict(ON_PORT, 2, ANY, 2);
    PortFlowsStrict(ANY, 2, ON_PORT, 2);
    PortFlowsStrict(ANY, 2, ANY, 1);
    assert ANY != ON_PORT;
    var any1, on2, any2 := PortFlow(ANY, 1), PortFlow(ON_PORT, 2), PortFlow(ANY, 2);
    ThreeAdds(any1, on2, any2);
    assert [any2, any1][0] == any2 && [any2, any1][1] == any1;
  }

  lemma PortFlowPackets(w: bv32, a: bv16, q: bv32, b: bv16)
    requires w == ANY || w == ON_PORT
    ensures PktMatch(PortFlow(w, a), PortFlow(q, b).fields) <==> w == ANY || a == b
  {
  }

  /** As compiled, an ADD and a DELETE for port 2 take away the flow of a packet from port 3. */
  lemma CompiledDisturbs()
    ensures var wide, narrow, p := PortFlow(ANY, 2), PortFlow(ON_PORT, 2), PortFlow(ANY, 3).fields;
      && !PktMatch(narrow, p) && Winner([wide], p) == Some(wide)
      && Winner(Add(Compiled, [wide], narrow), p) == None
      && Winner(Delete(Compiled, [wide], narrow), p) == None
  {
    PortFlowsStrict(ANY, 2, ON_PORT, 2);
    PortFlowsStrict(ON_PORT, 2, ANY, 2);
    PortFlowPackets(ANY, 2, ANY, 3);
    PortFlowPackets(ON_PORT, 2, ANY, 3);
    hide StrictMatch, NonStrictMatch, PktMatch, PortFlow, Add;
    var wide, narrow, p := PortFlow(ANY, 2), PortFlow(ON_PORT, 2), PortFlow(ANY, 3).fields;
    assert ANY != ON_PORT;
    FirstStrictIs(Compiled, [wide], narrow, 0);
    AddLookup(Compiled, [wide], narrow, p);
    assert Erase([wide], 0) == [] && [wide][..0] == [];
  }

  lemma SamePriority(w: bv32, a: bv16)
    ensures PortFlow(w, a).priority == 1
  {
  }
}
