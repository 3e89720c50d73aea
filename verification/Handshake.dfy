/** The handshake of the controller's connections, over whole runs of what the transport reports. */
module Handshakes {
  import Versions

  datatype ConnState = HANDSHAKE | RUNNING | FAILED | DOWN

  // OpenFlow message types the server or the controller looks at
  const HELLO := 0
  const ECHO_REQUEST := 2
  const ECHO_REPLY := 3
  const FEATURES_REPLY := 6
  const PACKET_IN := 10
  const STATS_REPLY := 17
  const MULTIPART_REPLY := 19

  /** The id of the server's own echo requests. */
  const ECHO_XID := 15

  /** A message: its header, and the version bitmap of a hello element if it carries one. */
  datatype OFMessage = OFMessage(version: nat, kind: nat, xid: nat, elements: Elements)

  datatype Elements = NoElements | Bitmap(versions: bv32)

  /** How the server is set up. */
  datatype Settings = Settings(
    supportedVersions: bv32, maxSupportedVersion: nat, livenessCheck: bool, handshake: bool,
    dispatchAllMessages: bool, useHelloElements: bool)

  /** The versions a hello announces: its element if the server uses elements, else its header version.
      Shifting by 32 or more is left to the machine, as in the code. */
  function Announced(s: Settings, m: OFMessage, overshift: nat -> bv32): bv32 {
    if s.useHelloElements && m.elements.Bitmap? then m.elements.versions
    else if m.version < 32 then Versions.Bit(m.version as bv32)
    else overshift(m.version)
  }

  /** The hello announces a version that the server supports. */
  predicate Shared(s: Settings, m: OFMessage, overshift: nat -> bv32) {
    Versions.Meets(s.supportedVersions, Announced(s, m, overshift))
  }

  /** The message is a hello without a version in common, which ends the connection. */
  predicate Refused(s: Settings, m: OFMessage, overshift: nat -> bv32) {
    s.handshake && m.kind == HELLO && !Shared(s, m, overshift)
  }

  /** The message completes the handshake of a connection that is not running: a features reply of
      OpenFlow 1.0, or the port description that is asked for in OpenFlow 1.3. */
  predicate Completes(m: OFMessage, state: ConnState) {
    state != RUNNING && (m.kind == MULTIPART_REPLY || (m.kind == FEATURES_REPLY && m.version == 1))
  }

  /** What the controller tells its listeners. */
  datatype Event =
    | NoEvent | ConnUp | ConnDown
    | PacketIn | FeaturesReply | EchoRequested | EchoReplied | StatsReply | MultipartReply

  /** The event of a message on a connection in this state. */
  function EventFor(m: OFMessage, state: ConnState): (e: Event)
    ensures e.ConnUp? <==> Completes(m, state)
    ensures state == RUNNING ==> !e.ConnUp?
  {
    if m.kind == PACKET_IN then PacketIn
    else if m.kind == FEATURES_REPLY then
      if state == RUNNING then FeaturesReply else if m.version == 1 then ConnUp else NoEvent
    else if m.kind == ECHO_REQUEST then EchoRequested
    else if m.kind == ECHO_REPLY then EchoReplied
    else if m.kind == STATS_REPLY then StatsReply
    else if m.kind == MULTIPART_REPLY then
      if state == RUNNING then MultipartReply else ConnUp
    else NoEvent
  }

  /** The controller gets to see the message. */
  predicate Dispatched(s: Settings, m: OFMessage) {
    s.dispatchAllMessages
    || !((s.livenessCheck && m.kind in {ECHO_REQUEST, ECHO_REPLY}) || (s.handshake && m.kind == HELLO))
  }

  /** The first features reply sets up the echo timer. */
  predicate StartsTimer(s: Settings, m: OFMessage, state: ConnState) {
    s.livenessCheck && s.handshake && m.kind == FEATURES_REPLY && state != RUNNING
  }

  // ----- which hellos are refused, and which messages are which, by number -----

  /** `declared` is the set of versions in the bitmap. */
  ghost predicate IsBitmap(bitmap: bv32, declared: set<bv32>) {
    forall v: bv32 | v < 32 :: Versions.Has(bitmap, v) <==> v in declared
  }

  /** A hello without an element, or for a server that uses none, is refused exactly when its version is
      not among those declared. */
  lemma HeaderRefusedIff(s: Settings, overshift: nat -> bv32, m: OFMessage, declared: set<bv32>)
    requires IsBitmap(s.supportedVersions, declared)
    requires m.kind == 0 && m.version < 32 && (m.elements.NoElements? || !s.useHelloElements)
    ensures Refused(s, m, overshift) <==> s.handshake && m.version as bv32 !in declared
  {
    hide Versions.Bit, Versions.Meets;
    assert Versions.Has(s.supportedVersions, m.version as bv32) <==> m.version as bv32 in declared;
  }

  /** A hello with an element, for a server that uses them, is refused exactly when no version is both
      declared and announced. */
  lemma ElementRefusedIff(s: Settings, overshift: nat -> bv32, m: OFMessage, declared: set<bv32>, announced: set<bv32>)
    requires IsBitmap(s.supportedVersions, declared)
    requires m.kind == 0 && s.useHelloElements && m.elements.Bitmap? && IsBitmap(m.elements.versions, announced)
    ensures Refused(s, m, overshift) <==>
            s.handshake && forall v: bv32 | v < 32 :: !(v in declared && v in announced)
  {
    hide Versions.Has, Versions.Meets, Versions.Bit;
    Versions.MeetsIff(s.supportedVersions, m.elements.versions);
  }

  /** The events and the completed handshakes by message type: 10 is a packet-in, 6 a features reply, 17 a
      stats reply, 19 a multipart reply, 2 and 3 are echo request and reply. */
  lemma EventsByNumber(version: nat, kind: nat, xid: nat, elements: Elements, state: ConnState)
    ensures var m := OFMessage(version, kind, xid, elements);
      && (EventFor(m, state) == PacketIn <==> kind == 10)
      && (EventFor(m, state) == FeaturesReply <==> kind == 6 && state == RUNNING)
      && (EventFor(m, state) == StatsReply <==> kind == 17)
      && (EventFor(m, state) == MultipartReply <==> kind == 19 && state == RUNNING)
      && (EventFor(m, state) == EchoRequested <==> kind == 2)
      && (EventFor(m, state) == EchoReplied <==> kind == 3)
      && (EventFor(m, state) == ConnUp <==> state != RUNNING && (kind == 19 || (kind == 6 && version == 1)))
      && EventFor(m, state) != ConnDown
  {
  }

  /** Hellos are of type 0; what the server answers by itself is seen by the controller only on demand. */
  lemma ScreenedByNumber(s: Settings, overshift: nat -> bv32, m: OFMessage, state: ConnState)
    ensures Refused(s, m, overshift) ==> s.handshake && m.kind == 0
    ensures s.dispatchAllMessages ==> Dispatched(s, m)
    ensures !Dispatched(s, m) ==> m.kind == 0 || m.kind == 2 || m.kind == 3
    ensures !s.dispatchAllMessages && s.handshake && m.kind == 0 ==> !Dispatched(s, m)
    ensures !s.dispatchAllMessages && s.livenessCheck && (m.kind == 2 || m.kind == 3) ==> !Dispatched(s, m)
    ensures s.livenessCheck && s.handshake ==> (StartsTimer(s, m, state) <==> m.kind == 6 && state != RUNNING)
    ensures StartsTimer(s, m, state) ==> s.livenessCheck && s.handshake
  {
    hide Shared;
  }

  /** What a connection is, as far as its handshake goes; open until it is closed. */
  datatype Link = Link(state: ConnState, alive: bool, open: bool)

  /** Every connection that has come up, and the list of those whose handshake was completed. */
  datatype View = View(links: map<int, Link>, conns: seq<int>)

  /** What happens to the controller. The transport gives out each id once and names only connections
      it has announced; other inputs do not occur, and change nothing here. Nor does it deliver messages
      after `Lost`, but the laws below do without that: other inputs close connections too. */
  datatype Input = Up(id: int) | Incoming(id: int, m: OFMessage) | Lost(id: int) | Timer(id: int)

  function Closed(l: Link): Link {
    if l.open then l.(state := DOWN, open := false) else l
  }

  function AfterMessage(s: Settings, overshift: nat -> bv32, l: Link, m: OFMessage): Link {
    Link(if Completes(m, l.state) then RUNNING else if Refused(s, m, overshift) then FAILED else l.state,
         l.alive || (s.livenessCheck && m.kind == ECHO_REPLY && m.xid == ECHO_XID),
         l.open && !Refused(s, m, overshift))
  }

  function Handle(s: Settings, overshift: nat -> bv32, v: View, input: Input): View {
    match input
    case Up(id) =>
      if id in v.links then v else v.(links := v.links[id := Link(HANDSHAKE, true, true)])
    case Incoming(id, m) =>
      if id !in v.links then v
      else View(v.links[id := AfterMessage(s, overshift, v.links[id], m)],
                v.conns + if Completes(m, v.links[id].state) then [id] else [])
    case Lost(id) =>
      if id !in v.links then v else v.(links := v.links[id := Closed(v.links[id])])
    case Timer(id) =>
      if id !in v.links then v
      else v.(links := v.links[id := if v.links[id].alive then v.links[id].(alive := false) else Closed(v.links[id])])
  }

  /** A message that changes its own connection and the list in the right way is a step of the run. */
  lemma MessageHandled(s: Settings, overshift: nat -> bv32, v: View, w: View, id: int, m: OFMessage)
    requires id in v.links && w.links == v.links[id := AfterMessage(s, overshift, v.links[id], m)]
    requires w.conns == v.conns + if Completes(m, v.links[id].state) then [id] else []
    ensures w == Handle(s, overshift, v, Incoming(id, m))
  {
    hide AfterMessage, Completes;
  }

  function Run(s: Settings, overshift: nat -> bv32, inputs: seq<Input>): View {
    if inputs == [] then View(map[], [])
    else Handle(s, overshift, Run(s, overshift, inputs[..|inputs| - 1]), inputs[|inputs| - 1])
  }

  predicate NoDuplicates(ids: seq<int>) {
    forall i, j | 0 <= i < j < |ids| :: ids[i] != ids[j]
  }

  /** The input is a message on a connection that was closed before. */
  predicate Late(v: View, input: Input) {
    input.Incoming? && input.id in v.links && !v.links[input.id].open
  }

  /** The input completes the handshake of a connection that is listed already. */
  predicate Repeats(v: View, input: Input) {
    && input.Incoming? && input.id in v.links
    && Completes(input.m, v.links[input.id].state) && input.id in v.conns
  }

  /** Input k repeats a completion, after the inputs before it. */
  predicate RepeatsAt(s: Settings, overshift: nat -> bv32, inputs: seq<Input>, k: nat)
    requires k < |inputs|
  {
    Repeats(Run(s, overshift, inputs[..k]), inputs[k])
  }

  /** An open connection is running exactly when it is listed, and in its handshake otherwise. */
  predicate Settled(v: View) {
    && (forall id | id in v.conns :: id in v.links)
    && (forall id | id in v.links && v.links[id].open ::
          v.links[id].state == if id in v.conns then RUNNING else HANDSHAKE)
  }

  lemma HandleKeepsSettled(s: Settings, overshift: nat -> bv32, v: View, input: Input)
    requires Settled(v)
    ensures Settled(Handle(s, overshift, v, input))
  {
    hide Refused;
    if input.Incoming? && input.id in v.links && Refused(s, input.m, overshift) {
      assert !Handle(s, overshift, v, input).links[input.id].open;
    }
  }

  /** Every run keeps the states in step with the list, late messages included. */
  lemma {:induction false} RunIsSettled(s: Settings, overshift: nat -> bv32, inputs: seq<Input>)
    ensures Settled(Run(s, overshift, inputs))
  {
    hide Handle, Settled;
    if inputs == [] {
      assert Settled(View(map[], [])) by { NothingSettled(); }
    } else {
      var front := inputs[..|inputs| - 1];
      RunIsSettled(s, overshift, front);
      HandleKeepsSettled(s, overshift, Run(s, overshift, front), inputs[|inputs| - 1]);
    }
  }

  lemma NothingSettled()
    ensures Settled(View(map[], []))
  {}

  /** Only a message after the connection was closed can list it again. */
  lemma RepeatIsLate(v: View, input: Input)
    requires Settled(v) && Repeats(v, input)
    ensures Late(v, input)
  {}

  lemma DuplicatesGrow(s: Settings, overshift: nat -> bv32, v: View, input: Input)
    ensures NoDuplicates(Handle(s, overshift, v, input).conns)
       <==> NoDuplicates(v.conns) && !Repeats(v, input)
  {
    hide Refused, AfterMessage;
    var w := Handle(s, overshift, v, input);
    assert v.conns <= w.conns;
    if Repeats(v, input) {
      var i :| 0 <= i < |v.conns| && v.conns[i] == input.id;
      assert w.conns[i] == w.conns[|v.conns|];
    }
    if NoDuplicates(w.conns) {
      forall i, j | 0 <= i < j < |v.conns| ensures v.conns[i] != v.conns[j] {
        assert w.conns[i] != w.conns[j];
      }
    }
  }

  /** A connection is listed twice exactly in the runs where some input repeats a completion. */
  lemma {:induction false} ListedOnceIff(s: Settings, overshift: nat -> bv32, inputs: seq<Input>)
    ensures NoDuplicates(Run(s, overshift, inputs).conns)
       <==> forall k | 0 <= k < |inputs| :: !RepeatsAt(s, overshift, inputs, k)
  {
    hide Handle, NoDuplicates, Repeats, RepeatsAt;
    if inputs == [] {
      assert NoDuplicates([]) by { NoneTwice(); }
    } else {
      var n := |inputs| - 1;
      var front := inputs[..n];
      ListedOnceIff(s, overshift, front);
      DuplicatesGrow(s, overshift, Run(s, overshift, front), inputs[n]);
      RepeatsSame(s, overshift, inputs);
    }
  }

  lemma RepeatsSame(s: Settings, overshift: nat -> bv32, inputs: seq<Input>)
    requires inputs != []
    ensures var n, front := |inputs| - 1, inputs[..|inputs| - 1];
      && (forall k | 0 <= k < n :: RepeatsAt(s, overshift, inputs, k) <==> RepeatsAt(s, overshift, front, k))
      && (RepeatsAt(s, overshift, inputs, n) <==> Repeats(Run(s, overshift, front), inputs[n]))
  {
    hide Run, Repeats;
    assert forall k | 0 <= k < |inputs| - 1 :: inputs[..|inputs| - 1][..k] == inputs[..k];
  }

  lemma NoneTwice()
    ensures NoDuplicates([])
  {}

  /** When no message arrives on a closed connection, every connection is listed at most once. */
  lemma {:induction false} ListedOnce(s: Settings, overshift: nat -> bv32, inputs: seq<Input>)
    requires forall k | 0 <= k < |inputs| :: !Late(Run(s, overshift, inputs[..k]), inputs[k])
    ensures NoDuplicates(Run(s, overshift, inputs).conns)
  {
    hide Handle, NoDuplicates, Late, Repeats, Settled;
    forall k | 0 <= k < |inputs| ensures !RepeatsAt(s, overshift, inputs, k) {
      RunIsSettled(s, overshift, inputs[..k]);
      if Repeats(Run(s, overshift, inputs[..k]), inputs[k]) {
        RepeatIsLate(Run(s, overshift, inputs[..k]), inputs[k]);
      }
    }
    ListedOnceIff(s, overshift, inputs);
  }

  // ----- the same, told from the inputs alone -----

  /** The input answers the server's own echo request on this connection. */
  predicate AnswersEcho(s: Settings, input: Input, id: int) {
    && input.Incoming? && input.id == id
    && s.livenessCheck && input.m.kind == ECHO_REPLY && input.m.xid == ECHO_XID
  }

  /** The answer to an echo request is of type 3 and carries the id 15. */
  lemma EchoByNumber(s: Settings, input: Input, id: int)
    ensures AnswersEcho(s, input, id) <==>
            input.Incoming? && input.id == id && s.livenessCheck && input.m.kind == 3 && input.m.xid == 15
  {
  }

  /** The connection came up before input k. */
  predicate UpBefore(inputs: seq<Input>, k: nat, id: int)
    requires k <= |inputs|
  {
    exists u | 0 <= u < k :: inputs[u] == Up(id)
  }

  /** Input k is a message that completes the handshake of a connection that is not running. */
  predicate Completing(inputs: seq<Input>, k: nat, id: int)
    requires k < |inputs|
  {
    && UpBefore(inputs, k, id)
    && inputs[k].Incoming? && inputs[k].id == id && Completes(inputs[k].m, HANDSHAKE)
  }

  /** Input k is a hello without a version in common. */
  predicate RefusedAt(s: Settings, overshift: nat -> bv32, inputs: seq<Input>, k: nat, id: int)
    requires k < |inputs|
  {
    && UpBefore(inputs, k, id)
    && inputs[k].Incoming? && inputs[k].id == id && Refused(s, inputs[k].m, overshift)
  }

  /** Before input k there was a timer, and no answer to the echo request since. */
  predicate Silent(s: Settings, inputs: seq<Input>, k: nat, id: int)
    requires k <= |inputs|
  {
    exists b | 0 <= b < k ::
      && inputs[b] == Timer(id) && UpBefore(inputs, b, id)
      && forall i | b < i < k :: !AnswersEcho(s, inputs[i], id)
  }

  /** Input k closes the connection, unless it is closed already. */
  predicate Closes(s: Settings, overshift: nat -> bv32, inputs: seq<Input>, k: nat, id: int)
    requires k < |inputs|
  {
    UpBefore(inputs, k, id) &&
      (inputs[k] == Lost(id) || RefusedAt(s, overshift, inputs, k, id)
       || (inputs[k] == Timer(id) && Silent(s, inputs, k, id)))
  }

  /** Nothing before input k closed the connection. */
  predicate OpenBefore(s: Settings, overshift: nat -> bv32, inputs: seq<Input>, k: nat, id: int)
    requires k <= |inputs|
  {
    UpBefore(inputs, k, id) && forall i | 0 <= i < k :: !Closes(s, overshift, inputs, i, id)
  }

  /** Input k ends what the connection was: it closes it, or it is a hello that is refused even though
      the connection is closed already. */
  predicate Ends(s: Settings, overshift: nat -> bv32, inputs: seq<Input>, k: nat, id: int)
    requires k < |inputs|
  {
    RefusedAt(s, overshift, inputs, k, id)
    || (Closes(s, overshift, inputs, k, id) && OpenBefore(s, overshift, inputs, k, id))
  }

  /** A completing message came before input k. */
  predicate CompletedBefore(inputs: seq<Input>, k: nat, id: int)
    requires k <= |inputs|
  {
    exists j | 0 <= j < k :: Completing(inputs, j, id)
  }

  /** A completing message came before input k, and the connection has not ended since. */
  predicate RunningBefore(s: Settings, overshift: nat -> bv32, inputs: seq<Input>, k: nat, id: int)
    requires k <= |inputs|
  {
    exists j | 0 <= j < k ::
      Completing(inputs, j, id) && forall c | j < c < k :: !Ends(s, overshift, inputs, c, id)
  }

  /** The state v is what the inputs before k tell of the connection. */
  predicate Told(s: Settings, overshift: nat -> bv32, inputs: seq<Input>, k: nat, id: int, v: View)
    requires k <= |inputs|
  {
    && (id in v.links <==> UpBefore(inputs, k, id))
    && (id in v.conns <==> CompletedBefore(inputs, k, id))
    && (id in v.links ==>
      && (v.links[id].open <==> OpenBefore(s, overshift, inputs, k, id))
      && (v.links[id].alive <==> !Silent(s, inputs, k, id))
      && (v.links[id].state == RUNNING <==> RunningBefore(s, overshift, inputs, k, id)))
  }

  lemma UpMore(inputs: seq<Input>, k: nat, id: int)
    requires k < |inputs|
    ensures UpBefore(inputs, k + 1, id) <==> UpBefore(inputs, k, id) || inputs[k] == Up(id)
    ensures CompletedBefore(inputs, k + 1, id) <==> CompletedBefore(inputs, k, id) || Completing(inputs, k, id)
    ensures CompletedBefore(inputs, k, id) ==> UpBefore(inputs, k, id)
  {
    hide Completes;
  }

  lemma SilentMore(s: Settings, inputs: seq<Input>, k: nat, id: int)
    requires k < |inputs|
    ensures Silent(s, inputs, k + 1, id) <==>
            (inputs[k] == Timer(id) && UpBefore(inputs, k, id))
            || (Silent(s, inputs, k, id) && !AnswersEcho(s, inputs[k], id))
    ensures Silent(s, inputs, k, id) ==> UpBefore(inputs, k, id)
  {
    hide AnswersEcho;
  }

  lemma OpenMore(s: Settings, overshift: nat -> bv32, inputs: seq<Input>, k: nat, id: int)
    requires k < |inputs|
    ensures OpenBefore(s, overshift, inputs, k + 1, id) <==>
            if UpBefore(inputs, k, id) then
              OpenBefore(s, overshift, inputs, k, id) && !Closes(s, overshift, inputs, k, id)
            else inputs[k] == Up(id)
  {
    UpMore(inputs, k, id);
    assert forall i | 0 <= i < k && UpBefore(inputs, i, id) :: UpBefore(inputs, k, id);
    hide UpBefore, RefusedAt, Silent;
  }

  lemma RunningMore(s: Settings, overshift: nat -> bv32, inputs: seq<Input>, k: nat, id: int)
    requires k < |inputs|
    ensures RunningBefore(s, overshift, inputs, k + 1, id) <==>
            Completing(inputs, k, id)
            || (RunningBefore(s, overshift, inputs, k, id) && !Ends(s, overshift, inputs, k, id))
    ensures RunningBefore(s, overshift, inputs, k, id) ==> CompletedBefore(inputs, k, id)
  {
    hide Completing, Ends;
  }

  /** An input on another connection. */
  lemma OtherTold(s: Settings, overshift: nat -> bv32, inputs: seq<Input>, k: nat, id: int, v: View)
    requires k < |inputs| && Told(s, overshift, inputs, k, id, v) && inputs[k].id != id
    ensures Told(s, overshift, inputs, k + 1, id, Handle(s, overshift, v, inputs[k]))
  {
    UpMore(inputs, k, id);
    SilentMore(s, inputs, k, id);
    OpenMore(s, overshift, inputs, k, id);
    RunningMore(s, overshift, inputs, k, id);
    hide UpBefore, CompletedBefore, RunningBefore, OpenBefore, Silent, Refused, Completes, AfterMessage, Closed;
  }

  lemma MessageTold(s: Settings, overshift: nat -> bv32, inputs: seq<Input>, k: nat, id: int, v: View)
    requires k < |inputs| && Told(s, overshift, inputs, k, id, v) && inputs[k].id == id && inputs[k].Incoming?
    ensures Told(s, overshift, inputs, k + 1, id, Handle(s, overshift, v, inputs[k]))
  {
    UpMore(inputs, k, id);
    SilentMore(s, inputs, k, id);
    OpenMore(s, overshift, inputs, k, id);
    RunningMore(s, overshift, inputs, k, id);
    hide UpBefore, CompletedBefore, RunningBefore, OpenBefore, Silent, Shared;
  }

  /** One more input: what it does to the state is what it does to the history. */
  lemma ToldMore(s: Settings, overshift: nat -> bv32, inputs: seq<Input>, k: nat, id: int, v: View)
    requires k < |inputs| && Told(s, overshift, inputs, k, id, v)
    ensures Told(s, overshift, inputs, k + 1, id, Handle(s, overshift, v, inputs[k]))
  {
    if inputs[k].id != id {
      OtherTold(s, overshift, inputs, k, id, v);
    } else if inputs[k].Incoming? {
      MessageTold(s, overshift, inputs, k, id, v);
    } else {
      UpMore(inputs, k, id);
      SilentMore(s, inputs, k, id);
      OpenMore(s, overshift, inputs, k, id);
      RunningMore(s, overshift, inputs, k, id);
      hide UpBefore, CompletedBefore, RunningBefore, OpenBefore, Silent, Refused, AfterMessage, Completes;
    }
  }

  /** In every run the inputs so far tell whether a connection is known, open, alive, listed and running. */
  lemma {:induction false} RunTells(s: Settings, overshift: nat -> bv32, inputs: seq<Input>, k: nat, id: int)
    requires k <= |inputs|
    ensures Told(s, overshift, inputs, k, id, Run(s, overshift, inputs[..k]))
  {
    hide Handle, Told;
    if k == 0 {
      NothingTold(s, overshift, inputs, id);
    } else {
      RunTells(s, overshift, inputs, k - 1, id);
      assert inputs[..k][..k - 1] == inputs[..k - 1];
      ToldMore(s, overshift, inputs, k - 1, id, Run(s, overshift, inputs[..k - 1]));
    }
  }

  lemma NothingTold(s: Settings, overshift: nat -> bv32, inputs: seq<Input>, id: int)
    ensures Told(s, overshift, inputs, 0, id, View(map[], []))
  {}

  /** Two completing messages on one connection, and between them an input that ended it. */
  predicate ReopenedAt(s: Settings, overshift: nat -> bv32, inputs: seq<Input>, j: nat, c: nat, k: nat, id: int) {
    && j < c < k < |inputs|
    && Completing(inputs, j, id) && Ends(s, overshift, inputs, c, id) && Completing(inputs, k, id)
  }

  lemma RepeatIsReopened(s: Settings, overshift: nat -> bv32, inputs: seq<Input>, k: nat) returns (j: nat, c: nat)
    requires k < |inputs| && RepeatsAt(s, overshift, inputs, k)
    ensures ReopenedAt(s, overshift, inputs, j, c, k, inputs[k].id)
  {
    var id := inputs[k].id;
    RunTells(s, overshift, inputs, k, id);
    hide Ends, Run, UpBefore, OpenBefore, Silent;
    j :| 0 <= j < k && Completing(inputs, j, id);
    c :| j < c < k && Ends(s, overshift, inputs, c, id);
  }

  lemma {:induction false} ReopenedIsRepeat(s: Settings, overshift: nat -> bv32, inputs: seq<Input>,
                                            j: nat, c: nat, k: nat, id: int)
    requires ReopenedAt(s, overshift, inputs, j, c, k, id)
    ensures exists i | 0 <= i < |inputs| :: RepeatsAt(s, overshift, inputs, i)
    decreases k
  {
    RunTells(s, overshift, inputs, k, id);
    hide Run, UpBefore, OpenBefore, Silent;
    if RunningBefore(s, overshift, inputs, k, id) {
      var k': nat :| k' < k && Completing(inputs, k', id)
        && forall i | k' < i < k :: !Ends(s, overshift, inputs, i, id);
      EndIsNotCompletion(s, overshift, inputs, c, id);
      ReopenedIsRepeat(s, overshift, inputs, j, c, k', id);
    } else {
      assert RepeatsAt(s, overshift, inputs, k);
    }
  }

  lemma EndIsNotCompletion(s: Settings, overshift: nat -> bv32, inputs: seq<Input>, c: nat, id: int)
    requires c < |inputs| && Ends(s, overshift, inputs, c, id)
    ensures !Completing(inputs, c, id)
  {
    hide UpBefore, OpenBefore, Silent, Shared;
  }

  /** A connection is listed twice in exactly the runs in which it gets a completing message, is ended, and
      gets a completing message again. */
  lemma ListedTwiceIff(s: Settings, overshift: nat -> bv32, inputs: seq<Input>)
    ensures !NoDuplicates(Run(s, overshift, inputs).conns) <==>
            exists j: nat, c: nat, k: nat, id :: ReopenedAt(s, overshift, inputs, j, c, k, id)
  {
    hide NoDuplicates, Run, RepeatsAt, ReopenedAt;
    ListedOnceIff(s, overshift, inputs);
    if k: nat :| k < |inputs| && RepeatsAt(s, overshift, inputs, k) {
      var j, c := RepeatIsReopened(s, overshift, inputs, k);
    }
    if j: nat, c: nat, k: nat, id :| ReopenedAt(s, overshift, inputs, j, c, k, id) {
      ReopenedIsRepeat(s, overshift, inputs, j, c, k, id);
    }
  }

  lemma RunMore(s: Settings, overshift: nat -> bv32, inputs: seq<Input>, input: Input)
    ensures Run(s, overshift, inputs + [input]) == Handle(s, overshift, Run(s, overshift, inputs), input)
  {
    assert (inputs + [input])[..|inputs|] == inputs;
  }

  lemma MessageStep(s: Settings, overshift: nat -> bv32, l: Link, conns: seq<int>, m: OFMessage)
    ensures Handle(s, overshift, View(map[7 := l], conns), Incoming(7, m))
         == View(map[7 := AfterMessage(s, overshift, l, m)], conns + if Completes(m, l.state) then [7] else [])
  {
    hide AfterMessage, Completes;
    assert map[7 := l][7 := AfterMessage(s, overshift, l, m)] == map[7 := AfterMessage(s, overshift, l, m)];
  }

  lemma AfterCompletion(s: Settings, overshift: nat -> bv32, l: Link, m: OFMessage)
    requires l.alive && Completes(m, l.state)
    ensures AfterMessage(s, overshift, l, m) == Link(RUNNING, true, l.open)
  {
    hide Shared;
  }

  lemma AfterRefusal(s: Settings, overshift: nat -> bv32, l: Link, m: OFMessage)
    requires l.alive && Refused(s, m, overshift)
    ensures AfterMessage(s, overshift, l, m) == Link(FAILED, true, false) && !Completes(m, l.state)
  {
    hide Shared;
  }

  /** A read that brings a completing message, a hello that is refused, and another completing message: the
      loop over the read goes on after the connection was closed, and the connection is listed twice. */
  lemma RefusalListsTwice(s: Settings, overshift: nat -> bv32, done: OFMessage, hello: OFMessage)
    requires Completes(done, HANDSHAKE) && Refused(s, hello, overshift)
    ensures Run(s, overshift, [Up(7)] + [Incoming(7, done)] + [Incoming(7, hello)] + [Incoming(7, done)])
         == View(map[7 := Link(RUNNING, true, false)], [7, 7])
  {
    assert Completes(done, FAILED);
    var up, first := [Up(7)], [Up(7)] + [Incoming(7, done)];
    assert Run(s, overshift, up) == View(map[7 := Link(HANDSHAKE, true, true)], []) by {
      assert up[..0] == [];
    }
    hide Run, Refused, Completes, Handle, AfterMessage;
    var l0, l1, l2 := Link(HANDSHAKE, true, true), Link(RUNNING, true, true), Link(FAILED, true, false);
    RunMore(s, overshift, up, Incoming(7, done));
    MessageStep(s, overshift, l0, [], done);
    AfterCompletion(s, overshift, l0, done);
    RunMore(s, overshift, first, Incoming(7, hello));
    MessageStep(s, overshift, l1, [7], hello);
    AfterRefusal(s, overshift, l1, hello);
    RunMore(s, overshift, first + [Incoming(7, hello)], Incoming(7, done));
    MessageStep(s, overshift, l2, [7], done);
    AfterCompletion(s, overshift, l2, done);
  }

  /** The settings that a testcase gives its controller, for OpenFlow 1.3 and for OpenFlow 1.0. */
  const SETTINGS_13 := Settings(0x10, 4, true, true, true, false)
  const SETTINGS_10 := Settings(0x2, 1, true, true, true, false)

  /** Under both of them such a run is possible: a hello of the other version is refused. */
  lemma TestcaseRefuses(overshift: nat -> bv32)
    ensures Refused(SETTINGS_13, OFMessage(1, HELLO, 0, NoElements), overshift)
    ensures Refused(SETTINGS_10, OFMessage(4, HELLO, 0, NoElements), overshift)
    ensures Completes(OFMessage(4, MULTIPART_REPLY, 0, NoElements), HANDSHAKE)
    ensures Completes(OFMessage(1, FEATURES_REPLY, 0, NoElements), HANDSHAKE)
  {}

  // ----- the liveness timer -----

  lemma AliveStep(s: Settings, overshift: nat -> bv32, v: View, input: Input, id: int)
    requires id in v.links && input != Timer(id)
    ensures id in Handle(s, overshift, v, input).links
    ensures Handle(s, overshift, v, input).links[id].alive <==> v.links[id].alive || AnswersEcho(s, input, id)
  {
    hide Completes, Refused;
  }

  /** Until the next timer, a connection that was marked as silent is alive exactly when it answered. */
  lemma {:induction false} AliveIff(s: Settings, overshift: nat -> bv32, before: seq<Input>, mid: seq<Input>, id: int)
    requires id in Run(s, overshift, before).links && !Run(s, overshift, before).links[id].alive
    requires forall input | input in mid :: input != Timer(id)
    ensures id in Run(s, overshift, before + mid).links
    ensures Run(s, overshift, before + mid).links[id].alive
       <==> exists input | input in mid :: AnswersEcho(s, input, id)
  {
    hide Run, Handle, AnswersEcho;
    if mid == [] {
      assert before + mid == before;
    } else {
      var front, input := mid[..|mid| - 1], mid[|mid| - 1];
      assert mid == front + [input] && before + mid == before + front + [input];
      assert input in mid && forall x :: x in mid <==> x in front || x == input;
      AliveIff(s, overshift, before, front, id);
      RunMore(s, overshift, before + front, input);
      AliveStep(s, overshift, Run(s, overshift, before + front), input, id);
    }
  }

  /** The timer closes an open connection exactly when no answer came since the timer before; what
      else was received in between does not matter. */
  lemma ClosedBySilenceIff(s: Settings, overshift: nat -> bv32, before: seq<Input>, mid: seq<Input>, id: int)
    requires id in Run(s, overshift, before).links && Run(s, overshift, before).links[id].alive
    requires forall input | input in mid :: input != Timer(id)
    ensures id in Run(s, overshift, before + [Timer(id)] + mid).links
    ensures id in Run(s, overshift, before + [Timer(id)] + mid + [Timer(id)]).links
    ensures Run(s, overshift, before + [Timer(id)] + mid).links[id].open ==>
              (Run(s, overshift, before + [Timer(id)] + mid + [Timer(id)]).links[id].open
               <==> exists input | input in mid :: AnswersEcho(s, input, id))
  {
    hide Run, AnswersEcho;
    RunMore(s, overshift, before, Timer(id));
    AliveIff(s, overshift, before + [Timer(id)], mid, id);
    RunMore(s, overshift, before + [Timer(id)] + mid, Timer(id));
  }
}
