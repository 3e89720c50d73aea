/** The controller's side of the OpenFlow handshake, and the connection rows it opens. */
module Controllers {
  import opened Counters
  import opened Handshakes
  import opened Ledger

  /** What is sent back. */
  datatype Reply =
    | NoReply | Hello(version: nat, elements: Elements) | EchoReply | FeaturesRequest | HelloFailed
    | PortDescriptionRequest | EchoRequest(version: nat)

  class OFConnection {
    const id: int
    var state: ConnState
    var version: nat
    var alive: bool
    var open: bool            // the underlying connection has not been closed
    var listIndex: nat

    constructor (id: int)
      ensures this.id == id && state == HANDSHAKE && open && alive && version == 0
    {
      this.id, state, version, alive, open, listIndex := id, HANDSHAKE, 0, true, true, 0;
    }

    /** Closing twice does nothing. */
    method Close()
      modifies this`state, this`open
      ensures !open
      ensures state == if old(open) then DOWN else old(state)
    {
      if !open { return; }
      state := DOWN;
      open := false;
    }
  }

  function IdsOf(conns: seq<OFConnection>): seq<int> {
    seq(|conns|, i requires 0 <= i < |conns| => conns[i].id)
  }

  lemma IdsAppended(was: seq<OFConnection>, now: seq<OFConnection>, cc: OFConnection)
    ensures now == was + [cc] ==> IdsOf(now) == IdsOf(was) + [cc.id]
    ensures now == was + [] ==> IdsOf(now) == IdsOf(was) + []
  {}

  class Controller {
    const settings: Settings
    const switchSender: bool
    const overshift: nat -> bv32
    const cntr: Counter
    var ofconnections: map<int, OFConnection>
    var conns: seq<OFConnection>
    ghost var ups: seq<OFConnection>  // connections for which CTRL_CONN_UP was dispatched

    ghost predicate Known(cc: OFConnection)
      reads this
    {
      cc.id in ofconnections && ofconnections[cc.id] == cc
    }

    ghost function LinkOf(cc: OFConnection): Link
      reads cc`state, cc`alive, cc`open
    {
      Link(cc.state, cc.alive, cc.open)
    }

    ghost function Links(): map<int, Link>
      reads this`ofconnections, ofconnections.Values`state, ofconnections.Values`alive, ofconnections.Values`open
    {
      map id | id in ofconnections :: LinkOf(ofconnections[id])
    }

    /** What the connections and their list come to in the run model. */
    ghost function Abstract(): View
      reads this, ofconnections.Values
    {
      View(Links(), IdsOf(conns))
    }

    /** The connections are known, each is listed at most once, and when the controller is the sender
        each has its row in all thirteen vectors of the counter, at its place in the list. */
    ghost predicate Listed()
      reads this, ofconnections.Values`listIndex, cntr
    {
      && cntr.Valid()
      && (forall id | id in ofconnections :: ofconnections[id].id == id)
      && (forall i | 0 <= i < |conns| :: Known(conns[i]))
      && (forall i, j | 0 <= i < j < |conns| :: conns[i] != conns[j])
      && ups == conns
      && (!switchSender ==>
           && |cntr.connIds| == |conns|
           && forall i | 0 <= i < |conns| :: conns[i].listIndex == i && cntr.connIds[i] == conns[i].id)
    }

    /** The listed connections are in order, and the states are in step with the list. */
    ghost predicate Valid()
      reads this, ofconnections.Values, cntr
    {
      Listed() && Settled(Abstract())
    }

    /** A change to one connection changes the link of that connection. */
    twostate lemma OneLink(cc: OFConnection)
      requires old(Known(cc)) && forall id | id in ofconnections :: ofconnections[id].id == id
      requires ofconnections == old(ofconnections)
      requires forall id | id in ofconnections && ofconnections[id] != cc ::
                 LinkOf(ofconnections[id]) == old(LinkOf(ofconnections[id]))
      ensures Links() == old(Links())[cc.id := LinkOf(cc)]
      ensures cc.id in old(Links()) && old(Links())[cc.id] == old(LinkOf(cc))
    {
      var was := old(Links());
      forall id | id in ofconnections ensures Links()[id] == was[cc.id := LinkOf(cc)][id] {
        assert id != cc.id ==> was[id] == old(LinkOf(ofconnections[id]));
      }
      assert Links().Keys == was[cc.id := LinkOf(cc)].Keys;
    }

    constructor (settings: Settings, switchSender: bool, overshift: nat -> bv32, cntr: Counter)
      requires cntr.Valid() && cntr.connIds == []
      ensures Valid() && conns == [] && ofconnections == map[]
      ensures Abstract() == Run(settings, overshift, [])
      ensures this.settings == settings && this.switchSender == switchSender && this.cntr == cntr
      ensures this.overshift == overshift
    {
      this.settings, this.switchSender, this.overshift, this.cntr := settings, switchSender, overshift, cntr;
      ofconnections, conns, ups := map[], [], [];
    }

    /** A connection has come up at the transport: it starts its handshake, with the server's hello. */
    method ConnectionUp(id: int) returns (cc: OFConnection, reply: Reply)
      requires Valid() && id !in ofconnections
      modifies this`ofconnections
      ensures Valid() && conns == old(conns)
      ensures fresh(cc) && cc.id == id && ofconnections == old(ofconnections)[id := cc]
      ensures cc.open && cc.state == HANDSHAKE
      ensures reply == if !settings.handshake then NoReply
                       else Hello(settings.maxSupportedVersion,
                                  if settings.maxSupportedVersion >= 4 && settings.useHelloElements
                                  then Bitmap(settings.supportedVersions) else NoElements)
      ensures Abstract() == Handle(settings, overshift, old(Abstract()), Up(id))
    {
      hide Uniform, RowsOf, Tallied, Counter.Valid;
      reply := NoReply;
      if settings.handshake {
        var elements := NoElements;
        if settings.maxSupportedVersion >= 4 && settings.useHelloElements {
          elements := Bitmap(settings.supportedVersions);
        }
        reply := Hello(settings.maxSupportedVersion, elements);
      }
      cc := new OFConnection(id);
      ofconnections := ofconnections[id := cc];
      assert cc !in conns;
    }

    /** The handshake is complete: the connection is running, and gets its row in the counter. */
    method Establish(cc: OFConnection)
      requires Listed() && Known(cc)
      modifies this`conns, this`ups, cc`state, cc`listIndex
      modifies cntr`connIds, cntr`requests, cntr`responses, cntr`lastResponseXid, cntr`missingResponses
      modifies cntr`reqs, cntr`resps
      ensures conns == old(conns) + [cc] && ups == old(ups) + [cc]
      ensures cc.state == RUNNING
      ensures Listed() <==> cc !in old(conns)
      ensures cntr.Valid()
      ensures cntr.Recorded() == if switchSender then old(cntr.Recorded()) else Apply(old(cntr.Recorded()), Connect)
    {
      hide Uniform, RowsOf, Tallied, Apply;
      cc.state := RUNNING;
      conns := conns + [cc];
      ups := ups + [cc];
      if !switchSender {
        cc.listIndex := cntr.AddConnection(cc.id);
      }
      if cc in old(conns) {
        var i :| 0 <= i < |old(conns)| && old(conns)[i] == cc;
        assert conns[i] == conns[|old(conns)|];
      }
    }

    /** The controller's own handling of a message; the messages that only raise an event leave the
        connections as they are. */
    method MessageCallback(cc: OFConnection, m: OFMessage) returns (reply: Reply, event: Event)
      requires Listed() && Known(cc)
      modifies this`conns, this`ups, cc`state, cc`version, cc`listIndex
      modifies cntr`connIds, cntr`requests, cntr`responses, cntr`lastResponseXid, cntr`missingResponses
      modifies cntr`reqs, cntr`resps
      ensures conns == old(conns) + (if Completes(m, old(cc.state)) then [cc] else []) && ups == conns
      ensures cc.state == if Completes(m, old(cc.state)) then RUNNING else old(cc.state)
      ensures cc.version == if m.kind == FEATURES_REPLY && old(cc.state) != RUNNING then m.version else old(cc.version)
      ensures Listed() <==> !(Completes(m, old(cc.state)) && cc in old(conns))
      ensures cntr.Valid()
      ensures cntr.Recorded() == (if Completes(m, old(cc.state)) && !switchSender
                                  then Apply(old(cntr.Recorded()), Connect) else old(cntr.Recorded()))
      ensures reply == if m.kind == FEATURES_REPLY && m.version == 4 && old(cc.state) != RUNNING && cc.open
                       then PortDescriptionRequest else NoReply
      ensures event == EventFor(m, old(cc.state))
    {
      hide Uniform, RowsOf, Tallied, Apply;
      reply, event := NoReply, NoEvent;
      if m.kind == PACKET_IN {
        event := PacketIn;
      } else if m.kind == FEATURES_REPLY {
        if cc.state == RUNNING {
          event := FeaturesReply;
        } else {
          cc.version := m.version;
          if cc.version == 1 {
            Establish(cc);
            event := ConnUp;
          } else if cc.version == 4 {
            if cc.open { reply := PortDescriptionRequest; }
          }
        }
      } else if m.kind == ECHO_REQUEST {
        event := EchoRequested;
      } else if m.kind == ECHO_REPLY {
        event := EchoReplied;
      } else if m.kind == STATS_REPLY {
        event := StatsReply;
      } else if m.kind == MULTIPART_REPLY {
        if cc.state == RUNNING {
          event := MultipartReply;
        } else {
          Establish(cc);
          event := ConnUp;
        }
      }
    }

    /** What the server does with a message before the controller sees it, if it sees it at all. */
    method Screen(cc: OFConnection, m: OFMessage) returns (reply: Reply, dispatch: bool, timer: bool)
      modifies cc`state, cc`version, cc`alive, cc`open
      ensures cc.state == if Refused(settings, m, overshift) then FAILED else old(cc.state)
      ensures cc.open == (old(cc.open) && !Refused(settings, m, overshift))
      ensures cc.alive == (old(cc.alive) || (settings.livenessCheck && m.kind == ECHO_REPLY && m.xid == ECHO_XID))
      ensures cc.version == if settings.handshake && m.kind == FEATURES_REPLY && old(cc.state) != RUNNING
                            then m.version else old(cc.version)
      ensures reply ==
              if settings.livenessCheck && m.kind == ECHO_REQUEST then EchoReply
              else if settings.handshake && m.kind == HELLO then
                if !Refused(settings, m, overshift) then FeaturesRequest
                else if old(cc.open) then HelloFailed else NoReply
              else NoReply
      ensures dispatch == Dispatched(settings, m) && timer == StartsTimer(settings, m, old(cc.state))
    {
      hide Shared;
      reply, dispatch, timer := NoReply, true, false;
      if settings.livenessCheck && m.kind == ECHO_REQUEST {
        reply, dispatch := EchoReply, settings.dispatchAllMessages;
      } else if settings.handshake && m.kind == HELLO {
        if Shared(settings, m, overshift) {
          reply := FeaturesRequest;
        } else {
          if cc.open { reply := HelloFailed; }
          cc.Close();
          cc.state := FAILED;
        }
        dispatch := settings.dispatchAllMessages;
      } else if settings.livenessCheck && m.kind == ECHO_REPLY {
        if m.xid == ECHO_XID { cc.alive := true; }
        dispatch := settings.dispatchAllMessages;
      } else if settings.handshake && m.kind == FEATURES_REPLY && cc.state != RUNNING {
        cc.version := m.version;
        timer := settings.livenessCheck;
      }
    }

    /** The handling of every message of a connection. The connections stay valid unless the message
        completes the handshake of a connection that is listed already. */
    method BaseMessageCallback(cc: OFConnection, m: OFMessage) returns (reply: Reply, event: Event, timer: bool)
      requires Valid() && Known(cc)
      modifies this`conns, this`ups, cc`state, cc`version, cc`alive, cc`open, cc`listIndex
      modifies cntr`connIds, cntr`requests, cntr`responses, cntr`lastResponseXid, cntr`missingResponses
      modifies cntr`reqs, cntr`resps
      ensures conns == old(conns) + (if Completes(m, old(cc.state)) then [cc] else []) && ups == conns
      ensures Valid() <==> !(Completes(m, old(cc.state)) && cc in old(conns))
      ensures LinkOf(cc) == AfterMessage(settings, overshift, old(LinkOf(cc)), m)
      ensures Abstract() == Handle(settings, overshift, old(Abstract()), Incoming(cc.id, m))
      ensures cc.version == if m.kind == FEATURES_REPLY && old(cc.state) != RUNNING then m.version else old(cc.version)
      ensures cntr.Valid()
      ensures cntr.Recorded() == (if Completes(m, old(cc.state)) && !switchSender
                                  then Apply(old(cntr.Recorded()), Connect) else old(cntr.Recorded()))
      ensures reply ==
              if settings.livenessCheck && m.kind == ECHO_REQUEST then EchoReply
              else if settings.handshake && m.kind == HELLO then
                if !Refused(settings, m, overshift) then FeaturesRequest
                else if old(cc.open) then HelloFailed else NoReply
              else if m.kind == FEATURES_REPLY && m.version == 4 && old(cc.state) != RUNNING && old(cc.open)
              then PortDescriptionRequest
              else NoReply
      ensures event == (if Dispatched(settings, m) then EventFor(m, old(cc.state)) else NoEvent)
      ensures timer == StartsTimer(settings, m, old(cc.state))
    {
      hide Uniform, RowsOf, Tallied, Apply, Shared, Listed, Counter.Valid, Settled, IdsOf, Completes, StartsTimer;
      hide Handle, EventFor, Dispatched, Refused, Links;
      ListedIs();
      NotCompleting(m);
      var dispatch, answer;
      event := NoEvent;
      reply, dispatch, timer := Screen(cc, m);
      assert Listed();
      if dispatch {
        answer, event := MessageCallback(cc, m);
        if answer != NoReply { reply := answer; }
      }
      OneLink(cc);
      assert LinkOf(cc) == AfterMessage(settings, overshift, old(LinkOf(cc)), m);
      IdsAppended(old(conns), conns, cc);
      MessageHandled(settings, overshift, old(Abstract()), Abstract(), cc.id, m);
      HandleKeepsSettled(settings, overshift, old(Abstract()), Incoming(cc.id, m));
    }

    /** No message of an open connection lists a connection again. */
    lemma OpenIsNotRepeated(cc: OFConnection, m: OFMessage)
      requires Valid() && Known(cc) && cc.open
      ensures !(Completes(m, cc.state) && cc in conns)
    {
      hide Uniform, RowsOf, Tallied, Counter.Valid;
      if Completes(m, cc.state) && cc in conns {
        var i :| 0 <= i < |conns| && conns[i] == cc;
        assert IdsOf(conns)[i] == cc.id;
        RepeatIsLate(Abstract(), Incoming(cc.id, m));
      }
    }

    /** The messages that the server keeps to itself complete no handshake. */
    lemma NotCompleting(m: OFMessage)
      ensures !Dispatched(settings, m) ==> forall state :: !Completes(m, state)
      ensures m.kind == FEATURES_REPLY ==> Dispatched(settings, m)
      ensures Refused(settings, m, overshift) ==> settings.handshake && m.kind == HELLO
      ensures Refused(settings, m, overshift) ==> forall state :: !Completes(m, state) && EventFor(m, state) == NoEvent
    {
      hide Shared;
    }

    lemma ListedIs()
      requires Listed()
      ensures cntr.Valid() && ups == conns && forall id | id in ofconnections :: ofconnections[id].id == id
    {}

    /** The transport has lost a connection. */
    method ConnectionDown(cc: OFConnection) returns (event: Event)
      requires Valid() && Known(cc)
      modifies cc`state, cc`open
      ensures Valid() && !cc.open && cc.state == if old(cc.open) then DOWN else old(cc.state)
      ensures Abstract() == Handle(settings, overshift, old(Abstract()), Lost(cc.id))
      ensures event == ConnDown
    {
      hide Uniform, RowsOf, Tallied, Counter.Valid;
      event := ConnDown;
      cc.Close();
      OneLink(cc);
    }

    /** The liveness timer: a connection that did not answer the last echo request is closed. */
    method SendEcho(cc: OFConnection) returns (reply: Reply, event: Event)
      requires Valid() && Known(cc)
      modifies cc`state, cc`open, cc`alive
      ensures Valid() && cc.open == (old(cc.open) && old(cc.alive)) && !cc.alive
      ensures cc.state == if old(cc.open) && !old(cc.alive) then DOWN else old(cc.state)
      ensures Abstract() == Handle(settings, overshift, old(Abstract()), Timer(cc.id))
      ensures event == if old(cc.alive) then NoEvent else ConnDown
      ensures reply == if old(cc.alive) && old(cc.open) then EchoRequest(cc.version) else NoReply
    {
      hide Uniform, RowsOf, Tallied, Counter.Valid;
      reply, event := NoReply, NoEvent;
      if !cc.alive {
        cc.Close();
        event := ConnDown;
        OneLink(cc);
        return;
      }
      cc.alive := false;
      if cc.open { reply := EchoRequest(cc.version); }
      OneLink(cc);
    }
  }

  // ----- whole handshakes -----

  /** A switch with OpenFlow 1.0 meets a testcase's controller: hello and features reply, by their numbers. */
  method OpenFlow10(c: Controller, id: int, x: nat, y: nat)
    returns (cc: OFConnection, replies: seq<Reply>, events: seq<Event>)
    requires c.Valid() && id !in c.ofconnections && c.settings == SETTINGS_10
    modifies c`ofconnections, c`conns, c`ups
    modifies c.cntr`connIds, c.cntr`requests, c.cntr`responses, c.cntr`lastResponseXid, c.cntr`missingResponses
    modifies c.cntr`reqs, c.cntr`resps
    ensures c.Valid() && fresh(cc) && cc.id == id && c.conns == old(c.conns) + [cc]
    ensures cc.state == RUNNING && cc.open && cc.version == 1
    ensures replies == [Hello(1, NoElements), FeaturesRequest, NoReply] && events == [NoEvent, ConnUp]
  {
    hide Uniform, RowsOf, Tallied, Apply, Counter.Valid, Counter.Recorded, Controller.Abstract, Handle;
    hide Controller.Listed, Settled;
    var reply;
    cc, reply := c.ConnectionUp(id);
    replies, events := [reply], [];
    var event, timer;
    reply, event, timer := c.BaseMessageCallback(cc, OFMessage(1, 0, x, NoElements));
    replies, events := replies + [reply], events + [event];
    reply, event, timer := c.BaseMessageCallback(cc, OFMessage(1, 6, y, NoElements));
    replies, events := replies + [reply], events + [event];
  }

  /** A switch with OpenFlow 1.3: hello, features reply, and the port description that is asked for. */
  method OpenFlow13(c: Controller, id: int, x: nat, y: nat, z: nat)
    returns (cc: OFConnection, replies: seq<Reply>, events: seq<Event>)
    requires c.Valid() && id !in c.ofconnections && c.settings == SETTINGS_13
    modifies c`ofconnections, c`conns, c`ups
    modifies c.cntr`connIds, c.cntr`requests, c.cntr`responses, c.cntr`lastResponseXid, c.cntr`missingResponses
    modifies c.cntr`reqs, c.cntr`resps
    ensures c.Valid() && fresh(cc) && cc.id == id && c.conns == old(c.conns) + [cc]
    ensures cc.state == RUNNING && cc.open && cc.version == 4
    ensures replies == [Hello(4, NoElements), FeaturesRequest, PortDescriptionRequest, NoReply]
    ensures events == [NoEvent, NoEvent, ConnUp]
  {
    hide Uniform, RowsOf, Tallied, Apply, Counter.Valid, Counter.Recorded, Controller.Abstract, Handle;
    hide Controller.Listed, Settled;
    var reply;
    cc, reply := c.ConnectionUp(id);
    replies, events := [reply], [];
    var event, timer;
    reply, event, timer := c.BaseMessageCallback(cc, OFMessage(4, 0, x, NoElements));
    replies, events := replies + [reply], events + [event];
    reply, event, timer := c.BaseMessageCallback(cc, OFMessage(4, 6, y, NoElements));
    replies, events := replies + [reply], events + [event];
    reply, event, timer := c.BaseMessageCallback(cc, OFMessage(4, 19, z, NoElements));
    replies, events := replies + [reply], events + [event];
  }
}
