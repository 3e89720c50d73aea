/** The datapath object: its flow table and packet buffer, updated in place. */
module Datapaths {
  import Accounting
  import opened Flows
  import opened FlowTables
  import opened Options
  import Parsing

  /** A captured packet. */
  datatype Packet = Packet(inPort: bv16, data: seq<Parsing.Byte>)

  /** The binary digit of n that counts k. */
  predicate Digit(n: nat, k: nat)
    requires 0 < k
  {
    n / k % 2 == 1
  }

  function Eight(a: bool, b: bool, c: bool, d: bool, e: bool, f: bool, g: bool, h: bool): bv8 {
    (if a then 0x80 else 0) | (if b then 0x40 else 0) | (if c then 0x20 else 0) | (if d then 0x10 else 0)
    | (if e then 8 else 0) | (if f then 4 else 0) | (if g then 2 else 0) | (if h then 1 else 0)
  }

  /** A byte as a word of 8 bits. */
  function Bits(b: Parsing.Byte): bv8 {
    var n := b as nat;
    Eight(Digit(n, 128), Digit(n, 64), Digit(n, 32), Digit(n, 16), Digit(n, 8), Digit(n, 4), Digit(n, 2), Digit(n, 1))
  }

  /** Words made of bytes in network order. */
  function Pair(a: bv8, b: bv8): bv16 {
    (a as bv16 << 8) | b as bv16
  }

  function Quad(a: bv8, b: bv8, c: bv8, d: bv8): bv32 {
    (a as bv32 << 24) | (b as bv32 << 16) | (c as bv32 << 8) | d as bv32
  }

  function ToMac(b: seq<Parsing.Byte>): Mac {
    if |b| != 6 then Mac(0, 0)
    else Mac(Quad(Bits(b[0]), Bits(b[1]), Bits(b[2]), Bits(b[3])), Pair(Bits(b[4]), Bits(b[5])))
  }

  function ToAddress(b: seq<Parsing.Byte>): bv32 {
    if |b| != 4 then 0 else Quad(Bits(b[0]), Bits(b[1]), Bits(b[2]), Bits(b[3]))
  }

  function To8(n: nat): bv8 {
    Bits((n % 256) as Parsing.Byte)
  }

  function To16(n: nat): bv16 {
    Pair(To8(n / 256), To8(n))
  }

  /** The match of a packet: the fields that the parser has set, over what a new match holds. */
  function MatchOf(blank: Match, inPort: bv16, f: Parsing.Fields): Match {
    Match(blank.wildcards, inPort,
          if f.dlSrc.Some? then ToMac(f.dlSrc.value) else blank.dlSrc,
          if f.dlDst.Some? then ToMac(f.dlDst.value) else blank.dlDst,
          if f.dlVlan.Some? then To16(f.dlVlan.value) else blank.dlVlan,
          if f.dlVlanPcp.Some? then To8(f.dlVlanPcp.value) else blank.dlVlanPcp,
          if f.dlType.Some? then To16(f.dlType.value) else blank.dlType,
          if f.nwTos.Some? then To8(f.nwTos.value) else blank.nwTos,
          if f.nwProto.Some? then To8(f.nwProto.value) else blank.nwProto,
          if f.nwSrc.Some? then ToAddress(f.nwSrc.value) else blank.nwSrc,
          if f.nwDst.Some? then ToAddress(f.nwDst.value) else blank.nwDst,
          if f.tpSrc.Some? then To16(f.tpSrc.value) else blank.tpSrc,
          if f.tpDst.Some? then To16(f.tpDst.value) else blank.tpDst)
  }

  /** The match that a captured packet is looked up with. */
  function FieldsOf(blank: Match, packet: Packet): Match {
    MatchOf(blank, packet.inPort, Parsing.Headers(packet.data))
  }

  datatype Command = ADD | DELETE | OTHER

  /** The parts of a flow-mod message that the datapath reads; buffer -1 is no buffer. */
  datatype FlowModMessage = FlowModMessage(
    command: Command, priority: nat, fields: Match, actions: seq<nat>, buffer: Option<nat>)

  /** The message that tells the controller of a packet without a flow. */
  datatype PacketIn = PacketIn(buffer: nat, inPort: bv16, data: seq<Parsing.Byte>)

  /** The mask that masks out every bit of a network address. */
  const FULL_MASK: bv32 := 0xFFFF_FFFF

  /** The flow made from a message; its address masks keep the value that every new flow has. */
  function FlowOf(priority: nat, fields: Match, actions: seq<nat>): Flow {
    Flow(priority, fields, FULL_MASK, FULL_MASK, actions)
  }

  function Received(m: FlowModMessage): FlowMod {
    match m.command
    case ADD => AddFlow(FlowOf(m.priority, m.fields, m.actions))
    case DELETE => DeleteFlows(FlowOf(0, m.fields, []))
    case OTHER => OtherCommand
  }

  class Datapath {
    const reading: Reading
    const blank: Match          // what a new match holds
    var flowTable: seq<Flow>
    var pktBuffer: map<nat, Packet>
    var bufferId: nat
    var connected: bool         // there is a connection to the controller

    /** The ordered set keeps its entries in order. */
    ghost predicate Valid()
      reads this`flowTable
    {
      Sorted(flowTable)
    }

    constructor (reading: Reading, blank: Match)
      ensures Valid() && this.reading == reading && this.blank == blank
      ensures flowTable == [] && pktBuffer == map[] && bufferId == 0 && !connected
    {
      this.reading, this.blank, flowTable, pktBuffer, bufferId, connected := reading, blank, [], map[], 0, false;
    }

    /** The ordered set takes a new flow where its order, `<=` on priorities, first puts it before an entry:
        behind all smaller priorities, before all others. */
    method InsertFlow(flow: Flow) returns (slot: nat)
      requires Valid()
      modifies this`flowTable
      ensures Valid()
      ensures slot <= |old(flowTable)| && flowTable == old(flowTable)[..slot] + [flow] + old(flowTable)[slot..]
      ensures forall j | 0 <= j < slot :: old(flowTable)[j].priority < flow.priority
      ensures forall j | slot <= j < |old(flowTable)| :: flow.priority <= old(flowTable)[j].priority
    {
      slot := 0;
      while slot < |flowTable| && !(flow.priority <= flowTable[slot].priority)
        invariant slot <= |flowTable| && flowTable == old(flowTable)
        invariant forall j | 0 <= j < slot :: flowTable[j].priority < flow.priority
      {
        slot := slot + 1;
      }
      flowTable := flowTable[..slot] + [flow] + flowTable[slot..];
    }

    /** Erase the first entry that strictly matches the new flow, then insert the flow. */
    method ReplaceFlow(flow: Flow)
      requires Valid()
      modifies this`flowTable
      ensures Valid() && flowTable == Add(reading, old(flowTable), flow)
    {
      hide StrictMatch, Slot, Sorted, FirstStrict;
      var it := 0;
      while it < |flowTable| && !StrictMatch(reading, flowTable[it], flow)
        invariant it <= |flowTable| && flowTable == old(flowTable)
        invariant forall j | 0 <= j < it :: !StrictMatch(reading, flowTable[j], flow)
      {
        it := it + 1;
      }
      FirstStrictIs(reading, flowTable, flow, it);
      if it < |flowTable| {
        flowTable := flowTable[..it] + flowTable[it + 1..];
      }
      assert flowTable == Erase(old(flowTable), it);
      EraseSorted(old(flowTable), it);
      ghost var erased := flowTable;
      var slot := InsertFlow(flow);
      SlotIs(erased, flow.priority, slot);
    }

    /** Walk the table and erase every entry that the pattern non-strictly matches. */
    method EraseFlows(pattern: Flow)
      requires Valid()
      modifies this`flowTable
      ensures Valid() && flowTable == Delete(reading, old(flowTable), pattern)
    {
      hide NonStrictMatch, Sorted;
      DeleteSorted(reading, flowTable, pattern);
      var it := 0;
      ghost var done := 0;  // how many of the entries found at the start have been looked at
      while it < |flowTable|
        invariant done <= |old(flowTable)| && it <= |flowTable|
        invariant flowTable[..it] == Delete(reading, old(flowTable)[..done], pattern)
        invariant flowTable[it..] == old(flowTable)[done..]
        decreases |old(flowTable)| - done
      {
        assert flowTable[it] == old(flowTable)[done] && old(flowTable)[..done + 1][..done] == old(flowTable)[..done];
        if NonStrictMatch(reading, pattern, flowTable[it]) {
          flowTable := flowTable[..it] + flowTable[it + 1..];
        } else {
          it := it + 1;
        }
        done := done + 1;
      }
      assert old(flowTable)[..done] == old(flowTable) && flowTable[..it] == flowTable;
    }

    /** A flow-mod. An ADD may name a buffered packet: the actions of the new flow are applied to it if the
        new flow matches it, whatever other flows there are. */
    method HandleFlowMod(m: FlowModMessage) returns (handled: Option<Packet>)
      requires Valid()
      requires m.command == ADD && m.buffer.Some? ==> m.buffer.value in pktBuffer
      modifies this`flowTable
      ensures Valid()
      ensures handled == if m.command == ADD && m.buffer.Some?
                            && PktMatch(Received(m).flow, FieldsOf(blank, pktBuffer[m.buffer.value]))
                         then Some(pktBuffer[m.buffer.value]) else None
      ensures flowTable == Modify(reading, old(flowTable), Received(m))
    {
      hide Add, Delete, Sorted, PktMatch, FieldsOf;
      handled := None;
      match m.command
      case ADD =>
        var flow := FlowOf(m.priority, m.fields, m.actions);
        ReplaceFlow(flow);
        if m.buffer.Some? {
          var packet := pktBuffer[m.buffer.value];
          if PktMatch(flow, FieldsOf(blank, packet)) { handled := Some(packet); }
        }
      case DELETE =>
        EraseFlows(FlowOf(0, m.fields, []));
      case OTHER =>
    }

    /** A packet has come in: it is given the first flow that matches it; when there is none, it is
        buffered under a new id (unless that id is still taken), and the controller, if there is a
        connection to it, is told the id. */
    method PacketHandler(packet: Packet) returns (flow: Option<Flow>, packetIn: Option<PacketIn>)
      modifies this`pktBuffer, this`bufferId
      ensures flow == Winner(flowTable, FieldsOf(blank, packet))
      ensures flow.Some? ==> pktBuffer == old(pktBuffer) && bufferId == old(bufferId)
      ensures packetIn == if flow.None? && connected then Some(PacketIn(bufferId, packet.inPort, packet.data)) else None
      ensures flow.None? ==> bufferId == (old(bufferId) + 1) % Accounting.WORD
      ensures flow.None? ==>
        (pktBuffer == if bufferId in old(pktBuffer) then old(pktBuffer) else old(pktBuffer)[bufferId := packet])
    {
      hide PktMatch, MatchOf, Parsing.Headers;
      var fields := FieldsOf(blank, packet);
      var it := 0;
      while it < |flowTable|
        invariant it <= |flowTable| && Winner(flowTable[..it], fields).None?
        invariant pktBuffer == old(pktBuffer) && bufferId == old(bufferId)
      {
        WinnerAround(flowTable, it, fields);
        if PktMatch(flowTable[it], fields) {
          return Some(flowTable[it]), None;
        }
        assert flowTable[..it + 1][..it] == flowTable[..it];
        WinnerAround(flowTable[..it + 1], it, fields);
        it := it + 1;
      }
      assert flowTable[..it] == flowTable;
      bufferId := (bufferId + 1) % Accounting.WORD;
      if bufferId !in pktBuffer {
        pktBuffer := pktBuffer[bufferId := packet];
      }
      flow, packetIn := None, None;
      if connected { packetIn := Some(PacketIn(bufferId, packet.inPort, packet.data)); }
    }
  }

  // ----- the address masks of the flows in the table -----

  /** The messages, as the changes to the table that they stand for. */
  function AllReceived(ms: seq<FlowModMessage>): seq<FlowMod> {
    if ms == [] then [] else AllReceived(ms[..|ms| - 1]) + [Received(ms[|ms| - 1])]
  }

  ghost predicate AllMasked(t: seq<Flow>) {
    forall e | e in t :: e.nwSrcMask == e.nwDstMask == FULL_MASK
  }

  lemma InsertMasked(t: seq<Flow>, f: Flow)
    requires AllMasked(t) && f.nwSrcMask == f.nwDstMask == FULL_MASK
    ensures AllMasked(Insert(t, f))
  {}

  lemma ReceivedMasked(r: Reading, t: seq<Flow>, m: FlowModMessage)
    requires AllMasked(t)
    ensures AllMasked(Modify(r, t, Received(m)))
  {
    hide StrictMatch, NonStrictMatch, Insert;
    match Received(m)
    case AddFlow(flow) =>
      assert AllMasked(Erase(t, FirstStrict(r, t, flow)));
      InsertMasked(Erase(t, FirstStrict(r, t, flow)), flow);
    case DeleteFlows(pattern) =>
      forall e | e in Delete(r, t, pattern) ensures e in t {
        DeleteMembers(r, t, pattern, e);
      }
    case OtherCommand =>
  }

  lemma {:induction false} TableMasked(r: Reading, ms: seq<FlowModMessage>)
    ensures AllMasked(ModifyAll(r, AllReceived(ms)))
  {
    hide Modify, Received;
    if ms == [] {
    } else {
      var front, n := ms[..|ms| - 1], |ms| - 1;
      TableMasked(r, front);
      ReceivedMasked(r, ModifyAll(r, AllReceived(front)), ms[n]);
      assert AllReceived(ms)[..|AllReceived(ms)| - 1] == AllReceived(front);
    }
  }

  lemma MaskedNw(a: bv32, p: bv32)
    ensures PktNw(a, p, FULL_MASK)
  {}

  lemma {:induction false} WinnerIgnoresAddresses(t: seq<Flow>, p: Match, src: bv32, dst: bv32)
    requires AllMasked(t)
    ensures Winner(t, p.(nwSrc := src, nwDst := dst)) == Winner(t, p)
  {
    hide PktNw;
    if t == [] {
    } else {
      var f := t[0];
      MaskedNw(f.fields.nwSrc, p.nwSrc);
      MaskedNw(f.fields.nwDst, p.nwDst);
      MaskedNw(f.fields.nwSrc, src);
      MaskedNw(f.fields.nwDst, dst);
      assert forall e | e in t[1..] :: e in t;
      WinnerIgnoresAddresses(t[1..], p, src, dst);
    }
  }

  /** After any sequence of flow-mod messages, the flow a packet is given does not depend on the
      packet's network addresses: the addresses of a message are stored, but never compared. */
  lemma LookupIgnoresAddresses(r: Reading, ms: seq<FlowModMessage>, p: Match, src: bv32, dst: bv32)
    ensures Winner(ModifyAll(r, AllReceived(ms)), p.(nwSrc := src, nwDst := dst))
         == Winner(ModifyAll(r, AllReceived(ms)), p)
  {
    TableMasked(r, ms);
    WinnerIgnoresAddresses(ModifyAll(r, AllReceived(ms)), p, src, dst);
  }

  // ----- from the bytes of a packet to its flow -----

  /** The flow a packet is given is decided by the port it came in on and its first 54 bytes. */
  lemma PayloadChoosesNothing(t: seq<Flow>, blank: Match, packet: Packet, more: seq<Parsing.Byte>)
    requires Parsing.READ <= |packet.data|
    ensures Winner(t, FieldsOf(blank, packet.(data := packet.data + more))) == Winner(t, FieldsOf(blank, packet))
  {
    hide MatchOf, Winner, Parsing.Headers;
    Parsing.PayloadHasNoSay(packet.data, more);
  }

  lemma MatchOfAddresses(blank: Match, inPort: bv16, f: Parsing.Fields, src: seq<Parsing.Byte>, dst: seq<Parsing.Byte>)
    ensures MatchOf(blank, inPort, f.(nwSrc := Some(src), nwDst := Some(dst)))
         == MatchOf(blank, inPort, f).(nwSrc := ToAddress(src), nwDst := ToAddress(dst))
  {
    hide ToMac, ToAddress, To16, To8;
  }

  lemma TransportAddresses(f: Parsing.Fields, proto: nat, p: seq<Parsing.Byte>,
                           src: seq<Parsing.Byte>, dst: seq<Parsing.Byte>)
    ensures Parsing.Transport(f.(nwSrc := Some(src), nwDst := Some(dst)), proto, p)
         == Parsing.Transport(f, proto, p).(nwSrc := Some(src), nwDst := Some(dst))
  {
    hide Parsing.U16;
  }

  /** After any sequence of flow-mod messages, two IPv4 frames that differ in nothing but their network
      addresses are given the same flow. */
  lemma AddressesChooseNothing(r: Reading, ms: seq<FlowModMessage>, blank: Match, inPort: bv16,
                               ethDst: seq<Parsing.Byte>, ethSrc: seq<Parsing.Byte>, d: Parsing.Datagram,
                               src: seq<Parsing.Byte>, dst: seq<Parsing.Byte>)
    requires |ethDst| == 6 && |ethSrc| == 6 && d.Valid() && |src| == 4 && |dst| == 4
    ensures d.(src := src, dst := dst).Valid()
    ensures Winner(ModifyAll(r, AllReceived(ms)),
                   FieldsOf(blank, Packet(inPort, Parsing.EncodeFrame(ethDst, ethSrc, d.(src := src, dst := dst)))))
         == Winner(ModifyAll(r, AllReceived(ms)),
                   FieldsOf(blank, Packet(inPort, Parsing.EncodeFrame(ethDst, ethSrc, d))))
  {
    var e := d.(src := src, dst := dst);
    hide MatchOf, Winner, ModifyAll, AllReceived, ToAddress;
    hide Parsing.Headers, Parsing.EncodeFrame, Parsing.Transport, Parsing.Fragment;
    Parsing.FrameRestores(ethDst, ethSrc, d);
    Parsing.FrameRestores(ethDst, ethSrc, e);
    var f := Parsing.Headers(Parsing.EncodeFrame(ethDst, ethSrc, d));
    TransportAddresses(Parsing.NetworkFields(ethDst, ethSrc, d), d.segment.Proto() as nat,
                       d.options + d.segment.Encode(), src, dst);
    assert Parsing.Headers(Parsing.EncodeFrame(ethDst, ethSrc, e)) == f.(nwSrc := Some(src), nwDst := Some(dst));
    MatchOfAddresses(blank, inPort, f, src, dst);
    LookupIgnoresAddresses(r, ms, MatchOf(blank, inPort, f), ToAddress(src), ToAddress(dst));
  }

  // ----- which field of a frame meets which field of a flow -----

  lemma EightOnce(a: bool, b: bool, c: bool, d: bool, e: bool, f: bool, g: bool, h: bool,
                  a': bool, b': bool, c': bool, d': bool, e': bool, f': bool, g': bool, h': bool)
    requires Eight(a, b, c, d, e, f, g, h) == Eight(a', b', c', d', e', f', g', h')
    ensures a == a' && b == b' && c == c' && d == d' && e == e' && f == f' && g == g' && h == h'
  {
  }

  function One(b: bool): nat {
    if b then 1 else 0
  }

  lemma Halves(n: nat)
    ensures n / 2 / 2 == n / 4 && n / 4 / 2 == n / 8 && n / 8 / 2 == n / 16 && n / 16 / 2 == n / 32
  {
  }

  lemma MoreHalves(n: nat)
    ensures n / 32 / 2 == n / 64 && n / 64 / 2 == n / 128 && n / 128 / 2 == n / 256
  {
  }

  lemma HalfAndDigit(n: nat, k: nat)
    requires 0 < k
    ensures n / k == 2 * (n / k / 2) + One(Digit(n, k))
  {
  }

  lemma DigitsTell(n: nat)
    requires n < 256
    ensures n == 128 * One(Digit(n, 128)) + 64 * One(Digit(n, 64)) + 32 * One(Digit(n, 32)) + 16 * One(Digit(n, 16))
                 + 8 * One(Digit(n, 8)) + 4 * One(Digit(n, 4)) + 2 * One(Digit(n, 2)) + One(Digit(n, 1))
  {
    Halves(n);
    MoreHalves(n);
    HalfAndDigit(n, 1);
    HalfAndDigit(n, 2);
    HalfAndDigit(n, 4);
    HalfAndDigit(n, 8);
    HalfAndDigit(n, 16);
    HalfAndDigit(n, 32);
    HalfAndDigit(n, 64);
    HalfAndDigit(n, 128);
    hide Digit, One;
    assert n / 1 == n && n / 256 == 0;
  }

  lemma BitsOnce(a: Parsing.Byte, b: Parsing.Byte)
    ensures Bits(a) == Bits(b) <==> a == b
  {
    hide Eight, Digit, One;
    if Bits(a) == Bits(b) {
      var m, n := a as nat, b as nat;
      EightOnce(Digit(m, 128), Digit(m, 64), Digit(m, 32), Digit(m, 16),
                Digit(m, 8), Digit(m, 4), Digit(m, 2), Digit(m, 1),
                Digit(n, 128), Digit(n, 64), Digit(n, 32), Digit(n, 16),
                Digit(n, 8), Digit(n, 4), Digit(n, 2), Digit(n, 1));
      DigitsTell(m);
      DigitsTell(n);
    }
  }

  lemma PairOnce(a: bv8, b: bv8, c: bv8, d: bv8)
    ensures Pair(a, b) == Pair(c, d) <==> a == c && b == d
  {
  }

  lemma QuadOnce(a: bv8, b: bv8, c: bv8, d: bv8, a': bv8, b': bv8, c': bv8, d': bv8)
    ensures Quad(a, b, c, d) == Quad(a', b', c', d') <==> a == a' && b == b' && c == c' && d == d'
  {
  }

  /** The words of a match are equal exactly when the bytes they are made of are. */
  lemma AddressOnce(a: seq<Parsing.Byte>, b: seq<Parsing.Byte>)
    requires |a| == |b| == 4
    ensures ToAddress(a) == ToAddress(b) <==> a == b
  {
    hide Bits, Quad;
    QuadOnce(Bits(a[0]), Bits(a[1]), Bits(a[2]), Bits(a[3]), Bits(b[0]), Bits(b[1]), Bits(b[2]), Bits(b[3]));
    forall i | 0 <= i < 4 ensures Bits(a[i]) == Bits(b[i]) <==> a[i] == b[i] { BitsOnce(a[i], b[i]); }
  }

  lemma MacOnce(a: seq<Parsing.Byte>, b: seq<Parsing.Byte>)
    requires |a| == |b| == 6
    ensures ToMac(a) == ToMac(b) <==> a == b
  {
    hide Bits, Quad, Pair;
    QuadOnce(Bits(a[0]), Bits(a[1]), Bits(a[2]), Bits(a[3]), Bits(b[0]), Bits(b[1]), Bits(b[2]), Bits(b[3]));
    PairOnce(Bits(a[4]), Bits(a[5]), Bits(b[4]), Bits(b[5]));
    forall i | 0 <= i < 6 ensures Bits(a[i]) == Bits(b[i]) <==> a[i] == b[i] { BitsOnce(a[i], b[i]); }
  }

  lemma SmallOnce(m: nat, n: nat)
    requires m < 256 && n < 256
    ensures To8(m) == To8(n) <==> m == n
  {
    hide Bits;
    BitsOnce((m % 256) as Parsing.Byte, (n % 256) as Parsing.Byte);
  }

  lemma NumberOnce(m: nat, n: nat)
    requires m < 0x1_0000 && n < 0x1_0000
    ensures To16(m) == To16(n) <==> m == n
  {
    hide Pair, Bits;
    PairOnce(To8(m / 256), To8(m), To8(n / 256), To8(n));
    BitsOnce((m / 256 % 256) as Parsing.Byte, (n / 256 % 256) as Parsing.Byte);
    BitsOnce((m % 256) as Parsing.Byte, (n % 256) as Parsing.Byte);
  }

  /** The values that a flow may ask for. */
  datatype Values = Values(src: seq<Parsing.Byte>, dst: seq<Parsing.Byte>, kind: nat, vlan: nat,
                           proto: nat, tos: nat, first: nat, second: nat) {
    ghost predicate Valid() {
      && |src| == |dst| == 6 && kind < 0x1_0000 && vlan < 0x1_0000 && proto < 0x100 && tos < 0x100
      && first < 0x1_0000 && second < 0x1_0000
    }

    function Fields(): Parsing.Fields {
      Parsing.Fields(Some(src), Some(dst), Some(kind), Some(vlan), None, None, None, Some(proto), Some(tos),
                     Some(first), Some(second))
    }
  }

  lemma MaskedOut(a: bv32, p: bv32)
    ensures SameOutside(a, p, FULL_MASK)
  {
  }

  /** From the bytes of an IPv4 frame to its flow: a flow with these values, whose wildcards have any bits but
      the one of the VLAN priority, matches the frame that came in on a port exactly when each field whose
      bit is not set has that value in the frame. */
  lemma FrameMatches(x: Flow, v: Values, blank: Match, inPort: bv16, dst: seq<Parsing.Byte>, src: seq<Parsing.Byte>,
                     d: Parsing.Datagram)
    requires |dst| == |src| == 6 && d.Valid() && d.options == [] && !Parsing.Fragment(d.frag) && v.Valid()
    requires x.nwSrcMask == x.nwDstMask == FULL_MASK && BitSet(x.fields.wildcards, 20)
    requires x.fields == MatchOf(x.fields, x.fields.inPort, v.Fields())
    ensures var w := x.fields.wildcards;
            PktMatch(x, FieldsOf(blank, Packet(inPort, Parsing.EncodeFrame(dst, src, d)))) <==>
              && (BitSet(w, 0) || x.fields.inPort == inPort)
              && (BitSet(w, 1) || v.vlan == 0xffff)
              && (BitSet(w, 2) || v.src == src)
              && (BitSet(w, 3) || v.dst == dst)
              && (BitSet(w, 4) || v.kind == 0x800)
              && (BitSet(w, 5) || v.proto == d.segment.Proto() as nat)
              && (BitSet(w, 6) || v.first == d.segment.First())
              && (BitSet(w, 7) || v.second == d.segment.Second())
              && (BitSet(w, 21) || v.tos == d.tos as nat / 4)
  {
    hide PktMatch, BitSet, SameOutside, ToMac, ToAddress, To8, To16;
    hide Parsing.Headers, Parsing.EncodeFrame, Parsing.Fragment;
    var p := FieldsOf(blank, Packet(inPort, Parsing.EncodeFrame(dst, src, d)));
    Parsing.RoundTrip(dst, src, d);
    PktMatchBits(x, p);
    MaskedOut(x.fields.nwSrc, p.nwSrc);
    MaskedOut(x.fields.nwDst, p.nwDst);
    MacOnce(v.src, src);
    MacOnce(v.dst, dst);
    NumberOnce(v.kind, 0x800);
    NumberOnce(v.vlan, 0xffff);
    SmallOnce(v.proto, d.segment.Proto() as nat);
    SmallOnce(v.tos, d.tos as nat / 4);
    FieldBounds(d.segment);
    NumberOnce(v.first, d.segment.First());
    NumberOnce(v.second, d.segment.Second());
  }

  /** A tagged frame is looked up with the id, the priority and the inner type of its tag. */
  lemma TaggedLookup(blank: Match, inPort: bv16, dst: seq<Parsing.Byte>, src: seq<Parsing.Byte>,
                     pcp: nat, id: nat, kind: nat, rest: seq<Parsing.Byte>, pcp': nat, id': nat, kind': nat)
    requires |dst| == |src| == 6 && pcp < 8 && id < 0x1000 && kind < 0x1_0000
    requires pcp' < 0x100 && id' < 0x1_0000 && kind' < 0x1_0000
    ensures var p := FieldsOf(blank, Packet(inPort, Parsing.EncodeTagged(dst, src, pcp, id, kind, rest)));
      && (p.dlVlan == To16(id') <==> id' == id)
      && (p.dlVlanPcp == To8(pcp') <==> pcp' == pcp)
      && (p.dlType == To16(kind') <==> kind' == kind)
  {
    hide Parsing.Headers, Parsing.EncodeTagged, ToMac, To8, To16;
    Parsing.TaggedRoundTrip(dst, src, pcp, id, kind, rest);
    NumberOnce(id', id);
    SmallOnce(pcp', pcp);
    NumberOnce(kind', kind);
  }

  /** Addresses of ARP packets are looked up as sender and target. */
  lemma ArpLookup(blank: Match, inPort: bv16, dst: seq<Parsing.Byte>, src: seq<Parsing.Byte>, op: nat,
                  sha: seq<Parsing.Byte>, spa: seq<Parsing.Byte>, tha: seq<Parsing.Byte>, tpa: seq<Parsing.Byte>,
                  rest: seq<Parsing.Byte>, a: seq<Parsing.Byte>)
    requires |dst| == |src| == |sha| == |tha| == 6 && |spa| == |tpa| == |a| == 4 && op < 0x1_0000
    ensures var p := FieldsOf(blank, Packet(inPort, Parsing.EncodeArp(dst, src, op, sha, spa, tha, tpa, rest)));
      && (p.nwSrc == ToAddress(a) <==> a == spa)
      && (p.nwDst == ToAddress(a) <==> a == tpa)
  {
    hide Parsing.Headers, Parsing.EncodeArp, ToMac, To8, To16, ToAddress;
    Parsing.ArpRoundTrip(dst, src, op, sha, spa, tha, tpa, rest);
    AddressOnce(a, spa);
    AddressOnce(a, tpa);
  }

  // ----- what a message does, by its command -----

  /** After an ADD message the table holds a flow with what the message says, and nothing else is new. */
  lemma AfterAdd(r: Reading, t: seq<Flow>, m: FlowModMessage)
    requires m.command == ADD
    ensures var f := Flow(m.priority, m.fields, FULL_MASK, FULL_MASK, m.actions);
            f in Modify(r, t, Received(m)) && forall e | e in Modify(r, t, Received(m)) :: e == f || e in t
  {
    hide StrictMatch, FirstStrict, Insert, Erase;
    var f := Flow(m.priority, m.fields, FULL_MASK, FULL_MASK, m.actions);
    var i := FirstStrict(r, t, f);
    assert Modify(r, t, Received(m)) == Insert(Erase(t, i), f);
    InsertMembers(Erase(t, i), f);
    EraseMembers(t, i);
  }

  lemma InsertMembers(t: seq<Flow>, f: Flow)
    ensures f in Insert(t, f) && forall e | e in Insert(t, f) :: e == f || e in t
  {
    hide Slot;
    assert f in t[..Slot(t, f.priority)] + [f];
  }

  lemma EraseMembers(t: seq<Flow>, i: nat)
    ensures forall e | e in Erase(t, i) :: e in t
  {
  }

  /** After a DELETE message just those entries are gone that a flow with its fields non-strictly matches,
      whatever its priority; any other message leaves the table as it was. */
  lemma AfterDelete(r: Reading, t: seq<Flow>, m: FlowModMessage, d: Flow, e: Flow)
    requires d.fields == m.fields && d.nwSrcMask == d.nwDstMask == FULL_MASK
    ensures m.command == DELETE ==> (e in Modify(r, t, Received(m)) <==> e in t && !NonStrictMatch(r, d, e))
    ensures m.command == OTHER ==> Modify(r, t, Received(m)) == t
  {
    DeleteMembers(r, t, FlowOf(0, m.fields, []), e);
    SamePattern(r, d, FlowOf(0, m.fields, []), e);
    hide NonStrictMatch, Delete;
  }

  lemma SamePattern(r: Reading, d: Flow, d': Flow, e: Flow)
    requires d.fields == d'.fields && d.nwSrcMask == d'.nwSrcMask && d.nwDstMask == d'.nwDstMask
    ensures NonStrictMatch(r, d, e) <==> NonStrictMatch(r, d', e)
  {
    hide NonStrictWild, NonStrictNw, NonStrictDladdr;
  }

  lemma FieldBounds(s: Parsing.Segment)
    requires s.Valid()
    ensures s.First() < 0x1_0000 && s.Second() < 0x1_0000
  {
  }
}
