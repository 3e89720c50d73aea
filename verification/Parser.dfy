/** The header fields of a captured packet: the parser that walks the packet with an offset, the
    layers it stands for, and what it gets from packets laid out by the standards. */
module Parsing {
  import Framing
  import opened Options

  type Byte = Framing.Byte

  const ETH_HEADER_LEN := 14
  const LLC_HEADER_LEN := 3
  const SNAP_HEADER_LEN := 5
  const VLAN_HEADER_LEN := 4
  const ARP_HEADER_LEN := 28
  const IP_HEADER_LEN := 20
  const ICMP_HEADER_LEN := 4
  const TCP_HEADER_LEN := 20
  const UDP_HEADER_LEN := 8

  const ETH_TYPE_II_START := 0x0600
  const ETH_TYPE_IP := 0x0800
  const ETH_TYPE_ARP := 0x0806
  const ETH_TYPE_VLAN := 0x8100

  const IP_TYPE_ICMP := 1
  const IP_TYPE_TCP := 6
  const IP_TYPE_UDP := 17

  const NO_VLAN := 0xffff

  /** The fields the parser has set; addresses are kept as their bytes. */
  datatype Fields = Fields(
    dlSrc: Option<seq<Byte>>, dlDst: Option<seq<Byte>>, dlType: Option<nat>,
    dlVlan: Option<nat>, dlVlanPcp: Option<nat>,
    nwSrc: Option<seq<Byte>>, nwDst: Option<seq<Byte>>, nwProto: Option<nat>, nwTos: Option<nat>,
    tpSrc: Option<nat>, tpDst: Option<nat>)

  const NOTHING := Fields(None, None, None, None, None, None, None, None, None, None, None)

  /** A 16-bit number in network order. */
  function U16(p: seq<Byte>, at: nat): nat
    requires at + 2 <= |p|
  {
    p[at] as nat * 256 + p[at + 1] as nat
  }

  /** A fragment: more fragments follow, or the offset is not 0 (the low 14 bits of the field). */
  predicate Fragment(frag: nat) {
    frag % 0x4000 != 0
  }

  // ----- the layers -----

  /** An LLC and SNAP header with an Ethernet organisation code. */
  predicate Snap(p: seq<Byte>) {
    && LLC_HEADER_LEN + SNAP_HEADER_LEN <= |p|
    && p[..LLC_HEADER_LEN] == [0xaa, 0xaa, 3] && p[LLC_HEADER_LEN..LLC_HEADER_LEN + 3] == [0, 0, 0]
  }

  function Transport(f: Fields, proto: nat, p: seq<Byte>): Fields {
    if proto == IP_TYPE_ICMP && ICMP_HEADER_LEN <= |p| then
      f.(tpSrc := Some(p[0] as nat), tpDst := Some(p[1] as nat))
    else if (proto == IP_TYPE_TCP && TCP_HEADER_LEN <= |p|) || (proto == IP_TYPE_UDP && UDP_HEADER_LEN <= |p|) then
      f.(tpSrc := Some(U16(p, 0)), tpDst := Some(U16(p, 2)))
    else f
  }

  function Ip(f: Fields, p: seq<Byte>): Fields {
    if |p| < IP_HEADER_LEN then f
    else
      var g := f.(nwSrc := Some(p[12..16]), nwDst := Some(p[16..20]),
                  nwProto := Some(p[9] as nat), nwTos := Some(p[1] as nat / 4));
      if Fragment(U16(p, 6)) then g else Transport(g, p[9] as nat, p[IP_HEADER_LEN..])
  }

  function Arp(f: Fields, p: seq<Byte>): Fields {
    if |p| < ARP_HEADER_LEN then f
    else f.(nwSrc := Some(p[14..18]), nwDst := Some(p[24..28]), nwProto := Some(U16(p, 6) % 256))
  }

  function Tag(f: Fields, p: seq<Byte>): Fields {
    if |p| < VLAN_HEADER_LEN then f
    else f.(dlVlan := Some(U16(p, 0) % 0x1000), dlVlanPcp := Some(U16(p, 0) / 0x2000), dlType := Some(U16(p, 2)))
  }

  /** The fields of a packet. Nothing after a VLAN tag is read. */
  function Headers(p: seq<Byte>): Fields {
    if |p| < ETH_HEADER_LEN then NOTHING
    else
      var kind, body := U16(p, 12), p[ETH_HEADER_LEN..];
      var ethernet := NOTHING.(dlSrc := Some(p[6..12]), dlDst := Some(p[..6]), dlType := Some(kind));
      if kind < ETH_TYPE_II_START then
        if Snap(body) then NOTHING.(dlSrc := Some(p[..6]), dlType := Some(kind), dlVlan := Some(NO_VLAN)) else NOTHING
      else if kind == ETH_TYPE_VLAN then Tag(ethernet, body)
      else if kind == ETH_TYPE_ARP then Arp(ethernet.(dlVlan := Some(NO_VLAN)), body)
      else if kind == ETH_TYPE_IP then Ip(ethernet.(dlVlan := Some(NO_VLAN)), body)
      else ethernet.(dlVlan := Some(NO_VLAN))
  }

  // ----- the parser -----

  lemma SliceOfRest(p: seq<Byte>, offset: nat, a: nat, b: nat)
    requires a <= b && offset + b <= |p|
    ensures p[offset..][a..b] == p[offset + a..offset + b]
  {}

  /** The parser. Once a packet is tagged, the loop over further tags only ends at the end of the packet:
      its condition looks at the type in the Ethernet header, which does not change. */
  method ExtractFlowFields(p: seq<Byte>) returns (f: Fields)
    ensures f == Headers(p)
  {
    f := NOTHING;
    var offset := 0;
    var nextProto := 0;
    if |p| < offset + ETH_HEADER_LEN { return; }
    var ethType := U16(p, 12);
    offset := offset + ETH_HEADER_LEN;
    ghost var body := p[offset..];

    if ETH_TYPE_II_START <= ethType {
      f := f.(dlSrc := Some(p[6..12]));
      f := f.(dlDst := Some(p[..6]));
      f := f.(dlType := Some(ethType));
    } else {
      if |p| < offset + LLC_HEADER_LEN { return; }
      SliceOfRest(p, offset, 0, LLC_HEADER_LEN);
      if p[offset..offset + LLC_HEADER_LEN] != [0xaa, 0xaa, 3] { return; }
      offset := offset + LLC_HEADER_LEN;
      if |p| < offset + SNAP_HEADER_LEN { return; }
      SliceOfRest(p, ETH_HEADER_LEN, LLC_HEADER_LEN, LLC_HEADER_LEN + 3);
      if p[offset..offset + 3] != [0, 0, 0] { return; }
      offset := offset + SNAP_HEADER_LEN;
      f := f.(dlSrc := Some(p[6..12]));
      f := f.(dlSrc := Some(p[..6]));
      f := f.(dlType := Some(ethType));
    }

    if ethType == ETH_TYPE_VLAN {
      if |p| < offset + VLAN_HEADER_LEN { return; }
      var tci := U16(p, offset);
      f := f.(dlVlan := Some(tci % 0x1000));
      f := f.(dlVlanPcp := Some(tci / 0x2000));
      f := f.(dlType := Some(U16(p, offset + 2)));
      offset := offset + VLAN_HEADER_LEN;
    } else {
      f := f.(dlVlan := Some(NO_VLAN));
    }

    ghost var before := f;
    while ethType == ETH_TYPE_VLAN
      invariant ethType == ETH_TYPE_VLAN ==> ETH_HEADER_LEN + VLAN_HEADER_LEN <= |p| && f == Headers(p)
      invariant ethType != ETH_TYPE_VLAN ==> f == before
      invariant ethType != ETH_TYPE_VLAN ==>
        offset == if ETH_TYPE_II_START <= ethType then ETH_HEADER_LEN
                  else ETH_HEADER_LEN + LLC_HEADER_LEN + SNAP_HEADER_LEN
      invariant offset <= |p|
      decreases |p| - offset
    {
      if |p| < offset + VLAN_HEADER_LEN { return; }
      offset := offset + VLAN_HEADER_LEN;
      f := f.(dlType := Some(U16(p, ETH_HEADER_LEN + 2)));
    }

    if ethType == ETH_TYPE_ARP {
      if |p| < offset + ARP_HEADER_LEN { return; }
      SliceOfRest(p, offset, 14, 18);
      SliceOfRest(p, offset, 24, 28);
      f := f.(nwSrc := Some(p[offset + 14..offset + 18]));
      f := f.(nwDst := Some(p[offset + 24..offset + 28]));
      f := f.(nwProto := Some(U16(p, offset + 6) % 256));
      return;
    }

    if ethType == ETH_TYPE_IP {
      if |p| < offset + IP_HEADER_LEN { return; }
      SliceOfRest(p, offset, 12, 16);
      SliceOfRest(p, offset, 16, 20);
      f := f.(nwSrc := Some(p[offset + 12..offset + 16]));
      f := f.(nwDst := Some(p[offset + 16..offset + 20]));
      f := f.(nwProto := Some(p[offset + 9] as nat));
      f := f.(nwTos := Some(p[offset + 1] as nat / 4));
      if Fragment(U16(p, offset + 6)) { return; }
      nextProto := p[offset + 9] as nat;
      offset := offset + IP_HEADER_LEN;
      assert p[offset..] == body[IP_HEADER_LEN..];
    }

    if nextProto == IP_TYPE_ICMP {
      if |p| < offset + ICMP_HEADER_LEN { return; }
      f := f.(tpSrc := Some(p[offset] as nat));
      f := f.(tpDst := Some(p[offset + 1] as nat));
      return;
    }
    if nextProto == IP_TYPE_TCP {
      if |p| < offset + TCP_HEADER_LEN { return; }
      f := f.(tpSrc := Some(U16(p, offset)));
      f := f.(tpDst := Some(U16(p, offset + 2)));
      return;
    } else if nextProto == IP_TYPE_UDP {
      if |p| < offset + UDP_HEADER_LEN { return; }
      f := f.(tpSrc := Some(U16(p, offset)));
      f := f.(tpDst := Some(U16(p, offset + 2)));
      return;
    }
  }

  // ----- what the fields depend on -----

  /** A tagged packet never gets network or transport fields, whatever it carries. */
  lemma TaggedHasNoNetworkFields(p: seq<Byte>)
    requires ETH_HEADER_LEN <= |p| && U16(p, 12) == ETH_TYPE_VLAN
    ensures var f := Headers(p); f.nwSrc == f.nwDst == None && f.nwProto == f.nwTos == f.tpSrc == f.tpDst == None
  {}

  /** An 802.3 packet with a SNAP header gets its destination address as source, which is right only when
      the two are the same, and never gets a destination address. */
  lemma SnapSourceRightIff(p: seq<Byte>)
    requires ETH_HEADER_LEN <= |p| && U16(p, 12) < ETH_TYPE_II_START && Snap(p[ETH_HEADER_LEN..])
    ensures Headers(p).dlDst == None
    ensures Headers(p).dlSrc == Some(p[6..12]) <==> p[..6] == p[6..12]
  {}

  lemma TransportKeeps(f: Fields, proto: nat, p: seq<Byte>)
    ensures Transport(f, proto, p) == f.(tpSrc := Transport(f, proto, p).tpSrc, tpDst := Transport(f, proto, p).tpDst)
    ensures f.tpSrc == None ==>
      (Transport(f, proto, p).tpSrc.Some? <==>
       (proto == 1 && 4 <= |p|) || (proto == 6 && 20 <= |p|) || (proto == 17 && 8 <= |p|))
  {
    hide U16;
  }

  /** More fragments follow (bit 13), or the offset (bits 0 to 12) is not 0. */
  lemma FragmentBits(flags: nat, offset: nat)
    requires flags < 8 && offset < 0x2000
    ensures Fragment(flags * 0x2000 + offset) <==> flags % 2 == 1 || offset != 0
  {
  }

  /** Which layers are set, told by places in the packet: the Ethernet type stands at 12, and in an IPv4
      packet the fragment field at 20 and the protocol at 23. */
  lemma LayersSetIff(p: seq<Byte>)
    ensures var f := Headers(p);
      && (f.dlDst.Some? <==> 14 <= |p| && 0x600 <= U16(p, 12))
      && (f.dlVlanPcp.Some? <==> 18 <= |p| && U16(p, 12) == 0x8100)
      && (f.nwSrc.Some? <==> (34 <= |p| && U16(p, 12) == 0x800) || (42 <= |p| && U16(p, 12) == 0x806))
      && (f.tpSrc.Some? <==>
          && 34 <= |p| && U16(p, 12) == 0x800 && !Fragment(U16(p, 20))
          && ((p[23] == 1 && 38 <= |p|) || (p[23] == 6 && 54 <= |p|) || (p[23] == 17 && 42 <= |p|)))
  {
    hide Transport, Fragment;
    if 34 <= |p| && U16(p, 12) == ETH_TYPE_IP {
      var body := p[ETH_HEADER_LEN..];
      var f := NOTHING.(dlSrc := Some(p[6..12]), dlDst := Some(p[..6]), dlType := Some(U16(p, 12)),
                        dlVlan := Some(NO_VLAN));
      var g := f.(nwSrc := Some(body[12..16]), nwDst := Some(body[16..20]),
                  nwProto := Some(body[9] as nat), nwTos := Some(body[1] as nat / 4));
      TransportKeeps(g, body[9] as nat, body[IP_HEADER_LEN..]);
      assert U16(body, 6) == U16(p, 20) && body[9] == p[23];
    }
  }

  /** The longest sequence of headers that is read. */
  const READ := ETH_HEADER_LEN + IP_HEADER_LEN + TCP_HEADER_LEN

  lemma TransportReads(f: Fields, proto: nat, p: seq<Byte>, more: seq<Byte>)
    requires TCP_HEADER_LEN <= |p|
    ensures Transport(f, proto, p + more) == Transport(f, proto, p)
  {}

  lemma IpReads(f: Fields, p: seq<Byte>, more: seq<Byte>)
    requires IP_HEADER_LEN + TCP_HEADER_LEN <= |p|
    ensures Ip(f, p + more) == Ip(f, p)
  {
    hide Transport;
    var q := p + more;
    assert q[12..16] == p[12..16] && q[16..20] == p[16..20];
    assert q[IP_HEADER_LEN..] == p[IP_HEADER_LEN..] + more;
    var g := f.(nwSrc := Some(p[12..16]), nwDst := Some(p[16..20]),
                nwProto := Some(p[9] as nat), nwTos := Some(p[1] as nat / 4));
    TransportReads(g, p[9] as nat, p[IP_HEADER_LEN..], more);
  }

  /** The fields of a packet are decided by its first 54 bytes; the payload has no say. */
  lemma PayloadHasNoSay(p: seq<Byte>, more: seq<Byte>)
    requires READ <= |p|
    ensures Headers(p + more) == Headers(p)
  {
    hide Transport, Ip;
    var q := p + more;
    assert q[6..12] == p[6..12] && q[..6] == p[..6];
    var body := p[ETH_HEADER_LEN..];
    assert q[ETH_HEADER_LEN..] == body + more;
    assert (body + more)[..LLC_HEADER_LEN] == body[..LLC_HEADER_LEN];
    assert (body + more)[LLC_HEADER_LEN..LLC_HEADER_LEN + 3] == body[LLC_HEADER_LEN..LLC_HEADER_LEN + 3];
    assert (body + more)[14..18] == body[14..18] && (body + more)[24..28] == body[24..28];
    forall f { IpReads(f, body, more); }
  }

  // ----- packets laid out by the standards -----

  /** A 16-bit number as its two bytes. */
  function Bytes16(n: nat): (b: seq<Byte>)
    requires n < 0x1_0000
    ensures |b| == 2 && U16(b, 0) == n
  {
    [(n / 256) as Byte, (n % 256) as Byte]
  }

  /** What an IP packet carries; `rest` is the part of the transport header after the ports (after type
      and code for ICMP) and the payload. */
  datatype Segment =
    | Tcp(src: nat, dst: nat, rest: seq<Byte>)
    | Udp(src: nat, dst: nat, rest: seq<Byte>)
    | Icmp(kind: Byte, code: Byte, rest: seq<Byte>)
  {
    ghost predicate Valid() {
      match this
      case Tcp(src, dst, rest) => src < 0x1_0000 && dst < 0x1_0000 && 16 <= |rest|
      case Udp(src, dst, rest) => src < 0x1_0000 && dst < 0x1_0000 && 4 <= |rest|
      case Icmp(_, _, rest) => 2 <= |rest|
    }

    function Proto(): Byte {
      match this
      case Tcp(_, _, _) => 6
      case Udp(_, _, _) => 17
      case Icmp(_, _, _) => 1
    }

    function First(): nat {
      match this
      case Tcp(src, _, _) => src
      case Udp(src, _, _) => src
      case Icmp(kind, _, _) => kind as nat
    }

    function Second(): nat {
      match this
      case Tcp(_, dst, _) => dst
      case Udp(_, dst, _) => dst
      case Icmp(_, code, _) => code as nat
    }

    /** What a parser takes for the first field when the segment seems to start with these bytes. */
    function FirstIn(b: seq<Byte>): nat
      requires 4 <= |b|
    {
      if Icmp? then b[0] as nat else U16(b, 0)
    }

    function SecondIn(b: seq<Byte>): nat
      requires 4 <= |b|
    {
      if Icmp? then b[1] as nat else U16(b, 2)
    }

    function Encode(): seq<Byte>
      requires Valid()
    {
      match this
      case Tcp(src, dst, rest) => Bytes16(src) + Bytes16(dst) + rest
      case Udp(src, dst, rest) => Bytes16(src) + Bytes16(dst) + rest
      case Icmp(kind, code, rest) => [kind, code] + rest
    }
  }

  /** An IPv4 packet (section 3.1 of RFC 791); the header fields nobody matches on are given as bytes. */
  datatype Datagram = Datagram(
    versionIhl: Byte, tos: Byte, lengthId: seq<Byte>, frag: nat, ttl: Byte, checksum: seq<Byte>,
    src: seq<Byte>, dst: seq<Byte>, options: seq<Byte>, segment: Segment)
  {
    ghost predicate Valid() {
      && |lengthId| == 4 && frag < 0x1_0000 && |checksum| == 2 && |src| == 4 && |dst| == 4
      && |options| % 4 == 0 && |options| <= 40 && segment.Valid()
    }

    function Header(): (h: seq<Byte>)
      requires Valid()
      ensures |h| == IP_HEADER_LEN
      ensures h[1] == tos && U16(h, 6) == frag && h[9] == segment.Proto() && h[12..16] == src && h[16..20] == dst
    {
      [versionIhl, tos] + lengthId + Bytes16(frag) + [ttl, segment.Proto()] + checksum + src + dst
    }

    function Encode(): seq<Byte>
      requires Valid()
    {
      Header() + (options + segment.Encode())
    }
  }

  /** An Ethernet II frame with an IPv4 packet. */
  function EncodeFrame(dst: seq<Byte>, src: seq<Byte>, d: Datagram): seq<Byte>
    requires |dst| == 6 && |src| == 6 && d.Valid()
  {
    dst + src + [8, 0] + d.Encode()
  }

  /** The fields up to the network layer, as OpenFlow 1.0 has them. */
  function NetworkFields(dst: seq<Byte>, src: seq<Byte>, d: Datagram): Fields {
    Fields(Some(src), Some(dst), Some(ETH_TYPE_IP), Some(NO_VLAN), None,
           Some(d.src), Some(d.dst), Some(d.segment.Proto() as nat), Some(d.tos as nat / 4), None, None)
  }

  lemma TransportEncoded(f: Fields, s: Segment)
    requires s.Valid()
    ensures Transport(f, s.Proto() as nat, s.Encode()) == f.(tpSrc := Some(s.First()), tpDst := Some(s.Second()))
  {}

  /** Up to the network layer a frame gives back what was put in, options or not; the transport layer is
      read right behind the first 20 bytes of the IP header. */
  lemma FrameRestores(dst: seq<Byte>, src: seq<Byte>, d: Datagram)
    requires |dst| == 6 && |src| == 6 && d.Valid()
    ensures Headers(EncodeFrame(dst, src, d))
         == if Fragment(d.frag) then NetworkFields(dst, src, d)
            else Transport(NetworkFields(dst, src, d), d.segment.Proto() as nat, d.options + d.segment.Encode())
  {
    hide Transport;
    var p, tail := EncodeFrame(dst, src, d), d.options + d.segment.Encode();
    assert p[..6] == dst && p[6..12] == src && U16(p, 12) == ETH_TYPE_IP;
    assert p[ETH_HEADER_LEN..] == d.Encode();
    var b := d.Encode();
    assert b[12..16] == d.src && b[16..20] == d.dst && b[IP_HEADER_LEN..] == tail && U16(b, 6) == d.frag;
  }

  /** Without options, a frame that is not a fragment gives back every field that was put in. */
  lemma RoundTrip(dst: seq<Byte>, src: seq<Byte>, d: Datagram)
    requires |dst| == 6 && |src| == 6 && d.Valid() && d.options == [] && !Fragment(d.frag)
    ensures Headers(EncodeFrame(dst, src, d))
         == NetworkFields(dst, src, d).(tpSrc := Some(d.segment.First()), tpDst := Some(d.segment.Second()))
  {
    FrameRestores(dst, src, d);
    assert d.options + d.segment.Encode() == d.segment.Encode();
    TransportEncoded(NetworkFields(dst, src, d), d.segment);
  }

  /** With options, the start of the options is taken for the ports, or for the type and code of ICMP. */
  lemma OptionsReadAsPorts(dst: seq<Byte>, src: seq<Byte>, d: Datagram)
    requires |dst| == 6 && |src| == 6 && d.Valid() && d.options != [] && !Fragment(d.frag)
    ensures Headers(EncodeFrame(dst, src, d))
         == NetworkFields(dst, src, d).(tpSrc := Some(d.segment.FirstIn(d.options)),
                                        tpDst := Some(d.segment.SecondIn(d.options)))
  {
    hide Headers, EncodeFrame;
    FrameRestores(dst, src, d);
  }

  predicate PortsRight(f: Fields, s: Segment) {
    f.tpSrc == Some(s.First()) && f.tpDst == Some(s.Second())
  }

  /** So the transport fields of an unfragmented TCP, UDP or ICMP packet are right if and only if it has no
      options, or options that begin with just those fields. */
  lemma PortsRightIff(dst: seq<Byte>, src: seq<Byte>, d: Datagram)
    requires |dst| == 6 && |src| == 6 && d.Valid() && !Fragment(d.frag)
    ensures PortsRight(Headers(EncodeFrame(dst, src, d)), d.segment)
       <==> (d.options == []
             || (d.segment.FirstIn(d.options) == d.segment.First()
                 && d.segment.SecondIn(d.options) == d.segment.Second()))
  {
    hide Headers, Transport, EncodeFrame;
    if d.options == [] {
      RoundTrip(dst, src, d);
    } else {
      OptionsReadAsPorts(dst, src, d);
    }
  }

  // ----- the other layouts -----

  /** An ARP packet for IPv4 over Ethernet (RFC 826) in an Ethernet II frame. */
  function EncodeArp(dst: seq<Byte>, src: seq<Byte>, op: nat, sha: seq<Byte>, spa: seq<Byte>,
                     tha: seq<Byte>, tpa: seq<Byte>, rest: seq<Byte>): seq<Byte>
    requires |dst| == |src| == |sha| == |tha| == 6 && |spa| == |tpa| == 4 && op < 0x1_0000
  {
    dst + src + [8, 6] + ([0, 1, 8, 0, 6, 4] + Bytes16(op) + sha + spa + tha + tpa + rest)
  }

  /** An ARP packet gives back sender and target address, both hardware addresses of the frame, and the low
      byte of its operation. */
  lemma ArpRoundTrip(dst: seq<Byte>, src: seq<Byte>, op: nat, sha: seq<Byte>, spa: seq<Byte>,
                     tha: seq<Byte>, tpa: seq<Byte>, rest: seq<Byte>)
    requires |dst| == |src| == |sha| == |tha| == 6 && |spa| == |tpa| == 4 && op < 0x1_0000
    ensures Headers(EncodeArp(dst, src, op, sha, spa, tha, tpa, rest))
         == Fields(Some(src), Some(dst), Some(0x806), Some(0xffff), None,
                   Some(spa), Some(tpa), Some(op % 256), None, None, None)
  {
    var p := EncodeArp(dst, src, op, sha, spa, tha, tpa, rest);
    var b := [0, 1, 8, 0, 6, 4] + Bytes16(op) + sha + spa + tha + tpa + rest;
    assert p[..6] == dst && p[6..12] == src && U16(p, 12) == ETH_TYPE_ARP && p[ETH_HEADER_LEN..] == b;
    assert b[14..18] == spa && b[24..28] == tpa && U16(b, 6) == op;
  }

  /** A frame with one VLAN tag: priority and id in one number, then the type of what follows. */
  function EncodeTagged(dst: seq<Byte>, src: seq<Byte>, pcp: nat, id: nat, kind: nat, rest: seq<Byte>): seq<Byte>
    requires |dst| == |src| == 6 && pcp < 8 && id < 0x1000 && kind < 0x1_0000
  {
    dst + src + [0x81, 0] + (Bytes16(pcp * 0x2000 + id) + Bytes16(kind) + rest)
  }

  /** A tagged frame gives back addresses, id, priority and inner type. */
  lemma TaggedRoundTrip(dst: seq<Byte>, src: seq<Byte>, pcp: nat, id: nat, kind: nat, rest: seq<Byte>)
    requires |dst| == |src| == 6 && pcp < 8 && id < 0x1000 && kind < 0x1_0000
    ensures Headers(EncodeTagged(dst, src, pcp, id, kind, rest))
         == Fields(Some(src), Some(dst), Some(kind), Some(id), Some(pcp), None, None, None, None, None, None)
  {
    var p := EncodeTagged(dst, src, pcp, id, kind, rest);
    var b := Bytes16(pcp * 0x2000 + id) + Bytes16(kind) + rest;
    assert p[..6] == dst && p[6..12] == src && U16(p, 12) == ETH_TYPE_VLAN && p[ETH_HEADER_LEN..] == b;
    assert U16(b, 0) == pcp * 0x2000 + id && U16(b, 2) == kind && 4 <= |b|;
    TagParts(pcp, id);
    hide U16;
  }

  lemma TagParts(pcp: nat, id: nat)
    requires pcp < 8 && id < 0x1000
    ensures (pcp * 0x2000 + id) % 0x1000 == id && (pcp * 0x2000 + id) / 0x2000 == pcp
  {
  }

  /** A frame of any other type gives back its addresses and type. */
  lemma PlainRoundTrip(dst: seq<Byte>, src: seq<Byte>, kind: nat, rest: seq<Byte>)
    requires |dst| == |src| == 6 && 0x600 <= kind < 0x1_0000 && kind != 0x800 && kind != 0x806 && kind != 0x8100
    ensures Headers(dst + src + Bytes16(kind) + rest)
         == Fields(Some(src), Some(dst), Some(kind), Some(0xffff), None, None, None, None, None, None, None)
  {
    var p := dst + src + Bytes16(kind) + rest;
    assert p[..6] == dst && p[6..12] == src && U16(p, 12) == kind;
  }

  /** A frame of 802.3 with an LLC and SNAP header gives its destination address as source, its length as
      type, and nothing else. */
  lemma SnapRoundTrip(dst: seq<Byte>, src: seq<Byte>, length: nat, kind: seq<Byte>, rest: seq<Byte>)
    requires |dst| == |src| == 6 && length < 0x600 && |kind| == 2
    ensures Headers(dst + src + Bytes16(length) + ([0xaa, 0xaa, 3] + [0, 0, 0] + kind + rest))
         == Fields(Some(dst), None, Some(length), Some(0xffff), None, None, None, None, None, None, None)
  {
    var b := [0xaa, 0xaa, 3] + [0, 0, 0] + kind + rest;
    var p := dst + src + Bytes16(length) + b;
    assert p[..6] == dst && U16(p, 12) == length && p[ETH_HEADER_LEN..] == b;
    assert b[..3] == [0xaa, 0xaa, 3] && b[3..6] == [0, 0, 0];
  }
}
