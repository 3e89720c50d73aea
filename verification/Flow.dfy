/** Matches of OpenFlow 1.0 (sections 3.4 and 4.6 of the OpenFlow Switch Specification 1.0.0):
    as bit tests on wildcards, and as the sets of packets they stand for. */
module Flows {

  const IN_PORT: bv32 := 0x1
  const DL_VLAN: bv32 := 0x2
  const DL_SRC: bv32 := 0x4
  const DL_DST: bv32 := 0x8
  const DL_TYPE: bv32 := 0x10
  const NW_PROTO: bv32 := 0x20
  const TP_SRC: bv32 := 0x40
  const TP_DST: bv32 := 0x80
  const DL_VLAN_PCP: bv32 := 0x10_0000
  const NW_TOS: bv32 := 0x20_0000

  /** The flags of all fields that are wildcarded as a whole. */
  const ALL_FLAGS: bv32 := 0x30_00FF

  /** A hardware address, compared as its first four and its last two bytes. */
  datatype Mac = Mac(head: bv32, tail: bv16)

  datatype Match = Match(
    wildcards: bv32, inPort: bv16, dlSrc: Mac, dlDst: Mac, dlVlan: bv16, dlVlanPcp: bv8, dlType: bv16,
    nwTos: bv8, nwProto: bv8, nwSrc: bv32, nwDst: bv32, tpSrc: bv16, tpDst: bv16)

  datatype Flow = Flow(priority: nat, fields: Match, nwSrcMask: bv32, nwDstMask: bv32, actions: seq<nat>)

  /** The comments above the predicates say "not wildcarded"; the code writes `~` where they mean `!`. */
  datatype Reading = Documented | Compiled

  predicate Wc(wildcards: bv32, field: bv32) {
    wildcards & field != 0
  }

  /** `~b` in C++: the complement of the integer 0 or 1. */
  function Complement(b: bool): int {
    if b then -2 else -1
  }

  predicate Not(r: Reading, b: bool) {
    match r
    case Documented => !b
    case Compiled => Complement(b) != 0
  }

  // ----- strict match -----

  predicate StrictWild<T(==)>(r: Reading, a: T, b: T, aw: bv32, bw: bv32, f: bv32) {
    (Wc(aw, f) && Wc(bw, f)) || (Not(r, Wc(aw, f)) && Not(r, Wc(bw, f)) && a == b)
  }

  predicate StrictNw(a: bv32, b: bv32, am: bv32, bm: bv32) {
    am == bm && (a ^ b) & !am == 0
  }

  predicate StrictDladdr(r: Reading, a: Mac, b: Mac, aw: bv32, bw: bv32, f: bv32) {
    StrictWild(r, a.head, b.head, aw, bw, f) && StrictWild(r, a.tail, b.tail, aw, bw, f)
  }

  predicate MatchStrict(r: Reading, x: Flow, y: Flow) {
    var a, b, aw, bw := x.fields, y.fields, x.fields.wildcards, y.fields.wildcards;
    && StrictWild(r, a.inPort, b.inPort, aw, bw, IN_PORT)
    && StrictDladdr(r, a.dlSrc, b.dlSrc, aw, bw, DL_SRC)
    && StrictDladdr(r, a.dlDst, b.dlDst, aw, bw, DL_DST)
    && StrictWild(r, a.dlVlan, b.dlVlan, aw, bw, DL_VLAN)
    && StrictWild(r, a.dlVlanPcp, b.dlVlanPcp, aw, bw, DL_VLAN_PCP)
    && StrictWild(r, a.dlType, b.dlType, aw, bw, DL_TYPE)
    && StrictWild(r, a.nwTos, b.nwTos, aw, bw, NW_TOS)
    && StrictWild(r, a.nwProto, b.nwProto, aw, bw, NW_PROTO)
    && StrictNw(a.nwSrc, b.nwSrc, x.nwSrcMask, y.nwSrcMask)
    && StrictNw(a.nwDst, b.nwDst, x.nwDstMask, y.nwDstMask)
    && StrictWild(r, a.tpSrc, b.tpSrc, aw, bw, TP_SRC)
    && StrictWild(r, a.tpDst, b.tpDst, aw, bw, TP_DST)
  }

  /** Same priority and strictly equal matches. */
  predicate StrictMatch(r: Reading, x: Flow, y: Flow) {
    x.priority == y.priority && MatchStrict(r, x, y)
  }

  // ----- non-strict match -----

  predicate NonStrictWild<T(==)>(r: Reading, a: T, b: T, aw: bv32, bw: bv32, f: bv32) {
    (Wc(bw, f) && Wc(aw, f)) || (Not(r, Wc(bw, f)) && (Wc(aw, f) || a == b))
  }

  predicate NonStrictNw(a: bv32, b: bv32, am: bv32, bm: bv32) {
    !am & (!a | !b | bm) & (a | b | bm) == 0
  }

  predicate NonStrictDladdr(r: Reading, a: Mac, b: Mac, aw: bv32, bw: bv32, f: bv32) {
    NonStrictWild(r, a.head, b.head, aw, bw, f) && NonStrictWild(r, a.tail, b.tail, aw, bw, f)
  }

  predicate NonStrictMatch(r: Reading, x: Flow, y: Flow) {
    var a, b, aw, bw := x.fields, y.fields, x.fields.wildcards, y.fields.wildcards;
    && NonStrictWild(r, a.inPort, b.inPort, aw, bw, IN_PORT)
    && NonStrictDladdr(r, a.dlSrc, b.dlSrc, aw, bw, DL_SRC)
    && NonStrictDladdr(r, a.dlDst, b.dlDst, aw, bw, DL_DST)
    && NonStrictWild(r, a.dlVlan, b.dlVlan, aw, bw, DL_VLAN)
    && NonStrictWild(r, a.dlVlanPcp, b.dlVlanPcp, aw, bw, DL_VLAN_PCP)
    && NonStrictWild(r, a.dlType, b.dlType, aw, bw, DL_TYPE)
    && NonStrictWild(r, a.nwTos, b.nwTos, aw, bw, NW_TOS)
    && NonStrictWild(r, a.nwProto, b.nwProto, aw, bw, NW_PROTO)
    && NonStrictNw(a.nwSrc, b.nwSrc, x.nwSrcMask, y.nwSrcMask)
    && NonStrictNw(a.nwDst, b.nwDst, x.nwDstMask, y.nwDstMask)
    && NonStrictWild(r, a.tpSrc, b.tpSrc, aw, bw, TP_SRC)
    && NonStrictWild(r, a.tpDst, b.tpDst, aw, bw, TP_DST)
  }

  // ----- packet match -----

  predicate PktWild<T(==)>(a: T, p: T, aw: bv32, f: bv32) {
    Wc(aw, f) || a == p
  }

  predicate PktNw(a: bv32, p: bv32, am: bv32) {
    !am & (a ^ p) == 0
  }

  predicate PktDladdr(a: Mac, p: Mac, aw: bv32, f: bv32) {
    PktWild(a.head, p.head, aw, f) && PktWild(a.tail, p.tail, aw, f)
  }

  /** The flow matches the packet whose header fields are p; the wildcards of p are not looked at. */
  predicate PktMatch(x: Flow, p: Match) {
    var a, aw := x.fields, x.fields.wildcards;
    && PktWild(a.inPort, p.inPort, aw, IN_PORT)
    && PktDladdr(a.dlSrc, p.dlSrc, aw, DL_SRC)
    && PktDladdr(a.dlDst, p.dlDst, aw, DL_DST)
    && PktWild(a.dlVlan, p.dlVlan, aw, DL_VLAN)
    && PktWild(a.dlVlanPcp, p.dlVlanPcp, aw, DL_VLAN_PCP)
    && PktWild(a.dlType, p.dlType, aw, DL_TYPE)
    && PktWild(a.nwTos, p.nwTos, aw, NW_TOS)
    && PktWild(a.nwProto, p.nwProto, aw, NW_PROTO)
    && PktNw(a.nwSrc, p.nwSrc, x.nwSrcMask)
    && PktNw(a.nwDst, p.nwDst, x.nwDstMask)
    && PktWild(a.tpSrc, p.tpSrc, aw, TP_SRC)
    && PktWild(a.tpDst, p.tpDst, aw, TP_DST)
  }

  /** Bit k of a word. */
  predicate BitSet(w: bv32, k: bv32)
    requires k < 32
  {
    (w >> k) & 1 == 1
  }

  lemma FlagBits(w: bv32)
    ensures Wc(w, IN_PORT) <==> BitSet(w, 0)
    ensures Wc(w, DL_VLAN) <==> BitSet(w, 1)
    ensures Wc(w, DL_SRC) <==> BitSet(w, 2)
    ensures Wc(w, DL_DST) <==> BitSet(w, 3)
    ensures Wc(w, DL_TYPE) <==> BitSet(w, 4)
    ensures Wc(w, NW_PROTO) <==> BitSet(w, 5)
    ensures Wc(w, TP_SRC) <==> BitSet(w, 6)
    ensures Wc(w, TP_DST) <==> BitSet(w, 7)
    ensures Wc(w, DL_VLAN_PCP) <==> BitSet(w, 20)
    ensures Wc(w, NW_TOS) <==> BitSet(w, 21)
  {
  }

  /** The addresses agree in every bit that is not masked out. */
  predicate SameOutside(a: bv32, p: bv32, m: bv32) {
    a | m == p | m
  }

  lemma MaskedThere(a: bv32, p: bv32, m: bv32)
    requires PktNw(a, p, m)
    ensures SameOutside(a, p, m)
  {
  }

  lemma MaskedBack(a: bv32, p: bv32, m: bv32)
    requires SameOutside(a, p, m)
    ensures PktNw(a, p, m)
  {
  }

  lemma MaskedEqual(a: bv32, p: bv32, m: bv32)
    ensures PktNw(a, p, m) <==> SameOutside(a, p, m)
  {
    hide PktNw, SameOutside;
    if PktNw(a, p, m) { MaskedThere(a, p, m); }
    if SameOutside(a, p, m) { MaskedBack(a, p, m); }
  }

  lemma WholeMac(a: Mac, p: Mac, w: bv32, f: bv32)
    ensures PktDladdr(a, p, w, f) <==> Wc(w, f) || a == p
  {
    hide Wc;
  }

  /** What a flow matches, by the bit positions of the wildcard word (section 5.2.3 of the OpenFlow Switch
      Specification 1.0.0): each field is wildcarded or has the value of the packet, and the network
      addresses agree outside their masks. */
  predicate MatchesByBits(x: Flow, p: Match) {
    var a, w := x.fields, x.fields.wildcards;
    && (BitSet(w, 0) || a.inPort == p.inPort)
    && (BitSet(w, 1) || a.dlVlan == p.dlVlan)
    && (BitSet(w, 2) || a.dlSrc == p.dlSrc)
    && (BitSet(w, 3) || a.dlDst == p.dlDst)
    && (BitSet(w, 4) || a.dlType == p.dlType)
    && (BitSet(w, 5) || a.nwProto == p.nwProto)
    && (BitSet(w, 6) || a.tpSrc == p.tpSrc)
    && (BitSet(w, 7) || a.tpDst == p.tpDst)
    && (BitSet(w, 20) || a.dlVlanPcp == p.dlVlanPcp)
    && (BitSet(w, 21) || a.nwTos == p.nwTos)
    && SameOutside(a.nwSrc, p.nwSrc, x.nwSrcMask)
    && SameOutside(a.nwDst, p.nwDst, x.nwDstMask)
  }

  lemma WholeWild<T>(a: T, p: T, w: bv32, f: bv32)
    ensures PktWild(a, p, w, f) <==> Wc(w, f) || a == p
  {
    hide Wc;
  }

  lemma PktMatchBits(x: Flow, p: Match)
    ensures PktMatch(x, p) <==> MatchesByBits(x, p)
  {
    hide Wc, BitSet, PktNw, SameOutside, PktWild, PktDladdr;
    var a, w := x.fields, x.fields.wildcards;
    FlagBits(w);
    MaskedEqual(a.nwSrc, p.nwSrc, x.nwSrcMask);
    MaskedEqual(a.nwDst, p.nwDst, x.nwDstMask);
    WholeMac(a.dlSrc, p.dlSrc, w, DL_SRC);
    WholeMac(a.dlDst, p.dlDst, w, DL_DST);
    WholeWild(a.inPort, p.inPort, w, IN_PORT);
    WholeWild(a.dlVlan, p.dlVlan, w, DL_VLAN);
    WholeWild(a.dlVlanPcp, p.dlVlanPcp, w, DL_VLAN_PCP);
    WholeWild(a.dlType, p.dlType, w, DL_TYPE);
    WholeWild(a.nwTos, p.nwTos, w, NW_TOS);
    WholeWild(a.nwProto, p.nwProto, w, NW_PROTO);
    WholeWild(a.tpSrc, p.tpSrc, w, TP_SRC);
    WholeWild(a.tpDst, p.tpDst, w, TP_DST);
  }

  // ----- non-strict match is inclusion of packet sets -----

  /** Every packet that y matches is matched by x. */
  ghost predicate Subsumes(x: Flow, y: Flow) {
    forall p: Match :: PktMatch(y, p) ==> PktMatch(x, p)
  }

  lemma NwIncluded(a: bv32, b: bv32, p: bv32, am: bv32, bm: bv32)
    requires NonStrictNw(a, b, am, bm) && PktNw(b, p, bm)
    ensures PktNw(a, p, am)
  {
  }

  lemma NonStrictIncludes(x: Flow, y: Flow, p: Match)
    requires NonStrictMatch(Documented, x, y) && PktMatch(y, p)
    ensures PktMatch(x, p)
  {
    hide Wc, NonStrictNw, PktNw;
    NwIncluded(x.fields.nwSrc, y.fields.nwSrc, p.nwSrc, x.nwSrcMask, y.nwSrcMask);
    NwIncluded(x.fields.nwDst, y.fields.nwDst, p.nwDst, x.nwDstMask, y.nwDstMask);
  }

  /** Two packets tell whether a masked address includes another: b itself, and b with every masked bit flipped. */
  lemma NwFromTwo(a: bv32, b: bv32, am: bv32, bm: bv32)
    requires PktNw(a, b, am) && PktNw(a, b ^ bm, am)
    ensures NonStrictNw(a, b, am, bm) && PktNw(b, b, bm) && PktNw(b, b ^ bm, bm)
  {
  }

  lemma NwSelf(b: bv32, bm: bv32)
    ensures PktNw(b, b, bm) && PktNw(b, b ^ bm, bm)
  {
  }

  /** Two packets tell whether a field includes another: b itself, and, if b is wildcarded, any value but a. */
  lemma WildFromTwo<T>(a: T, b: T, other: T, aw: bv32, bw: bv32, f: bv32)
    requires other != a && PktWild(a, b, aw, f)
    requires Wc(bw, f) ==> PktWild(a, other, aw, f)
    ensures NonStrictWild(Documented, a, b, aw, bw, f)
  {
    hide Wc;
  }

  function Other16(a: bv16): (o: bv16)
    ensures o != a
  {
    a ^ 1
  }

  function Other8(a: bv8): (o: bv8)
    ensures o != a
  {
    a ^ 1
  }

  function OtherMac(a: Mac): (o: Mac)
    ensures o.head != a.head && o.tail != a.tail
  {
    Mac(a.head ^ 1, a.tail ^ 1)
  }

  /** A packet that y matches and that differs from x wherever y leaves it free. */
  function FarPacket(x: Flow, y: Flow): Match {
    var a, b, bw := x.fields, y.fields, y.fields.wildcards;
    Match(0,
      if Wc(bw, IN_PORT) then Other16(a.inPort) else b.inPort,
      if Wc(bw, DL_SRC) then OtherMac(a.dlSrc) else b.dlSrc,
      if Wc(bw, DL_DST) then OtherMac(a.dlDst) else b.dlDst,
      if Wc(bw, DL_VLAN) then Other16(a.dlVlan) else b.dlVlan,
      if Wc(bw, DL_VLAN_PCP) then Other8(a.dlVlanPcp) else b.dlVlanPcp,
      if Wc(bw, DL_TYPE) then Other16(a.dlType) else b.dlType,
      if Wc(bw, NW_TOS) then Other8(a.nwTos) else b.nwTos,
      if Wc(bw, NW_PROTO) then Other8(a.nwProto) else b.nwProto,
      b.nwSrc ^ y.nwSrcMask,
      b.nwDst ^ y.nwDstMask,
      if Wc(bw, TP_SRC) then Other16(a.tpSrc) else b.tpSrc,
      if Wc(bw, TP_DST) then Other16(a.tpDst) else b.tpDst)
  }

  lemma PktSelf<T>(b: T, other: T, bw: bv32, f: bv32)
    ensures PktWild(b, b, bw, f) && PktWild(b, if Wc(bw, f) then other else b, bw, f)
  {
    hide Wc;
  }

  lemma PktMacSelf(b: Mac, other: Mac, bw: bv32, f: bv32)
    ensures PktDladdr(b, b, bw, f) && PktDladdr(b, if Wc(bw, f) then other else b, bw, f)
  {
    hide Wc;
  }

  lemma TwoPackets(x: Flow, y: Flow)
    ensures PktMatch(y, y.fields) && PktMatch(y, FarPacket(x, y))
  {
    hide Wc, PktWild, PktDladdr, PktNw, Other16, Other8, OtherMac;
    var a, b, bw := x.fields, y.fields, y.fields.wildcards;
    PktSelf(b.inPort, Other16(a.inPort), bw, IN_PORT);
    PktSelf(b.dlVlan, Other16(a.dlVlan), bw, DL_VLAN);
    PktSelf(b.dlVlanPcp, Other8(a.dlVlanPcp), bw, DL_VLAN_PCP);
    PktSelf(b.dlType, Other16(a.dlType), bw, DL_TYPE);
    PktSelf(b.nwTos, Other8(a.nwTos), bw, NW_TOS);
    PktSelf(b.nwProto, Other8(a.nwProto), bw, NW_PROTO);
    PktSelf(b.tpSrc, Other16(a.tpSrc), bw, TP_SRC);
    PktSelf(b.tpDst, Other16(a.tpDst), bw, TP_DST);
    PktMacSelf(b.dlSrc, OtherMac(a.dlSrc), bw, DL_SRC);
    PktMacSelf(b.dlDst, OtherMac(a.dlDst), bw, DL_DST);
    NwSelf(y.fields.nwSrc, y.nwSrcMask);
    NwSelf(y.fields.nwDst, y.nwDstMask);
  }

  lemma MacFromTwo(a: Mac, b: Mac, other: Mac, aw: bv32, bw: bv32, f: bv32)
    requires other.head != a.head && other.tail != a.tail && PktDladdr(a, b, aw, f)
    requires Wc(bw, f) ==> PktDladdr(a, other, aw, f)
    ensures NonStrictDladdr(Documented, a, b, aw, bw, f)
  {
    hide Wc, StrictWild, NonStrictWild, PktWild;
    WildFromTwo(a.head, b.head, other.head, aw, bw, f);
    WildFromTwo(a.tail, b.tail, other.tail, aw, bw, f);
  }

  lemma TwoPacketsSuffice(x: Flow, y: Flow)
    requires PktMatch(x, y.fields) && PktMatch(x, FarPacket(x, y))
    ensures NonStrictMatch(Documented, x, y)
  {
    hide Wc, PktWild, PktNw, PktDladdr, NonStrictWild, NonStrictDladdr, NonStrictNw, Other16, Other8, OtherMac;
    var a, b, aw, bw := x.fields, y.fields, x.fields.wildcards, y.fields.wildcards;
    WildFromTwo(a.inPort, b.inPort, Other16(a.inPort), aw, bw, IN_PORT);
    WildFromTwo(a.dlVlan, b.dlVlan, Other16(a.dlVlan), aw, bw, DL_VLAN);
    WildFromTwo(a.dlVlanPcp, b.dlVlanPcp, Other8(a.dlVlanPcp), aw, bw, DL_VLAN_PCP);
    WildFromTwo(a.dlType, b.dlType, Other16(a.dlType), aw, bw, DL_TYPE);
    WildFromTwo(a.nwTos, b.nwTos, Other8(a.nwTos), aw, bw, NW_TOS);
    WildFromTwo(a.nwProto, b.nwProto, Other8(a.nwProto), aw, bw, NW_PROTO);
    WildFromTwo(a.tpSrc, b.tpSrc, Other16(a.tpSrc), aw, bw, TP_SRC);
    WildFromTwo(a.tpDst, b.tpDst, Other16(a.tpDst), aw, bw, TP_DST);
    MacFromTwo(a.dlSrc, b.dlSrc, OtherMac(a.dlSrc), aw, bw, DL_SRC);
    MacFromTwo(a.dlDst, b.dlDst, OtherMac(a.dlDst), aw, bw, DL_DST);
    NwFromTwo(a.nwSrc, b.nwSrc, x.nwSrcMask, y.nwSrcMask);
    NwFromTwo(a.nwDst, b.nwDst, x.nwDstMask, y.nwDstMask);
  }

  /** Non-strict match, read as its comment says, is exactly inclusion: x non-strictly matches y
      when and only when every packet that y matches is matched by x. */
  lemma NonStrictIsInclusion(x: Flow, y: Flow)
    ensures NonStrictMatch(Documented, x, y) <==> Subsumes(x, y)
  {
    if NonStrictMatch(Documented, x, y) {
      forall p | PktMatch(y, p) ensures PktMatch(x, p) { NonStrictIncludes(x, y, p); }
    }
    if Subsumes(x, y) {
      TwoPackets(x, y);
      TwoPacketsSuffice(x, y);
    }
  }

  // ----- strict match -----

  lemma StrictNwBothWays(a: bv32, b: bv32, am: bv32, bm: bv32)
    ensures StrictNw(a, b, am, bm) <==> NonStrictNw(a, b, am, bm) && NonStrictNw(b, a, bm, am)
  {
    if StrictNw(a, b, am, bm) {
      SameNwIncludes(a, b, am);
      SameNwIncludes(b, a, am);
    }
    if NonStrictNw(a, b, am, bm) && NonStrictNw(b, a, bm, am) {
      MaskIncluded(a, b, am, bm);
      MaskIncluded(b, a, bm, am);
      assert am == bm by { SameMask(am, bm); }
    }
  }

  lemma SameNwIncludes(a: bv32, b: bv32, m: bv32)
    requires (a ^ b) & !m == 0 || (b ^ a) & !m == 0
    ensures NonStrictNw(a, b, m, m)
  {
  }

  lemma MaskIncluded(a: bv32, b: bv32, am: bv32, bm: bv32)
    requires NonStrictNw(a, b, am, bm)
    ensures bm & !am == 0 && (a ^ b) & !am == 0
  {
  }

  lemma SameMask(am: bv32, bm: bv32)
    requires bm & !am == 0 && am & !bm == 0
    ensures am == bm
  {
  }

  lemma StrictWildBothWays<T>(a: T, b: T, aw: bv32, bw: bv32, f: bv32)
    ensures StrictWild(Documented, a, b, aw, bw, f) <==>
            NonStrictWild(Documented, a, b, aw, bw, f) && NonStrictWild(Documented, b, a, bw, aw, f)
  {
    hide Wc;
  }

  lemma StrictMacBothWays(a: Mac, b: Mac, aw: bv32, bw: bv32, f: bv32)
    ensures StrictDladdr(Documented, a, b, aw, bw, f) <==>
            NonStrictDladdr(Documented, a, b, aw, bw, f) && NonStrictDladdr(Documented, b, a, bw, aw, f)
  {
    hide Wc, StrictWild, NonStrictWild, PktWild;
    StrictWildBothWays(a.head, b.head, aw, bw, f);
    StrictWildBothWays(a.tail, b.tail, aw, bw, f);
  }

  /** Strict match, read as its comment says, is non-strict match both ways: at equal priority, two
      flows strictly match exactly when they match the same packets. */
  lemma StrictIsSamePackets(x: Flow, y: Flow)
    ensures StrictMatch(Documented, x, y) <==>
            x.priority == y.priority && forall p: Match :: PktMatch(x, p) <==> PktMatch(y, p)
  {
    StrictIsBothWays(x, y);
    NonStrictIsInclusion(x, y);
    NonStrictIsInclusion(y, x);
  }

  lemma StrictIsBothWays(x: Flow, y: Flow)
    ensures MatchStrict(Documented, x, y) <==>
            NonStrictMatch(Documented, x, y) && NonStrictMatch(Documented, y, x)
  {
    hide Wc, StrictWild, StrictDladdr, StrictNw, NonStrictWild, NonStrictDladdr, NonStrictNw;
    var a, b, aw, bw := x.fields, y.fields, x.fields.wildcards, y.fields.wildcards;
    StrictWildBothWays(a.inPort, b.inPort, aw, bw, IN_PORT);
    StrictWildBothWays(a.dlVlan, b.dlVlan, aw, bw, DL_VLAN);
    StrictWildBothWays(a.dlVlanPcp, b.dlVlanPcp, aw, bw, DL_VLAN_PCP);
    StrictWildBothWays(a.dlType, b.dlType, aw, bw, DL_TYPE);
    StrictWildBothWays(a.nwTos, b.nwTos, aw, bw, NW_TOS);
    StrictWildBothWays(a.nwProto, b.nwProto, aw, bw, NW_PROTO);
    StrictWildBothWays(a.tpSrc, b.tpSrc, aw, bw, TP_SRC);
    StrictWildBothWays(a.tpDst, b.tpDst, aw, bw, TP_DST);
    StrictMacBothWays(a.dlSrc, b.dlSrc, aw, bw, DL_SRC);
    StrictMacBothWays(a.dlDst, b.dlDst, aw, bw, DL_DST);
    StrictNwBothWays(a.nwSrc, b.nwSrc, x.nwSrcMask, y.nwSrcMask);
    StrictNwBothWays(a.nwDst, b.nwDst, x.nwDstMask, y.nwDstMask);
  }

  // ----- what the compiled predicates say -----

  /** No field wildcarded in y is matched exactly by x. */
  predicate NoWider(x: Flow, y: Flow) {
    y.fields.wildcards & !x.fields.wildcards & ALL_FLAGS == 0
  }

  /** Field by field: what yw wildcards, xw wildcards too. */
  predicate Within(xw: bv32, yw: bv32) {
    && (Wc(yw, IN_PORT) ==> Wc(xw, IN_PORT)) && (Wc(yw, DL_VLAN) ==> Wc(xw, DL_VLAN))
    && (Wc(yw, DL_SRC) ==> Wc(xw, DL_SRC)) && (Wc(yw, DL_DST) ==> Wc(xw, DL_DST))
    && (Wc(yw, DL_TYPE) ==> Wc(xw, DL_TYPE)) && (Wc(yw, NW_PROTO) ==> Wc(xw, NW_PROTO))
    && (Wc(yw, TP_SRC) ==> Wc(xw, TP_SRC)) && (Wc(yw, TP_DST) ==> Wc(xw, TP_DST))
    && (Wc(yw, DL_VLAN_PCP) ==> Wc(xw, DL_VLAN_PCP)) && (Wc(yw, NW_TOS) ==> Wc(xw, NW_TOS))
  }

  lemma FlagsApart(x: Flow, y: Flow)
    ensures NoWider(x, y) <==> Within(x.fields.wildcards, y.fields.wildcards)
  {
  }

  lemma CompiledWild<T>(a: T, b: T, aw: bv32, bw: bv32, f: bv32)
    ensures NonStrictWild(Documented, a, b, aw, bw, f) <==>
            NonStrictWild(Compiled, a, b, aw, bw, f) && (Wc(bw, f) ==> Wc(aw, f))
  {
    hide Wc;
  }

  lemma CompiledMac(a: Mac, b: Mac, aw: bv32, bw: bv32, f: bv32)
    ensures NonStrictDladdr(Documented, a, b, aw, bw, f) <==>
            NonStrictDladdr(Compiled, a, b, aw, bw, f) && (Wc(bw, f) ==> Wc(aw, f))
  {
    hide Wc, NonStrictWild;
    CompiledWild(a.head, b.head, aw, bw, f);
    CompiledWild(a.tail, b.tail, aw, bw, f);
  }

  /** The compiled non-strict match is implied by the documented one, and agrees with it exactly
      when y has no wildcard that x lacks. */
  lemma CompiledNonStrict(x: Flow, y: Flow)
    ensures NonStrictMatch(Documented, x, y) <==> NonStrictMatch(Compiled, x, y) && NoWider(x, y)
  {
    hide Wc, NoWider, NonStrictWild, NonStrictDladdr, NonStrictNw;
    FlagsApart(x, y);
    var a, b, aw, bw := x.fields, y.fields, x.fields.wildcards, y.fields.wildcards;
    CompiledWild(a.inPort, b.inPort, aw, bw, IN_PORT);
    CompiledWild(a.dlVlan, b.dlVlan, aw, bw, DL_VLAN);
    CompiledWild(a.dlVlanPcp, b.dlVlanPcp, aw, bw, DL_VLAN_PCP);
    CompiledWild(a.dlType, b.dlType, aw, bw, DL_TYPE);
    CompiledWild(a.nwTos, b.nwTos, aw, bw, NW_TOS);
    CompiledWild(a.nwProto, b.nwProto, aw, bw, NW_PROTO);
    CompiledWild(a.tpSrc, b.tpSrc, aw, bw, TP_SRC);
    CompiledWild(a.tpDst, b.tpDst, aw, bw, TP_DST);
    CompiledMac(a.dlSrc, b.dlSrc, aw, bw, DL_SRC);
    CompiledMac(a.dlDst, b.dlDst, aw, bw, DL_DST);
  }

  lemma CompiledStrictWild<T>(a: T, b: T, aw: bv32, bw: bv32, f: bv32)
    ensures StrictWild(Documented, a, b, aw, bw, f) <==>
            StrictWild(Compiled, a, b, aw, bw, f) && (Wc(bw, f) <==> Wc(aw, f))
  {
    hide Wc;
  }

  lemma CompiledStrictMac(a: Mac, b: Mac, aw: bv32, bw: bv32, f: bv32)
    ensures StrictDladdr(Documented, a, b, aw, bw, f) <==>
            StrictDladdr(Compiled, a, b, aw, bw, f) && (Wc(bw, f) <==> Wc(aw, f))
  {
    hide Wc, StrictWild;
    CompiledStrictWild(a.head, b.head, aw, bw, f);
    CompiledStrictWild(a.tail, b.tail, aw, bw, f);
  }

  /** The compiled strict match is implied by the documented one, and agrees with it exactly when
      both flows wildcard the same fields. */
  lemma CompiledStrict(x: Flow, y: Flow)
    ensures StrictMatch(Documented, x, y) <==> StrictMatch(Compiled, x, y) && NoWider(x, y) && NoWider(y, x)
  {
    hide Wc, NoWider, StrictWild, StrictDladdr, StrictNw;
    FlagsApart(x, y);
    FlagsApart(y, x);
    var a, b, aw, bw := x.fields, y.fields, x.fields.wildcards, y.fields.wildcards;
    CompiledStrictWild(a.inPort, b.inPort, aw, bw, IN_PORT);
    CompiledStrictWild(a.dlVlan, b.dlVlan, aw, bw, DL_VLAN);
    CompiledStrictWild(a.dlVlanPcp, b.dlVlanPcp, aw, bw, DL_VLAN_PCP);
    CompiledStrictWild(a.dlType, b.dlType, aw, bw, DL_TYPE);
    CompiledStrictWild(a.nwTos, b.nwTos, aw, bw, NW_TOS);
    CompiledStrictWild(a.nwProto, b.nwProto, aw, bw, NW_PROTO);
    CompiledStrictWild(a.tpSrc, b.tpSrc, aw, bw, TP_SRC);
    CompiledStrictWild(a.tpDst, b.tpDst, aw, bw, TP_DST);
    CompiledStrictMac(a.dlSrc, b.dlSrc, aw, bw, DL_SRC);
    CompiledStrictMac(a.dlDst, b.dlDst, aw, bw, DL_DST);
  }

  lemma StrictWildSymmetric<T>(r: Reading, a: T, b: T, aw: bv32, bw: bv32, f: bv32)
    ensures StrictWild(r, a, b, aw, bw, f) <==> StrictWild(r, b, a, bw, aw, f)
    ensures StrictWild(Compiled, a, b, aw, bw, f) ==> NonStrictWild(Compiled, b, a, bw, aw, f)
  {
    hide Wc;
  }

  lemma StrictMacSymmetric(r: Reading, a: Mac, b: Mac, aw: bv32, bw: bv32, f: bv32)
    ensures StrictDladdr(r, a, b, aw, bw, f) <==> StrictDladdr(r, b, a, bw, aw, f)
    ensures StrictDladdr(Compiled, a, b, aw, bw, f) ==> NonStrictDladdr(Compiled, b, a, bw, aw, f)
  {
    hide Wc, StrictWild, NonStrictWild;
    StrictWildSymmetric(r, a.head, b.head, aw, bw, f);
    StrictWildSymmetric(r, a.tail, b.tail, aw, bw, f);
  }

  lemma StrictNwSymmetric(a: bv32, b: bv32, am: bv32, bm: bv32)
    ensures StrictNw(a, b, am, bm) <==> StrictNw(b, a, bm, am)
    ensures StrictNw(a, b, am, bm) ==> NonStrictNw(b, a, bm, am)
  {
    assert a ^ b == b ^ a;
    if StrictNw(a, b, am, bm) { SameNwIncludes(b, a, am); }
  }

  lemma StrictSymmetric(r: Reading, x: Flow, y: Flow)
    ensures StrictMatch(r, x, y) <==> StrictMatch(r, y, x)
  {
    hide Wc, StrictWild, StrictDladdr, StrictNw;
    var a, b, aw, bw := x.fields, y.fields, x.fields.wildcards, y.fields.wildcards;
    StrictWildSymmetric(r, a.inPort, b.inPort, aw, bw, IN_PORT);
    StrictWildSymmetric(r, a.dlVlan, b.dlVlan, aw, bw, DL_VLAN);
    StrictWildSymmetric(r, a.dlVlanPcp, b.dlVlanPcp, aw, bw, DL_VLAN_PCP);
    StrictWildSymmetric(r, a.dlType, b.dlType, aw, bw, DL_TYPE);
    StrictWildSymmetric(r, a.nwTos, b.nwTos, aw, bw, NW_TOS);
    StrictWildSymmetric(r, a.nwProto, b.nwProto, aw, bw, NW_PROTO);
    StrictWildSymmetric(r, a.tpSrc, b.tpSrc, aw, bw, TP_SRC);
    StrictWildSymmetric(r, a.tpDst, b.tpDst, aw, bw, TP_DST);
    StrictMacSymmetric(r, a.dlSrc, b.dlSrc, aw, bw, DL_SRC);
    StrictMacSymmetric(r, a.dlDst, b.dlDst, aw, bw, DL_DST);
    StrictNwSymmetric(a.nwSrc, b.nwSrc, x.nwSrcMask, y.nwSrcMask);
    StrictNwSymmetric(a.nwDst, b.nwDst, x.nwDstMask, y.nwDstMask);
  }

  /** As compiled too, a strict match is a non-strict one. */
  lemma StrictIsNonStrict(x: Flow, y: Flow)
    requires StrictMatch(Compiled, x, y)
    ensures NonStrictMatch(Compiled, y, x)
  {
    hide Wc, StrictWild, StrictDladdr, StrictNw, NonStrictWild, NonStrictDladdr, NonStrictNw;
    var a, b, aw, bw := x.fields, y.fields, x.fields.wildcards, y.fields.wildcards;
    StrictWildSymmetric(Compiled, a.inPort, b.inPort, aw, bw, IN_PORT);
    StrictWildSymmetric(Compiled, a.dlVlan, b.dlVlan, aw, bw, DL_VLAN);
    StrictWildSymmetric(Compiled, a.dlVlanPcp, b.dlVlanPcp, aw, bw, DL_VLAN_PCP);
    StrictWildSymmetric(Compiled, a.dlType, b.dlType, aw, bw, DL_TYPE);
    StrictWildSymmetric(Compiled, a.nwTos, b.nwTos, aw, bw, NW_TOS);
    StrictWildSymmetric(Compiled, a.nwProto, b.nwProto, aw, bw, NW_PROTO);
    StrictWildSymmetric(Compiled, a.tpSrc, b.tpSrc, aw, bw, TP_SRC);
    StrictWildSymmetric(Compiled, a.tpDst, b.tpDst, aw, bw, TP_DST);
    StrictMacSymmetric(Compiled, a.dlSrc, b.dlSrc, aw, bw, DL_SRC);
    StrictMacSymmetric(Compiled, a.dlDst, b.dlDst, aw, bw, DL_DST);
    StrictNwSymmetric(a.nwSrc, b.nwSrc, x.nwSrcMask, y.nwSrcMask);
    StrictNwSymmetric(a.nwDst, b.nwDst, x.nwDstMask, y.nwDstMask);
  }
}
