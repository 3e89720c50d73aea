/** Message framing: cutting the byte stream of a connection into OpenFlow messages
    (header layout: section 5.1 of the OpenFlow Switch Specification 1.0.0). */
module Framing {

  newtype Byte = x: int | 0 <= x < 256

  const HEADER_LENGTH: nat := 8

  /** The message length in a header: bytes 2 and 3, the more significant one first. */
  function LengthField(s: seq<Byte>): (n: nat)
    requires 4 <= |s|
    ensures n < 0x1_0000
  {
    s[2] as nat * 256 + s[3] as nat
  }

  /** The stream starts with a complete message. */
  predicate Complete(s: seq<Byte>) {
    HEADER_LENGTH <= |s| && LengthField(s) <= |s|
  }

  /** Every length field in the stream counts at least its own header. */
  predicate WellFormed(s: seq<Byte>) {
    HEADER_LENGTH <= |s| ==>
      && HEADER_LENGTH <= LengthField(s)
      && (LengthField(s) <= |s| ==> WellFormed(s[LengthField(s)..]))
  }

  datatype Parsed = Parsed(messages: seq<seq<Byte>>, rest: seq<Byte>)

  /** The messages of a stream, and the bytes of the message not complete yet. */
  function Parse(s: seq<Byte>): Parsed
    requires WellFormed(s)
  {
    if !Complete(s) then Parsed([], s)
    else
      var tail := Parse(s[LengthField(s)..]);
      Parsed([s[..LengthField(s)]] + tail.messages, tail.rest)
  }

  // ----- the parse of a stream, told by its result -----

  predicate IsMessage(m: seq<Byte>) {
    HEADER_LENGTH <= |m| && LengthField(m) == |m|
  }

  function Concat(ms: seq<seq<Byte>>): seq<Byte> {
    if ms == [] then [] else ms[0] + Concat(ms[1..])
  }

  ghost predicate AllMessages(ms: seq<seq<Byte>>) {
    forall m | m in ms :: IsMessage(m)
  }

  lemma LengthFieldPrefix(a: seq<Byte>, b: seq<Byte>)
    requires 4 <= |a|
    ensures LengthField(a + b) == LengthField(a)
  {
  }

  /** A stream that starts with a message. */
  lemma ParseMessage(m: seq<Byte>, t: seq<Byte>)
    requires IsMessage(m)
    ensures WellFormed(m + t) <==> WellFormed(t)
    ensures WellFormed(t) ==> Parse(m + t) == Parsed([m] + Parse(t).messages, Parse(t).rest)
  {
    LengthFieldPrefix(m, t);
    hide LengthField;
    assert (m + t)[..|m|] == m && (m + t)[|m|..] == t;
  }

  /** A complete stream starts with a message. */
  lemma FirstMessage(s: seq<Byte>)
    requires WellFormed(s) && Complete(s)
    ensures 4 <= |s| && LengthField(s) <= |s|
    ensures IsMessage(s[..LengthField(s)]) && WellFormed(s[LengthField(s)..])
    ensures s[..LengthField(s)] + s[LengthField(s)..] == s
  {
    hide LengthField;
    SplitAt(s, LengthField(s));
    LengthFieldPrefix(s[..LengthField(s)], s[LengthField(s)..]);
  }

  lemma SplitAt(s: seq<Byte>, n: nat)
    requires n <= |s|
    ensures s[..n] + s[n..] == s
  {}

  lemma MessageNotEmpty(m: seq<Byte>)
    requires IsMessage(m)
    ensures 0 < |m|
  {
  }

  lemma ParseIncomplete(s: seq<Byte>)
    requires WellFormed(s) && !Complete(s)
    ensures Parse(s) == Parsed([], s)
  {
  }

  /** Nothing is lost or invented: the stream is the messages found in it, followed by the rest. */
  lemma {:induction false} ParseRestores(s: seq<Byte>)
    requires WellFormed(s)
    ensures Concat(Parse(s).messages) + Parse(s).rest == s
    ensures AllMessages(Parse(s).messages) && !Complete(Parse(s).rest) && WellFormed(Parse(s).rest)
  {
    hide WellFormed, Complete, LengthField, IsMessage, Parse;
    if Complete(s) {
      FirstMessage(s);
      var m, t := s[..LengthField(s)], s[LengthField(s)..];
      ParseMessage(m, t);
      MessageNotEmpty(m);
      assert |m| + |t| == |s|;
      ParseRestores(t);
      assert ([m] + Parse(t).messages)[1..] == Parse(t).messages;
      assert Concat([m] + Parse(t).messages) == m + Concat(Parse(t).messages);
      assert m + Concat(Parse(t).messages) + Parse(t).rest == m + t;
    } else {
      ParseIncomplete(s);
    }
  }

  /** Well-formed messages sent one after the other, with an incomplete one behind them, are what
      the stream is cut into. */
  lemma {:induction false} ParseConcat(ms: seq<seq<Byte>>, tail: seq<Byte>)
    requires AllMessages(ms) && WellFormed(tail) && !Complete(tail)
    ensures WellFormed(Concat(ms) + tail) && Parse(Concat(ms) + tail) == Parsed(ms, tail)
  {
    hide WellFormed, Complete, IsMessage, Parse;
    if ms == [] {
      assert Concat(ms) + tail == tail;
      ParseIncomplete(tail);
    } else {
      var t := Concat(ms[1..]) + tail;
      ParseConcat(ms[1..], tail);
      assert Concat(ms) + tail == ms[0] + t;
      ParseMessage(ms[0], t);
      assert [ms[0]] + ms[1..] == ms;
    }
  }

  lemma WellFormedPrefix(a: seq<Byte>, b: seq<Byte>)
    requires WellFormed(a + b) && !Complete(a)
    ensures WellFormed(a)
  {
    if HEADER_LENGTH <= |a| { LengthFieldPrefix(a, b); }
    hide LengthField;
  }

  lemma CompletePrefix(a: seq<Byte>, b: seq<Byte>)
    requires WellFormed(a + b) && Complete(a)
    ensures LengthField(a) <= |a|
    ensures IsMessage(a[..LengthField(a)]) && a[..LengthField(a)] + a[LengthField(a)..] == a
    ensures a + b == a[..LengthField(a)] + (a[LengthField(a)..] + b)
    ensures 0 < LengthField(a)
  {
    LengthFieldPrefix(a, b);
    LengthFieldPrefix(a[..LengthField(a)], a[LengthField(a)..]);
    assert a[..LengthField(a)] + a[LengthField(a)..] == a;
  }

  /** A stream can be parsed piecewise. */
  lemma {:induction false} ParseAppend(a: seq<Byte>, b: seq<Byte>)
    requires WellFormed(a + b)
    ensures WellFormed(a) && WellFormed(Parse(a).rest + b)
    ensures Parse(a + b) == Parsed(Parse(a).messages + Parse(Parse(a).rest + b).messages, Parse(Parse(a).rest + b).rest)
    decreases |a|
  {
    hide WellFormed, Complete, IsMessage, Parse, LengthField;
    if Complete(a) {
      CompletePrefix(a, b);
      var m, t := a[..LengthField(a)], a[LengthField(a)..];
      ParseMessage(m, t + b);
      assert |t| < |a| by { assert |m| + |t| == |a| && 0 < |m|; }
      ParseAppend(t, b);
      ParseMessage(m, t);
      var now := Parse(Parse(t).rest + b).messages;
      assert [m] + (Parse(t).messages + now) == [m] + Parse(t).messages + now;
    } else {
      WellFormedPrefix(a, b);
      ParseIncomplete(a);
      assert [] + Parse(a + b).messages == Parse(a + b).messages;
    }
  }

  lemma WellFormedFirst(a: seq<Byte>, b: seq<Byte>)
    requires WellFormed(a + b)
    ensures WellFormed(a)
  {
    ParseAppend(a, b);
  }

  // ----- fragmentation -----

  function Join(chunks: seq<seq<Byte>>): seq<Byte> {
    if chunks == [] then [] else Join(chunks[..|chunks| - 1]) + chunks[|chunks| - 1]
  }

  /** What a connection has dispatched and still holds after a sequence of reads. */
  function Feed(chunks: seq<seq<Byte>>): Parsed
    requires WellFormed(Join(chunks))
    ensures Feed(chunks) == Parse(Join(chunks))
  {
    if chunks == [] then Parsed([], [])
    else
      var n := |chunks| - 1;
      ParseAppend(Join(chunks[..n]), chunks[n]);
      var before := Feed(chunks[..n]);
      var now := Parse(before.rest + chunks[n]);
      Parsed(before.messages + now.messages, now.rest)
  }

  /** However a stream is split over reads, the same messages are dispatched and the same bytes held. */
  lemma FragmentationIndependent(chunks: seq<seq<Byte>>, others: seq<seq<Byte>>)
    requires WellFormed(Join(chunks)) && Join(chunks) == Join(others)
    ensures Feed(chunks) == Feed(others)
  {
  }

  /** Sending messages, in whatever fragments, delivers those messages and leaves nothing behind. */
  lemma SentIsDelivered(ms: seq<seq<Byte>>, chunks: seq<seq<Byte>>)
    requires AllMessages(ms) && Join(chunks) == Concat(ms)
    ensures WellFormed(Join(chunks)) && Feed(chunks) == Parsed(ms, [])
  {
    ParseConcat(ms, []);
    assert Concat(ms) + [] == Concat(ms);
  }

  /** A message as section 5.1 of the OpenFlow Switch Specification 1.0.0 lays it out: version, type, length
      (more significant byte first), xid, body. */
  datatype Packet = Packet(version: Byte, kind: Byte, xid: seq<Byte>, body: seq<Byte>) {
    ghost predicate Valid() {
      |xid| == 4 && 8 + |body| < 0x1_0000
    }

    function Pack(): seq<Byte>
      requires Valid()
    {
      var n := 8 + |body|;
      [version, kind, (n / 256) as Byte, (n % 256) as Byte] + xid + body
    }
  }

  lemma PackedIsMessage(p: Packet)
    requires p.Valid()
    ensures IsMessage(p.Pack())
  {
  }

  ghost predicate AllValid(ps: seq<Packet>) {
    forall p | p in ps :: p.Valid()
  }

  function PackAll(ps: seq<Packet>): (ms: seq<seq<Byte>>)
    requires AllValid(ps)
    ensures |ms| == |ps| && forall i | 0 <= i < |ps| :: ms[i] == ps[i].Pack()
  {
    seq(|ps|, i requires 0 <= i < |ps| => ps[i].Pack())
  }

  /** Packed messages, sent one after the other in whatever fragments, are dispatched as they were packed. */
  lemma PackedIsDelivered(ps: seq<Packet>, chunks: seq<seq<Byte>>)
    requires AllValid(ps) && Join(chunks) == Concat(PackAll(ps))
    ensures WellFormed(Join(chunks)) && Feed(chunks) == Parsed(PackAll(ps), [])
  {
    hide IsMessage;
    forall m | m in PackAll(ps) ensures IsMessage(m) {
      var i :| 0 <= i < |ps| && PackAll(ps)[i] == m;
      PackedIsMessage(ps[i]);
    }
    SentIsDelivered(PackAll(ps), chunks);
  }

  // ----- the buffer object -----

  /** Holds a message while it is being read: first its header, then all of it. */
  class OFReadBuffer {
    const header: array<Byte>
    var headerPos: nat
    var data: array?<Byte>
    var init: bool
    var pos: nat
    var len: nat

    ghost predicate Shape()
      reads this, header, data
    {
      && header.Length == HEADER_LENGTH && headerPos <= HEADER_LENGTH
      && if init then
           && data != null && data != header && data.Length == len
           && HEADER_LENGTH <= pos <= len && len == LengthField(data[..])
         else
           data == null && headerPos < HEADER_LENGTH && pos == 0 && len == 0
    }

    /** The bytes read so far of the current message. */
    ghost function Held(): seq<Byte>
      requires Shape()
      reads this, header, data
    {
      if init then data[..pos] else header[..headerPos]
    }

    /** Between reads, the current message is not complete. */
    ghost predicate Valid()
      reads this, header, data
    {
      Shape() && (init ==> pos < len)
    }

    constructor ()
      ensures Valid() && Held() == [] && fresh(header)
    {
      header := new Byte[HEADER_LENGTH];
      headerPos, data, init, pos, len := 0, null, false, 0, 0;
    }

    /** How many bytes of the message, or first of its header, are still to be read. */
    function GetReadLen(): (n: nat)
      requires Shape()
      reads this, header, data
      ensures Valid() ==> 0 < n
    {
      if init then len - pos else HEADER_LENGTH - headerPos
    }

    predicate IsReady()
      reads this
    {
      len != 0 && pos == len
    }

    /** The header is complete: make room for the whole message. */
    method StartMessage()
      requires header.Length == HEADER_LENGTH && !init && pos == 0 && headerPos == HEADER_LENGTH
      requires HEADER_LENGTH <= LengthField(header[..])
      modifies this`len, this`data, this`pos, this`init
      ensures Shape() && init && Held() == header[..] && fresh(data)
    {
      hide LengthField;
      len := LengthField(header[..]);
      data := new Byte[len];
      Copy(header[..], data, 0);
      pos := pos + HEADER_LENGTH;
      init := true;
      assert data[..pos] == header[..];
      SameLengthField(header[..], data[..]);
    }

    /** Put the bytes read at the read position, and take note of them. */
    method ReadNotify(bytes: seq<Byte>)
      requires Valid() && 0 < |bytes| <= GetReadLen()
      requires WellFormed(Held() + bytes)
      modifies this, header, data
      ensures Shape() && Held() == old(Held()) + bytes
      ensures data == old(data) || fresh(data)
      ensures IsReady() ==> data != null && data[..] == Held() && IsMessage(Held())
      ensures !IsReady() ==> Valid() && !Complete(Held())
    {
      hide WellFormed, Complete, IsMessage, LengthField;
      if init {
        ghost var before := data[..];
        Copy(bytes, data, pos);
        SameLengthField(before, data[..]);
        pos := pos + |bytes|;
        assert data[..pos] == old(Held()) + bytes;
      } else {
        Copy(bytes, header, headerPos);
        headerPos := headerPos + |bytes|;
        assert header[..headerPos] == old(Held()) + bytes;
        if headerPos == HEADER_LENGTH {
          assert header[..] == old(Held()) + bytes;
          HeaderLength(header[..]);
          StartMessage();
        }
      }
      HeldState();
    }

    /** When ready, the buffer holds exactly one message; otherwise an incomplete one. */
    lemma HeldState()
      requires Shape() && (!init ==> headerPos < HEADER_LENGTH)
      ensures IsReady() ==> data != null && data[..] == Held() && IsMessage(Held())
      ensures !IsReady() ==> Valid() && !Complete(Held())
    {
      if init {
        SameLengthField(data[..], data[..pos]);
      }
      hide LengthField;
    }

    method Clear()
      requires header.Length == HEADER_LENGTH
      modifies this, header
      ensures Valid() && Held() == [] && data == null
    {
      data := null;
      init := false;
      forall i | 0 <= i < header.Length {
        header[i] := 0;
      }
      headerPos := 0;
      pos := 0;
      len := 0;
    }

    /** The read callback: drain the input, dispatching each message as it becomes complete. */
    method ReadCb(input: seq<Byte>) returns (dispatched: seq<seq<Byte>>)
      requires Valid() && WellFormed(Held() + input)
      modifies this, header, data
      ensures Valid()
      ensures Parsed(dispatched, Held()) == Parse(old(Held()) + input)
      ensures data == null || data == old(data) || fresh(data)
    {
      hide WellFormed, Complete, IsMessage, Parse, LengthField;
      dispatched := [];
      var left := input;
      ghost var whole := Parse(Held() + input);
      assert [] + whole.messages == whole.messages;
      HeldState();
      while true
        invariant Valid() && WellFormed(Held() + left) && !Complete(Held())
        invariant data == old(data) || data == null || fresh(data)
        invariant dispatched + Parse(Held() + left).messages == whole.messages
        invariant Parse(Held() + left).rest == whole.rest
        decreases |left|
      {
        var length := GetReadLen();
        if length <= 0 { break; }
        var read := if |left| < length then |left| else length;
        if read <= 0 { break; }
        assert Held() + left == (Held() + left[..read]) + left[read..];
        WellFormedFirst(Held() + left[..read], left[read..]);
        ReadNotify(left[..read]);
        left := left[read..];
        if IsReady() {
          var message := data[..];
          ParseMessage(message, left);
          Clear();
          assert Held() + left == left;
          EmptyIncomplete();
          assert dispatched + ([message] + Parse(left).messages) == dispatched + [message] + Parse(left).messages;
          dispatched := dispatched + [message];
        }
      }
      assert Held() + left == Held();
      ParseIncomplete(Held());
      assert dispatched + [] == dispatched;
    }

    /** One read callback per chunk of input, as it arrives. */
    method Receive(chunks: seq<seq<Byte>>) returns (dispatched: seq<seq<Byte>>)
      requires Valid() && Held() == [] && WellFormed(Join(chunks))
      modifies this, header, data
      ensures Valid() && Parsed(dispatched, Held()) == Feed(chunks)
      ensures data == null || data == old(data) || fresh(data)
      decreases |chunks|
    {
      hide WellFormed, Parse;
      if chunks == [] {
        dispatched := [];
      } else {
        var n := |chunks| - 1;
        ParseAppend(Join(chunks[..n]), chunks[n]);
        var before := Receive(chunks[..n]);
        var now := ReadCb(chunks[n]);
        dispatched := before + now;
      }
    }
  }

  lemma SameLengthField(a: seq<Byte>, b: seq<Byte>)
    requires 4 <= |a| && 4 <= |b| && a[2] == b[2] && a[3] == b[3]
    ensures LengthField(a) == LengthField(b)
  {
  }

  lemma HeaderLength(h: seq<Byte>)
    requires |h| == HEADER_LENGTH && WellFormed(h)
    ensures HEADER_LENGTH <= LengthField(h)
  {
  }

  lemma EmptyIncomplete()
    ensures !Complete([])
  {
  }

  /** Copy bytes into an array at an offset. */
  method Copy(bytes: seq<Byte>, a: array<Byte>, offset: nat)
    requires offset + |bytes| <= a.Length
    modifies a
    ensures a[..] == old(a[..offset]) + bytes + old(a[offset + |bytes|..])
  {
    for i := 0 to |bytes|
      invariant forall k | 0 <= k < a.Length ::
        a[k] == if offset <= k < offset + i then bytes[k - offset] else old(a[k])
    {
      a[offset + i] := bytes[i];
    }
  }
}
