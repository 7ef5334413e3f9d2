/**
 The Paho deserializers for PUBLISH and the acknowledgements. Their documentation asks for a
 buffer that holds one whole packet; what they do is stated for any memory.
 */
module PahoDeserialize {
  import opened Bytes
  import opened Frames
  import opened PahoPacket
  import PahoSerialize
  import Packets
  import PacketBuffer

  /** A packet taken apart; NoRoomForId when the identifier would lie beyond the packet. */
  datatype PublishIn =
    | WrongType
    | BadTopic
    | NoRoomForId
    | Message(dup: nat, qos: int, retained: nat, packetId: Option<uint16>, topic: seq<byte>, payload: seq<byte>)

  /** What section 3.3 of MQTT 3.1.1 says a frame means as a PUBLISH. */
  function ReadPublish(f: Frame): PublishIn {
    if f.command / 16 != 3 then WrongType
    else ReadBody(f.command / 8 % 2, f.command / 2 % 4, f.command % 2, f.payload)
  }

  function ReadBody(dup: nat, qos: int, retained: nat, body: seq<byte>): PublishIn {
    if |body| < 2 || |body| < 2 + IntOf(body[0], body[1]) then BadTopic
    else
      var n := 2 + IntOf(body[0], body[1]);
      if qos > 0 && |body| < n + 2 then NoRoomForId
      else
        Message(dup, qos, retained, if qos > 0 then Some(IntOf(body[n], body[n + 1])) else None,
                body[2..n], body[if qos > 0 then n + 2 else n..])
  }

  /** Memory past the bytes given is read as zero. */
  function Peek(buf: seq<byte>, i: nat): byte {
    if i < |buf| then buf[i] else 0
  }

  function View(buf: seq<byte>, i: nat, n: nat): (s: seq<byte>)
    ensures |s| == n && forall k :: 0 <= k < n ==> s[k] == Peek(buf, i + k)
  {
    seq<byte>(n, k requires 0 <= k => Peek(buf, i + k))
  }

  /** The frame the deserializers see in memory, and what MQTTPacket_decodeBuf returns for its length. */
  datatype Seen = Seen(frame: Frame, lengthRc: nat)

  function See(buf: seq<byte>): Seen {
    var s := View(buf, 1, 4);
    var (v, u) := DecodedLength(s);
    var rc := u + if ParseLength(s, 4).Got? then 0 else 1;
    Seen(Frame(Peek(buf, 0), View(buf, 1 + rc, v)), rc)
  }

  /** Where the memory holds one whole packet, as the documentation asks, that is the frame seen. */
  lemma SeesWholePacket(buf: seq<byte>)
    requires ParseFrame(buf).Got?
    ensures See(buf).frame == ParseFrame(buf).value && (See(buf).lengthRc == 1 <==> buf[1] < 128)
    ensures See(buf).lengthRc == ParseFrame(buf).used - 1 - |ParseFrame(buf).value.payload|
  {
    var t, s := buf[1..], View(buf, 1, 4);
    var n := ParseLength(t, 4);
    ParseLengthPrefix(t, 4);
    LengthBytes(t, 4);
    var u, v := n.used, n.value;
    hide ParseLength;
    assert s[..u] == t[..u];
    assert s == s[..u] + s[u..];
    ParseLengthExtend(s[..u], s[u..], 4);
    assert View(buf, 1 + u, v) == buf[1 + u..1 + u + v];
  }

  /** readMQTTLenString: the string lies between the cursor and the end of the packet. */
  method ReadLenString(buf: seq<byte>, cur: nat, end: nat) returns (ok: bool, s: seq<byte>, p: nat)
    requires cur <= end
    ensures ok <==> end - cur >= 2 && 2 + IntOf(Peek(buf, cur), Peek(buf, cur + 1)) <= end - cur
    ensures ok ==> p == cur + 2 + IntOf(Peek(buf, cur), Peek(buf, cur + 1)) && s == View(buf, cur + 2, p - cur - 2)
  {
    ok, s, p := false, [], cur;
    if end - cur > 1 {
      var len := IntOf(Peek(buf, cur), Peek(buf, cur + 1));
      p := cur + 2;
      if p + len <= end {
        s := View(buf, p, len);
        p := p + len;
        ok := true;
      }
    }
  }

  /** The part of MQTTDeserialize_publish after the length: topic, identifier, payload. */
  method TakeBody(buf: seq<byte>, start: nat, end: nat, ghost dup: nat, qos: nat, ghost retained: nat)
    returns (ok: bool, packetId: uint16, topic: seq<byte>, payload: seq<byte>, payloadLen: int)
    requires start <= end
    ensures var r := ReadBody(dup, qos, retained, View(buf, start, end - start));
            && (ok <==> !r.BadTopic?) && (r.NoRoomForId? <==> payloadLen < 0)
            && (r.Message? ==> payloadLen == |payload| && r.topic == topic && r.payload == payload)
            && (r.Message? ==> r.packetId == if qos > 0 then Some(packetId) else None)
  {
    ghost var body := View(buf, start, end - start);
    packetId, payload, payloadLen := 0, [], 0;
    var cur;
    ok, topic, cur := ReadLenString(buf, start, end);
    if !ok {
      return;
    }
    ghost var n := cur - start;
    assert topic == body[2..n];
    if qos > 0 {
      packetId := IntOf(Peek(buf, cur), Peek(buf, cur + 1));
      cur := cur + 2;
    }
    payloadLen := end - cur;
    if cur <= end {
      payload := View(buf, cur, end - cur);
      assert payload == body[cur - start..];
    }
  }

  /** The return code of MQTTDeserialize_publish. */
  function PublishRc(r: PublishIn, lengthRc: nat): int {
    match r
    case WrongType => 0
    case BadTopic => lengthRc
    case _ => 1
  }

  /**
   MQTTDeserialize_publish, on any memory. The return code 1 is documented as success, but the
   failure path returns the number of length bytes; and a missing identifier is read from
   beyond the packet and leaves a negative payload length.
   */
  method DeserializePublish(buf: seq<byte>)
    returns (rc: int, dup: nat, qos: nat, retained: nat, packetId: uint16,
             topic: seq<byte>, payload: seq<byte>, payloadLen: int)
    ensures var r := ReadPublish(See(buf).frame);
            && rc == PublishRc(r, See(buf).lengthRc)
            && (r.Message? ==> payloadLen == |payload|)
            && (r.Message? ==>
                r == Message(dup, qos, retained, if qos > 0 then Some(packetId) else None, topic, payload))
            && (r.NoRoomForId? <==> payloadLen < 0)
  {
    hide ReadBody, ParseLength, DecodedLength;
    dup, qos, retained, packetId, topic, payload, payloadLen := 0, 0, 0, 0, [], [], 0;
    rc := 0;
    RightType(See(buf).frame);
    if Peek(buf, 0) / 16 != 3 {
      return;
    }
    dup, qos, retained := Peek(buf, 0) / 8 % 2, Peek(buf, 0) / 2 % 4, Peek(buf, 0) % 2;
    var n, myLen, _ := DecodeFrom(View(buf, 1, 4));
    rc := n;
    var ok;
    ok, packetId, topic, payload, payloadLen := TakeBody(buf, 1 + n, 1 + n + myLen, dup, qos, retained);
    if ok {
      rc := 1;
    }
    BodyKinds(dup, qos, retained, View(buf, 1 + n, myLen));
  }

  lemma RightType(f: Frame)
    ensures ReadPublish(f).WrongType? <==> f.command / 16 != 3
  {
  }

  lemma BodyKinds(dup: nat, qos: int, retained: nat, body: seq<byte>)
    ensures var r := ReadBody(dup, qos, retained, body);
            r.Message? ==> r.dup == dup && r.qos == qos && r.retained == retained && (r.packetId.Some? <==> qos > 0)
  {
  }

  /** The length takes one byte exactly when the first has no continuation bit. */
  lemma LengthBytes(s: seq<byte>, k: nat)
    requires ParseLength(s, k).Got?
    ensures ParseLength(s, k).used == 1 <==> s[0] < 128
  {
  }

  /** On a whole packet, return code 1 means a message exactly when these two cases are excluded. */
  lemma SuccessMeansMessageIff(buf: seq<byte>)
    requires ParseFrame(buf).Got?
    ensures var r := ReadPublish(ParseFrame(buf).value);
            && ReadPublish(See(buf).frame) == r
            && (PublishRc(r, See(buf).lengthRc) == 1 && !r.Message?
                <==> r.NoRoomForId? || (r.BadTopic? && buf[1] < 128))
  {
    SeesWholePacket(buf);
  }

  /** On a whole packet the return code is 0, the number of bytes that hold the length, or 1. */
  lemma RcOnWholePacket(buf: seq<byte>)
    requires ParseFrame(buf).Got?
    ensures var r, rc := ReadPublish(ParseFrame(buf).value), PublishRc(ReadPublish(See(buf).frame), See(buf).lengthRc);
            && (rc == 0 <==> buf[0] / 16 != 3)
            && (r.BadTopic? ==> rc == ParseFrame(buf).used - 1 - |ParseFrame(buf).value.payload|)
            && (r.Message? || r.NoRoomForId? ==> rc == 1)
  {
    SeesWholePacket(buf);
    hide ReadBody, See;
  }

  ghost predicate Starts(body: seq<byte>, t: seq<byte>) {
    |t| < 0x1_0000 && TextBytes(t) <= body
  }

  /** The topic is bad when the body starts with no string; otherwise the body is its parts, in order. */
  lemma BodyReadIff(dup: nat, qos: int, retained: nat, body: seq<byte>)
    ensures var r := ReadBody(dup, qos, retained, body);
            && (r.BadTopic? <==> forall t :: !Starts(body, t))
            && (r.NoRoomForId? <==> exists t :: Starts(body, t) && qos > 0 && |body| < 4 + |t|)
            && (r.Message? ==>
                  |r.topic| < 0x1_0000
                  && body == TextBytes(r.topic) + (if qos > 0 then IntBytes(r.packetId.value) else []) + r.payload)
  {
    var r := ReadBody(dup, qos, retained, body);
    if r.BadTopic? {
      forall t ensures !Starts(body, t) {
        if Starts(body, t) { StartRead(dup, qos, retained, body, t); }
      }
    } else {
      ReadStart(dup, qos, retained, body);
      hide ReadBody, Starts;
      forall t | Starts(body, t) ensures r.NoRoomForId? <==> qos > 0 && |body| < 4 + |t| {
        StartRead(dup, qos, retained, body, t);
      }
    }
  }

  lemma StartRead(dup: nat, qos: int, retained: nat, body: seq<byte>, t: seq<byte>)
    requires Starts(body, t)
    ensures var r := ReadBody(dup, qos, retained, body);
            !r.BadTopic? && (r.NoRoomForId? <==> qos > 0 && |body| < 4 + |t|)
  {
    var b := TextBytes(t);
    assert body[0] == b[0] && body[1] == b[1];
    assert IntOf(b[0], b[1]) == |t|;
  }

  lemma ReadStart(dup: nat, qos: int, retained: nat, body: seq<byte>)
    requires !ReadBody(dup, qos, retained, body).BadTopic?
    ensures exists t :: Starts(body, t)
    ensures var r := ReadBody(dup, qos, retained, body);
            r.Message? ==>
              |r.topic| < 0x1_0000
              && body == TextBytes(r.topic) + (if qos > 0 then IntBytes(r.packetId.value) else []) + r.payload
  {
    var n := 2 + IntOf(body[0], body[1]);
    var t := body[2..n];
    assert TextBytes(t) == body[..n];
    assert Starts(body, t);
    var r := ReadBody(dup, qos, retained, body);
    if r.Message? && qos > 0 {
      assert IntBytes(r.packetId.value) == body[n..n + 2];
      hide TextBytes, IntBytes;
      assert body == body[..n] + body[n..n + 2] + body[n + 2..];
    }
  }

  /** A PUBLISH of four bytes whose topic does not fit, and the return code for it. */
  lemma BadTopicReportsSuccess()
    ensures var s: seq<byte> := [0x30, 2, 0, 1];
            && ParseFrame(s) == Got(Frame(0x30, [0, 1]), 4) && ReadPublish(Frame(0x30, [0, 1])).BadTopic?
            && PublishRc(ReadPublish(See(s).frame), See(s).lengthRc) == 1
  {
    var s: seq<byte> := [0x30, 2, 0, 1];
    assert s[1..][0] == 2;
    assert ParseLength(s[1..], 4) == Got(2, 1);
    assert s[2..4] == [0, 1];
    SeesWholePacket(s);
  }

  /** A QoS 1 PUBLISH of five bytes that ends before its identifier, and the return code for it. */
  lemma MissingIdReportsSuccess()
    ensures var s: seq<byte> := [0x32, 3, 0, 1, 97];
            && ParseFrame(s) == Got(Frame(0x32, [0, 1, 97]), 5) && ReadPublish(Frame(0x32, [0, 1, 97])).NoRoomForId?
            && PublishRc(ReadPublish(See(s).frame), See(s).lengthRc) == 1
  {
    var s: seq<byte> := [0x32, 3, 0, 1, 97];
    assert s[1..][0] == 3;
    assert ParseLength(s[1..], 4) == Got(3, 1);
    assert s[2..5] == [0, 1, 97];
    SeesWholePacket(s);
  }

  /**
   Serializing and deserializing a PUBLISH recovers every field exactly when the flags fit
   their bit fields and the topic its 16-bit length.
   */
  lemma PublishRecoveredIff(m: PahoSerialize.Publish)
    requires m.topic.Sound()
    ensures ReadPublish(Frame(PahoSerialize.PublishHeader(m), PahoSerialize.PublishBody(m)))
         == Message(m.dup, m.qos, m.retained, if m.qos > 0 then Some(m.packetId) else None, m.topic.Text(), m.payload)
       <==> m.dup <= 1 && 0 <= m.qos <= 3 && m.retained <= 1 && |m.topic.Text()| < 0x1_0000
  {
    hide ReadBody, TextBytes, IntBytes;
    HeaderBits(m);
    if m.dup <= 1 && 0 <= m.qos <= 3 && m.retained <= 1 {
      BodyRecoveredIff(m.dup, m.qos, m.retained, m.packetId, m.topic.Text(), m.payload);
    } else {
      BodyKinds(m.dup % 2, m.qos % 4, m.retained % 2, PahoSerialize.PublishBody(m));
    }
  }

  lemma BodyRecoveredIff(dup: nat, qos: int, retained: nat, id: uint16, t: seq<byte>, payload: seq<byte>)
    ensures ReadBody(dup, qos, retained, TextBytes(t) + (if qos > 0 then IntBytes(id) else []) + payload)
         == Message(dup, qos, retained, if qos > 0 then Some(id) else None, t, payload)
       <==> |t| < 0x1_0000
  {
    var body, n := TextBytes(t) + (if qos > 0 then IntBytes(id) else []) + payload, 2 + |t|;
    assert body[0] == |t| / 256 % 256 && body[1] == |t| % 256;
    if |t| < 0x1_0000 {
      assert body[2..n] == t;
      if qos > 0 {
        assert body[n] == id / 256 && body[n + 1] == id % 256;
        assert body[n + 2..] == payload;
      } else {
        assert body[n..] == payload;
      }
    }
  }

  lemma HeaderBits(m: PahoSerialize.Publish)
    ensures var h := PahoSerialize.PublishHeader(m);
            h / 16 == 3 && h / 8 % 2 == m.dup % 2 && h / 2 % 4 == m.qos % 4 && h % 2 == m.retained % 2
  {
  }

  /** What a serializer left of a well-formed draft is read back as its frame, whatever memory held before. */
  lemma SerializedParses(d: PahoSerialize.Draft, buflen: int, before: seq<byte>, after: seq<byte>, rc: int)
    requires d.WellFormed() && PahoSerialize.Serialized(d, buflen, before, after, rc) && rc > 0
    ensures rc <= buflen && ParseFrame(after) == Got(Frame(d.header, d.body), rc)
  {
    PahoSerialize.WellFormedIsFrame(d, buflen);
    assert before[..0] + d.Bytes() == d.Bytes();
    assert after == d.Bytes() + after[rc..];
    ParseOneFrame(Frame(d.header, d.body), after[rc..]);
  }

  /** MQTTSerialize_publish and MQTTDeserialize_publish through one buffer. */
  method PublishThroughBuffer(buf: array<byte>, buflen: int, m: PahoSerialize.Publish)
    returns (rc: int, dup: nat, qos: nat, retained: nat, packetId: uint16, topic: seq<byte>, payload: seq<byte>)
    requires buflen <= buf.Length && m.topic.Consistent() && |m.topic.Text()| < 0x1_0000
    requires m.dup <= 1 && 0 <= m.qos <= 2 && m.retained <= 1
    requires |PahoSerialize.PublishBody(m)| <= MAX_REMAINING_LENGTH
    modifies buf
    ensures rc == if PassesSizeCheck(|PahoSerialize.PublishBody(m)|, buflen) then 1 else BUFFER_TOO_SHORT
    ensures rc == 1 ==> dup == m.dup && qos == m.qos && retained == m.retained
    ensures rc == 1 ==> topic == m.topic.Text() && payload == m.payload && (m.qos > 0 ==> packetId == m.packetId)
  {
    PahoSerialize.PublishLengthRightIff(m);
    hide PahoSerialize.PublishBody, PahoSerialize.PublishHeader, PahoSerialize.PublishLength, ReadPublish, ParseFrame;
    dup, qos, retained, packetId, topic, payload := 0, 0, 0, 0, [], [];
    ghost var s0, d := buf[..], PahoSerialize.PublishDraft(m);
    if PassesSizeCheck(d.declared, buflen) { PahoSerialize.WellFormedIsFrame(d, buflen); }
    rc := PahoSerialize.SerializePublish(buf, buflen, m);
    if rc > 0 {
      SerializedParses(d, buflen, s0, buf[..], rc);
      PublishRecoveredIff(m);
      SeesWholePacket(buf[..]);
      var payloadLen;
      rc, dup, qos, retained, packetId, topic, payload, payloadLen := DeserializePublish(buf[..]);
    }
  }

  /** For a well-formed message, the Paho codec and libmosquitto put the same frame on the wire. */
  lemma SameFrameAsMosquitto(m: PahoSerialize.Publish)
    requires m.topic.Sound() && |m.topic.Text()| < 0x1_0000 && m.dup <= 1 && 0 <= m.qos <= 2 && m.retained <= 1
    ensures var f := Packets.PublishFields(m.dup == 1, m.qos, m.retained == 1, m.packetId, m.topic.Text(), m.payload);
            && PahoSerialize.PublishHeader(m) == Packets.PublishCommand(f)
            && PahoSerialize.PublishBody(m) == Packets.PublishBody(f)
  {
    assert IntBytes(m.packetId) == Uint16Bytes(m.packetId);
    assert TextBytes(m.topic.Text()) == PacketBuffer.StringBytes(m.topic.Text());
  }

  // ----- acknowledgements -----

  datatype AckIn = TooShort | Ack(packetType: nat, dup: nat, packetId: uint16)

  function ReadAck(f: Frame): AckIn {
    if |f.payload| < 2 then TooShort
    else Ack(f.command / 16, f.command / 8 % 2, IntOf(f.payload[0], f.payload[1]))
  }

  /** The return code of MQTTDeserialize_ack. */
  function AckRc(r: AckIn, lengthRc: nat): int {
    if r.Ack? then 1 else lengthRc
  }

  /** On a whole packet, return code 1 means an acknowledgement exactly when this case is excluded. */
  lemma AckSuccessIff(buf: seq<byte>)
    requires ParseFrame(buf).Got?
    ensures var f := ParseFrame(buf).value;
            && ReadAck(See(buf).frame) == ReadAck(f)
            && (AckRc(ReadAck(f), See(buf).lengthRc) == 1 && !ReadAck(f).Ack? <==> |f.payload| < 2 && buf[1] < 128)
  {
    SeesWholePacket(buf);
  }

  /** A PUBACK of three bytes that ends inside its identifier, and the return code for it. */
  lemma ShortAckReportsSuccess()
    ensures var s: seq<byte> := [0x40, 1, 0];
            && ParseFrame(s) == Got(Frame(0x40, [0]), 3) && ReadAck(Frame(0x40, [0])).TooShort?
            && AckRc(ReadAck(See(s).frame), See(s).lengthRc) == 1
  {
    var s: seq<byte> := [0x40, 1, 0];
    assert s[1..][0] == 1;
    assert ParseLength(s[1..], 4) == Got(1, 1);
    assert s[2..3] == [0];
    SeesWholePacket(s);
  }

  /** MQTTDeserialize_ack, on any memory: the failure path again returns the number of length bytes. */
  method DeserializeAck(buf: seq<byte>) returns (rc: int, packetType: nat, dup: nat, packetId: uint16)
    ensures var r := ReadAck(See(buf).frame);
            && rc == AckRc(r, See(buf).lengthRc)
            && (r.Ack? ==> r == Ack(packetType, dup, packetId))
  {
    hide ParseLength, DecodedLength;
    packetType, dup, packetId := Peek(buf, 0) / 16, Peek(buf, 0) / 8 % 2, 0;
    var n, myLen, _ := DecodeFrom(View(buf, 1, 4));
    rc := n;
    var cur, end := 1 + n, 1 + n + myLen;
    if end - cur < 2 {
      return;
    }
    packetId := IntOf(Peek(buf, cur), Peek(buf, cur + 1));
    rc := 1;
  }

  lemma AckRecoveredIff(packetType: byte, dup: byte, packetId: uint16)
    ensures var f := Frame(PahoSerialize.AckHeader(packetType, dup), IntBytes(packetId));
            ReadAck(f) == Ack(packetType, dup, packetId) <==> packetType < 16 && dup <= 1
  {
  }
}
