/**
 The Paho serializers: CONNECT, PUBLISH, the acknowledgements, SUBSCRIBE and UNSUBSCRIBE. Each
 compares its size estimate with buflen, declares a remaining length and writes a body. The
 array `buf` is the memory from the buffer on, of which buflen bytes are the caller's; whether
 the serializer stays inside them, and whether the body has the declared length, is proved.
 */
module PahoSerialize {
  import opened Bytes
  import opened Varint
  import opened Frames
  import opened PahoPacket

  /** What a serializer writes past its size check: header, declared remaining length, body. */
  datatype Draft = Draft(header: byte, declared: nat, body: seq<byte>) {
    function Bytes(): seq<byte> {
      [header] + Encode(declared) + body
    }

    /** The body is as long as declared, and MQTT allows the length. */
    predicate WellFormed() {
      declared == |body| <= MAX_REMAINING_LENGTH
    }
  }

  /** There is memory for what the serializer writes. */
  predicate HasRoom(d: Draft, buflen: int, memory: nat) {
    PassesSizeCheck(d.declared, buflen) ==> |d.Bytes()| <= memory
  }

  /** The outcome of a serializer: the draft and nothing else, or a refusal. */
  ghost predicate Serialized(d: Draft, buflen: int, before: seq<byte>, after: seq<byte>, rc: int) {
    if PassesSizeCheck(d.declared, buflen) then rc == |d.Bytes()| && Appended(before, 0, d.Bytes(), after)
    else rc == BUFFER_TOO_SHORT && after == before
  }

  /** A well-formed draft is a frame, and the size check keeps it inside the buffer. */
  lemma WellFormedIsFrame(d: Draft, buflen: int)
    requires d.WellFormed() && PassesSizeCheck(d.declared, buflen)
    ensures d.Bytes() == FrameBytes(Frame(d.header, d.body)) && |d.Bytes()| <= buflen
  {
    PacketLenIsTrueLenOrOneMore(d.declared);
  }

  /**
   A serializer stays inside every buffer that passes its size check exactly when the body is
   not longer than declared, give or take the byte by which MQTTPacket_len errs.
   */
  lemma StaysInsideIff(d: Draft)
    requires d.declared < TWO_32
    ensures (forall buflen: int :: PassesSizeCheck(d.declared, buflen) ==> |d.Bytes()| <= buflen)
       <==> |d.body| <= d.declared
                        + (if d.declared in {127, 16383, 2097150, 2097151} then 1
                           else if d.declared > MAX_REMAINING_LENGTH then -1 else 0)
  {
    PacketLenIsTrueLenOrOneMore(d.declared);
    assert PassesSizeCheck(d.declared, PacketLen(d.declared));
  }

  method WriteFixedHeader(buf: array<byte>, header: byte, remLen: nat) returns (p: nat)
    requires 1 + |Encode(remLen)| <= buf.Length
    modifies buf
    ensures p == 1 + |Encode(remLen)| && Appended(old(buf[..]), 0, [header] + Encode(remLen), buf[..])
  {
    hide Encode;
    ghost var s0 := buf[..];
    p := WriteChar(buf, 0, header);
    ghost var s1 := buf[..];
    var n := EncodeInto(buf, p, remLen);
    AppendedTwice(s0, 0, [header], s1, Encode(remLen), buf[..]);
    p := p + n;
  }

  lemma DraftComplete(s0: seq<byte>, d: Draft, s1: seq<byte>, s2: seq<byte>, p: nat, buflen: int)
    requires Appended(s0, 0, [d.header] + Encode(d.declared), s1)
    requires p == 1 + |Encode(d.declared)| && Appended(s1, p, d.body, s2)
    requires PassesSizeCheck(d.declared, buflen)
    ensures Serialized(d, buflen, s0, s2, p + |d.body|)
  {
    AppendedTwice(s0, 0, [d.header] + Encode(d.declared), s1, d.body, s2);
  }

  lemma SizeCheckFails(d: Draft, buflen: int, s: seq<byte>)
    ensures !PassesSizeCheck(d.declared, buflen) ==> Serialized(d, buflen, s, s, BUFFER_TOO_SHORT)
  {
  }

  // ----- PUBLISH -----

  /** The C arguments as they come; the header's bit fields keep only their low bits. */
  datatype Publish = Publish(dup: byte, qos: int, retained: byte, packetId: uint16,
                             topic: MqttString, payload: seq<byte>)

  function PublishHeader(m: Publish): byte {
    0x30 + 8 * (m.dup % 2) + 2 * (m.qos % 4) + m.retained % 2
  }

  function PublishBody(m: Publish): seq<byte>
    requires m.topic.Sound()
  {
    TextBytes(m.topic.Text()) + (if m.qos > 0 then IntBytes(m.packetId) else []) + m.payload
  }

  /** MQTTSerialize_publishLength */
  function PublishLength(qos: int, topic: MqttString, payloadLen: nat): nat {
    2 + topic.Strlen() + payloadLen + if qos > 0 then 2 else 0
  }

  method WriteId(buf: array<byte>, ptr: nat, qos: int, id: uint16) returns (p: nat)
    requires ptr + (if qos > 0 then 2 else 0) <= buf.Length
    modifies buf
    ensures p == ptr + if qos > 0 then 2 else 0
    ensures Appended(old(buf[..]), ptr, if qos > 0 then IntBytes(id) else [], buf[..])
  {
    hide Appended, IntBytes;
    p := ptr;
    StartAppend(buf[..], ptr);
    if qos > 0 {
      p := WriteInt(buf, ptr, id);
    }
  }

  method WritePublishBody(buf: array<byte>, ptr: nat, m: Publish) returns (p: nat)
    requires m.topic.Sound() && ptr + |PublishBody(m)| <= buf.Length
    modifies buf
    ensures p == ptr + |PublishBody(m)| && Appended(old(buf[..]), ptr, PublishBody(m), buf[..])
  {
    hide Appended, TextBytes, IntBytes;
    ghost var s0, topic := buf[..], TextBytes(m.topic.Text());
    ghost var id := if m.qos > 0 then IntBytes(m.packetId) else [];
    p := WriteMqttString(buf, ptr, m.topic);
    ghost var s1 := buf[..];
    p := WriteId(buf, p, m.qos, m.packetId);
    ghost var s2 := buf[..];
    AppendedTwice(s0, ptr, topic, s1, id, s2);
    p := Memcpy(buf, p, m.payload);
    AppendedTwice(s0, ptr, topic + id, s2, m.payload, buf[..]);
  }

  function PublishDraft(m: Publish): Draft
    requires m.topic.Sound()
  {
    Draft(PublishHeader(m), PublishLength(m.qos, m.topic, |m.payload|), PublishBody(m))
  }

  method SerializePublish(buf: array<byte>, buflen: int, m: Publish) returns (rc: int)
    requires m.topic.Sound() && HasRoom(PublishDraft(m), buflen, buf.Length)
    modifies buf
    ensures Serialized(PublishDraft(m), buflen, old(buf[..]), buf[..], rc)
  {
    hide Appended, Serialized, Encode, PublishBody;
    var remLen := PublishLength(m.qos, m.topic, |m.payload|);
    ghost var d := PublishDraft(m);
    SizeCheckFails(d, buflen, buf[..]);
    if PacketLen(remLen) > buflen {
      return BUFFER_TOO_SHORT;
    }
    ghost var s0 := buf[..];
    var p := WriteFixedHeader(buf, PublishHeader(m), remLen);
    ghost var s1, body := buf[..], p;
    p := WritePublishBody(buf, p, m);
    DraftComplete(s0, d, s1, buf[..], body, buflen);
    rc := p;
  }

  /** The declared length of PUBLISH is the written one exactly when the two lengths of its topic agree. */
  lemma PublishLengthRightIff(m: Publish)
    requires m.topic.Sound()
    ensures PublishDraft(m).declared == |PublishDraft(m).body| <==> m.topic.Consistent()
  {
  }

  // ----- acknowledgements -----

  const PUBREL: byte := 6

  function AckHeader(packetType: byte, dup: byte): byte {
    packetType % 16 * 16 + 8 * (dup % 2) + if packetType == PUBREL then 2 else 0
  }

  method SerializeAck(buf: array<byte>, buflen: int, packetType: byte, dup: byte, packetId: uint16) returns (rc: int)
    requires buflen <= buf.Length
    modifies buf
    ensures Serialized(Draft(AckHeader(packetType, dup), 2, IntBytes(packetId)), buflen, old(buf[..]), buf[..], rc)
  {
    if buflen < 4 {
      return BUFFER_TOO_SHORT;
    }
    ghost var s0 := buf[..];
    var p := WriteFixedHeader(buf, AckHeader(packetType, dup), 2);
    ghost var s1, body := buf[..], p;
    hide IntBytes, Encode, AckHeader;
    p := WriteInt(buf, p, packetId);
    DraftComplete(s0, Draft(AckHeader(packetType, dup), 2, IntBytes(packetId)), s1, buf[..], body, buflen);
    rc := p;
  }

  // ----- SUBSCRIBE and UNSUBSCRIBE -----

  /** A topic filter and, for SUBSCRIBE, the one byte of its requested QoS. */
  datatype Filter = Filter(topic: MqttString, options: seq<byte>)

  predicate FiltersOk(fs: seq<Filter>) {
    forall i :: 0 <= i < |fs| ==> fs[i].topic.Sound() && |fs[i].options| <= 1
  }

  function FilterBytes(f: Filter): (s: seq<byte>)
    requires f.topic.Sound()
    ensures |s| == 2 + |f.topic.Text()| + |f.options|
  {
    TextBytes(f.topic.Text()) + f.options
  }

  function FiltersBytes(fs: seq<Filter>): seq<byte>
    requires FiltersOk(fs)
  {
    if fs == [] then [] else FiltersBytes(fs[..|fs| - 1]) + FilterBytes(fs[|fs| - 1])
  }

  lemma NoFilters()
    ensures FiltersBytes([]) == []
  {
  }

  lemma FiltersStep(fs: seq<Filter>, i: nat)
    requires FiltersOk(fs) && i < |fs|
    ensures FiltersBytes(fs[..i + 1]) == FiltersBytes(fs[..i]) + FilterBytes(fs[i])
  {
    assert fs[..i + 1][..i] == fs[..i];
  }

  lemma {:induction false} FiltersMonotone(fs: seq<Filter>, i: nat)
    requires FiltersOk(fs) && i <= |fs|
    ensures |FiltersBytes(fs[..i])| <= |FiltersBytes(fs)|
    decreases |fs| - i
  {
    if i < |fs| {
      FiltersMonotone(fs, i + 1);
      FiltersStep(fs, i);
    } else {
      assert fs[..i] == fs;
    }
  }

  function FiltersDeclared(fs: seq<Filter>): nat {
    if fs == [] then 0
    else
      var f := fs[|fs| - 1];
      FiltersDeclared(fs[..|fs| - 1]) + 2 + f.topic.Strlen() + |f.options|
  }

  /** MQTTSerialize_subscribeLength and MQTTSerialize_unsubscribeLength. */
  method FiltersLength(fs: seq<Filter>) returns (len: nat)
    ensures len == 2 + FiltersDeclared(fs)
  {
    len := 2;
    for i := 0 to |fs|
      invariant len == 2 + FiltersDeclared(fs[..i])
    {
      assert fs[..i + 1][..i] == fs[..i];
      len := len + 2 + fs[i].topic.Strlen() + |fs[i].options|;
    }
    assert fs[..|fs|] == fs;
  }

  /** Where the two lengths of every topic agree, the measuring loop gives what the writing loop needs. */
  lemma {:induction false} FiltersDeclaredRight(fs: seq<Filter>)
    requires FiltersOk(fs) && forall i :: 0 <= i < |fs| ==> fs[i].topic.Consistent()
    ensures FiltersDeclared(fs) == |FiltersBytes(fs)|
  {
    if fs != [] { FiltersDeclaredRight(fs[..|fs| - 1]); }
  }

  method WriteFilter(buf: array<byte>, ptr: nat, f: Filter) returns (p: nat)
    requires f.topic.Sound() && |f.options| <= 1 && ptr + |FilterBytes(f)| <= buf.Length
    modifies buf
    ensures p == ptr + |FilterBytes(f)| && Appended(old(buf[..]), ptr, FilterBytes(f), buf[..])
  {
    ghost var s0 := buf[..];
    p := WriteMqttString(buf, ptr, f.topic);
    ghost var s1 := buf[..];
    hide TextBytes;
    if |f.options| == 1 {
      assert f.options == [f.options[0]];
      p := WriteChar(buf, p, f.options[0]);
    } else {
      assert f.options == [];
      StartAppend(s1, p);
    }
    AppendedTwice(s0, ptr, TextBytes(f.topic.Text()), s1, f.options, buf[..]);
  }

  method WriteFilters(buf: array<byte>, ptr: nat, fs: seq<Filter>) returns (p: nat)
    requires FiltersOk(fs) && ptr + |FiltersBytes(fs)| <= buf.Length
    modifies buf
    ensures p == ptr + |FiltersBytes(fs)| && Appended(old(buf[..]), ptr, FiltersBytes(fs), buf[..])
  {
    hide Appended, FiltersBytes, FilterBytes;
    ghost var s0 := buf[..];
    p := ptr;
    StartAppend(s0, ptr);
    NoFilters();
    for i := 0 to |fs|
      invariant p == ptr + |FiltersBytes(fs[..i])|
      invariant Appended(s0, ptr, FiltersBytes(fs[..i]), buf[..])
    {
      FiltersStep(fs, i);
      FiltersMonotone(fs, i + 1);
      ghost var s1 := buf[..];
      p := WriteFilter(buf, p, fs[i]);
      AppendedTwice(s0, ptr, FiltersBytes(fs[..i]), s1, FilterBytes(fs[i]), buf[..]);
    }
    assert fs[..|fs|] == fs;
  }

  const SUBSCRIBE: byte := 8
  const UNSUBSCRIBE: byte := 10

  function FiltersDraft(packetType: byte, dup: byte, packetId: uint16, fs: seq<Filter>): Draft
    requires packetType in {SUBSCRIBE, UNSUBSCRIBE} && FiltersOk(fs)
  {
    Draft(16 * packetType as int + 8 * (dup % 2) + 2, 2 + FiltersDeclared(fs), IntBytes(packetId) + FiltersBytes(fs))
  }

  /** MQTTSerialize_subscribe (each filter with its QoS byte) and MQTTSerialize_unsubscribe (none). */
  method SerializeFilters(buf: array<byte>, buflen: int, packetType: byte, dup: byte, packetId: uint16, fs: seq<Filter>)
    returns (rc: int)
    requires packetType in {SUBSCRIBE, UNSUBSCRIBE} && FiltersOk(fs)
    requires HasRoom(FiltersDraft(packetType, dup, packetId, fs), buflen, buf.Length)
    modifies buf
    ensures Serialized(FiltersDraft(packetType, dup, packetId, fs), buflen, old(buf[..]), buf[..], rc)
  {
    hide IntBytes, Encode, FiltersBytes, FiltersDeclared, Appended, Serialized;
    var remLen := FiltersLength(fs);
    ghost var d := FiltersDraft(packetType, dup, packetId, fs);
    SizeCheckFails(d, buflen, buf[..]);
    if PacketLen(remLen) > buflen {
      return BUFFER_TOO_SHORT;
    }
    ghost var s0 := buf[..];
    var p := WriteFixedHeader(buf, 16 * packetType as int + 8 * (dup % 2) + 2, remLen);
    ghost var s1, body := buf[..], p;
    p := WriteInt(buf, p, packetId);
    ghost var s2 := buf[..];
    p := WriteFilters(buf, p, fs);
    AppendedTwice(s1, body, IntBytes(packetId), s2, FiltersBytes(fs), buf[..]);
    DraftComplete(s0, d, s1, buf[..], body, buflen);
    rc := p;
  }

  // ----- CONNECT -----

  datatype ConnectData = ConnectData(version: byte, clientId: MqttString, keepAlive: uint16, cleanSession: byte,
                                     willFlag: bool, willTopic: MqttString, willMessage: MqttString,
                                     willRetained: byte, willQos: byte, username: MqttString, password: MqttString)

  /** Every string that will be written is sound. */
  predicate ConnectStringsSound(o: ConnectData) {
    && o.clientId.Sound()
    && (o.willFlag ==> o.willTopic.Sound() && o.willMessage.Sound())
    && (o.username.Given() ==> o.username.Sound())
    && (o.password.Given() ==> o.password.Sound())
  }

  /** And its two lengths agree. */
  predicate ConnectStringsOk(o: ConnectData) {
    && o.clientId.Consistent()
    && (o.willFlag ==> o.willTopic.Consistent() && o.willMessage.Consistent())
    && (o.username.Given() ==> o.username.Consistent())
    && (o.password.Given() ==> o.password.Consistent())
  }

  function ConnectFlags(o: ConnectData): byte {
    2 * (o.cleanSession % 2)
    + (if o.willFlag then 4 + 8 * (o.willQos % 4) + 32 * (o.willRetained % 2) else 0)
    + 64 * Bit(o.password.Given()) + 128 * Bit(o.username.Given())
  }

  /** Protocol name and level: anything but version 4 is written as 3.1. */
  function Protocol(o: ConnectData): (s: seq<byte>)
    ensures |s| == if o.version == 4 then 7 else 9
  {
    if o.version == 4 then TextBytes(MQTT) + [4] else TextBytes(MQISDP) + [3]
  }

  function TextIf(given: bool, s: MqttString): seq<byte>
    requires given ==> s.Sound()
  {
    if given then TextBytes(s.Text()) else []
  }

  /** Protocol, flags and keep-alive. */
  function ConnectFixed(o: ConnectData): (s: seq<byte>)
    ensures |s| == if o.version == 4 then 10 else 12
  {
    Protocol(o) + [ConnectFlags(o)] + IntBytes(o.keepAlive)
  }

  /** Client identifier, will topic and message, user name, password (section 3.1.3 of MQTT 3.1.1). */
  function ConnectTexts(o: ConnectData): seq<byte>
    requires ConnectStringsSound(o)
  {
    TextIf(true, o.clientId) + TextIf(o.willFlag, o.willTopic) + TextIf(o.willFlag, o.willMessage)
    + TextIf(o.username.Given(), o.username) + TextIf(o.password.Given(), o.password)
  }

  function ConnectBody(o: ConnectData): seq<byte>
    requires ConnectStringsSound(o)
  {
    ConnectFixed(o) + ConnectTexts(o)
  }

  /** MQTTSerialize_connectLength */
  function ConnectLength(o: ConnectData): nat {
    (if o.version == 3 then 12 else if o.version == 4 then 10 else 0)
    + o.clientId.Strlen() + 2
    + (if o.willFlag then o.willTopic.Strlen() + 2 + o.willMessage.Strlen() + 2 else 0)
    + (if o.username.Given() then o.username.Strlen() + 2 else 0)
    + (if o.password.Given() then o.password.Strlen() + 2 else 0)
  }

  /** The declared length is the written one exactly for versions 3 and 4; otherwise it is 12 short. */
  lemma ConnectLengthRightIff(o: ConnectData)
    requires ConnectStringsOk(o)
    ensures ConnectLength(o) == |ConnectBody(o)| <==> o.version in {3, 4}
    ensures o.version !in {3, 4} ==> |ConnectBody(o)| == ConnectLength(o) + 12
  {
  }

  method WriteTextIf(buf: array<byte>, ptr: nat, given: bool, s: MqttString,
                     ghost start: nat, ghost s0: seq<byte>, ghost done: seq<byte>)
    returns (p: nat)
    requires (given ==> s.Sound()) && ptr + |TextIf(given, s)| <= buf.Length
    requires Appended(s0, start, done, buf[..]) && ptr == start + |done|
    modifies buf
    ensures p == ptr + |TextIf(given, s)|
    ensures Appended(s0, start, done + TextIf(given, s), buf[..])
  {
    hide Appended, TextBytes;
    ghost var s1 := buf[..];
    p := ptr;
    if given {
      p := WriteMqttString(buf, ptr, s);
      AppendedTwice(s0, start, done, s1, TextIf(given, s), buf[..]);
    } else {
      assert done + TextIf(given, s) == done;
    }
  }

  method WriteProtocol(buf: array<byte>, ptr: nat, o: ConnectData) returns (p: nat)
    requires ptr + |Protocol(o)| <= buf.Length
    modifies buf
    ensures p == ptr + |Protocol(o)| && Appended(old(buf[..]), ptr, Protocol(o), buf[..])
  {
    hide Appended, TextBytes;
    ghost var s0 := buf[..];
    if o.version == 4 {
      p := WriteText(buf, ptr, MQTT);
      ghost var s1 := buf[..];
      p := WriteChar(buf, p, 4);
      AppendedTwice(s0, ptr, TextBytes(MQTT), s1, [4], buf[..]);
    } else {
      p := WriteText(buf, ptr, MQISDP);
      ghost var s1 := buf[..];
      p := WriteChar(buf, p, 3);
      AppendedTwice(s0, ptr, TextBytes(MQISDP), s1, [3], buf[..]);
    }
  }

  method WriteConnectFixed(buf: array<byte>, ptr: nat, o: ConnectData) returns (p: nat)
    requires ptr + |ConnectFixed(o)| <= buf.Length
    modifies buf
    ensures p == ptr + |ConnectFixed(o)| && Appended(old(buf[..]), ptr, ConnectFixed(o), buf[..])
  {
    hide Appended, Protocol, IntBytes;
    var flags := ComputeFlags(o);
    hide ConnectFlags;
    ghost var s0 := buf[..];
    p := WriteProtocol(buf, ptr, o);
    ghost var s1 := buf[..];
    p := WriteChar(buf, p, flags);
    AppendedTwice(s0, ptr, Protocol(o), s1, [flags], buf[..]);
    ghost var s2 := buf[..];
    p := WriteInt(buf, p, o.keepAlive);
    AppendedTwice(s0, ptr, Protocol(o) + [flags], s2, IntBytes(o.keepAlive), buf[..]);
  }

  method ComputeFlags(o: ConnectData) returns (flags: byte)
    ensures flags == ConnectFlags(o)
  {
    flags := 2 * (o.cleanSession % 2);
    if o.willFlag {
      flags := flags + 4 + 8 * (o.willQos % 4) + 32 * (o.willRetained % 2);
    }
    if o.username.Given() {
      flags := flags + 128;
    }
    if o.password.Given() {
      flags := flags + 64;
    }
  }

  method WriteConnectTexts(buf: array<byte>, ptr: nat, o: ConnectData) returns (p: nat)
    requires ConnectStringsSound(o) && ptr + |ConnectTexts(o)| <= buf.Length
    modifies buf
    ensures p == ptr + |ConnectTexts(o)| && Appended(old(buf[..]), ptr, ConnectTexts(o), buf[..])
  {
    hide Appended, TextIf;
    ghost var s0 := buf[..];
    StartAppend(s0, ptr);
    p := WriteTextIf(buf, ptr, true, o.clientId, ptr, s0, []);
    ghost var done := TextIf(true, o.clientId);
    assert [] + done == done;
    p := WriteTextIf(buf, p, o.willFlag, o.willTopic, ptr, s0, done);
    done := done + TextIf(o.willFlag, o.willTopic);
    p := WriteTextIf(buf, p, o.willFlag, o.willMessage, ptr, s0, done);
    done := done + TextIf(o.willFlag, o.willMessage);
    p := WriteTextIf(buf, p, o.username.Given(), o.username, ptr, s0, done);
    done := done + TextIf(o.username.Given(), o.username);
    p := WriteTextIf(buf, p, o.password.Given(), o.password, ptr, s0, done);
  }

  function ConnectDraft(o: ConnectData): Draft
    requires ConnectStringsSound(o)
  {
    Draft(0x10, ConnectLength(o), ConnectBody(o))
  }

  method SerializeConnect(buf: array<byte>, buflen: int, o: ConnectData) returns (rc: int)
    requires ConnectStringsSound(o) && HasRoom(ConnectDraft(o), buflen, buf.Length)
    modifies buf
    ensures Serialized(ConnectDraft(o), buflen, old(buf[..]), buf[..], rc)
  {
    hide Appended, Serialized, Encode, ConnectFixed, ConnectTexts, ConnectLength;
    var len := ConnectLength(o);
    ghost var d := ConnectDraft(o);
    SizeCheckFails(d, buflen, buf[..]);
    if PacketLen(len) > buflen {
      return BUFFER_TOO_SHORT;
    }
    ghost var s0 := buf[..];
    var p := WriteFixedHeader(buf, 0x10, len);
    ghost var s1, body := buf[..], p;
    p := WriteConnectFixed(buf, p, o);
    ghost var s2 := buf[..];
    p := WriteConnectTexts(buf, p, o);
    AppendedTwice(s1, body, ConnectFixed(o), s2, ConnectTexts(o), buf[..]);
    DraftComplete(s0, d, s1, buf[..], body, buflen);
    rc := p;
  }
}
