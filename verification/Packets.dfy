/**
 The packets a libmosquitto client builds for MQTT 3.1 and 3.1.1. Every send function ends in
 Handover, whose precondition says that the packet is filled exactly: pos == packet_length
 when packet__queue is called.
 */
module Packets {
  import opened Sequences
  import opened Bytes
  import opened Varint
  import opened Frames
  import opened PacketBuffer

  /** The packet as packet__queue receives it. */
  method Handover(p: Packet) returns (bytes: seq<byte>)
    requires p.Valid() && p.pos == p.packetLength
    ensures bytes == p.Written()
  {
    bytes := p.payload[..];
  }

  // ----- send__command_with_mid -----

  /** PUBACK, PUBREC, PUBREL and PUBCOMP, without reason code or properties. */
  method SendCommandWithMid(command: byte, mid: uint16, dup: bool) returns (bytes: seq<byte>)
    requires dup ==> command / 8 % 2 == 0 && command + 8 < 256
    ensures bytes == FrameBytes(Frame(if dup then command + 8 else command, Uint16Bytes(mid)))
  {
    var c := if dup then command + 8 else command;
    var p := new Packet(c, 2);
    var rc := p.Alloc();
    p.WriteUint16(mid);
    bytes := Handover(p);
  }

  /** send__puback, byte for byte (section 3.4 of MQTT 3.1.1). */
  method SendPuback(mid: uint16) returns (bytes: seq<byte>)
    ensures bytes == [0x40, 2, mid / 256, mid % 256]
  {
    bytes := SendCommandWithMid(0x40, mid, false);
  }

  /** send__pubrec (section 3.5) */
  method SendPubrec(mid: uint16) returns (bytes: seq<byte>)
    ensures bytes == [0x50, 2, mid / 256, mid % 256]
  {
    bytes := SendCommandWithMid(0x50, mid, false);
  }

  /** send__pubrel, with its reserved flag (section 3.6). */
  method SendPubrel(mid: uint16) returns (bytes: seq<byte>)
    ensures bytes == [0x62, 2, mid / 256, mid % 256]
  {
    bytes := SendCommandWithMid(0x60 + 2, mid, false);
  }

  /** send__pubcomp (section 3.7) */
  method SendPubcomp(mid: uint16) returns (bytes: seq<byte>)
    ensures bytes == [0x70, 2, mid / 256, mid % 256]
  {
    bytes := SendCommandWithMid(0x70, mid, false);
  }

  // ----- send__real_publish -----

  datatype PublishFields = PublishFields(dup: bool, qos: nat, retain: bool, mid: uint16,
                                         topic: seq<byte>, payload: seq<byte>)

  function PublishCommand(f: PublishFields): byte
    requires f.qos <= 2
  {
    0x30 + 8 * Bit(f.dup) + 2 * f.qos + Bit(f.retain)
  }

  function PublishBody(f: PublishFields): seq<byte>
    requires |f.topic| < 0x1_0000
  {
    StringBytes(f.topic) + (if f.qos > 0 then Uint16Bytes(f.mid) else []) + f.payload
  }

  /** A null topic is the empty one: both write a zero length. */
  method SendPublish(f: PublishFields) returns (rc: Result<seq<byte>>)
    requires f.qos <= 2 && |f.topic| < 0x1_0000 && |f.payload| <= MAX_REMAINING_LENGTH
    ensures rc.Ok? <==> |PublishBody(f)| <= MAX_REMAINING_LENGTH
    ensures rc.Ok? ==> rc.value == FrameBytes(Frame(PublishCommand(f), PublishBody(f)))
  {
    var packetlen := 2 + |f.topic| + |f.payload|;
    if f.qos > 0 {
      packetlen := packetlen + 2;
    }
    assert packetlen == |PublishBody(f)|;
    var p := new Packet(PublishCommand(f), packetlen);
    var ok := p.Alloc();
    if ok.Err? {
      return Err(ErrPayloadSize);
    }
    Associate(p.Written(), StringBytes(f.topic), if f.qos > 0 then Uint16Bytes(f.mid) else [], f.payload);
    hide StringBytes, Encode;
    p.WriteString(f.topic);
    if f.qos > 0 {
      p.WriteUint16(f.mid);
    }
    if |f.payload| > 0 {
      p.WriteBytes(f.payload);
    }
    var bytes := Handover(p);
    return Ok(bytes);
  }

  // ----- send__subscribe, send__unsubscribe -----

  /** The payload bytes of the topics; `extra` is 1 where each is followed by a QoS byte. */
  function TopicsLength(topics: seq<seq<byte>>, extra: nat): nat {
    if topics == [] then 0 else TopicsLength(topics[..|topics| - 1], extra) + 2 + |topics[|topics| - 1]| + extra
  }

  ghost predicate TopicsShort(topics: seq<seq<byte>>) {
    forall i :: 0 <= i < |topics| ==> |topics[i]| < 0x1_0000
  }

  ghost function TopicsBytes(topics: seq<seq<byte>>, options: seq<byte>): (r: seq<byte>)
    requires TopicsShort(topics)
    ensures |r| == TopicsLength(topics, |options|)
  {
    if topics == [] then []
    else TopicsBytes(topics[..|topics| - 1], options) + StringBytes(topics[|topics| - 1]) + options
  }

  /** The first loop of both: the length, modulo 2^32 as uint32_t has it; an overlong topic is refused. */
  method MeasureTopics(topics: seq<seq<byte>>, extra: nat) returns (packetlen: uint32, ok: bool)
    requires extra <= 1
    ensures ok <==> TopicsShort(topics)
    ensures ok ==> packetlen == (2 + TopicsLength(topics, extra)) % TWO_32
  {
    packetlen, ok := 2, true;
    for i := 0 to |topics|
      invariant forall k :: 0 <= k < i ==> |topics[k]| < 0x1_0000
      invariant packetlen == (2 + TopicsLength(topics[..i], extra)) % TWO_32
    {
      if |topics[i]| > 0xFFFF {
        return 0, false;
      }
      assert topics[..i + 1][..i] == topics[..i];
      AddModulo(2 + TopicsLength(topics[..i], extra), 2 + |topics[i]| + extra);
      packetlen := (packetlen + 2 + |topics[i]| + extra) % TWO_32;
    }
    assert topics[..|topics|] == topics;
  }

  lemma AddModulo(a: nat, b: nat)
    ensures (a % TWO_32 + b) % TWO_32 == (a + b) % TWO_32
  {
    var q := a / TWO_32;
    assert a == q * TWO_32 + a % TWO_32;
    assert (a % TWO_32 + b + q * TWO_32) % TWO_32 == (a % TWO_32 + b) % TWO_32 by { ModuloPeriodic(a % TWO_32 + b, q); }
  }

  lemma {:induction false} ModuloPeriodic(n: nat, q: nat)
    ensures (n + q * TWO_32) % TWO_32 == n % TWO_32
  {
    if q > 0 {
      ModuloPeriodic(n, q - 1);
      assert n + q * TWO_32 == n + (q - 1) * TWO_32 + TWO_32;
    }
  }

  /**
   send__subscribe (options is the one QoS byte) and send__unsubscribe (options empty). The
   length is a 32-bit sum; where it has wrapped to something that can be allocated, the writes
   run into the assertion of packet__write_byte or packet__write_bytes.
   */
  method SendTopics(command: byte, topics: seq<seq<byte>>, options: seq<byte>, mid: uint16)
    returns (rc: Result<seq<byte>>)
    requires |options| <= 1
    ensures var total := 2 + TopicsLength(topics, |options|);
            && (rc == Err(ErrInval) <==> !TopicsShort(topics))
            && (rc == Err(ErrPayloadSize) <==> TopicsShort(topics) && total % TWO_32 > MAX_REMAINING_LENGTH)
            && (rc == Err(AssertionFailed)
                <==> TopicsShort(topics) && total % TWO_32 <= MAX_REMAINING_LENGTH && total >= TWO_32)
            && (rc.Ok? <==> TopicsShort(topics) && total <= MAX_REMAINING_LENGTH)
    ensures rc.Ok? ==> rc.value == FrameBytes(Frame(command, Uint16Bytes(mid) + TopicsBytes(topics, options)))
  {
    hide TopicsBytes, TopicsLength, TopicsShort, Encode;
    var packetlen, valid := MeasureTopics(topics, |options|);
    if !valid {
      return Err(ErrInval);
    }
    var p := new Packet(command, packetlen);
    var ok := p.Alloc();
    if ok.Err? {
      return Err(ErrPayloadSize);
    }
    Regroup(p.Written(), Uint16Bytes(mid), TopicsBytes(topics, options));
    var fits := p.TryUint16(mid);
    if fits {
      var n;
      fits, n := WriteTopics(p, topics, options);
    }
    if !fits {
      return Err(AssertionFailed);
    }
    var bytes := Handover(p);
    return Ok(bytes);
  }

  /** send__subscribe, the QoS byte the same for every topic. */
  method SendSubscribe(topics: seq<seq<byte>>, qos: byte, mid: uint16) returns (rc: Result<seq<byte>>)
    ensures rc.Ok? <==> TopicsShort(topics) && 2 + TopicsLength(topics, 1) <= MAX_REMAINING_LENGTH
    ensures rc.Ok? ==> rc.value == FrameBytes(Frame(0x82, Uint16Bytes(mid) + TopicsBytes(topics, [qos])))
  {
    hide TopicsBytes, TopicsLength, TopicsShort, Encode;
    rc := SendTopics(0x82, topics, [qos], mid);
  }

  /** send__unsubscribe */
  method SendUnsubscribe(topics: seq<seq<byte>>, mid: uint16) returns (rc: Result<seq<byte>>)
    ensures rc.Ok? <==> TopicsShort(topics) && 2 + TopicsLength(topics, 0) <= MAX_REMAINING_LENGTH
    ensures rc.Ok? ==> rc.value == FrameBytes(Frame(0xA2, Uint16Bytes(mid) + TopicsBytes(topics, [])))
  {
    hide TopicsBytes, TopicsLength, TopicsShort, Encode;
    rc := SendTopics(0xA2, topics, [], mid);
  }

  /** One turn of the second loop; false when one of its writes trips its assertion. */
  method WriteTopic(p: Packet, topic: seq<byte>, options: seq<byte>) returns (ok: bool)
    requires p.Valid() && |options| <= 1 && |topic| < 0x1_0000
    modifies p`pos, p.payload
    ensures p.Valid() && (ok <==> old(p.pos) + 2 + |topic| + |options| <= p.packetLength)
    ensures ok ==> p.pos == old(p.pos) + 2 + |topic| + |options|
                   && p.Written() == old(p.Written()) + StringBytes(topic) + options
  {
    ok := p.TryString(topic);
    if ok && |options| == 1 {
      assert options == [options[0]];
      ok := p.TryByte(options[0]);
    }
  }

  lemma TopicsStep(topics: seq<seq<byte>>, i: nat, options: seq<byte>, w: seq<byte>)
    requires i < |topics| && TopicsShort(topics)
    ensures TopicsLength(topics[..i + 1], |options|)
      == TopicsLength(topics[..i], |options|) + 2 + |topics[i]| + |options|
    ensures w + TopicsBytes(topics[..i + 1], options)
      == w + TopicsBytes(topics[..i], options) + StringBytes(topics[i]) + options
  {
    hide TopicsBytes, TopicsLength, StringBytes, TopicsShort;
    ShortPrefix(topics, i);
    TopicsLast(topics[..i + 1], options);
    Associate(w, TopicsBytes(topics[..i], options), StringBytes(topics[i]), options);
  }

  lemma ShortPrefix(topics: seq<seq<byte>>, i: nat)
    requires i < |topics| && TopicsShort(topics)
    ensures TopicsShort(topics[..i]) && TopicsShort(topics[..i + 1]) && |topics[i]| < 0x1_0000
    ensures topics[..i + 1][..i] == topics[..i] && topics[..i + 1][i] == topics[i]
  {
  }

  lemma TopicsLast(t: seq<seq<byte>>, options: seq<byte>)
    requires t != [] && TopicsShort(t)
    ensures var n := |t| - 1;
            && TopicsLength(t, |options|) == TopicsLength(t[..n], |options|) + 2 + |t[n]| + |options|
            && TopicsBytes(t, options) == TopicsBytes(t[..n], options) + StringBytes(t[n]) + options
  {
  }

  lemma Associate(w: seq<byte>, a: seq<byte>, b: seq<byte>, c: seq<byte>)
    ensures w + (a + b + c) == w + a + b + c
  {
  }

  /** The second loop: all topics, or those before the first that does not fit. */
  method WriteTopics(p: Packet, topics: seq<seq<byte>>, options: seq<byte>) returns (ok: bool, n: nat)
    requires p.Valid() && |options| <= 1 && TopicsShort(topics)
    modifies p`pos, p.payload
    ensures p.Valid() && (ok <==> old(p.pos) + TopicsLength(topics, |options|) <= p.packetLength)
    ensures ok ==> p.pos == old(p.pos) + TopicsLength(topics, |options|)
                   && p.Written() == old(p.Written()) + TopicsBytes(topics, options)
    ensures !ok ==> n < |topics| && old(p.pos) + TopicsLength(topics[..n], |options|) <= p.packetLength
                    && p.packetLength < old(p.pos) + TopicsLength(topics[..n + 1], |options|)
  {
    ghost var w0 := p.Written();
    n := 0;
    while n < |topics|
      invariant n <= |topics| && p.Valid() && p.pos == old(p.pos) + TopicsLength(topics[..n], |options|)
      invariant p.Written() == w0 + TopicsBytes(topics[..n], options) && p.payload == old(p.payload)
      invariant p.packetLength == old(p.packetLength)
    {
      hide TopicsLength, TopicsBytes, StringBytes;
      TopicsStep(topics, n, options, w0);
      TopicsLengthMonotone(topics, n + 1, |options|);
      ok := WriteTopic(p, topics[n], options);
      if !ok {
        return;
      }
      n := n + 1;
    }
    assert topics[..|topics|] == topics;
    ok := true;
  }

  lemma {:induction false} TopicsLengthMonotone(topics: seq<seq<byte>>, i: nat, extra: nat)
    requires i <= |topics|
    ensures TopicsLength(topics[..i], extra) <= TopicsLength(topics, extra)
    decreases |topics| - i
  {
    if i < |topics| {
      TopicsLengthMonotone(topics, i + 1, extra);
      assert topics[..i + 1][..i] == topics[..i];
    } else {
      assert topics[..i] == topics;
    }
  }

  lemma {:induction false} RepeatedTopic(n: nat, t: seq<byte>, extra: nat)
    ensures TopicsLength(seq(n, _ => t), extra) == n * (2 + |t| + extra)
  {
    if n > 0 {
      var s := seq(n, _ => t);
      assert s[..n - 1] == seq(n - 1, _ => t);
      RepeatedTopic(n - 1, t, extra);
    }
  }

  /** 65536 topics of 65533 bytes: 2^32 + 2 bytes are announced as 2, and SendTopics trips an assertion. */
  lemma SubscribeCanWrap(t: seq<byte>)
    requires |t| == 65533
    ensures var topics := seq(65536, _ => t);
            var total := 2 + TopicsLength(topics, 1);
            TopicsShort(topics) && total == TWO_32 + 2 && total % TWO_32 == 2
  {
    RepeatedTopic(65536, t, 1);
  }

  // ----- send__connect -----

  datatype Will = Will(topic: seq<byte>, payload: seq<byte>, qos: nat, retain: bool)

  datatype Connect = Connect(v311: bool, clientId: Option<seq<byte>>, clean: bool, keepalive: uint16,
                             will: Option<Will>, username: Option<seq<byte>>, password: Option<seq<byte>>,
                             retainAvailable: bool)

  predicate Fits(s: Option<seq<byte>>) {
    s.Some? ==> |s.value| < 0x1_0000
  }

  /** Strings of at most 65535 bytes, as their 16-bit length prefix allows. */
  predicate StringsFit(c: Connect) {
    && Fits(c.clientId) && Fits(c.username) && Fits(c.password)
    && (c.will.Some? ==> |c.will.value.topic| < 0x1_0000 && |c.will.value.payload| < 0x1_0000 && c.will.value.qos <= 2)
  }

  function OptString(s: Option<seq<byte>>): seq<byte>
    requires Fits(s)
  {
    if s.Some? then StringBytes(s.value) else []
  }

  function WillBytes(w: Option<Will>): seq<byte>
    requires w.Some? ==> |w.value.topic| < 0x1_0000 && |w.value.payload| < 0x1_0000
  {
    if w.Some? then StringBytes(w.value.topic) + StringBytes(w.value.payload) else []
  }

  function ConnectFlags(c: Connect): byte
    requires StringsFit(c)
  {
    2 * Bit(c.clean)
    + (if c.will.Some? then 4 + 8 * c.will.value.qos + 32 * Bit(c.retainAvailable && c.will.value.retain) else 0)
    + 128 * Bit(c.username.Some?) + 64 * Bit(c.password.Some?)
  }

  /** Protocol name, level, flags and keep-alive. */
  function ConnectHeader(c: Connect): (h: seq<byte>)
    requires StringsFit(c)
    ensures |h| == if c.v311 then 10 else 12
  {
    StringBytes(if c.v311 then MQTT else MQISDP) + [if c.v311 then 4 else 3, ConnectFlags(c)] + Uint16Bytes(c.keepalive)
  }

  /** Variable header and payload of CONNECT (section 3.1 of MQTT 3.1.1). */
  function ConnectBody(c: Connect): seq<byte>
    requires StringsFit(c)
  {
    ConnectHeader(c) + StringBytes(if c.clientId.Some? then c.clientId.value else [])
    + (WillBytes(c.will) + OptString(c.username) + OptString(c.password))
  }

  /** The length computation of send__connect. */
  method MeasureConnect(c: Connect) returns (len: nat)
    requires StringsFit(c)
    ensures len == |ConnectBody(c)| && len < TWO_32
  {
    var headerlen := if c.v311 then 10 else 12;
    var payloadlen := if c.clientId.Some? then 2 + |c.clientId.value| else 2;
    if c.will.Some? {
      payloadlen := payloadlen + 2 + |c.will.value.topic| + 2 + |c.will.value.payload|;
    }
    if c.username.Some? {
      payloadlen := payloadlen + 2 + |c.username.value|;
    }
    if c.password.Some? {
      payloadlen := payloadlen + 2 + |c.password.value|;
    }
    len := headerlen + payloadlen;
  }

  method WriteOptional(p: Packet, s: Option<seq<byte>>)
    requires p.Valid() && Fits(s) && p.pos + |OptString(s)| <= p.packetLength
    modifies p`pos, p.payload
    ensures p.Valid() && p.pos == old(p.pos) + |OptString(s)| && p.Written() == old(p.Written()) + OptString(s)
  {
    if s.Some? {
      p.WriteString(s.value);
    }
  }

  method WriteWill(p: Packet, w: Option<Will>)
    requires w.Some? ==> |w.value.topic| < 0x1_0000 && |w.value.payload| < 0x1_0000
    requires p.Valid() && p.pos + |WillBytes(w)| <= p.packetLength
    modifies p`pos, p.payload
    ensures p.Valid() && p.pos == old(p.pos) + |WillBytes(w)| && p.Written() == old(p.Written()) + WillBytes(w)
  {
    if w.Some? {
      hide StringBytes;
      Regroup(p.Written(), StringBytes(w.value.topic), StringBytes(w.value.payload));
      p.WriteString(w.value.topic);
      p.WriteString(w.value.payload);
    }
  }

  method WriteConnectHeader(p: Packet, c: Connect)
    requires StringsFit(c) && p.Valid() && p.pos + |ConnectHeader(c)| <= p.packetLength
    modifies p`pos, p.payload
    ensures p.Valid() && p.pos == old(p.pos) + |ConnectHeader(c)|
    ensures p.Written() == old(p.Written()) + ConnectHeader(c)
  {
    var flags := ComputeFlags(c);
    hide StringBytes, ConnectFlags;
    var name := if c.v311 then MQTT else MQISDP;
    Associate(p.Written(), StringBytes(name), [if c.v311 then 4 else 3, flags], Uint16Bytes(c.keepalive));
    p.WriteString(name);
    p.WriteByte(if c.v311 then 4 else 3);
    p.WriteByte(flags);
    p.WriteUint16(c.keepalive);
  }

  method ComputeFlags(c: Connect) returns (flags: byte)
    requires StringsFit(c)
    ensures flags == ConnectFlags(c)
  {
    flags := 2 * Bit(c.clean);
    if c.will.Some? {
      flags := flags + 8 * c.will.value.qos + 4;
      if c.retainAvailable {
        flags := flags + 32 * Bit(c.will.value.retain);
      }
    }
    if c.username.Some? { flags := flags + 128; }
    if c.password.Some? { flags := flags + 64; }
  }

  /** Client id, will, user name and password. */
  method WriteConnectPayload(p: Packet, c: Connect)
    requires StringsFit(c) && p.Valid()
    requires p.pos + |StringBytes(if c.clientId.Some? then c.clientId.value else [])| + |WillBytes(c.will)|
             + |OptString(c.username)| + |OptString(c.password)| <= p.packetLength
    modifies p`pos, p.payload
    ensures p.Valid()
    ensures p.pos == old(p.pos) + |StringBytes(if c.clientId.Some? then c.clientId.value else [])| + |WillBytes(c.will)|
             + |OptString(c.username)| + |OptString(c.password)|
    ensures p.Written() == old(p.Written()) + StringBytes(if c.clientId.Some? then c.clientId.value else [])
             + (WillBytes(c.will) + OptString(c.username) + OptString(c.password))
  {
    hide StringBytes, OptString, WillBytes;
    p.WriteString(if c.clientId.Some? then c.clientId.value else []);
    Associate(p.Written(), WillBytes(c.will), OptString(c.username), OptString(c.password));
    WriteWill(p, c.will);
    WriteOptional(p, c.username);
    WriteOptional(p, c.password);
  }

  method SendConnect(c: Connect) returns (rc: Result<seq<byte>>)
    requires StringsFit(c)
    ensures rc == Err(ErrProtocol) <==> !c.v311 && c.clientId.None?
    ensures rc == Err(ErrInval) <==> !(!c.v311 && c.clientId.None?) && c.password.Some? && c.username.None?
    ensures rc.Ok? <==> rc != Err(ErrProtocol) && rc != Err(ErrInval)
    ensures rc.Ok? ==> rc.value == FrameBytes(Frame(0x10, ConnectBody(c)))
  {
    if !c.v311 && c.clientId.None? {
      return Err(ErrProtocol);
    }
    if c.password.Some? && c.username.None? {
      return Err(ErrInval);
    }
    hide Encode, StringBytes, OptString, WillBytes, ConnectHeader;
    var len := MeasureConnect(c);
    ConnectIsShort(c);
    var p := new Packet(0x10, len);
    var ok := p.Alloc();
    Associate(p.Written(), ConnectHeader(c), StringBytes(if c.clientId.Some? then c.clientId.value else []),
              WillBytes(c.will) + OptString(c.username) + OptString(c.password));
    WriteConnectHeader(p, c);
    WriteConnectPayload(p, c);
    var bytes := Handover(p);
    return Ok(bytes);
  }

  lemma ConnectIsShort(c: Connect)
    requires StringsFit(c)
    ensures |ConnectBody(c)| <= MAX_REMAINING_LENGTH
  {
  }
}
