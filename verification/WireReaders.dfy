/**
 Readers for CONNECT, SUBSCRIBE and UNSUBSCRIBE bodies, written from sections 3.1, 3.8 and 3.10 of
 MQTT 3.1.1 with their own bit positions and field order. What both clients write is measured
 against them.
 */
module WireReaders {
  import opened Sequences
  import opened Bytes
  import PacketBuffer
  import Packets
  import PahoPacket
  import PahoSerialize

  // ----- strings -----

  /** A length-prefixed string at the front of s, and what follows it. */
  function ReadText(s: seq<byte>): Option<(seq<byte>, seq<byte>)> {
    if |s| < 2 then None
    else
      var n := 256 * s[0] as int + s[1] as int;
      if |s| < 2 + n then None else Some((s[2..2 + n], s[2 + n..]))
  }

  /** The same where a flag says whether the string is there. */
  function ReadOptional(present: bool, s: seq<byte>): Option<(Option<seq<byte>>, seq<byte>)> {
    if !present then Some((None, s))
    else
      match ReadText(s)
      case None => None
      case Some((t, rest)) => Some((Some(t), rest))
  }

  lemma TextIsRead(t: seq<byte>, rest: seq<byte>)
    requires |t| < 0x1_0000
    ensures ReadText(PacketBuffer.StringBytes(t) + rest) == Some((t, rest))
  {
    var s := PacketBuffer.StringBytes(t) + rest;
    assert s[0] == |t| / 256 && s[1] == |t| % 256;
    assert s[2..2 + |t|] == t && s[2 + |t|..] == rest;
  }

  // ----- CONNECT -----

  datatype WillRead = WillRead(topic: seq<byte>, message: seq<byte>, qos: nat, retain: bool)

  datatype ConnectRead = ConnectRead(level: nat, clean: bool, keepAlive: nat, clientId: seq<byte>,
                                     will: Option<WillRead>, username: Option<seq<byte>>, password: Option<seq<byte>>)

  /** "MQTT" and "MQIsdp" (the latter in MQTT 3.1). */
  const NAME_311: seq<byte> := [0x4D, 0x51, 0x54, 0x54]
  const NAME_31: seq<byte> := [0x4D, 0x51, 0x49, 0x73, 0x64, 0x70]

  function ReadConnect(s: seq<byte>): Option<ConnectRead> {
    match ReadText(s)
    case None => None
    case Some((name, t)) =>
      if |t| < 4 || !((name == NAME_311 && t[0] == 4) || (name == NAME_31 && t[0] == 3)) || t[1] % 2 != 0 then None
      else ReadConnectPayload(t[0], t[1], 256 * t[2] as int + t[3] as int, t[4..])
  }

  /** Client identifier, will topic, will message, user name, password: section 3.1.3. */
  function ReadConnectPayload(level: nat, flags: byte, keepAlive: nat, s: seq<byte>): Option<ConnectRead> {
    match ReadText(s)
    case None => None
    case Some((id, t)) =>
      match ReadOptional(flags / 4 % 2 == 1, t)
      case None => None
      case Some((topic, u)) =>
        match ReadOptional(flags / 4 % 2 == 1, u)
        case None => None
        case Some((message, v)) =>
          match ReadOptional(flags / 128 % 2 == 1, v)
          case None => None
          case Some((user, w)) =>
            match ReadOptional(flags / 64 % 2 == 1, w)
            case None => None
            case Some((password, rest)) =>
              if rest != [] then None
              else
                var will :=
                  if topic.Some? && message.Some? then
                    Some(WillRead(topic.value, message.value, flags / 8 % 4, flags / 32 % 2 == 1))
                  else None;
                Some(ConnectRead(level, flags / 2 % 2 == 1, keepAlive, id, will, user, password))
  }

  predicate Short(t: Option<seq<byte>>) {
    t.Some? ==> |t.value| < 0x1_0000
  }

  function Written(t: Option<seq<byte>>): seq<byte>
    requires Short(t)
  {
    if t.Some? then PacketBuffer.StringBytes(t.value) else []
  }

  lemma OptionalIsRead(t: Option<seq<byte>>, rest: seq<byte>)
    requires Short(t)
    ensures ReadOptional(t.Some?, Written(t) + rest) == Some((t, rest))
  {
    if t.Some? { TextIsRead(t.value, rest); } else { assert [] + rest == rest; }
  }

  lemma PayloadIsRead(level: nat, flags: byte, keepAlive: nat, id: seq<byte>, topic: Option<seq<byte>>,
                      message: Option<seq<byte>>, user: Option<seq<byte>>, password: Option<seq<byte>>)
    requires |id| < 0x1_0000 && Short(topic) && Short(message) && Short(user) && Short(password)
    requires (flags / 4 % 2 == 1) == topic.Some? == message.Some?
    requires (flags / 128 % 2 == 1) == user.Some? && (flags / 64 % 2 == 1) == password.Some?
    ensures var s := PacketBuffer.StringBytes(id)
                     + (Written(topic) + (Written(message) + (Written(user) + Written(password))));
            var will :=
              if topic.None? then None
              else Some(WillRead(topic.value, message.value, flags / 8 % 4, flags / 32 % 2 == 1));
            ReadConnectPayload(level, flags, keepAlive, s)
            == Some(ConnectRead(level, flags / 2 % 2 == 1, keepAlive, id, will, user, password))
  {
    hide ReadText, ReadOptional, Written;
    var e: seq<byte> := [];
    assert Written(password) + e == Written(password);
    OptionalIsRead(password, e);
    OptionalIsRead(user, Written(password));
    OptionalIsRead(message, Written(user) + Written(password));
    OptionalIsRead(topic, Written(message) + (Written(user) + Written(password)));
    TextIsRead(id, Written(topic) + (Written(message) + (Written(user) + Written(password))));
  }

  lemma HeaderIsRead(v311: bool, flags: byte, keepAlive: uint16, payload: seq<byte>)
    requires flags % 2 == 0
    ensures var level := if v311 then 4 else 3;
            var s := PacketBuffer.StringBytes(if v311 then NAME_311 else NAME_31)
                     + ([level, flags] + Uint16Bytes(keepAlive) + payload);
            ReadConnect(s) == ReadConnectPayload(level, flags, keepAlive, payload)
  {
    var level: byte := if v311 then 4 else 3;
    var t := [level, flags] + Uint16Bytes(keepAlive) + payload;
    FixedFields(level, flags, keepAlive, payload);
    hide ReadConnect, ReadConnectPayload, PacketBuffer.StringBytes, Uint16Bytes;
    if v311 { NameIsRead(NAME_311, 4, t); } else { NameIsRead(NAME_31, 3, t); }
  }

  lemma NameIsRead(name: seq<byte>, level: byte, t: seq<byte>)
    requires (name == NAME_311 && level == 4) || (name == NAME_31 && level == 3)
    requires |t| >= 4 && t[0] == level && t[1] % 2 == 0
    ensures ReadConnect(PacketBuffer.StringBytes(name) + t)
         == ReadConnectPayload(t[0], t[1], 256 * t[2] as int + t[3] as int, t[4..])
  {
    TextIsRead(name, t);
    hide ReadText, ReadConnectPayload, PacketBuffer.StringBytes;
  }

  lemma FixedFields(level: byte, flags: byte, keepAlive: uint16, payload: seq<byte>)
    ensures var t := [level, flags] + Uint16Bytes(keepAlive) + payload;
            && |t| >= 4 && t[0] == level && t[1] == flags && t[4..] == payload
            && 256 * t[2] as int + t[3] as int == keepAlive
  {
  }

  /** What send__connect writes says what it was told. */
  lemma ConnectRoundTrip(c: Packets.Connect)
    requires Packets.StringsFit(c)
    ensures ReadConnect(Packets.ConnectBody(c))
         == Some(ConnectRead(if c.v311 then 4 else 3, c.clean, c.keepalive,
                             if c.clientId.Some? then c.clientId.value else [],
                             if c.will.Some? then
                               var w := c.will.value;
                               Some(WillRead(w.topic, w.payload, w.qos, w.retain && c.retainAvailable))
                             else None,
                             c.username, c.password))
  {
    var flags := Packets.ConnectFlags(c);
    FlagsAreRead(c);
    hide Packets.ConnectFlags, ReadConnect, ReadConnectPayload;
    var id := if c.clientId.Some? then c.clientId.value else [];
    var topic := if c.will.Some? then Some(c.will.value.topic) else None;
    var message := if c.will.Some? then Some(c.will.value.payload) else None;
    PayloadIsRead(if c.v311 then 4 else 3, flags, c.keepalive, id, topic, message, c.username, c.password);
    ConnectBodyIs(c, flags, id, topic, message);
    HeaderIsRead(c.v311, flags, c.keepalive,
                 PacketBuffer.StringBytes(id)
                 + (Written(topic) + (Written(message) + (Written(c.username) + Written(c.password)))));
  }

  lemma FlagsAreRead(c: Packets.Connect)
    requires Packets.StringsFit(c)
    ensures var f := Packets.ConnectFlags(c);
            && f % 2 == 0 && (f / 2 % 2 == 1) == c.clean && (f / 4 % 2 == 1) == c.will.Some?
            && (c.will.Some? ==> f / 8 % 4 == c.will.value.qos)
            && (c.will.Some? ==> (f / 32 % 2 == 1) == (c.will.value.retain && c.retainAvailable))
            && (f / 64 % 2 == 1) == c.password.Some? && (f / 128 % 2 == 1) == c.username.Some?
  {
    var w := if c.will.Some? then c.will.value else Packets.Will([], [], 0, false);
    FlagBits(Bit(c.clean), Bit(c.will.Some?), w.qos, Bit(c.will.Some? && c.retainAvailable && w.retain),
             Bit(c.password.Some?), Bit(c.username.Some?));
  }

  lemma FlagBits(clean: nat, will: nat, qos: nat, retain: nat, password: nat, user: nat)
    requires clean <= 1 && will <= 1 && qos <= 3 && retain <= 1 && password <= 1 && user <= 1
    ensures var f := 2 * clean + 4 * will + 8 * qos + 32 * retain + 64 * password + 128 * user;
            && f % 2 == 0 && f / 2 % 2 == clean && f / 4 % 2 == will && f / 8 % 4 == qos && f / 32 % 2 == retain
            && f / 64 % 2 == password && f / 128 % 2 == user
  {
    var f := 2 * clean + 4 * will + 8 * qos + 32 * retain + 64 * password + 128 * user;
    assert f / 2 == clean + 2 * (will + 2 * qos + 8 * retain + 16 * password + 32 * user);
    assert f / 4 == will + 2 * (qos + 4 * retain + 8 * password + 16 * user);
    assert f / 8 == qos + 4 * (retain + 2 * password + 4 * user);
    assert f / 32 == retain + 2 * (password + 2 * user);
    assert f / 64 == password + 2 * user;
    assert f / 128 == user;
  }

  lemma ConnectBodyIs(c: Packets.Connect, flags: byte, id: seq<byte>,
                      topic: Option<seq<byte>>, message: Option<seq<byte>>)
    requires Packets.StringsFit(c) && flags == Packets.ConnectFlags(c)
    requires id == if c.clientId.Some? then c.clientId.value else []
    requires topic == if c.will.Some? then Some(c.will.value.topic) else None
    requires message == if c.will.Some? then Some(c.will.value.payload) else None
    ensures Packets.ConnectBody(c)
         == PacketBuffer.StringBytes(if c.v311 then NAME_311 else NAME_31)
            + ([if c.v311 then 4 else 3, flags] + Uint16Bytes(c.keepalive)
               + (PacketBuffer.StringBytes(id)
                  + (Written(topic) + (Written(message) + (Written(c.username) + Written(c.password))))))
  {
    hide PacketBuffer.StringBytes, Packets.ConnectFlags, Packets.WillBytes, Packets.OptString, Written;
    OptionalWritten(c, topic, message);
    Reassociate(PacketBuffer.StringBytes(if c.v311 then NAME_311 else NAME_31), [if c.v311 then 4 else 3, flags],
                Uint16Bytes(c.keepalive), PacketBuffer.StringBytes(id),
                Written(topic), Written(message), Written(c.username), Written(c.password));
  }

  lemma OptionalWritten(c: Packets.Connect, topic: Option<seq<byte>>, message: Option<seq<byte>>)
    requires Packets.StringsFit(c)
    requires topic == if c.will.Some? then Some(c.will.value.topic) else None
    requires message == if c.will.Some? then Some(c.will.value.payload) else None
    ensures Packets.WillBytes(c.will) == Written(topic) + Written(message)
    ensures Packets.OptString(c.username) == Written(c.username) && Packets.OptString(c.password) == Written(c.password)
  {
  }

  lemma Reassociate(n: seq<byte>, l: seq<byte>, k: seq<byte>, i: seq<byte>,
                    t: seq<byte>, m: seq<byte>, u: seq<byte>, p: seq<byte>)
    ensures n + l + k + i + (t + m + u + p) == n + (l + k + (i + (t + (m + (u + p)))))
  {
    assert t + m + u + p == t + (m + (u + p));
    assert n + l + k + i == n + (l + k + i);
  }

  // ----- CONNECT of the Paho codec -----

  function Given(given: bool, s: PahoPacket.MqttString): Option<seq<byte>>
    requires given ==> s.Sound()
  {
    if given then Some(s.Text()) else None
  }

  predicate PahoTextsShort(o: PahoSerialize.ConnectData) {
    && PahoSerialize.ConnectStringsSound(o) && |o.clientId.Text()| < 0x1_0000
    && (o.willFlag ==> |o.willTopic.Text()| < 0x1_0000 && |o.willMessage.Text()| < 0x1_0000)
    && (o.username.Given() ==> |o.username.Text()| < 0x1_0000)
    && (o.password.Given() ==> |o.password.Text()| < 0x1_0000)
  }

  /** What MQTTSerialize_connect writes says what it was told; every version but 4 is written as 3. */
  lemma PahoConnectRoundTrip(o: PahoSerialize.ConnectData)
    requires PahoTextsShort(o)
    ensures ReadConnect(PahoSerialize.ConnectBody(o))
         == Some(ConnectRead(if o.version == 4 then 4 else 3, o.cleanSession % 2 == 1, o.keepAlive, o.clientId.Text(),
                             if o.willFlag then Some(WillRead(o.willTopic.Text(), o.willMessage.Text(), o.willQos % 4,
                                                              o.willRetained % 2 == 1)) else None,
                             Given(o.username.Given(), o.username), Given(o.password.Given(), o.password)))
  {
    var flags := PahoSerialize.ConnectFlags(o);
    PahoFlagsAreRead(o);
    hide PahoSerialize.ConnectFlags, ReadConnect, ReadConnectPayload;
    var id, v4 := o.clientId.Text(), o.version == 4;
    var topic, message := Given(o.willFlag, o.willTopic), Given(o.willFlag, o.willMessage);
    var user, password := Given(o.username.Given(), o.username), Given(o.password.Given(), o.password);
    PayloadIsRead(if v4 then 4 else 3, flags, o.keepAlive, id, topic, message, user, password);
    PahoBodyIs(o);
    HeaderIsRead(v4, flags, o.keepAlive,
                 PacketBuffer.StringBytes(id)
                 + (Written(topic) + (Written(message) + (Written(user) + Written(password)))));
  }

  lemma PahoFlagsAreRead(o: PahoSerialize.ConnectData)
    ensures var f := PahoSerialize.ConnectFlags(o);
            && f % 2 == 0 && f / 2 % 2 == o.cleanSession % 2 && (f / 4 % 2 == 1) == o.willFlag
            && (o.willFlag ==> f / 8 % 4 == o.willQos % 4 && f / 32 % 2 == o.willRetained % 2)
            && (f / 64 % 2 == 1) == o.password.Given() && (f / 128 % 2 == 1) == o.username.Given()
  {
    FlagBits(o.cleanSession % 2, Bit(o.willFlag), if o.willFlag then o.willQos % 4 else 0,
             if o.willFlag then o.willRetained % 2 else 0, Bit(o.password.Given()), Bit(o.username.Given()));
  }

  lemma PahoBodyIs(o: PahoSerialize.ConnectData)
    requires PahoTextsShort(o)
    ensures PahoSerialize.ConnectBody(o)
         == PacketBuffer.StringBytes(if o.version == 4 then NAME_311 else NAME_31)
            + ([if o.version == 4 then 4 else 3, PahoSerialize.ConnectFlags(o)] + Uint16Bytes(o.keepAlive)
               + (PacketBuffer.StringBytes(o.clientId.Text())
                  + (Written(Given(o.willFlag, o.willTopic))
                     + (Written(Given(o.willFlag, o.willMessage))
                        + (Written(Given(o.username.Given(), o.username))
                           + Written(Given(o.password.Given(), o.password)))))))
  {
    hide PacketBuffer.StringBytes, PahoSerialize.ConnectFlags, PahoSerialize.TextIf, Written, PahoPacket.TextBytes;
    PahoWritten(true, o.clientId);
    PahoWritten(o.willFlag, o.willTopic);
    PahoWritten(o.willFlag, o.willMessage);
    PahoWritten(o.username.Given(), o.username);
    PahoWritten(o.password.Given(), o.password);
    GivenIsWritten(o.clientId.Text());
    PahoFixedIs(o);
    ReassociatePaho(PacketBuffer.StringBytes(if o.version == 4 then NAME_311 else NAME_31),
                    [if o.version == 4 then 4 else 3, PahoSerialize.ConnectFlags(o)], Uint16Bytes(o.keepAlive),
                    Written(Given(true, o.clientId)), Written(Given(o.willFlag, o.willTopic)),
                    Written(Given(o.willFlag, o.willMessage)), Written(Given(o.username.Given(), o.username)),
                    Written(Given(o.password.Given(), o.password)));
  }

  lemma GivenIsWritten(t: seq<byte>)
    requires |t| < 0x1_0000
    ensures Written(Some(t)) == PacketBuffer.StringBytes(t)
  {
  }

  lemma PahoWritten(given: bool, s: PahoPacket.MqttString)
    requires given ==> s.Sound() && |s.Text()| < 0x1_0000
    ensures PahoSerialize.TextIf(given, s) == Written(Given(given, s))
  {
  }

  lemma PahoFixedIs(o: PahoSerialize.ConnectData)
    ensures PahoSerialize.ConnectFixed(o)
         == PacketBuffer.StringBytes(if o.version == 4 then NAME_311 else NAME_31)
            + [if o.version == 4 then 4 else 3, PahoSerialize.ConnectFlags(o)] + Uint16Bytes(o.keepAlive)
  {
    hide PahoSerialize.ConnectFlags;
    assert PahoPacket.IntBytes(o.keepAlive) == Uint16Bytes(o.keepAlive);
    assert PahoPacket.TextBytes(MQTT) == PacketBuffer.StringBytes(NAME_311);
    assert PahoPacket.TextBytes(MQISDP) == PacketBuffer.StringBytes(NAME_31);
  }

  lemma ReassociatePaho(n: seq<byte>, l: seq<byte>, k: seq<byte>, i: seq<byte>,
                        t: seq<byte>, m: seq<byte>, u: seq<byte>, p: seq<byte>)
    ensures n + l + k + (i + t + m + u + p) == n + (l + k + (i + (t + (m + (u + p)))))
  {
    assert i + t + m + u + p == i + (t + (m + (u + p)));
  }

  /** Table 2.2 of MQTT 3.1.1: the first byte of each packet the Paho codec builds, without the dup flag. */
  lemma FirstBytes(packetId: uint16, fs: seq<PahoSerialize.Filter>, o: PahoSerialize.ConnectData)
    requires PahoSerialize.FiltersOk(fs) && PahoSerialize.ConnectStringsSound(o)
    ensures PahoSerialize.AckHeader(4, 0) == 0x40 && PahoSerialize.AckHeader(5, 0) == 0x50
    ensures PahoSerialize.AckHeader(6, 0) == 0x62 && PahoSerialize.AckHeader(7, 0) == 0x70
    ensures PahoSerialize.FiltersDraft(8, 0, packetId, fs).header == 0x82
    ensures PahoSerialize.FiltersDraft(10, 0, packetId, fs).header == 0xA2
    ensures PahoSerialize.ConnectDraft(o).header == 0x10
    ensures forall t: byte, dup: byte ::
      PahoSerialize.AckHeader(t, dup) == PahoSerialize.AckHeader(t, 0) + if dup % 2 == 1 then 8 else 0
  {
  }

  // ----- SUBSCRIBE and UNSUBSCRIBE -----

  /** A topic filter, with its requested QoS in SUBSCRIBE. */
  datatype FilterRead = FilterRead(topic: seq<byte>, qos: Option<byte>)

  function ReadFilters(s: seq<byte>, withQos: bool): Option<seq<FilterRead>>
    decreases |s|
  {
    if s == [] then Some([])
    else
      match ReadText(s)
      case None => None
      case Some((topic, t)) =>
        if withQos && t == [] then None
        else
          var f := FilterRead(topic, if withQos then Some(t[0]) else None);
          match ReadFilters(if withQos then t[1..] else t, withQos)
          case None => None
          case Some(fs) => Some([f] + fs)
  }

  /** A packet identifier, then the filters. */
  function ReadSubscribe(s: seq<byte>, withQos: bool): Option<(nat, seq<FilterRead>)> {
    if |s| < 2 then None
    else
      match ReadFilters(s[2..], withQos)
      case None => None
      case Some(fs) => Some((256 * s[0] as int + s[1] as int, fs))
  }

  function OneFilter(f: FilterRead): seq<byte>
    requires |f.topic| < 0x1_0000
  {
    PacketBuffer.StringBytes(f.topic) + if f.qos.Some? then [f.qos.value] else []
  }

  /** One more filter at the end of a well-formed list. */
  lemma {:induction false} FiltersAppend(s: seq<byte>, f: FilterRead, withQos: bool)
    requires ReadFilters(s, withQos).Some? && |f.topic| < 0x1_0000 && f.qos.Some? == withQos
    ensures ReadFilters(s + OneFilter(f), withQos) == Some(ReadFilters(s, withQos).value + [f])
    decreases |s|
  {
    hide ReadFilters, ReadText, OneFilter;
    var b := OneFilter(f);
    if s == [] {
      OneFilterIsRead(f, withQos);
      assert s + b == b && [] + [f] == [f];
    } else {
      FirstFilter(s, withQos);
      var (topic, t) := ReadText(s).value;
      var u := if withQos then t[1..] else t;
      TextExtends(s, b);
      FirstFilter(s + b, withQos);
      assert (if withQos then (t + b)[1..] else t + b) == u + b;
      FiltersAppend(u, f, withQos);
      var g := FilterRead(topic, if withQos then Some(t[0]) else None);
      assert [g] + (ReadFilters(u, withQos).value + [f]) == [g] + ReadFilters(u, withQos).value + [f];
    }
  }

  lemma OneFilterIsRead(f: FilterRead, withQos: bool)
    requires |f.topic| < 0x1_0000 && f.qos.Some? == withQos
    ensures ReadFilters([], withQos) == Some([]) && ReadFilters(OneFilter(f), withQos) == Some([f])
  {
    NothingIsRead(withQos);
    var tail := if withQos then [f.qos.value] else [];
    TextIsRead(f.topic, tail);
    assert OneFilter(f) == PacketBuffer.StringBytes(f.topic) + tail;
    FirstFilter(OneFilter(f), withQos);
    hide ReadFilters, ReadText, OneFilter;
    if withQos { assert tail[1..] == []; }
    assert [f] + [] == [f];
  }

  lemma NothingIsRead(withQos: bool)
    ensures ReadFilters([], withQos) == Some([])
  {
  }

  /** The first filter, and the rest. */
  lemma FirstFilter(s: seq<byte>, withQos: bool)
    requires s != []
    ensures ReadFilters(s, withQos).Some? ==> ReadText(s).Some? && (withQos ==> ReadText(s).value.1 != [])
    ensures ReadText(s).Some? && (withQos ==> ReadText(s).value.1 != []) ==>
      var (topic, t) := ReadText(s).value;
      var g := FilterRead(topic, if withQos then Some(t[0]) else None);
      var more := ReadFilters(if withQos then t[1..] else t, withQos);
      ReadFilters(s, withQos) == if more.None? then None else Some([g] + more.value)
    ensures ReadText(s).Some? ==> |ReadText(s).value.1| < |s|
  {
    hide ReadText;
    TextIsShorter(s);
  }

  lemma TextIsShorter(s: seq<byte>)
    ensures ReadText(s).Some? ==> |ReadText(s).value.1| < |s|
  {
  }

  lemma TextExtends(s: seq<byte>, b: seq<byte>)
    requires ReadText(s).Some?
    ensures var (t, rest) := ReadText(s).value; ReadText(s + b) == Some((t, rest + b))
  {
    var n := 256 * s[0] as int + s[1] as int;
    assert (s + b)[2..2 + n] == s[2..2 + n] && (s + b)[2 + n..] == s[2 + n..] + b;
  }

  function TopicsRead(topics: seq<seq<byte>>, options: seq<byte>): (r: seq<FilterRead>)
    ensures |r| == |topics|
    ensures forall i :: 0 <= i < |r| ==> r[i] == TopicRead(topics[i], options)
  {
    seq(|topics|, i requires 0 <= i < |topics| => TopicRead(topics[i], options))
  }

  function TopicRead(topic: seq<byte>, options: seq<byte>): FilterRead {
    FilterRead(topic, if options == [] then None else Some(options[0]))
  }

  lemma OneTopic(topic: seq<byte>, options: seq<byte>)
    requires |topic| < 0x1_0000 && |options| <= 1
    ensures PacketBuffer.StringBytes(topic) + options == OneFilter(TopicRead(topic, options))
  {
    hide PacketBuffer.StringBytes;
    if options != [] { assert options == [options[0]]; }
  }

  lemma TopicsReadLast(topics: seq<seq<byte>>, options: seq<byte>)
    requires topics != []
    ensures var n := |topics| - 1;
            TopicsRead(topics, options) == TopicsRead(topics[..n], options) + [TopicRead(topics[n], options)]
  {
  }

  /** What send__subscribe and send__unsubscribe write: every topic in order, each with the QoS if there is one. */
  lemma {:induction false} TopicsAreRead(topics: seq<seq<byte>>, options: seq<byte>)
    requires Packets.TopicsShort(topics) && |options| <= 1
    ensures ReadFilters(Packets.TopicsBytes(topics, options), options != []) == Some(TopicsRead(topics, options))
  {
    if topics != [] {
      var n := |topics| - 1;
      Packets.TopicsLast(topics, options);
      TopicsReadLast(topics, options);
      OneTopic(topics[n], options);
      hide ReadFilters, PacketBuffer.StringBytes, Packets.TopicsBytes, Packets.TopicsLength, TopicsRead, OneFilter;
      TopicsAreRead(topics[..n], options);
      FiltersAppend(Packets.TopicsBytes(topics[..n], options), TopicRead(topics[n], options), options != []);
      Regroup(Packets.TopicsBytes(topics[..n], options), PacketBuffer.StringBytes(topics[n]), options);
    } else {
      NothingIsRead(options != []);
      assert TopicsRead(topics, options) == [];
      hide ReadFilters;
    }
  }

  /** The whole body of SUBSCRIBE or UNSUBSCRIBE, as send__subscribe and send__unsubscribe write it. */
  lemma SubscribeRoundTrip(mid: uint16, topics: seq<seq<byte>>, options: seq<byte>)
    requires Packets.TopicsShort(topics) && |options| <= 1
    ensures ReadSubscribe(Uint16Bytes(mid) + Packets.TopicsBytes(topics, options), options != [])
         == Some((mid, TopicsRead(topics, options)))
  {
    hide ReadFilters, Packets.TopicsBytes;
    TopicsAreRead(topics, options);
    var s := Uint16Bytes(mid) + Packets.TopicsBytes(topics, options);
    assert s[2..] == Packets.TopicsBytes(topics, options) && s[0] == mid / 256 && s[1] == mid % 256;
  }

  function PahoRead(fs: seq<PahoSerialize.Filter>): (r: seq<FilterRead>)
    requires PahoSerialize.FiltersOk(fs)
    ensures |r| == |fs|
    ensures forall i :: 0 <= i < |r| ==>
      r[i] == TopicRead(fs[i].topic.Text(), fs[i].options)
  {
    seq(|fs|, i requires 0 <= i < |fs| => TopicRead(fs[i].topic.Text(), fs[i].options))
  }

  lemma OnePahoFilter(f: PahoSerialize.Filter)
    requires f.topic.Sound() && |f.options| <= 1 && |f.topic.Text()| < 0x1_0000
    ensures PahoSerialize.FilterBytes(f) == OneFilter(TopicRead(f.topic.Text(), f.options))
  {
    OneTopic(f.topic.Text(), f.options);
    assert PahoPacket.TextBytes(f.topic.Text()) == PacketBuffer.StringBytes(f.topic.Text());
  }

  lemma PahoReadLast(fs: seq<PahoSerialize.Filter>, n: nat)
    requires PahoSerialize.FiltersOk(fs) && |fs| == n + 1
    ensures PahoRead(fs) == PahoRead(fs[..n]) + [TopicRead(fs[n].topic.Text(), fs[n].options)]
  {
  }

  lemma {:induction false} PahoFiltersAreRead(fs: seq<PahoSerialize.Filter>, withQos: bool)
    requires PahoSerialize.FiltersOk(fs)
    requires forall i :: 0 <= i < |fs| ==> |fs[i].topic.Text()| < 0x1_0000 && (fs[i].options != []) == withQos
    ensures ReadFilters(PahoSerialize.FiltersBytes(fs), withQos) == Some(PahoRead(fs))
  {
    if fs != [] {
      var n := |fs| - 1;
      OnePahoFilter(fs[n]);
      PahoReadLast(fs, n);
      PahoSerialize.FiltersStep(fs, n);
      assert fs[..n + 1] == fs;
      hide ReadFilters, PahoSerialize.FiltersBytes, PahoSerialize.FilterBytes, PahoRead, OneFilter;
      PahoFiltersAreRead(fs[..n], withQos);
      FiltersAppend(PahoSerialize.FiltersBytes(fs[..n]), TopicRead(fs[n].topic.Text(), fs[n].options), withQos);
    } else {
      NothingIsRead(withQos);
      assert PahoRead(fs) == [];
      hide ReadFilters;
    }
  }

  /** The whole body of SUBSCRIBE or UNSUBSCRIBE, as the Paho codec writes it: every filter with its own QoS. */
  lemma PahoSubscribeRoundTrip(packetId: uint16, fs: seq<PahoSerialize.Filter>, withQos: bool)
    requires PahoSerialize.FiltersOk(fs)
    requires forall i :: 0 <= i < |fs| ==> |fs[i].topic.Text()| < 0x1_0000 && (fs[i].options != []) == withQos
    ensures ReadSubscribe(PahoSerialize.FiltersDraft(8, 0, packetId, fs).body, withQos)
         == Some((packetId, PahoRead(fs)))
    ensures PahoSerialize.FiltersDraft(10, 0, packetId, fs).body == PahoSerialize.FiltersDraft(8, 0, packetId, fs).body
  {
    hide ReadFilters, PahoSerialize.FiltersBytes, PahoSerialize.FiltersDeclared;
    PahoFiltersAreRead(fs, withQos);
    var s := PahoPacket.IntBytes(packetId) + PahoSerialize.FiltersBytes(fs);
    assert s[2..] == PahoSerialize.FiltersBytes(fs);
    assert s[0] == packetId / 256 && s[1] == packetId % 256;
  }
}
