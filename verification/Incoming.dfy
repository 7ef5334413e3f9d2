/**
 The readers of packet_datatypes.c on an incoming packet, and the parsing half of
 handle__publish for MQTT 3.1 and 3.1.1, which undoes send__real_publish.
 */
module Incoming {
  import opened Sequences
  import opened Bytes
  import opened Varint
  import opened Frames
  import opened PacketBuffer
  import opened Packets

  /** in_packet while it is being handled: remaining_length is the payload's length. */
  class InBuffer {
    const command: byte
    const payload: seq<byte>
    var pos: nat

    ghost predicate Valid()
      reads this
    {
      pos <= |payload|
    }

    ghost function Left(): seq<byte>
      requires Valid()
      reads this
    {
      payload[pos..]
    }

    constructor (command: byte, payload: seq<byte>)
      ensures this.command == command && this.payload == payload && Valid() && pos == 0
    {
      this.command, this.payload, pos := command, payload, 0;
    }

    /** packet__read_byte */
    method ReadByte() returns (r: Result<byte>)
      requires Valid()
      modifies this`pos
      ensures Valid() && (r.Ok? <==> |old(Left())| >= 1)
      ensures r.Ok? ==> r.value == old(Left())[0] && Left() == old(Left())[1..]
      ensures r.Err? ==> r.error == ErrMalformedPacket && pos == old(pos)
    {
      if pos + 1 > |payload| { return Err(ErrMalformedPacket); }
      r := Ok(payload[pos]);
      pos := pos + 1;
    }

    /** packet__read_uint16 */
    method ReadUint16() returns (r: Result<uint16>)
      requires Valid()
      modifies this`pos
      ensures Valid() && (r.Ok? <==> |old(Left())| >= 2)
      ensures r.Ok? ==> old(Left()) == Uint16Bytes(r.value) + Left()
      ensures r.Err? ==> r.error == ErrMalformedPacket && pos == old(pos)
    {
      if pos + 2 > |payload| { return Err(ErrMalformedPacket); }
      var msb := payload[pos];
      pos := pos + 1;
      var lsb := payload[pos];
      pos := pos + 1;
      r := Ok(256 * msb as int + lsb as int);
    }

    /** packet__read_bytes */
    method ReadBytes(count: nat) returns (r: Result<seq<byte>>)
      requires Valid()
      modifies this`pos
      ensures Valid() && (r.Ok? <==> |old(Left())| >= count)
      ensures r.Ok? ==> |r.value| == count && old(Left()) == r.value + Left()
      ensures r.Err? ==> r.error == ErrMalformedPacket && pos == old(pos)
    {
      if pos + count > |payload| { return Err(ErrMalformedPacket); }
      r := Ok(payload[pos..pos + count]);
      pos := pos + count;
    }

    /** packet__read_string, with mosquitto_validate_utf8 as a parameter; an empty string is not validated. */
    method ReadString(utf8Ok: seq<byte> -> bool) returns (r: Result<seq<byte>>)
      requires Valid()
      modifies this`pos
      ensures Valid() && r == TakeString(old(Left()), utf8Ok)
      ensures r.Ok? ==> |r.value| < 0x1_0000 && old(Left()) == StringBytes(r.value) + Left()
    {
      ghost var l := Left();
      var slen := ReadUint16();
      if slen.Err? { return Err(ErrMalformedPacket); }
      assert l[0] as int * 256 + l[1] as int == slen.value && l[2..] == Left();
      if slen.value == 0 { return Ok([]); }
      r := ReadBytes(slen.value);
      if r.Err? { return; }
      assert l[2..][..slen.value] == r.value && l[2..2 + slen.value] == r.value;
      if !utf8Ok(r.value) { return Err(ErrMalformedUtf8); }
    }

    /** packet__read_varint */
    method ReadVarint() returns (r: Result<nat>, bytes: nat)
      requires Valid()
      modifies this`pos
      ensures Valid()
      ensures match Decode(old(Left()), 4, true)
              case Some((v, l)) => r == Ok(v) && bytes == l && pos == old(pos) + l
              case None => r == Err(ErrMalformedPacket)
    {
      hide Decode, Partial;
      ghost var all := Left();
      PartialStart(all);
      var mult: nat, word: nat := 1, 0;
      bytes := 0;
      Pow128Values();
      for i := 0 to 4
        invariant Valid() && bytes == i && pos == old(pos) + i && mult == Pow128(i)
        invariant Partial(all, Left(), i, word, mult)
      {
        if pos >= |payload| {
          PartialNone(all, Left(), i, word, mult);
          return Err(ErrMalformedPacket), bytes;
        }
        PartialStep(all, Left(), i, word, mult);
        bytes := bytes + 1;
        var b := payload[pos];
        word := word + (b % 128) * mult;
        mult := mult * 128;
        pos := pos + 1;
        if b < 128 {
          if bytes > 1 && b == 0 {
            return Err(ErrMalformedPacket), bytes;
          }
          return Ok(word), bytes;
        }
      }
      PartialNone(all, Left(), 4, word, mult);
      return Err(ErrMalformedPacket), bytes;
    }
  }

  /** What remains to be decoded after i continuation bytes worth `word`. */
  ghost predicate Partial(all: seq<byte>, left: seq<byte>, i: nat, word: nat, mult: nat)
  {
    && i <= 4
    && Decode(all, 4, true) == Shifted(Decode(left, 4 - i, i == 0), word, mult, i)
  }

  /** A decoding of the rest, turned into a decoding of the whole. */
  function Shifted(d: Option<(nat, nat)>, word: nat, mult: nat, i: nat): Option<(nat, nat)> {
    if d.None? then None else Some((word + d.value.0 * mult, d.value.1 + i))
  }

  lemma PartialStep(all: seq<byte>, left: seq<byte>, i: nat, word: nat, mult: nat)
    requires i < 4 && left != [] && Partial(all, left, i, word, mult)
    ensures left[0] < 128 && !(i > 0 && left[0] == 0) ==>
      Decode(all, 4, true) == Some((word + left[0] as int * mult, i + 1))
    ensures left[0] < 128 && i > 0 && left[0] == 0 ==> Decode(all, 4, true) == None
    ensures left[0] >= 128 ==> Partial(all, left[1..], i + 1, word + (left[0] as int - 128) * mult, mult * 128)
  {
    hide Decode;
    DecodeOne(left, 4 - i, i == 0);
    if left[0] >= 128 {
      var c := left[0] as int - 128;
      var d := Decode(left[1..], 3 - i, false);
      DecodeMore(left, 4 - i, i == 0);
      if d.Some? { Distribute(word, c, d.value.0, mult); }
      assert Shifted(Decode(left, 4 - i, i == 0), word, mult, i) == Shifted(d, word + c * mult, mult * 128, i + 1);
    }
  }

  lemma PartialStart(all: seq<byte>)
    ensures Partial(all, all, 0, 0, 1)
  {
  }

  lemma PartialNone(all: seq<byte>, left: seq<byte>, i: nat, word: nat, mult: nat)
    requires Partial(all, left, i, word, mult) && (left == [] || i == 4)
    ensures Decode(all, 4, true) == None
  {
  }

  lemma DecodeOne(s: seq<byte>, k: nat, first: bool)
    requires s != [] && k > 0
    ensures s[0] < 128 ==> Decode(s, k, first) == if !first && s[0] == 0 then None else Some((s[0], 1))
  {
  }

  lemma DecodeMore(s: seq<byte>, k: nat, first: bool)
    requires s != [] && k > 0 && s[0] >= 128
    ensures var d := Decode(s[1..], k - 1, false);
            Decode(s, k, first) == if d.None? then None else Some((s[0] as int - 128 + 128 * d.value.0, d.value.1 + 1))
  {
  }

  lemma Distribute(word: nat, c: nat, v: nat, mult: nat)
    ensures word + (c + 128 * v) * mult == word + c * mult + v * (mult * 128)
  {
    assert (c + 128 * v) * mult == c * mult + (128 * v) * mult;
    assert (128 * v) * mult == v * (mult * 128);
  }

  /** A length-prefixed string at the front of s. */
  function TakeString(s: seq<byte>, utf8Ok: seq<byte> -> bool): Result<seq<byte>> {
    if |s| < 2 then Err(ErrMalformedPacket)
    else
      var n := s[0] as int * 256 + s[1] as int;
      if n == 0 then Ok([])
      else if |s| < 2 + n then Err(ErrMalformedPacket)
      else if !utf8Ok(s[2..2 + n]) then Err(ErrMalformedUtf8)
      else Ok(s[2..2 + n])
  }

  /** What the fields of a PUBLISH with this command byte and body are, or why it is refused. */
  function ParsePublish(command: byte, s: seq<byte>, utf8Ok: seq<byte> -> bool): Result<PublishFields> {
    var dup, qos, retain := command / 8 % 2 == 1, command / 2 % 4, command % 2 == 1;
    match TakeString(s, utf8Ok)
    case Err(e) => Err(e)
    case Ok(topic) =>
      if topic == [] then Err(ErrProtocol)
      else
        var t := s[Min(2 + |topic|, |s|)..];
        if qos == 0 then Ok(PublishFields(dup, 0, retain, 0, topic, t))
        else if |t| < 2 then Err(ErrMalformedPacket)
        else
          var mid := t[0] as int * 256 + t[1] as int;
          if mid == 0 || qos == 3 then Err(ErrProtocol)
          else Ok(PublishFields(dup, qos, retain, mid, topic, t[2..]))
  }

  /** The parsing half of handle__publish. */
  method HandlePublish(p: InBuffer, utf8Ok: seq<byte> -> bool) returns (r: Result<PublishFields>)
    requires p.Valid() && p.pos == 0
    modifies p`pos
    ensures r == ParsePublish(p.command, p.payload, utf8Ok)
  {
    hide TakeString;
    var header := p.command;
    var dup, qos, retain := header / 8 % 2 == 1, header / 2 % 4, header % 2 == 1;
    assert p.Left() == p.payload;
    var topic := p.ReadString(utf8Ok);
    if topic.Err? { return Err(topic.error); }
    if topic.value == [] { return Err(ErrProtocol); }
    ghost var t := p.Left();
    assert t == p.payload[2 + |topic.value|..];
    var mid: uint16 := 0;
    if qos > 0 {
      var m := p.ReadUint16();
      if m.Err? { return Err(ErrMalformedPacket); }
      assert t[2..] == p.Left();
      mid := m.value;
      if mid == 0 { return Err(ErrProtocol); }
    }
    var len := |p.payload| - p.pos;
    ghost var l := p.Left();
    var body := p.ReadBytes(len);
    assert p.Left() == [] && body.value == l;
    if qos == 3 { return Err(ErrProtocol); }
    return Ok(PublishFields(dup, qos, retain, mid, topic.value, body.value));
  }

  /** PUBLISH survives the trip: whatever send__real_publish encodes, handle__publish reads back. */
  lemma PublishRoundTrip(f: PublishFields, utf8Ok: seq<byte> -> bool)
    requires f.qos <= 2 && 0 < |f.topic| < 0x1_0000 && utf8Ok(f.topic) && (f.qos > 0 ==> f.mid != 0)
    ensures ParsePublish(PublishCommand(f), PublishBody(f), utf8Ok) == Ok(if f.qos == 0 then f.(mid := 0) else f)
  {
    var s := PublishBody(f);
    var n := |f.topic|;
    CommandBits(f);
    assert s[0] as int * 256 + s[1] as int == n && s[2..2 + n] == f.topic;
    var t := s[2 + n..];
    if f.qos == 0 {
      assert t == f.payload;
    } else {
      assert t == Uint16Bytes(f.mid) + f.payload;
      assert t[2..] == f.payload;
    }
  }

  lemma CommandBits(f: PublishFields)
    requires f.qos <= 2
    ensures var c := PublishCommand(f);
            (c / 8 % 2 == 1) == f.dup && c / 2 % 4 == f.qos && (c % 2 == 1) == f.retain && c / 16 == 3
  {
  }

  lemma BitsCommand(c: byte)
    requires c / 16 == 3 && c / 2 % 4 <= 2
    ensures c == 0x30 + 8 * Bit(c / 8 % 2 == 1) + 2 * (c / 2 % 4) + Bit(c % 2 == 1)
  {
  }

  lemma TakenString(s: seq<byte>, utf8Ok: seq<byte> -> bool)
    requires TakeString(s, utf8Ok).Ok?
    ensures var topic := TakeString(s, utf8Ok).value;
            |topic| < 0x1_0000 && 2 + |topic| <= |s| && s == StringBytes(topic) + s[2 + |topic|..]
  {
    var topic := TakeString(s, utf8Ok).value;
    var n := |topic|;
    assert n == s[0] as int * 256 + s[1] as int;
    assert s[..2] == Uint16Bytes(n) && s[2..2 + n] == topic;
    assert s == s[..2] + s[2..2 + n] + s[2 + n..];
  }

  lemma TakenMid(t: seq<byte>)
    requires |t| >= 2
    ensures t == Uint16Bytes(t[0] as int * 256 + t[1] as int) + t[2..]
  {
    assert t == t[..2] + t[2..];
    assert t[..2] == Uint16Bytes(t[0] as int * 256 + t[1] as int);
  }

  /** And nothing else is read as those fields: an accepted PUBLISH is the encoding of its fields. */
  lemma ParsedIsEncoding(command: byte, s: seq<byte>, utf8Ok: seq<byte> -> bool)
    requires command / 16 == 3 && ParsePublish(command, s, utf8Ok).Ok?
    ensures var f := ParsePublish(command, s, utf8Ok).value;
            f.qos <= 2 && |f.topic| < 0x1_0000 && PublishCommand(f) == command && PublishBody(f) == s
  {
    hide StringBytes, TakeString, Uint16Bytes;
    var f := ParsePublish(command, s, utf8Ok).value;
    TakenString(s, utf8Ok);
    BitsCommand(command);
    var a, t := StringBytes(f.topic), s[2 + |f.topic|..];
    if f.qos > 0 {
      TakenMid(t);
      Regroup(a, Uint16Bytes(f.mid), f.payload);
    } else {
      assert a + [] == a;
    }
  }

  /** s starts with the length-prefixed string t. */
  ghost predicate Starts(s: seq<byte>, t: seq<byte>) {
    |t| < 0x1_0000 && StringBytes(t) <= s
  }

  /** s starts with at most one string; TakeString gives it, or says what is wrong with it, or that there is none. */
  lemma TakeStringIff(s: seq<byte>, utf8Ok: seq<byte> -> bool)
    ensures var r := TakeString(s, utf8Ok);
            && (r == Err(ErrMalformedPacket) <==> forall t :: !Starts(s, t))
            && (r == Err(ErrMalformedUtf8) <==> exists t :: Starts(s, t) && t != [] && !utf8Ok(t))
            && (r.Err? ==> r.error in {ErrMalformedPacket, ErrMalformedUtf8})
            && forall t :: r == Ok(t) <==> Starts(s, t) && (t == [] || utf8Ok(t))
  {
    forall t | Starts(s, t)
      ensures TakeString(s, utf8Ok) == if t == [] || utf8Ok(t) then Ok(t) else Err(ErrMalformedUtf8)
    {
      StartTaken(s, t, utf8Ok);
    }
    StartThere(s, utf8Ok);
    hide TakeString, Starts;
  }

  lemma StartTaken(s: seq<byte>, t: seq<byte>, utf8Ok: seq<byte> -> bool)
    requires Starts(s, t)
    ensures TakeString(s, utf8Ok) == if t == [] || utf8Ok(t) then Ok(t) else Err(ErrMalformedUtf8)
  {
    var b := StringBytes(t);
    assert s[0] == b[0] && s[1] == b[1] && s[2..2 + |t|] == b[2..];
    assert b[0] as int * 256 + b[1] as int == |t|;
  }

  lemma StartThere(s: seq<byte>, utf8Ok: seq<byte> -> bool)
    ensures TakeString(s, utf8Ok) != Err(ErrMalformedPacket) ==> exists t :: Starts(s, t)
  {
    if TakeString(s, utf8Ok) != Err(ErrMalformedPacket) {
      var n := s[0] as int * 256 + s[1] as int;
      var t := s[2..2 + n];
      assert StringBytes(t) == s[..2 + n];
      assert Starts(s, t);
    }
  }

  /**
   What each refusal of a PUBLISH means: malformed when it ends inside its topic or identifier;
   bad UTF-8 when the topic is; a protocol error for an empty topic, an identifier 0 or QoS 3.
   */
  lemma RefusedIff(command: byte, s: seq<byte>, utf8Ok: seq<byte> -> bool)
    ensures var r, qos := ParsePublish(command, s, utf8Ok), command / 2 % 4;
            && (r == Err(ErrMalformedPacket)
                <==> (forall t :: !Starts(s, t))
                     || exists t :: Starts(s, t) && t != [] && utf8Ok(t) && qos > 0 && |s| < 4 + |t|)
            && (r == Err(ErrMalformedUtf8) <==> exists t :: Starts(s, t) && t != [] && !utf8Ok(t))
            && (r == Err(ErrProtocol)
                <==> exists t :: Starts(s, t) && (t == [] || (utf8Ok(t) && qos > 0 && |s| >= 4 + |t|
                                                             && (qos == 3 || s[2 + |t|] == s[3 + |t|] == 0))))
            && (r.Err? ==> r.error in {ErrMalformedPacket, ErrMalformedUtf8, ErrProtocol})
  {
    TakeStringIff(s, utf8Ok);
    if u :| Starts(s, u) {
      RefusedFor(command, s, utf8Ok, u);
      forall t | Starts(s, t) ensures t == u && |s| >= 2 + |t| { OneStart(s, t, u); }
      hide ParsePublish, Starts, TakeString;
    } else {
      hide Starts, TakeString;
    }
  }

  lemma OneStart(s: seq<byte>, t: seq<byte>, u: seq<byte>)
    requires Starts(s, t) && Starts(s, u)
    ensures t == u && |s| >= 2 + |t|
  {
    StartTaken(s, t, x => true);
    StartTaken(s, u, x => true);
    hide TakeString;
  }

  lemma RefusedFor(command: byte, s: seq<byte>, utf8Ok: seq<byte> -> bool, t: seq<byte>)
    requires Starts(s, t)
    ensures var r, qos := ParsePublish(command, s, utf8Ok), command / 2 % 4;
            if t == [] then r == Err(ErrProtocol)
            else if !utf8Ok(t) then r == Err(ErrMalformedUtf8)
            else if qos > 0 && |s| < 4 + |t| then r == Err(ErrMalformedPacket)
            else r == Err(ErrProtocol) <==> qos > 0 && (qos == 3 || s[2 + |t|] == s[3 + |t|] == 0)
    ensures var r := ParsePublish(command, s, utf8Ok);
            t != [] && utf8Ok(t) && r.Err? ==> r.error in {ErrMalformedPacket, ErrProtocol}
    ensures var r, qos := ParsePublish(command, s, utf8Ok), command / 2 % 4;
            t != [] && utf8Ok(t) && r == Err(ErrMalformedPacket) ==> qos > 0 && |s| < 4 + |t|
  {
    StartTaken(s, t, utf8Ok);
    assert |s| >= 2 + |t|;
    hide TakeString, Starts;
    var u := s[2 + |t|..];
    assert |u| >= 2 ==> u[0] == s[2 + |t|] && u[1] == s[3 + |t|];
  }

  /** From the sender's fields through one frame on the wire to the receiver's fields. */
  lemma PublishOverTheWire(f: PublishFields, rest: seq<byte>, utf8Ok: seq<byte> -> bool)
    requires f.qos <= 2 && 0 < |f.topic| < 0x1_0000 && utf8Ok(f.topic) && (f.qos > 0 ==> f.mid != 0)
    requires |PublishBody(f)| <= MAX_REMAINING_LENGTH
    ensures var r := ParseFrame(FrameBytes(Frame(PublishCommand(f), PublishBody(f))) + rest);
            r.Got? && ParsePublish(r.value.command, r.value.payload, utf8Ok)
                == Ok(if f.qos == 0 then f.(mid := 0) else f)
  {
    ParseOneFrame(Frame(PublishCommand(f), PublishBody(f)), rest);
    PublishRoundTrip(f, utf8Ok);
  }
}
