/**
 The two readers of MQTTPacket.c: the blocking MQTTPacket_read and the resumable
 MQTTPacket_readnb with its transport record. Both are measured against the one-shot parser
 of Frames. The transport's getfn is a schedule: each call takes the next event, so every way
 of cutting the stream is a schedule.
 */
module PahoRead {
  import opened Sequences
  import opened Bytes
  import opened Varint
  import opened Frames
  import opened PahoPacket

  // ----- blocking -----

  /** The frame MQTTPacket_read makes of a stream; the verdict of MQTTPacket_decode is ignored. */
  function BlockingFrame(stream: seq<byte>): (r: Parsed<Frame>)
    ensures r.Got? ==> r.used <= |stream|
  {
    if stream == [] then Incomplete
    else
      var (v, u) := DecodedLength(stream[1..]);
      if |stream| < 1 + u + v then Incomplete
      else Got(Frame(stream[0], stream[1 + u..1 + u + v]), 1 + u + v)
  }

  /** Where the stream starts with a whole packet, the blocking reader sees that packet. */
  lemma BlockingFrameIsParse(stream: seq<byte>)
    requires ParseFrame(stream).Got?
    ensures BlockingFrame(stream) == ParseFrame(stream)
  {
  }

  /**
   It sees one where there is none exactly when the length field stops short or runs past four
   bytes and the value of the bytes read happens to be covered by the stream.
   */
  lemma BlockingAcceptsMalformedIff(stream: seq<byte>)
    ensures BlockingFrame(stream).Got? && !ParseFrame(stream).Got?
       <==> stream != [] && !ParseLength(stream[1..], 4).Got?
            && var u := if |stream| < 5 then |stream| - 1 else 4; Digits(stream[1..][..u]) <= |stream| - 1 - u
  {
  }

  /** A PUBLISH cut after a continuation byte is reported as complete and empty. */
  lemma TruncatedLengthAccepted()
    ensures BlockingFrame([0x30, 0x80]) == Got(Frame(0x30, []), 2) && ParseFrame([0x30, 0x80]) == Incomplete
  {
    var s: seq<byte> := [0x30, 0x80];
    var t: seq<byte> := [0x80];
    assert s[1..] == t && t[1..] == [] && t[..1] == t;
    assert Digits(t) == 0x80 % 128 + 128 * Digits([]);
    assert ParseLength([], 3) == Incomplete;
    assert s[2..2] == [];
  }

  /**
   What MQTTPacket_read writes from the start of the buffer on. The length is put back before
   the packet is compared with buflen, so this may be longer than buflen.
   */
  function BlockingWrites(stream: seq<byte>, buflen: int): seq<byte> {
    if stream == [] then []
    else
      var (v, u) := DecodedLength(stream[1..]);
      var head, rest := [stream[0]] + Encode(v), stream[1 + u..];
      if |head| + v > buflen then head else head + rest[..Min(v, |rest|)]
  }

  lemma NothingToRead(buflen: int)
    ensures BlockingFrame([]) == Incomplete && BlockingWrites([], buflen) == []
  {
  }

  lemma WritesFrom(stream: seq<byte>, buflen: int)
    requires stream != []
    ensures var (v, u) := DecodedLength(stream[1..]);
            var head, rest := [stream[0]] + Encode(v), stream[1 + u..];
            BlockingWrites(stream, buflen) == if |head| + v > buflen then head else head + rest[..Min(v, |rest|)]
  {
  }

  /** The reader stays inside the buffer exactly when header and length do. */
  lemma StaysInsideIff(stream: seq<byte>, buflen: int)
    requires stream != []
    ensures |BlockingWrites(stream, buflen)| <= buflen <==> 1 + |Encode(DecodedLength(stream[1..]).0)| <= buflen
  {
    hide DecodedLength, Encode;
  }

  lemma BlockingWritesBound(stream: seq<byte>, buflen: int)
    ensures |BlockingWrites(stream, buflen)| <= 5 || |BlockingWrites(stream, buflen)| <= buflen
  {
    hide DecodedLength, Encode;
    if stream != [] { DecodedLengthBound(stream[1..]); }
  }

  /**
   Of a packet cut after its length, the buffer gets exactly the part that has come; of one
   that does not fit in it, the header and the length.
   */
  lemma ArrivedPartIsKept(f: Frame, n: nat, buflen: int)
    requires |f.payload| <= MAX_REMAINING_LENGTH
    requires 1 + |Encode(|f.payload|)| <= n <= |FrameBytes(f)|
    ensures var s := FrameBytes(f);
            BlockingWrites(s[..n], buflen) == if |s| <= buflen then s[..n] else s[..1 + |Encode(|f.payload|)|]
  {
    var e := Encode(|f.payload|);
    var s, part := FrameBytes(f)[..n], f.payload[..n - 1 - |e|];
    assert s == [f.command] + (e + part);
    assert s[1..] == e + part && s[1 + |e|..] == part;
    assert Pow128(4) == 128 * (128 * (128 * (128 * Pow128(0))));
    ParseEncodedLength(|f.payload|, 4, part);
    assert FrameBytes(f)[..1 + |e|] == [f.command] + e;
    hide ParseLength, Encode;
    assert part[..|part|] == part;
  }

  /** With buflen 2, the length 16383 makes it write a third byte. */
  lemma SmallBufferOverrun()
    ensures BlockingWrites([0x30, 0xFF, 0x7F], 2) == [0x30, 0xFF, 0x7F]
  {
    var s: seq<byte> := [0x30, 0xFF, 0x7F];
    assert s[1..] == [0xFF, 0x7F] && [0xFF, 0x7F][1..] == [0x7F];
    assert ParseLength([0x7F], 3) == Got(127, 1);
    assert DecodedLength(s[1..]) == (16383, 2);
    assert Encode(16383) == [0xFF] + Encode(127);
  }

  /**
   MQTTPacket_read from a source that gives n bytes or, at its end, fewer. `buf` is the memory
   from the buffer on, of which buflen bytes are the caller's.
   */
  method Read(buf: array<byte>, buflen: int, stream: seq<byte>) returns (rc: int, rest: seq<byte>)
    requires |BlockingWrites(stream, buflen)| <= buf.Length
    modifies buf
    ensures var r := BlockingFrame(stream);
            if r.Got? && |FrameBytes(r.value)| <= buflen then
              && rc == r.value.command / 16 && rest == stream[r.used..]
              && BlockingWrites(stream, buflen) == FrameBytes(r.value)
            else rc == READ_ERROR
    ensures Appended(old(buf[..]), 0, BlockingWrites(stream, buflen), buf[..])
  {
    hide DecodedLength, Encode, Appended, BlockingFrame, FrameBytes, BlockingWrites;
    rc, rest := READ_ERROR, stream;
    if stream == [] {
      StartAppend(buf[..], 0);
      NothingToRead(buflen);
      return;
    }
    BlockingRest(stream);
    WritesFrom(stream, buflen);
    ghost var s0 := buf[..];
    var remLen, taken, len := ReadHeader(buf, stream);
    rest := stream[1 + taken..];
    if remLen <= |rest| { BytesOfFrame(stream[0], rest[..remLen]); }
    if remLen + len > buflen {
      return;
    }
    ghost var s1, head := buf[..], [stream[0]] + Encode(remLen);
    var body, more := FetchBody(buf, len, remLen, rest);
    AppendedTwice(s0, 0, head, s1, body, buf[..]);
    var whole := remLen <= |rest|;
    rest := more;
    if !whole {
      return;
    }
    AppendedAtStart(s0, head + body, buf[..]);
    rc := buf[0] / 16;
  }

  /** One call of getfn for the body, and what is left of the stream. */
  method FetchBody(buf: array<byte>, len: nat, remLen: nat, rest: seq<byte>) returns (body: seq<byte>, more: seq<byte>)
    requires len + Min(remLen, |rest|) <= buf.Length
    modifies buf
    ensures body == rest[..Min(remLen, |rest|)] && more == rest[Min(remLen, |rest|)..]
    ensures Appended(old(buf[..]), len, body, buf[..])
  {
    hide Appended;
    body, more := rest[..Min(remLen, |rest|)], rest[Min(remLen, |rest|)..];
    var p := Memcpy(buf, len, body);
  }

  /** Header byte and length: read, and written to the buffer. */
  method ReadHeader(buf: array<byte>, stream: seq<byte>) returns (remLen: nat, taken: nat, len: nat)
    requires stream != [] && 1 + |Encode(DecodedLength(stream[1..]).0)| <= buf.Length
    modifies buf
    ensures (remLen, taken) == DecodedLength(stream[1..]) && len == 1 + |Encode(remLen)|
    ensures Appended(old(buf[..]), 0, [stream[0]] + Encode(remLen), buf[..])
  {
    hide DecodedLength, Encode, Appended;
    ghost var s0 := buf[..];
    len := WriteChar(buf, 0, stream[0]);
    ghost var s1 := buf[..];
    var lengthRc;
    lengthRc, remLen, taken := DecodeFrom(stream[1..]);
    var n := EncodeInto(buf, len, remLen);
    len := len + n;
    AppendedTwice(s0, 0, [stream[0]], s1, Encode(remLen), buf[..]);
  }

  /** BlockingFrame in terms of what is left after the length. */
  lemma BlockingRest(stream: seq<byte>)
    requires stream != []
    ensures var (v, u) := DecodedLength(stream[1..]);
            var rest := stream[1 + u..];
            if |rest| < v then BlockingFrame(stream) == Incomplete
            else
              && BlockingFrame(stream) == Got(Frame(stream[0], rest[..v]), 1 + u + v)
              && stream[1 + u + v..] == rest[v..]
  {
    var (v, u) := DecodedLength(stream[1..]);
    var rest := stream[1 + u..];
    if |rest| >= v { assert rest[..v] == stream[1 + u..1 + u + v] && rest[v..] == stream[1 + u + v..]; }
  }

  lemma BytesOfFrame(command: byte, body: seq<byte>)
    ensures FrameBytes(Frame(command, body)) == [command] + Encode(|body|) + body
  {
  }

  lemma AppendedAtStart(s0: seq<byte>, bytes: seq<byte>, s1: seq<byte>)
    requires Appended(s0, 0, bytes, s1)
    ensures |bytes| <= |s1| && s1[..|bytes|] == bytes
    ensures bytes != [] ==> s1[0] == bytes[0]
  {
    assert s0[..0] + bytes == bytes;
  }

  // ----- non-blocking -----

  /** What getfn does next: up to k bytes (none means call again), or an error. */
  datatype NbEvent = Ready(k: nat) | Failed

  ghost predicate NoFailure(schedule: seq<NbEvent>) {
    forall i :: 0 <= i < |schedule| ==> schedule[i].Ready?
  }

  /** The next call of getfn hands over something if there is anything. */
  ghost predicate Flowing(schedule: seq<NbEvent>) {
    schedule != [] && schedule[0].Ready? && schedule[0].k > 0
  }

  /** MQTTTransport, with the socket it reads from. */
  class Transport {
    var multiplier: nat
    var remLen: nat
    var len: nat
    var state: int
    var incoming: seq<byte>
    var schedule: seq<NbEvent>

    method GetFn(n: nat) returns (frc: int, bytes: seq<byte>)
      requires n > 0
      modifies this`incoming, this`schedule
      ensures old(incoming) == bytes + incoming && |bytes| <= n
      ensures frc == |bytes| || (frc == READ_ERROR && bytes == [])
      ensures NoFailure(old(schedule)) ==> NoFailure(schedule) && frc >= 0
      ensures Flowing(old(schedule)) && old(incoming) != [] ==> bytes != []
    {
      var e := if schedule == [] then Ready(0) else schedule[0];
      schedule := if schedule == [] then [] else schedule[1..];
      bytes := [];
      if e.Failed? {
        return READ_ERROR, [];
      }
      var k := if e.k < n then e.k else n;
      k := if k < |incoming| then k else |incoming|;
      bytes, incoming := incoming[..k], incoming[k..];
      frc := k;
    }

    /** The length so far: the bytes d have been read, all of them continued. */
    ghost predicate InLength(d: seq<byte>)
      reads this
    {
      && len == |d| && Continued(d)
      && (len > 0 ==> multiplier == Pow128(len) && remLen == Digits(d))
    }

    /** MQTTPacket_decodenb; t is what it takes from the transport. */
    method DecodeNb(ghost d: seq<byte>) returns (rc: int, ghost t: seq<byte>)
      requires InLength(d) && |d| < 4
      modifies this`incoming, this`schedule, this`multiplier, this`remLen, this`len
      ensures old(incoming) == t + incoming && |d + t| <= 4
      ensures NoFailure(old(schedule)) ==> NoFailure(schedule)
      ensures rc == READ_ERROR ==> Continued(d + t) && (!NoFailure(old(schedule)) || |d + t| == 4)
      ensures rc == 0 ==> InLength(d + t) && |d + t| < 4
      ensures rc == READ_ERROR || rc == 0 || ParseLength(d + t, 4) == Got(remLen, |d + t|)
      ensures Flowing(old(schedule)) && old(incoming) != [] ==> t != []
    {
      hide Digits, ParseLength, Pow128, Continued, NoFailure, Flowing;
      if len == 0 {
        multiplier, remLen := 1, 0;
        NoDigits();
        assert d == [] && Pow128(0) == 1 by { Pow128Values(); }
      }
      t := [];
      ghost var e := d;
      assert d + t == d;
      while true
        invariant e == d + t && |e| <= 4 && old(incoming) == t + incoming
        invariant len == |e| && Continued(e) && multiplier == Pow128(len) && remLen == Digits(e)
        invariant NoFailure(old(schedule)) ==> NoFailure(schedule)
        invariant t == [] ==> schedule == old(schedule) && incoming == old(incoming)
        decreases 4 - |e|
      {
        if len >= 4 {
          return READ_ERROR, t;
        }
        var frc, bytes := GetFn(1);
        if frc == READ_ERROR {
          return READ_ERROR, t;
        }
        if frc == 0 {
          return 0, t;
        }
        var c := bytes[0];
        assert bytes == [c];
        OneMoreDigit(e, c);
        Regroup(d, t, bytes);
        t, e := t + bytes, e + [c];
        len := len + 1;
        remLen := remLen + (c % 128) * multiplier;
        multiplier := multiplier * 128;
        if c < 128 {
          break;
        }
      }
      rc := len;
    }

    /** Between two calls: how the fields and the buffer reflect the bytes c read of the current packet. */
    ghost predicate Progress(s: seq<byte>, buflen: int, c: seq<byte>)
      reads this
    {
      if state == 1 then c != [] && s != [] && s[0] == c[0] && |c| <= 4 && InLength(c[1..])
      else if state == 2 then remLen > 0 && InBody(remLen, len, s, buflen, c)
      else c == []
    }

    /** Case 2 of MQTTPacket_readnb: one call of getfn for the rest of the body. */
    method BodyNb(buf: array<byte>, buflen: int, ghost c: seq<byte>) returns (frc: int, ghost t: seq<byte>)
      requires InBody(remLen, len, buf[..], buflen, c) && remLen > 0
      modifies this`incoming, this`schedule, this`remLen, this`len, buf
      ensures old(incoming) == t + incoming
      ensures frc == READ_ERROR || frc == |t|
      ensures NoFailure(old(schedule)) ==> NoFailure(schedule) && frc >= 0
      ensures InBody(remLen, len, buf[..], buflen, c + t)
      ensures len <= buf.Length && buf[len..] == old(buf[..])[len..] && old(len) <= len
      ensures Flowing(old(schedule)) && old(incoming) != [] ==> t != []
    {
      hide InBody;
      InBodyRoom(remLen, len, buf[..], buflen, c);
      ghost var s0 := buf[..];
      var bytes;
      frc, bytes := GetFn(remLen);
      t := bytes;
      if frc > 0 {
        var p := Memcpy(buf, len, bytes);
        InBodyStep(remLen, len, s0, buflen, c, bytes, buf[..]);
        remLen := remLen - frc;
        len := len + frc;
      } else {
        assert c + t == c;
      }
    }

    /** Case 0 of MQTTPacket_readnb: the header byte. */
    method HeaderNb(buf: array<byte>) returns (frc: int, ghost c: seq<byte>)
      requires 5 <= buf.Length
      modifies this`incoming, this`schedule, this`state, this`len, buf
      ensures old(incoming) == c + incoming
      ensures NoFailure(old(schedule)) ==> NoFailure(schedule) && frc >= 0
      ensures if frc > 0 then state == 1 && len == 0 && |c| == 1 && buf[0] == c[0] else state == 0 && c == []
      ensures Appended(old(buf[..]), 0, c, buf[..])
      ensures Flowing(old(schedule)) && old(incoming) != [] ==> c != []
    {
      state := 0;
      var bytes;
      frc, bytes := GetFn(1);
      c := bytes;
      StartAppend(buf[..], 0);
      if frc > 0 {
        var p := WriteChar(buf, 0, bytes[0]);
        assert bytes == [bytes[0]];
        len := 0;
        state := 1;
      }
    }

    /** The length is complete: it is written back in its shortest form, and the packet must fit. */
    method PutLengthBack(buf: array<byte>, buflen: int, ghost c: seq<byte>) returns (fits: bool)
      requires 5 <= buf.Length && buflen <= buf.Length && c != [] && buf[0] == c[0]
      requires ParseLength(c[1..], 4) == Got(remLen, |c| - 1)
      modifies this`len, this`state, buf
      ensures if fits then state == 2 && InBody(remLen, len, buf[..], buflen, c) else TooLong(c, buflen)
      ensures Appended(old(buf[..]), 0, NbWrites(c, buflen), buf[..]) && OnePacket(c) && NbWrites(c, buflen) != []
    {
      hide InBody, Appended, ParseLength, Encode, NbWrites, OnePacket;
      LengthFits(c[1..]);
      ghost var s0 := buf[..];
      var n := EncodeInto(buf, 1, remLen);
      len := 1 + n;
      HeaderThenLength(s0, c, remLen, buflen, buf[..]);
      fits := remLen + len <= buflen;
      if fits {
        BodyStart(buf[..], buflen, c, remLen);
        state := 2;
      }
    }

    /** Case 1: the length, and the check that the packet fits. */
    method LengthNb(buf: array<byte>, buflen: int, ghost c: seq<byte>) returns (frc: int, ghost c': seq<byte>)
      requires 5 <= buf.Length && buflen <= buf.Length && state == 1 && Progress(buf[..], buflen, c)
      modifies this, buf
      ensures c + old(incoming) == c' + incoming && c <= c'
      ensures NoFailure(old(schedule)) ==> NoFailure(schedule)
      ensures frc == READ_ERROR ==> NoFailure(old(schedule)) ==> BadLength(c') || TooLong(c', buflen)
      ensures frc == 0 ==> state == 1 && Progress(buf[..], buflen, c')
      ensures frc == READ_ERROR || frc == 0 || (state == 2 && InBody(remLen, len, buf[..], buflen, c'))
      ensures Appended(old(buf[..]), 0, NbWrites(c', buflen), buf[..]) && OnePacket(c')
      ensures |NbWrites(c, buflen)| <= |NbWrites(c', buflen)|
      ensures Flowing(old(schedule)) && old(incoming) != [] ==> |c'| > |c|
    {
      hide InBody, Appended, ParseLength, Digits, NbWrites, OnePacket, TooLong, NoFailure, Flowing, Continued;
      ghost var t;
      ghost var s0 := buf[..];
      OnlyHeaderWritten(s0, buflen, c);
      frc, t := DecodeNb(c[1..]);
      c' := c + t;
      assert c'[1..] == c[1..] + t;
      if frc == READ_ERROR || frc == 0 {
        OnlyHeaderWritten(s0, buflen, c');
      } else {
        var fits := PutLengthBack(buf, buflen, c');
        if !fits {
          frc := READ_ERROR;
        }
      }
    }

    /** Case 2 and the end of MQTTPacket_readnb: the rest of the body, and the packet type when it is complete. */
    method FinishNb(buf: array<byte>, buflen: int, ghost c: seq<byte>)
      returns (rc: int, ghost c': seq<byte>, ghost done: bool)
      requires state == 2 && InBody(remLen, len, buf[..], buflen, c)
      modifies this, buf
      ensures c + old(incoming) == c' + incoming && c <= c'
      ensures NoFailure(old(schedule)) ==> NoFailure(schedule) && rc != READ_ERROR
      ensures done ==> c' != [] && Complete(buf[..], buflen, c') && rc == c'[0] / 16 && state == 0
      ensures !done && rc != READ_ERROR ==> rc == 0 && Progress(buf[..], buflen, c')
      ensures rc == READ_ERROR ==> !done && state == 0
      ensures old(remLen) > 0 && Flowing(old(schedule)) && old(incoming) != [] ==> |c'| > |c|
      ensures OnePacket(c') && Appended(old(buf[..]), 0, NbWrites(c', buflen), buf[..])
      ensures |NbWrites(c, buflen)| <= |NbWrites(c', buflen)|
    {
      hide InBody, Complete, NoFailure, Flowing, NbWrites, Appended, OnePacket, ParseLength;
      rc, c', done := READ_ERROR, c, false;
      ghost var s0 := buf[..];
      InBodyWrites(remLen, len, s0, buflen, c);
      WroteSoFar(s0, s0, NbWrites(c, buflen));
      if remLen > 0 {
        var frc;
        ghost var t;
        frc, t := BodyNb(buf, buflen, c);
        Regroup(c, t, incoming);
        c' := c + t;
        InBodyWrites(remLen, len, buf[..], buflen, c');
        WroteSoFar(s0, buf[..], NbWrites(c', buflen));
        if frc == READ_ERROR {
          state := 0;
          return;
        }
        if remLen > 0 {
          rc := 0;
          return;
        }
      }
      BodyDone(len, buf[..], buflen, c');
      rc := buf[0] / 16;
      done := true;
      state := 0;
    }

    /**
     MQTTPacket_readnb. c is what earlier calls read of the current packet, c' what this call
     makes of it. Until the last byte the answer is "call again"; then the buffer holds the
     frame and the state is 0 again.
     */
    method ReadNb(buf: array<byte>, buflen: int, ghost c: seq<byte>)
      returns (rc: int, ghost c': seq<byte>, ghost done: bool)
      requires 5 <= buf.Length && buflen <= buf.Length && Progress(buf[..], buflen, c)
      modifies this, buf
      ensures c + old(incoming) == c' + incoming && c <= c'
      ensures NoFailure(old(schedule)) ==> NoFailure(schedule)
      ensures done ==> c' != [] && Complete(buf[..], buflen, c') && rc == c'[0] / 16 && state == 0
      ensures !done && rc != READ_ERROR ==> rc == 0 && Progress(buf[..], buflen, c')
      ensures rc == READ_ERROR ==> state == 0 && (NoFailure(old(schedule)) ==> BadLength(c') || TooLong(c', buflen))
      ensures Flowing(old(schedule)) && old(incoming) != [] ==> |c'| > |c|
      ensures OnePacket(c') && Appended(old(buf[..]), 0, NbWrites(c', buflen), buf[..])
    {
      hide InBody, BadLength, TooLong, Complete, NoFailure, Flowing, Digits, NbWrites, Appended, OnePacket, ParseLength;
      rc, c', done := READ_ERROR, c, false;
      var frc;
      ghost var s0, s, w := buf[..], buf[..], c;
      ProgressWrote(this, s0, buflen, c);
      if state != 1 && state != 2 {
        frc, c' := HeaderNb(buf);
        HeaderWrote(c', buflen);
        if frc <= 0 {
          rc := if frc == 0 then 0 else READ_ERROR;
          return;
        }
      }
      if state == 1 {
        s, w := buf[..], c';
        frc, c' := LengthNb(buf, buflen, c');
        Overwrite(s0, NbWrites(w, buflen), s, NbWrites(c', buflen), buf[..]);
        if frc == READ_ERROR {
          state := 0;
          return;
        }
        if frc == 0 {
          rc := 0;
          return;
        }
      }
      s, w := buf[..], c';
      rc, c', done := FinishNb(buf, buflen, c');
      Overwrite(s0, NbWrites(w, buflen), s, NbWrites(c', buflen), buf[..]);
    }
  }

  /** What is in the buffer between two calls. */
  lemma ProgressWrote(tr: Transport, s: seq<byte>, buflen: int, c: seq<byte>)
    requires tr.Progress(s, buflen, c)
    ensures OnePacket(c) && Appended(s, 0, NbWrites(c, buflen), s)
  {
    hide InBody, ParseLength, Encode;
    if tr.state == 1 {
      NotYetLength(c);
      OnlyHeaderWritten(s, buflen, c);
    } else if tr.state == 2 {
      InBodyWrites(tr.remLen, tr.len, s, buflen, c);
      WroteSoFar(s, s, NbWrites(c, buflen));
    } else {
      StartAppend(s, 0);
    }
  }

  lemma HeaderWrote(c: seq<byte>, buflen: int)
    requires |c| <= 1
    ensures NbWrites(c, buflen) == c && OnePacket(c)
  {
    if c != [] { assert c[1..] == [] && ParseLength([], 4) == Incomplete; }
  }

  /** Writing again from the start, at least as far. */
  lemma Overwrite(s0: seq<byte>, v: seq<byte>, s1: seq<byte>, w: seq<byte>, s2: seq<byte>)
    requires Appended(s0, 0, v, s1) && Appended(s1, 0, w, s2) && |v| <= |w|
    ensures Appended(s0, 0, w, s2)
  {
    assert s2[|w|..] == s1[|v|..][|w| - |v|..] == s0[|v|..][|w| - |v|..] == s0[|w|..];
    assert s2[..|w|] == s1[..0] + w == s0[..0] + w;
  }

  lemma OneMoreDigit(e: seq<byte>, c: byte)
    requires Continued(e) && |e| < 4
    ensures Digits(e + [c]) == Digits(e) + (c % 128) * Pow128(|e|) && Pow128(|e| + 1) == Pow128(|e|) * 128
    ensures if c < 128 then ParseLength(e + [c], 4) == Got(Digits(e + [c]), |e| + 1) else Continued(e + [c])
  {
    DigitsAppend(e, c);
    if c < 128 {
      LastDigit(e, c, []);
      assert e + [c] + [] == e + [c];
    }
  }

  /** The bytes c are one whole packet, and the buffer holds it. */
  ghost predicate Complete(s: seq<byte>, buflen: int, c: seq<byte>) {
    var r := ParseFrame(c);
    c != [] && r.Got? && r.used == |c| && Holds(s, buflen, r.value)
  }

  lemma LengthFits(d: seq<byte>)
    requires ParseLength(d, 4).Got?
    ensures |Encode(ParseLength(d, 4).value)| <= 4
  {
    hide ParseLength, Encode;
    Pow128Values();
    ParseLengthBound(d, 4);
    EncodeLength(ParseLength(d, 4).value);
  }

  lemma HeaderThenLength(s0: seq<byte>, c: seq<byte>, v: nat, buflen: int, s1: seq<byte>)
    requires c != [] && s0 != [] && s0[0] == c[0] && Appended(s0, 1, Encode(v), s1)
    requires ParseLength(c[1..], 4) == Got(v, |c| - 1)
    ensures 1 + |Encode(v)| <= |s1| && s1[..1 + |Encode(v)|] == [c[0]] + Encode(v)
    ensures Appended(s0, 0, NbWrites(c, buflen), s1) && OnePacket(c) && NbWrites(c, buflen) != []
  {
    hide Encode, ParseLength, Appended, NbWrites;
    HeaderThenDigits(s0, c[0], Encode(v), s1);
    WritesAtLength(c, v, buflen);
  }

  lemma HeaderThenDigits(s0: seq<byte>, b: byte, e: seq<byte>, s1: seq<byte>)
    requires s0 != [] && s0[0] == b && Appended(s0, 1, e, s1)
    ensures 1 + |e| <= |s1| && s1[..1 + |e|] == [b] + e && Appended(s0, 0, [b] + e, s1)
  {
    assert s0[..1] == [b] && s0[..0] + ([b] + e) == [b] + e;
  }

  lemma WritesAtLength(c: seq<byte>, v: nat, buflen: int)
    requires c != [] && ParseLength(c[1..], 4) == Got(v, |c| - 1)
    ensures NbWrites(c, buflen) == [c[0]] + Encode(v) && OnePacket(c)
  {
    hide Encode, ParseLength;
    assert c[|c|..] == [];
  }

  /**
   What the buffer holds when the bytes c of a packet have been read: the header byte, then the
   length in its shortest form, then the body unless the packet is too long.
   */
  function NbWrites(c: seq<byte>, buflen: int): seq<byte> {
    if c == [] then []
    else
      var n := ParseLength(c[1..], 4);
      if !n.Got? then [c[0]]
      else
        var head := [c[0]] + Encode(n.value);
        if |head| + n.value > buflen then head else head + c[1 + n.used..]
  }

  /** c holds nothing beyond one packet. */
  ghost predicate OnePacket(c: seq<byte>) {
    c != [] && ParseLength(c[1..], 4).Got? ==> |c| <= 1 + ParseLength(c[1..], 4).used + ParseLength(c[1..], 4).value
  }

  /** The non-blocking reader stays inside the buffer exactly when what precedes the body does. */
  lemma NbStaysInsideIff(c: seq<byte>, buflen: int)
    requires c != [] && OnePacket(c)
    ensures var n := ParseLength(c[1..], 4);
            |NbWrites(c, buflen)| <= buflen <==> 1 + (if n.Got? then |Encode(n.value)| else 0) <= buflen
  {
    hide ParseLength, Encode;
  }

  lemma NotYetLength(c: seq<byte>)
    requires c != [] && |c| <= 5 && Continued(c[1..])
    ensures !ParseLength(c[1..], 4).Got?
  {
    assert c[1..] + [] == c[1..];
    NoLength(c[1..], []);
  }

  /** With buflen 2, the length 16383 makes this reader write a third byte too. */
  lemma NbSmallBufferOverrun()
    ensures NbWrites([0x30, 0xFF, 0x7F], 2) == [0x30, 0xFF, 0x7F]
  {
    var s: seq<byte> := [0x30, 0xFF, 0x7F];
    assert s[1..] == [0xFF, 0x7F] && [0xFF, 0x7F][1..] == [0x7F];
    assert ParseLength([0x7F], 3) == Got(127, 1);
    assert ParseLength(s[1..], 4) == Got(16383, 2);
    assert Encode(16383) == [0xFF] + Encode(127);
  }

  /** In any case at most five bytes, or buflen. */
  lemma NbWritesBound(c: seq<byte>, buflen: int)
    requires OnePacket(c)
    ensures |NbWrites(c, buflen)| <= 5 || |NbWrites(c, buflen)| <= buflen
  {
    hide ParseLength, Encode;
    if c != [] && ParseLength(c[1..], 4).Got? { LengthFits(c[1..]); }
  }

  lemma OnlyHeaderWritten(s: seq<byte>, buflen: int, c: seq<byte>)
    requires c != [] && s != [] && s[0] == c[0] && |c| <= 5 && Continued(c[1..])
    ensures Appended(s, 0, NbWrites(c, buflen), s) && OnePacket(c) && |NbWrites(c, buflen)| == 1
  {
    NotYetLength(c);
    assert s[..1] == [c[0]] && s[..0] + [c[0]] == [c[0]];
  }

  lemma InBodyWrites(remLen: nat, len: nat, s: seq<byte>, buflen: int, c: seq<byte>)
    requires InBody(remLen, len, s, buflen, c)
    ensures len <= |s| && NbWrites(c, buflen) == s[..len] && OnePacket(c)
  {
    hide ParseLength, Encode;
  }

  lemma WroteSoFar(s0: seq<byte>, s1: seq<byte>, w: seq<byte>)
    requires |w| <= |s0| == |s1| && s1[..|w|] == w && s1[|w|..] == s0[|w|..]
    ensures Appended(s0, 0, w, s1)
  {
    assert s0[..0] + w == w;
  }

  /** The header byte and the whole length are known; c is everything read of this packet. */
  ghost predicate InBody(remLen: nat, len: nat, s: seq<byte>, buflen: int, c: seq<byte>) {
    && c != [] && ParseLength(c[1..], 4).Got?
    && var n := ParseLength(c[1..], 4);
       var k := |c| - 1 - n.used;
       && 0 <= k <= n.value && remLen == n.value - k && len == 1 + |Encode(n.value)| + k
       && len + remLen <= buflen <= |s|
       && s[..len] == [c[0]] + Encode(n.value) + c[1 + n.used..]
  }

  lemma InBodyRoom(remLen: nat, len: nat, s: seq<byte>, buflen: int, c: seq<byte>)
    requires InBody(remLen, len, s, buflen, c)
    ensures len + remLen <= buflen <= |s|
  {
  }

  lemma InBodyStep(remLen: nat, len: nat, s: seq<byte>, buflen: int, c: seq<byte>, t: seq<byte>, s': seq<byte>)
    requires InBody(remLen, len, s, buflen, c) && |t| <= remLen && Appended(s, len, t, s')
    ensures InBody(remLen - |t|, len + |t|, s', buflen, c + t)
  {
    var n := ParseLength(c[1..], 4);
    assert (c + t)[1..] == c[1..] + t;
    ParseLengthExtend(c[1..], t, 4);
    hide ParseLength, Encode;
    assert (c + t)[1 + n.used..] == c[1 + n.used..] + t;
    assert s'[..len + |t|] == [c[0]] + Encode(n.value) + (c[1 + n.used..] + t);
  }

  /** The frame is in the buffer, and the buffer was large enough for it. */
  ghost predicate Holds(s: seq<byte>, buflen: int, f: Frame) {
    |FrameBytes(f)| <= buflen <= |s| && s[..|FrameBytes(f)|] == FrameBytes(f)
  }

  /** Four length bytes have been read and a fifth is announced. */
  ghost predicate BadLength(c: seq<byte>) {
    |c| == 5 && Continued(c[1..])
  }

  /** The length is known and the frame does not fit. */
  ghost predicate TooLong(c: seq<byte>, buflen: int) {
    && c != [] && ParseLength(c[1..], 4).Got?
    && var n := ParseLength(c[1..], 4); 1 + |Encode(n.value)| + n.value > buflen
  }

  lemma BodyDone(len: nat, s: seq<byte>, buflen: int, c: seq<byte>)
    requires InBody(0, len, s, buflen, c)
    ensures c != [] && Complete(s, buflen, c) && s != [] && s[0] == c[0]
  {
    hide ParseLength, Encode;
    var n := ParseLength(c[1..], 4);
    assert |c| == 1 + n.used + n.value;
    assert c[1 + n.used..1 + n.used + n.value] == c[1 + n.used..];
    assert s[..len][0] == c[0];
  }

  lemma BodyStart(s: seq<byte>, buflen: int, c: seq<byte>, v: nat)
    requires c != [] && ParseLength(c[1..], 4) == Got(v, |c| - 1)
    requires 1 + |Encode(v)| + v <= buflen <= |s| && s[..1 + |Encode(v)|] == [c[0]] + Encode(v)
    ensures InBody(v, 1 + |Encode(v)|, s, buflen, c)
  {
    assert c[|c|..] == [];
  }

  /** As long as the answer is "call again", the bytes read are not a whole packet. */
  lemma ProgressIsIncomplete(tr: Transport, s: seq<byte>, buflen: int, c: seq<byte>)
    requires tr.Progress(s, buflen, c)
    ensures ParseFrame(c) == Incomplete
  {
    if tr.state == 1 {
      NoLength(c[1..], []);
      assert c[1..] + [] == c[1..];
    }
  }

  // ----- whole packets, in any number of calls -----

  /** Between two calls more bytes arrive; the events are what getfn will do in the next call. */
  datatype Round = Round(arrived: seq<byte>, events: seq<NbEvent>)

  function Arrived(rounds: seq<Round>): seq<byte> {
    if rounds == [] then [] else Arrived(rounds[..|rounds| - 1]) + rounds[|rounds| - 1].arrived
  }

  /** The front of a stream decides: a whole packet, or a length that rules one out. */
  lemma FrontDecides(c: seq<byte>, rest: seq<byte>, buflen: int)
    ensures ParseFrame(c).Got? ==> ParseFrame(c + rest) == ParseFrame(c)
    ensures BadLength(c) ==> !ParseFrame(c + rest).Got?
    ensures TooLong(c, buflen) && ParseFrame(c + rest).Got? ==> |FrameBytes(ParseFrame(c + rest).value)| > buflen
  {
    if c != [] {
      hide ParseLength, Encode;
      var n := ParseLength(c[1..], 4);
      assert (c + rest)[1..] == c[1..] + rest;
      if n.Got? {
        ParseLengthExtend(c[1..], rest, 4);
        var u, v := n.used, n.value;
        if 1 + u + v <= |c| { assert (c + rest)[1 + u..1 + u + v] == c[1 + u..1 + u + v]; }
      }
      if BadLength(c) { NoLength(c[1..], rest); }
    }
  }

  /** The frame that reading from s is to yield, if it fits the buffer. */
  ghost predicate Fits(s: seq<byte>, buflen: int) {
    ParseFrame(s).Got? && |FrameBytes(ParseFrame(s).value)| <= buflen
  }

  /** Whole packets of type 0: ReadNb returns 0 for them, which reads as "call again". */
  ghost predicate TypeZero(s: seq<byte>)
    decreases |s|
  {
    s == [] || (ParseFrame(s).Got? && s[0] < 16 && TypeZero(s[ParseFrame(s).used..]))
  }

  lemma {:induction false} TypeZeroAppend(a: seq<byte>, b: seq<byte>)
    requires TypeZero(a) && b != [] && ParseFrame(b).Got? && ParseFrame(b).used == |b| && b[0] < 16
    ensures TypeZero(a + b)
    decreases |a|
  {
    hide ParseFrame;
    if a == [] {
      assert a + b == b && b[|b|..] == [];
    } else {
      var u := ParseFrame(a).used;
      FrontDecides(a, b, 0);
      assert (a + b)[u..] == a[u..] + b;
      TypeZeroAppend(a[u..], b);
    }
  }

  method OneRound(tr: Transport, buf: array<byte>, buflen: int, r: Round, ghost c: seq<byte>, ghost all: seq<byte>)
    returns (rc: int, ghost c': seq<byte>, ghost done: bool)
    requires 5 <= buf.Length && buflen <= buf.Length && NoFailure(r.events)
    requires tr.Progress(buf[..], buflen, c) && c + tr.incoming == all
    modifies tr, buf
    ensures c' + tr.incoming == all + r.arrived
    ensures done ==> c' != [] && Complete(buf[..], buflen, c') && rc == c'[0] / 16 && tr.state == 0
    ensures !done && rc >= 0 ==> rc == 0 && tr.Progress(buf[..], buflen, c')
    ensures rc < 0 ==> !Fits(all + r.arrived, buflen) && (BadLength(c') || TooLong(c', buflen)) && tr.state == 0
    ensures buflen >= 5 ==> buf[buflen..] == old(buf[..])[buflen..]
  {
    hide ParseFrame, Complete, BadLength, TooLong, NoFailure, Flowing, Appended, NbWrites, OnePacket;
    Regroup(c, tr.incoming, r.arrived);
    tr.incoming := tr.incoming + r.arrived;
    tr.schedule := r.events;
    ghost var s0 := buf[..];
    rc, c', done := tr.ReadNb(buf, buflen, c);
    FrontDecides(c', tr.incoming, buflen);
    NbWritesBound(c', buflen);
    if buflen >= 5 { UntouchedBeyond(s0, NbWrites(c', buflen), buf[..], buflen); }
  }

  lemma UntouchedBeyond(s0: seq<byte>, w: seq<byte>, s1: seq<byte>, k: nat)
    requires Appended(s0, 0, w, s1) && |w| <= k <= |s0|
    ensures s1[k..] == s0[k..]
  {
    assert s1[k..] == s1[|w|..][k - |w|..] && s0[k..] == s0[|w|..][k - |w|..];
  }

  /** What a run of calls has found: a packet, nothing yet, or that the next packet does not fit. */
  ghost predicate Found(rc: int, tr: Transport, s: seq<byte>, buflen: int, c: seq<byte>)
    reads tr
  {
    && (rc == 0 ==> tr.Progress(s, buflen, c))
    && (rc > 0 ==> c != [] && Complete(s, buflen, c) && rc == c[0] / 16 && tr.state == 0)
    && (rc < 0 ==> !Fits(c + tr.incoming, buflen) && (BadLength(c) || TooLong(c, buflen)) && tr.state == 0)
  }

  /**
   MQTTPacket_readnb called again for as long as it says so, on a stream cut in any way and
   without transport errors: when it stops, it has found the first packet of a type other than
   0, or the next packet does not fit; while it goes on, the packet is not complete. With a
   buffer of five bytes or more it never writes past the buffer.
   */
  method ReadInRounds(tr: Transport, buf: array<byte>, buflen: int, rounds: seq<Round>)
    returns (rc: int, n: nat, ghost skipped: seq<byte>, ghost c: seq<byte>)
    requires 5 <= buf.Length && buflen <= buf.Length && tr.state == 0 && tr.incoming == []
    requires forall i :: 0 <= i < |rounds| ==> NoFailure(rounds[i].events)
    modifies tr, buf
    ensures n <= |rounds| && skipped + (c + tr.incoming) == Arrived(rounds[..n]) && TypeZero(skipped)
    ensures rc == 0 ==> n == |rounds| && ParseFrame(c) == Incomplete
    ensures rc > 0 ==> c != [] && Complete(buf[..], buflen, c) && rc == c[0] / 16 && tr.state == 0
    ensures rc < 0 ==> !Fits(c + tr.incoming, buflen) && (BadLength(c) || TooLong(c, buflen)) && tr.state == 0
    ensures buflen >= 5 ==> buf[buflen..] == old(buf[..])[buflen..]
  {
    hide ParseFrame, Complete, Fits, NoFailure, Arrived, TypeZero;
    NothingArrived(rounds);
    rc, n, skipped, c := 0, 0, [], [];
    while n < |rounds| && rc == 0
      invariant n <= |rounds| && skipped + (c + tr.incoming) == Arrived(rounds[..n]) && TypeZero(skipped)
      invariant Found(rc, tr, buf[..], buflen, c)
      invariant buflen >= 5 ==> buf[buflen..] == old(buf[..])[buflen..]
      decreases |rounds| - n
    {
      ArrivedStep(rounds, n);
      ghost var all, done := c + tr.incoming, false;
      Regroup(skipped, all, rounds[n].arrived);
      rc, c, done := OneRound(tr, buf, buflen, rounds[n], c, all);
      n := n + 1;
      if done && rc == 0 {
        CompleteParses(buf[..], buflen, c);
        TypeZeroAppend(skipped, c);
        Regroup(skipped, c, tr.incoming);
        assert [] + tr.incoming == tr.incoming;
        skipped, c := skipped + c, [];
      }
    }
    if rc == 0 { ProgressIsIncomplete(tr, buf[..], buflen, c); }
  }

  lemma CompleteParses(s: seq<byte>, buflen: int, c: seq<byte>)
    requires Complete(s, buflen, c)
    ensures c != [] && ParseFrame(c).Got? && ParseFrame(c).used == |c| && Holds(s, buflen, ParseFrame(c).value)
  {
  }

  lemma NothingArrived(rounds: seq<Round>)
    ensures Arrived(rounds[..0]) == [] && TypeZero([])
  {
  }

  lemma ArrivedStep(rounds: seq<Round>, n: nat)
    requires n < |rounds|
    ensures Arrived(rounds[..n + 1]) == Arrived(rounds[..n]) + rounds[n].arrived
  {
    assert rounds[..n + 1][..n] == rounds[..n];
  }

  lemma {:induction false} ArrivedPrefix(rounds: seq<Round>, n: nat)
    requires n <= |rounds|
    ensures Arrived(rounds[..n]) <= Arrived(rounds)
    decreases |rounds| - n
  {
    if n < |rounds| {
      ArrivedStep(rounds, n);
      ArrivedPrefix(rounds, n + 1);
    } else {
      assert rounds[..n] == rounds;
    }
  }

  /**
   On the same stream, the non-blocking reader finds what the blocking one finds exactly when
   the first packet has a type other than 0; then both leave the same bytes. Where it reports an
   error on a stream that starts with a packet, so does the blocking one.
   */
  method BothReaders(tr: Transport, nbBuf: array<byte>, buf: array<byte>, buflen: int, rounds: seq<Round>)
    returns (rcNb: int, rc: int)
    requires 5 <= nbBuf.Length && buflen <= nbBuf.Length && 5 <= buf.Length && buflen <= buf.Length && buf != nbBuf
    requires tr.state == 0 && tr.incoming == []
    requires forall i :: 0 <= i < |rounds| ==> NoFailure(rounds[i].events)
    modifies tr, nbBuf, buf
    ensures var s := Arrived(rounds);
            && (rcNb > 0 ==> s != [] && tr.state == 0 && (rc == rcNb <==> s[0] >= 16))
            && (rcNb > 0 && rc == rcNb ==>
                  && ParseFrame(s).Got? && Holds(nbBuf[..], buflen, ParseFrame(s).value)
                  && Holds(buf[..], buflen, ParseFrame(s).value))
            && (rcNb < 0 && s != [] && s[0] >= 16 && ParseFrame(s).Got? ==> rc == READ_ERROR)
            && (rcNb == 0 && tr.incoming == [] && s != [] && s[0] >= 16 ==> !ParseFrame(s).Got?)
  {
    hide ParseFrame, BlockingFrame, NoFailure, Arrived, BlockingWrites, Appended, Complete, Fits;
    var n;
    ghost var skipped, c;
    rcNb, n, skipped, c := ReadInRounds(tr, nbBuf, buflen, rounds);
    ghost var all := Arrived(rounds);
    ArrivedPrefix(rounds, n);
    assert rcNb == 0 ==> rounds[..n] == rounds;
    if rcNb > 0 { CompleteParses(nbBuf[..], buflen, c); }
    FirstPacket(all, skipped, c, tr.incoming, buflen);
    var stream := Arrived(rounds);
    BlockingWritesBound(stream, buflen);
    BlockingCommand(stream);
    ghost var s0 := buf[..];
    var rest;
    rc, rest := Read(buf, buflen, stream);
    AppendedAtStart(s0, BlockingWrites(stream, buflen), buf[..]);
  }

  /** The first packet of a stream that starts with the packets skipped and then c. */
  lemma FirstPacket(all: seq<byte>, skipped: seq<byte>, c: seq<byte>, incoming: seq<byte>, buflen: int)
    requires skipped + (c + incoming) <= all && TypeZero(skipped)
    ensures skipped != [] ==> all != [] && all[0] < 16
    ensures skipped == [] && c != [] ==> all != [] && all[0] == c[0]
    ensures skipped == [] && ParseFrame(c).Got? ==> ParseFrame(all) == ParseFrame(c)
    ensures skipped == [] && incoming == [] ==> skipped + (c + incoming) == c
    ensures skipped == [] && (BadLength(c) || TooLong(c, buflen)) && ParseFrame(all).Got? ==>
      |FrameBytes(ParseFrame(all).value)| > buflen
  {
    hide ParseFrame;
    if skipped == [] {
      assert skipped + (c + incoming) == c + incoming;
      assert all == c + all[|c|..];
      FrontDecides(c, all[|c|..], buflen);
    }
  }

  lemma BlockingCommand(s: seq<byte>)
    ensures BlockingFrame(s).Got? ==> s != [] && BlockingFrame(s).value.command == s[0]
    ensures ParseFrame(s).Got? ==> BlockingFrame(s) == ParseFrame(s)
  {
    if ParseFrame(s).Got? { BlockingFrameIsParse(s); }
  }
}
