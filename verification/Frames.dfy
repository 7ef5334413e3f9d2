/**
 MQTT frames as packet_mosq.c moves them: the wire form that packet__alloc builds, the
 resumable parser state that packet__read keeps in `in_packet`, and a one-shot parser as
 the reference both are measured against.
 */
module Frames {
  import opened Bytes
  import opened Varint

  datatype Frame = Frame(command: byte, payload: seq<byte>)

  /** What packet__alloc lays out and the send functions fill. */
  function FrameBytes(f: Frame): seq<byte> {
    [f.command] + Encode(|f.payload|) + f.payload
  }

  function FramesBytes(fs: seq<Frame>): seq<byte> {
    if fs == [] then [] else FrameBytes(fs[0]) + FramesBytes(fs[1..])
  }

  predicate Sendable(f: Frame) {
    f.command != 0 && |f.payload| <= MAX_REMAINING_LENGTH
  }

  // ----- the one-shot parser -----

  datatype Parsed<+T> = Incomplete | Malformed | Got(value: T, used: nat)

  /** Remaining Length at the front of s: at most k bytes; overlong forms are accepted here. */
  function ParseLength(s: seq<byte>, k: nat): (r: Parsed<nat>)
    ensures r.Got? ==> 1 <= r.used <= |s|
    decreases k, |s|
  {
    if s == [] then Incomplete
    else if k == 0 then Malformed
    else if s[0] < 128 then Got(s[0], 1)
    else
      match ParseLength(s[1..], k - 1)
      case Incomplete => Incomplete
      case Malformed => Malformed
      case Got(v, u) => Got(s[0] as int - 128 + 128 * v, u + 1)
  }

  function ParseFrame(s: seq<byte>): (r: Parsed<Frame>)
    ensures r.Got? ==> 2 <= r.used <= |s|
  {
    if s == [] then Incomplete
    else
      match ParseLength(s[1..], 4)
      case Incomplete => Incomplete
      case Malformed => Malformed
      case Got(len, u) =>
        if |s| < 1 + u + len then Incomplete
        else Got(Frame(s[0], s[1 + u..1 + u + len]), 1 + u + len)
  }

  /** All the complete frames at the front of a byte stream. */
  function Parse(s: seq<byte>): seq<Frame>
    decreases |s|
  {
    var r := ParseFrame(s);
    if r.Got? then [r.value] + Parse(s[r.used..]) else []
  }

  // ----- the resumable parser -----

  /** `in_packet`: the payload bytes received so far stand for payload[..pos]. */
  datatype InPacket = InPacket(command: byte, remainingCount: int, remainingMult: nat,
                               remainingLength: nat, payload: seq<byte>, toProcess: nat)

  /** packet__cleanup */
  const CLEAN: InPacket := InPacket(0, 0, 1, 0, [], 0)

  datatype Phase = NeedCommand | NeedLength | NeedBody

  /** Where a new call of packet__read picks up: decided by the fields alone. */
  function Resume(p: InPacket): Phase {
    if p.command == 0 then NeedCommand
    else if p.remainingCount <= 0 then NeedLength
    else NeedBody
  }

  datatype Reader = Reader(p: InPacket, phase: Phase)

  datatype Out = Quiet | Deliver(frame: Frame) | Reject

  /** A packet whose body is complete is handed over and in_packet cleaned. */
  function Settle(p: InPacket): (Reader, Out) {
    if p.toProcess == 0 then (Reader(CLEAN, NeedCommand), Deliver(Frame(p.command, p.payload)))
    else (Reader(p, NeedBody), Quiet)
  }

  /** One byte of the stream arriving in the middle of a call. */
  function OnByte(r: Reader, b: byte): (Reader, Out) {
    var p := r.p;
    match r.phase
    case NeedCommand =>
      var q := p.(command := b);
      if q.remainingCount <= 0 then (Reader(q, NeedLength), Quiet) else Settle(q)
    case NeedLength =>
      var count := p.remainingCount - 1;
      if count < -4 then (Reader(p.(remainingCount := count), NeedLength), Reject)
      else
        var q := p.(remainingCount := count,
                    remainingLength := p.remainingLength + (b % 128) * p.remainingMult,
                    remainingMult := p.remainingMult * 128);
        if b >= 128 then (Reader(q, NeedLength), Quiet)
        else Settle(q.(remainingCount := -count, toProcess := q.remainingLength))
    case NeedBody =>
      if p.toProcess == 0 then Settle(p)
      else Settle(p.(payload := p.payload + [b], toProcess := p.toProcess - 1))
  }

  datatype Fed = Fed(reader: Reader, frames: seq<Frame>, rejected: bool)

  /** Bytes arriving one after the other with no interruption; a rejected stream stays rejected. */
  function Feed(r: Reader, s: seq<byte>): Fed
    decreases |s|
  {
    if s == [] then Fed(r, [], false)
    else
      var (r', out) := OnByte(r, s[0]);
      match out
      case Quiet => Feed(r', s[1..])
      case Deliver(f) => var t := Feed(r', s[1..]); t.(frames := [f] + t.frames)
      case Reject => Fed(r', [], true)
  }

  const START: Reader := Reader(CLEAN, NeedCommand)

  /** A stream read by successive calls: each call resumes from the fields the last one left. */
  function FeedCalls(p: InPacket, chunks: seq<seq<byte>>): Fed
    decreases |chunks|
  {
    if chunks == [] then Fed(Reader(p, Resume(p)), [], false)
    else
      var t := Feed(Reader(p, Resume(p)), chunks[0]);
      if t.rejected then t
      else var u := FeedCalls(t.reader.p, chunks[1..]); u.(frames := t.frames + u.frames)
  }

  function Concat(chunks: seq<seq<byte>>): seq<byte> {
    if chunks == [] then [] else chunks[0] + Concat(chunks[1..])
  }

  // ----- feeding in pieces -----

  function Then(a: Fed, s: seq<byte>): Fed {
    if a.rejected then a
    else var t := Feed(a.reader, s); t.(frames := a.frames + t.frames)
  }

  lemma {:induction false} FeedConcat(r: Reader, s: seq<byte>, t: seq<byte>)
    ensures Feed(r, s + t) == Then(Feed(r, s), t)
    decreases |s|
  {
    if s == [] {
      assert s + t == t;
    } else {
      assert (s + t)[1..] == s[1..] + t;
      var (r', out) := OnByte(r, s[0]);
      if !out.Reject? {
        FeedConcat(r', s[1..], t);
      }
    }
  }

  /** The phase inside a call is the one a new call would choose. */
  predicate Resumable(r: Reader) {
    r.phase == Resume(r.p)
  }

  /** No frame delivered, or under way at the end, has command byte 0. */
  predicate NoZeroCommand(t: Fed) {
    && (forall f | f in t.frames :: f.command != 0)
    && (t.reader.phase == NeedCommand || t.reader.p.command != 0)
  }

  /** The reader is either between packets, with clean fields, or inside one. */
  predicate Sane(r: Reader) {
    match r.phase
    case NeedCommand => r.p == CLEAN
    case NeedLength => r.p.remainingCount <= 0
    case NeedBody => r.p.remainingCount > 0 && r.p.toProcess > 0
  }

  lemma OnByteSane(r: Reader, b: byte)
    requires Sane(r)
    ensures Sane(OnByte(r, b).0)
    ensures OnByte(r, b).1.Deliver? ==> OnByte(r, b).0 == START
  {
  }

  lemma {:induction false} FeedSane(r: Reader, s: seq<byte>)
    requires Sane(r)
    ensures Sane(Feed(r, s).reader)
    decreases |s|
  {
    if s != [] {
      OnByteSane(r, s[0]);
      if !OnByte(r, s[0]).1.Reject? { FeedSane(OnByte(r, s[0]).0, s[1..]); }
    }
  }

  lemma {:induction false} ThenNoZero(a: Fed, s: seq<byte>)
    requires Sane(a.reader) && !a.rejected && NoZeroCommand(Then(a, s))
    ensures NoZeroCommand(a)
    decreases |s|
  {
    if s != [] {
      var (r', out) := OnByte(a.reader, s[0]);
      OnByteSane(a.reader, s[0]);
      if out.Quiet? {
        assert Then(a, s) == Then(a.(reader := r'), s[1..]);
        ThenNoZero(a.(reader := r'), s[1..]);
      } else if out.Deliver? {
        var t := Feed(r', s[1..]);
        assert Then(a, s).frames == a.frames + ([out.frame] + t.frames);
        assert out.frame in Then(a, s).frames;
      }
    } else {
      assert Then(a, s).frames == a.frames;
    }
  }

  /**
   However a stream is cut by EAGAIN, packet__read hands over the same frames and is left in
   the same state as an uninterrupted run, provided no packet has command byte 0.
   */
  lemma {:induction false} CutsDoNotMatter(p: InPacket, chunks: seq<seq<byte>>)
    requires Sane(Reader(p, Resume(p)))
    requires NoZeroCommand(Feed(Reader(p, Resume(p)), Concat(chunks)))
    ensures FeedCalls(p, chunks) == Feed(Reader(p, Resume(p)), Concat(chunks))
    decreases |chunks|
  {
    var r := Reader(p, Resume(p));
    if chunks != [] {
      var t, rest := Feed(r, chunks[0]), Concat(chunks[1..]);
      FeedConcat(r, chunks[0], rest);
      if !t.rejected {
        FeedSane(r, chunks[0]);
        ThenNoZero(t, rest);
        assert Resumable(t.reader);
        assert forall f | f in Feed(t.reader, rest).frames :: f in Then(t, rest).frames;
        CutsDoNotMatter(t.reader.p, chunks[1..]);
      }
    }
  }

  /** With a command byte of 0 it does matter: cut after it, and the next byte is taken for the command. */
  lemma ZeroCommandIsCutSensitive(b: byte)
    ensures FeedCalls(CLEAN, [[0], [b]]) != FeedCalls(CLEAN, [[0, b]])
  {
    var one := Feed(START, [0, b]);
    assert [0, b][1..] == [b];
    assert Feed(START, [0, b]) == Feed(Reader(CLEAN, NeedLength), [b]);
    assert FeedCalls(CLEAN, [[0, b]][1..]).frames == [];
    assert FeedCalls(CLEAN, [[0, b]]).frames == one.frames + [];
    var z := Feed(START, [0]);
    assert z == Fed(Reader(CLEAN, NeedLength), [], false);
    assert [[0], [b]][1..] == [[b]];
    assert FeedCalls(CLEAN, [[0], [b]]).reader == FeedCalls(CLEAN, [[b]]).reader;
    assert FeedCalls(CLEAN, [[0], [b]]).frames == FeedCalls(CLEAN, [[b]]).frames;
    assert Feed(START, [b]) == Fed(Reader(CLEAN.(command := b), NeedLength), [], false);
    assert FeedCalls(CLEAN.(command := b), [[b]][1..]).frames == [];
  }

  // ----- the byte machine is the one-shot parser -----

  lemma {:induction false} FeedBody(p: InPacket, s: seq<byte>)
    requires p.toProcess > 0
    ensures |s| < p.toProcess ==>
      Feed(Reader(p, NeedBody), s)
      == Fed(Reader(p.(payload := p.payload + s, toProcess := p.toProcess - |s|), NeedBody), [], false)
    ensures |s| >= p.toProcess ==>
      Feed(Reader(p, NeedBody), s[..p.toProcess]) == Fed(START, [Frame(p.command, p.payload + s[..p.toProcess])], false)
    decreases |s|
  {
    if s == [] {
      assert p.payload + s == p.payload;
    } else {
      var q := p.(payload := p.payload + [s[0]], toProcess := p.toProcess - 1);
      var n := p.toProcess;
      assert p.payload + s == q.payload + s[1..];
      if |s| >= n {
        assert s[..n][0] == s[0] && s[..n][1..] == s[1..][..n - 1];
        assert p.payload + s[..n] == q.payload + s[1..][..n - 1];
      }
      if q.toProcess > 0 {
        FeedBody(q, s[1..]);
      } else {
        assert s[..1][1..] == [] && s[1..][..0] == [];
        assert p.payload + s[..1] == q.payload;
      }
    }
  }

  /** in_packet after the command and j length bytes with value len. */
  function AfterLength(cmd: byte, j: nat, len: nat): InPacket {
    InPacket(cmd, 0 - j, Pow128(j), len, [], 0)
  }

  /** The fields when Remaining Length is complete: settled at once if the body is empty. */
  function LengthDone(cmd: byte, j: nat, total: nat): Fed {
    var (r, out) := Settle(InPacket(cmd, j, Pow128(j), total, [], total));
    Fed(r, if out.Deliver? then [out.frame] else [], false)
  }

  /** What the one-shot parse n of a length says about feeding the same bytes. */
  predicate LengthFed(cmd: byte, j: nat, len: nat, s: seq<byte>, n: Parsed<nat>)
    requires j <= 4 && (n.Got? ==> n.used <= |s|)
  {
    var r := Reader(AfterLength(cmd, j, len), NeedLength);
    if n.Got? then
      && n.used <= 4 - j && n.value < Pow128(n.used)
      && Feed(r, s[..n.used]) == LengthDone(cmd, j + n.used, len + n.value * Pow128(j))
    else Feed(r, s).frames == [] && Feed(r, s).rejected == n.Malformed?
  }

  lemma {:induction false} FeedLength(cmd: byte, j: nat, len: nat, s: seq<byte>)
    requires j <= 4
    ensures LengthFed(cmd, j, len, s, ParseLength(s, 4 - j))
    decreases |s|
  {
    if s != [] && j < 4 {
      if s[0] < 128 {
        hide Feed, LengthDone;
        FeedLastDigit(cmd, j, len, s[0]);
        assert s[..1] == [s[0]];
        assert Pow128(1) == 128 * Pow128(0);
      } else {
        hide Feed, LengthDone, ParseLength, LengthFed;
        FeedLength(cmd, j + 1, len + (s[0] as int - 128) * Pow128(j), s[1..]);
        FeedOneMore(cmd, j, len, s, ParseLength(s[1..], 3 - j));
        ParseOneMore(s, 4 - j);
      }
    }
  }

  /** The parse of a length whose first byte has its top bit set, from the parse n of the rest. */
  function OneMore(b: byte, n: Parsed<nat>): Parsed<nat>
    requires b >= 128
  {
    if n.Got? then Got(b as int - 128 + 128 * n.value, n.used + 1) else n
  }

  lemma ParseOneMore(s: seq<byte>, k: nat)
    requires k > 0 && s != [] && s[0] >= 128
    ensures ParseLength(s, k) == OneMore(s[0], ParseLength(s[1..], k - 1))
  {
  }

  lemma FeedOneMore(cmd: byte, j: nat, len: nat, s: seq<byte>, n: Parsed<nat>)
    requires j < 4 && s != [] && s[0] >= 128 && (n.Got? ==> n.used <= |s| - 1)
    requires LengthFed(cmd, j + 1, len + (s[0] as int - 128) * Pow128(j), s[1..], n)
    ensures LengthFed(cmd, j, len, s, OneMore(s[0], n))
  {
    hide Feed, LengthDone;
    FeedDigit(cmd, j, len, s);
    if n.Got? {
      FeedDigit(cmd, j, len, s[..n.used + 1]);
      assert s[..n.used + 1][1..] == s[1..][..n.used];
      LengthSum(len, s[0] as int - 128, n.value, Pow128(j));
    }
  }

  /** A length byte with its top bit set. */
  lemma FeedDigit(cmd: byte, j: nat, len: nat, s: seq<byte>)
    requires j < 4 && s != [] && s[0] >= 128
    ensures Feed(Reader(AfterLength(cmd, j, len), NeedLength), s)
         == Feed(Reader(AfterLength(cmd, j + 1, len + (s[0] as int - 128) * Pow128(j)), NeedLength), s[1..])
  {
    assert s[0] as int % 128 == s[0] as int - 128;
  }

  /** The last length byte. */
  lemma FeedLastDigit(cmd: byte, j: nat, len: nat, b: byte)
    requires j < 4 && b < 128
    ensures Feed(Reader(AfterLength(cmd, j, len), NeedLength), [b])
      == LengthDone(cmd, j + 1, len + b as int * Pow128(j))
  {
    assert [b][1..] == [];
  }

  lemma LengthSum(len: nat, d: nat, v: nat, m: nat)
    ensures len + d * m + v * (128 * m) == len + (d + 128 * v) * m
  {
    assert v * (128 * m) == (128 * v) * m;
    assert (d + 128 * v) * m == d * m + (128 * v) * m;
  }

  /** After the length: the body is fed from t, and the frame is complete when all of it is there. */
  lemma FeedAfterLength(cmd: byte, u: nat, len: nat, b: seq<byte>)
    ensures |b| < len ==> Then(LengthDone(cmd, u, len), b).frames == [] && !Then(LengthDone(cmd, u, len), b).rejected
    ensures |b| >= len ==> Then(LengthDone(cmd, u, len), b[..len]) == Fed(START, [Frame(cmd, b[..len])], false)
  {
    if len > 0 {
      FeedBody(InPacket(cmd, u, Pow128(u), len, [], len), b);
      if |b| >= len { assert [] + b[..len] == b[..len]; }
    } else {
      assert b[..len] == [];
    }
  }

  lemma FeedHeader(cmd: byte, t: seq<byte>)
    ensures Feed(START, [cmd] + t) == Feed(Reader(AfterLength(cmd, 0, 0), NeedLength), t)
  {
    assert ([cmd] + t)[1..] == t;
  }

  lemma FeedGotLength(cmd: byte, t: seq<byte>, len: nat, u: nat)
    requires ParseLength(t, 4) == Got(len, u)
    ensures |t| < u + len ==> Feed(START, [cmd] + t).frames == [] && !Feed(START, [cmd] + t).rejected
    ensures |t| >= u + len ==> Feed(START, [cmd] + t[..u + len]) == Fed(START, [Frame(cmd, t[u..u + len])], false)
  {
    hide Feed, ParseLength, LengthDone;
    var r := Reader(AfterLength(cmd, 0, 0), NeedLength);
    var a, b := t[..u], t[u..];
    FeedLength(cmd, 0, 0, t);
    assert len * Pow128(0) == len;
    FeedAfterLength(cmd, u, len, b);
    if |b| < len {
      assert t == a + b;
      FeedHeader(cmd, t);
      FeedConcat(r, a, b);
    } else {
      assert t[..u + len] == a + b[..len] && t[u..u + len] == b[..len];
      FeedHeader(cmd, a + b[..len]);
      FeedConcat(r, a, b[..len]);
    }
  }

  lemma SliceAfter(s: seq<byte>, i: nat, j: nat)
    requires i <= j < |s|
    ensures s[1..][i..j] == s[1 + i..1 + j]
  {
  }

  /** ParseFrame in terms of what follows the command byte. */
  lemma ParseFrameAfter(s: seq<byte>)
    requires s != []
    ensures var t := s[1..];
            var n := ParseLength(t, 4);
            ParseFrame(s)
            == if n.Incomplete? then Incomplete
               else if n.Malformed? then Malformed
               else if |t| < n.used + n.value then Incomplete
               else Got(Frame(s[0], t[n.used..n.used + n.value]), 1 + n.used + n.value)
  {
    hide ParseLength;
    var n := ParseLength(s[1..], 4);
    if n.Got? && |s| - 1 >= n.used + n.value { SliceAfter(s, n.used, n.used + n.value); }
  }

  lemma FeedOneFrame(s: seq<byte>)
    ensures var r := ParseFrame(s);
            if r.Got? then Feed(START, s[..r.used]) == Fed(START, [r.value], false)
            else Feed(START, s).frames == [] && Feed(START, s).rejected == r.Malformed?
  {
    if s != [] {
      hide ParseLength, ParseFrame, Feed, LengthDone;
      var cmd, t := s[0], s[1..];
      var n := ParseLength(t, 4);
      assert s == [cmd] + t;
      ParseFrameAfter(s);
      if n.Got? {
        FeedGotLength(cmd, t, n.value, n.used);
        var k := n.used + n.value;
        if |t| >= k { assert s[..1 + k] == [cmd] + t[..k]; }
      } else {
        FeedHeader(cmd, t);
        FeedLength(cmd, 0, 0, t);
      }
    }
  }

  /** Feeding a stream byte by byte delivers exactly the frames of the one-shot parse. */
  lemma {:induction false} FeedIsParse(s: seq<byte>)
    ensures Feed(START, s).frames == Parse(s)
    decreases |s|
  {
    FeedOneFrame(s);
    var r := ParseFrame(s);
    if r.Got? {
      assert s == s[..r.used] + s[r.used..];
      FeedConcat(START, s[..r.used], s[r.used..]);
      FeedIsParse(s[r.used..]);
    }
  }

  // ----- what the sender wrote is what the receiver parses -----

  lemma {:induction false} ParseEncodedLength(n: nat, k: nat, rest: seq<byte>)
    requires k > 0 && n < Pow128(k)
    ensures ParseLength(Encode(n) + rest, k) == Got(n, |Encode(n)|)
    decreases k
  {
    if n >= 128 {
      ParseEncodedLength(n / 128, k - 1, rest);
      assert (Encode(n) + rest)[1..] == Encode(n / 128) + rest;
    }
  }

  lemma ParseOneFrame(f: Frame, rest: seq<byte>)
    requires |f.payload| <= MAX_REMAINING_LENGTH
    ensures ParseFrame(FrameBytes(f) + rest) == Got(f, |FrameBytes(f)|)
  {
    var n := |f.payload|;
    var e := Encode(n);
    assert Pow128(4) == 128 * (128 * (128 * (128 * Pow128(0))));
    var s := FrameBytes(f) + rest;
    assert s[1..] == e + (f.payload + rest);
    ParseEncodedLength(n, 4, f.payload + rest);
    assert s[1 + |e|..1 + |e| + n] == f.payload;
  }

  /** Any sequence of frames is recovered from its bytes. */
  lemma {:induction false} FramesRoundTrip(fs: seq<Frame>)
    requires forall f | f in fs :: |f.payload| <= MAX_REMAINING_LENGTH
    ensures Parse(FramesBytes(fs)) == fs
  {
    if fs != [] {
      var s := FramesBytes(fs);
      ParseOneFrame(fs[0], FramesBytes(fs[1..]));
      assert s[|FrameBytes(fs[0])|..] == FramesBytes(fs[1..]);
      FramesRoundTrip(fs[1..]);
      assert fs == [fs[0]] + fs[1..];
    } else {
      assert ParseFrame([]) == Incomplete;
    }
  }

  lemma {:induction false} FramesNotRejected(fs: seq<Frame>)
    requires forall f | f in fs :: |f.payload| <= MAX_REMAINING_LENGTH
    ensures Feed(START, FramesBytes(fs)) == Fed(START, fs, false)
  {
    if fs != [] {
      var a, b := FrameBytes(fs[0]), FramesBytes(fs[1..]);
      ParseOneFrame(fs[0], []);
      FeedOneFrame(a);
      assert a + [] == a && a[..|a|] == a;
      FeedConcat(START, a, b);
      FramesNotRejected(fs[1..]);
      assert fs == [fs[0]] + fs[1..];
    }
  }

  /** Of a stream of frames, whatever part has arrived yields a prefix of the frames. */
  lemma ArrivedPartIsPrefix(fs: seq<Frame>, got: seq<byte>)
    requires (forall f | f in fs :: Sendable(f)) && got <= FramesBytes(fs)
    ensures var t := Feed(START, got);
            t.frames <= fs && !t.rejected && NoZeroCommand(t)
            && (got == FramesBytes(fs) ==> t.frames == fs && t.reader == START)
  {
    var all := FramesBytes(fs);
    var rest := all[|got|..];
    assert all == got + rest;
    FeedConcat(START, got, rest);
    FramesNotRejected(fs);
    FeedSane(START, got);
    assert NoZeroCommand(Fed(START, fs, false));
    ThenNoZero(Feed(START, got), rest);
    if got == all { assert rest == []; }
  }

  // ----- Remaining Length stays within 28 bits -----

  /** The arithmetic of packet__read never leaves 32 bits on the way to a complete length. */
  predicate LengthBounded(r: Reader) {
    var p := r.p;
    && (r.phase == NeedLength ==>
         && -4 <= p.remainingCount <= 0 && p.remainingMult == Pow128(-p.remainingCount)
         && p.remainingLength < p.remainingMult)
    && (r.phase == NeedCommand ==> p == CLEAN)
    && p.remainingLength <= MAX_REMAINING_LENGTH && p.remainingMult <= MAX_REMAINING_LENGTH + 1
  }

  lemma OnByteBounded(r: Reader, b: byte)
    requires LengthBounded(r)
    ensures !OnByte(r, b).1.Reject? ==> LengthBounded(OnByte(r, b).0)
    ensures OnByte(r, b).1.Reject? <==> r.phase == NeedLength && r.p.remainingCount == -4
  {
    if r.phase == NeedLength {
      var j := -r.p.remainingCount;
      assert Pow128(j + 1) == 128 * Pow128(j);
      Pow128Values();
      var d := b % 128;
      assert d * Pow128(j) <= 127 * Pow128(j);
    }
  }

  lemma Pow128Values()
    ensures Pow128(0) == 1 && Pow128(1) == 128 && Pow128(2) == 16384 && Pow128(3) == 2097152 && Pow128(4) == 268435456
  {
    assert Pow128(1) == 128 * Pow128(0);
    assert Pow128(2) == 128 * Pow128(1);
    assert Pow128(3) == 128 * Pow128(2);
    assert Pow128(4) == 128 * Pow128(3);
  }

  /** On every stream: no 32-bit overflow, and a rejection is always a fifth length byte. */
  lemma {:induction false} LengthNeverOverflows(r: Reader, s: seq<byte>)
    requires LengthBounded(r)
    ensures var t := Feed(r, s);
            if t.rejected then t.reader.p.remainingCount == -5 && t.reader.p.remainingLength <= MAX_REMAINING_LENGTH
            else LengthBounded(t.reader)
    decreases |s|
  {
    if s != [] {
      OnByteBounded(r, s[0]);
      if !OnByte(r, s[0]).1.Reject? { LengthNeverOverflows(OnByte(r, s[0]).0, s[1..]); }
    }
  }

  // ----- exactly which streams may be cut anywhere -----

  /** The command that a reader inside a packet holds stays with it until its frame is delivered. */
  lemma {:induction false} CommandStays(r: Reader, s: seq<byte>)
    requires r.phase != NeedCommand
    ensures var t := Feed(r, s);
            (if t.frames == [] then t.reader.p.command else t.frames[0].command) == r.p.command
    ensures Feed(r, s).frames == [] ==> Feed(r, s).reader.phase != NeedCommand
    decreases |s|
  {
    if s != [] && OnByte(r, s[0]).1.Quiet? { CommandStays(OnByte(r, s[0]).0, s[1..]); }
  }

  /** The reader right after a command byte 0: the fields of a clean reader, in another phase. */
  const AFTER_ZERO: Reader := Reader(CLEAN, NeedLength)

  /** Where the first command byte 0 stands: the frames before it are complete. */
  lemma {:induction false} FirstZeroCommand(s: seq<byte>) returns (n: nat)
    requires !NoZeroCommand(Feed(START, s))
    ensures n < |s| && s[n] == 0
    ensures Feed(START, s[..n]).reader == START && !Feed(START, s[..n]).rejected
    decreases |s|
  {
    FeedOneFrame(s);
    hide Feed, ParseFrame;
    var r := ParseFrame(s);
    if s == [] {
      FeedNothing();
      assert false;
    } else {
      FirstCommand(s);
      if s[0] == 0 {
        n := 0;
        FeedNothing();
        assert s[..0] == [];
      } else if r.Got? {
        var a, b := s[..r.used], s[r.used..];
        assert s == a + b;
        FeedConcat(START, a, b);
        var k := FirstZeroCommand(b);
        n := r.used + k;
        FeedConcat(START, a, b[..k]);
        assert s[..n] == a + b[..k];
      } else {
        assert false;
      }
    }
  }

  lemma FeedNothing()
    ensures Feed(START, []) == Fed(START, [], false)
  {
  }

  /** The first frame, or the packet under way, has the first byte as its command. */
  lemma FirstCommand(s: seq<byte>)
    requires s != []
    ensures var t := Feed(START, s);
            (if t.frames == [] then t.reader.p.command else t.frames[0].command) == s[0]
    ensures Feed(START, s).frames == [] ==> Feed(START, s).reader.phase != NeedCommand
    ensures ParseFrame(s).Got? ==> ParseFrame(s).value.command == s[0]
  {
    CommandStays(Reader(CLEAN.(command := s[0]), NeedLength), s[1..]);
  }

  /** What is left to read after a command byte 0, and how a call that ends there misreads it. */
  lemma CutAfterZero(t: seq<byte>) returns (chunks: seq<seq<byte>>)
    ensures Concat(chunks) == t && FeedCalls(CLEAN, chunks) != Feed(AFTER_ZERO, t)
  {
    if t == [] {
      chunks := [];
    } else if t[0] == 0 {
      chunks := [[0], t[1..]];
      assert chunks[1..] == [t[1..]] && [t[1..]][1..] == [];
      assert Concat([t[1..]]) == t[1..] + Concat([]);
      assert [0][1..] == [];
      assert Feed(START, [0]) == Fed(AFTER_ZERO, [], false);
      assert FeedCalls(CLEAN, chunks).frames == [] + FeedCalls(CLEAN, [t[1..]]).frames;
      var rest := Feed(START, t[1..]);
      assert FeedCalls(CLEAN, [t[1..]]).frames == rest.frames;
      assert |Feed(AFTER_ZERO, t).frames| == 1 + |rest.frames|;
    } else {
      chunks := [t];
      assert chunks[1..] == [] && Concat(chunks) == t + Concat([]);
      FirstCommand(t);
      CommandStays(AFTER_ZERO, t);
      assert FeedCalls(CLEAN, chunks).frames == Feed(START, t).frames;
    }
  }

  /** A call that ends right after a command byte 0. */
  lemma CutAt(s: seq<byte>, n: nat) returns (chunks: seq<seq<byte>>)
    requires n < |s| && s[n] == 0
    requires Feed(START, s[..n]).reader == START && !Feed(START, s[..n]).rejected
    ensures Concat(chunks) == s && FeedCalls(CLEAN, chunks) != Feed(START, s)
  {
    var a, t := s[..n] + [0], s[n + 1..];
    var rest := CutAfterZero(t);
    chunks := [a] + rest;
    assert chunks[1..] == rest && s == a + t;
    FeedConcat(START, s[..n], [0]);
    assert [0][1..] == [];
    var fs := Feed(START, s[..n]).frames;
    assert Feed(START, [0]) == Fed(AFTER_ZERO, [], false);
    assert Feed(START, a) == Fed(AFTER_ZERO, fs + [], false);
    FeedConcat(START, a, t);
    hide Feed, FeedCalls;
    SameAfter(fs + [], FeedCalls(CLEAN, rest), Feed(AFTER_ZERO, t));
  }

  lemma SameAfter(fs: seq<Frame>, a: Fed, b: Fed)
    ensures a.(frames := fs + a.frames) == b.(frames := fs + b.frames) ==> a == b
  {
    assert (fs + a.frames)[|fs|..] == a.frames && (fs + b.frames)[|fs|..] == b.frames;
  }

  /** The calls of packet__read do not depend on how the stream is cut exactly when no command byte is 0. */
  lemma CutsDoNotMatterIff(s: seq<byte>)
    ensures (forall chunks :: Concat(chunks) == s ==> FeedCalls(CLEAN, chunks) == Feed(START, s))
       <==> NoZeroCommand(Feed(START, s))
  {
    if NoZeroCommand(Feed(START, s)) {
      forall chunks | Concat(chunks) == s ensures FeedCalls(CLEAN, chunks) == Feed(START, s) {
        CutsDoNotMatter(CLEAN, chunks);
      }
    } else {
      var n := FirstZeroCommand(s);
      var chunks := CutAt(s, n);
    }
  }
}
