/**
 The packet primitives of the Paho embedded C codec (MQTTPacket.c): the size estimate, the
 length encoder, MQTTString, and the writers that move a pointer through the caller's buffer.
 A write past the end of the buffer would be undefined in C; here it does not verify.
 */
module PahoPacket {
  import opened Bytes
  import opened Varint
  import opened Frames
  import PacketBuffer

  const BUFFER_TOO_SHORT: int := -2
  const READ_ERROR: int := -1

  // ----- MQTTPacket_len -----

  function PacketLen(remLen: nat): nat {
    var n := remLen + 1;
    if n < 128 then n + 1
    else if n < 16384 then n + 2
    else if n < 2097151 then n + 3
    else n + 4
  }

  /** The true size of a packet with that remaining length. */
  function TrueLen(remLen: nat): nat {
    1 + |Encode(remLen)| + remLen
  }

  /**
   The estimate compares the length after adding the header byte: it is one too large at four
   lengths, exact at all others that MQTT allows, and one too small from 2^28 on.
   */
  lemma PacketLenIsTrueLenOrOneMore(n: uint32)
    ensures n <= MAX_REMAINING_LENGTH ==>
      PacketLen(n) == TrueLen(n) + if n in {127, 16383, 2097150, 2097151} then 1 else 0
    ensures n > MAX_REMAINING_LENGTH ==> PacketLen(n) == TrueLen(n) - 1
  {
    EncodeLength(n);
  }

  /** The check every serializer makes before it writes. */
  predicate PassesSizeCheck(remLen: nat, buflen: int) {
    PacketLen(remLen) <= buflen
  }

  /** The size check protects the buffer exactly for the lengths that MQTT allows. */
  lemma SizeCheckSoundIff(n: uint32)
    ensures (forall buflen: int :: PassesSizeCheck(n, buflen) ==> TrueLen(n) <= buflen) <==> n <= MAX_REMAINING_LENGTH
  {
    PacketLenIsTrueLenOrOneMore(n);
    assert PassesSizeCheck(n, PacketLen(n));
  }

  /** The buffers refused although the packet would fit. */
  lemma RefusedThoughItFitsIff(n: uint32, buflen: nat)
    requires n <= MAX_REMAINING_LENGTH
    ensures TrueLen(n) <= buflen < PacketLen(n) <==> n in {127, 16383, 2097150, 2097151} && buflen == TrueLen(n)
  {
    PacketLenIsTrueLenOrOneMore(n);
  }

  // ----- MQTTString -----

  /** A C string, a counted string, or both; `len` says how much of `data` counts. */
  datatype MqttString = MqttString(cstring: Option<seq<byte>>, len: nat, data: Option<seq<byte>>) {
    /** The caller's data holds as many bytes as it says. */
    predicate Sound() {
      len > 0 ==> data.Some? && |data.value| >= len
    }

    /** What writeMQTTString writes: the counted string first. */
    function Text(): seq<byte>
      requires Sound()
    {
      if len > 0 then data.value[..len] else if cstring.Some? then cstring.value else []
    }

    /** MQTTstrlen: the C string first. */
    function Strlen(): nat {
      if cstring.Some? then |cstring.value| else len
    }

    /** The test that MQTTSerialize_connect makes of user name and password. */
    predicate Given() {
      cstring.Some? || data.Some?
    }

    predicate Consistent() {
      Sound() && Strlen() == |Text()|
    }
  }

  /** Length and writer disagree exactly when both forms are set with different lengths. */
  lemma StrlenIsWrittenIff(s: MqttString)
    requires s.Sound()
    ensures s.Strlen() == |s.Text()| <==> !(s.cstring.Some? && s.len > 0 && |s.cstring.value| != s.len)
  {
  }

  /** writeInt: two bytes, the upper one truncated. */
  function IntBytes(n: nat): (s: seq<byte>)
    ensures |s| == 2
    ensures n < 0x1_0000 ==> s == Uint16Bytes(n)
  {
    [n / 256 % 256, n % 256]
  }

  /** readInt */
  function IntOf(a: byte, b: byte): nat {
    256 * a as int + b as int
  }

  function TextBytes(t: seq<byte>): (s: seq<byte>)
    ensures |s| == 2 + |t|
    ensures |t| < 0x1_0000 ==> s == PacketBuffer.StringBytes(t)
  {
    IntBytes(|t|) + t
  }

  // ----- the writers -----

  /** What a writer promises: the bytes follow what was there up to ptr, and the rest is untouched. */
  ghost predicate Appended(before: seq<byte>, ptr: nat, bytes: seq<byte>, after: seq<byte>) {
    && ptr + |bytes| <= |before| == |after|
    && after[..ptr + |bytes|] == before[..ptr] + bytes
    && after[ptr + |bytes|..] == before[ptr + |bytes|..]
  }

  lemma AppendedTwice(s0: seq<byte>, p: nat, a: seq<byte>, s1: seq<byte>, b: seq<byte>, s2: seq<byte>)
    requires Appended(s0, p, a, s1) && Appended(s1, p + |a|, b, s2)
    ensures Appended(s0, p, a + b, s2)
  {
    var q := p + |a|;
    assert s2[..q + |b|] == s0[..p] + (a + b);
    assert s2[q + |b|..] == s1[q..][|b|..] == s0[q..][|b|..] == s0[q + |b|..];
  }

  method WriteChar(buf: array<byte>, ptr: nat, c: byte) returns (p: nat)
    requires ptr < buf.Length
    modifies buf
    ensures p == ptr + 1 && Appended(old(buf[..]), ptr, [c], buf[..])
  {
    buf[ptr] := c;
    p := ptr + 1;
  }

  method WriteInt(buf: array<byte>, ptr: nat, n: nat) returns (p: nat)
    requires ptr + 2 <= buf.Length
    modifies buf
    ensures p == ptr + 2 && Appended(old(buf[..]), ptr, IntBytes(n), buf[..])
  {
    buf[ptr] := n / 256 % 256;
    buf[ptr + 1] := n % 256;
    p := ptr + 2;
  }

  method Memcpy(buf: array<byte>, ptr: nat, bytes: seq<byte>) returns (p: nat)
    requires ptr + |bytes| <= buf.Length
    modifies buf
    ensures p == ptr + |bytes| && Appended(old(buf[..]), ptr, bytes, buf[..])
  {
    forall i | 0 <= i < |bytes| {
      buf[ptr + i] := bytes[i];
    }
    p := ptr + |bytes|;
    assert buf[..p] == old(buf[..])[..ptr] + bytes;
  }

  /** writeCString */
  method WriteText(buf: array<byte>, ptr: nat, t: seq<byte>) returns (p: nat)
    requires ptr + 2 + |t| <= buf.Length
    modifies buf
    ensures p == ptr + 2 + |t| && Appended(old(buf[..]), ptr, TextBytes(t), buf[..])
  {
    ghost var s0 := buf[..];
    p := WriteInt(buf, ptr, |t|);
    ghost var s1 := buf[..];
    p := Memcpy(buf, p, t);
    AppendedTwice(s0, ptr, IntBytes(|t|), s1, t, buf[..]);
  }

  method WriteMqttString(buf: array<byte>, ptr: nat, s: MqttString) returns (p: nat)
    requires s.Sound() && ptr + 2 + |s.Text()| <= buf.Length
    modifies buf
    ensures p == ptr + 2 + |s.Text()| && Appended(old(buf[..]), ptr, TextBytes(s.Text()), buf[..])
  {
    if s.len > 0 {
      p := WriteText(buf, ptr, s.data.value[..s.len]);
    } else if s.cstring.Some? {
      p := WriteText(buf, ptr, s.cstring.value);
    } else {
      p := WriteInt(buf, ptr, 0);
      assert TextBytes([]) == IntBytes(0);
    }
  }

  /** MQTTPacket_encode; rc counts the digits written. */
  method EncodeInto(buf: array<byte>, ptr: nat, length: nat) returns (rc: nat)
    requires ptr + |Encode(length)| <= buf.Length
    modifies buf
    ensures rc == |Encode(length)| && Appended(old(buf[..]), ptr, Encode(length), buf[..])
  {
    hide Encode, Appended;
    ghost var s0 := buf[..];
    ghost var done: seq<byte> := [];
    rc := 0;
    var n := length;
    StartAppend(s0, ptr);
    while true
      invariant rc == |done| && done + Encode(n) == Encode(length)
      invariant Appended(s0, ptr, done, buf[..])
      decreases n
    {
      PacketBuffer.DigitStep(done, n);
      ghost var s1 := buf[..];
      var d := n % 128;
      n := n / 128;
      if n > 0 {
        d := d + 128;
      }
      var p := WriteChar(buf, ptr + rc, d);
      AppendedTwice(s0, ptr, done, s1, [d], buf[..]);
      done := done + [d];
      rc := rc + 1;
      if n == 0 {
        break;
      }
    }
  }

  lemma StartAppend(s: seq<byte>, ptr: nat)
    requires ptr <= |s|
    ensures Appended(s, ptr, [], s)
  {
    assert s[..ptr] + [] == s[..ptr];
  }

  // ----- MQTTPacket_decode -----

  /** Length bytes that announce another one. */
  ghost predicate Continued(d: seq<byte>) {
    forall i :: 0 <= i < |d| ==> d[i] >= 128
  }

  /** The value of such bytes, least significant first. */
  function Digits(d: seq<byte>): nat {
    if d == [] then 0 else d[0] % 128 + 128 * Digits(d[1..])
  }

  lemma {:induction false} DigitsAppend(d: seq<byte>, b: byte)
    ensures Digits(d + [b]) == Digits(d) + (b % 128) * Pow128(|d|)
  {
    if d == [] {
      assert Digits([b]) == b % 128 + 128 * Digits([b][1..]);
    } else {
      assert (d + [b])[1..] == d[1..] + [b];
      DigitsAppend(d[1..], b);
      assert 128 * ((b % 128) * Pow128(|d| - 1)) == (b % 128) * Pow128(|d|);
    }
  }

  /** What the parse n of the rest makes of the whole, after continued bytes d. */
  function AfterDigits(d: seq<byte>, n: Parsed<nat>): Parsed<nat> {
    if n.Got? then Got(Digits(d) + n.value * Pow128(|d|), |d| + n.used) else n
  }

  lemma {:induction false} ParseAfterDigits(d: seq<byte>, rest: seq<byte>, k: nat)
    requires Continued(d) && |d| <= k
    ensures ParseLength(d + rest, k) == AfterDigits(d, ParseLength(rest, k - |d|))
  {
    if d == [] {
      assert d + rest == rest;
    } else {
      hide ParseLength;
      var t, n := d[1..], ParseLength(rest, k - |d|);
      assert (d + rest)[1..] == t + rest;
      ParseAfterDigits(t, rest, k - 1);
      ParseOneMore(d + rest, k);
      if n.Got? { MoveDigit(d[0], Digits(t), n.value, |d|); }
    }
  }

  lemma MoveDigit(b: byte, digits: nat, v: nat, j: nat)
    requires b >= 128 && j > 0
    ensures b as int - 128 + 128 * (digits + v * Pow128(j - 1)) == b % 128 + 128 * digits + v * Pow128(j)
  {
    assert 128 * (v * Pow128(j - 1)) == v * (128 * Pow128(j - 1));
  }

  lemma LastDigit(d: seq<byte>, b: byte, rest: seq<byte>)
    requires Continued(d) && |d| < 4 && b < 128
    ensures ParseLength(d + [b] + rest, 4) == Got(Digits(d + [b]), |d| + 1)
  {
    assert d + [b] + rest == d + ([b] + rest);
    ParseAfterDigits(d, [b] + rest, 4);
    DigitsAppend(d, b);
  }

  /** A length that stops short, or goes on after the fourth byte, is not one. */
  lemma NoLength(d: seq<byte>, rest: seq<byte>)
    requires Continued(d) && |d| <= 4 && (rest == [] || |d| == 4)
    ensures ParseLength(d + rest, 4) == if rest == [] then Incomplete else Malformed
  {
    ParseAfterDigits(d, rest, 4);
  }

  lemma {:induction false} ParseLengthExtend(s: seq<byte>, rest: seq<byte>, k: nat)
    requires ParseLength(s, k).Got?
    ensures ParseLength(s + rest, k) == ParseLength(s, k)
    decreases k
  {
    if s[0] >= 128 {
      assert (s + rest)[1..] == s[1..] + rest;
      ParseLengthExtend(s[1..], rest, k - 1);
    }
  }

  /** A length is decided by the bytes it takes. */
  lemma {:induction false} ParseLengthPrefix(s: seq<byte>, k: nat)
    requires ParseLength(s, k).Got?
    ensures ParseLength(s, k).used <= k && ParseLength(s[..ParseLength(s, k).used], k) == ParseLength(s, k)
    decreases k
  {
    var u := ParseLength(s, k).used;
    if s[0] >= 128 {
      assert s[..u][1..] == s[1..][..u - 1];
      ParseLengthPrefix(s[1..], k - 1);
    }
  }

  /**
   What MQTTPacket_decode makes of the bytes s: the value it leaves and how many it takes. A
   length that stops short or goes on for too long still leaves the value of its first bytes.
   */
  function DecodedLength(s: seq<byte>): (r: (nat, nat))
    ensures r.1 <= |s|
  {
    var n := ParseLength(s, 4);
    if n.Got? then (n.value, n.used)
    else var u := if |s| < 4 then |s| else 4; (Digits(s[..u]), u)
  }

  lemma {:induction false} DigitsBound(d: seq<byte>)
    ensures Digits(d) < Pow128(|d|)
  {
    if d != [] { DigitsBound(d[1..]); }
  }

  lemma {:induction false} ParseLengthBound(s: seq<byte>, k: nat)
    ensures var r := ParseLength(s, k); r.Got? ==> r.value < Pow128(k)
    decreases k
  {
    if s != [] && k > 0 && s[0] >= 128 { ParseLengthBound(s[1..], k - 1); }
  }

  /** Whatever the bytes, the value stays within the 28 bits of Remaining Length. */
  lemma DecodedLengthBound(s: seq<byte>)
    ensures DecodedLength(s).0 <= MAX_REMAINING_LENGTH
    ensures |Encode(DecodedLength(s).0)| <= 4
  {
    hide ParseLength, Digits, Encode;
    Pow128Values();
    ParseLengthBound(s, 4);
    var u := if |s| < 4 then |s| else 4;
    DigitsBound(s[..u]);
    assert u in {0, 1, 2, 3, 4};
    EncodeLength(DecodedLength(s).0);
  }

  /** len is the return value: one more than the bytes taken from the source when the length is bad. */
  method DecodeFrom(s: seq<byte>) returns (len: nat, value: nat, taken: nat)
    ensures (value, taken) == DecodedLength(s)
    ensures len == taken + if ParseLength(s, 4).Got? then 0 else 1
  {
    hide ParseLength, Digits;
    len, value, taken := 0, 0, 0;
    var multiplier: nat := 1;
    NoDigits();
    assert s[..0] == [];
    while true
      invariant len == taken <= |s| && taken <= 4 && Continued(s[..taken])
      invariant value == Digits(s[..taken]) && multiplier == Pow128(taken)
      decreases 4 - len
    {
      assert s == s[..taken] + s[taken..];
      len := len + 1;
      if len > 4 || taken == |s| {
        NoLength(s[..taken], s[taken..]);
        return;
      }
      var c := s[taken];
      ghost var d := s[..taken];
      taken := taken + 1;
      DigitsAppend(d, c);
      assert d + [c] == s[..taken];
      value := value + (c % 128) * multiplier;
      multiplier := multiplier * 128;
      if c < 128 {
        LastDigit(d, c, s[taken..]);
        assert d + [c] + s[taken..] == s;
        return;
      }
    }
  }

  lemma NoDigits()
    ensures Digits([]) == 0
  {
  }
}
