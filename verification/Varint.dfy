/**
 The variable byte integer (Remaining Length, section 2.2.3 of MQTT 3.1.1; section 1.5.5 of
 MQTT 5.0): seven bits a byte, least significant first, the top bit set on all but the last.
 */
module Varint {
  import opened Bytes

  function Encode(n: nat): (s: seq<byte>)
    ensures |s| >= 1
  {
    if n < 128 then [n] else [n % 128 + 128] + Encode(n / 128)
  }

  /** packet__varint_bytes */
  function VarintBytes(word: uint32): nat {
    if word < 128 then 1
    else if word < 16384 then 2
    else if word < 2097152 then 3
    else if word < 268435456 then 4
    else 5
  }

  /** Encode produces as many bytes as packet__varint_bytes announces, for every 32-bit word. */
  lemma EncodeLength(word: uint32)
    ensures |Encode(word)| == VarintBytes(word)
  {
    var a := word / 128;
    var b := a / 128;
    var c := b / 128;
    var d := c / 128;
    assert |Encode(word)| == if word < 128 then 1 else 1 + |Encode(a)|;
    assert |Encode(a)| == if a < 128 then 1 else 1 + |Encode(b)|;
    assert |Encode(b)| == if b < 128 then 1 else 1 + |Encode(c)|;
    assert |Encode(c)| == if c < 128 then 1 else 1 + |Encode(d)|;
    assert d < 128;
  }

  /**
   What packet__read_varint accepts at the front of s, with at most k bytes to go: the value
   and the number of bytes it takes. A last byte of zero after others is overlong and refused.
   */
  function Decode(s: seq<byte>, k: nat, first: bool): Option<(nat, nat)>
    decreases k
  {
    if s == [] || k == 0 then None
    else if s[0] < 128 then
      if !first && s[0] == 0 then None else Some((s[0], 1))
    else
      match Decode(s[1..], k - 1, false)
      case None => None
      case Some((v, l)) => Some((s[0] as int - 128 + 128 * v, l + 1))
  }

  function Pow128(k: nat): (p: nat)
    ensures p > 0
  {
    if k == 0 then 1 else 128 * Pow128(k - 1)
  }

  /** Whatever Encode writes in at most k bytes, Decode reads back, whatever follows. */
  lemma {:induction false} DecodeEncode(n: nat, k: nat, first: bool, rest: seq<byte>)
    requires k > 0 && n < Pow128(k) && (first || n > 0)
    ensures Decode(Encode(n) + rest, k, first) == Some((n, |Encode(n)|))
    decreases k
  {
    if n >= 128 {
      DecodeEncode(n / 128, k - 1, false, rest);
      assert (Encode(n) + rest)[1..] == Encode(n / 128) + rest;
    }
  }

  /** Conversely, everything Decode accepts is the one encoding of its value: the code is canonical. */
  lemma {:induction false} EncodeDecode(s: seq<byte>, k: nat, first: bool)
    requires Decode(s, k, first).Some?
    ensures var (v, l) := Decode(s, k, first).value;
            l <= |s| && l <= k && v < Pow128(k) && s[..l] == Encode(v) && (first || v > 0)
    decreases k
  {
    if s[0] >= 128 {
      EncodeDecode(s[1..], k - 1, false);
      var (v, l) := Decode(s[1..], k - 1, false).value;
      assert s[..l + 1] == [s[0]] + s[1..][..l];
      var w := s[0] as int - 128 + 128 * v;
      assert w / 128 == v && w % 128 == s[0] as int - 128;
    }
  }

  /** packet__read_varint and the encoder are inverse between words below 2^28 and accepted bytes. */
  lemma VarintRoundTrip(n: nat, rest: seq<byte>)
    requires n <= MAX_REMAINING_LENGTH
    ensures Decode(Encode(n) + rest, 4, true) == Some((n, |Encode(n)|))
  {
    assert Pow128(4) == 128 * (128 * (128 * (128 * Pow128(0))));
    DecodeEncode(n, 4, true, rest);
  }

  lemma VarintCanonical(s: seq<byte>)
    requires Decode(s, 4, true).Some?
    ensures var (v, l) := Decode(s, 4, true).value;
            v <= MAX_REMAINING_LENGTH && l <= |s| && s[..l] == Encode(v)
  {
    assert Pow128(4) == 128 * (128 * (128 * (128 * Pow128(0))));
    EncodeDecode(s, 4, true);
  }
}
