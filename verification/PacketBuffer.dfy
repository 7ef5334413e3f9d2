/**
 struct mosquitto__packet as a buffer: packet__alloc lays out the fixed header, the writers of
 packet_datatypes.c fill the payload and advance pos. The `requires` of a writer is the C
 assertion it would otherwise trip.
 */
module PacketBuffer {
  import opened Bytes
  import opened Varint

  class Packet {
    var command: byte
    var remainingLength: uint32
    var remainingCount: nat
    var packetLength: nat
    var payload: array<byte>
    var pos: nat

    ghost predicate Valid()
      reads this
    {
      payload.Length == packetLength && pos <= packetLength
    }

    /** What has been written so far. */
    ghost function Written(): seq<byte>
      requires Valid()
      reads this, payload
    {
      payload[..pos]
    }

    constructor (command: byte, remainingLength: uint32)
      ensures this.command == command && this.remainingLength == remainingLength
      ensures Valid() && pos == 0 && packetLength == 0 && fresh(payload)
    {
      this.command, this.remainingLength := command, remainingLength;
      payload := new byte[0];
      remainingCount, packetLength, pos := 0, 0, 0;
    }

    /** The do/while loop of packet__alloc: the digits of the remaining length, five at most. */
    method LengthDigits() returns (digits: seq<byte>)
      ensures digits == Encode(remainingLength) && |digits| == VarintBytes(remainingLength)
    {
      hide Encode;
      EncodeLength(remainingLength);
      var n: nat := remainingLength;
      digits := [];
      while true
        invariant |digits| <= 4 && digits + Encode(n) == Encode(remainingLength)
        decreases n
      {
        DigitStep(digits, n);
        var digit := n % 128;
        n := n / 128;
        if n > 0 {
          digit := digit + 128;
        }
        digits := digits + [digit];
        if !(n > 0 && |digits| < 5) {
          break;
        }
      }
    }

    /** packet__alloc */
    method Alloc() returns (rc: Result<()>)
      requires Valid()
      modifies this
      ensures Valid() && command == old(command) && remainingLength == old(remainingLength)
      ensures rc == if remainingLength <= MAX_REMAINING_LENGTH then Ok(()) else Err(ErrPayloadSize)
      ensures rc.Ok? ==> fresh(payload) && Written() == [command] + Encode(remainingLength)
      ensures rc.Ok? ==> packetLength == pos + remainingLength
    {
      var digits := LengthDigits();
      remainingCount := |digits|;
      if remainingCount == 5 {
        return Err(ErrPayloadSize);
      }
      packetLength := remainingLength + 1 + remainingCount;
      payload := new byte[packetLength];
      payload[0] := command;
      pos := 1;
      CopyIn(digits);
      assert payload[..pos] == [command] + digits;
      return Ok(());
    }

    /** memcpy to payload[pos..], and the advance of pos. */
    method CopyIn(bytes: seq<byte>)
      requires Valid() && pos + |bytes| <= packetLength
      modifies this`pos, payload
      ensures Valid() && pos == old(pos) + |bytes|
      ensures Written() == old(Written()) + bytes
    {
      forall i | 0 <= i < |bytes| {
        payload[pos + i] := bytes[i];
      }
      pos := pos + |bytes|;
    }

    /** packet__write_byte */
    method WriteByte(b: byte)
      requires Valid() && pos + 1 <= packetLength
      modifies this`pos, payload
      ensures Valid() && pos == old(pos) + 1 && Written() == old(Written()) + [b]
    {
      payload[pos] := b;
      pos := pos + 1;
    }

    /** packet__write_bytes */
    method WriteBytes(bytes: seq<byte>)
      requires Valid() && pos + |bytes| <= packetLength
      modifies this`pos, payload
      ensures Valid() && pos == old(pos) + |bytes| && Written() == old(Written()) + bytes
    {
      CopyIn(bytes);
    }

    /** packet__write_uint16 */
    method WriteUint16(w: uint16)
      requires Valid() && pos + 2 <= packetLength
      modifies this`pos, payload
      ensures Valid() && pos == old(pos) + 2 && Written() == old(Written()) + Uint16Bytes(w)
    {
      WriteByte(w / 256);
      WriteByte(w % 256);
    }

    /** packet__write_string */
    method WriteString(s: seq<byte>)
      requires Valid() && |s| < 0x1_0000 && pos + 2 + |s| <= packetLength
      modifies this`pos, payload
      ensures Valid() && pos == old(pos) + 2 + |s| && Written() == old(Written()) + StringBytes(s)
    {
      WriteUint16(|s|);
      WriteBytes(s);
    }

    /** packet__write_byte with its assertion: false when the assertion fails. */
    method TryByte(b: byte) returns (ok: bool)
      requires Valid()
      modifies this`pos, payload
      ensures Valid() && (ok <==> old(pos) + 1 <= packetLength)
      ensures ok ==> pos == old(pos) + 1 && Written() == old(Written()) + [b]
    {
      ok := pos + 1 <= packetLength;
      if ok {
        WriteByte(b);
      }
    }

    method TryUint16(w: uint16) returns (ok: bool)
      requires Valid()
      modifies this`pos, payload
      ensures Valid() && (ok <==> old(pos) + 2 <= packetLength)
      ensures ok ==> pos == old(pos) + 2 && Written() == old(Written()) + Uint16Bytes(w)
    {
      ok := TryByte(w / 256);
      if ok {
        ok := TryByte(w % 256);
      }
    }

    method TryString(s: seq<byte>) returns (ok: bool)
      requires Valid() && |s| < 0x1_0000
      modifies this`pos, payload
      ensures Valid() && (ok <==> old(pos) + 2 + |s| <= packetLength)
      ensures ok ==> pos == old(pos) + 2 + |s| && Written() == old(Written()) + StringBytes(s)
    {
      ok := TryUint16(|s|);
      if ok {
        ok := pos + |s| <= packetLength;
        if ok {
          WriteBytes(s);
        }
      }
    }

    /** packet__write_varint; five bytes are written before the error is reported. */
    method WriteVarint(word: uint32) returns (rc: Result<()>)
      requires Valid() && pos + VarintBytes(word) <= packetLength
      modifies this`pos, payload
      ensures Valid() && pos == old(pos) + VarintBytes(word) && Written() == old(Written()) + Encode(word)
      ensures rc == if word <= MAX_REMAINING_LENGTH then Ok(()) else Err(ErrMalformedPacket)
    {
      hide Encode;
      EncodeLength(word);
      var w: nat := word;
      var count := 0;
      ghost var w0 := Written();
      ghost var done: seq<byte> := [];
      while true
        invariant Valid() && count == |done| <= 4 && pos == old(pos) + count && payload == old(payload)
        invariant Written() == w0 + done && done + Encode(w) == Encode(word)
        invariant packetLength == old(packetLength)
        decreases w
      {
        DigitStep(done, w);
        var digit := w % 128;
        w := w / 128;
        if w > 0 {
          digit := digit + 128;
        }
        WriteByte(digit);
        done := done + [digit];
        count := count + 1;
        if !(w > 0 && count < 5) {
          break;
        }
      }
      rc := if count == 5 then Err(ErrMalformedPacket) else Ok(());
    }
  }

  /** One turn of the encoding loops: the next digit, then the encoding of what is left. */
  lemma DigitStep(done: seq<byte>, n: nat)
    ensures n / 128 == 0 ==> done + Encode(n) == done + [n % 128]
    ensures n / 128 > 0 ==> done + Encode(n) == done + [n % 128 + 128] + Encode(n / 128)
  {
  }

  /** A length-prefixed string. */
  function StringBytes(s: seq<byte>): (r: seq<byte>)
    requires |s| < 0x1_0000
    ensures |r| == 2 + |s|
  {
    Uint16Bytes(|s|) + s
  }
}
