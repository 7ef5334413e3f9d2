/** Bytes, machine words and error codes shared by the packet models. */
module Bytes {
  type byte = x: int | 0 <= x < 0x100
  type uint16 = x: int | 0 <= x < 0x1_0000
  type uint32 = x: int | 0 <= x < 0x1_0000_0000

  const TWO_32: nat := 0x1_0000_0000

  const MAX_REMAINING_LENGTH: nat := 268435455

  /** The protocol names that CONNECT carries. */
  const MQTT: seq<byte> := [77, 81, 84, 84]
  const MQISDP: seq<byte> := [77, 81, 73, 115, 100, 112]

  function Bit(b: bool): nat { if b then 1 else 0 }

  datatype Result<+T> = Ok(value: T) | Err(error: Error)

  /** MOSQ_ERR_* codes; AssertionFailed when the process stops at a C assertion. */
  datatype Error =
    | ErrMalformedPacket | ErrMalformedUtf8 | ErrProtocol | ErrPayloadSize | ErrInval | ErrNoConn | AssertionFailed

  datatype Option<+T> = None | Some(value: T)

  /** Two bytes, most significant first. */
  function Uint16Bytes(w: uint16): (s: seq<byte>)
    ensures |s| == 2 && s[0] as int * 256 + s[1] as int == w
  {
    [w / 256, w % 256]
  }
}
