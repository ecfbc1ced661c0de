/**
 * Framing constants, message identifiers and payload lengths of the
 * ComfoAir serial protocol.
 */
module Messages {

  /** An unsigned 8-bit value, as carried on the serial line. */
  type uint8 = x: int | 0 <= x < 0x100

  // Frame layout: a 5-byte head (prefix, head marker, reserved 0x00,
  // identifier, data length) and a 3-byte tail (checksum, prefix, tail marker).
  const HeadLength: uint8 := 5
  const TailLength: uint8 := 3

  // Marker bytes.
  const Prefix: uint8 := 0x07
  const Head: uint8 := 0xF0
  const Tail: uint8 := 0x0F
  const Ack: uint8 := 0xF3

  // Positions inside a frame.
  const IdentifierIdx: uint8 := 3
  const DataLengthIdx: uint8 := 4
  const AckIdx: uint8 := 1

  // Status queries and their responses.
  const FanStatusRequest: uint8 := 0x87
  const FanStatusResponse: uint8 := 0x86
  const TemperatureRequest: uint8 := 0x85
  const TemperatureResponse: uint8 := 0x84
  const BypassControlRequest: uint8 := 0x8B
  const BypassControlResponse: uint8 := 0x8A

  // Setters, acknowledged by the device.
  const SetLevelRequest: uint8 := 0xA0
  const SetLevelLength: uint8 := 0x02
  const SetComfortTemperatureRequest: uint8 := 0x8D
  const SetComfortTemperatureLength: uint8 := 0x0A
  const SetResetRequest: uint8 := 0xDB
  const SetResetLength: uint8 := 0x04

  /** The four marker bytes are pairwise distinct, so the byte at index 1
      tells an acknowledgment (Ack) from a data frame (Head) unambiguously. */
  lemma MarkersDistinct()
    ensures Prefix != Head && Prefix != Tail && Prefix != Ack
    ensures Head != Tail && Head != Ack && Tail != Ack
  {
  }

  /** The identifier and data-length fields lie inside the head, and the
      acknowledgment marker sits where a data frame has its head marker. */
  lemma FieldIndicesInHead()
    ensures IdentifierIdx < HeadLength && DataLengthIdx < HeadLength
    ensures AckIdx == 1 && IdentifierIdx < DataLengthIdx
  {
  }

  /** Each polled query is answered by the identifier one below it. */
  lemma ResponseIsRequestMinusOne()
    ensures FanStatusResponse == FanStatusRequest - 1
    ensures TemperatureResponse == TemperatureRequest - 1
    ensures BypassControlResponse == BypassControlRequest - 1
  {
  }
}
