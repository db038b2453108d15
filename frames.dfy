// A MAVLink frame as the framing layer sees it: header fields, the raw
// payload, the received or computed checksum, the optional v2 signature
// block and the outcome of validation.

module Frames {
  import opened Bytes

  datatype Version = V1 | V2

  /** How validation of a received frame ended. */
  datatype FrameFailureReason = OK | UNSIGNED | CRC_FAILED | SIGNATURE_FAILED | CRC_AND_SIGNATURE_FAILED | MALFORMED | UNKNOWN

  /**
   * A frame. Java's int fields are unbounded integers here; the two flag
   * bytes are held as their unsigned bit patterns; a null payload,
   * signature or version is `None`, and so is a validation outcome that was
   * never set.
   */
  datatype Frame = Frame(
    version: Option<Version>,
    sequence: int,
    systemId: int,
    componentId: int,
    messageId: int,
    payloadLength: int,
    payload: Option<seq<uint8>>,
    checksum: int,
    signed: bool,
    incompatibilityFlags: uint8,
    compatibilityFlags: uint8,
    signature: Option<seq<uint8>>,
    validated: Option<FrameFailureReason>)

  const V1_STX: uint8 := 0xFE
  const V2_STX: uint8 := 0xFD
  const MAX_PAYLOAD_LENGTH: int := 255
  const V1_HEADER_LENGTH: int := 6
  const V2_HEADER_LENGTH: int := 10
  const CRC_LENGTH: int := 2
  const SIGNATURE_LENGTH: int := 13
  const INCOMPAT_FLAG_SIGNED: int := 0x01

  /** `(byte) v`: the low eight bits of an int. */
  function LowByte(v: int): (r: uint8)
    ensures (v - r) % 256 == 0
  {
    v % 256
  }

  /** A value that already fits in a byte is its own low byte. */
  lemma LowByteOfByteValue(v: int)
    requires 0 <= v < 256
    ensures LowByte(v) == v
  {
  }

  /** Bit 0 of the incompatibility flags: a signature block follows the checksum. */
  predicate SignedFlag(flags: uint8)
  {
    flags % 2 == 1
  }
}
