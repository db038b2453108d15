// Writing a frame into an output buffer at its position: the header, the
// first payloadLength payload bytes, the checksum (computed over what was
// just written, plus the message's CRC-extra byte) and, for a signed v2
// frame, the 13-byte signature block. The frame gets back the checksum and
// the flags it was written with.

module FramePacker {
  import opened Bytes
  import opened Buffers
  import opened CrcHelper
  import opened Registry
  import opened FrameCodec
  import opened Frames
  import opened FrameHandlers

  /** What a pack call leaves behind: the frame with its written-back fields, or an error, and the bytes put at the start position. */
  datatype Packed = Packed(frame: Result<Frame>, written: seq<uint8>)

  /** A null payload is packed as an empty one. */
  function PayloadOf(frame: Frame): seq<uint8>
  {
    if frame.payload.Some? then frame.payload.value else []
  }

  /** The checksum as it goes on the wire: low byte first. */
  function ChecksumBytes(checksum: int): (r: seq<uint8>)
    requires 0 <= checksum < 0x1_0000
    ensures |r| == CRC_LENGTH && FromLittleEndian(r) == checksum
  {
    assert Pow256(2) == 0x1_0000;
    LittleEndianRoundTrip(checksum, 2);
    LittleEndian(checksum, CRC_LENGTH)
  }

  /** What `requireRemaining` demands of a v1 frame: one byte more than is written, as the start byte is counted twice. */
  function V1Required(payloadLength: int): int
  {
    1 + V1_HEADER_LENGTH + payloadLength + CRC_LENGTH
  }

  function V2Required(payloadLength: int, signed: bool): int
  {
    1 + V2_HEADER_LENGTH + payloadLength + CRC_LENGTH + if signed then SIGNATURE_LENGTH else 0
  }

  /** The v1 header (each int field cut to its low byte) followed by the payload's first payloadLength bytes. */
  function V1Body(frame: Frame, payload: seq<uint8>): (r: seq<uint8>)
    requires 0 <= frame.payloadLength <= |payload|
    ensures |r| == V1_HEADER_LENGTH + frame.payloadLength
  {
    [V1_STX, LowByte(frame.payloadLength), LowByte(frame.sequence), LowByte(frame.systemId), LowByte(frame.componentId),
     LowByte(frame.messageId)] + payload[..frame.payloadLength]
  }

  /** Bit 0 of the incompatibility flags set for a signed frame and cleared otherwise; the other bits kept. */
  function V2Flags(flags: uint8, signed: bool): (r: uint8)
    ensures SignedFlag(r) == signed && r / 2 == flags / 2
  {
    flags - flags % 2 + if signed then 1 else 0
  }

  /** The v2 header with the given flags, the message id as three bytes lowest first, then the payload. */
  function V2Body(frame: Frame, payload: seq<uint8>, flags: uint8): (r: seq<uint8>)
    requires 0 <= frame.payloadLength <= |payload|
    ensures |r| == V2_HEADER_LENGTH + frame.payloadLength
  {
    [V2_STX, LowByte(frame.payloadLength), flags, frame.compatibilityFlags, LowByte(frame.sequence), LowByte(frame.systemId),
     LowByte(frame.componentId)] + LittleEndian(frame.messageId, 3) + payload[..frame.payloadLength]
  }

  /**
   * `packV1` with the checksum over the five header bytes after the start
   * byte and the payload. A short payload or buffer is refused before
   * anything is written; an unknown message id is refused after the header
   * and payload are written. On success the frame gets the checksum, is
   * marked unsigned with both flag bytes 0 and no signature.
   */
  function PackedV1(dialect: map<int, CompiledMessage>, frame: Frame, remaining: int): (r: Packed)
    requires 0 <= frame.payloadLength <= MAX_PAYLOAD_LENGTH
    ensures r.frame.Ok? <==> frame.payloadLength <= |PayloadOf(frame)| && V1Required(frame.payloadLength) <= remaining
                             && frame.messageId in dialect
    ensures r.frame.Ok? ==> |r.written| == V1TotalFrameLength(frame.payloadLength) && 0 <= r.frame.value.checksum < 0x1_0000
  {
    var payload := PayloadOf(frame);
    if |payload| < frame.payloadLength then Packed(Err("payload length < payloadLength"), [])
    else if remaining < V1Required(frame.payloadLength) then Packed(Err("Insufficient space in output buffer"), [])
    else
      var body := V1Body(frame, payload);
      var crcExtra := CrcExtra(dialect, V1, frame.messageId);
      if crcExtra.Err? then Packed(Err(crcExtra.reason), body)
      else
        var checksum := FrameChecksum(body[1..], crcExtra.value) as int;
        Packed(Ok(frame.(checksum := checksum, signed := false, incompatibilityFlags := 0, compatibilityFlags := 0, signature := None)),
               body + ChecksumBytes(checksum))
  }

  /**
   * `packV1` as written: the checksum runs over one byte more than the
   * header and payload, namely `following`, the byte the buffer held just
   * after the payload, which the checksum's low byte then overwrites.
   */
  function PackedV1AsWritten(dialect: map<int, CompiledMessage>, frame: Frame, remaining: int, following: uint8): (r: Packed)
    requires 0 <= frame.payloadLength <= MAX_PAYLOAD_LENGTH
    ensures r.frame.Ok? <==> PackedV1(dialect, frame, remaining).frame.Ok?
    ensures r.frame.Ok? ==> |r.written| == V1TotalFrameLength(frame.payloadLength)
  {
    var payload := PayloadOf(frame);
    if |payload| < frame.payloadLength then Packed(Err("payload length < payloadLength"), [])
    else if remaining < V1Required(frame.payloadLength) then Packed(Err("Insufficient space in output buffer"), [])
    else
      var body := V1Body(frame, payload);
      var crcExtra := CrcExtra(dialect, V1, frame.messageId);
      if crcExtra.Err? then Packed(Err(crcExtra.reason), body)
      else
        var checksum := FrameChecksum(body[1..] + [following], crcExtra.value) as int;
        Packed(Ok(frame.(checksum := checksum, signed := false, incompatibilityFlags := 0, compatibilityFlags := 0, signature := None)),
               body + ChecksumBytes(checksum))
  }

  /**
   * `packV2`: a signed frame must carry a 13-byte signature; a short payload
   * or buffer is refused before anything is written, an unknown message id
   * after the header and payload. The checksum covers the nine header bytes
   * after the start byte and the payload; the signature follows it. The
   * frame gets the checksum and the flags as written.
   */
  function PackedV2(dialect: map<int, CompiledMessage>, frame: Frame, remaining: int): (r: Packed)
    requires 0 <= frame.payloadLength <= MAX_PAYLOAD_LENGTH
    ensures r.frame.Ok? <==> frame.payloadLength <= |PayloadOf(frame)|
                             && (frame.signed ==> frame.signature.Some? && |frame.signature.value| == SIGNATURE_LENGTH)
                             && V2Required(frame.payloadLength, frame.signed) <= remaining
                             && frame.messageId in dialect
    ensures r.frame.Ok? ==> |r.written| == V2TotalFrameLength(V2Flags(frame.incompatibilityFlags, frame.signed), frame.payloadLength)
                            && 0 <= r.frame.value.checksum < 0x1_0000
  {
    var payload := PayloadOf(frame);
    if |payload| < frame.payloadLength then Packed(Err("payload length < payloadLength"), [])
    else if frame.signed && (frame.signature.None? || |frame.signature.value| != SIGNATURE_LENGTH) then
      Packed(Err("Signed v2 frame must have signature[13]"), [])
    else if remaining < V2Required(frame.payloadLength, frame.signed) then Packed(Err("Insufficient space in output buffer"), [])
    else
      var flags := V2Flags(frame.incompatibilityFlags, frame.signed);
      var body := V2Body(frame, payload, flags);
      var crcExtra := CrcExtra(dialect, V2, frame.messageId);
      if crcExtra.Err? then Packed(Err(crcExtra.reason), body)
      else
        var checksum := FrameChecksum(body[1..], crcExtra.value) as int;
        Packed(Ok(frame.(checksum := checksum, incompatibilityFlags := flags)),
               body + ChecksumBytes(checksum) + if frame.signed then frame.signature.value else [])
  }

  /** What `packV2` puts out once its checks before any write have passed: the body alone on an unknown message, else the whole frame. */
  lemma PackedV2AfterChecks(dialect: map<int, CompiledMessage>, frame: Frame, remaining: int)
    requires 0 <= frame.payloadLength <= MAX_PAYLOAD_LENGTH && frame.payloadLength <= |PayloadOf(frame)|
    requires frame.signed ==> frame.signature.Some? && |frame.signature.value| == SIGNATURE_LENGTH
    requires V2Required(frame.payloadLength, frame.signed) <= remaining
    ensures var flags := V2Flags(frame.incompatibilityFlags, frame.signed);
            var body := V2Body(frame, PayloadOf(frame), flags);
            var crcExtra := CrcExtra(dialect, V2, frame.messageId);
            var tail := if frame.signed then frame.signature.value else [];
            && (crcExtra.Err? ==> PackedV2(dialect, frame, remaining) == Packed(Err(crcExtra.reason), body))
            && (crcExtra.Ok? ==>
                  var checksum := FrameChecksum(body[1..], crcExtra.value) as int;
                  PackedV2(dialect, frame, remaining)
                  == Packed(Ok(frame.(checksum := checksum, incompatibilityFlags := flags)), body + (ChecksumBytes(checksum) + tail)))
  {
    var flags := V2Flags(frame.incompatibilityFlags, frame.signed);
    var body := V2Body(frame, PayloadOf(frame), flags);
    var crcExtra := CrcExtra(dialect, V2, frame.messageId);
    if crcExtra.Ok? {
      var checksum := FrameChecksum(body[1..], crcExtra.value) as int;
      var tail := if frame.signed then frame.signature.value else [];
      assert body + ChecksumBytes(checksum) + tail == body + (ChecksumBytes(checksum) + tail);
    }
  }

  /** `pack`: a payload length outside [0, 255] or a missing version is refused before anything is written. */
  function PackedFrame(dialect: map<int, CompiledMessage>, frame: Frame, remaining: int): (r: Packed)
    ensures r.frame.Ok? ==> 0 <= frame.payloadLength <= MAX_PAYLOAD_LENGTH && frame.version.Some?
    ensures r.frame.Err? && (frame.payloadLength < 0 || frame.payloadLength > MAX_PAYLOAD_LENGTH || frame.version.None?) ==> r.written == []
  {
    if frame.payloadLength < 0 || frame.payloadLength > MAX_PAYLOAD_LENGTH then Packed(Err("Invalid payloadLength"), [])
    else if frame.version.None? then Packed(Err("frame.version must not be null"), [])
    else if frame.version.value == V1 then PackedV1(dialect, frame, remaining)
    else PackedV2(dialect, frame, remaining)
  }

  class MavlinkFramePacker {
    const dialectRegistry: map<int, CompiledMessage>

    constructor(dialectRegistry: map<int, CompiledMessage>)
      ensures this.dialectRegistry == dialectRegistry
    {
      this.dialectRegistry := dialectRegistry;
    }

    /** `pack`: the bytes of `PackedFrame` are put at the position, which moves past them. */
    method Pack(out: ByteBuffer, frame: Frame) returns (r: Result<Frame>)
      requires out.Valid()
      modifies out, out.data
      ensures out.Valid() && out.limit == old(out.limit)
      ensures var p := PackedFrame(dialectRegistry, frame, old(out.Remaining()));
              r == p.frame && old(out.position) + |p.written| <= out.limit
              && out.position == old(out.position) + |p.written| && out.data[..] == Splice(old(out.data[..]), old(out.position), p.written)
    {
      if frame.payloadLength < 0 || frame.payloadLength > MAX_PAYLOAD_LENGTH {
        return Err("Invalid payloadLength");
      }
      if frame.version.None? {
        return Err("frame.version must not be null");
      }
      if frame.version.value == V1 {
        r := PackV1(out, frame);
      } else {
        r := PackV2(out, frame);
      }
    }

    /** `packV1`, with the checksum span corrected. */
    method PackV1(out: ByteBuffer, frame: Frame) returns (r: Result<Frame>)
      requires out.Valid() && 0 <= frame.payloadLength <= MAX_PAYLOAD_LENGTH
      modifies out, out.data
      ensures out.Valid() && out.limit == old(out.limit)
      ensures var p := PackedV1(dialectRegistry, frame, old(out.Remaining()));
              r == p.frame && old(out.position) + |p.written| <= out.limit
              && out.position == old(out.position) + |p.written| && out.data[..] == Splice(old(out.data[..]), old(out.position), p.written)
    {
      var payloadLength := frame.payloadLength;
      var payload := PayloadOf(frame);
      if |payload| < payloadLength {
        return Err("payload length < payloadLength");
      }
      if out.Remaining() < V1Required(payloadLength) {
        return Err("Insufficient space in output buffer");
      }
      var startPosition := out.position;
      var body := V1Body(frame, payload);
      var ok := out.PutBytes(body);
      var crcExtra := CrcExtra(dialectRegistry, V1, frame.messageId);
      if crcExtra.Err? {
        return Err(crcExtra.reason);
      }
      var checksum := FinishFrame(out, startPosition, body, crcExtra.value, []);
      SpliceSplice(old(out.data[..]), startPosition, body, ChecksumBytes(checksum) + []);
      assert ChecksumBytes(checksum) + [] == ChecksumBytes(checksum);
      r := Ok(frame.(checksum := checksum, signed := false, incompatibilityFlags := 0, compatibilityFlags := 0, signature := None));
    }

    /** The byte just past a v1 payload written at the position; a buffer too short to hold it is refused before it is read. */
    ghost function StaleByte(out: ByteBuffer, payloadLength: int): uint8
      reads out, out.data
    {
      var index := out.position + V1_HEADER_LENGTH + payloadLength;
      if 0 <= index < out.data.Length then out.data[index] else 0
    }

    /** `packV1` as written: the checksum is read over one byte past the payload before that byte is overwritten. */
    method PackV1AsWritten(out: ByteBuffer, frame: Frame) returns (r: Result<Frame>)
      requires out.Valid() && 0 <= frame.payloadLength <= MAX_PAYLOAD_LENGTH
      modifies out, out.data
      ensures out.Valid() && out.limit == old(out.limit)
      ensures var p := PackedV1AsWritten(dialectRegistry, frame, old(out.Remaining()), old(StaleByte(out, frame.payloadLength)));
              r == p.frame && old(out.position) + |p.written| <= out.limit
              && out.position == old(out.position) + |p.written| && out.data[..] == Splice(old(out.data[..]), old(out.position), p.written)
    {
      var payloadLength := frame.payloadLength;
      var payload := PayloadOf(frame);
      if |payload| < payloadLength {
        return Err("payload length < payloadLength");
      }
      if out.Remaining() < V1Required(payloadLength) {
        return Err("Insufficient space in output buffer");
      }
      var startPosition := out.position;
      ghost var following := StaleByte(out, payloadLength);
      var body := V1Body(frame, payload);
      var ok := out.PutBytes(body);
      var crcExtra := CrcExtra(dialectRegistry, V1, frame.messageId);
      if crcExtra.Err? {
        return Err(crcExtra.reason);
      }
      var checksum := FinishFrameAsWritten(out, startPosition, body, crcExtra.value, following);
      SpliceSplice(old(out.data[..]), startPosition, body, ChecksumBytes(checksum));
      r := Ok(frame.(checksum := checksum, signed := false, incompatibilityFlags := 0, compatibilityFlags := 0, signature := None));
    }

    /** `packV2`. */
    method PackV2(out: ByteBuffer, frame: Frame) returns (r: Result<Frame>)
      requires out.Valid() && 0 <= frame.payloadLength <= MAX_PAYLOAD_LENGTH
      modifies out, out.data
      ensures out.Valid() && out.limit == old(out.limit)
      ensures var p := PackedV2(dialectRegistry, frame, old(out.Remaining()));
              r == p.frame && old(out.position) + |p.written| <= out.limit
              && out.position == old(out.position) + |p.written| && out.data[..] == Splice(old(out.data[..]), old(out.position), p.written)
    {
      var payloadLength := frame.payloadLength;
      var payload := PayloadOf(frame);
      if |payload| < payloadLength {
        return Err("payload length < payloadLength");
      }
      var signed := frame.signed;
      var signature := frame.signature;
      if signed && (signature.None? || |signature.value| != SIGNATURE_LENGTH) {
        return Err("Signed v2 frame must have signature[13]");
      }
      if out.Remaining() < V2Required(payloadLength, signed) {
        return Err("Insufficient space in output buffer");
      }
      r := WriteV2(out, frame);
    }

    /** `packV2` once the checks that precede any write have passed. */
    method WriteV2(out: ByteBuffer, frame: Frame) returns (r: Result<Frame>)
      requires out.Valid() && 0 <= frame.payloadLength <= MAX_PAYLOAD_LENGTH && frame.payloadLength <= |PayloadOf(frame)|
      requires frame.signed ==> frame.signature.Some? && |frame.signature.value| == SIGNATURE_LENGTH
      requires V2Required(frame.payloadLength, frame.signed) <= out.Remaining()
      modifies out, out.data
      ensures out.Valid() && out.limit == old(out.limit)
      ensures var p := PackedV2(dialectRegistry, frame, old(out.Remaining()));
              r == p.frame && old(out.position) + |p.written| <= out.limit
              && out.position == old(out.position) + |p.written| && out.data[..] == Splice(old(out.data[..]), old(out.position), p.written)
    {
      PackedV2AfterChecks(dialectRegistry, frame, out.Remaining());
      ghost var packed := PackedV2(dialectRegistry, frame, out.Remaining());
      ghost var image := out.data[..];
      var payload := PayloadOf(frame);
      var signed := frame.signed;
      var signature := frame.signature;
      var startPosition := out.position;
      var incompatibilityFlags := V2Flags(frame.incompatibilityFlags, signed);
      var body := V2Body(frame, payload, incompatibilityFlags);
      var ok := out.PutBytes(body);
      var crcExtra := CrcExtra(dialectRegistry, V2, frame.messageId);
      if crcExtra.Err? {
        assert out.data[..] == Splice(image, startPosition, packed.written);
        return Err(crcExtra.reason);
      }
      var tail := if signed then signature.value else [];
      ghost var afterBody := out.data[..];
      assert afterBody == Splice(image, startPosition, body) && out.position == startPosition + |body|;
      var checksum := FinishFrame(out, startPosition, body, crcExtra.value, tail);
      assert out.data[..] == Splice(afterBody, startPosition + |body|, ChecksumBytes(checksum) + tail);
      SpliceSplice(image, startPosition, body, ChecksumBytes(checksum) + tail);
      assert packed.written == body + (ChecksumBytes(checksum) + tail);
      r := Ok(frame.(checksum := checksum, incompatibilityFlags := incompatibilityFlags));
    }

    /**
     * The end of `packV1` and `packV2`: the checksum over the body just
     * written (without its start byte) and the CRC-extra byte, put low byte
     * first, followed by `tail`.
     */
    method FinishFrame(out: ByteBuffer, startPosition: nat, body: seq<uint8>, crcExtra: uint8, tail: seq<uint8>) returns (checksum: int)
      requires out.Valid() && |body| > 1 && startPosition + |body| == out.position
      requires out.data[startPosition..out.position] == body
      requires CRC_LENGTH + |tail| <= out.Remaining()
      modifies out, out.data
      ensures out.Valid() && out.limit == old(out.limit)
      ensures checksum == FrameChecksum(body[1..], crcExtra) as int
      ensures out.position == old(out.position) + CRC_LENGTH + |tail|
      ensures out.data[..] == Splice(old(out.data[..]), old(out.position), ChecksumBytes(checksum) + tail)
    {
      checksum := ComputeChecksumFromWritten(out, startPosition + 1, |body| - 1, crcExtra);
      assert out.data[startPosition + 1..startPosition + 1 + |body| - 1] == body[1..];
      var ok := out.PutBytes(ChecksumBytes(checksum) + tail);
    }

    /**
     * The end of `packV1` as written: the checksum is read over the body
     * without its start byte and the one byte still in the buffer after it,
     * then put low byte first over that byte.
     */
    method FinishFrameAsWritten(out: ByteBuffer, startPosition: nat, body: seq<uint8>, crcExtra: uint8, ghost following: uint8)
      returns (checksum: int)
      requires out.Valid() && |body| > 1 && startPosition + |body| == out.position
      requires out.data[startPosition..out.position] == body
      requires CRC_LENGTH <= out.Remaining() && out.position < out.data.Length && out.data[out.position] == following
      modifies out, out.data
      ensures out.Valid() && out.limit == old(out.limit)
      ensures checksum == FrameChecksum(body[1..] + [following], crcExtra) as int
      ensures out.position == old(out.position) + CRC_LENGTH
      ensures out.data[..] == Splice(old(out.data[..]), old(out.position), ChecksumBytes(checksum))
    {
      ghost var image := out.data[..];
      SliceOfSlice(image, startPosition, out.position, 1, |body|);
      assert image[startPosition + 1..startPosition + 1 + |body|] == image[startPosition + 1..out.position] + [following];
      checksum := ComputeChecksumFromWritten(out, startPosition + 1, |body|, crcExtra);
      var ok := out.PutBytes(ChecksumBytes(checksum));
    }
  }
}
