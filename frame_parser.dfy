// Parsing a byte array that holds one whole frame, without checking the
// checksum or the signature: the header fields, the payload, the received
// checksum and, for a signed v2 frame, the signature block. Bytes after the
// frame are ignored.

module FrameParser {
  import opened Bytes
  import opened Frames
  import opened FrameHandlers

  const V1_MIN_LENGTH: int := 8
  const V2_MIN_LENGTH: int := 12

  /**
   * `parse`: an empty array or an unknown start byte is refused; otherwise
   * the version's own parse. A parsed frame's validation outcome is never
   * set.
   */
  function Parse(frameBytes: seq<uint8>): (r: Result<Frame>)
    ensures r.Ok? ==> |frameBytes| > 0 && (frameBytes[0] == V1_STX || frameBytes[0] == V2_STX)
    ensures r.Ok? ==> r.value.validated.None? && 0 <= r.value.checksum < 0x1_0000
    ensures r.Ok? && frameBytes[0] == V1_STX ==> r.value.version == Some(V1) && !r.value.signed
    ensures r.Ok? && frameBytes[0] == V2_STX ==> r.value.version == Some(V2)
  {
    if |frameBytes| == 0 then Err("Empty MAVLink frame")
    else if frameBytes[0] == V1_STX then ParseV1(frameBytes)
    else if frameBytes[0] == V2_STX then ParseV2(frameBytes)
    else Err("Unsupported MAVLink STX byte")
  }

  /**
   * `parseV1`: the array must hold the eight bytes of an empty frame and
   * then the whole frame its length byte announces; the parsed frame has
   * the five header fields, exactly the announced payload and the received
   * checksum, and is unsigned with no flags.
   */
  function ParseV1(frameBytes: seq<uint8>): (r: Result<Frame>)
    ensures r.Ok? <==> |frameBytes| >= V1_MIN_LENGTH && |frameBytes| >= V1TotalFrameLength(frameBytes[1])
    ensures r.Ok? ==> r.value.payload.Some? && |r.value.payload.value| == r.value.payloadLength == frameBytes[1]
  {
    if |frameBytes| < V1_MIN_LENGTH then Err("MAVLink v1 frame too short")
    else
      var payloadLength := frameBytes[1];
      if |frameBytes| < V1TotalFrameLength(payloadLength) then Err("MAVLink v1 frame incomplete")
      else
        var payloadEnd := V1_HEADER_LENGTH + payloadLength;
        Ok(Frame(Some(V1), frameBytes[2], frameBytes[3], frameBytes[4], frameBytes[5], payloadLength,
                 Some(frameBytes[V1_HEADER_LENGTH..payloadEnd]), ReadUnsignedShort(frameBytes, payloadEnd),
                 false, 0, 0, None, None))
  }

  /**
   * `parseV2`: the array must hold the twelve bytes of an empty frame, then
   * the header, payload and checksum, then the signature block when bit 0
   * of the incompatibility flags is set; the signature is taken only then.
   */
  function ParseV2(frameBytes: seq<uint8>): (r: Result<Frame>)
    ensures r.Ok? <==> |frameBytes| >= V2_MIN_LENGTH && |frameBytes| >= V2TotalFrameLength(frameBytes[2], frameBytes[1])
    ensures r.Ok? ==> r.value.payload.Some? && |r.value.payload.value| == r.value.payloadLength == frameBytes[1]
    ensures r.Ok? ==> (r.value.signed <==> SignedFlag(frameBytes[2])) && (r.value.signed <==> r.value.signature.Some?)
  {
    if |frameBytes| < V2_MIN_LENGTH then Err("MAVLink v2 frame too short")
    else
      var payloadLength := frameBytes[1];
      var incompatibilityFlags := frameBytes[2];
      if |frameBytes| < V2_HEADER_LENGTH + payloadLength + CRC_LENGTH then Err("MAVLink v2 frame incomplete")
      else
        var signed := SignedFlag(incompatibilityFlags);
        if |frameBytes| < V2TotalFrameLength(incompatibilityFlags, payloadLength) then Err("MAVLink v2 signed frame incomplete")
        else
          var payloadEnd := V2_HEADER_LENGTH + payloadLength;
          var signatureStart := payloadEnd + CRC_LENGTH;
          Ok(Frame(Some(V2), frameBytes[4], frameBytes[5], frameBytes[6], V2MessageId(frameBytes), payloadLength,
                   Some(frameBytes[V2_HEADER_LENGTH..payloadEnd]), ReadUnsignedShort(frameBytes, payloadEnd),
                   signed, incompatibilityFlags, frameBytes[3],
                   if signed then Some(frameBytes[signatureStart..signatureStart + SIGNATURE_LENGTH]) else None, None))
  }

  /** Bytes after a complete frame do not change what is parsed. */
  lemma TrailingBytesIgnored(frameBytes: seq<uint8>, trailing: seq<uint8>)
    requires Parse(frameBytes).Ok?
    ensures Parse(frameBytes + trailing) == Parse(frameBytes)
  {
    var b := frameBytes + trailing;
    assert b[..|frameBytes|] == frameBytes;
    if frameBytes[0] == V1_STX {
      var e := V1_HEADER_LENGTH + frameBytes[1];
      assert b[V1_HEADER_LENGTH..e] == frameBytes[V1_HEADER_LENGTH..e];
      assert b[e..e + 2] == frameBytes[e..e + 2];
    } else {
      var e := V2_HEADER_LENGTH + frameBytes[1];
      assert b[7..10] == frameBytes[7..10];
      assert b[V2_HEADER_LENGTH..e] == frameBytes[V2_HEADER_LENGTH..e];
      assert b[e..e + 2] == frameBytes[e..e + 2];
      if SignedFlag(frameBytes[2]) {
        assert b[e + 2..e + 2 + SIGNATURE_LENGTH] == frameBytes[e + 2..e + 2 + SIGNATURE_LENGTH];
      }
    }
  }
}
