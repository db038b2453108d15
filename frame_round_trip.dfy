// How the packer, the parser and the frame handlers fit together: bytes
// the packer writes parse back to the frame it was given, cut to wire
// widths, and the handlers accept them with the validation outcome the
// frame earns. The v1 packer as written does not have this property.

module FrameRoundTrip {
  import opened Bytes
  import opened CrcHelper
  import opened Registry
  import opened FrameCodec
  import opened Frames
  import opened Signing
  import opened SignatureGenerator
  import opened FrameHandlers
  import opened FramePacker
  import opened FrameParser

  const TWO24: int := 0x100_0000

  /**
   * A frame as it reads back from the wire: each id cut to the width its
   * version writes, exactly payloadLength payload bytes, a signature only
   * when the frame is signed, and no validation outcome yet.
   */
  function OnTheWire(frame: Frame): Frame
    requires frame.version.Some? && 0 <= frame.payloadLength <= |PayloadOf(frame)|
  {
    frame.(sequence := LowByte(frame.sequence), systemId := LowByte(frame.systemId), componentId := LowByte(frame.componentId),
           messageId := if frame.version.value == V1 then LowByte(frame.messageId) else frame.messageId % TWO24,
           payload := Some(PayloadOf(frame)[..frame.payloadLength]),
           signature := if frame.signed then frame.signature else None, validated := None)
  }

  /** Where each field of a packed v1 frame lies in the written bytes. */
  lemma V1WrittenLayout(dialect: map<int, CompiledMessage>, frame: Frame, remaining: int)
    requires 0 <= frame.payloadLength <= MAX_PAYLOAD_LENGTH && PackedV1(dialect, frame, remaining).frame.Ok?
    ensures var w := PackedV1(dialect, frame, remaining).written;
            var n := frame.payloadLength;
            && V1Candidate(w) && w[0] == V1_STX && w[1] == n
            && w[2] == LowByte(frame.sequence) && w[3] == LowByte(frame.systemId) && w[4] == LowByte(frame.componentId)
            && w[5] == LowByte(frame.messageId)
            && w[V1_HEADER_LENGTH..V1_HEADER_LENGTH + n] == PayloadOf(frame)[..n]
            && ReadUnsignedShort(w, V1_HEADER_LENGTH + n) == PackedV1(dialect, frame, remaining).frame.value.checksum
            && w[1..V1_HEADER_LENGTH + n] == V1Body(frame, PayloadOf(frame))[1..]
  {
    var p := PackedV1(dialect, frame, remaining);
    assert p.written == V1Body(frame, PayloadOf(frame)) + ChecksumBytes(p.frame.value.checksum);
    V1Layout(frame, p.frame.value.checksum);
  }

  /** A successful `packV2` writes the body with the adjusted flags, the checksum over it, and the signature when signed. */
  lemma PackedV2Written(dialect: map<int, CompiledMessage>, frame: Frame, remaining: int)
    requires 0 <= frame.payloadLength <= MAX_PAYLOAD_LENGTH && PackedV2(dialect, frame, remaining).frame.Ok?
    ensures var p := PackedV2(dialect, frame, remaining);
            var flags := V2Flags(frame.incompatibilityFlags, frame.signed);
            var body := V2Body(frame, PayloadOf(frame), flags);
            && p.frame.value == frame.(checksum := p.frame.value.checksum, incompatibilityFlags := flags)
            && p.frame.value.checksum == FrameChecksum(body[1..], CrcExtra(dialect, V2, frame.messageId).value) as int
            && p.written == body + ChecksumBytes(p.frame.value.checksum) + (if frame.signed then frame.signature.value else [])
  {
  }

  /** Where each field lies in a v2 body followed by a checksum and a tail. */
  lemma V2Layout(frame: Frame, flags: uint8, checksum: int, tail: seq<uint8>)
    requires 0 <= frame.payloadLength <= MAX_PAYLOAD_LENGTH && frame.payloadLength <= |PayloadOf(frame)|
    requires 0 <= checksum < 0x1_0000
    ensures var body := V2Body(frame, PayloadOf(frame), flags);
            var w := body + ChecksumBytes(checksum) + tail;
            var n := frame.payloadLength;
            && |w| == V2_HEADER_LENGTH + n + CRC_LENGTH + |tail|
            && w[0] == V2_STX && w[1] == n && w[2] == flags && w[3] == frame.compatibilityFlags
            && w[4] == LowByte(frame.sequence) && w[5] == LowByte(frame.systemId) && w[6] == LowByte(frame.componentId)
            && V2MessageId(w) == frame.messageId % TWO24
            && w[V2_HEADER_LENGTH..V2_HEADER_LENGTH + n] == PayloadOf(frame)[..n]
            && ReadUnsignedShort(w, V2_HEADER_LENGTH + n) == checksum
            && w[1..V2_HEADER_LENGTH + n] == body[1..]
            && w[V2_HEADER_LENGTH + n + CRC_LENGTH..] == tail
  {
    var body := V2Body(frame, PayloadOf(frame), flags);
    var checksumBytes := ChecksumBytes(checksum);
    var w := body + checksumBytes + tail;
    var n := frame.payloadLength;
    assert w[V2_HEADER_LENGTH + n..V2_HEADER_LENGTH + n + 2] == checksumBytes;
    assert w[7..10] == body[7..10] == LittleEndian(frame.messageId, 3);
    FromLittleEndianOfLittleEndian(frame.messageId, 3);
    assert Pow256(3) == TWO24;
  }

  /** Where each field of a packed v2 frame lies in the written bytes. */
  lemma V2WrittenLayout(dialect: map<int, CompiledMessage>, frame: Frame, remaining: int)
    requires 0 <= frame.payloadLength <= MAX_PAYLOAD_LENGTH && PackedV2(dialect, frame, remaining).frame.Ok?
    ensures var p := PackedV2(dialect, frame, remaining);
            var w := p.written;
            var n := frame.payloadLength;
            var flags := V2Flags(frame.incompatibilityFlags, frame.signed);
            && V2Candidate(w) && w[0] == V2_STX && w[1] == n && w[2] == flags && w[3] == frame.compatibilityFlags
            && w[4] == LowByte(frame.sequence) && w[5] == LowByte(frame.systemId) && w[6] == LowByte(frame.componentId)
            && V2MessageId(w) == frame.messageId % TWO24
            && w[V2_HEADER_LENGTH..V2_HEADER_LENGTH + n] == PayloadOf(frame)[..n]
            && ReadUnsignedShort(w, V2_HEADER_LENGTH + n) == p.frame.value.checksum
            && w[1..V2_HEADER_LENGTH + n] == V2Body(frame, PayloadOf(frame), flags)[1..]
            && (frame.signed ==> w[V2_HEADER_LENGTH + n + CRC_LENGTH..] == frame.signature.value)
            && (!frame.signed ==> |w| == V2_HEADER_LENGTH + n + CRC_LENGTH)
  {
    var p := PackedV2(dialect, frame, remaining);
    PackedV2Written(dialect, frame, remaining);
    var flags := V2Flags(frame.incompatibilityFlags, frame.signed);
    V2Layout(frame, flags, p.frame.value.checksum, if frame.signed then frame.signature.value else []);
  }

  /** Whatever `packV1` writes, `parse` reads back as the frame it wrote, cut to wire widths. */
  lemma PackedV1Parses(dialect: map<int, CompiledMessage>, frame: Frame, remaining: int)
    requires frame.version == Some(V1) && 0 <= frame.payloadLength <= MAX_PAYLOAD_LENGTH
    requires PackedV1(dialect, frame, remaining).frame.Ok?
    ensures var p := PackedV1(dialect, frame, remaining);
            Parse(p.written) == Ok(OnTheWire(p.frame.value))
  {
    var p := PackedV1(dialect, frame, remaining);
    V1WrittenLayout(dialect, frame, remaining);
    var w := p.written;
    var n := frame.payloadLength;
    assert ParseV1(w) == Ok(Frame(Some(V1), w[2], w[3], w[4], w[5], n, Some(w[V1_HEADER_LENGTH..V1_HEADER_LENGTH + n]),
                                  ReadUnsignedShort(w, V1_HEADER_LENGTH + n), false, 0, 0, None, None));
  }

  /** The bytes `packV2` writes for a frame, given its checksum, parse back as that frame with the written flags. */
  lemma V2BytesParse(frame: Frame, checksum: int)
    requires frame.version == Some(V2) && 0 <= frame.payloadLength <= MAX_PAYLOAD_LENGTH && frame.payloadLength <= |PayloadOf(frame)|
    requires frame.signed ==> frame.signature.Some? && |frame.signature.value| == SIGNATURE_LENGTH
    requires 0 <= checksum < 0x1_0000
    ensures var flags := V2Flags(frame.incompatibilityFlags, frame.signed);
            var w := V2Body(frame, PayloadOf(frame), flags) + ChecksumBytes(checksum)
                     + (if frame.signed then frame.signature.value else []);
            Parse(w) == Ok(OnTheWire(frame.(checksum := checksum, incompatibilityFlags := flags)))
  {
    var flags := V2Flags(frame.incompatibilityFlags, frame.signed);
    var tail := if frame.signed then frame.signature.value else [];
    var w := V2Body(frame, PayloadOf(frame), flags) + ChecksumBytes(checksum) + tail;
    V2Layout(frame, flags, checksum, tail);
    var n := frame.payloadLength;
    var signatureStart := V2_HEADER_LENGTH + n + CRC_LENGTH;
    var signature := if frame.signed then Some(w[signatureStart..signatureStart + SIGNATURE_LENGTH]) else None;
    assert frame.signed ==> w[signatureStart..signatureStart + SIGNATURE_LENGTH] == w[signatureStart..];
    assert ParseV2(w) == Ok(Frame(Some(V2), w[4], w[5], w[6], V2MessageId(w), n, Some(w[V2_HEADER_LENGTH..V2_HEADER_LENGTH + n]),
                                  ReadUnsignedShort(w, V2_HEADER_LENGTH + n), frame.signed, w[2], w[3], signature, None));
  }

  /** Whatever `packV2` writes, `parse` reads back as the frame it wrote, cut to wire widths. */
  lemma PackedV2Parses(dialect: map<int, CompiledMessage>, frame: Frame, remaining: int)
    requires frame.version == Some(V2) && 0 <= frame.payloadLength <= MAX_PAYLOAD_LENGTH
    requires PackedV2(dialect, frame, remaining).frame.Ok?
    ensures var p := PackedV2(dialect, frame, remaining);
            Parse(p.written) == Ok(OnTheWire(p.frame.value))
  {
    var p := PackedV2(dialect, frame, remaining);
    PackedV2Written(dialect, frame, remaining);
    V2BytesParse(frame, p.frame.value.checksum);
  }

  /** Whatever `pack` writes, `parse` reads back as the frame it wrote, cut to wire widths. */
  lemma PackedFrameParses(dialect: map<int, CompiledMessage>, frame: Frame, remaining: int)
    requires PackedFrame(dialect, frame, remaining).frame.Ok?
    ensures var p := PackedFrame(dialect, frame, remaining);
            Parse(p.written) == Ok(OnTheWire(p.frame.value))
  {
    if frame.version.value == V1 {
      PackedV1Parses(dialect, frame, remaining);
    } else {
      PackedV2Parses(dialect, frame, remaining);
    }
  }

  /**
   * A packed v1 frame of a message the dialect knows, with an id of one
   * byte and at least the message's full payload, is accepted by the v1
   * handler with its checksum OK.
   */
  lemma PackedV1Validates(dialect: map<int, CompiledMessage>, frame: Frame, remaining: int)
    requires frame.version == Some(V1) && 0 <= frame.payloadLength <= MAX_PAYLOAD_LENGTH
    requires PackedV1(dialect, frame, remaining).frame.Ok? && 0 <= frame.messageId < 256
    requires frame.payloadLength >= dialect[frame.messageId].payloadSizeBytes
    ensures var p := PackedV1(dialect, frame, remaining);
            V1Candidate(p.written) && DecodedV1(dialect, p.written) == Some(OnTheWire(p.frame.value).(validated := Some(OK)))
  {
    var p := PackedV1(dialect, frame, remaining);
    var w := p.written;
    var n := frame.payloadLength;
    V1WrittenLayout(dialect, frame, remaining);
    LowByteOfByteValue(frame.messageId);
    DecodedV1Checked(dialect, w);
    assert w[V1_HEADER_LENGTH..V1_HEADER_LENGTH + w[1]] == PayloadOf(p.frame.value)[..n];
    assert OnTheWire(p.frame.value).(validated := Some(OK))
        == Frame(Some(V1), w[2], w[3], w[4], w[5], w[1], Some(w[V1_HEADER_LENGTH..V1_HEADER_LENGTH + w[1]]),
                 ReadUnsignedShort(w, V1_HEADER_LENGTH + w[1]), false, 0, 0, None, Some(OK));
  }

  /** The frame the v1 handler gives a candidate of a known message, long enough and correctly checksummed. */
  lemma DecodedV1Checked(dialect: map<int, CompiledMessage>, w: seq<uint8>)
    requires V1Candidate(w) && w[0] == V1_STX && w[5] in dialect && w[1] >= dialect[w[5]].payloadSizeBytes
    requires ReadUnsignedShort(w, V1_HEADER_LENGTH + w[1]) == FrameChecksum(w[1..V1_HEADER_LENGTH + w[1]], CrcExtra(dialect, V1, w[5]).value) as int
    ensures DecodedV1(dialect, w)
            == Some(Frame(Some(V1), w[2], w[3], w[4], w[5], w[1], Some(w[V1_HEADER_LENGTH..V1_HEADER_LENGTH + w[1]]),
                          ReadUnsignedShort(w, V1_HEADER_LENGTH + w[1]), false, 0, 0, None, Some(OK)))
  {
  }

  /** The outcome the v2 handler gives a correctly checksummed frame: UNSIGNED, or for a signed one OK unless a validating provider rejects the block. */
  function V2Outcome(provider: SigningKeyProvider, sha256: seq<uint8> -> seq<uint8>, w: seq<uint8>, crcStartIndex: nat,
                     frame: Frame): FrameFailureReason
    requires crcStartIndex + CRC_LENGTH <= |w| && (frame.signed ==> frame.signature.Some?)
  {
    if !frame.signed then UNSIGNED
    else if provider.canValidate
            && !SignatureValid(provider, sha256, w, crcStartIndex, LowByte(frame.systemId), LowByte(frame.componentId), frame.signature.value)
    then SIGNATURE_FAILED
    else OK
  }

  /** What the v2 handler makes of a candidate whose message is known, long enough and correctly checksummed. */
  lemma DecodedV2Accepted(dialect: map<int, CompiledMessage>, provider: SigningKeyProvider, sha256: seq<uint8> -> seq<uint8>,
                          w: seq<uint8>)
    requires V2Candidate(w) && w[0] == V2_STX && V2MessageId(w) in dialect && w[1] >= dialect[V2MessageId(w)].minimumPayloadSizeBytes
    requires ReadUnsignedShort(w, V2_HEADER_LENGTH + w[1])
             == FrameChecksum(w[1..V2_HEADER_LENGTH + w[1]], CrcExtra(dialect, V2, V2MessageId(w)).value) as int
    ensures var n := w[1] as int;
            var signed := SignedFlag(w[2]);
            var signatureStart := V2_HEADER_LENGTH + n + CRC_LENGTH;
            var signature := if signed then Some(w[signatureStart..signatureStart + SIGNATURE_LENGTH]) else None;
            var outcome := if !signed then UNSIGNED
                           else if provider.canValidate && !SignatureValid(provider, sha256, w, V2_HEADER_LENGTH + n, w[5], w[6], signature.value)
                           then SIGNATURE_FAILED else OK;
            DecodedV2(dialect, provider, sha256, w)
            == Some(Frame(Some(V2), w[4], w[5], w[6], V2MessageId(w), n, Some(w[V2_HEADER_LENGTH..V2_HEADER_LENGTH + n]),
                          ReadUnsignedShort(w, V2_HEADER_LENGTH + n), signed, w[2], w[3], signature, Some(outcome)))
  {
  }

  /** The bytes `packV2` writes for a frame, with the right checksum, decode back as that frame. */
  lemma V2BytesDecode(dialect: map<int, CompiledMessage>, provider: SigningKeyProvider, sha256: seq<uint8> -> seq<uint8>,
                      frame: Frame, checksum: int)
    requires frame.version == Some(V2) && 0 <= frame.payloadLength <= MAX_PAYLOAD_LENGTH && frame.payloadLength <= |PayloadOf(frame)|
    requires frame.signed ==> frame.signature.Some? && |frame.signature.value| == SIGNATURE_LENGTH
    requires 0 <= frame.messageId < TWO24 && frame.messageId in dialect
    requires frame.payloadLength >= dialect[frame.messageId].minimumPayloadSizeBytes
    requires var flags := V2Flags(frame.incompatibilityFlags, frame.signed);
             checksum == FrameChecksum(V2Body(frame, PayloadOf(frame), flags)[1..], CrcExtra(dialect, V2, frame.messageId).value) as int
    ensures var flags := V2Flags(frame.incompatibilityFlags, frame.signed);
            var w := V2Body(frame, PayloadOf(frame), flags) + ChecksumBytes(checksum)
                     + (if frame.signed then frame.signature.value else []);
            V2Candidate(w)
            && DecodedV2(dialect, provider, sha256, w)
               == Some(OnTheWire(frame.(checksum := checksum, incompatibilityFlags := flags))
                         .(validated := Some(V2Outcome(provider, sha256, w, V2_HEADER_LENGTH + frame.payloadLength, frame))))
  {
    var flags := V2Flags(frame.incompatibilityFlags, frame.signed);
    var tail := if frame.signed then frame.signature.value else [];
    var w := V2Body(frame, PayloadOf(frame), flags) + ChecksumBytes(checksum) + tail;
    V2Layout(frame, flags, checksum, tail);
    var n := frame.payloadLength;
    var signatureStart := V2_HEADER_LENGTH + n + CRC_LENGTH;
    SliceOfSlice(w, signatureStart, |w|, 0, |tail|);
    assert w[signatureStart..|w|] == w[signatureStart..];
    ModUnique(frame.messageId, TWO24, 0, frame.messageId);
    DecodedV2Accepted(dialect, provider, sha256, w);
    var outcome := V2Outcome(provider, sha256, w, V2_HEADER_LENGTH + n, frame);
    OnTheWireV2(frame, checksum, flags, outcome);
  }

  /** A v2 frame given a checksum and flags, as it reads back from the wire with a validation outcome. */
  lemma OnTheWireV2(frame: Frame, checksum: int, flags: uint8, outcome: FrameFailureReason)
    requires frame.version == Some(V2) && 0 <= frame.payloadLength <= |PayloadOf(frame)| && 0 <= frame.messageId < TWO24
    ensures OnTheWire(frame.(checksum := checksum, incompatibilityFlags := flags)).(validated := Some(outcome))
            == Frame(Some(V2), LowByte(frame.sequence), LowByte(frame.systemId), LowByte(frame.componentId), frame.messageId,
                     frame.payloadLength, Some(PayloadOf(frame)[..frame.payloadLength]), checksum, frame.signed, flags,
                     frame.compatibilityFlags, if frame.signed then frame.signature else None, Some(outcome))
  {
    ModUnique(frame.messageId, TWO24, 0, frame.messageId);
  }

  /**
   * A packed unsigned v2 frame of a message the dialect knows, with an id
   * of three bytes and at least the message's minimum payload, is accepted
   * by the v2 handler as UNSIGNED, whatever the signing key provider.
   */
  lemma PackedUnsignedV2Validates(dialect: map<int, CompiledMessage>, provider: SigningKeyProvider, sha256: seq<uint8> -> seq<uint8>,
                                  frame: Frame, remaining: int)
    requires frame.version == Some(V2) && !frame.signed && 0 <= frame.payloadLength <= MAX_PAYLOAD_LENGTH
    requires PackedV2(dialect, frame, remaining).frame.Ok? && 0 <= frame.messageId < TWO24
    requires frame.payloadLength >= dialect[frame.messageId].minimumPayloadSizeBytes
    ensures var p := PackedV2(dialect, frame, remaining);
            V2Candidate(p.written)
            && DecodedV2(dialect, provider, sha256, p.written) == Some(OnTheWire(p.frame.value).(validated := Some(UNSIGNED)))
  {
    var p := PackedV2(dialect, frame, remaining);
    PackedV2Written(dialect, frame, remaining);
    V2BytesDecode(dialect, provider, sha256, frame, p.frame.value.checksum);
  }

  /**
   * Signing round trip: a signed v2 frame whose block was computed over the
   * packed header, payload and checksum with the key the provider holds for
   * the frame's (system, component, link) is accepted as OK.
   */
  lemma SignedWithRegisteredKeyValidates(dialect: map<int, CompiledMessage>, provider: SigningKeyProvider,
                                         sha256: seq<uint8> -> seq<uint8>, frame: Frame, remaining: int,
                                         linkId: int, timestamp: int, key: seq<uint8>)
    requires frame.version == Some(V2) && frame.signed && 0 <= frame.payloadLength <= MAX_PAYLOAD_LENGTH
    requires PackedV2(dialect, frame, remaining).frame.Ok? && 0 <= frame.messageId < TWO24
    requires frame.payloadLength >= dialect[frame.messageId].minimumPayloadSizeBytes
    requires 0 <= linkId < 256 && 0 <= timestamp < TWO48 && |key| > 0
    requires GetSigningKey(provider, LowByte(frame.systemId), LowByte(frame.componentId), linkId) == Some(key)
    requires frame.signature == Some(SignatureBlock(PackedV2(dialect, frame, remaining).written[..V2_HEADER_LENGTH + frame.payloadLength + CRC_LENGTH],
                                                    linkId, timestamp, key, sha256))
    ensures var p := PackedV2(dialect, frame, remaining);
            V2Candidate(p.written)
            && DecodedV2(dialect, provider, sha256, p.written) == Some(OnTheWire(p.frame.value).(validated := Some(OK)))
  {
    var p := PackedV2(dialect, frame, remaining);
    PackedV2Written(dialect, frame, remaining);
    V2BytesDecode(dialect, provider, sha256, frame, p.frame.value.checksum);
    BlockOfRegisteredKeyValid(provider, sha256, p.written, V2_HEADER_LENGTH + frame.payloadLength, LowByte(frame.systemId),
                              LowByte(frame.componentId), linkId, timestamp, key);
  }

  /** A block computed over the signed span with the key registered for its link and a 48-bit timestamp is valid. */
  lemma BlockOfRegisteredKeyValid(provider: SigningKeyProvider, sha256: seq<uint8> -> seq<uint8>, w: seq<uint8>, crcStartIndex: nat,
                                  systemId: int, componentId: int, linkId: int, timestamp: int, key: seq<uint8>)
    requires crcStartIndex + CRC_LENGTH <= |w|
    requires 0 <= linkId < 256 && 0 <= timestamp < TWO48 && |key| > 0
    requires GetSigningKey(provider, systemId, componentId, linkId) == Some(key)
    ensures SignatureValid(provider, sha256, w, crcStartIndex, systemId, componentId,
                           SignatureBlock(w[..crcStartIndex + CRC_LENGTH], linkId, timestamp, key, sha256))
  {
    var packet := w[..crcStartIndex + CRC_LENGTH];
    var block := SignatureBlock(packet, linkId, timestamp, key, sha256);
    TimestampRoundTrip(packet, linkId, timestamp, key, sha256);
    assert block[0] == linkId;
    assert ReadUnsigned48(block, 1) == timestamp;
  }

  /**
   * A signed v2 frame whose block names a link for which a validating
   * provider holds no key is refused with SIGNATURE_FAILED.
   */
  lemma SignatureWithoutKeyRefused(dialect: map<int, CompiledMessage>, provider: SigningKeyProvider,
                                   sha256: seq<uint8> -> seq<uint8>, frame: Frame, remaining: int)
    requires frame.version == Some(V2) && frame.signed && 0 <= frame.payloadLength <= MAX_PAYLOAD_LENGTH
    requires PackedV2(dialect, frame, remaining).frame.Ok? && 0 <= frame.messageId < TWO24
    requires frame.payloadLength >= dialect[frame.messageId].minimumPayloadSizeBytes
    requires provider.canValidate
    requires GetSigningKey(provider, LowByte(frame.systemId), LowByte(frame.componentId), frame.signature.value[0]).None?
    ensures var p := PackedV2(dialect, frame, remaining);
            V2Candidate(p.written)
            && DecodedV2(dialect, provider, sha256, p.written) == Some(OnTheWire(p.frame.value).(validated := Some(SIGNATURE_FAILED)))
  {
    var p := PackedV2(dialect, frame, remaining);
    PackedV2Written(dialect, frame, remaining);
    V2BytesDecode(dialect, provider, sha256, frame, p.frame.value.checksum);
  }

  /** Where each field lies in a v1 body followed by a checksum. */
  lemma V1Layout(frame: Frame, checksum: int)
    requires 0 <= frame.payloadLength <= MAX_PAYLOAD_LENGTH && frame.payloadLength <= |PayloadOf(frame)|
    requires 0 <= checksum < 0x1_0000
    ensures var body := V1Body(frame, PayloadOf(frame));
            var w := body + ChecksumBytes(checksum);
            var n := frame.payloadLength;
            && V1Candidate(w) && w[0] == V1_STX && w[1] == n
            && w[2] == LowByte(frame.sequence) && w[3] == LowByte(frame.systemId) && w[4] == LowByte(frame.componentId)
            && w[5] == LowByte(frame.messageId)
            && w[V1_HEADER_LENGTH..V1_HEADER_LENGTH + n] == PayloadOf(frame)[..n]
            && ReadUnsignedShort(w, V1_HEADER_LENGTH + n) == checksum
            && w[1..V1_HEADER_LENGTH + n] == body[1..]
  {
    var body := V1Body(frame, PayloadOf(frame));
    var n := frame.payloadLength;
    var w := body + ChecksumBytes(checksum);
    assert w[V1_HEADER_LENGTH + n..V1_HEADER_LENGTH + n + 2] == ChecksumBytes(checksum);
  }

  /** The v1 handler accepts a candidate of a known message with enough payload, and says OK exactly when the checksum matches. */
  lemma DecodedV1Accepted(dialect: map<int, CompiledMessage>, w: seq<uint8>)
    requires V1Candidate(w) && w[0] == V1_STX && w[5] in dialect && w[1] >= dialect[w[5]].payloadSizeBytes
    ensures DecodedV1(dialect, w).Some?
    ensures DecodedV1(dialect, w).value.validated == Some(OK)
            <==> ReadUnsignedShort(w, V1_HEADER_LENGTH + w[1]) == FrameChecksum(w[1..V1_HEADER_LENGTH + w[1]], CrcExtra(dialect, V1, w[5]).value) as int
  {
  }

  /** What the v1 packer as written puts out when it succeeds: the body and the checksum that takes in the following byte. */
  lemma AsWrittenV1Written(dialect: map<int, CompiledMessage>, frame: Frame, remaining: int, following: uint8)
    requires 0 <= frame.payloadLength <= MAX_PAYLOAD_LENGTH && PackedV1AsWritten(dialect, frame, remaining, following).frame.Ok?
    ensures var body := V1Body(frame, PayloadOf(frame));
            && frame.payloadLength <= |PayloadOf(frame)|
            && CrcExtra(dialect, V1, frame.messageId).Ok?
            && PackedV1AsWritten(dialect, frame, remaining, following).written
               == body + ChecksumBytes(FrameChecksum(body[1..] + [following], CrcExtra(dialect, V1, frame.messageId).value) as int)
  {
  }

  /**
   * The v1 packer as written: for two different values of the stale byte
   * after the payload, at most one of the frames it packs passes the v1
   * handler's checksum, so whether a frame it packs is accepted depends on
   * leftover buffer contents.
   */
  lemma AsWrittenV1DependsOnStaleByte(dialect: map<int, CompiledMessage>, frame: Frame, remaining: int, x: uint8, y: uint8)
    requires frame.version == Some(V1) && 0 <= frame.payloadLength <= MAX_PAYLOAD_LENGTH
    requires PackedV1(dialect, frame, remaining).frame.Ok? && 0 <= frame.messageId < 256
    requires frame.payloadLength >= dialect[frame.messageId].payloadSizeBytes
    requires x != y
    ensures var wx := PackedV1AsWritten(dialect, frame, remaining, x).written;
            var wy := PackedV1AsWritten(dialect, frame, remaining, y).written;
            V1Candidate(wx) && V1Candidate(wy) && DecodedV1(dialect, wx).Some? && DecodedV1(dialect, wy).Some?
            && !(DecodedV1(dialect, wx).value.validated == Some(OK) && DecodedV1(dialect, wy).value.validated == Some(OK))
  {
    var body := V1Body(frame, PayloadOf(frame));
    AsWrittenV1Layout(dialect, frame, remaining, x);
    AsWrittenV1Layout(dialect, frame, remaining, y);
    var wx := PackedV1AsWritten(dialect, frame, remaining, x).written;
    var wy := PackedV1AsWritten(dialect, frame, remaining, y).written;
    DecodedV1Accepted(dialect, wx);
    DecodedV1Accepted(dialect, wy);
    AtMostOneV1Accepted(dialect, wx, wy, body[1..], x, y);
  }

  /** Where each field lies in what the v1 packer as written puts out, for a given stale byte after the payload. */
  lemma AsWrittenV1Layout(dialect: map<int, CompiledMessage>, frame: Frame, remaining: int, following: uint8)
    requires 0 <= frame.payloadLength <= MAX_PAYLOAD_LENGTH
    requires PackedV1(dialect, frame, remaining).frame.Ok? && 0 <= frame.messageId < 256
    ensures var w := PackedV1AsWritten(dialect, frame, remaining, following).written;
            var n := frame.payloadLength;
            && frame.payloadLength <= |PayloadOf(frame)| && CrcExtra(dialect, V1, frame.messageId).Ok?
            && V1Candidate(w) && w[0] == V1_STX && w[1] == n && w[5] == frame.messageId
            && w[1..V1_HEADER_LENGTH + n] == V1Body(frame, PayloadOf(frame))[1..]
            && ReadUnsignedShort(w, V1_HEADER_LENGTH + n)
               == FrameChecksum(V1Body(frame, PayloadOf(frame))[1..] + [following], CrcExtra(dialect, V1, frame.messageId).value) as int
  {
    var body := V1Body(frame, PayloadOf(frame));
    AsWrittenV1Written(dialect, frame, remaining, following);
    var c := FrameChecksum(body[1..] + [following], CrcExtra(dialect, V1, frame.messageId).value);
    IntOfChecksumRoundTrip(c);
    V1Layout(frame, c as int);
    LowByteOfByteValue(frame.messageId);
  }

  /** Two v1 candidates over the same span whose checksums take in different extra bytes are not both accepted. */
  lemma AtMostOneV1Accepted(dialect: map<int, CompiledMessage>, wx: seq<uint8>, wy: seq<uint8>, span: seq<uint8>, x: uint8, y: uint8)
    requires V1Candidate(wx) && V1Candidate(wy) && wx[0] == V1_STX && wy[0] == V1_STX
    requires wx[1] == wy[1] && wx[5] == wy[5] && wx[5] in dialect && wx[1] >= dialect[wx[5]].payloadSizeBytes
    requires wx[1..V1_HEADER_LENGTH + wx[1]] == span && wy[1..V1_HEADER_LENGTH + wy[1]] == span
    requires ReadUnsignedShort(wx, V1_HEADER_LENGTH + wx[1]) == FrameChecksum(span + [x], CrcExtra(dialect, V1, wx[5]).value) as int
    requires ReadUnsignedShort(wy, V1_HEADER_LENGTH + wy[1]) == FrameChecksum(span + [y], CrcExtra(dialect, V1, wy[5]).value) as int
    requires x != y
    ensures !(DecodedV1(dialect, wx).value.validated == Some(OK) && DecodedV1(dialect, wy).value.validated == Some(OK))
  {
    var crcExtra := CrcExtra(dialect, V1, wx[5]).value;
    DecodedV1Accepted(dialect, wx);
    DecodedV1Accepted(dialect, wy);
    ChecksumDetectsCorruptedByte(span, x, y, [], crcExtra);
    assert span + [x] + [] == span + [x] && span + [y] + [] == span + [y];
  }
}
