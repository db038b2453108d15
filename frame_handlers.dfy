// Decoding one candidate frame. The framer hands a handler a view whose
// position is the start byte and whose limit is the end of the frame the
// header announces; the handler checks the start byte and the payload
// length against the dialect, recomputes the checksum and (for v2) the
// signature, and builds a frame saying how validation went.

module FrameHandlers {
  import opened Bytes
  import opened Buffers
  import opened CrcHelper
  import opened Registry
  import opened FrameCodec
  import opened Frames
  import opened Signing
  import opened SignatureGenerator

  /** `computeTotalFrameLength` of v1: header, payload, checksum. */
  function V1TotalFrameLength(payloadLength: int): int
  {
    V1_HEADER_LENGTH + payloadLength + CRC_LENGTH
  }

  /** `computeTotalFrameLength` of v2: a signature block follows when bit 0 of the incompatibility flags is set. */
  function V2TotalFrameLength(incompatibilityFlags: uint8, payloadLength: int): int
  {
    V2_HEADER_LENGTH + payloadLength + CRC_LENGTH + if SignedFlag(incompatibilityFlags) then SIGNATURE_LENGTH else 0
  }

  /** `minimumBytesRequiredForHeader`: how many bytes the framer needs before it can read the length. */
  const V1_MINIMUM_HEADER_BYTES: int := V1_HEADER_LENGTH
  const V2_MINIMUM_HEADER_BYTES: int := 1 + V2_HEADER_LENGTH

  /** A v1 candidate as the framer cuts it: the header's length byte fixes the candidate's size. */
  predicate V1Candidate(c: seq<uint8>)
  {
    |c| >= V1_MINIMUM_HEADER_BYTES && |c| == V1TotalFrameLength(c[1])
  }

  predicate V2Candidate(c: seq<uint8>)
  {
    |c| >= V2_MINIMUM_HEADER_BYTES && |c| == V2TotalFrameLength(c[2], c[1])
  }

  /** `readUnsignedLittleEndianShort`: the two bytes at `at`, low byte first. */
  function ReadUnsignedShort(c: seq<uint8>, at: nat): (r: int)
    requires at + 2 <= |c|
    ensures 0 <= r < 0x1_0000
    ensures r == c[at] as int + 256 * c[at + 1] as int
  {
    var s := c[at..at + 2];
    assert s[1..][1..] == [];
    assert FromLittleEndian(s[1..]) == s[1] as int + 256 * FromLittleEndian(s[1..][1..]);
    FromLittleEndian(s)
  }

  /**
   * The v1 decoding of a candidate: nothing for a wrong start byte or a
   * payload shorter than the message's v1 minimum (which refuses unknown
   * ids); otherwise the header fields, the payload (even when the checksum
   * is wrong) and OK or CRC_FAILED.
   */
  function DecodedV1(dialect: map<int, CompiledMessage>, c: seq<uint8>): (r: Option<Frame>)
    requires |c| >= 1 && (c[0] == V1_STX ==> V1Candidate(c))
    ensures r.Some? <==> c[0] == V1_STX && c[5] in dialect && c[1] >= dialect[c[5]].payloadSizeBytes
    ensures r.Some? ==> r.value.validated == Some(OK) || r.value.validated == Some(CRC_FAILED)
  {
    if c[0] != V1_STX then None
    else
      var payloadLength := c[1];
      var messageId := c[5];
      if payloadLength < MinimumPayloadLength(dialect, V1, messageId) then None
      else
        var crcStartIndex := V1_HEADER_LENGTH + payloadLength;
        var receivedChecksum := ReadUnsignedShort(c, crcStartIndex);
        var crcExtra := CrcExtra(dialect, V1, messageId).value;
        var computedChecksum := FrameChecksum(c[1..crcStartIndex], crcExtra) as int;
        Some(Frame(Some(V1), c[2], c[3], c[4], messageId, payloadLength, Some(c[V1_HEADER_LENGTH..crcStartIndex]),
                   receivedChecksum, false, 0, 0, None,
                   Some(if computedChecksum != receivedChecksum then CRC_FAILED else OK)))
  }

  /** `readUnsigned48BitLittleEndian`: six bytes at `at`, lowest first (the OR of disjoint byte lanes is their sum). */
  function ReadUnsigned48(block: seq<uint8>, at: nat): (r: int)
    requires at + 6 <= |block|
    ensures 0 <= r < TWO48
  {
    assert Pow256(6) == TWO48;
    FromLittleEndian(block[at..at + 6])
  }

  /**
   * `validateSignature` for a candidate whose checksum starts at
   * `crcStartIndex`: the block must be 13 bytes, a non-empty key must be
   * registered for (system, component, the block's link id), and the block
   * recomputed from the signed span with the block's own timestamp must
   * equal the received one.
   */
  predicate SignatureValid(provider: SigningKeyProvider, sha256: seq<uint8> -> seq<uint8>, c: seq<uint8>, crcStartIndex: nat,
                           systemId: int, componentId: int, block: seq<uint8>)
    requires crcStartIndex + CRC_LENGTH <= |c|
  {
    |block| == SIGNATURE_LENGTH
    && var key := GetSigningKey(provider, systemId, componentId, block[0]);
       key.Some? && |key.value| > 0
       && SignatureBlock(c[..crcStartIndex + CRC_LENGTH], block[0], ReadUnsigned48(block, 1), key.value, sha256) == block
  }

  /** The v2 message id: three bytes at offset 7, lowest first. */
  function V2MessageId(c: seq<uint8>): int
    requires |c| >= 10
  {
    FromLittleEndian(c[7..10])
  }

  /**
   * The v2 decoding of a candidate: nothing for a wrong start byte or a
   * payload shorter than the message's v2 minimum. A wrong checksum gives
   * CRC_FAILED with an empty payload and no signature; a right one gives
   * the payload and then UNSIGNED for an unsigned frame, or, for a signed
   * one, the signature block and SIGNATURE_FAILED exactly when the provider
   * validates and the signature is not valid (OK otherwise).
   */
  function DecodedV2(dialect: map<int, CompiledMessage>, provider: SigningKeyProvider, sha256: seq<uint8> -> seq<uint8>,
                     c: seq<uint8>): (r: Option<Frame>)
    requires |c| >= 1 && (c[0] == V2_STX ==> V2Candidate(c))
    ensures r.Some? <==> c[0] == V2_STX && V2MessageId(c) in dialect && c[1] >= dialect[V2MessageId(c)].minimumPayloadSizeBytes
    ensures r.Some? && r.value.validated == Some(CRC_FAILED) ==> r.value.payload == Some([]) && r.value.signature.None?
    ensures r.Some? ==> (r.value.validated == Some(UNSIGNED) <==> r.value.validated != Some(CRC_FAILED) && !r.value.signed)
  {
    if c[0] != V2_STX then None
    else
      var payloadLength := c[1];
      var incompatibilityFlags := c[2];
      var compatibilityFlags := c[3];
      var messageId := V2MessageId(c);
      if payloadLength < MinimumPayloadLength(dialect, V2, messageId) then None
      else
        var signed := SignedFlag(incompatibilityFlags);
        var crcStartIndex := V2_HEADER_LENGTH + payloadLength;
        var receivedChecksum := ReadUnsignedShort(c, crcStartIndex);
        var crcExtra := CrcExtra(dialect, V2, messageId).value;
        var checksum := FrameChecksum(c[1..crcStartIndex], crcExtra) as int;
        var header := Frame(Some(V2), c[4], c[5], c[6], messageId, payloadLength, Some([]), receivedChecksum, signed,
                            incompatibilityFlags, compatibilityFlags, None, Some(CRC_FAILED));
        if checksum != receivedChecksum then Some(header)
        else Some(CheckedV2(provider, sha256, c, header))
  }

  /**
   * The frame a v2 candidate gives once its checksum matched: `header` with
   * the payload and, for a signed candidate, the signature block and
   * SIGNATURE_FAILED exactly when the provider validates and the signature
   * is not valid (OK otherwise); UNSIGNED for an unsigned one.
   */
  function CheckedV2(provider: SigningKeyProvider, sha256: seq<uint8> -> seq<uint8>, c: seq<uint8>, header: Frame): Frame
    requires V2Candidate(c)
  {
    var crcStartIndex := V2_HEADER_LENGTH + c[1];
    var payload := c[V2_HEADER_LENGTH..crcStartIndex];
    if SignedFlag(c[2]) then
      var signatureStartIndex := crcStartIndex + CRC_LENGTH;
      var signature := c[signatureStartIndex..signatureStartIndex + SIGNATURE_LENGTH];
      header.(payload := Some(payload), signature := Some(signature), validated := Some(SignedVerdict(provider, sha256, c)))
    else
      header.(payload := Some(payload), validated := Some(UNSIGNED))
  }

  /** A signed frame fails when the provider can validate and the signature block is not valid; it is OK otherwise. */
  function SignedVerdict(provider: SigningKeyProvider, sha256: seq<uint8> -> seq<uint8>, c: seq<uint8>): FrameFailureReason
    requires V2Candidate(c) && SignedFlag(c[2])
  {
    var crcStartIndex := V2_HEADER_LENGTH + c[1];
    var signatureStartIndex := crcStartIndex + CRC_LENGTH;
    var signature := c[signatureStartIndex..signatureStartIndex + SIGNATURE_LENGTH];
    if provider.canValidate && !SignatureValid(provider, sha256, c, crcStartIndex, c[5], c[6], signature) then SIGNATURE_FAILED
    else OK
  }

  /** The candidate a view holds: the bytes from its position to its limit. */
  function CandidateBytes(candidateFrame: ByteBuffer): (r: seq<uint8>)
    reads candidateFrame, candidateFrame.data
    requires candidateFrame.Valid()
    ensures |r| == candidateFrame.limit - candidateFrame.position
  {
    candidateFrame.data[candidateFrame.position..candidateFrame.limit]
  }

  /** The checksum over a candidate's bytes after the start byte up to `crcStartIndex`, read from the view's backing buffer. */
  method CandidateChecksum(candidateFrame: ByteBuffer, crcStartIndex: nat, crcExtra: uint8) returns (checksum: int)
    requires candidateFrame.Valid() && 1 < crcStartIndex <= candidateFrame.limit - candidateFrame.position
    ensures checksum == FrameChecksum(CandidateBytes(candidateFrame)[1..crcStartIndex], crcExtra) as int
  {
    var frameStartIndex := candidateFrame.position;
    checksum := ComputeChecksumFromWritten(candidateFrame, frameStartIndex + 1, crcStartIndex - 1, crcExtra);
    SliceOfSlice(candidateFrame.data[..], frameStartIndex, candidateFrame.limit, 1, crcStartIndex);
  }

  class V1FrameHandler {
    const dialectRegistry: map<int, CompiledMessage>

    constructor(dialectRegistry: map<int, CompiledMessage>)
      ensures this.dialectRegistry == dialectRegistry
    {
      this.dialectRegistry := dialectRegistry;
    }

    /** `tryDecode`: absolute reads from the view's position on; the view is not changed. */
    method TryDecode(candidateFrame: ByteBuffer) returns (r: Option<Frame>)
      requires candidateFrame.Valid() && candidateFrame.position < candidateFrame.limit
      requires var c := CandidateBytes(candidateFrame); c[0] == V1_STX ==> V1Candidate(c)
      ensures r == DecodedV1(dialectRegistry, CandidateBytes(candidateFrame))
    {
      var frameStartIndex := candidateFrame.position;
      var frame := candidateFrame.data[frameStartIndex..candidateFrame.limit];
      if frame[0] != V1_STX {
        return None;
      }
      var payloadLength: int := frame[1];
      var messageId := frame[5];
      var minimumPayloadLength := MinimumPayloadLength(dialectRegistry, V1, messageId);
      if payloadLength < minimumPayloadLength {
        return None;
      }
      var crcStartIndex := V1_HEADER_LENGTH + payloadLength;
      var receivedChecksum := ReadUnsignedShort(frame, crcStartIndex);
      var crcExtra := CrcExtra(dialectRegistry, V1, messageId).value;
      var computedChecksum := CandidateChecksum(candidateFrame, crcStartIndex, crcExtra);
      var v := OK;
      if computedChecksum != receivedChecksum {
        v := CRC_FAILED;
      }
      r := Some(Frame(Some(V1), frame[2], frame[3], frame[4], messageId, payloadLength, Some(frame[V1_HEADER_LENGTH..crcStartIndex]),
                      receivedChecksum, false, 0, 0, None, Some(v)));
    }
  }

  class V2FrameHandler {
    const dialectRegistry: map<int, CompiledMessage>
    const sha256: seq<uint8> -> seq<uint8>

    constructor(dialectRegistry: map<int, CompiledMessage>, sha256: seq<uint8> -> seq<uint8>)
      ensures this.dialectRegistry == dialectRegistry && this.sha256 == sha256
    {
      this.dialectRegistry := dialectRegistry;
      this.sha256 := sha256;
    }

    /**
     * `tryDecode`, with the signing key provider's current state; the view
     * is not changed.
     */
    method TryDecode(candidateFrame: ByteBuffer, signingKeyProvider: SigningKeyProvider) returns (r: Option<Frame>)
      requires candidateFrame.Valid() && candidateFrame.position < candidateFrame.limit
      requires var c := CandidateBytes(candidateFrame); c[0] == V2_STX ==> V2Candidate(c)
      ensures r == DecodedV2(dialectRegistry, signingKeyProvider, sha256, CandidateBytes(candidateFrame))
    {
      var frameStartIndex := candidateFrame.position;
      var frame := candidateFrame.data[frameStartIndex..candidateFrame.limit];
      if frame[0] != V2_STX {
        return None;
      }
      var payloadLength: int := frame[1];
      var incompatibilityFlags := frame[2];
      var messageId := V2MessageId(frame);
      var minimumPayloadLength := MinimumPayloadLength(dialectRegistry, V2, messageId);
      if payloadLength < minimumPayloadLength {
        return None;
      }
      var signed := incompatibilityFlags % 2 == INCOMPAT_FLAG_SIGNED;
      var crcStartIndex := V2_HEADER_LENGTH + payloadLength;
      var receivedChecksum := ReadUnsignedShort(frame, crcStartIndex);
      var crcExtra := CrcExtra(dialectRegistry, V2, messageId).value;
      var checksum := CandidateChecksum(candidateFrame, crcStartIndex, crcExtra);
      var header := Frame(Some(V2), frame[4], frame[5], frame[6], messageId, payloadLength, Some([]),
                          receivedChecksum, signed, incompatibilityFlags, frame[3], None, Some(CRC_FAILED));
      if checksum != receivedChecksum {
        return Some(header);
      }
      var accepted := AcceptChecked(candidateFrame, header, signingKeyProvider);
      r := Some(accepted);
    }

    /** The rest of `tryDecode` once the checksum matched: the payload, and for a signed frame the signature check. */
    method AcceptChecked(candidateFrame: ByteBuffer, header: Frame, signingKeyProvider: SigningKeyProvider) returns (f: Frame)
      requires candidateFrame.Valid() && candidateFrame.position < candidateFrame.limit
      requires V2Candidate(CandidateBytes(candidateFrame))
      ensures f == CheckedV2(signingKeyProvider, sha256, CandidateBytes(candidateFrame), header)
    {
      var frameStartIndex := candidateFrame.position;
      var frame := candidateFrame.data[frameStartIndex..candidateFrame.limit];
      var crcStartIndex := V2_HEADER_LENGTH + frame[1];
      var payload := frame[V2_HEADER_LENGTH..crcStartIndex];
      if frame[2] % 2 == INCOMPAT_FLAG_SIGNED {
        var signatureStartIndex := crcStartIndex + CRC_LENGTH;
        var block := frame[signatureStartIndex..signatureStartIndex + SIGNATURE_LENGTH];
        var validated := CheckSignature(candidateFrame, signingKeyProvider);
        f := header.(payload := Some(payload), signature := Some(block), validated := Some(validated));
      } else {
        f := header.(payload := Some(payload), validated := Some(UNSIGNED));
      }
    }

    /** The signed branch: OK unless the provider can validate and `validateSignature` rejects the block. */
    method CheckSignature(candidateFrame: ByteBuffer, signingKeyProvider: SigningKeyProvider) returns (validated: FrameFailureReason)
      requires candidateFrame.Valid() && candidateFrame.position < candidateFrame.limit
      requires var c := CandidateBytes(candidateFrame); V2Candidate(c) && SignedFlag(c[2])
      ensures validated == SignedVerdict(signingKeyProvider, sha256, CandidateBytes(candidateFrame))
    {
      var frameStartIndex := candidateFrame.position;
      var frame := CandidateBytes(candidateFrame);
      var crcStartIndex := V2_HEADER_LENGTH + frame[1];
      var signatureStartIndex := crcStartIndex + CRC_LENGTH;
      var block := frame[signatureStartIndex..signatureStartIndex + SIGNATURE_LENGTH];
      assert SignedVerdict(signingKeyProvider, sha256, frame)
          == if signingKeyProvider.canValidate && !SignatureValid(signingKeyProvider, sha256, frame, crcStartIndex, frame[5], frame[6], block)
             then SIGNATURE_FAILED else OK;
      validated := OK;
      if signingKeyProvider.canValidate {
        var valid := ValidateSignature(candidateFrame, frameStartIndex, frameStartIndex + crcStartIndex, frame[5], frame[6],
                                       block, signingKeyProvider);
        assert valid == SignatureValid(signingKeyProvider, sha256, frame, crcStartIndex, frame[5], frame[6], block);
        if !valid {
          validated := SIGNATURE_FAILED;
        }
      }
    }

    /** `validateSignature`, reading the signed span from the view's backing buffer. */
    method ValidateSignature(candidateFrame: ByteBuffer, frameStartIndex: nat, crcStartIndex: nat, systemId: int, componentId: int,
                             receivedSignatureBlock: seq<uint8>, signingKeyProvider: SigningKeyProvider) returns (valid: bool)
      requires candidateFrame.Valid() && frameStartIndex <= crcStartIndex && crcStartIndex + CRC_LENGTH <= candidateFrame.limit
      ensures valid == SignatureValid(signingKeyProvider, sha256, candidateFrame.data[frameStartIndex..candidateFrame.limit],
                                      crcStartIndex - frameStartIndex, systemId, componentId, receivedSignatureBlock)
    {
      if |receivedSignatureBlock| != SIGNATURE_LENGTH {
        return false;
      }
      var linkId := receivedSignatureBlock[0];
      var timestamp := ReadUnsigned48(receivedSignatureBlock, 1);
      var signingKey := GetSigningKey(signingKeyProvider, systemId, componentId, linkId);
      if signingKey.None? || |signingKey.value| == 0 {
        return false;
      }
      var expected := BuildSignature(candidateFrame, frameStartIndex, crcStartIndex, linkId, timestamp, signingKey, sha256);
      assert candidateFrame.data[..][frameStartIndex..crcStartIndex + CRC_LENGTH]
          == candidateFrame.data[frameStartIndex..candidateFrame.limit][..crcStartIndex - frameStartIndex + CRC_LENGTH];
      valid := expected == Ok(receivedSignatureBlock);
    }
  }
}
