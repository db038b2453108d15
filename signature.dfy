// The MAVLink v2 signature block: the link id, a 48-bit timestamp and the
// first six bytes of SHA-256 over the signed packet followed by the secret
// key. SHA-256 itself is a parameter: the block depends on the digest only
// through its first six bytes.

module SignatureGenerator {
  import opened Bytes
  import opened Buffers
  import opened Frames

  const TWO48: int := 0x1_0000_0000_0000

  /** `Arrays.copyOf(digest, n)`: the first `n` bytes, zero-padded when the digest is shorter. */
  function CopyOf(digest: seq<uint8>, n: nat): (r: seq<uint8>)
    ensures |r| == n
    ensures forall i :: 0 <= i < n ==> r[i] == if i < |digest| then digest[i] else 0
  {
    if |digest| >= n then digest[..n] else digest + Zeros(n - |digest|)
  }

  /**
   * The block for a packet: the link id's low byte, the timestamp masked to
   * 48 bits written little-endian, then six digest bytes. Reading the
   * timestamp back yields the masked value.
   */
  function SignatureBlock(packet: seq<uint8>, linkId: int, timestamp: int, key: seq<uint8>,
                          sha256: seq<uint8> -> seq<uint8>): (r: seq<uint8>)
    ensures |r| == SIGNATURE_LENGTH
    ensures r[0] == LowByte(linkId)
    ensures FromLittleEndian(r[1..7]) == timestamp % TWO48
    ensures r[7..] == CopyOf(sha256(packet + key), 6)
  {
    assert Pow256(6) == TWO48;
    LittleEndianRoundTrip(timestamp % TWO48, 6);
    var r := [LowByte(linkId)] + LittleEndian(timestamp % TWO48, 6) + CopyOf(sha256(packet + key), 6);
    assert r[1..7] == LittleEndian(timestamp % TWO48, 6);
    r
  }

  /**
   * `buildSignature` over a buffer's bytes: a missing or empty key, an
   * empty or negative span, or a span [frameStartIndex, crcStartIndex + 2)
   * that does not lie within the buffer's limit is refused; otherwise the
   * block over exactly that span.
   */
  function BuiltSignature(data: seq<uint8>, limit: int, frameStartIndex: int, crcStartIndex: int, linkId: int,
                          timestamp: int, signingKey: Option<seq<uint8>>, sha256: seq<uint8> -> seq<uint8>): (r: Result<seq<uint8>>)
    requires limit <= |data|
    ensures r.Ok? <==> signingKey.Some? && |signingKey.value| > 0
                       && 0 <= frameStartIndex < crcStartIndex + CRC_LENGTH <= limit
    ensures r.Ok? ==> |r.value| == SIGNATURE_LENGTH
  {
    if signingKey.None? || |signingKey.value| == 0 then Err("signingKey must be provided")
    else if crcStartIndex + CRC_LENGTH - frameStartIndex <= 0 then Err("Invalid frameStartIndex or crcStartIndex")
    else if frameStartIndex < 0 || frameStartIndex > limit then Err("IllegalArgumentException")
    else if crcStartIndex + CRC_LENGTH > limit then Err("BufferUnderflowException")
    else Ok(SignatureBlock(data[frameStartIndex..crcStartIndex + CRC_LENGTH], linkId, timestamp, signingKey.value, sha256))
  }

  /** `writeUnsigned48BitLittleEndian`: six bytes of the masked value, lowest first, at `offset`. */
  method WriteUnsigned48(target: array<uint8>, offset: nat, value: int)
    requires offset + 6 <= target.Length
    modifies target
    ensures target[..] == Splice(old(target[..]), offset, LittleEndian(value % TWO48, 6))
  {
    var masked := value % TWO48;
    target[offset] := LowByte(masked);
    target[offset + 1] := LowByte(masked / 0x100);
    target[offset + 2] := LowByte(masked / 0x1_0000);
    target[offset + 3] := LowByte(masked / 0x100_0000);
    target[offset + 4] := LowByte(masked / 0x1_0000_0000);
    target[offset + 5] := LowByte(masked / 0x100_0000_0000);
    var le := LittleEndian(masked, 6);
    forall k | 0 <= k < 6
      ensures le[k] == target[offset + k]
    {
      LittleEndianDigit(masked, 6, k);
      assert Pow256(1) == 0x100 && Pow256(2) == 0x1_0000 && Pow256(3) == 0x100_0000;
      assert Pow256(4) == 0x1_0000_0000 && Pow256(5) == 0x100_0000_0000;
    }
    assert target[..] == Splice(old(target[..]), offset, le);
  }

  /**
   * `buildSignature`: copies the signed span out of the buffer (which is
   * read through a duplicate and left as it was), hashes it with the key,
   * and fills a fresh 13-byte block.
   */
  method BuildSignature(candidateFrame: ByteBuffer, frameStartIndex: int, crcStartIndex: int, linkId: int,
                        timestamp: int, signingKey: Option<seq<uint8>>, sha256: seq<uint8> -> seq<uint8>)
    returns (r: Result<seq<uint8>>)
    requires candidateFrame.Valid()
    ensures r == BuiltSignature(candidateFrame.data[..], candidateFrame.limit, frameStartIndex, crcStartIndex,
                                linkId, timestamp, signingKey, sha256)
  {
    if signingKey.None? || |signingKey.value| == 0 {
      return Err("signingKey must be provided");
    }
    var packetEndExclusive := crcStartIndex + CRC_LENGTH;
    var packetLength := packetEndExclusive - frameStartIndex;
    if packetLength <= 0 {
      return Err("Invalid frameStartIndex or crcStartIndex");
    }
    if frameStartIndex < 0 || frameStartIndex > candidateFrame.limit {
      return Err("IllegalArgumentException");
    }
    if packetLength > candidateFrame.limit - frameStartIndex {
      return Err("BufferUnderflowException");
    }
    var packetBytes := candidateFrame.data[frameStartIndex..frameStartIndex + packetLength];
    var digest := sha256(packetBytes + signingKey.value);
    var signatureBytes := CopyOf(digest, 6);
    var signatureBlock := new uint8[SIGNATURE_LENGTH](i => 0);
    signatureBlock[0] := LowByte(linkId);
    WriteUnsigned48(signatureBlock, 1, timestamp);
    ghost var head := signatureBlock[..7];
    assert head == [LowByte(linkId)] + LittleEndian(timestamp % TWO48, 6);
    forall i | 0 <= i < 6 {
      signatureBlock[7 + i] := signatureBytes[i];
    }
    assert signatureBlock[..7] == head;
    assert signatureBlock[7..] == signatureBytes;
    assert signatureBlock[..] == head + signatureBytes;
    assert signatureBlock[..] == SignatureBlock(packetBytes, linkId, timestamp, signingKey.value, sha256);
    assert packetBytes == candidateFrame.data[..][frameStartIndex..crcStartIndex + CRC_LENGTH];
    r := Ok(signatureBlock[..]);
  }

  /** Reading the timestamp field of a block gives the timestamp masked to 48 bits, whatever the packet and key. */
  lemma TimestampRoundTrip(packet: seq<uint8>, linkId: int, timestamp: int, key: seq<uint8>, sha256: seq<uint8> -> seq<uint8>)
    requires 0 <= timestamp < TWO48
    ensures FromLittleEndian(SignatureBlock(packet, linkId, timestamp, key, sha256)[1..7]) == timestamp
  {
  }

  /** Two blocks for the same link and timestamp differ only if the first six digest bytes of their packets differ. */
  lemma BlocksAgreeOnDigestPrefix(p1: seq<uint8>, p2: seq<uint8>, linkId: int, timestamp: int, key: seq<uint8>,
                                  sha256: seq<uint8> -> seq<uint8>)
    requires CopyOf(sha256(p1 + key), 6) == CopyOf(sha256(p2 + key), 6)
    ensures SignatureBlock(p1, linkId, timestamp, key, sha256) == SignatureBlock(p2, linkId, timestamp, key, sha256)
  {
    var b1 := SignatureBlock(p1, linkId, timestamp, key, sha256);
    var b2 := SignatureBlock(p2, linkId, timestamp, key, sha256);
    assert b1 == b1[..7] + b1[7..] && b2 == b2[..7] + b2[7..];
  }
}
