// The frame checksum MAVLink appends to every frame: the CRC over the
// header and payload bytes already written into a buffer, followed by the
// message's CRC-extra byte.

module CrcHelper {
  import opened Bytes
  import opened Crc
  import opened Buffers

  /** The checksum of a frame whose covered bytes are `span`. */
  function FrameChecksum(span: seq<uint8>, crcExtra: int): bv16
  {
    UpdateByte(Checksum(span), crcExtra)
  }

  /**
   * `computeChecksumFromWritten`: feeds the `length` bytes at absolute
   * indices index .. index+length-1 of `out` into a fresh CRC engine, then
   * the CRC-extra byte. Reads only; the buffer is left as it was.
   */
  method ComputeChecksumFromWritten(out: ByteBuffer, index: int, length: int, crcExtra: int) returns (r: int)
    requires out.Valid()
    requires length > 0 ==> 0 <= index && index + length <= out.limit
    ensures 0 <= r <= 0xFFFF
    ensures length > 0 ==> r == FrameChecksum(out.data[index..index + length], crcExtra) as int
    ensures length <= 0 ==> r == FrameChecksum([], crcExtra) as int
  {
    var crc := new X25Crc();
    var endIndex := index + length;
    var currentIndex := index;
    while currentIndex < endIndex
      invariant length > 0 ==> index <= currentIndex <= endIndex
      invariant length <= 0 ==> currentIndex == index
      invariant length > 0 ==> crc.current == Checksum(out.data[index..currentIndex])
      invariant length <= 0 ==> crc.current == INITIAL_CRC
    {
      crc.Update(out.data[currentIndex]);
      AccumulateSnoc(INITIAL_CRC, out.data[index..currentIndex], out.data[currentIndex]);
      assert out.data[index..currentIndex + 1] == out.data[index..currentIndex] + [out.data[currentIndex]];
      currentIndex := currentIndex + 1;
    }
    crc.Update(crcExtra);
    r := crc.GetCrc();
  }

  /** Corrupting any single covered byte changes the frame checksum. */
  lemma ChecksumDetectsCorruptedByte(p: seq<uint8>, x: uint8, y: uint8, q: seq<uint8>, crcExtra: uint8)
    requires x != y
    ensures FrameChecksum(p + [x] + q, crcExtra) != FrameChecksum(p + [y] + q, crcExtra)
    ensures FrameChecksum(p + [x] + q, crcExtra) as int != FrameChecksum(p + [y] + q, crcExtra) as int
  {
    SingleByteErrorDetected(INITIAL_CRC, p, x, y, q);
    var cx, cy := FrameChecksum(p + [x] + q, crcExtra), FrameChecksum(p + [y] + q, crcExtra);
    if cx == cy {
      UpdateByteInjectiveInState(Checksum(p + [x] + q), Checksum(p + [y] + q), crcExtra);
    }
    IntOfChecksumRoundTrip(cx);
    IntOfChecksumRoundTrip(cy);
  }

  /** A checksum read back from its integer value is the same checksum. */
  lemma IntOfChecksumRoundTrip(c: bv16)
    ensures 0 <= c as int < 0x1_0000 && (c as int) as bv16 == c
  {
  }

  /** Frames of different messages (different CRC-extra bytes) over the same bytes never share a checksum. */
  lemma ChecksumSeparatesCrcExtra(span: seq<uint8>, e1: uint8, e2: uint8)
    requires e1 != e2
    ensures FrameChecksum(span, e1) != FrameChecksum(span, e2)
  {
    if FrameChecksum(span, e1) == FrameChecksum(span, e2) {
      UpdateByteInjectiveInByte(Checksum(span), e1, e2);
    }
  }
}
