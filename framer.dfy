// The framer over a network-owned buffer: it scans the unread bytes for a
// start byte, cuts the candidate the header announces, lets the matching
// handler decode it, and returns at most one frame; whatever happens, the
// unconsumed bytes are compacted to the front of the buffer afterwards.

module Framer {
  import opened Bytes
  import opened Buffers
  import opened Registry
  import opened Frames
  import opened Signing
  import opened FrameHandlers

  /** The outcome of one scan: at most one frame, and where the buffer's position is left. */
  datatype Scanned = Scanned(frame: Option<Frame>, position: nat)

  /** What the scan does at one index: move on by one byte, or stop with an outcome. */
  datatype Probe = Advance | Stop(outcome: Scanned)

  predicate IsStartByte(b: uint8)
  {
    b == V1_STX || b == V2_STX
  }

  /**
   * One iteration of the scan loop of `tryDecode` at `scanIndex`: other
   * bytes are skipped; a start byte whose header or frame runs past the
   * limit stops the scan there (the bytes are kept for the next call); a
   * complete candidate that decodes stops it with the position just past
   * the frame, and one that does not is skipped by one byte.
   */
  function ProbeAt(dialect: map<int, CompiledMessage>, provider: SigningKeyProvider, sha256: seq<uint8> -> seq<uint8>,
                   d: seq<uint8>, scanIndex: nat, limit: nat): (r: Probe)
    requires scanIndex < limit <= |d|
    ensures r.Stop? ==> IsStartByte(d[scanIndex])
    ensures r.Stop? && r.outcome.frame.None? ==> r.outcome.position == scanIndex
    ensures r.Stop? && r.outcome.frame.Some? ==> scanIndex < r.outcome.position <= limit
  {
    if !IsStartByte(d[scanIndex]) then Advance
    else
      var minimumHeaderBytes := if d[scanIndex] == V1_STX then V1_MINIMUM_HEADER_BYTES else V2_MINIMUM_HEADER_BYTES;
      if scanIndex + minimumHeaderBytes > limit then Stop(Scanned(None, scanIndex))
      else
        var total := if d[scanIndex] == V1_STX then V1TotalFrameLength(d[scanIndex + 1])
                     else V2TotalFrameLength(d[scanIndex + 2], d[scanIndex + 1]);
        if scanIndex + total > limit then Stop(Scanned(None, scanIndex))
        else
          var decoded := DecodedCandidate(dialect, provider, sha256, d[scanIndex..scanIndex + total]);
          if decoded.Some? then Stop(Scanned(decoded, scanIndex + total)) else Advance
  }

  /** At a start byte with a complete candidate in the buffer, the probe is decided by decoding that candidate. */
  lemma ProbeAtCandidate(dialect: map<int, CompiledMessage>, provider: SigningKeyProvider, sha256: seq<uint8> -> seq<uint8>,
                         d: seq<uint8>, scanIndex: nat, limit: nat, total: nat)
    requires scanIndex < limit <= |d| && IsStartByte(d[scanIndex])
    requires scanIndex + (if d[scanIndex] == V1_STX then V1_MINIMUM_HEADER_BYTES else V2_MINIMUM_HEADER_BYTES) <= limit
    requires total == if d[scanIndex] == V1_STX then V1TotalFrameLength(d[scanIndex + 1])
                      else V2TotalFrameLength(d[scanIndex + 2], d[scanIndex + 1])
    requires scanIndex + total <= limit
    ensures var decoded := DecodedCandidate(dialect, provider, sha256, d[scanIndex..scanIndex + total]);
            ProbeAt(dialect, provider, sha256, d, scanIndex, limit)
            == if decoded.Some? then Stop(Scanned(decoded, scanIndex + total)) else Advance
  {
  }

  /** A complete candidate is decoded by the handler for its start byte. */
  function DecodedCandidate(dialect: map<int, CompiledMessage>, provider: SigningKeyProvider, sha256: seq<uint8> -> seq<uint8>,
                            c: seq<uint8>): Option<Frame>
    requires |c| >= 1 && (c[0] == V1_STX ==> V1Candidate(c)) && (c[0] == V2_STX ==> V2Candidate(c))
  {
    if c[0] == V1_STX then DecodedV1(dialect, c) else DecodedV2(dialect, provider, sha256, c)
  }

  /**
   * The scan of `tryDecode` from `scanIndex`: the first index that stops
   * it decides the outcome; running off the end consumes everything. When
   * nothing is returned, the bytes left unread start with a start byte (or
   * there are none).
   */
  function Scan(dialect: map<int, CompiledMessage>, provider: SigningKeyProvider, sha256: seq<uint8> -> seq<uint8>,
                d: seq<uint8>, scanIndex: nat, limit: nat): (r: Scanned)
    requires limit <= |d|
    ensures scanIndex <= limit ==> scanIndex <= r.position <= limit
    ensures r.frame.None? && r.position < limit ==> IsStartByte(d[r.position])
    ensures r.frame.Some? ==> scanIndex < r.position
    decreases limit - scanIndex
  {
    if scanIndex >= limit then Scanned(None, limit)
    else
      match ProbeAt(dialect, provider, sha256, d, scanIndex, limit)
      case Stop(outcome) => outcome
      case Advance => Scan(dialect, provider, sha256, d, scanIndex + 1, limit)
  }

  /** `tryDecode` before compaction: an empty buffer yields nothing and keeps its position. */
  function Framed(dialect: map<int, CompiledMessage>, provider: SigningKeyProvider, sha256: seq<uint8> -> seq<uint8>,
                  d: seq<uint8>, position: nat, limit: nat): (r: Scanned)
    requires position <= limit <= |d|
    ensures position <= r.position <= limit
  {
    if position >= limit then Scanned(None, position) else Scan(dialect, provider, sha256, d, position, limit)
  }

  class MavlinkFrameFramer {
    const dialectRegistry: map<int, CompiledMessage>
    const sha256: seq<uint8> -> seq<uint8>
    const v1FrameHandler: V1FrameHandler
    const v2FrameHandler: V2FrameHandler

    /** Both handlers decode against the framer's dialect. */
    ghost predicate Valid()
    {
      v1FrameHandler.dialectRegistry == dialectRegistry
      && v2FrameHandler.dialectRegistry == dialectRegistry && v2FrameHandler.sha256 == sha256
    }

    constructor(dialectRegistry: map<int, CompiledMessage>, sha256: seq<uint8> -> seq<uint8>)
      ensures Valid() && this.dialectRegistry == dialectRegistry && this.sha256 == sha256
    {
      this.dialectRegistry := dialectRegistry;
      this.sha256 := sha256;
      v1FrameHandler := new V1FrameHandler(dialectRegistry);
      v2FrameHandler := new V2FrameHandler(dialectRegistry, sha256);
    }

    /**
     * `tryDecode`: the frame the scan finds, if any; the buffer's unread
     * bytes from the scan's final position on are moved to the front, with
     * the position after them and the limit at the capacity.
     */
    method TryDecode(networkOwnedBuffer: ByteBuffer, signingKeyProvider: SigningKeyProvider) returns (r: Option<Frame>)
      requires Valid() && networkOwnedBuffer.Valid()
      modifies networkOwnedBuffer, networkOwnedBuffer.data
      ensures networkOwnedBuffer.Valid()
      ensures var s := Framed(dialectRegistry, signingKeyProvider, sha256, old(networkOwnedBuffer.data[..]),
                              old(networkOwnedBuffer.position), old(networkOwnedBuffer.limit));
              && r == s.frame
              && networkOwnedBuffer.position == old(networkOwnedBuffer.limit) - s.position
              && networkOwnedBuffer.limit == networkOwnedBuffer.data.Length
              && networkOwnedBuffer.data[..] == old(networkOwnedBuffer.data[..])[s.position..old(networkOwnedBuffer.limit)]
                                                + old(networkOwnedBuffer.data[..])[old(networkOwnedBuffer.limit) - s.position..]
    {
      r := Locate(networkOwnedBuffer, signingKeyProvider);
      networkOwnedBuffer.Compact();
    }

    /** The body of `tryDecode` up to its `finally`: the scan, leaving the position where it ends. */
    method Locate(networkOwnedBuffer: ByteBuffer, signingKeyProvider: SigningKeyProvider) returns (r: Option<Frame>)
      requires Valid() && networkOwnedBuffer.Valid()
      modifies networkOwnedBuffer
      ensures networkOwnedBuffer.Valid() && networkOwnedBuffer.limit == old(networkOwnedBuffer.limit)
      ensures var s := Framed(dialectRegistry, signingKeyProvider, sha256, networkOwnedBuffer.data[..],
                              old(networkOwnedBuffer.position), networkOwnedBuffer.limit);
              r == s.frame && networkOwnedBuffer.position == s.position
    {
      if networkOwnedBuffer.position >= networkOwnedBuffer.limit {
        return None;
      }
      ghost var d := networkOwnedBuffer.data[..];
      var scanIndex := networkOwnedBuffer.position;
      var bufferLimit := networkOwnedBuffer.limit;
      while scanIndex < bufferLimit
        invariant networkOwnedBuffer.position == old(networkOwnedBuffer.position) && networkOwnedBuffer.limit == bufferLimit
        invariant old(networkOwnedBuffer.position) <= scanIndex <= bufferLimit
        invariant Scan(dialectRegistry, signingKeyProvider, sha256, d, old(networkOwnedBuffer.position), bufferLimit)
               == Scan(dialectRegistry, signingKeyProvider, sha256, d, scanIndex, bufferLimit)
        decreases bufferLimit - scanIndex
      {
        var probe := ProbeCandidate(networkOwnedBuffer, scanIndex, signingKeyProvider);
        if probe.Stop? {
          networkOwnedBuffer.position := probe.outcome.position;
          return probe.outcome.frame;
        }
        scanIndex := scanIndex + 1;
      }
      networkOwnedBuffer.position := bufferLimit;
      return None;
    }
    /**
     * One pass of the scan loop: the handler for the start byte decodes a
     * duplicate view of exactly the candidate; the buffer is only read.
     */
    method ProbeCandidate(networkOwnedBuffer: ByteBuffer, scanIndex: nat, signingKeyProvider: SigningKeyProvider) returns (r: Probe)
      requires Valid() && networkOwnedBuffer.Valid() && scanIndex < networkOwnedBuffer.limit
      ensures r == ProbeAt(dialectRegistry, signingKeyProvider, sha256, networkOwnedBuffer.data[..], scanIndex, networkOwnedBuffer.limit)
    {
      ghost var d := networkOwnedBuffer.data[..];
      var bufferLimit := networkOwnedBuffer.limit;
      var startByte := networkOwnedBuffer.data[scanIndex];
      if startByte != V1_STX && startByte != V2_STX {
        return Advance;
      }
      var minimumHeaderBytes := if startByte == V1_STX then V1_MINIMUM_HEADER_BYTES else V2_MINIMUM_HEADER_BYTES;
      if scanIndex + minimumHeaderBytes > bufferLimit {
        return Stop(Scanned(None, scanIndex));
      }
      var payloadLength := networkOwnedBuffer.data[scanIndex + 1];
      var totalFrameLength := if startByte == V1_STX then V1TotalFrameLength(payloadLength)
                              else V2TotalFrameLength(networkOwnedBuffer.data[scanIndex + 2], payloadLength);
      if scanIndex + totalFrameLength > bufferLimit {
        return Stop(Scanned(None, scanIndex));
      }
      var decodedFrame := DecodeCandidate(networkOwnedBuffer, scanIndex, totalFrameLength, signingKeyProvider);
      assert networkOwnedBuffer.data[..] == d && networkOwnedBuffer.limit == bufferLimit;
      assert decodedFrame == DecodedCandidate(dialectRegistry, signingKeyProvider, sha256, d[scanIndex..scanIndex + totalFrameLength]);
      ProbeAtCandidate(dialectRegistry, signingKeyProvider, sha256, d, scanIndex, bufferLimit, totalFrameLength);
      if decodedFrame.Some? {
        return Stop(Scanned(decodedFrame, scanIndex + totalFrameLength));
      }
      return Advance;
    }

    /** The handler for the start byte decodes a duplicate view of exactly the candidate's bytes. */
    method DecodeCandidate(networkOwnedBuffer: ByteBuffer, scanIndex: nat, totalFrameLength: nat,
                           signingKeyProvider: SigningKeyProvider) returns (decodedFrame: Option<Frame>)
      requires Valid() && networkOwnedBuffer.Valid() && scanIndex < scanIndex + totalFrameLength <= networkOwnedBuffer.limit
      requires var d := networkOwnedBuffer.data[..];
               (d[scanIndex] == V1_STX && scanIndex + V1_MINIMUM_HEADER_BYTES <= networkOwnedBuffer.limit
                && totalFrameLength == V1TotalFrameLength(d[scanIndex + 1]))
               || (d[scanIndex] == V2_STX && scanIndex + V2_MINIMUM_HEADER_BYTES <= networkOwnedBuffer.limit
                   && totalFrameLength == V2TotalFrameLength(d[scanIndex + 2], d[scanIndex + 1]))
      ensures decodedFrame == DecodedCandidate(dialectRegistry, signingKeyProvider, sha256,
                                               networkOwnedBuffer.data[..][scanIndex..scanIndex + totalFrameLength])
    {
      var candidateFrame := new ByteBuffer.Duplicate(networkOwnedBuffer, scanIndex, scanIndex + totalFrameLength);
      assert CandidateBytes(candidateFrame) == networkOwnedBuffer.data[scanIndex..scanIndex + totalFrameLength];
      if networkOwnedBuffer.data[scanIndex] == V1_STX {
        decodedFrame := v1FrameHandler.TryDecode(candidateFrame);
      } else {
        decodedFrame := v2FrameHandler.TryDecode(candidateFrame, signingKeyProvider);
      }
    }
  }

  /** Bytes that are not start bytes are skipped: the scan from before them equals the scan from after them. */
  lemma {:induction false} ScanSkipsNoise(dialect: map<int, CompiledMessage>, provider: SigningKeyProvider,
                                          sha256: seq<uint8> -> seq<uint8>, d: seq<uint8>, lo: nat, hi: nat, limit: nat)
    requires lo <= hi <= limit <= |d|
    requires forall i :: lo <= i < hi ==> !IsStartByte(d[i])
    ensures Scan(dialect, provider, sha256, d, lo, limit) == Scan(dialect, provider, sha256, d, hi, limit)
    decreases hi - lo
  {
    if lo < hi {
      ScanSkipsNoise(dialect, provider, sha256, d, lo + 1, hi, limit);
    }
  }

  /** A complete v1 frame that decodes, at the scan index, is the frame returned, and the position moves past it. */
  lemma ScanFindsV1Frame(dialect: map<int, CompiledMessage>, provider: SigningKeyProvider, sha256: seq<uint8> -> seq<uint8>,
                         d: seq<uint8>, at: nat, limit: nat)
    requires at + V1_MINIMUM_HEADER_BYTES <= limit <= |d| && d[at] == V1_STX
    requires at + V1TotalFrameLength(d[at + 1]) <= limit
    requires DecodedV1(dialect, d[at..at + V1TotalFrameLength(d[at + 1])]).Some?
    ensures Scan(dialect, provider, sha256, d, at, limit)
         == Scanned(DecodedV1(dialect, d[at..at + V1TotalFrameLength(d[at + 1])]), at + V1TotalFrameLength(d[at + 1]))
  {
  }

  /** A complete v2 frame that decodes, at the scan index, is the frame returned, and the position moves past it. */
  lemma ScanFindsV2Frame(dialect: map<int, CompiledMessage>, provider: SigningKeyProvider, sha256: seq<uint8> -> seq<uint8>,
                         d: seq<uint8>, at: nat, limit: nat)
    requires at + V2_MINIMUM_HEADER_BYTES <= limit <= |d| && d[at] == V2_STX
    requires at + V2TotalFrameLength(d[at + 2], d[at + 1]) <= limit
    requires DecodedV2(dialect, provider, sha256, d[at..at + V2TotalFrameLength(d[at + 2], d[at + 1])]).Some?
    ensures Scan(dialect, provider, sha256, d, at, limit)
         == Scanned(DecodedV2(dialect, provider, sha256, d[at..at + V2TotalFrameLength(d[at + 2], d[at + 1])]),
                    at + V2TotalFrameLength(d[at + 2], d[at + 1]))
  {
  }

  /**
   * Resynchronisation: noise in front of a complete v1 frame that decodes is
   * consumed with it, and the frame is returned.
   */
  lemma NoiseThenV1Frame(dialect: map<int, CompiledMessage>, provider: SigningKeyProvider, sha256: seq<uint8> -> seq<uint8>,
                         d: seq<uint8>, position: nat, at: nat, limit: nat)
    requires position <= at && at + V1_MINIMUM_HEADER_BYTES <= limit <= |d| && d[at] == V1_STX
    requires forall i :: position <= i < at ==> !IsStartByte(d[i])
    requires at + V1TotalFrameLength(d[at + 1]) <= limit
    requires DecodedV1(dialect, d[at..at + V1TotalFrameLength(d[at + 1])]).Some?
    ensures Framed(dialect, provider, sha256, d, position, limit)
         == Scanned(DecodedV1(dialect, d[at..at + V1TotalFrameLength(d[at + 1])]), at + V1TotalFrameLength(d[at + 1]))
  {
    ScanSkipsNoise(dialect, provider, sha256, d, position, at, limit);
    ScanFindsV1Frame(dialect, provider, sha256, d, at, limit);
  }

  /** The same for a v2 frame. */
  lemma NoiseThenV2Frame(dialect: map<int, CompiledMessage>, provider: SigningKeyProvider, sha256: seq<uint8> -> seq<uint8>,
                         d: seq<uint8>, position: nat, at: nat, limit: nat)
    requires position <= at && at + V2_MINIMUM_HEADER_BYTES <= limit <= |d| && d[at] == V2_STX
    requires forall i :: position <= i < at ==> !IsStartByte(d[i])
    requires at + V2TotalFrameLength(d[at + 2], d[at + 1]) <= limit
    requires DecodedV2(dialect, provider, sha256, d[at..at + V2TotalFrameLength(d[at + 2], d[at + 1])]).Some?
    ensures Framed(dialect, provider, sha256, d, position, limit)
         == Scanned(DecodedV2(dialect, provider, sha256, d[at..at + V2TotalFrameLength(d[at + 2], d[at + 1])]),
                    at + V2TotalFrameLength(d[at + 2], d[at + 1]))
  {
    ScanSkipsNoise(dialect, provider, sha256, d, position, at, limit);
    ScanFindsV2Frame(dialect, provider, sha256, d, at, limit);
  }

  /**
   * A buffer holding only noise is consumed entirely, and after compaction
   * nothing is left to read.
   */
  lemma NoiseIsConsumed(dialect: map<int, CompiledMessage>, provider: SigningKeyProvider, sha256: seq<uint8> -> seq<uint8>,
                        d: seq<uint8>, position: nat, limit: nat)
    requires position <= limit <= |d|
    requires forall i :: position <= i < limit ==> !IsStartByte(d[i])
    ensures Framed(dialect, provider, sha256, d, position, limit) == Scanned(None, limit)
  {
    if position < limit {
      ScanSkipsNoise(dialect, provider, sha256, d, position, limit, limit);
    }
  }
}
