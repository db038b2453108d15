// The plain records of the stream-health analyzer: ring entries,
// detections, per-stream and per-system counters, the two configurations
// and the results the analyzer hands back. Java's long counters are
// unbounded integers here.

module ContextTypes {
  import opened Bytes

  /** What one ring slot remembers about the last frame seen with its sequence number. */
  datatype SequenceRingEntry = SequenceRingEntry(sequence: int, fingerprint: int, streamId: string, lastSeenAtNanos: int)

  /** The kinds of event the analyzer reports (only the ones it raises are listed). */
  datatype DetectionType =
    | SEQ_DUPLICATE
    | SEQ_SAME_SEQ_DIFFERENT_FINGERPRINT
    | SEQ_GAP
    | SEQ_REORDER
    | SEQ_SUSPICIOUS_BACKWARDS
    | SEQ_RESET_SUSPECTED
    | SYSTEM_MULTI_SOURCE_ACTIVE
    | FRAME_INVALID

  datatype DetectionSeverity = INFO | WARN | ALERT

  datatype Detection = Detection(
    systemId: int,
    streamId: string,
    occurredAtNanos: int,
    detectionType: DetectionType,
    severity: DetectionSeverity,
    details: string)

  /** The per-system counters. */
  datatype SequenceStats = SequenceStats(
    duplicates: int,
    reorders: int,
    gaps: int,
    lostPackets: int,
    suspiciousBackwards: int,
    resetsSuspected: int,
    invalidFrames: int,
    multiSourceActive: int)

  /** `new SequenceStats()`: every counter zero. */
  const ZERO_STATS := SequenceStats(0, 0, 0, 0, 0, 0, 0, 0)

  /** The per-stream record kept under its stream id. */
  datatype SourceStats = SourceStats(
    streamId: string,
    lastSeenAtNanos: int,
    packetCount: int,
    invalidPacketCount: int,
    primary: bool,
    primarySinceAtNanos: int,
    lastAcceptedSequenceFromSource: Option<int>)

  /** `new SourceStats(streamId)`: every other field at its Java default. */
  function NewSourceStats(streamId: string): SourceStats
  {
    SourceStats(streamId, 0, 0, 0, false, 0, None)
  }

  datatype SequenceProcessorConfig = SequenceProcessorConfig(
    reorderDistanceWindow: int,
    reorderTimeWindowNanos: int,
    duplicateTimeWindowNanos: int,
    suspiciousBackwardDistance: int,
    multiSourceActiveWindowNanos: int)

  /** The defaults of `new SequenceProcessorConfig()`. */
  const DEFAULT_PROCESSOR_CONFIG := SequenceProcessorConfig(20, 500_000_000, 1_000_000_000, 64, 2_000_000_000)

  datatype SweepConfig = SweepConfig(systemTtlNanos: int, sourceTtlNanos: int)

  /** The defaults of `new SweepConfig()`: ten minutes per system, one minute per stream. */
  const DEFAULT_SWEEP_CONFIG := SweepConfig(10 * 60 * 1_000_000_000, 60 * 1_000_000_000)

  datatype SequenceProcessingResult = SequenceProcessingResult(acceptedAsHead: bool, sequence: int, detections: seq<Detection>)

  datatype SystemContextSnapshot = SystemContextSnapshot(
    systemId: int,
    initialized: bool,
    lastAcceptedSequence: int,
    lastAcceptedAtNanos: int,
    sequenceStats: SequenceStats,
    sourceCount: int)

  datatype SweepResult = SweepResult(removedSystems: int, removedSources: int)

  /** The decimal digits of a non-negative number, as `String.valueOf` writes them. */
  function Decimal(n: nat): (r: string)
    ensures |r| >= 1
    ensures forall i :: 0 <= i < |r| ==> '0' <= r[i] <= '9'
  {
    if n < 10 then [Digit(n)] else Decimal(n / 10) + [Digit(n % 10)]
  }

  function Digit(d: nat): (c: char)
    requires d < 10
    ensures '0' <= c <= '9'
  {
    ['0', '1', '2', '3', '4', '5', '6', '7', '8', '9'][d]
  }
}
