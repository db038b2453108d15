// What one system context does with a frame, a sweep, an expiry test and a
// snapshot, as functions on the value `ContextState`. The class in
// system_context.dfy is proved against these.

module SystemContextModel {
  import opened Bytes
  import opened Frames
  import opened ContextTypes
  import opened SequenceRing
  import opened SequenceProcessing

  /** The context `createContext` builds: uninitialized, an empty ring, no streams, zero counters, last activity 0. */
  function NewContextState(systemId: int): (s: ContextState)
    ensures WellFormed(s)
  {
    ContextState(systemId, false, 0, 0, 0, seq(RING_SIZE, _ => None), map[], ZERO_STATS)
  }

  /** `computeIfAbsent(streamId, new SourceStats(streamId))`. */
  function StatsFor(sources: map<string, SourceStats>, streamId: string): SourceStats
  {
    if streamId in sources then sources[streamId] else NewSourceStats(streamId)
  }

  /** The bookkeeping `onValidatedFrame` does before handing the frame to the processor. */
  function SeenValid(s: ContextState, streamId: string, at: int): ContextState
  {
    var stats := StatsFor(s.sourceStats, streamId);
    s.(lastActivityAtNanos := at,
       sourceStats := s.sourceStats[streamId := stats.(lastSeenAtNanos := at, packetCount := stats.packetCount + 1)])
  }

  /** `onValidatedFrame`: the bookkeeping, then `process`, given what the primary lookup returned. */
  function ValidatedFrame(config: SequenceProcessorConfig, s: ContextState, frame: Frame, streamId: string, at: int, choice: Option<string>): Processed
    requires WellFormed(s)
  {
    ProcessFrame(config, SeenValid(s, streamId, at), frame, streamId, at, choice)
  }

  /** `reason.name()`. */
  function ReasonName(reason: FrameFailureReason): string
  {
    match reason
    case OK => "OK"
    case UNSIGNED => "UNSIGNED"
    case CRC_FAILED => "CRC_FAILED"
    case SIGNATURE_FAILED => "SIGNATURE_FAILED"
    case CRC_AND_SIGNATURE_FAILED => "CRC_AND_SIGNATURE_FAILED"
    case MALFORMED => "MALFORMED"
    case UNKNOWN => "UNKNOWN"
  }

  /** `onInvalidFrame`: the new state and the one detection it returns. */
  function InvalidFrame(s: ContextState, streamId: string, at: int, reason: FrameFailureReason): Arbitration
  {
    var stats := StatsFor(s.sourceStats, streamId);
    Arbitration(
      s.(lastActivityAtNanos := at,
         sourceStats := s.sourceStats[streamId := stats.(lastSeenAtNanos := at, invalidPacketCount := stats.invalidPacketCount + 1)],
         sequenceStats := s.sequenceStats.(invalidFrames := s.sequenceStats.invalidFrames + 1)),
      [Detection(s.systemId, streamId, at, FRAME_INVALID, WARN, ReasonName(reason))])
  }

  /** A stream silent for longer than the source time-to-live. */
  predicate Stale(stats: SourceStats, now: int, sweep: SweepConfig)
  {
    now - stats.lastSeenAtNanos > sweep.sourceTtlNanos
  }

  /** The streams the first sweep loop keeps. */
  function Retained(sources: map<string, SourceStats>, now: int, sweep: SweepConfig): map<string, SourceStats>
  {
    map k | k in sources && !Stale(sources[k], now, sweep) :: sources[k]
  }

  /**
   * A primary the sweep counts as current: seen no longer ago than the
   * active window (unlike the processor's lookup, a negative age counts).
   */
  predicate SweepPrimary(stats: SourceStats, now: int, config: SequenceProcessorConfig)
  {
    stats.primary && now - stats.lastSeenAtNanos <= config.multiSourceActiveWindowNanos
  }

  predicate HasSweepPrimary(sources: map<string, SourceStats>, now: int, config: SequenceProcessorConfig)
  {
    exists k :: k in sources && SweepPrimary(sources[k], now, config)
  }

  /** The second sweep loop: every primary flag cleared, with its start time reset to 0. */
  function Demoted(sources: map<string, SourceStats>): map<string, SourceStats>
  {
    map k | k in sources :: Demote(sources[k])
  }

  /** One stream's record after the second sweep loop. */
  function Demote(stats: SourceStats): SourceStats
  {
    if stats.primary then stats.(primary := false, primarySinceAtNanos := 0) else stats
  }

  /** The stream records after `sweep`. */
  function SweptSources(sources: map<string, SourceStats>, now: int, sweep: SweepConfig, config: SequenceProcessorConfig): map<string, SourceStats>
  {
    var kept := Retained(sources, now, sweep);
    if HasSweepPrimary(kept, now, config) then kept else Demoted(kept)
  }

  function Swept(s: ContextState, now: int, sweep: SweepConfig, config: SequenceProcessorConfig): ContextState
  {
    s.(sourceStats := SweptSources(s.sourceStats, now, sweep, config))
  }

  /** `isExpired`. */
  predicate Expired(s: ContextState, now: int, sweep: SweepConfig)
  {
    now - s.lastActivityAtNanos > sweep.systemTtlNanos
  }

  /** `snapshot`. */
  function SnapshotOf(s: ContextState): SystemContextSnapshot
  {
    SystemContextSnapshot(s.systemId, s.initialized, s.lastAcceptedSequence, s.lastAcceptedAtNanos, s.sequenceStats, |s.sourceStats|)
  }

  // ---------------------------------------------------------------------
  // Properties
  // ---------------------------------------------------------------------

  /**
   * A validated frame marks the system active now and records the stream
   * (creating it if needed) as seen now with one more packet; no other
   * stream's record changes, and no counter goes down.
   */
  lemma ValidatedFrameRecordsStream(config: SequenceProcessorConfig, s: ContextState, frame: Frame, streamId: string, at: int, choice: Option<string>)
    requires WellFormed(s)
    ensures var p := ValidatedFrame(config, s, frame, streamId, at, choice);
      && p.state.lastActivityAtNanos == at
      && p.state.sourceStats.Keys == s.sourceStats.Keys + {streamId}
      && p.state.sourceStats[streamId].lastSeenAtNanos == at
      && p.state.sourceStats[streamId].packetCount == StatsFor(s.sourceStats, streamId).packetCount + 1
      && p.state.sourceStats[streamId].invalidPacketCount == StatsFor(s.sourceStats, streamId).invalidPacketCount
      && (forall k :: k in s.sourceStats && k != streamId ==> p.state.sourceStats[k] == s.sourceStats[k])
      && CountersGrow(s.sequenceStats, p.state.sequenceStats)
  {
  }

  /** An invalid frame counts one invalid packet for the stream and the system and returns exactly one WARN naming the reason. */
  lemma InvalidFrameCounted(s: ContextState, streamId: string, at: int, reason: FrameFailureReason)
    ensures var r := InvalidFrame(s, streamId, at, reason);
      && r.detections == [Detection(s.systemId, streamId, at, FRAME_INVALID, WARN, ReasonName(reason))]
      && r.state.sourceStats[streamId].invalidPacketCount == StatsFor(s.sourceStats, streamId).invalidPacketCount + 1
      && r.state.sourceStats[streamId].packetCount == StatsFor(s.sourceStats, streamId).packetCount
      && r.state.sequenceStats.invalidFrames == s.sequenceStats.invalidFrames + 1
      && r.state.ring == s.ring && HeadKept(s, r.state)
  {
  }

  /** Distinct reasons give distinct details, so the detection identifies the reason. */
  lemma ReasonNameInjective(a: FrameFailureReason, b: FrameFailureReason)
    requires ReasonName(a) == ReasonName(b)
    ensures a == b
  {
  }

  /** A stream survives a sweep exactly when it is not stale. */
  lemma SweepKeepsExactlyFreshStreams(s: ContextState, now: int, sweep: SweepConfig, config: SequenceProcessorConfig, k: string)
    ensures k in Swept(s, now, sweep, config).sourceStats <==> k in s.sourceStats && !Stale(s.sourceStats[k], now, sweep)
  {
  }

  /** A surviving stream keeps everything but possibly its primary flag and start time. */
  lemma SweepKeepsStreamRecords(s: ContextState, now: int, sweep: SweepConfig, config: SequenceProcessorConfig, k: string)
    requires k in Swept(s, now, sweep, config).sourceStats
    ensures var after := Swept(s, now, sweep, config).sourceStats[k];
      after == s.sourceStats[k].(primary := after.primary, primarySinceAtNanos := after.primarySinceAtNanos)
      && (after.primary ==> after == s.sourceStats[k])
  {
  }

  /**
   * After a sweep, either some surviving primary is current, or no stream is
   * primary at all.
   */
  lemma SweepLeavesNoStalePrimary(s: ContextState, now: int, sweep: SweepConfig, config: SequenceProcessorConfig)
    ensures var after := Swept(s, now, sweep, config).sourceStats;
      HasSweepPrimary(after, now, config) || forall k :: k in after ==> !after[k].primary
  {
  }

  /** Sweeping twice at the same time changes nothing more. */
  lemma SweepIdempotent(s: ContextState, now: int, sweep: SweepConfig, config: SequenceProcessorConfig)
    ensures Swept(Swept(s, now, sweep, config), now, sweep, config) == Swept(s, now, sweep, config)
  {
    var once := Swept(s, now, sweep, config).sourceStats;
    var kept := Retained(s.sourceStats, now, sweep);
    assert Retained(once, now, sweep) == once;
    if !HasSweepPrimary(kept, now, config) {
      assert !HasSweepPrimary(once, now, config);
      assert Demoted(once) == once;
    }
  }

  /** The number a sweep reports is the number of stale streams. */
  lemma RemovedCountIsStaleCount(sources: map<string, SourceStats>, now: int, sweep: SweepConfig)
    ensures |sources| - |Retained(sources, now, sweep)| == |set k | k in sources && Stale(sources[k], now, sweep)|
  {
    var stale := set k | k in sources && Stale(sources[k], now, sweep);
    var kept := Retained(sources, now, sweep).Keys;
    assert sources.Keys == kept + stale;
    assert kept * stale == {};
  }

  /** Processing and sweeping never change when the system was last active, so they never change whether it has expired. */
  lemma ExpiryFollowsLastFrame(config: SequenceProcessorConfig, s: ContextState, frame: Frame, streamId: string, at: int,
                               choice: Option<string>, reason: FrameFailureReason, now: int, sweep: SweepConfig)
    requires WellFormed(s)
    ensures Expired(ValidatedFrame(config, s, frame, streamId, at, choice).state, now, sweep) <==> now - at > sweep.systemTtlNanos
    ensures Expired(InvalidFrame(s, streamId, at, reason).state, now, sweep) <==> now - at > sweep.systemTtlNanos
    ensures Expired(Swept(s, now, sweep, config), now, sweep) == Expired(s, now, sweep)
  {
  }

  /** A snapshot taken after a sweep counts the streams before it minus the ones removed. */
  lemma SnapshotCountsStreams(s: ContextState, now: int, sweep: SweepConfig, config: SequenceProcessorConfig)
    ensures SnapshotOf(Swept(s, now, sweep, config)).sourceCount
            == |s.sourceStats| - |set k | k in s.sourceStats && Stale(s.sourceStats[k], now, sweep)|
  {
    RemovedCountIsStaleCount(s.sourceStats, now, sweep);
    assert |Demoted(Retained(s.sourceStats, now, sweep))| == |Retained(s.sourceStats, now, sweep)| by {
      assert Demoted(Retained(s.sourceStats, now, sweep)).Keys == Retained(s.sourceStats, now, sweep).Keys;
    }
  }
}
