// The mutable per-system context and the processor that updates it. Every
// method is proved to leave the context in the state the functions of
// SequenceProcessing and SystemContextModel describe.

module SystemContexts {
  import opened Bytes
  import opened Frames
  import opened ContextTypes
  import opened SequenceRing
  import opened SequenceProcessing
  import opened SystemContextModel
  import FrameFingerprint

  class SystemContext {
    const systemId: int
    var initialized: bool
    var lastAcceptedSequence: int
    var lastAcceptedAtNanos: int
    var lastActivityAtNanos: int
    const sequenceRingBuffer: SequenceRingBuffer256
    var sourceStats: map<string, SourceStats>
    var sequenceStats: SequenceStats

    ghost predicate Valid()
    {
      sequenceRingBuffer.Valid()
    }

    /** The context as a value. */
    ghost function State(): ContextState
      reads this, sequenceRingBuffer.entries
    {
      ContextState(systemId, initialized, lastAcceptedSequence, lastAcceptedAtNanos, lastActivityAtNanos,
                   sequenceRingBuffer.entries[..], sourceStats, sequenceStats)
    }

    /** `createContext(systemId)`. */
    constructor (systemId: int)
      ensures Valid() && fresh(sequenceRingBuffer) && fresh(sequenceRingBuffer.entries)
      ensures State() == NewContextState(systemId)
    {
      this.systemId := systemId;
      initialized := false;
      lastAcceptedSequence := 0;
      lastAcceptedAtNanos := 0;
      lastActivityAtNanos := 0;
      sequenceRingBuffer := new SequenceRingBuffer256();
      sourceStats := map[];
      sequenceStats := ZERO_STATS;
    }

    /** `onValidatedFrame`: bookkeeping for the stream, then the processor. */
    method OnValidatedFrame(frame: Frame, streamId: string, at: int, processor: SequenceProcessor)
      returns (detections: seq<Detection>, ghost choice: Option<string>)
      requires Valid()
      modifies this, sequenceRingBuffer.entries
      ensures Valid()
      ensures IsPrimaryChoice(SeenValid(old(State()), streamId, at).sourceStats, at, processor.config.multiSourceActiveWindowNanos, choice)
      ensures var p := ValidatedFrame(processor.config, old(State()), frame, streamId, at, choice);
        State() == p.state && detections == p.result.detections
    {
      lastActivityAtNanos := at;
      var stats := if streamId in sourceStats then sourceStats[streamId] else NewSourceStats(streamId);
      sourceStats := sourceStats[streamId := stats.(lastSeenAtNanos := at, packetCount := stats.packetCount + 1)];
      assert State() == SeenValid(old(State()), streamId, at);
      var result;
      result, choice := processor.Process(this, frame, streamId, at);
      detections := result.detections;
    }

    /** `onInvalidFrame`: counts the invalid packet and reports it. */
    method OnInvalidFrame(streamId: string, at: int, reason: FrameFailureReason) returns (detections: seq<Detection>)
      modifies this
      ensures var r := InvalidFrame(old(State()), streamId, at, reason);
        State() == r.state && detections == r.detections
    {
      lastActivityAtNanos := at;
      var stats := if streamId in sourceStats then sourceStats[streamId] else NewSourceStats(streamId);
      sourceStats := sourceStats[streamId := stats.(lastSeenAtNanos := at, invalidPacketCount := stats.invalidPacketCount + 1)];
      sequenceStats := sequenceStats.(invalidFrames := sequenceStats.invalidFrames + 1);
      detections := [Detection(systemId, streamId, at, FRAME_INVALID, WARN, ReasonName(reason))];
    }

    /**
     * `sweep`: drops the stale streams, in whatever order the map yields
     * them, and clears every primary flag when no surviving primary is
     * current. Returns how many streams it dropped.
     */
    method Sweep(now: int, sweep: SweepConfig, config: SequenceProcessorConfig) returns (removed: int)
      modifies this`sourceStats
      ensures State() == Swept(old(State()), now, sweep, config)
      ensures removed == |old(sourceStats)| - |sourceStats|
    {
      var anyPrimary;
      removed, anyPrimary := DropStale(now, sweep, config);
      if !anyPrimary {
        ghost var kept := sourceStats;
        DemoteAll();
        assert |sourceStats| == |sourceStats.Keys| == |kept.Keys| == |kept|;
      }
    }

    /** The first loop of `sweep`: drop the stale streams and note whether a surviving primary is current. */
    method DropStale(now: int, sweep: SweepConfig, config: SequenceProcessorConfig) returns (removed: int, anyPrimary: bool)
      modifies this`sourceStats
      ensures sourceStats == Retained(old(sourceStats), now, sweep)
      ensures removed == |old(sourceStats)| - |sourceStats|
      ensures anyPrimary == HasSweepPrimary(sourceStats, now, config)
    {
      ghost var original := sourceStats;
      removed := 0;
      var currentPrimary: Option<string> := None;
      var pending := sourceStats.Keys;
      while pending != {}
        invariant pending <= sourceStats.Keys <= original.Keys
        invariant forall k :: k in sourceStats ==> sourceStats[k] == original[k]
        invariant forall k :: k in original && k !in pending ==> (k in sourceStats <==> !Stale(original[k], now, sweep))
        invariant removed == |original| - |sourceStats|
        invariant currentPrimary.Some? <==> exists k :: k in sourceStats && k !in pending && SweepPrimary(sourceStats[k], now, config)
        decreases pending
      {
        var k :| k in pending;
        var dropped, current := SweepOne(k, now, sweep, config);
        if dropped {
          removed := removed + 1;
        } else if current {
          currentPrimary := Some(sourceStats[k].streamId);
        }
        pending := pending - {k};
      }
      assert sourceStats == Retained(original, now, sweep);
      anyPrimary := currentPrimary.Some?;
    }

    /** One step of the first sweep loop: drop the stream if stale, else say whether it is a current primary. */
    method SweepOne(k: string, now: int, sweep: SweepConfig, config: SequenceProcessorConfig) returns (dropped: bool, current: bool)
      requires k in sourceStats
      modifies this`sourceStats
      ensures dropped == Stale(old(sourceStats)[k], now, sweep)
      ensures sourceStats == if dropped then old(sourceStats) - {k} else old(sourceStats)
      ensures |sourceStats| == |old(sourceStats)| - (if dropped then 1 else 0)
      ensures current == (!dropped && SweepPrimary(sourceStats[k], now, config))
    {
      var stats := sourceStats[k];
      dropped := now - stats.lastSeenAtNanos > sweep.sourceTtlNanos;
      current := false;
      if dropped {
        sourceStats := sourceStats - {k};
      } else if stats.primary {
        current := now - stats.lastSeenAtNanos <= config.multiSourceActiveWindowNanos;
      }
    }

    /** The second loop of `sweep`: clear every primary flag. */
    method DemoteAll()
      modifies this`sourceStats
      ensures sourceStats == Demoted(old(sourceStats))
      ensures sourceStats.Keys == old(sourceStats).Keys
    {
      ghost var kept := sourceStats;
      var pending := sourceStats.Keys;
      while pending != {}
        invariant pending <= kept.Keys == sourceStats.Keys
        invariant forall k :: k in kept ==> sourceStats[k] == if k in pending then kept[k] else Demote(kept[k])
        decreases pending
      {
        var k :| k in pending;
        if sourceStats[k].primary {
          sourceStats := sourceStats[k := sourceStats[k].(primary := false, primarySinceAtNanos := 0)];
        }
        pending := pending - {k};
      }
      assert sourceStats == Demoted(kept);
    }

    /** `isExpired`. */
    method IsExpired(now: int, sweep: SweepConfig) returns (expired: bool)
      ensures expired == Expired(State(), now, sweep)
    {
      expired := now - lastActivityAtNanos > sweep.systemTtlNanos;
    }

    /** `snapshot`: the head, the counters and how many streams are known. */
    method Snapshot() returns (snapshot: SystemContextSnapshot)
      ensures snapshot == SnapshotOf(State())
    {
      snapshot := SystemContextSnapshot(systemId, initialized, lastAcceptedSequence, lastAcceptedAtNanos, sequenceStats, |sourceStats|);
    }
  }

  /** The stateless processor: every call reads and updates the context it is given. */
  class SequenceProcessor {
    const config: SequenceProcessorConfig

    constructor (config: SequenceProcessorConfig)
      ensures this.config == config
    {
      this.config := config;
    }

    /** `process`: classify the frame's sequence number, write its ring slot, arbitrate the primary stream. */
    method Process(ctx: SystemContext, frame: Frame, streamId: string, at: int)
      returns (result: SequenceProcessingResult, ghost choice: Option<string>)
      requires ctx.Valid()
      modifies ctx, ctx.sequenceRingBuffer.entries
      ensures ctx.Valid()
      ensures IsPrimaryChoice(old(ctx.sourceStats), at, config.multiSourceActiveWindowNanos, choice)
      ensures var p := ProcessFrame(config, old(ctx.State()), frame, streamId, at, choice);
        ctx.State() == p.state && result == p.result
    {
      var sequence := frame.sequence % RING_SIZE;
      var fingerprint := FrameFingerprint.ComputeFingerprint(frame);
      var detections, accepted := Analyse(ctx, frame, streamId, at, sequence, fingerprint);
      ghost var classified := ctx.sourceStats;
      UpdateRing(ctx, sequence, fingerprint, streamId, at);
      var arbitration;
      arbitration, choice := DetectMultiSourceActive(ctx, streamId, at);
      PrimaryChoiceStable(old(ctx.sourceStats), classified, at, config.multiSourceActiveWindowNanos, choice);
      result := SequenceProcessingResult(accepted, sequence, detections + arbitration);
    }

    /** Everything `process` does before its ring write, branch by branch. */
    method Analyse(ctx: SystemContext, frame: Frame, streamId: string, at: int, sequence: nat, fingerprint: int)
      returns (detections: seq<Detection>, accepted: bool)
      requires ctx.Valid() && sequence == SequenceOf(frame) && fingerprint == FingerprintOf(frame)
      modifies ctx
      ensures var c := Classify(config, old(ctx.State()), frame, streamId, at);
        ctx.State() == c.state && detections == c.detections && accepted == c.acceptedAsHead
    {
      var previous := ctx.sequenceRingBuffer.Get(sequence);
      accepted := false;
      if previous.Some? && 0 <= at - previous.value.lastSeenAtNanos <= config.duplicateTimeWindowNanos {
        if previous.value.fingerprint == fingerprint {
          var note := IncrementDuplicate(ctx, streamId, at, sequence);
          detections := [note];
        } else {
          detections := [Detection(ctx.systemId, streamId, at, SEQ_SAME_SEQ_DIFFERENT_FINGERPRINT, ALERT,
                                   "seq=" + Decimal(sequence) + " previousStream=" + previous.value.streamId)];
        }
        return;
      }
      if !ctx.initialized {
        ctx.initialized := true;
        ctx.lastAcceptedSequence := sequence;
        ctx.lastAcceptedAtNanos := at;
        SetLastAcceptedSequenceForSource(ctx, streamId, sequence);
        return [], true;
      }
      detections, accepted := AnalyseAgainstHead(ctx, streamId, at, sequence);
    }

    /** The part of `process` that compares an initialized context's head with the frame's number. */
    method AnalyseAgainstHead(ctx: SystemContext, streamId: string, at: int, sequence: nat)
      returns (detections: seq<Detection>, accepted: bool)
      modifies ctx
      ensures var c := ClassifyAgainstHead(config, old(ctx.State()), streamId, at, sequence);
        ctx.State() == c.state && detections == c.detections && accepted == c.acceptedAsHead
    {
      var head := ctx.lastAcceptedSequence % RING_SIZE;
      var delta := (sequence - head) % RING_SIZE;
      if delta == 0 {
        var note := IncrementDuplicate(ctx, streamId, at, sequence);
        return [note], false;
      }
      if delta <= 127 {
        detections := AdvanceHead(ctx, streamId, at, sequence, delta);
        return detections, true;
      }
      var back := RING_SIZE - delta;
      if back <= config.reorderDistanceWindow && 0 <= at - ctx.lastAcceptedAtNanos <= config.reorderTimeWindowNanos {
        var note := IncrementReorder(ctx, streamId, at, back);
        return [note], false;
      }
      detections := IncrementSuspiciousBackward(ctx, streamId, at, sequence, back);
      accepted := false;
    }

    /** A forward step: count a gap when numbers were skipped, then move the head to the frame. */
    method AdvanceHead(ctx: SystemContext, streamId: string, at: int, sequence: nat, delta: nat) returns (detections: seq<Detection>)
      modifies ctx
      ensures var c := Advanced(old(ctx.State()), streamId, at, sequence, delta);
        ctx.State() == c.state && detections == c.detections
    {
      detections := [];
      if delta > 1 {
        var note := IncrementGap(ctx, streamId, at, delta - 1);
        detections := [note];
      }
      ctx.lastAcceptedSequence := sequence;
      ctx.lastAcceptedAtNanos := at;
      SetLastAcceptedSequenceForSource(ctx, streamId, sequence);
    }

    /** `incrementReorder`. */
    method IncrementReorder(ctx: SystemContext, streamId: string, at: int, back: nat) returns (note: Detection)
      modifies ctx
      ensures var c := ReorderCounted(old(ctx.State()), streamId, at, back);
        ctx.State() == c.state && [note] == c.detections
    {
      ctx.sequenceStats := ctx.sequenceStats.(reorders := ctx.sequenceStats.reorders + 1);
      note := Detection(ctx.systemId, streamId, at, SEQ_REORDER, INFO, "back=" + Decimal(back));
    }

    /** `incrementDuplicate`. */
    method IncrementDuplicate(ctx: SystemContext, streamId: string, at: int, sequence: nat) returns (note: Detection)
      modifies ctx
      ensures var c := DuplicateCounted(old(ctx.State()), streamId, at, sequence);
        ctx.State() == c.state && [note] == c.detections
    {
      ctx.sequenceStats := ctx.sequenceStats.(duplicates := ctx.sequenceStats.duplicates + 1);
      note := Detection(ctx.systemId, streamId, at, SEQ_DUPLICATE, INFO, "seq=" + Decimal(sequence));
    }

    /** `incrementGap`. */
    method IncrementGap(ctx: SystemContext, streamId: string, at: int, lost: nat) returns (note: Detection)
      modifies ctx
      ensures ctx.State() == old(ctx.State()).(sequenceStats := old(ctx.sequenceStats).(gaps := old(ctx.sequenceStats).gaps + 1,
                                                                                          lostPackets := old(ctx.sequenceStats).lostPackets + lost))
      ensures note == Detection(ctx.systemId, streamId, at, SEQ_GAP, WARN, "lost=" + Decimal(lost))
    {
      ctx.sequenceStats := ctx.sequenceStats.(gaps := ctx.sequenceStats.gaps + 1, lostPackets := ctx.sequenceStats.lostPackets + lost);
      note := Detection(ctx.systemId, streamId, at, SEQ_GAP, WARN, "lost=" + Decimal(lost));
    }

    /** `incrementSuspiciousBackward`, followed by `incrementResetSuspected` when `looksLikeReset` holds. */
    method IncrementSuspiciousBackward(ctx: SystemContext, streamId: string, at: int, sequence: nat, back: nat) returns (notes: seq<Detection>)
      modifies ctx
      ensures var c := BackwardJump(config, old(ctx.State()), streamId, at, sequence, back);
        ctx.State() == c.state && notes == c.detections
    {
      ctx.sequenceStats := ctx.sequenceStats.(suspiciousBackwards := ctx.sequenceStats.suspiciousBackwards + 1);
      var severity := if back >= config.suspiciousBackwardDistance then ALERT else WARN;
      notes := [Detection(ctx.systemId, streamId, at, SEQ_SUSPICIOUS_BACKWARDS, severity, "back=" + Decimal(back))];
      var head := ctx.lastAcceptedSequence % RING_SIZE;
      if 50 <= head <= 200 && sequence <= 10 && at - ctx.lastAcceptedAtNanos > config.multiSourceActiveWindowNanos {
        ctx.sequenceStats := ctx.sequenceStats.(resetsSuspected := ctx.sequenceStats.resetsSuspected + 1);
        notes := notes + [Detection(ctx.systemId, streamId, at, SEQ_RESET_SUSPECTED, WARN, "head=" + Decimal(head) + " seq=" + Decimal(sequence))];
      }
    }

    /** `setLastAcceptedSequenceForSource`. */
    method SetLastAcceptedSequenceForSource(ctx: SystemContext, streamId: string, sequence: int)
      modifies ctx
      ensures ctx.State() == old(ctx.State()).(sourceStats := LastAcceptedForSource(old(ctx.sourceStats), streamId, sequence))
    {
      if streamId in ctx.sourceStats {
        ctx.sourceStats := ctx.sourceStats[streamId := ctx.sourceStats[streamId].(lastAcceptedSequenceFromSource := Some(sequence))];
      }
    }

    /** `updateRing`. */
    method UpdateRing(ctx: SystemContext, sequence: int, fingerprint: int, streamId: string, at: int)
      requires ctx.Valid()
      modifies ctx.sequenceRingBuffer.entries
      ensures ctx.State() == old(ctx.State()).(ring := Stored(old(ctx.State()).ring, sequence, SequenceRingEntry(sequence, fingerprint, streamId, at)))
    {
      ctx.sequenceRingBuffer.Put(sequence, SequenceRingEntry(sequence, fingerprint, streamId, at));
    }

    /** `findPrimaryStreamId`: the first active primary the map yields, if any. */
    method FindPrimaryStreamId(ctx: SystemContext, at: int) returns (primary: Option<string>)
      ensures IsPrimaryChoice(ctx.sourceStats, at, config.multiSourceActiveWindowNanos, primary)
    {
      var window := config.multiSourceActiveWindowNanos;
      var pending := ctx.sourceStats.Keys;
      while pending != {}
        invariant pending <= ctx.sourceStats.Keys
        invariant forall k :: k in ctx.sourceStats && k !in pending ==> !ActivePrimary(ctx.sourceStats[k], at, window)
        decreases pending
      {
        var k :| k in pending;
        var stats := ctx.sourceStats[k];
        if stats.primary && 0 <= at - stats.lastSeenAtNanos <= window {
          return Some(stats.streamId);
        }
        pending := pending - {k};
      }
      return None;
    }

    /** `detectMultiSourceActive`: mark this stream primary when none is active, else flag a second stream. */
    method DetectMultiSourceActive(ctx: SystemContext, streamId: string, at: int)
      returns (notes: seq<Detection>, ghost choice: Option<string>)
      modifies ctx
      ensures IsPrimaryChoice(old(ctx.sourceStats), at, config.multiSourceActiveWindowNanos, choice)
      ensures var a := Arbitrate(old(ctx.State()), streamId, at, choice);
        ctx.State() == a.state && notes == a.detections
    {
      var primary := FindPrimaryStreamId(ctx, at);
      choice := primary;
      notes := [];
      match primary {
        case None =>
          if streamId in ctx.sourceStats {
            ctx.sourceStats := ctx.sourceStats[streamId := ctx.sourceStats[streamId].(primary := true, primarySinceAtNanos := at)];
          }
        case Some(id) =>
          if id != streamId {
            ctx.sequenceStats := ctx.sequenceStats.(multiSourceActive := ctx.sequenceStats.multiSourceActive + 1);
            notes := [Detection(ctx.systemId, streamId, at, SYSTEM_MULTI_SOURCE_ACTIVE, WARN, "primary=" + id)];
          }
      }
    }
  }
}
