// The per-system sequence state machine, as functions on a value snapshot
// of a system context. `process` first classifies the frame's sequence
// number against the ring and the accepted head, then every path writes
// the ring slot and runs primary-stream arbitration.

module SequenceProcessing {
  import opened Bytes
  import opened Frames
  import opened ContextTypes
  import opened SequenceRing
  import FrameFingerprint

  /** Everything a system context holds, as a value. */
  datatype ContextState = ContextState(
    systemId: int,
    initialized: bool,
    lastAcceptedSequence: int,
    lastAcceptedAtNanos: int,
    lastActivityAtNanos: int,
    ring: seq<Option<SequenceRingEntry>>,
    sourceStats: map<string, SourceStats>,
    sequenceStats: SequenceStats)

  predicate WellFormed(s: ContextState)
  {
    |s.ring| == RING_SIZE
  }

  /** What the sequence analysis decided, before the ring write and the arbitration. */
  datatype Classification = Classification(state: ContextState, detections: seq<Detection>, acceptedAsHead: bool)

  /** The state after arbitration and the detections it raised. */
  datatype Arbitration = Arbitration(state: ContextState, detections: seq<Detection>)

  datatype Processed = Processed(state: ContextState, result: SequenceProcessingResult)

  /** `age >= 0 && age <= window`. */
  predicate Within(age: int, window: int)
  {
    0 <= age <= window
  }

  /** The fingerprint as the ring stores it. */
  function FingerprintOf(frame: Frame): int
  {
    FrameFingerprint.Fingerprint(frame)
  }

  /** A detection for this system and stream at this time. */
  function Note(s: ContextState, streamId: string, at: int, kind: DetectionType, severity: DetectionSeverity, details: string): Detection
  {
    Detection(s.systemId, streamId, at, kind, severity, details)
  }

  /** `sequence & 0xFF` of the frame. */
  function SequenceOf(frame: Frame): nat
  {
    SlotOf(frame.sequence)
  }

  /** `(sequence - (head & 0xFF)) & 0xFF`: how far ahead of the head a sequence number is, modulo 256. */
  function Delta(sequence: int, head: int): (d: int)
    ensures 0 <= d < RING_SIZE
  {
    SlotOf(sequence - SlotOf(head))
  }

  /** The ring slot holds an entry seen within the duplicate window. */
  predicate RingHit(config: SequenceProcessorConfig, s: ContextState, sequence: int, at: int)
    requires WellFormed(s)
  {
    var previous := Lookup(s.ring, sequence);
    previous.Some? && Within(at - previous.value.lastSeenAtNanos, config.duplicateTimeWindowNanos)
  }

  /** `setLastAcceptedSequenceForSource`: only a stream that already has stats is updated. */
  function LastAcceptedForSource(sources: map<string, SourceStats>, streamId: string, sequence: int): (r: map<string, SourceStats>)
    ensures r.Keys == sources.Keys
  {
    if streamId in sources then sources[streamId := sources[streamId].(lastAcceptedSequenceFromSource := Some(sequence))]
    else sources
  }

  /** The head moves to `sequence`, seen at `at`. */
  function Accepted(s: ContextState, streamId: string, sequence: int, at: int): ContextState
  {
    s.(lastAcceptedSequence := sequence, lastAcceptedAtNanos := at,
       sourceStats := LastAcceptedForSource(s.sourceStats, streamId, sequence))
  }

  /** `looksLikeReset`: the head was mid-range, the new number is low, and the stream was silent for a while. */
  predicate LooksLikeReset(config: SequenceProcessorConfig, s: ContextState, sequence: int, at: int)
  {
    var head := SlotOf(s.lastAcceptedSequence);
    50 <= head <= 200 && sequence <= 10 && at - s.lastAcceptedAtNanos > config.multiSourceActiveWindowNanos
  }

  /** `incrementDuplicate`. */
  function DuplicateCounted(s: ContextState, streamId: string, at: int, sequence: nat): (c: Classification)
    ensures ClassifiedFrom(s, c, streamId, sequence, at)
  {
    Classification(s.(sequenceStats := s.sequenceStats.(duplicates := s.sequenceStats.duplicates + 1)),
                   [Note(s, streamId, at, SEQ_DUPLICATE, INFO, "seq=" + Decimal(sequence))], false)
  }

  /** The branch of a backward jump that is not a benign reorder. */
  function BackwardJump(config: SequenceProcessorConfig, s: ContextState, streamId: string, at: int, sequence: nat, back: nat): (c: Classification)
    ensures ClassifiedFrom(s, c, streamId, sequence, at)
  {
    var severity := if back >= config.suspiciousBackwardDistance then ALERT else WARN;
    var suspicious := s.sequenceStats.(suspiciousBackwards := s.sequenceStats.suspiciousBackwards + 1);
    var note := Note(s, streamId, at, SEQ_SUSPICIOUS_BACKWARDS, severity, "back=" + Decimal(back));
    if LooksLikeReset(config, s, sequence, at) then
      var head := SlotOf(s.lastAcceptedSequence);
      Classification(s.(sequenceStats := suspicious.(resetsSuspected := suspicious.resetsSuspected + 1)),
                     [note, Note(s, streamId, at, SEQ_RESET_SUSPECTED, WARN, "head=" + Decimal(head) + " seq=" + Decimal(sequence))],
                     false)
    else
      Classification(s.(sequenceStats := suspicious), [note], false)
  }

  /** The sequence analysis of `process`: every branch up to the ring write. */
  function Classify(config: SequenceProcessorConfig, s: ContextState, frame: Frame, streamId: string, at: int): (c: Classification)
    requires WellFormed(s)
    ensures Untouched(s, c.state, streamId) && CountersGrow(s.sequenceStats, c.state.sequenceStats)
    ensures c.acceptedAsHead ==> c.state.initialized && c.state.lastAcceptedSequence == SequenceOf(frame) && c.state.lastAcceptedAtNanos == at
    ensures !c.acceptedAsHead ==> HeadKept(s, c.state)
    ensures SamePrimaries(s.sourceStats, c.state.sourceStats)
  {
    var sequence := SequenceOf(frame);
    if RingHit(config, s, sequence, at) then
      var previous := Lookup(s.ring, sequence).value;
      if previous.fingerprint == FingerprintOf(frame) then
        DuplicateCounted(s, streamId, at, sequence)
      else
        Classification(s, [Note(s, streamId, at, SEQ_SAME_SEQ_DIFFERENT_FINGERPRINT, ALERT,
                                "seq=" + Decimal(sequence) + " previousStream=" + previous.streamId)], false)
    else if !s.initialized then
      Classification(Accepted(s.(initialized := true), streamId, sequence, at), [], true)
    else
      ClassifyAgainstHead(config, s, streamId, at, sequence)
  }

  /** The analysis of an initialized context against its head, by the distance `Delta` from head to frame. */
  function ClassifyAgainstHead(config: SequenceProcessorConfig, s: ContextState, streamId: string, at: int, sequence: nat): (c: Classification)
    ensures ClassifiedFrom(s, c, streamId, sequence, at)
  {
    var delta := Delta(sequence, s.lastAcceptedSequence);
    if delta == 0 then
      DuplicateCounted(s, streamId, at, sequence)
    else if delta <= 127 then
      Advanced(s, streamId, at, sequence, delta)
    else
      var back := RING_SIZE - delta;
      if back <= config.reorderDistanceWindow && Within(at - s.lastAcceptedAtNanos, config.reorderTimeWindowNanos) then
        ReorderCounted(s, streamId, at, back)
      else
        BackwardJump(config, s, streamId, at, sequence, back)
  }

  /** A forward step of `delta`: the frame becomes the head, after `incrementGap` when numbers were skipped. */
  function Advanced(s: ContextState, streamId: string, at: int, sequence: nat, delta: nat): (c: Classification)
    ensures ClassifiedFrom(s, c, streamId, sequence, at)
  {
    if delta > 1 then
      var lost := delta - 1;
      var counted := s.sequenceStats.(gaps := s.sequenceStats.gaps + 1, lostPackets := s.sequenceStats.lostPackets + lost);
      Classification(Accepted(s.(sequenceStats := counted), streamId, sequence, at),
                     [Note(s, streamId, at, SEQ_GAP, WARN, "lost=" + Decimal(lost))], true)
    else
      Classification(Accepted(s, streamId, sequence, at), [], true)
  }

  /** `incrementReorder`. */
  function ReorderCounted(s: ContextState, streamId: string, at: int, back: nat): (c: Classification)
    ensures ClassifiedFrom(s, c, streamId, s.lastAcceptedSequence, at)
  {
    Classification(s.(sequenceStats := s.sequenceStats.(reorders := s.sequenceStats.reorders + 1)),
                   [Note(s, streamId, at, SEQ_REORDER, INFO, "back=" + Decimal(back))], false)
  }

  /** A stream that is primary and was seen within the active window (age not negative). */
  predicate ActivePrimary(stats: SourceStats, at: int, window: int)
  {
    stats.primary && Within(at - stats.lastSeenAtNanos, window)
  }

  /**
   * What `findPrimaryStreamId` may return: nothing exactly when no stream is
   * an active primary, otherwise the id of one that is (the map's iteration
   * order decides which).
   */
  predicate IsPrimaryChoice(sources: map<string, SourceStats>, at: int, window: int, choice: Option<string>)
  {
    match choice
    case None => forall k :: k in sources ==> !ActivePrimary(sources[k], at, window)
    case Some(id) => exists k :: k in sources && ActivePrimary(sources[k], at, window) && sources[k].streamId == id
  }

  /** The same streams, each with the same id, last-seen time and primary flag. */
  predicate SamePrimaries(before: map<string, SourceStats>, after: map<string, SourceStats>)
  {
    before.Keys == after.Keys
    && forall k :: k in before ==>
         after[k].primary == before[k].primary && after[k].lastSeenAtNanos == before[k].lastSeenAtNanos
         && after[k].streamId == before[k].streamId
  }

  /** The primary lookup depends only on each stream's id, last-seen time and primary flag. */
  lemma PrimaryChoiceStable(before: map<string, SourceStats>, after: map<string, SourceStats>, at: int, window: int, choice: Option<string>)
    requires SamePrimaries(before, after)
    ensures IsPrimaryChoice(before, at, window, choice) <==> IsPrimaryChoice(after, at, window, choice)
  {
    if choice.Some? {
      if IsPrimaryChoice(before, at, window, choice) {
        var k :| k in before && ActivePrimary(before[k], at, window) && before[k].streamId == choice.value;
        assert k in after && ActivePrimary(after[k], at, window) && after[k].streamId == choice.value;
      }
      if IsPrimaryChoice(after, at, window, choice) {
        var k :| k in after && ActivePrimary(after[k], at, window) && after[k].streamId == choice.value;
        assert k in before && ActivePrimary(before[k], at, window) && before[k].streamId == choice.value;
      }
    }
  }

  /** `markPrimary`: only a stream that already has stats is marked. */
  function MarkedPrimary(sources: map<string, SourceStats>, streamId: string, at: int): (r: map<string, SourceStats>)
    ensures r.Keys == sources.Keys
  {
    if streamId in sources then sources[streamId := sources[streamId].(primary := true, primarySinceAtNanos := at)]
    else sources
  }

  /** `detectMultiSourceActive`, given what `findPrimaryStreamId` returned. */
  function Arbitrate(s: ContextState, streamId: string, at: int, choice: Option<string>): (a: Arbitration)
    ensures Untouched(s, a.state, streamId) && HeadKept(s, a.state) && CountersGrow(s.sequenceStats, a.state.sequenceStats)
    ensures |a.detections| <= 1
  {
    match choice
    case None => Arbitration(s.(sourceStats := MarkedPrimary(s.sourceStats, streamId, at)), [])
    case Some(primary) =>
      if primary == streamId then Arbitration(s, [])
      else Arbitration(s.(sequenceStats := s.sequenceStats.(multiSourceActive := s.sequenceStats.multiSourceActive + 1)),
                       [Note(s, streamId, at, SYSTEM_MULTI_SOURCE_ACTIVE, WARN, "primary=" + primary)])
  }

  /** The entry `updateRing` writes. */
  function RingEntryFor(frame: Frame, streamId: string, at: int): SequenceRingEntry
  {
    SequenceRingEntry(SequenceOf(frame), FingerprintOf(frame), streamId, at)
  }

  /** `process`: classify, write the ring slot, arbitrate. */
  function ProcessFrame(config: SequenceProcessorConfig, s: ContextState, frame: Frame, streamId: string, at: int, choice: Option<string>): (p: Processed)
    requires WellFormed(s)
    // every path writes the frame's ring slot and no other
    ensures p.state.ring == Stored(s.ring, SequenceOf(frame), RingEntryFor(frame, streamId, at))
    ensures WellFormed(p.state)
    ensures p.state.systemId == s.systemId && p.state.lastActivityAtNanos == s.lastActivityAtNanos
    ensures StreamsKept(s.sourceStats, p.state.sourceStats, streamId)
    ensures CountersGrow(s.sequenceStats, p.state.sequenceStats)
    ensures p.result.sequence == SequenceOf(frame)
    // the head moves exactly when the frame is accepted as head, and then to the frame's number
    ensures p.result.acceptedAsHead ==> p.state.initialized && p.state.lastAcceptedSequence == SequenceOf(frame) && p.state.lastAcceptedAtNanos == at
    ensures !p.result.acceptedAsHead ==> HeadKept(s, p.state)
  {
    var c := Classify(config, s, frame, streamId, at);
    var ringed := c.state.(ring := Stored(c.state.ring, SequenceOf(frame), RingEntryFor(frame, streamId, at)));
    var a := Arbitrate(ringed, streamId, at, choice);
    Processed(a.state, SequenceProcessingResult(c.acceptedAsHead, SequenceOf(frame), c.detections + a.detections))
  }

  /**
   * What every branch of the analysis keeps: `Untouched`, growing counters,
   * the same primaries and initialization, and a head that moves to the
   * frame exactly when the frame is accepted.
   */
  predicate ClassifiedFrom(s: ContextState, c: Classification, streamId: string, sequence: int, at: int)
  {
    && Untouched(s, c.state, streamId) && CountersGrow(s.sequenceStats, c.state.sequenceStats)
    && SamePrimaries(s.sourceStats, c.state.sourceStats) && c.state.initialized == s.initialized
    && (c.acceptedAsHead ==> c.state.lastAcceptedSequence == sequence && c.state.lastAcceptedAtNanos == at)
    && (!c.acceptedAsHead ==> HeadKept(s, c.state))
  }

  /** The counters only ever grow. */
  predicate CountersGrow(before: SequenceStats, after: SequenceStats)
  {
    before.duplicates <= after.duplicates && before.reorders <= after.reorders
    && before.gaps <= after.gaps && before.lostPackets <= after.lostPackets
    && before.suspiciousBackwards <= after.suspiciousBackwards
    && before.resetsSuspected <= after.resetsSuspected
    && before.invalidFrames <= after.invalidFrames && before.multiSourceActive <= after.multiSourceActive
  }

  /** The system id, last activity and ring are the same, and the stream records change only as `StreamsKept` allows. */
  predicate Untouched(before: ContextState, after: ContextState, streamId: string)
  {
    after.systemId == before.systemId && after.lastActivityAtNanos == before.lastActivityAtNanos
    && after.ring == before.ring && StreamsKept(before.sourceStats, after.sourceStats, streamId)
  }

  /**
   * No stream is added or dropped, the records of other streams are
   * unchanged, and the frame's own stream keeps its id, last-seen time and
   * packet counts (processing only sets its primary flag and last accepted number).
   */
  predicate StreamsKept(before: map<string, SourceStats>, after: map<string, SourceStats>, streamId: string)
  {
    && before.Keys == after.Keys
    && (forall k :: k in before && k != streamId ==> after[k] == before[k])
    && (streamId in before ==>
          after[streamId].streamId == before[streamId].streamId
          && after[streamId].lastSeenAtNanos == before[streamId].lastSeenAtNanos
          && after[streamId].packetCount == before[streamId].packetCount
          && after[streamId].invalidPacketCount == before[streamId].invalidPacketCount)
  }

  /** The head and initialization are untouched. */
  predicate HeadKept(before: ContextState, after: ContextState)
  {
    after.initialized == before.initialized && after.lastAcceptedSequence == before.lastAcceptedSequence
    && after.lastAcceptedAtNanos == before.lastAcceptedAtNanos
  }

  /** A frame whose slot holds a recent entry with the same fingerprint is one duplicate: counted, reported at INFO, head unchanged. */
  lemma DuplicateInWindow(config: SequenceProcessorConfig, s: ContextState, frame: Frame, streamId: string, at: int)
    requires WellFormed(s) && RingHit(config, s, SequenceOf(frame), at)
    requires Lookup(s.ring, SequenceOf(frame)).value.fingerprint == FingerprintOf(frame)
    ensures var c := Classify(config, s, frame, streamId, at);
      && c.detections == [Detection(s.systemId, streamId, at, SEQ_DUPLICATE, INFO, "seq=" + Decimal(SequenceOf(frame)))]
      && c.state == s.(sequenceStats := s.sequenceStats.(duplicates := s.sequenceStats.duplicates + 1))
      && !c.acceptedAsHead
  {
  }

  /** A recent entry with another fingerprint is an ALERT naming the earlier stream; no counter changes. */
  lemma ConflictingFingerprintInWindow(config: SequenceProcessorConfig, s: ContextState, frame: Frame, streamId: string, at: int)
    requires WellFormed(s) && RingHit(config, s, SequenceOf(frame), at)
    requires Lookup(s.ring, SequenceOf(frame)).value.fingerprint != FingerprintOf(frame)
    ensures var c := Classify(config, s, frame, streamId, at);
      && |c.detections| == 1
      && c.detections[0].detectionType == SEQ_SAME_SEQ_DIFFERENT_FINGERPRINT && c.detections[0].severity == ALERT
      && c.detections[0].details == "seq=" + Decimal(SequenceOf(frame)) + " previousStream=" + Lookup(s.ring, SequenceOf(frame)).value.streamId
      && c.state == s && !c.acceptedAsHead
  {
  }

  /** The first frame outside the duplicate window initializes the context and becomes the head, silently. */
  lemma FirstFrameBecomesHead(config: SequenceProcessorConfig, s: ContextState, frame: Frame, streamId: string, at: int)
    requires WellFormed(s) && !RingHit(config, s, SequenceOf(frame), at) && !s.initialized
    ensures var c := Classify(config, s, frame, streamId, at);
      && c.detections == [] && c.acceptedAsHead
      && c.state.initialized && c.state.lastAcceptedSequence == SequenceOf(frame) && c.state.lastAcceptedAtNanos == at
      && c.state.sequenceStats == s.sequenceStats
  {
  }

  /** A number equal to the head modulo 256 is a duplicate even outside the duplicate window. */
  lemma RepeatedHeadIsDuplicate(config: SequenceProcessorConfig, s: ContextState, frame: Frame, streamId: string, at: int)
    requires WellFormed(s) && !RingHit(config, s, SequenceOf(frame), at) && s.initialized
    requires (frame.sequence - s.lastAcceptedSequence) % RING_SIZE == 0
    ensures var c := Classify(config, s, frame, streamId, at);
      && c.detections == [Detection(s.systemId, streamId, at, SEQ_DUPLICATE, INFO, "seq=" + Decimal(SequenceOf(frame)))]
      && c.state.sequenceStats.duplicates == s.sequenceStats.duplicates + 1
      && HeadKept(s, c.state) && !c.acceptedAsHead
  {
    SameSlotIffCongruent(frame.sequence, s.lastAcceptedSequence);
    assert Delta(SequenceOf(frame), s.lastAcceptedSequence) == 0;
  }

  /**
   * A number 1 to 127 ahead of the head becomes the head; when it skips
   * numbers, one WARN gap reports how many, and the lost count plus one is
   * the distance the head moved (modulo 256).
   */
  lemma ForwardJumpMovesHead(config: SequenceProcessorConfig, s: ContextState, frame: Frame, streamId: string, at: int)
    requires WellFormed(s) && !RingHit(config, s, SequenceOf(frame), at) && s.initialized
    requires 1 <= Delta(SequenceOf(frame), s.lastAcceptedSequence) <= 127
    ensures var c := Classify(config, s, frame, streamId, at);
      var lost := Delta(SequenceOf(frame), s.lastAcceptedSequence) - 1;
      && c.acceptedAsHead && c.state.initialized
      && c.state.lastAcceptedSequence == SequenceOf(frame) && c.state.lastAcceptedAtNanos == at
      && (s.lastAcceptedSequence + lost + 1 - c.state.lastAcceptedSequence) % RING_SIZE == 0
      && c.state.sequenceStats.lostPackets == s.sequenceStats.lostPackets + lost
      && c.state.sequenceStats.gaps == s.sequenceStats.gaps + (if lost > 0 then 1 else 0)
      && c.detections == (if lost > 0 then [Detection(s.systemId, streamId, at, SEQ_GAP, WARN, "lost=" + Decimal(lost))] else [])
  {
    var sequence := SequenceOf(frame);
    var head := SlotOf(s.lastAcceptedSequence);
    var delta := Delta(sequence, s.lastAcceptedSequence);
    // delta == (sequence - head) % 256 with both in [0, 256), so sequence == head + delta or head + delta - 256.
    assert sequence - head == delta || sequence - head == delta - RING_SIZE;
    assert (s.lastAcceptedSequence - head) % RING_SIZE == 0;
  }

  /** A small, recent backward step is a reorder: counted at INFO, head unchanged. */
  lemma SmallRecentBackwardStepIsReorder(config: SequenceProcessorConfig, s: ContextState, frame: Frame, streamId: string, at: int)
    requires WellFormed(s) && !RingHit(config, s, SequenceOf(frame), at) && s.initialized
    requires Delta(SequenceOf(frame), s.lastAcceptedSequence) >= 128
    requires RING_SIZE - Delta(SequenceOf(frame), s.lastAcceptedSequence) <= config.reorderDistanceWindow
    requires Within(at - s.lastAcceptedAtNanos, config.reorderTimeWindowNanos)
    ensures var c := Classify(config, s, frame, streamId, at);
      var back := RING_SIZE - Delta(SequenceOf(frame), s.lastAcceptedSequence);
      && c.detections == [Detection(s.systemId, streamId, at, SEQ_REORDER, INFO, "back=" + Decimal(back))]
      && c.state == s.(sequenceStats := s.sequenceStats.(reorders := s.sequenceStats.reorders + 1))
      && !c.acceptedAsHead
  {
  }

  /**
   * Any other backward step is suspicious: ALERT exactly when it reaches the
   * configured distance, followed by a reset suspicion exactly when the head
   * was mid-range, the new number is low and the stream was silent.
   */
  lemma OtherBackwardStepIsSuspicious(config: SequenceProcessorConfig, s: ContextState, frame: Frame, streamId: string, at: int)
    requires WellFormed(s) && !RingHit(config, s, SequenceOf(frame), at) && s.initialized
    requires Delta(SequenceOf(frame), s.lastAcceptedSequence) >= 128
    requires !(RING_SIZE - Delta(SequenceOf(frame), s.lastAcceptedSequence) <= config.reorderDistanceWindow
               && Within(at - s.lastAcceptedAtNanos, config.reorderTimeWindowNanos))
    ensures var c := Classify(config, s, frame, streamId, at);
      var back := RING_SIZE - Delta(SequenceOf(frame), s.lastAcceptedSequence);
      var head := SlotOf(s.lastAcceptedSequence);
      var reset := 50 <= head <= 200 && SequenceOf(frame) <= 10 && at - s.lastAcceptedAtNanos > config.multiSourceActiveWindowNanos;
      && |c.detections| == (if reset then 2 else 1)
      && c.detections[0].detectionType == SEQ_SUSPICIOUS_BACKWARDS
      && (c.detections[0].severity == ALERT <==> back >= config.suspiciousBackwardDistance)
      && (c.detections[0].severity == WARN <==> back < config.suspiciousBackwardDistance)
      && c.detections[0].details == "back=" + Decimal(back)
      && (reset ==> c.detections[1] == Detection(s.systemId, streamId, at, SEQ_RESET_SUSPECTED, WARN,
                                                  "head=" + Decimal(head) + " seq=" + Decimal(SequenceOf(frame))))
      && c.state.sequenceStats.suspiciousBackwards == s.sequenceStats.suspiciousBackwards + 1
      && c.state.sequenceStats.resetsSuspected == s.sequenceStats.resetsSuspected + (if reset then 1 else 0)
      && HeadKept(s, c.state) && !c.acceptedAsHead
  {
  }

  /** With no active primary, the frame's stream (when known) becomes primary from now, and arbitration reports nothing. */
  lemma NoActivePrimaryMarksStream(config: SequenceProcessorConfig, s: ContextState, frame: Frame, streamId: string, at: int)
    requires WellFormed(s) && streamId in s.sourceStats
    ensures var p := ProcessFrame(config, s, frame, streamId, at, None);
      && p.state.sourceStats[streamId].primary && p.state.sourceStats[streamId].primarySinceAtNanos == at
      && p.result.detections == Classify(config, s, frame, streamId, at).detections
  {
  }

  /** While another stream is the active primary, every frame adds one WARN multi-source detection last. */
  lemma SecondSourceFlagged(config: SequenceProcessorConfig, s: ContextState, frame: Frame, streamId: string, at: int, primary: string)
    requires WellFormed(s) && primary != streamId
    ensures var p := ProcessFrame(config, s, frame, streamId, at, Some(primary));
      var c := Classify(config, s, frame, streamId, at);
      && p.result.detections == c.detections + [Detection(s.systemId, streamId, at, SYSTEM_MULTI_SOURCE_ACTIVE, WARN, "primary=" + primary)]
      && p.state.sequenceStats.multiSourceActive == c.state.sequenceStats.multiSourceActive + 1
      && p.state.sourceStats == c.state.sourceStats
  {
  }

  /** Frames from the active primary itself never raise a multi-source detection. */
  lemma PrimaryStreamNotFlagged(config: SequenceProcessorConfig, s: ContextState, frame: Frame, streamId: string, at: int)
    requires WellFormed(s)
    ensures var p := ProcessFrame(config, s, frame, streamId, at, Some(streamId));
      var c := Classify(config, s, frame, streamId, at);
      p.result.detections == c.detections && p.state == c.state.(ring := p.state.ring)
  {
  }

  /** The same frame processed again within the duplicate window, from any stream, is reported as a duplicate. */
  lemma ImmediateRepeatIsDuplicate(config: SequenceProcessorConfig, s: ContextState, frame: Frame, streamId: string, at: int,
                                   choice: Option<string>, streamId2: string, at2: int)
    requires WellFormed(s) && Within(at2 - at, config.duplicateTimeWindowNanos)
    ensures var p := ProcessFrame(config, s, frame, streamId, at, choice);
      Classify(config, p.state, frame, streamId2, at2).detections
        == [Detection(s.systemId, streamId2, at2, SEQ_DUPLICATE, INFO, "seq=" + Decimal(SequenceOf(frame)))]
  {
    var p := ProcessFrame(config, s, frame, streamId, at, choice);
    LookupAfterStore(s.ring, SequenceOf(frame), RingEntryFor(frame, streamId, at), SequenceOf(frame));
    assert Lookup(p.state.ring, SequenceOf(frame)) == Some(RingEntryFor(frame, streamId, at));
    DuplicateInWindow(config, p.state, frame, streamId2, at2);
  }
}
