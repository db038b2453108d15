// The manager that owns one context per system id: contexts are created on
// the first validated frame, invalid frames for unknown systems are ignored,
// and a sweep prunes stale streams and expired systems.

module ContextManagement {
  import opened Bytes
  import opened Frames
  import opened ContextTypes
  import opened SequenceProcessing
  import opened SystemContextModel
  import opened SystemContexts

  /** How many streams a context sweep drops. */
  function RemovedSources(sources: map<string, SourceStats>, now: int, sweep: SweepConfig): int
  {
    |sources| - |Retained(sources, now, sweep)|
  }

  /** A set of ids is empty or has a member. */
  lemma EmptyOrMember(ids: set<int>)
    ensures ids == {} || exists i :: i in ids
  {
    if forall i :: i !in ids {
      assert ids == {};
    }
  }

  /** Some element of a non-empty set. */
  ghost function Pick(ids: set<int>): (i: int)
    requires ids != {}
    ensures i in ids
  {
    EmptyOrMember(ids);
    var i :| i in ids; i
  }

  /** The sum of `counts` over `ids`, in no particular order. */
  ghost function SumOver(ids: set<int>, counts: map<int, int>): int
    requires ids <= counts.Keys
    decreases ids
  {
    if ids == {} then 0 else var i := Pick(ids); counts[i] + SumOver(ids - {i}, counts)
  }

  /** The sum can be taken starting from any element. */
  lemma {:induction false} SumOverRemove(ids: set<int>, counts: map<int, int>, j: int)
    requires ids <= counts.Keys && j in ids
    ensures SumOver(ids, counts) == counts[j] + SumOver(ids - {j}, counts)
    decreases ids
  {
    var i := Pick(ids);
    if i != j {
      SumOverRemove(ids - {i}, counts, j);
      SumOverRemove(ids - {j}, counts, i);
      assert ids - {i} - {j} == ids - {j} - {i};
    }
  }

  /** The sum of a sequence of counts. */
  function Sum(values: seq<int>): int
  {
    if |values| == 0 then 0 else Sum(values[..|values| - 1]) + values[|values| - 1]
  }

  lemma SumSnoc(values: seq<int>, i: nat)
    requires i < |values|
    ensures Sum(values[..i + 1]) == Sum(values[..i]) + values[i]
  {
    assert values[..i + 1][..i] == values[..i];
  }

  /**
   * Adding up the counts along any enumeration of a set gives the set's sum,
   * so the order a map yields its keys in does not matter. `pos` gives each
   * element's place, so no element appears twice.
   */
  lemma {:induction false} SumEnumeration(order: seq<int>, pos: map<int, int>, counts: map<int, int>, values: seq<int>)
    requires |values| == |order|
    requires forall j {:trigger order[j]} :: 0 <= j < |order| ==> order[j] in counts && order[j] in pos && pos[order[j]] == j
    requires forall j :: 0 <= j < |order| ==> values[j] == counts[order[j]]
    ensures Sum(values) == SumOver((set i | i in order), counts)
  {
    if |order| > 0 {
      var last := order[|order| - 1];
      var prefix := order[..|order| - 1];
      assert forall j :: 0 <= j < |prefix| ==> prefix[j] == order[j];
      SumEnumeration(prefix, pos, counts, values[..|values| - 1]);
      assert (set i | i in order) - {last} == set i | i in prefix;
      SumOverRemove((set i | i in order), counts, last);
    }
  }

  /** An enumeration that places every key lists exactly the keys. */
  lemma EnumeratedKeys(order: seq<int>, pos: map<int, int>, keys: set<int>)
    requires forall j {:trigger order[j]} :: 0 <= j < |order| ==> order[j] in keys
    requires forall k :: k in keys ==> k in pos && 0 <= pos[k] < |order| && order[pos[k]] == k
    ensures (set i | i in order) == keys
  {
    forall k | k in keys
      ensures k in order
    {
      assert order[pos[k]] == k;
    }
  }

  /**
   * The keys of a map in the order iterating over it yields them: each key
   * exactly once, in any order. `pos` gives each key's place.
   */
  method IterationOrder(keys: set<int>) returns (order: seq<int>, ghost pos: map<int, int>)
    ensures |order| == |keys|
    ensures forall j {:trigger order[j]} :: 0 <= j < |order| ==> order[j] in keys && order[j] in pos && pos[order[j]] == j
    ensures forall k :: k in keys ==> k in pos && 0 <= pos[k] < |order| && order[pos[k]] == k
  {
    order := [];
    pos := map[];
    var pending := keys;
    while pending != {}
      invariant pending <= keys
      invariant |order| + |pending| == |keys|
      invariant forall j {:trigger order[j]} :: 0 <= j < |order| ==> order[j] in keys && order[j] in pos && pos[order[j]] == j
      invariant forall k :: k in keys ==> (k in pos <==> k !in pending)
      invariant forall k :: k in pos ==> 0 <= pos[k] < |order| && order[pos[k]] == k
      decreases pending
    {
      EmptyOrMember(pending);
      var k :| k in pending;
      pos := pos[k := |order|];
      order := order + [k];
      pending := pending - {k};
    }
  }

  /** What a context sweep returns is the number of streams it dropped. */
  lemma SweptRemovedCount(sources: map<string, SourceStats>, now: int, sweep: SweepConfig, config: SequenceProcessorConfig)
    ensures |sources| - |SweptSources(sources, now, sweep, config)| == RemovedSources(sources, now, sweep)
  {
    var kept := Retained(sources, now, sweep);
    assert Demoted(kept).Keys == kept.Keys;
    assert |Demoted(kept)| == |Demoted(kept).Keys| == |kept.Keys| == |kept|;
  }

  class SystemContextManager {
    var systemContexts: map<int, SystemContext>
    const sequenceProcessor: SequenceProcessor
    const sequenceProcessorConfig: SequenceProcessorConfig
    const sweepConfig: SweepConfig
    /** Every context and its ring's slots. */
    ghost var Repr: set<object>
    /** The system id each context and each ring's slots belong to, so no two systems share one. */
    ghost var Owner: map<object, int>

    ghost predicate Valid()
      reads this
    {
      && sequenceProcessor.config == sequenceProcessorConfig
      && (forall id :: id in systemContexts ==> Owned(systemContexts[id], id))
    }

    /** A context of system `id` whose objects are in `Repr`, belong to `id` alone, and whose ring is well formed. */
    ghost predicate Owned(ctx: SystemContext, id: int)
      reads this`Repr, this`Owner
    {
      && ctx in Repr && ctx.sequenceRingBuffer.entries in Repr && ctx.Valid() && ctx.systemId == id
      && ctx in Owner && Owner[ctx] == id
      && ctx.sequenceRingBuffer.entries in Owner && Owner[ctx.sequenceRingBuffer.entries] == id
    }

    /** The state of the context for `id`, or the one `createContext` would build for it. */
    ghost function StateOrNew(id: int): (s: ContextState)
      requires Valid()
      reads this, Repr
      ensures WellFormed(s)
    {
      if id in systemContexts then systemContexts[id].State() else NewContextState(id)
    }

    /** How many streams a sweep at `now` would drop from each context. */
    ghost function RemovedCounts(now: int): (counts: map<int, int>)
      requires Valid()
      reads this, Repr
      ensures counts.Keys == systemContexts.Keys
    {
      map id | id in systemContexts :: RemovedSources(systemContexts[id].sourceStats, now, sweepConfig)
    }

    /** A manager with no contexts yet. */
    constructor (sequenceProcessorConfig: SequenceProcessorConfig, sweepConfig: SweepConfig)
      ensures Valid() && systemContexts == map[]
      ensures this.sequenceProcessorConfig == sequenceProcessorConfig && this.sweepConfig == sweepConfig
    {
      systemContexts := map[];
      this.sequenceProcessorConfig := sequenceProcessorConfig;
      sequenceProcessor := new SequenceProcessor(sequenceProcessorConfig);
      this.sweepConfig := sweepConfig;
      Repr := {};
      Owner := map[];
    }

    /** `createContext`: a fresh context for `systemId`. */
    method CreateContext(systemId: int) returns (ctx: SystemContext)
      ensures fresh(ctx) && fresh(ctx.sequenceRingBuffer) && fresh(ctx.sequenceRingBuffer.entries) && ctx.Valid()
      ensures ctx.State() == NewContextState(systemId)
    {
      ctx := new SystemContext(systemId);
    }

    /** `computeIfAbsent(systemId, createContext)`: the context for `systemId`, created and added if there is none. */
    method ContextFor(systemId: int) returns (ctx: SystemContext)
      requires Valid()
      modifies this
      ensures Valid() && fresh(Repr - old(Repr))
      ensures systemContexts == old(systemContexts)[systemId := ctx]
      ensures ctx in Repr && ctx.sequenceRingBuffer.entries in Repr
      ensures systemId in old(systemContexts) ==> ctx == old(systemContexts)[systemId]
      ensures ctx.State() == old(StateOrNew(systemId))
    {
      if systemId in systemContexts {
        ctx := systemContexts[systemId];
      } else {
        ctx := CreateContext(systemId);
        systemContexts := systemContexts[systemId := ctx];
        Repr := Repr + {ctx, ctx.sequenceRingBuffer.entries};
        Owner := Owner[ctx := systemId][ctx.sequenceRingBuffer.entries := systemId];
      }
    }

    /**
     * `onValidatedFrame`: the frame's system gets a context if it has none,
     * then that context handles the frame; no other context changes.
     */
    method OnValidatedFrame(frame: Frame, streamId: string, at: int) returns (detections: seq<Detection>, ghost choice: Option<string>)
      requires Valid()
      modifies this, Repr
      ensures Valid() && fresh(Repr - old(Repr))
      ensures systemContexts.Keys == old(systemContexts).Keys + {frame.systemId}
      ensures forall id :: id in old(systemContexts) && id != frame.systemId ==>
                systemContexts[id] == old(systemContexts)[id] && unchanged(systemContexts[id], systemContexts[id].sequenceRingBuffer.entries)
      ensures var before := old(StateOrNew(frame.systemId));
        && IsPrimaryChoice(SeenValid(before, streamId, at).sourceStats, at, sequenceProcessorConfig.multiSourceActiveWindowNanos, choice)
        && var p := ValidatedFrame(sequenceProcessorConfig, before, frame, streamId, at, choice);
        && systemContexts[frame.systemId].State() == p.state
        && detections == p.result.detections
    {
      var ctx := ContextFor(frame.systemId);
      detections, choice := ctx.OnValidatedFrame(frame, streamId, at, sequenceProcessor);
    }

    /** `onInvalidFrame`: an unknown system gets nothing and no context; a known one counts the invalid frame. */
    method OnInvalidFrame(systemId: int, streamId: string, at: int, reason: FrameFailureReason) returns (detections: seq<Detection>)
      requires Valid()
      modifies Repr
      ensures Valid() && unchanged(this)
      ensures forall id :: id in systemContexts && id != systemId ==> unchanged(systemContexts[id], systemContexts[id].sequenceRingBuffer.entries)
      ensures systemId !in systemContexts ==> detections == []
      ensures systemId in systemContexts ==>
        var r := InvalidFrame(old(systemContexts[systemId].State()), streamId, at, reason);
        systemContexts[systemId].State() == r.state && detections == r.detections
    {
      if systemId !in systemContexts {
        return [];
      }
      var ctx := systemContexts[systemId];
      detections := ctx.OnInvalidFrame(streamId, at, reason);
    }

    /**
     * `sweep`: every context drops its stale streams; an expired context is
     * then removed. Reports how many systems and streams were removed.
     */
    method Sweep(now: int) returns (result: SweepResult)
      requires Valid()
      modifies this`systemContexts, (set id | id in systemContexts :: systemContexts[id])`sourceStats
      ensures Valid()
      ensures forall id :: id in systemContexts <==>
                id in old(systemContexts) && now - old(systemContexts[id]).lastActivityAtNanos <= sweepConfig.systemTtlNanos
      ensures forall id :: id in systemContexts ==> systemContexts[id] == old(systemContexts[id])
      ensures forall id :: id in old(systemContexts) ==>
                old(systemContexts[id]).sourceStats == SweptSources(old(systemContexts[id].sourceStats), now, sweepConfig, sequenceProcessorConfig)
      ensures result.removedSystems == |old(systemContexts)| - |systemContexts|
      ensures result.removedSources == SumOver(old(systemContexts).Keys, old(RemovedCounts(now)))
    {
      ghost var contexts := systemContexts;
      var removedSystems, removedSources := SweepContexts(now);
      forall id | id in systemContexts
        ensures Owned(systemContexts[id], id)
      {
        assert systemContexts[id] == contexts[id];
      }
      result := SweepResult(removedSystems, removedSources);
    }

    /** The context-level work of `sweep`: the contexts' streams swept, the expired ones removed, and the two counts. */
    method SweepContexts(now: int) returns (removedSystems: int, removedSources: int)
      requires Valid()
      modifies this`systemContexts, (set id | id in systemContexts :: systemContexts[id])`sourceStats
      ensures forall id :: id in systemContexts <==>
                id in old(systemContexts) && now - old(systemContexts[id]).lastActivityAtNanos <= sweepConfig.systemTtlNanos
      ensures forall id :: id in systemContexts ==> systemContexts[id] == old(systemContexts[id])
      ensures forall id :: id in old(systemContexts) ==>
                old(systemContexts[id]).sourceStats == SweptSources(old(systemContexts[id].sourceStats), now, sweepConfig, sequenceProcessorConfig)
      ensures removedSystems == |old(systemContexts)| - |systemContexts|
      ensures removedSources == SumOver(old(systemContexts).Keys, old(RemovedCounts(now)))
    {
      ghost var contexts := systemContexts;
      ghost var counts := RemovedCounts(now);
      var order, pos := IterationOrder(systemContexts.Keys);
      ghost var objs, slot, stats, after, drops := Enumerate(now, order, pos, contexts, Owner);
      forall o | o in slot ensures o in set id | id in contexts :: contexts[id] {
        assert contexts[order[slot[o]]] == o;
      }
      removedSystems, removedSources := SweepInOrder(now, order, pos, objs, slot, stats, after, drops);
      forall id | id in contexts
        ensures id in systemContexts <==> now - contexts[id].lastActivityAtNanos <= sweepConfig.systemTtlNanos
        ensures contexts[id].sourceStats == SweptSources(old(contexts[id].sourceStats), now, sweepConfig, sequenceProcessorConfig)
      {
        var j := pos[id];
        assert order[j] == id;
      }
      SumEnumeration(order, pos, counts, drops);
      EnumeratedKeys(order, pos, contexts.Keys);
    }

    /**
     * The contexts along `order`, each with its place, its stream records,
     * what a sweep leaves of them and how many it drops.
     */
    ghost method Enumerate(now: int, order: seq<int>, pos: map<int, int>, contexts: map<int, SystemContext>, owner: map<object, int>)
      returns (objs: seq<SystemContext>, slot: map<SystemContext, int>, stats: seq<map<string, SourceStats>>,
               after: seq<map<string, SourceStats>>, drops: seq<int>)
      requires forall id :: id in contexts ==> contexts[id] in owner && owner[contexts[id]] == id
      requires forall j {:trigger order[j]} :: 0 <= j < |order| ==> order[j] in contexts && order[j] in pos && pos[order[j]] == j
      ensures |objs| == |order| && |stats| == |order| && |after| == |order| && |drops| == |order|
      ensures forall j {:trigger objs[j]} :: 0 <= j < |objs| ==> objs[j] in slot && slot[objs[j]] == j
      ensures forall o :: o in slot ==> 0 <= slot[o] < |objs| && objs[slot[o]] == o
      ensures forall j :: 0 <= j < |order| ==> contexts[order[j]] == objs[j] && stats[j] == objs[j].sourceStats
      ensures forall j {:trigger SweptSources(stats[j], now, sweepConfig, sequenceProcessorConfig)} ::
                0 <= j < |order| ==> after[j] == SweptSources(stats[j], now, sweepConfig, sequenceProcessorConfig)
      ensures forall j {:trigger RemovedSources(stats[j], now, sweepConfig)} ::
                0 <= j < |order| ==> drops[j] == RemovedSources(stats[j], now, sweepConfig)
    {
      objs := seq(|order|, j requires 0 <= j < |order| => contexts[order[j]]);
      assert forall a, b :: 0 <= a < |objs| && 0 <= b < |objs| && objs[a] == objs[b] ==> order[a] == order[b];
      slot := map j | 0 <= j < |objs| :: objs[j] := j;
      var current := map id | id in contexts :: contexts[id].sourceStats;
      stats := seq(|order|, j requires 0 <= j < |order| => current[order[j]]);
      after := seq(|order|, j requires 0 <= j < |order| => SweptSources(stats[j], now, sweepConfig, sequenceProcessorConfig));
      drops := seq(|order|, j requires 0 <= j < |order| => RemovedSources(stats[j], now, sweepConfig));
    }

    /**
     * The loop of `sweep`: the context `objs[j]` of each id `order[j]` is
     * swept, and removed if it has expired. `stats[j]` holds its stream
     * records before, `after[j]` what a sweep leaves of them and `drops[j]`
     * how many a sweep removes; `pos` and `slot` give each id's and each
     * context's place.
     */
    method SweepInOrder(now: int, order: seq<int>, ghost pos: map<int, int>,
                        ghost objs: seq<SystemContext>, ghost slot: map<SystemContext, int>, ghost stats: seq<map<string, SourceStats>>,
                        ghost after: seq<map<string, SourceStats>>, ghost drops: seq<int>)
      returns (removedSystems: int, removedSources: int)
      requires |objs| == |order| && |stats| == |order| && |after| == |order| && |drops| == |order|
      requires forall j {:trigger order[j]} :: 0 <= j < |order| ==> order[j] in systemContexts && order[j] in pos && pos[order[j]] == j
      requires forall j {:trigger objs[j]} :: 0 <= j < |objs| ==> objs[j] in slot && slot[objs[j]] == j
      requires forall j :: 0 <= j < |order| ==> systemContexts[order[j]] == objs[j] && stats[j] == objs[j].sourceStats
      requires forall j {:trigger SweptSources(stats[j], now, sweepConfig, sequenceProcessorConfig)} ::
                 0 <= j < |order| ==> after[j] == SweptSources(stats[j], now, sweepConfig, sequenceProcessorConfig)
      requires forall j {:trigger RemovedSources(stats[j], now, sweepConfig)} ::
                 0 <= j < |order| ==> drops[j] == RemovedSources(stats[j], now, sweepConfig)
      modifies this`systemContexts, slot.Keys`sourceStats
      ensures systemContexts.Keys <= old(systemContexts).Keys
      ensures forall id :: id in systemContexts ==> systemContexts[id] == old(systemContexts)[id]
      ensures forall j :: 0 <= j < |order| ==> (order[j] in systemContexts <==> now - objs[j].lastActivityAtNanos <= sweepConfig.systemTtlNanos)
      ensures forall j :: 0 <= j < |order| ==> objs[j].sourceStats == after[j]
      ensures removedSystems == |old(systemContexts)| - |systemContexts|
      ensures removedSources == Sum(drops)
    {
      removedSources := 0;
      removedSystems := 0;
      var i := 0;
      while i < |order|
        modifies this`systemContexts, slot.Keys`sourceStats
        invariant 0 <= i <= |order|
        invariant systemContexts.Keys <= old(systemContexts).Keys
        invariant forall id :: id in systemContexts ==> systemContexts[id] == old(systemContexts)[id]
        invariant forall j :: 0 <= j < i ==>
                    (order[j] in systemContexts <==> now - objs[j].lastActivityAtNanos <= sweepConfig.systemTtlNanos)
        invariant forall j :: i <= j < |order| ==> order[j] in systemContexts
        invariant forall j :: 0 <= j < i ==> objs[j].sourceStats == after[j]
        invariant forall j :: i <= j < |order| ==> objs[j].sourceStats == stats[j]
        invariant removedSystems == |old(systemContexts)| - |systemContexts|
        invariant removedSources == Sum(drops[..i])
      {
        var count, expired := SweepAt(now, order[i], objs[i], after[i], drops[i]);
        SumSnoc(drops, i);
        removedSources := removedSources + count;
        if expired {
          removedSystems := removedSystems + 1;
        }
        i := i + 1;
      }
      assert drops[..i] == drops;
    }

    /**
     * One turn of the sweep loop: sweep the streams of the context kept under `id` and drop the
     * context from the map when it has expired. `swept` and `dropped` are the expected outcome.
     */
    method SweepAt(now: int, id: int, ghost ctx: SystemContext, ghost swept: map<string, SourceStats>, ghost dropped: int)
      returns (removed: int, expired: bool)
      requires id in systemContexts && systemContexts[id] == ctx
      requires swept == SweptSources(ctx.sourceStats, now, sweepConfig, sequenceProcessorConfig)
      requires dropped == RemovedSources(ctx.sourceStats, now, sweepConfig)
      modifies this`systemContexts, ctx`sourceStats
      ensures ctx.sourceStats == swept && removed == dropped
      ensures expired == (now - ctx.lastActivityAtNanos > sweepConfig.systemTtlNanos)
      ensures systemContexts == if expired then old(systemContexts) - {id} else old(systemContexts)
      ensures |systemContexts| == |old(systemContexts)| - if expired then 1 else 0
    {
      var context := systemContexts[id];
      removed := context.Sweep(now, sweepConfig, sequenceProcessorConfig);
      SweptRemovedCount(old(ctx.sourceStats), now, sweepConfig, sequenceProcessorConfig);
      expired := context.IsExpired(now, sweepConfig);
      if expired {
        assert (systemContexts - {id}).Keys == systemContexts.Keys - {id};
        systemContexts := systemContexts - {id};
      }
    }

    /** `snapshotAll`: one snapshot per context, in the order the map yields them. */
    method SnapshotAll() returns (snapshots: seq<SystemContextSnapshot>, ghost order: seq<int>)
      requires Valid()
      ensures |order| == |snapshots| == |systemContexts|
      ensures forall i, j :: 0 <= i < j < |order| ==> order[i] != order[j]
      ensures forall id :: id in systemContexts <==> id in order
      ensures forall i :: 0 <= i < |order| ==> order[i] in systemContexts && snapshots[i] == SnapshotOf(systemContexts[order[i]].State())
    {
      var ids, pos := IterationOrder(systemContexts.Keys);
      order := ids;
      snapshots := [];
      var i := 0;
      while i < |ids|
        invariant 0 <= i <= |ids| && |snapshots| == i
        invariant forall j :: 0 <= j < i ==> snapshots[j] == SnapshotOf(systemContexts[ids[j]].State())
      {
        var snapshot := systemContexts[ids[i]].Snapshot();
        snapshots := snapshots + [snapshot];
        i := i + 1;
      }
    }
  }
}
