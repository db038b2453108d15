// The 256-slot ring that remembers, per sequence number, the last frame seen
// with it. A Java null slot is `None`.

module SequenceRing {
  import opened Bytes
  import opened ContextTypes

  const RING_SIZE: int := 256

  /** `sequence & 0xFF`: the slot of a sequence number (Java's mask of an int equals Euclidean `% 256`). */
  function SlotOf(sequence: int): (r: int)
    ensures 0 <= r < RING_SIZE
    ensures (sequence - r) % RING_SIZE == 0
  {
    sequence % RING_SIZE
  }

  /** The slots after `put(sequence, entry)`, as a value. */
  function Stored(slots: seq<Option<SequenceRingEntry>>, sequence: int, entry: SequenceRingEntry): (r: seq<Option<SequenceRingEntry>>)
    requires |slots| == RING_SIZE
    ensures |r| == RING_SIZE
  {
    slots[SlotOf(sequence) := Some(entry)]
  }

  /** `get(sequence)` on a value. */
  function Lookup(slots: seq<Option<SequenceRingEntry>>, sequence: int): Option<SequenceRingEntry>
    requires |slots| == RING_SIZE
  {
    slots[SlotOf(sequence)]
  }

  /** Two sequence numbers share a slot exactly when they agree modulo 256. */
  lemma SameSlotIffCongruent(s: int, t: int)
    ensures SlotOf(s) == SlotOf(t) <==> (s - t) % RING_SIZE == 0
  {
    var ds, dt := (s - SlotOf(s)) / RING_SIZE, (t - SlotOf(t)) / RING_SIZE;
    assert s == ds * RING_SIZE + SlotOf(s) && t == dt * RING_SIZE + SlotOf(t);
    assert s - t == (ds - dt) * RING_SIZE + (SlotOf(s) - SlotOf(t));
    if (s - t) % RING_SIZE == 0 {
      var k := (s - t) / RING_SIZE;
      assert s - t == k * RING_SIZE;
      assert SlotOf(s) - SlotOf(t) == (k - ds + dt) * RING_SIZE;
    }
  }

  /** A put is seen by every later get of a sequence number in the same slot, and by no other. */
  lemma LookupAfterStore(slots: seq<Option<SequenceRingEntry>>, sequence: int, entry: SequenceRingEntry, probe: int)
    requires |slots| == RING_SIZE
    ensures Lookup(Stored(slots, sequence, entry), probe)
            == if (probe - sequence) % RING_SIZE == 0 then Some(entry) else Lookup(slots, probe)
  {
    SameSlotIffCongruent(probe, sequence);
  }

  class SequenceRingBuffer256 {
    const entries: array<Option<SequenceRingEntry>>

    ghost predicate Valid()
    {
      entries.Length == RING_SIZE
    }

    /** A fresh ring: 256 empty slots. */
    constructor ()
      ensures Valid() && fresh(entries)
      ensures entries[..] == seq(RING_SIZE, _ => None)
    {
      entries := new Option<SequenceRingEntry>[RING_SIZE](_ => None);
    }

    /** `get(sequence)`: the entry in the sequence's slot, or `None`. */
    method Get(sequence: int) returns (entry: Option<SequenceRingEntry>)
      requires Valid()
      ensures entry == Lookup(entries[..], sequence)
    {
      var index := SlotOf(sequence);
      entry := entries[index];
    }

    /** `put(sequence, entry)`: the sequence's slot now holds the entry; no other slot changes. */
    method Put(sequence: int, entry: SequenceRingEntry)
      requires Valid()
      modifies entries
      ensures entries[..] == Stored(old(entries[..]), sequence, entry)
    {
      var index := SlotOf(sequence);
      entries[index] := Some(entry);
    }
  }
}
