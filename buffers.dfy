// A heap java.nio.ByteBuffer: a fixed backing array, a position and a
// limit. Relative puts and gets move the position; absolute gets do not.

module Buffers {
  import opened Bytes

  /** `w` written over `s` starting at index `at`. */
  function Splice(s: seq<uint8>, at: nat, w: seq<uint8>): (r: seq<uint8>)
    requires at + |w| <= |s|
    ensures |r| == |s|
    ensures r[at..at + |w|] == w
    ensures r[..at] == s[..at] && r[at + |w|..] == s[at + |w|..]
  {
    s[..at] + w + s[at + |w|..]
  }

  /** Two adjacent writes are one write of their concatenation. */
  lemma SpliceSplice(s: seq<uint8>, at: nat, w1: seq<uint8>, w2: seq<uint8>)
    requires at + |w1| + |w2| <= |s|
    ensures Splice(Splice(s, at, w1), at + |w1|, w2) == Splice(s, at, w1 + w2)
  {
    var a := Splice(Splice(s, at, w1), at + |w1|, w2);
    var b := Splice(s, at, w1 + w2);
    assert forall i :: 0 <= i < |s| ==> a[i] == b[i];
  }

  class ByteBuffer {
    const data: array<uint8>
    var position: nat
    var limit: nat

    ghost predicate Valid()
      reads this
    {
      position <= limit <= data.Length
    }

    /** `ByteBuffer.allocate(capacity)`: zero-filled, position 0, limit = capacity. */
    constructor Allocate(capacity: nat)
      ensures Valid() && fresh(data)
      ensures data[..] == Zeros(capacity) && position == 0 && limit == capacity
    {
      data := new uint8[capacity](i => 0);
      position, limit := 0, capacity;
    }

    /** `ByteBuffer.wrap(bytes)`: position 0, limit = length. */
    constructor Wrap(bytes: seq<uint8>)
      ensures Valid() && fresh(data)
      ensures data[..] == bytes && position == 0 && limit == |bytes|
    {
      data := new uint8[|bytes|](i requires 0 <= i < |bytes| => bytes[i]);
      position, limit := 0, |bytes|;
    }

    /**
     * `duplicate()` followed by `position(p)` and `limit(l)`: a second view
     * sharing the same backing array, with its own position and limit.
     */
    constructor Duplicate(source: ByteBuffer, p: nat, l: nat)
      requires p <= l <= source.data.Length
      ensures Valid() && data == source.data && position == p && limit == l
    {
      data := source.data;
      position, limit := p, l;
    }

    /**
     * `compact()`: the unread bytes move to the front, the position goes
     * just past them and the limit to the capacity; bytes after them keep
     * their old contents.
     */
    method Compact()
      requires Valid()
      modifies this, data
      ensures Valid() && position == old(limit - position) && limit == data.Length
      ensures data[..] == old(data[position..limit]) + old(data[limit - position..])
    {
      var n := limit - position;
      var i := 0;
      while i < n
        invariant 0 <= i <= n && position + n == limit <= data.Length
        invariant position == old(position) && limit == old(limit)
        invariant data[..i] == old(data[position..position + i])
        invariant data[i..] == old(data[i..])
      {
        assert data[i..][position] == old(data[i..])[position];
        data[i] := data[position + i];
        assert data[..i + 1] == data[..i] + [data[i]];
        assert old(data[position..position + i + 1]) == old(data[position..position + i]) + [old(data[position + i])];
        i := i + 1;
      }
      assert data[..] == data[..n] + data[n..];
      position, limit := n, data.Length;
    }

    function Remaining(): int
      reads this
    {
      limit - position
    }

    /** The bytes between position and limit. */
    function Unread(): (r: seq<uint8>)
      reads this, data
      requires Valid()
      ensures |r| == Remaining()
    {
      data[position..limit]
    }

    /** Relative `put(byte)`; BufferOverflowException (ok == false, nothing written) when full. */
    method Put(b: uint8) returns (ok: bool)
      requires Valid()
      modifies this, data
      ensures Valid() && limit == old(limit)
      ensures ok <==> old(position) < limit
      ensures ok ==> position == old(position) + 1 && data[..] == Splice(old(data[..]), old(position), [b])
      ensures !ok ==> position == old(position) && data[..] == old(data[..])
    {
      if position == limit {
        return false;
      }
      data[position] := b;
      position := position + 1;
      return true;
    }

    /** Relative bulk `put(byte[])`: all bytes or, with BufferOverflowException, none. */
    method PutBytes(bytes: seq<uint8>) returns (ok: bool)
      requires Valid()
      modifies this, data
      ensures Valid() && limit == old(limit)
      ensures ok <==> |bytes| <= old(Remaining())
      ensures ok ==> position == old(position) + |bytes| && data[..] == Splice(old(data[..]), old(position), bytes)
      ensures !ok ==> position == old(position) && data[..] == old(data[..])
    {
      if |bytes| > limit - position {
        return false;
      }
      var start := position;
      var i := 0;
      while i < |bytes|
        invariant 0 <= i <= |bytes| && position == start + i
        invariant limit == old(limit) && start + |bytes| <= limit <= data.Length
        invariant data[..] == Splice(old(data[..]), start, bytes[..i])
      {
        data[position] := bytes[i];
        assert bytes[..i + 1] == bytes[..i] + [bytes[i]];
        position := position + 1;
        i := i + 1;
      }
      assert bytes[..i] == bytes;
      return true;
    }

    /**
     * `count` relative `put((byte) 0)` calls: all of them, or a
     * BufferOverflowException (ok == false) part-way with the position
     * left where it stopped.
     */
    method PutZeros(count: int) returns (ok: bool)
      requires Valid()
      modifies this, data
      ensures Valid() && limit == old(limit)
      ensures ok <==> count <= old(Remaining())
      ensures ok && count > 0 ==> position == old(position) + count && data[..] == Splice(old(data[..]), old(position), Zeros(count))
      ensures ok && count <= 0 ==> position == old(position) && data[..] == old(data[..])
    {
      var start := position;
      var i := 0;
      while i < count
        invariant 0 <= i && (count > 0 ==> i <= count) && (count <= 0 ==> i == 0)
        invariant position == start + i && limit == old(limit) && position <= limit <= data.Length
        invariant data[..] == Splice(old(data[..]), start, Zeros(i))
      {
        var put := Put(0);
        if !put {
          return false;
        }
        assert Zeros(i + 1) == Zeros(i) + [0];
        i := i + 1;
      }
      return true;
    }

    /** Relative `get()`; the caller has checked that a byte remains. */
    method Get() returns (b: uint8)
      requires Valid() && position < limit
      modifies this
      ensures Valid() && limit == old(limit) && position == old(position) + 1
      ensures b == data[old(position)]
    {
      b := data[position];
      position := position + 1;
    }

    /** Relative bulk `get(byte[n])`; the caller has checked that `n` bytes remain. */
    method GetBytes(n: nat) returns (s: seq<uint8>)
      requires Valid() && n <= Remaining()
      modifies this
      ensures Valid() && limit == old(limit) && position == old(position) + n
      ensures s == data[old(position)..position]
    {
      s := data[position..position + n];
      position := position + n;
    }
  }
}
