// The frame fingerprint the stream-health analyzer keeps per ring slot: a
// 32-bit FNV-1a style hash over the header identity and the payload bytes.
// Java's int arithmetic wraps, so the hash state is the unsigned 32-bit
// pattern of the Java int, and XOR is spelled out bit by bit.

module FrameFingerprint {
  import opened Bytes
  import opened Frames

  const WORD: int := 0x1_0000_0000
  type word = x: int | 0 <= x < 0x1_0000_0000

  const FNV_OFFSET_BASIS: word := 0x811C9DC5
  const FNV_PRIME: int := 16777619
  /** The inverse of the prime modulo 2^32: 16777619 * 0x359C449B == 1 + 3513497 * 2^32. */
  const FNV_PRIME_INVERSE: int := 0x359C449B

  function Pow2(n: nat): (r: nat)
    ensures r >= 1
  {
    if n == 0 then 1 else 2 * Pow2(n - 1)
  }

  /** The low `width` bits of `a ^ b`, computed one bit at a time from the bottom. */
  function Xor(a: nat, b: nat, width: nat): nat
  {
    if width == 0 then 0 else 2 * Xor(a / 2, b / 2, width - 1) + (a % 2 + b % 2) % 2
  }

  /** `width` bits of XOR fit in `width` bits. */
  lemma {:induction false} XorFits(a: nat, b: nat, width: nat)
    ensures Xor(a, b, width) < Pow2(width)
  {
    if width > 0 {
      XorFits(a / 2, b / 2, width - 1);
    }
  }

  /** Java's `^` on two ints, as unsigned 32-bit patterns. */
  function Xor32(a: word, b: word): word
  {
    Pow2Word();
    XorFits(a, b, 32);
    Xor(a, b, 32)
  }

  lemma Pow2Word()
    ensures Pow2(32) == WORD
  {
    assert Pow2(4) == 0x10;
    assert Pow2(8) == 0x100;
    assert Pow2(12) == 0x1000;
    assert Pow2(16) == 0x1_0000;
    assert Pow2(20) == 0x10_0000;
    assert Pow2(24) == 0x100_0000;
    assert Pow2(28) == 0x1000_0000;
  }

  /** `(hash ^ value) * 16777619` on Java ints: the product wraps at 32 bits. */
  function Fnv1a(hash: word, value: word): word
  {
    (Xor32(hash, value) * FNV_PRIME) % WORD
  }

  /** The two's-complement bit pattern of a Java int. */
  function IntBits(v: int): word
  {
    v % WORD
  }

  /** A Java `byte` (held here as its unsigned value) widened to int: sign-extended. */
  function SignedByteBits(b: uint8): word
  {
    if b < 128 then b else b + 0xFFFF_FF00
  }

  /** `Version.ordinal()`, with a null version hashed as 0. */
  function VersionOrdinal(version: Option<Version>): int
  {
    match version
    case None => 0
    case Some(V1) => 0
    case Some(V2) => 1
  }

  /** The hash after the five header values, in the order they are folded in. */
  function HeaderHash(frame: Frame): word
  {
    var h0 := Fnv1a(FNV_OFFSET_BASIS, IntBits(VersionOrdinal(frame.version)));
    var h1 := Fnv1a(h0, IntBits(frame.systemId));
    var h2 := Fnv1a(h1, IntBits(frame.componentId));
    var h3 := Fnv1a(h2, IntBits(frame.messageId));
    Fnv1a(h3, IntBits(frame.payloadLength))
  }

  /** The hash after folding in `bytes`, first to last, starting from `hash`. */
  function HashBytes(hash: word, bytes: seq<uint8>): word
  {
    if bytes == [] then hash
    else Fnv1a(HashBytes(hash, bytes[..|bytes| - 1]), SignedByteBits(bytes[|bytes| - 1]))
  }

  /** How many payload bytes take part: `min(payload.length, payloadLength)`, none when null. */
  function HashedLength(frame: Frame): (n: nat)
    ensures frame.payload.Some? ==> n <= |frame.payload.value|
    ensures frame.payload.None? ==> n == 0
  {
    match frame.payload
    case None => 0
    case Some(p) => if Min(|p|, frame.payloadLength) <= 0 then 0 else Min(|p|, frame.payloadLength)
  }

  /** The payload bytes that take part in the fingerprint. */
  function HashedPayload(frame: Frame): seq<uint8>
  {
    match frame.payload
    case None => []
    case Some(p) => p[..HashedLength(frame)]
  }

  /** `computeFingerprint(frame)` as a value. */
  function Fingerprint(frame: Frame): word
  {
    HashBytes(HeaderHash(frame), HashedPayload(frame))
  }

  /** `computeFingerprint`: the header values, then the payload bytes one by one. */
  method ComputeFingerprint(frame: Frame) returns (hash: word)
    ensures hash == Fingerprint(frame)
  {
    hash := FNV_OFFSET_BASIS;
    hash := Fnv1a(hash, IntBits(VersionOrdinal(frame.version)));
    hash := Fnv1a(hash, IntBits(frame.systemId));
    hash := Fnv1a(hash, IntBits(frame.componentId));
    hash := Fnv1a(hash, IntBits(frame.messageId));
    hash := Fnv1a(hash, IntBits(frame.payloadLength));
    if frame.payload.Some? {
      var payload := frame.payload.value;
      var length := HashedLength(frame);
      var index := 0;
      while index < length
        invariant 0 <= index <= length
        invariant hash == HashBytes(HeaderHash(frame), payload[..index])
      {
        assert payload[..index + 1][..index] == payload[..index];
        hash := Fnv1a(hash, SignedByteBits(payload[index]));
        index := index + 1;
      }
      assert payload[..length] == HashedPayload(frame);
    }
  }

  /** Folding in a concatenation is folding in one part and then the other. */
  lemma {:induction false} HashBytesAppend(hash: word, a: seq<uint8>, b: seq<uint8>)
    ensures HashBytes(hash, a + b) == HashBytes(HashBytes(hash, a), b)
    decreases |b|
  {
    if b == [] {
      assert a + b == a;
    } else {
      assert (a + b)[..|a + b| - 1] == a + b[..|b| - 1];
      assert (a + b)[|a + b| - 1] == b[|b| - 1];
      HashBytesAppend(hash, a, b[..|b| - 1]);
    }
  }

  /** XOR with the same value never merges two `width`-bit values. */
  lemma {:induction false} XorInjective(a: nat, b: nat, v: nat, width: nat)
    requires a < Pow2(width) && b < Pow2(width) && Xor(a, v, width) == Xor(b, v, width)
    ensures a == b
  {
    if width > 0 {
      var x := Xor(a, v, width);
      var highA, highB := Xor(a / 2, v / 2, width - 1), Xor(b / 2, v / 2, width - 1);
      assert highA == highB && (a % 2 + v % 2) % 2 == (b % 2 + v % 2) % 2 by {
        HalvesOf(x, highA, (a % 2 + v % 2) % 2);
        HalvesOf(x, highB, (b % 2 + v % 2) % 2);
      }
      BitCancel(a % 2, b % 2, v % 2);
      HalfBelow(a, Pow2(width - 1));
      HalfBelow(b, Pow2(width - 1));
      XorInjective(a / 2, b / 2, v / 2, width - 1);
      SameHalves(a, b);
    }
  }

  /** The quotient and remainder of `2 * high + low` for a single bit `low`. */
  lemma HalvesOf(x: nat, high: nat, low: nat)
    requires x == 2 * high + low && low < 2
    ensures x / 2 == high && x % 2 == low
  {
  }

  /** Adding the same bit modulo 2 never merges two bits. */
  lemma BitCancel(a: nat, b: nat, v: nat)
    requires a < 2 && b < 2 && v < 2 && (a + v) % 2 == (b + v) % 2
    ensures a == b
  {
  }

  lemma HalfBelow(a: nat, p: nat)
    requires a < 2 * p
    ensures a / 2 < p
  {
  }

  /** A number is fixed by its half and its parity. */
  lemma SameHalves(a: nat, b: nat)
    requires a / 2 == b / 2 && a % 2 == b % 2
    ensures a == b
  {
  }

  /** XOR is symmetric. */
  lemma {:induction false} XorCommutes(a: nat, b: nat, width: nat)
    ensures Xor(a, b, width) == Xor(b, a, width)
  {
    if width > 0 {
      XorCommutes(a / 2, b / 2, width - 1);
    }
  }

  /** Multiplying by the FNV prime modulo 2^32 is undone by its inverse: the prime is odd. */
  lemma MultiplyUndone(a: word)
    ensures ((a * FNV_PRIME) % WORD * FNV_PRIME_INVERSE) % WORD == a
  {
    var q := (a * FNV_PRIME) / WORD;
    var r := (a * FNV_PRIME) % WORD;
    assert a * FNV_PRIME == q * WORD + r;
    assert r * FNV_PRIME_INVERSE == a + (a * 3513497 - q * FNV_PRIME_INVERSE) * WORD;
  }

  /** One step never merges two states. */
  lemma Fnv1aInjectiveInHash(a: word, b: word, value: word)
    requires Fnv1a(a, value) == Fnv1a(b, value)
    ensures a == b
  {
    Pow2Word();
    MultiplyUndone(Xor32(a, value));
    MultiplyUndone(Xor32(b, value));
    XorInjective(a, b, value, 32);
  }

  /** One step never merges two input values. */
  lemma Fnv1aInjectiveInValue(hash: word, v: word, w: word)
    requires Fnv1a(hash, v) == Fnv1a(hash, w)
    ensures v == w
  {
    Pow2Word();
    MultiplyUndone(Xor32(hash, v));
    MultiplyUndone(Xor32(hash, w));
    XorCommutes(hash, v, 32);
    XorCommutes(hash, w, 32);
    XorInjective(v, w, hash, 32);
  }

  /** Sign extension keeps distinct bytes distinct. */
  lemma SignedByteBitsInjective(b: uint8, c: uint8)
    requires SignedByteBits(b) == SignedByteBits(c)
    ensures b == c
  {
  }

  /** Folding the same bytes into two different states keeps them different. */
  lemma {:induction false} HashBytesInjectiveInState(a: word, b: word, bytes: seq<uint8>)
    requires HashBytes(a, bytes) == HashBytes(b, bytes)
    ensures a == b
    decreases |bytes|
  {
    if bytes != [] {
      var last := SignedByteBits(bytes[|bytes| - 1]);
      Fnv1aInjectiveInHash(HashBytes(a, bytes[..|bytes| - 1]), HashBytes(b, bytes[..|bytes| - 1]), last);
      HashBytesInjectiveInState(a, b, bytes[..|bytes| - 1]);
    }
  }

  /**
   * Two byte strings of the same length that differ in exactly one position
   * always hash differently from the same starting state.
   */
  lemma OneByteChangeChangesHash(hash: word, bytes: seq<uint8>, i: nat, b: uint8)
    requires i < |bytes| && b != bytes[i]
    ensures HashBytes(hash, bytes[i := b]) != HashBytes(hash, bytes)
  {
    var changed := bytes[i := b];
    assert bytes == bytes[..i] + [bytes[i]] + bytes[i + 1..];
    assert changed == bytes[..i] + [b] + bytes[i + 1..];
    var before := HashBytes(hash, bytes[..i]);
    HashBytesAppend(hash, bytes[..i] + [bytes[i]], bytes[i + 1..]);
    HashBytesAppend(hash, bytes[..i] + [b], bytes[i + 1..]);
    HashBytesAppend(hash, bytes[..i], [bytes[i]]);
    HashBytesAppend(hash, bytes[..i], [b]);
    assert [bytes[i]][..0] == [] && [b][..0] == [];
    if HashBytes(hash, changed) == HashBytes(hash, bytes) {
      HashBytesInjectiveInState(HashBytes(hash, bytes[..i] + [b]), HashBytes(hash, bytes[..i] + [bytes[i]]), bytes[i + 1..]);
      Fnv1aInjectiveInValue(before, SignedByteBits(b), SignedByteBits(bytes[i]));
      SignedByteBitsInjective(b, bytes[i]);
    }
  }

  /**
   * Changing one hashed payload byte always changes the fingerprint, so a
   * corrupted or different message under a reused sequence number is told
   * apart from a true duplicate.
   */
  lemma PayloadByteChangeDetected(frame: Frame, i: nat, b: uint8)
    requires frame.payload.Some? && i < HashedLength(frame) && b != frame.payload.value[i]
    ensures Fingerprint(frame.(payload := Some(frame.payload.value[i := b]))) != Fingerprint(frame)
  {
    var p := frame.payload.value;
    var n := HashedLength(frame);
    var changed := frame.(payload := Some(p[i := b]));
    assert HashedLength(changed) == n;
    assert HashedPayload(changed) == p[..n][i := b];
    OneByteChangeChangesHash(HeaderHash(frame), p[..n], i, b);
  }

  /** The sequence number, checksum, flags, signature and validation outcome do not take part. */
  lemma FingerprintIgnoresTransportFields(frame: Frame, other: Frame)
    requires other.version == frame.version && other.systemId == frame.systemId
    requires other.componentId == frame.componentId && other.messageId == frame.messageId
    requires other.payloadLength == frame.payloadLength && other.payload == frame.payload
    ensures Fingerprint(other) == Fingerprint(frame)
  {
  }

  /** Payload bytes past `payloadLength` do not take part. */
  lemma BytesPastLengthIgnored(frame: Frame, extra: seq<uint8>)
    requires frame.payload.Some? && 0 <= frame.payloadLength <= |frame.payload.value|
    ensures Fingerprint(frame.(payload := Some(frame.payload.value + extra))) == Fingerprint(frame)
  {
    var p := frame.payload.value;
    assert (p + extra)[..frame.payloadLength] == p[..frame.payloadLength];
  }

  /** A null payload hashes like an empty one: only the header values take part. */
  lemma NullPayloadHashesHeaderOnly(frame: Frame)
    requires frame.payload.None?
    ensures Fingerprint(frame) == HeaderHash(frame)
    ensures Fingerprint(frame.(payload := Some([]))) == Fingerprint(frame)
  {
  }
}
