// Byte-level vocabulary shared by every part of the MAVLink engine:
// unsigned bytes, optional values, results with an error path, and the
// little-endian integer layout MAVLink uses on the wire.

module Bytes {

  /** An unsigned byte as it travels on the wire. */
  type uint8 = x: int | 0 <= x < 256

  /** A Java reference that may be null. */
  datatype Option<T> = None | Some(value: T)

  /** The outcome of a Java call that either returns or throws. */
  datatype Result<T> = Ok(value: T) | Err(reason: string)

  const INT_MIN: int := -0x8000_0000
  const INT_MAX: int := 0x7FFF_FFFF

  function Min(a: int, b: int): int { if a <= b then a else b }

  /** A slice of a slice is a slice of the whole. */
  lemma SliceOfSlice<T>(s: seq<T>, lo: int, hi: int, i: int, j: int)
    requires 0 <= lo <= hi <= |s| && 0 <= i <= j <= hi - lo
    ensures s[lo..hi][i..j] == s[lo + i..lo + j]
  {
    var inner := s[lo..hi];
    forall k | 0 <= k < j - i
      ensures inner[i..j][k] == s[lo + i..lo + j][k]
    {
      assert inner[i..j][k] == inner[i + k] == s[lo + i + k];
    }
  }

  /** A slice inside the left operand of a concatenation. */
  lemma SliceOfConcatLeft<T>(p: seq<T>, b: seq<T>, lo: int, hi: int)
    requires 0 <= lo <= hi <= |p|
    ensures (p + b)[lo..hi] == p[lo..hi]
  {
    forall k | 0 <= k < hi - lo
      ensures (p + b)[lo..hi][k] == p[lo..hi][k]
    {
      assert (p + b)[lo..hi][k] == (p + b)[lo + k];
    }
  }

  /** The right operand of a concatenation, sliced back out. */
  lemma SliceOfConcatRight<T>(p: seq<T>, b: seq<T>)
    ensures (p + b)[|p|..|p| + |b|] == b
  {
    forall k | 0 <= k < |b|
      ensures (p + b)[|p|..|p| + |b|][k] == b[k]
    {
      assert (p + b)[|p|..|p| + |b|][k] == (p + b)[|p| + k];
    }
  }

  function Pow256(n: nat): (r: nat)
    ensures r >= 1
  {
    if n == 0 then 1 else 256 * Pow256(n - 1)
  }

  /** `count` zero bytes. */
  function Zeros(count: nat): (r: seq<uint8>)
    ensures |r| == count
    ensures forall i :: 0 <= i < count ==> r[i] == 0
  {
    seq(count, i => 0)
  }

  /** The low `n` bytes of `v`, least significant first (two's complement for negative values). */
  function LittleEndian(v: int, n: nat): (r: seq<uint8>)
    ensures |r| == n
    decreases n
  {
    if n == 0 then [] else [v % 256] + LittleEndian(v / 256, n - 1)
  }

  /** The unsigned value of `s` read least significant byte first. */
  function FromLittleEndian(s: seq<uint8>): (r: nat)
    ensures r < Pow256(|s|)
  {
    if |s| == 0 then 0 else s[0] + 256 * FromLittleEndian(s[1..])
  }

  /** Reinterprets the unsigned `n`-byte value `v` as two's complement. */
  function Signed(v: int, n: nat): int
  {
    if n > 0 && v >= Pow256(n) / 2 then v - Pow256(n) else v
  }

  /** One byte per character, keeping the low 8 bits of each code unit. */
  function TextBytes(s: string): (r: seq<uint8>)
    ensures |r| == |s|
    ensures forall i :: 0 <= i < |s| ==> r[i] == (s[i] as int) % 256
  {
    seq(|s|, i requires 0 <= i < |s| => (s[i] as int) % 256)
  }

  lemma ModUnique(v: int, m: int, k: int, x: int)
    requires m > 0 && v == m * k + x && 0 <= x < m
    ensures v % m == x && v / m == k
  {
    var q, r := v / m, v % m;
    assert m * (k - q) == r - x;
    if k - q >= 1 {
      MulAtLeast(m, k - q);
    } else if k - q <= -1 {
      MulAtLeast(m, q - k);
    }
  }

  lemma MulAtLeast(m: int, d: int)
    requires m > 0 && d >= 1
    ensures m * d >= m
  {
  }

  /** Writing `n` bytes little-endian and reading them back yields `v` modulo 256^n. */
  lemma {:induction false} FromLittleEndianOfLittleEndian(v: int, n: nat)
    ensures FromLittleEndian(LittleEndian(v, n)) == v % Pow256(n)
    decreases n
  {
    if n > 0 {
      var w := LittleEndian(v, n);
      assert w[0] == v % 256 && w[1..] == LittleEndian(v / 256, n - 1);
      FromLittleEndianOfLittleEndian(v / 256, n - 1);
      assert FromLittleEndian(w) == v % 256 + 256 * ((v / 256) % Pow256(n - 1));
      ModOfProduct(v, Pow256(n - 1));
    }
  }

  /** The remainder by 256p is the low byte plus 256 times the remainder of the rest by p. */
  lemma ModOfProduct(v: int, p: int)
    requires p > 0
    ensures v % (256 * p) == v % 256 + 256 * ((v / 256) % p)
  {
    var q := v / 256;
    var b := q % p;
    var a := q / p;
    assert q == p * a + b;
    assert v == 256 * q + v % 256;
    assert 256 * q == (256 * p) * a + 256 * b;
    MulAtMost(256, b, p - 1);
    ModUnique(v, 256 * p, a, 256 * b + v % 256);
  }

  /** Reading bytes little-endian and writing the value back reproduces the bytes. */
  lemma {:induction false} LittleEndianOfFromLittleEndian(s: seq<uint8>)
    ensures LittleEndian(FromLittleEndian(s), |s|) == s
  {
    if |s| > 0 {
      var v := FromLittleEndian(s);
      ModUnique(v, 256, FromLittleEndian(s[1..]), s[0]);
      LittleEndianOfFromLittleEndian(s[1..]);
    }
  }

  /** A value already inside the `n`-byte range survives a write and a read unchanged. */
  lemma LittleEndianRoundTrip(v: int, n: nat)
    requires 0 <= v < Pow256(n)
    ensures FromLittleEndian(LittleEndian(v, n)) == v
  {
    FromLittleEndianOfLittleEndian(v, n);
    ModUnique(v, Pow256(n), 0, v);
  }

  /** Signed decoding recovers every value of the signed `n`-byte range. */
  lemma SignedRoundTrip(v: int, n: nat)
    requires n > 0 && -(Pow256(n) / 2) <= v < Pow256(n) / 2
    ensures Signed(FromLittleEndian(LittleEndian(v, n)), n) == v
  {
    FromLittleEndianOfLittleEndian(v, n);
    var p := Pow256(n);
    assert p == 256 * Pow256(n - 1);
    if v >= 0 {
      ModUnique(v, p, 0, v);
    } else {
      ModUnique(v, p, -1, v + p);
    }
  }
  /** Dividing by `a` and then by `b` is dividing by `a * b`. */
  lemma DivDiv(v: int, a: int, b: int)
    requires v >= 0 && a > 0 && b > 0
    ensures v / a / b == v / (a * b)
  {
    var q1, r1 := v / a, v % a;
    var q2, r2 := q1 / b, q1 % b;
    var low := a * r2 + r1;
    Regroup(a, b, q1, q2, r1, r2);
    MulAtMost(a, r2, b - 1);
    assert a * (b - 1) == a * b - a;
    ModUnique(v, a * b, q2, low);
  }

  lemma Regroup(a: int, b: int, q1: int, q2: int, r1: int, r2: int)
    requires q1 == b * q2 + r2
    ensures a * q1 + r1 == (a * b) * q2 + (a * r2 + r1)
  {
    assert a * q1 == a * (b * q2) + a * r2;
  }

  lemma MulAtMost(a: int, x: int, y: int)
    requires a >= 0 && x <= y
    ensures a * x <= a * y
  {
    assert a * y - a * x == a * (y - x);
  }

  /** Byte `k` of the little-endian form of a non-negative value is the value shifted right by 8k bits, truncated to a byte. */
  lemma {:induction false} LittleEndianDigit(v: int, n: nat, k: nat)
    requires v >= 0 && k < n
    ensures LittleEndian(v, n)[k] == (v / Pow256(k)) % 256
    decreases k
  {
    if k > 0 {
      LittleEndianDigit(v / 256, n - 1, k - 1);
      DivDiv(v, 256, Pow256(k - 1));
    }
  }

  /** A byte converts to the 8-bit vector with the same value. */
  lemma ByteAsBv8(x: uint8)
    ensures (x as bv8) as int == x
  {
    assert x % 256 == x;
  }
}
