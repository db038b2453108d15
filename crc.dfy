// CRC-16/MCRF4XX as MAVLink uses it: the reflected X.25 polynomial 0x8408,
// initial value 0xFFFF, and no final XOR.

module Crc {
  import opened Bytes

  const INITIAL_CRC: bv16 := 0xFFFF
  const POLYNOMIAL: bv16 := 0x8408

  /** One reflected shift step: shift right, XOR the polynomial in when the dropped bit was 1. */
  function ShiftStep(c: bv16): bv16
  {
    (c >> 1) ^ (POLYNOMIAL & (0 - (c & 1)))
  }

  lemma ShiftStepOdd(c: bv16)
    requires c & 1 != 0
    ensures ShiftStep(c) == (c >> 1) ^ POLYNOMIAL
  {
  }

  lemma ShiftStepEven(c: bv16)
    requires c & 1 == 0
    ensures ShiftStep(c) == c >> 1
  {
  }

  /** `k` shift steps. */
  function Shifts(c: bv16, k: nat): bv16
  {
    if k == 0 then c else ShiftStep(Shifts(c, k - 1))
  }

  /** The CRC after feeding one byte: the low 8 bits of `value` are XORed in, then eight shift steps. */
  function UpdateByte(crc: bv16, value: int): bv16
  {
    Shifts(crc ^ LowByte(value), 8)
  }

  lemma UpdateByteUnfolds(crc: bv16, value: int)
    ensures UpdateByte(crc, value) == Shifts(crc ^ LowByte(value), 8)
  {
  }

  /** The low 8 bits of `value` (Java `value & 0xFF`), widened to the CRC width. */
  function LowByte(value: int): bv16
  {
    ((value % 256) as bv8) as bv16
  }

  lemma LowByteInjective(x: uint8, y: uint8)
    requires LowByte(x) == LowByte(y)
    ensures x == y
  {
    LowByteOfByte(x);
    LowByteOfByte(y);
    ZeroExtendInjective(x as bv8, y as bv8);
    ByteAsBv8(x);
    ByteAsBv8(y);
  }

  lemma LowByteOfByte(x: uint8)
    ensures LowByte(x) == (x as bv8) as bv16
  {
    assert x % 256 == x;
  }

  lemma ZeroExtendInjective(x: bv8, y: bv8)
    requires x as bv16 == y as bv16
    ensures x == y
  {
  }

  /** Feeding the bytes of `s` one by one, left to right, starting from `crc`. */
  function Accumulate(crc: bv16, s: seq<uint8>): bv16
  {
    if |s| == 0 then crc else UpdateByte(Accumulate(crc, s[..|s| - 1]), s[|s| - 1])
  }

  /** The CRC of `s` from the initial state. */
  function Checksum(s: seq<uint8>): bv16
  {
    Accumulate(INITIAL_CRC, s)
  }

  /** The MAVLink CRC engine: a 16-bit running state. */
  class X25Crc {
    var current: bv16

    constructor()
      ensures current == INITIAL_CRC
    {
      current := INITIAL_CRC;
    }

    /** Restores the initial state 0xFFFF. */
    method Reset()
      modifies this
      ensures current == INITIAL_CRC
    {
      current := INITIAL_CRC;
    }

    /** `update(int)`: XOR in the low byte of `value`, then eight reflected shift steps. */
    method Update(value: int)
      modifies this
      ensures current == UpdateByte(old(current), value)
    {
      var data := LowByte(value);
      current := current ^ data;
      ghost var start := current;
      for bitIndex := 0 to 8
        invariant current == Shifts(start, bitIndex)
      {
        var c := current;
        if c & 0x0001 != 0 {
          ShiftStepOdd(c);
          c := (c >> 1) ^ POLYNOMIAL;
        } else {
          ShiftStepEven(c);
          c := c >> 1;
        }
        current := c;
      }
    }

    /**
     * `update(byte[], offset, length)`: a null buffer leaves the state alone;
     * otherwise the bytes at indices offset .. offset+length-1 are fed in order.
     */
    method UpdateRange(buffer: Option<seq<uint8>>, offset: int, length: int)
      requires buffer.Some? && length > 0 ==> 0 <= offset && offset + length <= |buffer.value|
      modifies this
      ensures buffer.None? || length <= 0 ==> current == old(current)
      ensures buffer.Some? && length > 0 ==> current == Accumulate(old(current), buffer.value[offset..offset + length])
    {
      if buffer.None? {
        return;
      }
      var endIndex := offset + length;
      var index := offset;
      while index < endIndex
        invariant length > 0 ==> offset <= index <= endIndex
        invariant length <= 0 ==> index == offset
        invariant length > 0 ==> current == Accumulate(old(current), buffer.value[offset..index])
        invariant length <= 0 ==> current == old(current)
      {
        Update(buffer.value[index]);
        assert buffer.value[offset..index + 1][..index - offset] == buffer.value[offset..index];
        index := index + 1;
      }
    }

    /** `update(byte[])`: the whole buffer, or nothing for null. */
    method UpdateAll(buffer: Option<seq<uint8>>)
      modifies this
      ensures buffer.None? ==> current == old(current)
      ensures buffer.Some? ==> current == Accumulate(old(current), buffer.value)
    {
      if buffer.Some? {
        UpdateRange(buffer, 0, |buffer.value|);
        assert buffer.value[0..|buffer.value|] == buffer.value;
      }
    }

    /** `getCrc()`: the state itself, with no final XOR. */
    function GetCrc(): (r: int)
      reads this
      ensures 0 <= r <= 0xFFFF
    {
      current as int
    }

    /** `getRawCrc()`. */
    function GetRawCrc(): (r: int)
      reads this
      ensures 0 <= r <= 0xFFFF
      ensures r == GetCrc()
    {
      current as int
    }
  }

  /** `calculate(byte[], offset, length)`: the CRC of the range from a fresh engine. */
  method CalculateRange(buffer: seq<uint8>, offset: int, length: int) returns (r: int)
    requires length > 0 ==> 0 <= offset && offset + length <= |buffer|
    ensures 0 <= r <= 0xFFFF
    ensures length <= 0 ==> r == INITIAL_CRC as int
    ensures length > 0 ==> r == Checksum(buffer[offset..offset + length]) as int
  {
    var crc := new X25Crc();
    crc.UpdateRange(Some(buffer), offset, length);
    r := crc.GetCrc();
  }

  /** `calculate(byte[])`: 0xFFFF for null, otherwise the CRC of the whole buffer. */
  method Calculate(buffer: Option<seq<uint8>>) returns (r: int)
    ensures 0 <= r <= 0xFFFF
    ensures buffer.None? ==> r == 0xFFFF
    ensures buffer.Some? ==> r == Checksum(buffer.value) as int
  {
    if buffer.None? {
      return INITIAL_CRC as int;
    }
    r := CalculateRange(buffer.value, 0, |buffer.value|);
    assert buffer.value[0..|buffer.value|] == buffer.value;
    if |buffer.value| == 0 {
      assert Checksum(buffer.value) == INITIAL_CRC;
    }
  }

  /** Feeding `s` then `t` is feeding `s + t`. */
  lemma {:induction false} AccumulateAppend(crc: bv16, s: seq<uint8>, t: seq<uint8>)
    ensures Accumulate(crc, s + t) == Accumulate(Accumulate(crc, s), t)
    decreases |t|
  {
    if |t| > 0 {
      var st := s + t;
      assert st[..|st| - 1] == s + t[..|t| - 1];
      assert st[|st| - 1] == t[|t| - 1];
      AccumulateAppend(crc, s, t[..|t| - 1]);
      calc {
        Accumulate(crc, st);
        UpdateByte(Accumulate(crc, s + t[..|t| - 1]), t[|t| - 1]);
        UpdateByte(Accumulate(Accumulate(crc, s), t[..|t| - 1]), t[|t| - 1]);
        Accumulate(Accumulate(crc, s), t);
      }
    } else {
      assert s + t == s;
    }
  }

  lemma ShiftStepInjective(a: bv16, b: bv16)
    requires ShiftStep(a) == ShiftStep(b)
    ensures a == b
  {
  }

  lemma {:induction false} ShiftsInjective(a: bv16, b: bv16, k: nat)
    requires Shifts(a, k) == Shifts(b, k)
    ensures a == b
  {
    if k > 0 {
      ShiftStepInjective(Shifts(a, k - 1), Shifts(b, k - 1));
      ShiftsInjective(a, b, k - 1);
    }
  }

  lemma UpdateByteInputs(a: bv16, b: bv16, x: uint8, y: uint8)
    requires UpdateByte(a, x) == UpdateByte(b, y)
    ensures a ^ LowByte(x) == b ^ LowByte(y)
  {
    UpdateByteUnfolds(a, x);
    UpdateByteUnfolds(b, y);
    ShiftsInjective(a ^ LowByte(x), b ^ LowByte(y), 8);
  }

  lemma XorCancelRight(a: bv16, b: bv16, d: bv16)
    requires a ^ d == b ^ d
    ensures a == b
  {
  }

  lemma XorCancelLeft(a: bv16, dx: bv16, dy: bv16)
    requires a ^ dx == a ^ dy
    ensures dx == dy
  {
  }

  lemma ShiftedInputsEqual(a: bv16, b: bv16, d: bv16)
    requires Shifts(a ^ d, 8) == Shifts(b ^ d, 8)
    ensures a == b
  {
    ShiftsInjective(a ^ d, b ^ d, 8);
    XorCancelRight(a, b, d);
  }

  /** Distinct states stay distinct after the same byte. */
  lemma UpdateByteInjectiveInState(a: bv16, b: bv16, x: uint8)
    requires UpdateByte(a, x) == UpdateByte(b, x)
    ensures a == b
  {
    UpdateByteUnfolds(a, x);
    UpdateByteUnfolds(b, x);
    ShiftedInputsEqual(a, b, LowByte(x));
  }

  /** Distinct bytes fed into the same state give distinct states. */
  lemma UpdateByteInjectiveInByte(a: bv16, x: uint8, y: uint8)
    requires UpdateByte(a, x) == UpdateByte(a, y)
    ensures x == y
  {
    UpdateByteInputs(a, a, x, y);
    XorCancelLeft(a, LowByte(x), LowByte(y));
    LowByteInjective(x, y);
  }

  /** Distinct states stay distinct after feeding the same bytes. */
  lemma {:induction false} AccumulateInjective(a: bv16, b: bv16, t: seq<uint8>)
    requires Accumulate(a, t) == Accumulate(b, t)
    ensures a == b
    decreases |t|
  {
    if |t| > 0 {
      var last := t[|t| - 1];
      UpdateByteInjectiveInState(Accumulate(a, t[..|t| - 1]), Accumulate(b, t[..|t| - 1]), last);
      AccumulateInjective(a, b, t[..|t| - 1]);
    }
  }

  /** Any single corrupted byte changes the CRC, wherever it sits in the data. */
  lemma SingleByteErrorDetected(crc: bv16, p: seq<uint8>, x: uint8, y: uint8, q: seq<uint8>)
    requires x != y
    ensures Accumulate(crc, p + [x] + q) != Accumulate(crc, p + [y] + q)
  {
    AccumulateAppend(crc, p + [x], q);
    AccumulateAppend(crc, p + [y], q);
    if Accumulate(crc, p + [x] + q) == Accumulate(crc, p + [y] + q) {
      AccumulateInjective(Accumulate(crc, p + [x]), Accumulate(crc, p + [y]), q);
      assert (p + [x])[..|p|] == p && (p + [y])[..|p|] == p;
      UpdateByteInjectiveInByte(Accumulate(crc, p), x, y);
    }
  }

  /** `update(int)` sees only the low byte of its argument. */
  lemma UpdateByteLow(crc: bv16, value: int)
    ensures UpdateByte(crc, value) == UpdateByte(crc, value % 256)
  {
    var m := value % 256;
    assert m % 256 == m;
    assert LowByte(m) == ((m % 256) as bv8) as bv16;
  }

  lemma AccumulateSnoc(crc: bv16, s: seq<uint8>, b: uint8)
    ensures Accumulate(crc, s + [b]) == UpdateByte(Accumulate(crc, s), b)
  {
    assert (s + [b])[..|s|] == s;
  }

  /** One step of the check-value computation: feeding `v`, whose low byte widens to `b`, to `crc` gives `r`. */
  lemma UpdateByteValue(crc: bv16, v: int, b: bv16, x: bv16, r: bv16)
    requires LowByte(v) == b && crc ^ b == x && Shifts(x, 8) == r
    ensures UpdateByte(crc, v) == r
  {
    UpdateByteUnfolds(crc, v);
  }

  lemma CheckByte1()
    ensures UpdateByte(0xFFFF, 0x31) == 0x2F8D
  {
    UpdateByteValue(0xFFFF, 0x31, 0x31, 0xFFCE, 0x2F8D);
  }

  lemma CheckByte2()
    ensures UpdateByte(0x2F8D, 0x32) == 0x4D53
  {
    UpdateByteValue(0x2F8D, 0x32, 0x32, 0x2FBF, 0x4D53);
  }

  lemma CheckByte3()
    ensures UpdateByte(0x4D53, 0x33) == 0x634B
  {
    UpdateByteValue(0x4D53, 0x33, 0x33, 0x4D60, 0x634B);
  }

  lemma CheckByte4()
    ensures UpdateByte(0x634B, 0x34) == 0x8B13
  {
    UpdateByteValue(0x634B, 0x34, 0x34, 0x637F, 0x8B13);
  }

  lemma CheckByte5()
    ensures UpdateByte(0x8B13, 0x35) == 0x44BF
  {
    UpdateByteValue(0x8B13, 0x35, 0x35, 0x8B26, 0x44BF);
  }

  lemma CheckByte6()
    ensures UpdateByte(0x44BF, 0x36) == 0x198D
  {
    UpdateByteValue(0x44BF, 0x36, 0x36, 0x4489, 0x198D);
  }

  lemma CheckByte7()
    ensures UpdateByte(0x198D, 0x37) == 0x1AC8
  {
    UpdateByteValue(0x198D, 0x37, 0x37, 0x19BA, 0x1AC8);
  }

  lemma CheckByte8()
    ensures UpdateByte(0x1AC8, 0x38) == 0xF795
  {
    UpdateByteValue(0x1AC8, 0x38, 0x38, 0x1AF0, 0xF795);
  }

  lemma CheckByte9()
    ensures UpdateByte(0xF795, 0x39) == 0x6F91
  {
    UpdateByteValue(0xF795, 0x39, 0x39, 0xF7AC, 0x6F91);
  }

  /** The standard CRC-16/MCRF4XX check input, the ASCII digits "123456789". */
  const CHECK_INPUT: seq<uint8> := [0x31, 0x32, 0x33, 0x34, 0x35, 0x36, 0x37, 0x38, 0x39]

  /**
   * The engine yields the MCRF4XX check value 0x6F91 for "123456789"; 0x906E
   * is that value with a final XOR of 0xFFFF, which this engine never applies.
   */
  lemma CheckValue()
    ensures Checksum(CHECK_INPUT) == 0x6F91
    ensures Checksum(CHECK_INPUT) != 0x906E && Checksum(CHECK_INPUT) ^ 0xFFFF == 0x906E
  {
    CheckPrefix9();
    assert CHECK_INPUT[..9] == CHECK_INPUT;
  }

  lemma CheckPrefix1()
    ensures Accumulate(0xFFFF, CHECK_INPUT[..1]) == 0x2F8D
  {
    assert CHECK_INPUT[..1] == CHECK_INPUT[..0] + [CHECK_INPUT[0]];
    AccumulateSnoc(0xFFFF, CHECK_INPUT[..0], CHECK_INPUT[0]);
    assert CHECK_INPUT[0] == 0x31;
    CheckByte1();
  }

  lemma CheckPrefix2()
    ensures Accumulate(0xFFFF, CHECK_INPUT[..2]) == 0x4D53
  {
    CheckPrefix1();
    assert CHECK_INPUT[..2] == CHECK_INPUT[..1] + [CHECK_INPUT[1]];
    AccumulateSnoc(0xFFFF, CHECK_INPUT[..1], CHECK_INPUT[1]);
    assert CHECK_INPUT[1] == 0x32;
    CheckByte2();
  }

  lemma CheckPrefix3()
    ensures Accumulate(0xFFFF, CHECK_INPUT[..3]) == 0x634B
  {
    CheckPrefix2();
    assert CHECK_INPUT[..3] == CHECK_INPUT[..2] + [CHECK_INPUT[2]];
    AccumulateSnoc(0xFFFF, CHECK_INPUT[..2], CHECK_INPUT[2]);
    assert CHECK_INPUT[2] == 0x33;
    CheckByte3();
  }

  lemma CheckPrefix4()
    ensures Accumulate(0xFFFF, CHECK_INPUT[..4]) == 0x8B13
  {
    CheckPrefix3();
    assert CHECK_INPUT[..4] == CHECK_INPUT[..3] + [CHECK_INPUT[3]];
    AccumulateSnoc(0xFFFF, CHECK_INPUT[..3], CHECK_INPUT[3]);
    assert CHECK_INPUT[3] == 0x34;
    CheckByte4();
  }

  lemma CheckPrefix5()
    ensures Accumulate(0xFFFF, CHECK_INPUT[..5]) == 0x44BF
  {
    CheckPrefix4();
    assert CHECK_INPUT[..5] == CHECK_INPUT[..4] + [CHECK_INPUT[4]];
    AccumulateSnoc(0xFFFF, CHECK_INPUT[..4], CHECK_INPUT[4]);
    assert CHECK_INPUT[4] == 0x35;
    CheckByte5();
  }

  lemma CheckPrefix6()
    ensures Accumulate(0xFFFF, CHECK_INPUT[..6]) == 0x198D
  {
    CheckPrefix5();
    assert CHECK_INPUT[..6] == CHECK_INPUT[..5] + [CHECK_INPUT[5]];
    AccumulateSnoc(0xFFFF, CHECK_INPUT[..5], CHECK_INPUT[5]);
    assert CHECK_INPUT[5] == 0x36;
    CheckByte6();
  }

  lemma CheckPrefix7()
    ensures Accumulate(0xFFFF, CHECK_INPUT[..7]) == 0x1AC8
  {
    CheckPrefix6();
    assert CHECK_INPUT[..7] == CHECK_INPUT[..6] + [CHECK_INPUT[6]];
    AccumulateSnoc(0xFFFF, CHECK_INPUT[..6], CHECK_INPUT[6]);
    assert CHECK_INPUT[6] == 0x37;
    CheckByte7();
  }

  lemma CheckPrefix8()
    ensures Accumulate(0xFFFF, CHECK_INPUT[..8]) == 0xF795
  {
    CheckPrefix7();
    assert CHECK_INPUT[..8] == CHECK_INPUT[..7] + [CHECK_INPUT[7]];
    AccumulateSnoc(0xFFFF, CHECK_INPUT[..7], CHECK_INPUT[7]);
    assert CHECK_INPUT[7] == 0x38;
    CheckByte8();
  }

  lemma CheckPrefix9()
    ensures Accumulate(0xFFFF, CHECK_INPUT[..9]) == 0x6F91
  {
    CheckPrefix8();
    assert CHECK_INPUT[..9] == CHECK_INPUT[..8] + [CHECK_INPUT[8]];
    AccumulateSnoc(0xFFFF, CHECK_INPUT[..8], CHECK_INPUT[8]);
    assert CHECK_INPUT[8] == 0x39;
    CheckByte9();
  }
}
