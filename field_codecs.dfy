// The field codecs: a scalar codec writes one value of its wire type as a
// little-endian integer; the array codec writes a fixed number of elements,
// or, for a char array treated as a string, a fixed number of text bytes.

module FieldCodecs {
  import opened Bytes
  import opened Buffers
  import opened WireTypes
  import opened CodecFactory
  import opened Values

  /** Integers the codec of `t` writes and reads back unchanged. */
  predicate Representable(t: WireType, n: int)
  {
    var p := Pow256(SizeInBytes(t));
    if IsSigned(t) || t == UInt64 then -(p / 2) <= n < p / 2 else 0 <= n < p
  }

  /** What a scalar codec writes for the integer `n`: its low bytes, least significant first. */
  function ScalarBytes(t: WireType, n: int): (r: seq<uint8>)
    ensures |r| == SizeInBytes(t)
  {
    LittleEndian(n, SizeInBytes(t))
  }

  /** What a scalar codec reads: two's complement for the signed types and for uint64_t, unsigned otherwise. */
  function ScalarValue(t: WireType, bytes: seq<uint8>): (r: int)
    requires |bytes| == SizeInBytes(t)
    ensures Representable(t, r)
  {
    var v := FromLittleEndian(bytes);
    if IsSigned(t) || t == UInt64 then Signed(v, |bytes|) else v
  }

  /** A scalar codec's `encode`: a null value or a non-number is rejected. */
  function ScalarEncoding(t: WireType, value: Option<Value>): (r: Result<seq<uint8>>)
    ensures r.Ok? <==> value.Some? && value.value.Num?
    ensures r.Ok? ==> r.value == ScalarBytes(t, value.value.n)
  {
    match value
    case Some(Num(n)) => Ok(ScalarBytes(t, n))
    case _ => Err("Expected a Number for a scalar field")
  }

  lemma LittleEndianOfZero(n: nat)
    ensures LittleEndian(0, n) == Zeros(n)
  {
    if n > 0 {
      LittleEndianOfZero(n - 1);
      assert Zeros(n) == [0] + Zeros(n - 1);
    }
  }

  lemma {:induction false} ZerosAppend(a: nat, b: nat)
    ensures Zeros(a) + Zeros(b) == Zeros(a + b)
  {
  }

  /** Every representable integer survives a scalar write and read. */
  lemma ScalarRoundTrip(t: WireType, n: int)
    requires Representable(t, n)
    ensures ScalarValue(t, ScalarBytes(t, n)) == n
  {
    var k := SizeInBytes(t);
    if IsSigned(t) || t == UInt64 {
      SignedRoundTrip(n, k);
    } else {
      LittleEndianRoundTrip(n, k);
    }
  }

  /** Any bytes read by a scalar codec are written back identically. */
  lemma ScalarBytesOfValue(t: WireType, bytes: seq<uint8>)
    requires |bytes| == SizeInBytes(t)
    ensures ScalarBytes(t, ScalarValue(t, bytes)) == bytes
  {
    var k := |bytes|;
    var v := FromLittleEndian(bytes);
    LittleEndianOfFromLittleEndian(bytes);
    if (IsSigned(t) || t == UInt64) && v >= Pow256(k) / 2 {
      LittleEndianShift(v, k);
    }
  }

  /** Only the value modulo 256^n is written. */
  lemma LittleEndianMod(v: int, n: nat)
    ensures LittleEndian(v, n) == LittleEndian(v % Pow256(n), n)
  {
    LittleEndianOfFromLittleEndian(LittleEndian(v, n));
    FromLittleEndianOfLittleEndian(v, n);
  }

  /** Writing is blind to multiples of 256^n: the source's narrowing casts. */
  lemma LittleEndianShift(v: int, n: nat)
    ensures LittleEndian(v - Pow256(n), n) == LittleEndian(v, n)
  {
    var p := Pow256(n);
    LittleEndianMod(v, n);
    LittleEndianMod(v - p, n);
    assert v == p * (v / p) + v % p;
    assert p * (v / p - 1) == p * (v / p) - p;
    ModUnique(v - p, p, v / p - 1, v % p);
  }

  /** A scalar codec's `encode` into `buffer`: the number's bytes with one bulk put, or failure. */
  method EncodeScalar(buffer: ByteBuffer, t: WireType, value: Option<Value>) returns (ok: bool)
    requires buffer.Valid()
    modifies buffer, buffer.data
    ensures buffer.Valid() && buffer.limit == old(buffer.limit)
    ensures ok <==> ScalarEncoding(t, value).Ok? && SizeInBytes(t) <= old(buffer.Remaining())
    ensures ok ==> buffer.position == old(buffer.position) + SizeInBytes(t)
                   && buffer.data[..] == Splice(old(buffer.data[..]), old(buffer.position), ScalarEncoding(t, value).value)
    ensures !ok ==> buffer.position == old(buffer.position) && buffer.data[..] == old(buffer.data[..])
  {
    if !(value.Some? && value.value.Num?) {
      return false;
    }
    ok := buffer.PutBytes(ScalarBytes(t, value.value.n));
  }

  /** A scalar codec's `decode` from `buffer`. */
  method DecodeScalar(buffer: ByteBuffer, t: WireType) returns (v: int)
    requires buffer.Valid() && SizeInBytes(t) <= buffer.Remaining()
    modifies buffer
    ensures buffer.Valid() && buffer.limit == old(buffer.limit)
    ensures buffer.position == old(buffer.position) + SizeInBytes(t)
    ensures v == ScalarValue(t, buffer.data[old(buffer.position)..buffer.position])
  {
    var bytes := buffer.GetBytes(SizeInBytes(t));
    v := ScalarValue(t, bytes);
  }

  /** `text` cut to, or zero-padded up to, exactly `length` bytes. */
  function FixedText(text: seq<uint8>, length: nat): (r: seq<uint8>)
    ensures |r| == length
    ensures r[..Min(|text|, length)] == text[..Min(|text|, length)]
    ensures forall i :: Min(|text|, length) <= i < length ==> r[i] == 0
  {
    var copied := Min(|text|, length);
    text[..copied] + Zeros(length - copied)
  }

  /** The bytes before the first zero byte. */
  function UntilZero(raw: seq<uint8>): (r: seq<uint8>)
    ensures |r| <= |raw| && r == raw[..|r|]
    ensures 0 !in r
    ensures |r| < |raw| ==> raw[|r|] == 0
  {
    if |raw| == 0 || raw[0] == 0 then [] else [raw[0]] + UntilZero(raw[1..])
  }

  /** Text without zero bytes is recovered from its fixed-size form, cut to the field length. */
  lemma {:induction false} UntilZeroOfFixedText(text: seq<uint8>, length: nat)
    requires 0 !in text
    ensures UntilZero(FixedText(text, length)) == text[..Min(|text|, length)]
  {
    if |text| > 0 && length > 0 {
      assert FixedText(text, length) == [text[0]] + FixedText(text[1..], length - 1);
      UntilZeroOfFixedText(text[1..], length - 1);
      assert text[..Min(|text|, length)] == [text[0]] + text[1..][..Min(|text| - 1, length - 1)];
    }
  }

  /** Values whose `toString()` text the model carries. */
  predicate Displayable(value: Option<Value>)
  {
    value.None? || value.value.Num? || value.value.Text? || value.value.Other?
  }

  /** `value == null ? "" : value.toString()`, as bytes. */
  function DisplayText(value: Option<Value>): seq<uint8>
    requires Displayable(value)
  {
    match value
    case None => []
    case Some(Num(n)) => DecimalText(n)
    case Some(Text(t)) => t
    case Some(Other(d)) => d
  }

  predicate IsArrayCodec(codec: FieldCodec)
  {
    codec.ArrayCodec? && codec.arrayLength >= 0
  }

  predicate IsStringCodec(codec: FieldCodec)
  {
    codec.ArrayCodec? && codec.treatAsString && codec.element == Char
  }

  /** The elements' encodings one after another; the first failing element fails the whole. */
  function ElementsEncoding(t: WireType, items: seq<Option<Value>>): (r: Result<seq<uint8>>)
    ensures r.Ok? ==> |r.value| == |items| * SizeInBytes(t)
    ensures r.Ok? <==> forall i :: 0 <= i < |items| ==> ScalarEncoding(t, items[i]).Ok?
  {
    if |items| == 0 then Ok([])
    else
      var front := items[..|items| - 1];
      assert forall i :: 0 <= i < |front| ==> front[i] == items[i];
      match ElementsEncoding(t, front)
      case Err(e) => Err(e)
      case Ok(p) =>
        match ScalarEncoding(t, items[|items| - 1])
        case Err(e) => Err(e)
        case Ok(b) =>
          LemmaMulDistributes(|front|, 1, SizeInBytes(t));
          Ok(p + b)
  }

  /**
   * ArrayFieldCodec `encode`: a string codec writes the value's text cut or
   * zero-padded to the array length; otherwise the value must be a List,
   * whose first elements (up to the array length) are written, followed by
   * encoded zeros up to the array length.
   */
  function ArrayEncoding(codec: FieldCodec, value: Option<Value>): (r: Result<seq<uint8>>)
    requires IsArrayCodec(codec)
    requires IsStringCodec(codec) ==> Displayable(value)
    ensures IsStringCodec(codec) ==> r == Ok(FixedText(DisplayText(value), codec.arrayLength))
    ensures !IsStringCodec(codec) && !(value.Some? && value.value.Items?) ==> r.Err?
    ensures r.Ok? && !IsStringCodec(codec) ==> |r.value| == CodecSize(codec)
  {
    if IsStringCodec(codec) then
      Ok(FixedText(DisplayText(value), codec.arrayLength))
    else if !(value.Some? && value.value.Items?) then
      Err("Expected List for array field")
    else
      var items := value.value.elements;
      var count := Min(|items|, codec.arrayLength);
      match ElementsEncoding(codec.element, items[..count])
      case Err(e) => Err(e)
      case Ok(written) =>
        LemmaMulDistributes(count, codec.arrayLength - count, SizeInBytes(codec.element));
        Ok(written + Zeros((codec.arrayLength - count) * SizeInBytes(codec.element)))
  }

  lemma LemmaMulDistributes(a: int, b: int, c: int)
    ensures a * c + b * c == (a + b) * c
  {
  }

  /** The number of bytes one `decode` call consumes. */
  function DecodeWidth(codec: FieldCodec): nat
    requires IsArrayCodec(codec)
  {
    if IsStringCodec(codec) then codec.arrayLength else SizeInBytes(codec.element)
  }

  /**
   * ArrayFieldCodec `decode`: a string codec reads the whole array and
   * keeps the text before the first zero; any other array codec reads a
   * single element.
   */
  function ArrayDecoding(codec: FieldCodec, raw: seq<uint8>): Value
    requires IsArrayCodec(codec) && |raw| == DecodeWidth(codec)
  {
    if IsStringCodec(codec) then Text(UntilZero(raw)) else Num(ScalarValue(codec.element, raw))
  }

  /** String codec: zero-free text no longer than the array comes back as written. */
  lemma StringFieldRoundTrip(codec: FieldCodec, text: seq<uint8>)
    requires IsArrayCodec(codec) && IsStringCodec(codec)
    requires 0 !in text && |text| <= codec.arrayLength
    ensures ArrayEncoding(codec, Some(Text(text))).Ok?
    ensures ArrayDecoding(codec, ArrayEncoding(codec, Some(Text(text))).value) == Text(text)
  {
    UntilZeroOfFixedText(text, codec.arrayLength);
    assert text[..|text|] == text;
  }

  /** String codec: longer text comes back cut to the array length. */
  lemma StringFieldTruncates(codec: FieldCodec, text: seq<uint8>)
    requires IsArrayCodec(codec) && IsStringCodec(codec)
    requires 0 !in text && |text| > codec.arrayLength
    ensures ArrayDecoding(codec, ArrayEncoding(codec, Some(Text(text))).value) == Text(text[..codec.arrayLength])
  {
    UntilZeroOfFixedText(text, codec.arrayLength);
  }

  /** Slot `i` of width `size` in `r` holds `bytes`. */
  predicate SlotHolds(r: seq<uint8>, size: nat, i: nat, bytes: seq<uint8>)
  {
    0 <= i * size <= (i + 1) * size <= |r| && r[i * size..(i + 1) * size] == bytes
  }

  /** Numeric arrays: a short list is padded with zero elements, a long one is cut. */
  lemma NumericArrayLayout(codec: FieldCodec, items: seq<Option<Value>>)
    requires IsArrayCodec(codec) && !IsStringCodec(codec)
    requires forall i :: 0 <= i < |items| ==> items[i].Some? && items[i].value.Num?
    ensures ArrayEncoding(codec, Some(Items(items))).Ok?
    ensures forall i :: 0 <= i < codec.arrayLength ==>
              SlotHolds(ArrayEncoding(codec, Some(Items(items))).value, SizeInBytes(codec.element), i,
                        ScalarBytes(codec.element, if i < |items| then items[i].value.n else 0))
  {
    var size := SizeInBytes(codec.element);
    var count := Min(|items|, codec.arrayLength);
    var front := items[..count];
    assert forall i :: 0 <= i < |front| ==> ScalarEncoding(codec.element, front[i]).Ok?;
    var written := ElementsEncoding(codec.element, front).value;
    var r := written + Zeros((codec.arrayLength - count) * size);
    assert ArrayEncoding(codec, Some(Items(items))) == Ok(r);
    forall i | 0 <= i < codec.arrayLength
      ensures SlotHolds(r, size, i, ScalarBytes(codec.element, if i < |items| then items[i].value.n else 0))
    {
      if i < count {
        WrittenSlot(codec.element, front, (codec.arrayLength - count) * size, i);
        assert front[i] == items[i];
      } else {
        PaddingSlot(codec.element, count, codec.arrayLength, i, written);
      }
    }
  }

  lemma WrittenSlot(t: WireType, items: seq<Option<Value>>, pad: nat, i: nat)
    requires ElementsEncoding(t, items).Ok? && i < |items|
    ensures SlotHolds(ElementsEncoding(t, items).value + Zeros(pad), SizeInBytes(t), i, ScalarEncoding(t, items[i]).value)
  {
    ElementsEncodingSlot(t, items, i);
    var size := SizeInBytes(t);
    var w := ElementsEncoding(t, items).value;
    assert (w + Zeros(pad))[i * size..(i + 1) * size] == w[i * size..(i + 1) * size];
  }

  lemma PaddingSlot(t: WireType, count: nat, length: nat, i: nat, w: seq<uint8>)
    requires count <= i < length && |w| == count * SizeInBytes(t)
    ensures SlotHolds(w + Zeros((length - count) * SizeInBytes(t)), SizeInBytes(t), i, ScalarBytes(t, 0))
  {
    var size := SizeInBytes(t);
    var r := w + Zeros((length - count) * size);
    LemmaMulDistributes(count, length - count, size);
    MulMonotone(i + 1, length, size);
    MulMonotone(count, i, size);
    LittleEndianOfZero(size);
    assert r[i * size..(i + 1) * size] == Zeros(size);
  }

  lemma MulMonotone(a: int, b: int, c: nat)
    requires a <= b
    ensures a * c <= b * c
  {
  }

  /** The `i`-th element occupies the `i`-th slot of its size. */
  lemma {:induction false} ElementsEncodingSlot(t: WireType, items: seq<Option<Value>>, i: nat)
    requires ElementsEncoding(t, items).Ok? && i < |items|
    ensures SlotHolds(ElementsEncoding(t, items).value, SizeInBytes(t), i, ScalarEncoding(t, items[i]).value)
    decreases |items|, 1
  {
    if i == |items| - 1 {
      LastElementSlot(t, items);
    } else {
      EarlierElementSlot(t, items, i);
    }
  }

  /** The last element's bytes end the encoding. */
  lemma LastElementSlot(t: WireType, items: seq<Option<Value>>)
    requires ElementsEncoding(t, items).Ok? && |items| > 0
    ensures SlotHolds(ElementsEncoding(t, items).value, SizeInBytes(t), |items| - 1, ScalarEncoding(t, items[|items| - 1]).value)
  {
    var n := |items|;
    var p := ElementsEncoding(t, items[..n - 1]).value;
    var b := ScalarEncoding(t, items[n - 1]).value;
    assert ElementsEncoding(t, items).value == p + b;
    LemmaMulDistributes(n - 1, 1, SizeInBytes(t));
    SliceOfConcatRight(p, b);
  }

  /** An element before the last sits where it sat in the encoding of the elements before the last. */
  lemma {:induction false} EarlierElementSlot(t: WireType, items: seq<Option<Value>>, i: nat)
    requires ElementsEncoding(t, items).Ok? && i < |items| - 1
    ensures SlotHolds(ElementsEncoding(t, items).value, SizeInBytes(t), i, ScalarEncoding(t, items[i]).value)
    decreases |items|, 0
  {
    var size := SizeInBytes(t);
    var n := |items|;
    var front := items[..n - 1];
    var p := ElementsEncoding(t, front).value;
    var b := ScalarEncoding(t, items[n - 1]).value;
    assert ElementsEncoding(t, items).value == p + b;
    assert front[i] == items[i];
    ElementsEncodingSlot(t, front, i);
    MulMonotone(i + 1, n, size);
    MulMonotone(0, i, size);
    SliceOfConcatLeft(p, b, i * size, (i + 1) * size);
  }

  /** The first zero byte found by a left-to-right scan ends the text. */
  lemma UntilZeroIs(raw: seq<uint8>, end: nat)
    requires end <= |raw| && 0 !in raw[..end] && (end == |raw| || raw[end] == 0)
    ensures UntilZero(raw) == raw[..end]
  {
  }

  /** The string branch: `min(len, n)` text bytes with one bulk put, then zero bytes up to the array length. */
  method EncodeText(buffer: ByteBuffer, bytes: seq<uint8>, arrayLength: nat) returns (ok: bool)
    requires buffer.Valid()
    modifies buffer, buffer.data
    ensures buffer.Valid() && buffer.limit == old(buffer.limit)
    ensures ok <==> arrayLength <= old(buffer.Remaining())
    ensures ok ==> buffer.position == old(buffer.position) + arrayLength
                   && buffer.data[..] == Splice(old(buffer.data[..]), old(buffer.position), FixedText(bytes, arrayLength))
  {
    var start := buffer.position;
    ghost var image := buffer.data[..];
    ghost var end := buffer.limit;
    var length := Min(|bytes|, arrayLength);
    ok := buffer.PutBytes(bytes[..length]);
    if !ok {
      return;
    }
    var index := length;
    while index < arrayLength
      invariant length <= index <= arrayLength
      invariant buffer.Valid() && buffer.limit == end
      invariant buffer.position == start + index
      invariant buffer.data[..] == Splice(image, start, bytes[..length] + Zeros(index - length))
    {
      var put := buffer.Put(0);
      if !put {
        return false;
      }
      PadOneMore(image, start, bytes[..length], index - length);
      index := index + 1;
    }
    return true;
  }

  /** Splicing one more zero after a zero-padded text. */
  lemma PadOneMore(image: seq<uint8>, start: nat, text: seq<uint8>, padding: nat)
    requires start + |text| + padding < |image|
    ensures Splice(Splice(image, start, text + Zeros(padding)), start + |text| + padding, [0])
            == Splice(image, start, text + Zeros(padding + 1))
  {
    SpliceSplice(image, start, text + Zeros(padding), [0]);
    assert Zeros(padding) + [0] == Zeros(padding + 1);
    assert text + Zeros(padding) + [0] == text + Zeros(padding + 1);
  }

  /** The element loop: one scalar `encode` per list element, in order. */
  method EncodeElements(buffer: ByteBuffer, t: WireType, values: seq<Option<Value>>) returns (ok: bool)
    requires buffer.Valid()
    modifies buffer, buffer.data
    ensures buffer.Valid() && buffer.limit == old(buffer.limit)
    ensures ok <==> ElementsEncoding(t, values).Ok? && |values| * SizeInBytes(t) <= old(buffer.Remaining())
    ensures ok ==> buffer.position == old(buffer.position) + |values| * SizeInBytes(t)
                   && buffer.data[..] == Splice(old(buffer.data[..]), old(buffer.position), ElementsEncoding(t, values).value)
  {
    var start := buffer.position;
    ghost var image := buffer.data[..];
    ghost var room := buffer.Remaining();
    ghost var written: seq<uint8> := [];
    var index := 0;
    while index < |values|
      invariant 0 <= index <= |values|
      invariant buffer.Valid() && buffer.limit == start + room
      invariant ElementsEncoding(t, values[..index]) == Ok(written)
      invariant buffer.position == start + |written|
      invariant buffer.data[..] == Splice(image, start, written)
    {
      var put;
      put, written := EncodeElement(buffer, t, values, index, image, start, written);
      if !put {
        EncodeElementsFailed(t, values, index, room, buffer.Remaining());
        return false;
      }
      index := index + 1;
    }
    assert values[..index] == values;
    return true;
  }

  /** One pass of the element loop: element `index` after the ones already written, if it can be written and fits. */
  method EncodeElement(buffer: ByteBuffer, t: WireType, values: seq<Option<Value>>, index: nat, ghost image: seq<uint8>,
                       start: int, ghost written: seq<uint8>)
    returns (put: bool, ghost written': seq<uint8>)
    requires buffer.Valid() && index < |values| && 0 <= start && buffer.position == start + |written|
    requires start + |written| <= |image| == buffer.data.Length && buffer.data[..] == Splice(image, start, written)
    requires ElementsEncoding(t, values[..index]) == Ok(written)
    modifies buffer, buffer.data
    ensures buffer.Valid() && buffer.limit == old(buffer.limit)
    ensures put <==> ScalarEncoding(t, values[index]).Ok? && SizeInBytes(t) <= old(buffer.Remaining())
    ensures !put ==> buffer.position == old(buffer.position)
    ensures put ==> ElementsEncoding(t, values[..index + 1]) == Ok(written') && buffer.position == start + |written'|
                    && buffer.data[..] == Splice(image, start, written')
  {
    put := EncodeScalar(buffer, t, values[index]);
    written' := written;
    if put {
      ElementsEncodingSnoc(t, values, index);
      SpliceSplice(image, start, written, ScalarBytes(t, values[index].value.n));
      written' := written + ScalarBytes(t, values[index].value.n);
    }
  }

  lemma ElementsEncodingSnoc(t: WireType, values: seq<Option<Value>>, index: nat)
    requires index < |values| && ElementsEncoding(t, values[..index]).Ok? && ScalarEncoding(t, values[index]).Ok?
    ensures ElementsEncoding(t, values[..index + 1])
            == Ok(ElementsEncoding(t, values[..index]).value + ScalarEncoding(t, values[index]).value)
  {
    assert values[..index + 1][..index] == values[..index];
  }

  /** A failed element write means a bad element or too little room for all of them. */
  lemma EncodeElementsFailed(t: WireType, values: seq<Option<Value>>, index: nat, room: int, left: int)
    requires index < |values|
    requires !(ScalarEncoding(t, values[index]).Ok? && SizeInBytes(t) <= left)
    requires left == room - index * SizeInBytes(t)
    ensures !(ElementsEncoding(t, values).Ok? && |values| * SizeInBytes(t) <= room)
  {
    MulMonotone(index + 1, |values|, SizeInBytes(t));
  }

  /** Running out of room part-way means the whole run did not fit. */
  lemma RunDidNotFit(size: nat, index: nat, count: nat, room: int, left: int)
    requires index < count && left < size && left == room - index * size
    ensures count * size > room
  {
    MulMonotone(index + 1, count, size);
  }

  /** `count` copies of `block`. */
  function Repeat(block: seq<uint8>, count: nat): (r: seq<uint8>)
    ensures |r| == count * |block|
  {
    if count == 0 then [] else Repeat(block, count - 1) + block
  }

  lemma {:induction false} RepeatZeros(size: nat, count: nat)
    ensures Repeat(Zeros(size), count) == Zeros(count * size)
  {
    if count > 0 {
      RepeatZeros(size, count - 1);
      LemmaMulDistributes(count - 1, 1, size);
      ZerosAppend((count - 1) * size, size);
    }
  }

  /** The padding loop: `count` scalar encodings of zero. */
  method EncodeZeroElements(buffer: ByteBuffer, t: WireType, count: nat) returns (ok: bool)
    requires buffer.Valid()
    modifies buffer, buffer.data
    ensures buffer.Valid() && buffer.limit == old(buffer.limit)
    ensures ok <==> count * SizeInBytes(t) <= old(buffer.Remaining())
    ensures ok ==> buffer.position == old(buffer.position) + count * SizeInBytes(t)
                   && buffer.data[..] == Splice(old(buffer.data[..]), old(buffer.position), Zeros(count * SizeInBytes(t)))
  {
    var start := buffer.position;
    ghost var image := buffer.data[..];
    ghost var room := buffer.Remaining();
    var zero := ScalarBytes(t, 0);
    LittleEndianOfZero(SizeInBytes(t));
    ghost var written: seq<uint8> := [];
    var index := 0;
    while index < count
      invariant 0 <= index <= count
      invariant buffer.Valid() && buffer.limit == start + room
      invariant written == Repeat(zero, index) && |written| == index * |zero|
      invariant buffer.position == start + |written|
      invariant buffer.data[..] == Splice(image, start, written)
    {
      var put;
      put, written := EncodeZeroElement(buffer, t, image, start, written);
      if !put {
        RunDidNotFit(|zero|, index, count, room, buffer.Remaining());
        return false;
      }
      LemmaMulDistributes(index, 1, |zero|);
      index := index + 1;
    }
    assert |zero| == SizeInBytes(t) && |written| == count * SizeInBytes(t);
    RepeatZeros(|zero|, count);
    return true;
  }

  /** One pass of the padding loop: a zero element after what is already written, if it fits. */
  method EncodeZeroElement(buffer: ByteBuffer, t: WireType, ghost image: seq<uint8>, start: int, ghost written: seq<uint8>)
    returns (put: bool, ghost written': seq<uint8>)
    requires buffer.Valid() && 0 <= start && buffer.position == start + |written|
    requires start + |written| <= |image| == buffer.data.Length && buffer.data[..] == Splice(image, start, written)
    modifies buffer, buffer.data
    ensures buffer.Valid() && buffer.limit == old(buffer.limit)
    ensures put <==> SizeInBytes(t) <= old(buffer.Remaining())
    ensures !put ==> buffer.position == old(buffer.position)
    ensures put ==> written' == written + ScalarBytes(t, 0) && buffer.position == start + |written'|
                    && buffer.data[..] == Splice(image, start, written')
  {
    assert ScalarEncoding(t, Some(Num(0))) == Ok(ScalarBytes(t, 0));
    put := EncodeScalar(buffer, t, Some(Num(0)));
    written' := written;
    if put {
      SpliceSplice(image, start, written, ScalarBytes(t, 0));
      written' := written + ScalarBytes(t, 0);
    }
  }

  /** ArrayFieldCodec `encode` into `buffer`; ok == false stands for the exception it throws. */
  method ArrayEncode(buffer: ByteBuffer, codec: FieldCodec, value: Option<Value>) returns (ok: bool)
    requires buffer.Valid() && IsArrayCodec(codec)
    requires IsStringCodec(codec) ==> Displayable(value)
    modifies buffer, buffer.data
    ensures buffer.Valid() && buffer.limit == old(buffer.limit)
    ensures ok <==> ArrayEncoding(codec, value).Ok? && |ArrayEncoding(codec, value).value| <= old(buffer.Remaining())
    ensures ok ==> buffer.position == old(buffer.position) + |ArrayEncoding(codec, value).value|
                   && buffer.data[..] == Splice(old(buffer.data[..]), old(buffer.position), ArrayEncoding(codec, value).value)
  {
    if IsStringCodec(codec) {
      ok := EncodeText(buffer, DisplayText(value), codec.arrayLength);
      return;
    }
    if !(value.Some? && value.value.Items?) {
      return false;
    }
    var values := value.value.elements;
    var limit := Min(|values|, codec.arrayLength);
    var padding := codec.arrayLength - limit;
    ghost var size := SizeInBytes(codec.element);
    ghost var elements := ElementsEncoding(codec.element, values[..limit]);
    ghost var encoding := ArrayEncoding(codec, value);
    assert elements.Err? ==> encoding.Err?;
    assert elements.Ok? ==> encoding == Ok(elements.value + Zeros(padding * size));
    assert |values[..limit]| + padding == codec.arrayLength;
    LemmaMulDistributes(limit, padding, size);
    assert elements.Ok? ==> |encoding.value| == (|values[..limit]| + padding) * size;
    ok := EncodeNumericArray(buffer, codec.element, values[..limit], padding);
  }

  /** The numeric branch: the elements that fit the array, then zero elements up to its length. */
  method EncodeNumericArray(buffer: ByteBuffer, t: WireType, values: seq<Option<Value>>, padding: nat) returns (ok: bool)
    requires buffer.Valid()
    modifies buffer, buffer.data
    ensures buffer.Valid() && buffer.limit == old(buffer.limit)
    ensures ok <==> ElementsEncoding(t, values).Ok? && (|values| + padding) * SizeInBytes(t) <= old(buffer.Remaining())
    ensures ok ==> buffer.position == old(buffer.position) + (|values| + padding) * SizeInBytes(t)
                   && buffer.data[..] == Splice(old(buffer.data[..]), old(buffer.position),
                                                ElementsEncoding(t, values).value + Zeros(padding * SizeInBytes(t)))
  {
    var size := SizeInBytes(t);
    ghost var start := buffer.position;
    ghost var original := buffer.data[..];
    ghost var room := buffer.Remaining();
    LemmaMulDistributes(|values|, padding, size);
    ok := EncodeElements(buffer, t, values);
    if !ok {
      MulMonotone(|values|, |values| + padding, size);
      return;
    }
    ghost var written := ElementsEncoding(t, values).value;
    ok := EncodeZeroElements(buffer, t, padding);
    if ok {
      SpliceSplice(original, start, written, Zeros(padding * size));
    }
  }

  /** ArrayFieldCodec `decode` from `buffer`. */
  method ArrayDecode(buffer: ByteBuffer, codec: FieldCodec) returns (v: Value)
    requires buffer.Valid() && IsArrayCodec(codec) && DecodeWidth(codec) <= buffer.Remaining()
    modifies buffer
    ensures buffer.Valid() && buffer.limit == old(buffer.limit)
    ensures buffer.position == old(buffer.position) + DecodeWidth(codec)
    ensures v == ArrayDecoding(codec, buffer.data[old(buffer.position)..buffer.position])
  {
    if IsStringCodec(codec) {
      var temp := buffer.GetBytes(codec.arrayLength);
      var end := 0;
      while end < |temp| && temp[end] != 0
        invariant 0 <= end <= |temp| && 0 !in temp[..end]
      {
        assert temp[..end + 1] == temp[..end] + [temp[end]];
        end := end + 1;
      }
      UntilZeroIs(temp, end);
      v := Text(temp[..end]);
    } else {
      var n := DecodeScalar(buffer, codec.element);
      v := Num(n);
    }
  }
}
