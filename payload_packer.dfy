// Packing a message's field values into a MAVLink payload: the compiled
// fields are written in wire order into a buffer sized for every field;
// trailing extension fields after the last one given a value are left off,
// and a field given no value is written as zeros.

module PayloadPacker {
  import opened Bytes
  import opened Buffers
  import opened WireTypes
  import opened CodecFactory
  import opened Values
  import opened FieldCodecs
  import opened Messages
  import opened Enums
  import opened Registry
  import opened EnumResolver

  /** `values.get(name)`: a missing key and a null value both read as null. */
  function Lookup(values: map<string, Value>, name: string): Option<Value>
  {
    if name in values then Some(values[name]) else None
  }

  /** An extension field that was given a value. */
  predicate GivenExtension(cf: CompiledField, values: map<string, Value>)
  {
    cf.definition.extension && cf.definition.name in values
  }

  /** The index of the last extension field given a value, or -1. */
  function LastExtensionIndex(fields: seq<CompiledField>, values: map<string, Value>): (r: int)
    ensures -1 <= r < |fields|
    ensures r >= 0 ==> GivenExtension(fields[r], values)
    ensures forall i :: r < i < |fields| ==> !GivenExtension(fields[i], values)
  {
    if |fields| == 0 then -1
    else if GivenExtension(fields[|fields| - 1], values) then |fields| - 1
    else LastExtensionIndex(fields[..|fields| - 1], values)
  }

  /** The number of fields written: up to the first extension field past `last`. */
  function IncludedCount(fields: seq<CompiledField>, last: int): (r: nat)
    ensures r <= |fields|
    ensures forall i :: 0 <= i < r ==> !(fields[i].definition.extension && i > last)
    ensures r < |fields| ==> fields[r].definition.extension && r > last
  {
    CountFrom(fields, last, 0)
  }

  function CountFrom(fields: seq<CompiledField>, last: int, i: nat): (r: nat)
    requires i <= |fields|
    requires forall k :: 0 <= k < i ==> !(fields[k].definition.extension && k > last)
    ensures i <= r <= |fields|
    ensures forall k :: 0 <= k < r ==> !(fields[k].definition.extension && k > last)
    ensures r < |fields| ==> fields[r].definition.extension && r > last
    decreases |fields| - i
  {
    if i == |fields| || (fields[i].definition.extension && i > last) then i
    else CountFrom(fields, last, i + 1)
  }

  /** The sum of the compiled sizes. */
  function SumSizes(fields: seq<CompiledField>): int
  {
    if |fields| == 0 then 0 else SumSizes(fields[..|fields| - 1]) + fields[|fields| - 1].sizeInBytes
  }

  /** `toElements`: a List as is, an Object[] or a byte[] element by element; anything else is rejected. */
  function ToElements(value: Option<Value>): Result<seq<Option<Value>>>
  {
    match value
    case Some(Items(list)) => Ok(list)
    case Some(Elements(items)) => Ok(items)
    case Some(Raw(bytes)) => Ok(seq(|bytes|, i requires 0 <= i < |bytes| => Some(Num(Signed(bytes[i] as int, 1)))))
    case _ => Err("Array field expects List or array")
  }

  /** `encodeCharArray`: a String's UTF-8 bytes or a byte[], cut or zero-padded to the array length. */
  function CharArrayBytes(length: nat, value: Option<Value>): Result<seq<uint8>>
  {
    match value
    case Some(Text(utf8)) => Ok(FixedText(utf8, length))
    case Some(Raw(bytes)) => Ok(FixedText(bytes, length))
    case _ => Err("CHAR array field expects String or byte[]")
  }

  /**
   * A numeric array: the codec's encoding, which already pads to the array
   * length. With `padAgain` the packer then adds (length - count) more zero
   * elements, as `encodeTypedArray` is written.
   */
  function TypedArrayBytes(codec: FieldCodec, elements: seq<Option<Value>>, padAgain: bool): Result<seq<uint8>>
    requires IsArrayCodec(codec) && !IsStringCodec(codec)
  {
    match ArrayEncoding(codec, Some(Items(elements)))
    case Err(e) => Err(e)
    case Ok(encoded) =>
      var remaining := codec.arrayLength - Min(codec.arrayLength, |elements|);
      if padAgain && remaining > 0 then Ok(encoded + Zeros(remaining * SizeInBytes(codec.element)))
      else Ok(encoded)
  }

  /** The bytes one compiled field contributes, after its enum value is resolved. */
  function FieldBytes(enums: map<string, EnumDefinition>, cf: CompiledField, value: Option<Value>, padAgain: bool): Result<seq<uint8>>
    requires WellFormedField(cf)
  {
    if value.None? then Ok(Zeros(cf.sizeInBytes))
    else
      match Resolution(enums, cf.definition, value)
      case Err(e) => Err(e)
      case Ok(resolved) =>
        if !cf.definition.isArray then ScalarEncoding(cf.definition.wireType, resolved)
        else if cf.definition.wireType == Char then CharArrayBytes(cf.definition.arrayLength, resolved)
        else
          match ToElements(resolved)
          case Err(e) => Err(e)
          case Ok(elements) => TypedArrayBytes(cf.codec, elements, padAgain)
  }

  /** The fields' bytes one after another; the first failing field fails the whole. */
  function FieldsBytes(enums: map<string, EnumDefinition>, fields: seq<CompiledField>, values: map<string, Value>, padAgain: bool): Result<seq<uint8>>
    requires forall i :: 0 <= i < |fields| ==> WellFormedField(fields[i])
  {
    if |fields| == 0 then Ok([])
    else
      var last := fields[|fields| - 1];
      Concat(FieldsBytes(enums, fields[..|fields| - 1], values, padAgain), FieldBytes(enums, last, Lookup(values, last.definition.name), padAgain))
  }

  /**
   * `packPayload`: an unknown id and an empty layout are errors; the
   * included fields are written into a buffer the size of every field, and
   * writing past its end is an error.
   */
  function PackedPayload(byId: map<int, CompiledMessage>, enums: map<string, EnumDefinition>, messageId: int,
                         values: map<string, Value>, padAgain: bool): Result<seq<uint8>>
    requires forall id :: id in byId ==> WellFormedMessage(byId[id])
  {
    if messageId !in byId then Err("Unknown MAVLink message id")
    else
      var fields := byId[messageId].compiledFields;
      var capacity := SumSizes(fields);
      if capacity <= 0 then Err("Computed MAVLink payload size is 0")
      else
        var count := IncludedCount(fields, LastExtensionIndex(fields, values));
        assert WellFormedMessage(byId[messageId]);
        assert forall i :: 0 <= i < count ==> fields[..count][i] == fields[i];
        match FieldsBytes(enums, fields[..count], values, padAgain)
        case Err(e) => Err(e)
        case Ok(bytes) => if |bytes| > capacity then Err("BufferOverflowException") else Ok(bytes)
  }

  lemma SplicePrefix(s: seq<uint8>, at: nat, w: seq<uint8>)
    requires at + |w| <= |s|
    ensures Splice(s, at, w)[..at + |w|] == s[..at] + w
  {
  }

  lemma FieldsBytesSnoc(enums: map<string, EnumDefinition>, fields: seq<CompiledField>, values: map<string, Value>, padAgain: bool, i: nat)
    requires i < |fields| && forall k :: 0 <= k < |fields| ==> WellFormedField(fields[k])
    ensures FieldsBytes(enums, fields[..i + 1], values, padAgain)
            == Concat(FieldsBytes(enums, fields[..i], values, padAgain),
                      FieldBytes(enums, fields[i], Lookup(values, fields[i].definition.name), padAgain))
  {
    assert fields[..i + 1][..i] == fields[..i];
  }

  /** Bytes written for a prefix of the fields are a prefix of the bytes for more of them. */
  lemma {:induction false} FieldsBytesGrow(enums: map<string, EnumDefinition>, fields: seq<CompiledField>, values: map<string, Value>, padAgain: bool, i: nat, j: nat)
    requires i <= j <= |fields| && forall k :: 0 <= k < |fields| ==> WellFormedField(fields[k])
    requires FieldsBytes(enums, fields[..j], values, padAgain).Ok?
    ensures FieldsBytes(enums, fields[..i], values, padAgain).Ok?
    ensures |FieldsBytes(enums, fields[..i], values, padAgain).value| <= |FieldsBytes(enums, fields[..j], values, padAgain).value|
    decreases j
  {
    if i < j {
      FieldsBytesSnoc(enums, fields, values, padAgain, j - 1);
      FieldsBytesGrow(enums, fields, values, padAgain, i, j - 1);
    }
  }

  /** Sizes of well-formed fields are never negative, so a prefix never sums to more than the whole. */
  lemma {:induction false} SumSizesPrefix(fields: seq<CompiledField>, k: nat)
    requires k <= |fields| && forall i :: 0 <= i < |fields| ==> WellFormedField(fields[i])
    ensures 0 <= SumSizes(fields[..k]) <= SumSizes(fields)
  {
    if |fields| > 0 {
      var front := fields[..|fields| - 1];
      assert fields[..|fields|] == fields;
      if k < |fields| {
        assert front[..k] == fields[..k];
        SumSizesPrefix(front, k);
      } else {
        SumSizesPrefix(front, 0);
      }
    }
  }

  /** A field that can be written fills exactly its compiled size. */
  lemma FieldBytesLength(enums: map<string, EnumDefinition>, cf: CompiledField, value: Option<Value>)
    requires WellFormedField(cf) && FieldBytes(enums, cf, value, false).Ok?
    ensures |FieldBytes(enums, cf, value, false).value| == cf.sizeInBytes
  {
    if value.Some? && cf.definition.isArray && cf.definition.wireType == Char {
      assert cf.sizeInBytes == cf.definition.arrayLength;
    }
  }

  /** The fields' bytes, when they can all be written, are as long as the fields' sizes add up to. */
  lemma {:induction false} FieldsBytesLength(enums: map<string, EnumDefinition>, fields: seq<CompiledField>, values: map<string, Value>)
    requires forall i :: 0 <= i < |fields| ==> WellFormedField(fields[i])
    requires FieldsBytes(enums, fields, values, false).Ok?
    ensures |FieldsBytes(enums, fields, values, false).value| == SumSizes(fields)
  {
    if |fields| > 0 {
      var front := fields[..|fields| - 1];
      var last := fields[|fields| - 1];
      FieldsBytesLength(enums, front, values);
      FieldBytesLength(enums, last, Lookup(values, last.definition.name));
    }
  }

  /** Field `i` occupies the bytes from the sum of the sizes before it, holding exactly its own encoding. */
  lemma {:induction false} FieldsBytesSlot(enums: map<string, EnumDefinition>, fields: seq<CompiledField>, values: map<string, Value>, i: nat)
    requires forall k :: 0 <= k < |fields| ==> WellFormedField(fields[k])
    requires i < |fields| && FieldsBytes(enums, fields, values, false).Ok?
    ensures var b := FieldsBytes(enums, fields, values, false).value;
            var start := SumSizes(fields[..i]);
            0 <= start && start + fields[i].sizeInBytes <= |b|
            && FieldBytes(enums, fields[i], Lookup(values, fields[i].definition.name), false).Ok?
            && b[start..start + fields[i].sizeInBytes] == FieldBytes(enums, fields[i], Lookup(values, fields[i].definition.name), false).value
    decreases |fields|, 1
  {
    if i == |fields| - 1 {
      LastFieldSlot(enums, fields, values);
    } else {
      EarlierFieldSlot(enums, fields, values, i);
    }
  }

  lemma LastFieldSlot(enums: map<string, EnumDefinition>, fields: seq<CompiledField>, values: map<string, Value>)
    requires forall k :: 0 <= k < |fields| ==> WellFormedField(fields[k])
    requires |fields| > 0 && FieldsBytes(enums, fields, values, false).Ok?
    ensures var i := |fields| - 1;
            var b := FieldsBytes(enums, fields, values, false).value;
            var start := SumSizes(fields[..i]);
            0 <= start && start + fields[i].sizeInBytes <= |b|
            && FieldBytes(enums, fields[i], Lookup(values, fields[i].definition.name), false).Ok?
            && b[start..start + fields[i].sizeInBytes] == FieldBytes(enums, fields[i], Lookup(values, fields[i].definition.name), false).value
  {
    var last := fields[|fields| - 1];
    var p := FieldsBytesSplit(enums, fields, values);
    var q := FieldBytes(enums, last, Lookup(values, last.definition.name), false).value;
    SumSizesPrefix(fields, |fields| - 1);
    SliceOfConcatRight(p, q);
  }

  lemma {:induction false} EarlierFieldSlot(enums: map<string, EnumDefinition>, fields: seq<CompiledField>, values: map<string, Value>, i: nat)
    requires forall k :: 0 <= k < |fields| ==> WellFormedField(fields[k])
    requires i < |fields| - 1 && FieldsBytes(enums, fields, values, false).Ok?
    ensures var b := FieldsBytes(enums, fields, values, false).value;
            var start := SumSizes(fields[..i]);
            0 <= start && start + fields[i].sizeInBytes <= |b|
            && FieldBytes(enums, fields[i], Lookup(values, fields[i].definition.name), false).Ok?
            && b[start..start + fields[i].sizeInBytes] == FieldBytes(enums, fields[i], Lookup(values, fields[i].definition.name), false).value
    decreases |fields|, 0
  {
    var front := fields[..|fields| - 1];
    var last := fields[|fields| - 1];
    var p := FieldsBytesSplit(enums, fields, values);
    var q := FieldBytes(enums, last, Lookup(values, last.definition.name), false).value;
    assert front[..i] == fields[..i];
    assert front[i] == fields[i];
    FieldsBytesSlot(enums, front, values, i);
    var start := SumSizes(fields[..i]);
    SliceOfConcatLeft(p, q, start, start + fields[i].sizeInBytes);
  }

  /** The bytes of all the fields are those of all but the last, then the last one's, which fill its size. */
  lemma FieldsBytesSplit(enums: map<string, EnumDefinition>, fields: seq<CompiledField>, values: map<string, Value>)
    returns (p: seq<uint8>)
    requires forall k :: 0 <= k < |fields| ==> WellFormedField(fields[k])
    requires |fields| > 0 && FieldsBytes(enums, fields, values, false).Ok?
    ensures var last := fields[|fields| - 1];
            var q := FieldBytes(enums, last, Lookup(values, last.definition.name), false);
            FieldsBytes(enums, fields[..|fields| - 1], values, false) == Ok(p) && q.Ok?
            && |p| == SumSizes(fields[..|fields| - 1]) && |q.value| == last.sizeInBytes
            && FieldsBytes(enums, fields, values, false).value == p + q.value
  {
    var front := fields[..|fields| - 1];
    var last := fields[|fields| - 1];
    p := FieldsBytes(enums, front, values, false).value;
    FieldsBytesLength(enums, front, values);
    FieldBytesLength(enums, last, Lookup(values, last.definition.name));
  }

  /** A field given no value is written as zeros over its whole slot. */
  lemma AbsentFieldIsZeros(enums: map<string, EnumDefinition>, fields: seq<CompiledField>, values: map<string, Value>, i: nat)
    requires forall k :: 0 <= k < |fields| ==> WellFormedField(fields[k])
    requires i < |fields| && fields[i].definition.name !in values
    requires FieldsBytes(enums, fields, values, false).Ok?
    ensures var b := FieldsBytes(enums, fields, values, false).value;
            var start := SumSizes(fields[..i]);
            forall k :: start <= k < start + fields[i].sizeInBytes ==> 0 <= k < |b| && b[k] == 0
  {
    FieldsBytesSlot(enums, fields, values, i);
    var b := FieldsBytes(enums, fields, values, false).value;
    var start := SumSizes(fields[..i]);
    var slot := b[start..start + fields[i].sizeInBytes];
    assert Lookup(values, fields[i].definition.name) == None;
    assert slot == Zeros(fields[i].sizeInBytes);
    forall k | start <= k < start + fields[i].sizeInBytes
      ensures 0 <= k < |b| && b[k] == 0
    {
      assert b[k] == slot[k - start];
    }
  }

  /** In a compiled layout the sum of the sizes before field `i` is that field's offset. */
  lemma {:induction false} SumSizesOfLayout(definition: MessageDefinition, i: nat)
    requires i <= |definition.fields|
    ensures SumSizes(Layout(definition).compiledFields[..i]) == TotalSize(definition.fields[..i])
  {
    if i > 0 {
      var c := Layout(definition).compiledFields;
      assert c[..i][..i - 1] == c[..i - 1];
      assert definition.fields[..i][..i - 1] == definition.fields[..i - 1];
      SumSizesOfLayout(definition, i - 1);
    }
  }

  /**
   * The corrected packer cannot overflow: the payload is exactly the
   * included fields' bytes, as long as their sizes add up to (what
   * `computePayloadSize` computes), and it fails only when a field does.
   */
  lemma PackedPayloadLength(byId: map<int, CompiledMessage>, enums: map<string, EnumDefinition>, messageId: int, values: map<string, Value>)
    requires forall id :: id in byId ==> WellFormedMessage(byId[id])
    requires messageId in byId && SumSizes(byId[messageId].compiledFields) > 0
    ensures var fields := byId[messageId].compiledFields;
            var included := fields[..IncludedCount(fields, LastExtensionIndex(fields, values))];
            var r := PackedPayload(byId, enums, messageId, values, false);
            (r.Ok? <==> FieldsBytes(enums, included, values, false).Ok?)
            && (r.Ok? ==> r.value == FieldsBytes(enums, included, values, false).value && |r.value| == SumSizes(included))
  {
    var fields := byId[messageId].compiledFields;
    assert WellFormedMessage(byId[messageId]);
    var count := IncludedCount(fields, LastExtensionIndex(fields, values));
    var included := fields[..count];
    assert forall i :: 0 <= i < count ==> included[i] == fields[i];
    if FieldsBytes(enums, included, values, false).Ok? {
      FieldsBytesLength(enums, included, values);
      SumSizesPrefix(fields, count);
    }
  }

  /** Fields whose extensions all follow their base fields. */
  predicate ExtensionsLast(fields: seq<CompiledField>)
  {
    forall i, j :: 0 <= i < j < |fields| && fields[i].definition.extension ==> fields[j].definition.extension
  }

  /**
   * Trimming drops only trailing extensions nobody gave a value: every
   * extension given a value is written, and every field left off is an
   * extension with no value.
   */
  lemma TrimmedAreUnsetExtensions(fields: seq<CompiledField>, values: map<string, Value>)
    requires ExtensionsLast(fields)
    ensures var count := IncludedCount(fields, LastExtensionIndex(fields, values));
            (forall j :: 0 <= j < |fields| && GivenExtension(fields[j], values) ==> j < count)
            && (forall j :: count <= j < |fields| ==> fields[j].definition.extension && fields[j].definition.name !in values)
  {
    var last := LastExtensionIndex(fields, values);
    var count := IncludedCount(fields, last);
    forall j | count <= j < |fields|
      ensures fields[j].definition.extension && fields[j].definition.name !in values
    {
      assert fields[count].definition.extension && count > last;
      assert !GivenExtension(fields[j], values);
    }
  }

  /** A uint8_t[2] field, as compiled. */
  function PairField(): (r: CompiledField)
    ensures WellFormedField(r)
  {
    CompiledField(FieldDefinition(0, Some("uint8_t[2]"), "pair", None, UInt8, false, true, 2), ArrayCodec(UInt8, 2, false), 0, 2)
  }

  /**
   * A numeric array given fewer elements than its length: the codec has
   * already padded it to its full size, so padding again writes past the
   * field's slot.
   */
  lemma {:induction false} PaddingAgainOverruns(codec: FieldCodec, elements: seq<Option<Value>>)
    requires IsArrayCodec(codec) && !IsStringCodec(codec) && |elements| < codec.arrayLength
    requires TypedArrayBytes(codec, elements, false).Ok?
    ensures |TypedArrayBytes(codec, elements, false).value| == CodecSize(codec)
    ensures TypedArrayBytes(codec, elements, true).Ok?
    ensures |TypedArrayBytes(codec, elements, true).value| > CodecSize(codec)
  {
    var n := codec.arrayLength - |elements|;
    var size := SizeInBytes(codec.element);
    MulMonotone(1, n, size);
  }

  /** The one-element list [1] packed into the uint8_t[2] field: [1, 0] when padded once, [1, 0, 0] when padded twice. */
  lemma PairFieldBytes()
    ensures FieldBytes(map[], PairField(), Some(Items([Some(Num(1))])), false) == Ok([1, 0])
    ensures FieldBytes(map[], PairField(), Some(Items([Some(Num(1))])), true) == Ok([1, 0, 0])
  {
    var items := [Some(Num(1))];
    var codec := ArrayCodec(UInt8, 2, false);
    assert items[..1] == items && items[..0] == [];
    assert ScalarBytes(UInt8, 1) == [1];
    var one: seq<uint8> := [1];
    assert ElementsEncoding(UInt8, items) == Ok([] + one);
    assert [] + one == one;
    assert Zeros(1) == [0];
    var corrected: seq<uint8> := [1, 0];
    var doubled: seq<uint8> := [1, 0, 0];
    assert [1] + [0] == corrected && corrected + Zeros(1) == doubled;
    assert TypedArrayBytes(codec, items, false) == Ok(corrected);
    assert TypedArrayBytes(codec, items, true) == Ok(corrected + Zeros(1));
  }

  /** Packing [1] into a message with one uint8_t[2] field: the as-written packer overflows, the corrected one gives [1, 0]. */
  lemma DoublePaddingCounterexample()
    ensures var byId := map[0 := CompiledMessage(0, "PAIR", 0, [PairField()], 2, 0)];
            var values := map["pair" := Items([Some(Num(1))])];
            PackedPayload(byId, map[], 0, values, true).Err?
            && PackedPayload(byId, map[], 0, values, false) == Ok([1, 0])
  {
    var fields := [PairField()];
    var values := map["pair" := Items([Some(Num(1))])];
    assert LastExtensionIndex(fields, values) == -1 by {
      assert fields[..0] == [];
    }
    assert IncludedCount(fields, -1) == 1;
    assert fields[..1] == fields && fields[..0] == [];
    var byId := map[0 := CompiledMessage(0, "PAIR", 0, fields, 2, 0)];
    var empty: seq<uint8> := [];
    var corrected: seq<uint8> := [1, 0];
    var doubled: seq<uint8> := [1, 0, 0];
    assert Lookup(values, "pair") == Some(Items([Some(Num(1))]));
    PairFieldBytes();
    assert empty + corrected == corrected && empty + doubled == doubled;
    assert FieldsBytes(map[], fields, values, false) == Ok(corrected);
    assert FieldsBytes(map[], fields, values, true) == Ok(doubled);
    assert SumSizes(fields) == 2;
  }

  class PayloadPacker {
    const messageRegistry: MessageRegistry

    constructor(messageRegistry: MessageRegistry)
      ensures this.messageRegistry == messageRegistry
    {
      this.messageRegistry := messageRegistry;
    }

    /** `packPayload`: the payload bytes, or the error that aborted packing. */
    method PackPayload(messageId: int, values: map<string, Value>) returns (r: Result<seq<uint8>>)
      requires messageRegistry.Valid()
      ensures var expected := PackedPayload(messageRegistry.compiledMessagesById, messageRegistry.enumsByName, messageId, values, false);
              r.Ok? == expected.Ok? && (r.Ok? ==> r.value == expected.value)
    {
      var compiled := GetCompiledMessage(messageId);
      if compiled.Err? {
        return Err(compiled.reason);
      }
      var compiledFields := compiled.value.compiledFields;
      var lastExtensionIndex := FindLastIncludedExtensionIndex(compiledFields, values);
      var payloadSize := ComputeTotalPotentialPayloadSize(compiledFields);
      if payloadSize <= 0 {
        return Err("Computed MAVLink payload size is 0");
      }
      var buffer := new ByteBuffer.Allocate(payloadSize);
      var ok := EncodePayload(compiledFields, lastExtensionIndex, values, buffer);
      if !ok {
        return Err("Failed to encode payload");
      }
      r := Ok(buffer.data[..buffer.position]);
    }

    /** `getCompiledMessage`: the registry's message for the id, or an error. */
    method GetCompiledMessage(messageId: int) returns (r: Result<CompiledMessage>)
      ensures r.Ok? <==> messageId in messageRegistry.compiledMessagesById
      ensures r.Ok? ==> r.value == messageRegistry.compiledMessagesById[messageId]
    {
      if messageId !in messageRegistry.compiledMessagesById {
        return Err("Unknown MAVLink message id");
      }
      return Ok(messageRegistry.compiledMessagesById[messageId]);
    }

    /**
     * `encodePayload`: fields in order until the first extension past
     * `lastExtensionIndex`; a field with no value is zero-filled.
     */
    method EncodePayload(compiledFields: seq<CompiledField>, lastExtensionIndex: int, values: map<string, Value>, buffer: ByteBuffer)
      returns (ok: bool)
      requires forall k :: 0 <= k < |compiledFields| ==> WellFormedField(compiledFields[k])
      requires buffer.Valid() && buffer.position == 0 && buffer.limit == buffer.data.Length
      modifies buffer, buffer.data
      ensures buffer.Valid() && buffer.limit == old(buffer.limit)
      ensures var expected := FieldsBytes(messageRegistry.enumsByName, compiledFields[..IncludedCount(compiledFields, lastExtensionIndex)], values, false);
              ok <==> expected.Ok? && |expected.value| <= buffer.limit
      ensures ok ==> buffer.data[..buffer.position]
                     == FieldsBytes(messageRegistry.enumsByName, compiledFields[..IncludedCount(compiledFields, lastExtensionIndex)], values, false).value
    {
      var count := IncludedCount(compiledFields, lastExtensionIndex);
      ghost var enums := messageRegistry.enumsByName;
      ghost var written: seq<uint8> := [];
      var i := 0;
      while i < |compiledFields|
        invariant 0 <= i <= count
        invariant buffer.Valid() && buffer.limit == old(buffer.limit)
        invariant messageRegistry.enumsByName == enums
        invariant FieldsBytes(enums, compiledFields[..i], values, false) == Ok(written)
        invariant buffer.position == |written| && buffer.data[..buffer.position] == written
      {
        var compiledField := compiledFields[i];
        var field := compiledField.definition;
        if field.extension && i > lastExtensionIndex {
          break;
        }
        var fieldOk;
        fieldOk, written := EncodeNext(compiledFields, i, values, buffer, written);
        if !fieldOk {
          if FieldsBytes(enums, compiledFields[..count], values, false).Ok? {
            FieldsBytesGrow(enums, compiledFields, values, false, i + 1, count);
          }
          return false;
        }
        i := i + 1;
      }
      assert i == count;
      return true;
    }

    /** The loop body of `encodePayload`: field `i` written after the bytes of the fields before it. */
    method EncodeNext(compiledFields: seq<CompiledField>, i: nat, values: map<string, Value>, buffer: ByteBuffer, ghost written: seq<uint8>)
      returns (ok: bool, ghost next: seq<uint8>)
      requires i < |compiledFields| && forall k :: 0 <= k < |compiledFields| ==> WellFormedField(compiledFields[k])
      requires buffer.Valid() && buffer.limit == buffer.data.Length
      requires FieldsBytes(messageRegistry.enumsByName, compiledFields[..i], values, false) == Ok(written)
      requires buffer.position == |written| && buffer.data[..buffer.position] == written
      modifies buffer, buffer.data
      ensures buffer.Valid() && buffer.limit == old(buffer.limit)
      ensures var expected := FieldsBytes(messageRegistry.enumsByName, compiledFields[..i + 1], values, false);
              ok <==> expected.Ok? && |expected.value| <= buffer.limit
      ensures ok ==> FieldsBytes(messageRegistry.enumsByName, compiledFields[..i + 1], values, false) == Ok(next)
                     && buffer.position == |next| && buffer.data[..buffer.position] == next
    {
      var compiledField := compiledFields[i];
      var value := Lookup(values, compiledField.definition.name);
      ghost var image := buffer.data[..];
      next := written;
      ok := EncodeField(compiledField, value, buffer);
      FieldsBytesSnoc(messageRegistry.enumsByName, compiledFields, values, false, i);
      if ok {
        ghost var bytes := FieldBytes(messageRegistry.enumsByName, compiledField, value, false).value;
        SplicePrefix(image, |written|, bytes);
        next := written + bytes;
      }
    }

    /** One field: zeros for a missing value, otherwise its resolved value through the scalar, char-array or typed-array path. */
    method EncodeField(compiledField: CompiledField, value: Option<Value>, buffer: ByteBuffer) returns (ok: bool)
      requires WellFormedField(compiledField) && buffer.Valid()
      modifies buffer, buffer.data
      ensures buffer.Valid() && buffer.limit == old(buffer.limit)
      ensures var expected := FieldBytes(messageRegistry.enumsByName, compiledField, value, false);
              ok <==> expected.Ok? && |expected.value| <= old(buffer.Remaining())
      ensures ok ==> var bytes := FieldBytes(messageRegistry.enumsByName, compiledField, value, false).value;
                     buffer.position == old(buffer.position) + |bytes|
                     && buffer.data[..] == Splice(old(buffer.data[..]), old(buffer.position), bytes)
    {
      var field := compiledField.definition;
      if value.None? {
        ok := buffer.PutZeros(compiledField.sizeInBytes);
        if ok && compiledField.sizeInBytes == 0 {
          assert Splice(old(buffer.data[..]), old(buffer.position), []) == old(buffer.data[..]);
        }
        return;
      }
      var resolved := ResolveEnumValue(messageRegistry, field, value);
      if resolved.Err? {
        return false;
      }
      if !field.isArray {
        ok := EncodeScalar(buffer, field.wireType, resolved.value);
        return;
      }
      if field.wireType == Char {
        ok := EncodeCharArray(field.arrayLength, buffer, resolved.value);
        return;
      }
      var elements := ToElementsList(resolved.value);
      if elements.Err? {
        return false;
      }
      ok := EncodeTypedArray(compiledField.codec, buffer, elements.value);
    }

    /** `encodeTypedArray` as intended: the array codec alone, which already pads to the array length. */
    method EncodeTypedArray(codec: FieldCodec, buffer: ByteBuffer, elements: seq<Option<Value>>) returns (ok: bool)
      requires buffer.Valid() && IsArrayCodec(codec) && !IsStringCodec(codec)
      modifies buffer, buffer.data
      ensures buffer.Valid() && buffer.limit == old(buffer.limit)
      ensures ok <==> TypedArrayBytes(codec, elements, false).Ok? && |TypedArrayBytes(codec, elements, false).value| <= old(buffer.Remaining())
      ensures ok ==> buffer.position == old(buffer.position) + |TypedArrayBytes(codec, elements, false).value|
                     && buffer.data[..] == Splice(old(buffer.data[..]), old(buffer.position), TypedArrayBytes(codec, elements, false).value)
    {
      ok := ArrayEncode(buffer, codec, Some(Items(elements)));
    }

    /**
     * `encodeTypedArray` as written: after the codec has padded the array to
     * its length, (length - count) zero elements are written a second time.
     */
    method EncodeTypedArrayAsWritten(codec: FieldCodec, buffer: ByteBuffer, elements: seq<Option<Value>>) returns (ok: bool)
      requires buffer.Valid() && IsArrayCodec(codec) && !IsStringCodec(codec)
      modifies buffer, buffer.data
      ensures buffer.Valid() && buffer.limit == old(buffer.limit)
      ensures ok <==> TypedArrayBytes(codec, elements, true).Ok? && |TypedArrayBytes(codec, elements, true).value| <= old(buffer.Remaining())
      ensures ok ==> buffer.position == old(buffer.position) + |TypedArrayBytes(codec, elements, true).value|
                     && buffer.data[..] == Splice(old(buffer.data[..]), old(buffer.position), TypedArrayBytes(codec, elements, true).value)
    {
      var len := codec.arrayLength;
      var count := Min(len, |elements|);
      ghost var start := buffer.position;
      ghost var original := buffer.data[..];
      ok := ArrayEncode(buffer, codec, Some(Items(elements)));
      if !ok {
        return;
      }
      var remaining := len - count;
      if remaining > 0 {
        var elementSize := SizeInBytes(codec.element);
        ghost var encoded := ArrayEncoding(codec, Some(Items(elements))).value;
        ok := buffer.PutZeros(remaining * elementSize);
        if ok {
          SpliceSplice(original, start, encoded, Zeros(remaining * elementSize));
        }
      }
    }

    /** `encodeCharArray`: String or byte[] only, copied and zero-padded to the array length. */
    method EncodeCharArray(length: nat, buffer: ByteBuffer, value: Option<Value>) returns (ok: bool)
      requires buffer.Valid()
      modifies buffer, buffer.data
      ensures buffer.Valid() && buffer.limit == old(buffer.limit)
      ensures ok <==> CharArrayBytes(length, value).Ok? && length <= old(buffer.Remaining())
      ensures ok ==> buffer.position == old(buffer.position) + length
                     && buffer.data[..] == Splice(old(buffer.data[..]), old(buffer.position), CharArrayBytes(length, value).value)
    {
      var src: seq<uint8>;
      match value {
        case Some(Text(utf8)) => src := utf8;
        case Some(Raw(bytes)) => src := bytes;
        case _ => return false;
      }
      ok := EncodeText(buffer, src, length);
    }

    /** `toElements`, with the element-by-element copy of an array. */
    method ToElementsList(value: Option<Value>) returns (r: Result<seq<Option<Value>>>)
      ensures r == ToElements(value)
    {
      match value {
        case Some(Items(list)) => return Ok(list);
        case Some(Elements(items)) => return Ok(items);
        case Some(Raw(bytes)) =>
          var tmp: seq<Option<Value>> := [];
          var i := 0;
          while i < |bytes|
            invariant 0 <= i <= |bytes| && |tmp| == i
            invariant forall k :: 0 <= k < i ==> tmp[k] == Some(Num(Signed(bytes[k] as int, 1)))
          {
            tmp := tmp + [Some(Num(Signed(bytes[i] as int, 1)))];
            i := i + 1;
          }
          assert tmp == seq(|bytes|, k requires 0 <= k < |bytes| => Some(Num(Signed(bytes[k] as int, 1))));
          return Ok(tmp);
        case _ => return Err("Array field expects List or array");
      }
    }

    /** `findLastIncludedExtensionIndex`: a forward scan remembering the latest extension given a value. */
    method FindLastIncludedExtensionIndex(compiledFields: seq<CompiledField>, values: map<string, Value>) returns (lastExtensionIndex: int)
      ensures lastExtensionIndex == LastExtensionIndex(compiledFields, values)
    {
      lastExtensionIndex := -1;
      var i := 0;
      while i < |compiledFields|
        invariant 0 <= i <= |compiledFields|
        invariant lastExtensionIndex == LastExtensionIndex(compiledFields[..i], values)
      {
        assert compiledFields[..i + 1][..i] == compiledFields[..i];
        var field := compiledFields[i].definition;
        if field.extension && Lookup(values, field.name).Some? {
          lastExtensionIndex := i;
        }
        i := i + 1;
      }
      assert compiledFields[..i] == compiledFields;
    }

    /** `computePayloadSize`: the sizes of the fields up to the first extension past `lastExtensionIndex`. */
    method ComputePayloadSize(compiledFields: seq<CompiledField>, lastExtensionIndex: int) returns (size: int)
      ensures size == SumSizes(compiledFields[..IncludedCount(compiledFields, lastExtensionIndex)])
    {
      size := 0;
      var i := 0;
      while i < |compiledFields|
        invariant 0 <= i <= IncludedCount(compiledFields, lastExtensionIndex)
        invariant size == SumSizes(compiledFields[..i])
      {
        var compiledField := compiledFields[i];
        var field := compiledField.definition;
        assert compiledFields[..i + 1][..i] == compiledFields[..i];
        if !field.extension {
          size := size + compiledField.sizeInBytes;
          i := i + 1;
          continue;
        }
        if i <= lastExtensionIndex {
          size := size + compiledField.sizeInBytes;
          i := i + 1;
          continue;
        }
        break;
      }
    }

    /** `computeTotalPotentialPayloadSize`: the sum of every compiled field's size. */
    method ComputeTotalPotentialPayloadSize(compiledFields: seq<CompiledField>) returns (size: int)
      ensures size == SumSizes(compiledFields)
    {
      size := 0;
      var i := 0;
      while i < |compiledFields|
        invariant 0 <= i <= |compiledFields|
        invariant size == SumSizes(compiledFields[..i])
      {
        assert compiledFields[..i + 1][..i] == compiledFields[..i];
        size := size + compiledFields[i].sizeInBytes;
        i := i + 1;
      }
      assert compiledFields[..i] == compiledFields;
    }
  }
}
