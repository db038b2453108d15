// Parsing a MAVLink payload back into field values. Fields are read in wire
// order from the front of the payload; once a base field does not fit, it
// and every later base field get their zero value, and an extension field
// that does not fit is reported absent.

module PayloadParser {
  import opened Bytes
  import opened Buffers
  import opened WireTypes
  import opened CodecFactory
  import opened Values
  import opened FieldCodecs
  import opened Messages
  import opened Registry
  import opened Enums
  import opened PayloadPacker

  /** The parsed values (an absent extension maps to null), the read position and whether a base field has run out of bytes. */
  datatype ParseState = ParseState(result: map<string, Option<Value>>, position: nat, truncated: bool)

  /** `zeroValue`: 0 for a number, "" for a char field or char array, a list of zeros for a numeric array. */
  function ZeroValue(f: FieldDefinition): (r: Value)
    requires f.isArray ==> f.arrayLength >= 0
    ensures f.wireType == Char ==> r == Text([])
    ensures f.wireType != Char && !f.isArray ==> r == Num(0)
    ensures f.wireType != Char && f.isArray ==> r.Items? && |r.elements| == f.arrayLength
                                                && forall k :: 0 <= k < |r.elements| ==> r.elements[k] == Some(Num(0))
  {
    if !f.isArray then (if f.wireType == Char then Text([]) else Num(0))
    else if f.wireType == Char then Text([])
    else Items(seq(f.arrayLength, k => Some(Num(0))))
  }

  /** `count` elements of type `t` read one after another from `raw`. */
  function ElementsDecoding(t: WireType, raw: seq<uint8>, count: nat): (r: seq<Option<Value>>)
    requires |raw| == count * SizeInBytes(t)
    ensures |r| == count
  {
    if count == 0 then []
    else
      var size := SizeInBytes(t);
      LemmaMulDistributes(count - 1, 1, size);
      ElementsDecoding(t, raw[..(count - 1) * size], count - 1) + [Some(Num(ScalarValue(t, raw[(count - 1) * size..])))]
  }

  /** Reading one more element after `count` of them appends its value. */
  lemma {:induction false} ElementsDecodingStep(t: WireType, payload: seq<uint8>, start: nat, before: nat, after: nat, count: nat)
    requires start <= before <= after <= |payload|
    requires before - start == count * SizeInBytes(t) && after - before == SizeInBytes(t)
    ensures after - start == (count + 1) * SizeInBytes(t)
    ensures ElementsDecoding(t, payload[start..after], count + 1)
            == ElementsDecoding(t, payload[start..before], count) + [Some(Num(ScalarValue(t, payload[before..after])))]
  {
    var size := SizeInBytes(t);
    LemmaMulDistributes(count, 1, size);
    var raw := payload[start..after];
    assert raw[..count * size] == payload[start..before];
    assert raw[count * size..] == payload[before..after];
  }

  /** The value a field decodes to from its own bytes. */
  function FieldValue(cf: CompiledField, raw: seq<uint8>): Value
    requires WellFormedField(cf) && |raw| == cf.sizeInBytes
  {
    var f := cf.definition;
    if !f.isArray then Num(ScalarValue(f.wireType, raw))
    else if f.wireType == Char then Text(UntilZero(raw))
    else Items(ElementsDecoding(f.wireType, raw, f.arrayLength))
  }

  /**
   * One field of `parsePayload`. With `extensionTruncates` an extension
   * that does not fit also ends decoding; as written it does not, so a
   * later, smaller extension is read from the bytes of the missing one.
   */
  function ParseStep(st: ParseState, cf: CompiledField, payload: seq<uint8>, extensionTruncates: bool): (r: ParseState)
    requires WellFormedField(cf) && st.position <= |payload|
    ensures r.position <= |payload|
    ensures cf.definition.name in r.result
  {
    var f := cf.definition;
    var size := cf.sizeInBytes;
    var short := st.truncated || |payload| - st.position < size;
    if !f.extension && short then ParseState(st.result[f.name := Some(ZeroValue(f))], st.position, true)
    else if short then ParseState(st.result[f.name := None], st.position, st.truncated || extensionTruncates)
    else ParseState(st.result[f.name := Some(FieldValue(cf, payload[st.position..st.position + size]))], st.position + size, st.truncated)
  }

  /** The state after parsing the given fields in order. */
  function ParseFields(fields: seq<CompiledField>, payload: seq<uint8>, extensionTruncates: bool): (r: ParseState)
    requires forall i :: 0 <= i < |fields| ==> WellFormedField(fields[i])
    ensures r.position <= |payload|
    ensures forall i :: 0 <= i < |fields| ==> fields[i].definition.name in r.result
  {
    if |fields| == 0 then ParseState(map[], 0, false)
    else ParseStep(ParseFields(fields[..|fields| - 1], payload, extensionTruncates), fields[|fields| - 1], payload, extensionTruncates)
  }

  /** `parsePayload`: an unknown id is rejected; otherwise every field's parsed value by name. */
  function ParsedPayload(byId: map<int, CompiledMessage>, messageId: int, payload: seq<uint8>, extensionTruncates: bool)
    : Result<map<string, Option<Value>>>
    requires forall id :: id in byId ==> WellFormedMessage(byId[id])
  {
    if messageId !in byId then Err("Unknown MAVLink message id")
    else
      assert WellFormedMessage(byId[messageId]);
      Ok(ParseFields(byId[messageId].compiledFields, payload, extensionTruncates).result)
  }

  lemma {:induction false} ParseFieldsSnoc(fields: seq<CompiledField>, payload: seq<uint8>, extensionTruncates: bool, i: nat)
    requires i < |fields| && forall k :: 0 <= k < |fields| ==> WellFormedField(fields[k])
    ensures ParseFields(fields[..i + 1], payload, extensionTruncates)
            == ParseStep(ParseFields(fields[..i], payload, extensionTruncates), fields[i], payload, extensionTruncates)
  {
    assert fields[..i + 1][..i] == fields[..i];
  }

  /** With a truncating extension, decoding that has not stopped has read exactly the fields before: the position is their size. */
  lemma {:induction false} ReadPositionIsOffset(fields: seq<CompiledField>, payload: seq<uint8>)
    requires forall i :: 0 <= i < |fields| ==> WellFormedField(fields[i])
    ensures var st := ParseFields(fields, payload, true);
            !st.truncated ==> st.position == SumSizes(fields)
  {
    if |fields| > 0 {
      ReadPositionIsOffset(fields[..|fields| - 1], payload);
    }
  }

  /** A payload holding every field: nothing is cut short and each field is read from where it was packed. */
  lemma {:induction false} FullPayloadReadsInPlace(fields: seq<CompiledField>, payload: seq<uint8>, extensionTruncates: bool)
    requires forall i :: 0 <= i < |fields| ==> WellFormedField(fields[i])
    requires SumSizes(fields) <= |payload|
    ensures var st := ParseFields(fields, payload, extensionTruncates);
            !st.truncated && st.position == SumSizes(fields)
  {
    if |fields| > 0 {
      var front := fields[..|fields| - 1];
      SumSizesPrefix(fields, |fields| - 1);
      assert fields[..|fields| - 1] == front;
      FullPayloadReadsInPlace(front, payload, extensionTruncates);
    }
  }

  /** The names of the fields are all different. */
  predicate DistinctNames(fields: seq<CompiledField>)
  {
    forall i, j :: 0 <= i < j < |fields| ==> fields[i].definition.name != fields[j].definition.name
  }

  /** The entry of `cf` in `result` is the value decoded from the `cf.sizeInBytes` bytes of `payload` at `start`. */
  predicate SlotParsed(result: map<string, Option<Value>>, cf: CompiledField, payload: seq<uint8>, start: int)
    requires WellFormedField(cf)
  {
    && 0 <= start && start + cf.sizeInBytes <= |payload|
    && cf.definition.name in result
    && result[cf.definition.name] == Some(FieldValue(cf, payload[start..start + cf.sizeInBytes]))
  }

  /** From a payload holding every field, a field with its own name is parsed from the bytes of its own slot. */
  lemma {:induction false} FullPayloadFieldValue(fields: seq<CompiledField>, payload: seq<uint8>, extensionTruncates: bool, i: nat)
    requires forall k :: 0 <= k < |fields| ==> WellFormedField(fields[k])
    requires SumSizes(fields) <= |payload| && i < |fields|
    requires forall j :: i < j < |fields| ==> fields[j].definition.name != fields[i].definition.name
    ensures SlotParsed(ParseFields(fields, payload, extensionTruncates).result, fields[i], payload, SumSizes(fields[..i]))
    decreases |fields|, 2
  {
    SumSizesPrefix(fields, i);
    if i < |fields| - 1 {
      EarlierFieldValue(fields, payload, extensionTruncates, i);
    } else {
      LastFieldValue(fields, payload, extensionTruncates);
    }
  }

  lemma {:induction false} LastFieldValue(fields: seq<CompiledField>, payload: seq<uint8>, extensionTruncates: bool)
    requires forall k :: 0 <= k < |fields| ==> WellFormedField(fields[k])
    requires SumSizes(fields) <= |payload| && |fields| > 0
    ensures SlotParsed(ParseFields(fields, payload, extensionTruncates).result, fields[|fields| - 1], payload,
                       SumSizes(fields[..|fields| - 1]))
  {
    var front := fields[..|fields| - 1];
    var last := fields[|fields| - 1];
    SumSizesPrefix(fields, |fields| - 1);
    FullPayloadReadsInPlace(front, payload, extensionTruncates);
    var st := ParseFields(front, payload, extensionTruncates);
    assert st.position + last.sizeInBytes <= |payload|;
    StepDecodes(st, last, payload, extensionTruncates);
    assert ParseFields(fields, payload, extensionTruncates) == ParseStep(st, last, payload, extensionTruncates);
  }

  lemma {:induction false} EarlierFieldValue(fields: seq<CompiledField>, payload: seq<uint8>, extensionTruncates: bool, i: nat)
    requires forall k :: 0 <= k < |fields| ==> WellFormedField(fields[k])
    requires SumSizes(fields) <= |payload| && i < |fields| - 1
    requires forall j :: i < j < |fields| ==> fields[j].definition.name != fields[i].definition.name
    ensures SlotParsed(ParseFields(fields, payload, extensionTruncates).result, fields[i], payload, SumSizes(fields[..i]))
    decreases |fields|, 1
  {
    var name := fields[i].definition.name;
    var start := SumSizes(fields[..i]);
    FrontFieldValue(fields, payload, extensionTruncates, i);
    var before := ParseFields(fields[..|fields| - 1], payload, extensionTruncates).result;
    assert SlotParsed(before, fields[i], payload, start);
    LastStepKeepsOthers(fields, payload, extensionTruncates, name);
    var after := ParseFields(fields, payload, extensionTruncates).result;
    assert name in after && after[name] == before[name];
  }

  /** The same field's value after the fields before the last one. */
  lemma {:induction false} FrontFieldValue(fields: seq<CompiledField>, payload: seq<uint8>, extensionTruncates: bool, i: nat)
    requires forall k :: 0 <= k < |fields| ==> WellFormedField(fields[k])
    requires SumSizes(fields) <= |payload| && i < |fields| - 1
    requires forall j :: i < j < |fields| ==> fields[j].definition.name != fields[i].definition.name
    ensures SlotParsed(ParseFields(fields[..|fields| - 1], payload, extensionTruncates).result, fields[i], payload,
                       SumSizes(fields[..i]))
    decreases |fields|, 0
  {
    var front := fields[..|fields| - 1];
    SumSizesPrefix(fields, |fields| - 1);
    assert SumSizes(front) <= |payload|;
    assert forall k :: 0 <= k < |front| ==> WellFormedField(front[k]);
    assert front[..i] == fields[..i] && front[i] == fields[i];
    FullPayloadFieldValue(front, payload, extensionTruncates, i);
  }

  /** Parsing one more field leaves the entries of the other names as they were. */
  lemma {:induction false} LastStepKeepsOthers(fields: seq<CompiledField>, payload: seq<uint8>, extensionTruncates: bool, name: string)
    requires forall k :: 0 <= k < |fields| ==> WellFormedField(fields[k])
    requires |fields| > 0 && name != fields[|fields| - 1].definition.name
    requires name in ParseFields(fields[..|fields| - 1], payload, extensionTruncates).result
    ensures name in ParseFields(fields, payload, extensionTruncates).result
            && ParseFields(fields, payload, extensionTruncates).result[name]
               == ParseFields(fields[..|fields| - 1], payload, extensionTruncates).result[name]
  {
    StepKeepsOthers(ParseFields(fields[..|fields| - 1], payload, extensionTruncates), fields[|fields| - 1], payload,
                    extensionTruncates, name);
  }

  /** A step only touches its own field's entry. */
  lemma {:induction false} StepKeepsOthers(st: ParseState, cf: CompiledField, payload: seq<uint8>, extensionTruncates: bool, name: string)
    requires WellFormedField(cf) && st.position <= |payload| && name != cf.definition.name && name in st.result
    ensures var r := ParseStep(st, cf, payload, extensionTruncates);
            name in r.result && r.result[name] == st.result[name]
  {
  }

  /** A field that fits, with decoding not stopped, is decoded from the bytes at the read position. */
  lemma {:induction false} StepDecodes(st: ParseState, cf: CompiledField, payload: seq<uint8>, extensionTruncates: bool)
    requires WellFormedField(cf) && !st.truncated && st.position + cf.sizeInBytes <= |payload|
    ensures var r := ParseStep(st, cf, payload, extensionTruncates);
            r.result[cf.definition.name] == Some(FieldValue(cf, payload[st.position..st.position + cf.sizeInBytes]))
            && r.position == st.position + cf.sizeInBytes && !r.truncated
  {
  }

  /**
   * Packing then parsing a message gives back each scalar number that fits
   * its wire type, for a field without an enum.
   */
  lemma {:induction false} PackThenParseScalar(enums: map<string, EnumDefinition>, fields: seq<CompiledField>, values: map<string, Value>, i: nat)
    requires forall k :: 0 <= k < |fields| ==> WellFormedField(fields[k])
    requires DistinctNames(fields) && i < |fields|
    requires FieldsBytes(enums, fields, values, false).Ok?
    requires !fields[i].definition.isArray && fields[i].definition.enumName.None?
    requires fields[i].definition.name in values && values[fields[i].definition.name].Num?
    requires Representable(fields[i].definition.wireType, values[fields[i].definition.name].n)
    ensures ParseFields(fields, FieldsBytes(enums, fields, values, false).value, true).result[fields[i].definition.name]
            == Some(values[fields[i].definition.name])
  {
    var payload := FieldsBytes(enums, fields, values, false).value;
    var f := fields[i].definition;
    var n := values[f.name].n;
    FieldsBytesLength(enums, fields, values);
    FieldsBytesSlot(enums, fields, values, i);
    assert FieldBytes(enums, fields[i], Lookup(values, f.name), false) == Ok(ScalarBytes(f.wireType, n));
    var start := SumSizes(fields[..i]);
    assert payload[start..start + fields[i].sizeInBytes] == ScalarBytes(f.wireType, n);
    ScalarSlotDecodes(fields[i], n);
    ParsedSlotIs(fields, payload, i, values[f.name]);
  }

  lemma {:induction false} ScalarSlotDecodes(cf: CompiledField, n: int)
    requires WellFormedField(cf) && !cf.definition.isArray && Representable(cf.definition.wireType, n)
    ensures FieldValue(cf, ScalarBytes(cf.definition.wireType, n)) == Num(n)
  {
    ScalarRoundTrip(cf.definition.wireType, n);
  }

  /** Packing then parsing gives back a zero-free string no longer than its char array. */
  lemma {:induction false} PackThenParseText(enums: map<string, EnumDefinition>, fields: seq<CompiledField>, values: map<string, Value>, i: nat)
    requires forall k :: 0 <= k < |fields| ==> WellFormedField(fields[k])
    requires DistinctNames(fields) && i < |fields|
    requires FieldsBytes(enums, fields, values, false).Ok?
    requires fields[i].definition.isArray && fields[i].definition.wireType == Char && fields[i].definition.enumName.None?
    requires fields[i].definition.name in values && values[fields[i].definition.name].Text?
    requires 0 !in values[fields[i].definition.name].utf8 && |values[fields[i].definition.name].utf8| <= fields[i].definition.arrayLength
    ensures ParseFields(fields, FieldsBytes(enums, fields, values, false).value, true).result[fields[i].definition.name]
            == Some(values[fields[i].definition.name])
  {
    var payload := FieldsBytes(enums, fields, values, false).value;
    var f := fields[i].definition;
    var text := values[f.name].utf8;
    FieldsBytesLength(enums, fields, values);
    FieldsBytesSlot(enums, fields, values, i);
    assert FieldBytes(enums, fields[i], Lookup(values, f.name), false) == Ok(FixedText(text, f.arrayLength));
    var start := SumSizes(fields[..i]);
    assert payload[start..start + fields[i].sizeInBytes] == FixedText(text, f.arrayLength);
    TextSlotDecodes(fields[i], text);
    ParsedSlotIs(fields, payload, i, values[f.name]);
  }

  /** A field whose slot of a full payload decodes to `v` is parsed as `v`. */
  lemma {:induction false} ParsedSlotIs(fields: seq<CompiledField>, payload: seq<uint8>, i: nat, v: Value)
    requires forall k :: 0 <= k < |fields| ==> WellFormedField(fields[k])
    requires DistinctNames(fields) && SumSizes(fields) <= |payload| && i < |fields|
    requires var start := SumSizes(fields[..i]);
             0 <= start <= start + fields[i].sizeInBytes <= |payload|
             && FieldValue(fields[i], payload[start..start + fields[i].sizeInBytes]) == v
    ensures ParseFields(fields, payload, true).result[fields[i].definition.name] == Some(v)
  {
    FullPayloadFieldValue(fields, payload, true, i);
  }

  lemma {:induction false} TextSlotDecodes(cf: CompiledField, text: seq<uint8>)
    requires WellFormedField(cf) && cf.definition.isArray && cf.definition.wireType == Char
    requires 0 !in text && |text| <= cf.definition.arrayLength
    ensures FieldValue(cf, FixedText(text, cf.definition.arrayLength)) == Text(text)
  {
    UntilZeroOfFixedText(text, cf.definition.arrayLength);
    assert text[..Min(|text|, cf.definition.arrayLength)] == text;
  }

  /** A base field that does not fit, and every base field after it, is parsed as its zero value. */
  lemma {:induction false} ShortBaseFieldIsZero(fields: seq<CompiledField>, payload: seq<uint8>, extensionTruncates: bool, i: nat)
    requires forall k :: 0 <= k < |fields| ==> WellFormedField(fields[k])
    requires DistinctNames(fields) && i < |fields| && !fields[i].definition.extension
    requires ParseFields(fields[..i], payload, extensionTruncates).truncated
             || |payload| - ParseFields(fields[..i], payload, extensionTruncates).position < fields[i].sizeInBytes
    ensures ParseFields(fields, payload, extensionTruncates).result[fields[i].definition.name] == Some(ZeroValue(fields[i].definition))
    ensures ParseFields(fields, payload, extensionTruncates).truncated
  {
    var front := fields[..|fields| - 1];
    if i == |fields| - 1 {
      assert fields[..i] == front;
    } else {
      assert front[..i] == fields[..i];
      ShortBaseFieldIsZero(front, payload, extensionTruncates, i);
      assert fields[|fields| - 1].definition.name != fields[i].definition.name;
    }
  }

  /** Two extension fields, a uint32_t then a uint8_t, as a message with no base fields compiles them. */
  function ExtensionPair(): (r: seq<CompiledField>)
    ensures forall i :: 0 <= i < |r| ==> WellFormedField(r[i])
  {
    [CompiledField(FieldDefinition(0, Some("uint32_t"), "wide", None, UInt32, true, false, 0), ScalarCodec(UInt32), 0, 4),
     CompiledField(FieldDefinition(1, Some("uint8_t"), "narrow", None, UInt8, true, false, 0), ScalarCodec(UInt8), 4, 1)]
  }

  /**
   * The two-byte payload [7, 0] against those extensions: as written the
   * uint32_t is absent but the uint8_t is decoded as 7 from byte 0, the
   * first byte of the missing uint32_t; with a truncating extension the
   * uint8_t is absent too.
   */
  lemma ExtensionMisreadCounterexample()
    ensures var written := ParseFields(ExtensionPair(), [7, 0], false);
            !written.truncated && written.position != SumSizes(ExtensionPair())
            && written.result["narrow"] == Some(Num(7))
    ensures ParseFields(ExtensionPair(), [7, 0], true).result["narrow"] == None
  {
    var fields := ExtensionPair();
    var payload: seq<uint8> := [7, 0];
    assert fields[..1][..0] == [] && fields[..2] == fields;
    var empty := ParseFields(fields[..0], payload, false);
    assert empty == ParseState(map[], 0, false);
    var first := ParseFields(fields[..1], payload, false);
    assert first == ParseStep(empty, fields[0], payload, false);
    assert first == ParseState(map[][fields[0].definition.name := None], 0, false);
    assert payload[0..1] == [7];
    assert FromLittleEndian([7]) == 7 by {
      assert [7][1..] == [];
    }
    assert SumSizes(fields) == 5 by {
      assert fields[..1] == [fields[0]];
      assert SumSizes(fields[..1]) == 4;
    }
  }

  class PayloadParser {
    const messageRegistry: MessageRegistry

    constructor(messageRegistry: MessageRegistry)
      ensures this.messageRegistry == messageRegistry
    {
      this.messageRegistry := messageRegistry;
    }

    /** `parsePayload`: the values by field name, or the error for an unknown id. */
    method ParsePayload(messageId: int, payload: seq<uint8>) returns (r: Result<map<string, Option<Value>>>)
      requires messageRegistry.Valid()
      ensures r == ParsedPayload(messageRegistry.compiledMessagesById, messageId, payload, true)
    {
      if messageId !in messageRegistry.compiledMessagesById {
        return Err("Unknown MAVLink message id");
      }
      var compiledMessage := messageRegistry.compiledMessagesById[messageId];
      assert WellFormedMessage(compiledMessage);
      var result := ParseFieldsFrom(compiledMessage.compiledFields, payload);
      return Ok(result);
    }
  }

  /** The field loop of `parsePayload`: every compiled field in wire order, read from one buffer over the payload. */
  method ParseFieldsFrom(fields: seq<CompiledField>, payload: seq<uint8>) returns (result: map<string, Option<Value>>)
    requires forall i :: 0 <= i < |fields| ==> WellFormedField(fields[i])
    ensures result == ParseFields(fields, payload, true).result
  {
    result := map[];
    var buffer := new ByteBuffer.Wrap(payload);
    var truncated := false;
    var i := 0;
    while i < |fields|
      invariant 0 <= i <= |fields|
      invariant buffer.Valid() && buffer.data[..] == payload && buffer.limit == |payload|
      invariant ParseFields(fields[..i], payload, true) == ParseState(result, buffer.position, truncated)
    {
      ParseFieldsSnoc(fields, payload, true, i);
      result, truncated := ParseField(fields[i], buffer, payload, result, truncated);
      i := i + 1;
    }
    assert fields[..i] == fields;
  }

  /** The loop body of `parsePayload`: one compiled field; an extension that does not fit ends decoding. */
  method ParseField(compiledField: CompiledField, buffer: ByteBuffer, ghost payload: seq<uint8>,
                    result: map<string, Option<Value>>, truncated: bool)
    returns (result': map<string, Option<Value>>, truncated': bool)
    requires WellFormedField(compiledField)
    requires buffer.Valid() && buffer.data[..] == payload && buffer.limit == |payload|
    modifies buffer
    ensures buffer.Valid() && buffer.limit == |payload|
    ensures ParseState(result', buffer.position, truncated')
            == ParseStep(ParseState(result, old(buffer.position), truncated), compiledField, payload, true)
  {
    var fieldDefinition := compiledField.definition;
    var fieldName := fieldDefinition.name;
    var fieldSize := compiledField.sizeInBytes;
    if !fieldDefinition.extension {
      if truncated || buffer.Remaining() < fieldSize {
        return result[fieldName := Some(ZeroValue(fieldDefinition))], true;
      }
    } else {
      if truncated || buffer.Remaining() < fieldSize {
        return result[fieldName := None], true;
      }
    }
    var value := DecodeFieldValue(compiledField, buffer, payload);
    return result[fieldName := Some(value)], truncated;
  }

  /** A field that fits is decoded from its own bytes, and the read position moves past them. */
  method DecodeFieldValue(compiledField: CompiledField, buffer: ByteBuffer, ghost payload: seq<uint8>) returns (value: Value)
    requires WellFormedField(compiledField)
    requires buffer.Valid() && buffer.data[..] == payload && compiledField.sizeInBytes <= buffer.Remaining()
    modifies buffer
    ensures buffer.Valid() && buffer.limit == old(buffer.limit)
    ensures buffer.position == old(buffer.position) + compiledField.sizeInBytes
    ensures value == FieldValue(compiledField, payload[old(buffer.position)..buffer.position])
  {
    var fieldDefinition := compiledField.definition;
    if !fieldDefinition.isArray {
      var n := DecodeScalar(buffer, fieldDefinition.wireType);
      value := Num(n);
    } else if fieldDefinition.wireType == Char {
      var raw := buffer.GetBytes(fieldDefinition.arrayLength);
      var end := 0;
      while end < |raw| && raw[end] != 0
        invariant 0 <= end <= |raw| && 0 !in raw[..end]
      {
        assert raw[..end + 1] == raw[..end] + [raw[end]];
        end := end + 1;
      }
      UntilZeroIs(raw, end);
      value := Text(raw[..end]);
    } else {
      var values := DecodeElements(buffer, compiledField.codec, payload);
      value := Items(values);
    }
  }

  /** The numeric-array branch: `arrayLength` calls of the array codec's `decode`, one element each. */
  method DecodeElements(buffer: ByteBuffer, codec: FieldCodec, ghost payload: seq<uint8>) returns (values: seq<Option<Value>>)
    requires IsArrayCodec(codec) && !IsStringCodec(codec)
    requires buffer.Valid() && buffer.data[..] == payload && CodecSize(codec) <= buffer.Remaining()
    modifies buffer
    ensures buffer.Valid() && buffer.limit == old(buffer.limit)
    ensures buffer.position == old(buffer.position) + CodecSize(codec)
    ensures values == ElementsDecoding(codec.element, payload[old(buffer.position)..buffer.position], codec.arrayLength)
  {
    var len := codec.arrayLength;
    var size := SizeInBytes(codec.element);
    ghost var start := buffer.position;
    values := [];
    var i := 0;
    assert CodecSize(codec) == len * size;
    while i < len
      invariant 0 <= i <= len
      invariant buffer.Valid() && buffer.limit == old(buffer.limit) && buffer.data[..] == payload
      invariant buffer.position == start + i * size && start + len * size <= buffer.limit
      invariant values == ElementsDecoding(codec.element, payload[start..buffer.position], i)
    {
      ElementFits(i, len, size);
      assert DecodeWidth(codec) == size <= buffer.Remaining();
      ghost var before := buffer.position;
      var v := ArrayDecode(buffer, codec);
      assert buffer.position == before + size <= |payload|;
      ElementsDecodingStep(codec.element, payload, start, before, buffer.position, i);
      values := values + [Some(v)];
      i := i + 1;
    }
    assert CodecSize(codec) == len * size;
  }

  lemma {:induction false} ElementFits(i: nat, len: nat, size: nat)
    requires i < len
    ensures 0 <= i * size && (i + 1) * size == i * size + size <= len * size
  {
    MulMonotone(0, i, size);
    LemmaMulDistributes(i, 1, size);
    MulMonotone(i + 1, len, size);
  }
}
