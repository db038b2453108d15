// The parser-side CRC-extra calculator. It hashes the field type text as
// written in the XML (not the resolved wire name), encodes every token as
// US-ASCII and skips a missing token altogether.

module ExtraCrcCalculator {
  import opened Bytes
  import opened Crc
  import opened WireTypes
  import opened Messages

  const QUESTION_MARK: uint8 := 63

  /** `String.getBytes(US_ASCII)`: characters below 128 as themselves, any other as '?'. */
  function AsciiBytes(s: string): (r: seq<uint8>)
    ensures |r| == |s|
    ensures forall i :: 0 <= i < |s| ==> r[i] == if (s[i] as int) < 128 then s[i] as int else QUESTION_MARK as int
  {
    seq(|s|, i requires 0 <= i < |s| => if (s[i] as int) < 128 then s[i] as int else QUESTION_MARK as int)
  }

  predicate IsAscii(s: string)
  {
    forall i :: 0 <= i < |s| ==> (s[i] as int) < 128
  }

  /** `accumulateTokenWithSpace`: a missing token adds nothing, not even the space. */
  function TokenWithSpace(token: Option<string>): (r: seq<uint8>)
    ensures token.None? ==> r == []
    ensures token.Some? ==> |r| == |token.value| + 1 && r[|r| - 1] == ' ' as int
  {
    match token
    case None => []
    case Some(text) => AsciiBytes(text) + [' ' as int]
  }

  /** One field's contribution: nothing for an extension; type text, name and, for an array, the length byte otherwise. */
  function CalculatorFieldInput(f: FieldDefinition): seq<uint8>
  {
    if f.extension then []
    else TokenWithSpace(f.xmlType) + TokenWithSpace(Some(f.name)) + (if f.isArray then [f.arrayLength % 256] else [])
  }

  /** Everything `computeExtraCrc` feeds the CRC engine, in order. */
  function CalculatorInput(name: string, fields: seq<FieldDefinition>): seq<uint8>
  {
    if |fields| == 0 then TokenWithSpace(Some(name))
    else CalculatorInput(name, fields[..|fields| - 1]) + CalculatorFieldInput(fields[|fields| - 1])
  }

  /** `ExtraCrcCalculator.computeExtraCrc`: the checksum of the input, folded to one byte. */
  method ComputeExtraCrc(definition: MessageDefinition) returns (r: int)
    ensures r == FoldCrc(Checksum(CalculatorInput(definition.name, definition.fields)))
    ensures 0 <= r <= 255
  {
    var crc := new X25Crc();
    var messageName := definition.name;
    var wireOrderedFields := definition.fields;
    AccumulateTokenWithSpace(crc, Some(messageName));
    var i := 0;
    while i < |wireOrderedFields|
      invariant 0 <= i <= |wireOrderedFields|
      invariant crc.current == Checksum(CalculatorInput(messageName, wireOrderedFields[..i]))
    {
      CalculatorInputSnoc(messageName, wireOrderedFields, i);
      AccumulateField(crc, wireOrderedFields[i]);
      AccumulateAppend(INITIAL_CRC, CalculatorInput(messageName, wireOrderedFields[..i]), CalculatorFieldInput(wireOrderedFields[i]));
      i := i + 1;
    }
    assert wireOrderedFields[..i] == wireOrderedFields;
    r := FoldCrc(crc.current);
  }

  lemma CalculatorInputSnoc(name: string, fields: seq<FieldDefinition>, i: nat)
    requires i < |fields|
    ensures CalculatorInput(name, fields[..i + 1]) == CalculatorInput(name, fields[..i]) + CalculatorFieldInput(fields[i])
  {
    assert fields[..i + 1][..i] == fields[..i];
  }

  /** The loop body of `computeExtraCrc`: one wire-ordered field. */
  method AccumulateField(crc: X25Crc, field: FieldDefinition)
    modifies crc
    ensures crc.current == Accumulate(old(crc.current), CalculatorFieldInput(field))
  {
    if field.extension {
      return;
    }
    ghost var start := crc.current;
    AccumulateTokenWithSpace(crc, field.xmlType);
    AccumulateTokenWithSpace(crc, Some(field.name));
    ghost var tokens := TokenWithSpace(field.xmlType) + TokenWithSpace(Some(field.name));
    AccumulateAppend(start, TokenWithSpace(field.xmlType), TokenWithSpace(Some(field.name)));
    if field.isArray {
      crc.Update(field.arrayLength % 256);
      AccumulateSnoc(start, tokens, field.arrayLength % 256);
    } else {
      assert tokens + [] == tokens;
    }
  }

  /** `accumulateTokenWithSpace`: the token's US-ASCII bytes and a space, or nothing for a missing token. */
  method AccumulateTokenWithSpace(crc: X25Crc, token: Option<string>)
    modifies crc
    ensures crc.current == Accumulate(old(crc.current), TokenWithSpace(token))
  {
    if token.None? {
      return;
    }
    var text := token.value;
    ghost var start := crc.current;
    var i := 0;
    while i < |text|
      invariant 0 <= i <= |text|
      invariant crc.current == Accumulate(start, AsciiBytes(text[..i]))
    {
      var value: uint8 := if (text[i] as int) < 128 then text[i] as int else QUESTION_MARK;
      AccumulateSnoc(start, AsciiBytes(text[..i]), value);
      assert AsciiBytes(text[..i + 1]) == AsciiBytes(text[..i]) + [value];
      crc.Update(value);
      i := i + 1;
    }
    assert text[..i] == text;
    AccumulateSnoc(start, AsciiBytes(text), ' ' as int);
    crc.Update(' ' as int);
  }

  /** Extension fields never change what the calculator hashes. */
  lemma {:induction false} CalculatorIgnoresExtensions(name: string, fields: seq<FieldDefinition>)
    ensures CalculatorInput(name, fields) == CalculatorInput(name, BaseFields(fields))
  {
    if |fields| > 0 {
      var front := fields[..|fields| - 1];
      var last := fields[|fields| - 1];
      assert fields == front + [last];
      CalculatorIgnoresExtensions(name, front);
      CalculatorInputSnoc(name, fields, |fields| - 1);
      if last.extension {
        assert BaseFields(fields) == BaseFields(front);
        assert CalculatorInput(name, front) + [] == CalculatorInput(name, front);
      } else {
        var base := BaseFields(front) + [last];
        assert BaseFields(fields) == base;
        CalculatorInputSnoc(name, base, |base| - 1);
        assert base[..|base|] == base && base[..|base| - 1] == BaseFields(front);
      }
    }
  }

  lemma AsciiIsText(s: string)
    requires IsAscii(s)
    ensures AsciiBytes(s) == TextBytes(s)
  {
  }

  /** A base field whose XML type is its wire name and whose name is ASCII: both calculators hash the same bytes. */
  predicate PlainField(f: FieldDefinition)
  {
    f.extension || (f.xmlType == Some(WireName(f.wireType)) && IsAscii(f.name))
  }

  /** Every wire type's C name is plain ASCII. */
  lemma WireNameIsAscii(t: WireType)
    ensures IsAscii(WireName(t))
  {
    match t
    case Int8 => assert WireName(t) == "int8_t";
    case UInt8 => assert WireName(t) == "uint8_t";
    case Int16 => assert WireName(t) == "int16_t";
    case UInt16 => assert WireName(t) == "uint16_t";
    case Int32 => assert WireName(t) == "int32_t";
    case UInt32 => assert WireName(t) == "uint32_t";
    case Int64 => assert WireName(t) == "int64_t";
    case UInt64 => assert WireName(t) == "uint64_t";
    case Float => assert WireName(t) == "float";
    case Double => assert WireName(t) == "double";
    case Char => assert WireName(t) == "char";
  }

  lemma FieldInputsAgree(f: FieldDefinition)
    requires PlainField(f)
    ensures FieldCrcInput(f) == Ok(CalculatorFieldInput(f))
  {
    if !f.extension {
      FromXmlTypeOfWireName(f.wireType);
      WireNameShape(f.wireType);
      WireNameIsAscii(f.wireType);
      AsciiIsText(WireName(f.wireType));
      AsciiIsText(f.name);
    }
  }

  /**
   * With plain types and ASCII names the two CRC-extra computations agree:
   * the message definition's input equals the calculator's.
   */
  lemma {:induction false} CalculatorAgreesWithDefinition(name: string, fields: seq<FieldDefinition>)
    requires IsAscii(name)
    requires forall i :: 0 <= i < |fields| ==> PlainField(fields[i])
    ensures ExtraCrcInput(name, fields) == Ok(CalculatorInput(name, fields))
  {
    if |fields| == 0 {
      AsciiIsText(name);
    } else {
      var front := fields[..|fields| - 1];
      CalculatorAgreesWithDefinition(name, front);
      FieldInputsAgree(fields[|fields| - 1]);
    }
  }

  /**
   * A base field typed with the mavlink_version alias hashes differently:
   * the definition hashes "uint8_t", the calculator the alias text itself.
   */
  lemma AliasFieldDiffers(f: FieldDefinition)
    requires !f.extension && f.xmlType == Some(MAVLINK_VERSION_ALIAS)
    ensures FieldCrcInput(f).Ok? && FieldCrcInput(f).value != CalculatorFieldInput(f)
  {
    FromXmlTypeOfAlias();
    var a := FieldCrcInput(f).value;
    var b := CalculatorFieldInput(f);
    assert |a| < |b|;
  }
}
