// The MAVLink wire types: the eleven primitive field types, their sizes on
// the wire and their XML names, and the mapping from an XML type attribute
// to a wire type.

module WireTypes {
  import opened Bytes
  import opened Text

  datatype WireType =
    | Int8 | UInt8 | Int16 | UInt16 | Int32 | UInt32 | Int64 | UInt64
    | Float | Double | Char

  /** Bytes one value of the type occupies on the wire. */
  function SizeInBytes(t: WireType): (r: nat)
    ensures r in {1, 2, 4, 8}
  {
    match t
    case Int8 => 1
    case UInt8 => 1
    case Int16 => 2
    case UInt16 => 2
    case Int32 => 4
    case UInt32 => 4
    case Int64 => 8
    case UInt64 => 8
    case Float => 4
    case Double => 8
    case Char => 1
  }

  /** The type's name in MAVLink XML and in the CRC-extra input. */
  function WireName(t: WireType): string
  {
    match t
    case Int8 => "int8_t"
    case UInt8 => "uint8_t"
    case Int16 => "int16_t"
    case UInt16 => "uint16_t"
    case Int32 => "int32_t"
    case UInt32 => "uint32_t"
    case Int64 => "int64_t"
    case UInt64 => "uint64_t"
    case Float => "float"
    case Double => "double"
    case Char => "char"
  }

  /** Whether the integer type is read back as two's complement. */
  predicate IsSigned(t: WireType)
  {
    t in {Int8, Int16, Int32, Int64}
  }

  /** The exact-name lookup of the `switch` over base names. */
  function ByName(name: string): (r: Option<WireType>)
    ensures r.Some? ==> WireName(r.value) == name
  {
    if name == "int8_t" then Some(Int8)
    else if name == "uint8_t" then Some(UInt8)
    else if name == "int16_t" then Some(Int16)
    else if name == "uint16_t" then Some(UInt16)
    else if name == "int32_t" then Some(Int32)
    else if name == "uint32_t" then Some(UInt32)
    else if name == "int64_t" then Some(Int64)
    else if name == "uint64_t" then Some(UInt64)
    else if name == "float" then Some(Float)
    else if name == "double" then Some(Double)
    else if name == "char" then Some(Char)
    else None
  }

  const MAVLINK_VERSION_ALIAS: string := "uint8_t_mavlink_version"

  /**
   * `fromXmlType`: null is rejected; the text is trimmed; the
   * mavlink_version alias reads as uint8_t; when both '[' and ']' occur,
   * everything from the first '[' on is dropped; the rest must be one of
   * the eleven wire names.
   */
  function FromXmlType(xmlType: Option<string>): (r: Result<WireType>)
    ensures xmlType.None? ==> r.Err?
  {
    if xmlType.None? then Err("MAVLink XML type is null")
    else
      var trimmed := Trim(xmlType.value);
      var aliased := if trimmed == MAVLINK_VERSION_ALIAS then "uint8_t" else trimmed;
      var base := if '[' in aliased && ']' in aliased then aliased[..IndexOf(aliased, '[')] else aliased;
      match ByName(base)
      case Some(t) => Ok(t)
      case None => Err("Unsupported MAVLink XML type")
  }

  lemma ByNameOfWireName(t: WireType)
    ensures ByName(WireName(t)) == Some(t)
  {
  }

  /** Wire names are pairwise distinct. */
  lemma WireNameInjective(a: WireType, b: WireType)
    requires WireName(a) == WireName(b)
    ensures a == b
  {
    ByNameOfWireName(a);
    ByNameOfWireName(b);
  }

  lemma WireNameShape(t: WireType)
    ensures '[' !in WireName(t) && ']' !in WireName(t)
    ensures !IsTrimmed(WireName(t)[0]) && !IsTrimmed(WireName(t)[|WireName(t)| - 1])
    ensures WireName(t) != MAVLINK_VERSION_ALIAS
  {
  }

  /** Every wire type is recovered from its own name. */
  lemma FromXmlTypeOfWireName(t: WireType)
    ensures FromXmlType(Some(WireName(t))) == Ok(t)
  {
    WireNameShape(t);
    TrimUntrimmed(WireName(t));
    ByNameOfWireName(t);
  }

  /** An array suffix "[n]" after a wire name is ignored. */
  lemma FromXmlTypeOfArray(t: WireType, n: nat)
    ensures FromXmlType(Some(WireName(t) + "[" + Decimal(n) + "]")) == Ok(t)
  {
    var name := WireName(t);
    var s := name + "[" + Decimal(n) + "]";
    WireNameShape(t);
    TrimUntrimmed(s);
    assert s[|name|] == '[' && s[|s| - 1] == ']';
    assert s != MAVLINK_VERSION_ALIAS by {
      assert MAVLINK_VERSION_ALIAS[|MAVLINK_VERSION_ALIAS| - 1] == 'n';
    }
    assert IndexOf(s, '[') == |name| by {
      assert s[..|name|] == name;
    }
    assert s[..|name|] == name;
    ByNameOfWireName(t);
  }

  /** The mavlink_version pseudo-type is an unsigned byte. */
  lemma FromXmlTypeOfAlias()
    ensures FromXmlType(Some(MAVLINK_VERSION_ALIAS)) == Ok(UInt8)
  {
    TrimUntrimmed(MAVLINK_VERSION_ALIAS);
  }

  /** Whatever is accepted names a wire type after trimming and dropping an array suffix. */
  lemma FromXmlTypeAccepts(xmlType: string)
    requires FromXmlType(Some(xmlType)).Ok?
    ensures var t := FromXmlType(Some(xmlType)).value;
            var trimmed := Trim(xmlType);
            trimmed == MAVLINK_VERSION_ALIAS || trimmed == WireName(t)
            || ('[' in trimmed && ']' in trimmed && trimmed[..IndexOf(trimmed, '[')] == WireName(t))
  {
  }
}
