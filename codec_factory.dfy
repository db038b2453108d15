// Choosing a field codec from a MAVLink XML type string such as
// "uint16_t", "char[16]" or "uint8_t_mavlink_version": a scalar codec for a
// base type, wrapped in an array codec when a positive "[n]" suffix is
// present.

module CodecFactory {
  import opened Bytes
  import opened Text
  import opened WireTypes

  /** A field codec: one value of a wire type, or a fixed-length array of them. */
  datatype FieldCodec =
    | ScalarCodec(wireType: WireType)
    | ArrayCodec(element: WireType, arrayLength: int, treatAsString: bool)
  {
    function ElementType(): WireType
    {
      if ScalarCodec? then wireType else element
    }
  }

  /** `getSizeInBytes`: a scalar's size, or element size times length for an array. */
  function CodecSize(codec: FieldCodec): (r: int)
    ensures codec.ScalarCodec? ==> r == SizeInBytes(codec.wireType)
    ensures codec.ArrayCodec? && codec.arrayLength >= 0 ==> r >= 0 && r >= codec.arrayLength
  {
    match codec
    case ScalarCodec(t) => SizeInBytes(t)
    case ArrayCodec(t, n, _) => SizeInBytes(t) * n
  }

  /** `prefix` is a prefix of `s`. */
  predicate IsPrefix(prefix: string, s: string)
  {
    |prefix| <= |s| && s[..|prefix|] == prefix
  }

  /**
   * `createScalarCodec`: an exact base name selects its codec; otherwise a
   * name with text after its first "_t" is retried with that text cut off;
   * anything else is unsupported.
   */
  function CreateScalarCodec(baseType: string): (r: Result<WireType>)
    ensures r.Ok? ==> IsPrefix(WireName(r.value), baseType)
    ensures ByName(baseType).Some? ==> r == Ok(ByName(baseType).value)
    decreases |baseType|
  {
    match ByName(baseType)
    case Some(t) => Ok(t)
    case None =>
      var location := IndexOfText(baseType, "_t");
      if location != -1 && |baseType| > location + 2 then
        var shorter := baseType[..location + 2];
        var r := CreateScalarCodec(shorter);
        assert r.Ok? ==> baseType[..|WireName(r.value)|] == shorter[..|WireName(r.value)|];
        r
      else
        Err("Unsupported MAVLink base type")
  }

  /**
   * `createCodec`: a type is an array when its first '[' is past index 0
   * and it ends with ']'; the text between is parsed as an int. A positive
   * length gives an array codec over the base type (treated as a string for
   * char); otherwise the base type's scalar codec.
   */
  function CreateCodec(typeString: string): (r: Result<FieldCodec>)
    ensures r.Ok? ==> IsPrefix(WireName(r.value.ElementType()), typeString)
    ensures r.Ok? && r.value.ArrayCodec? ==>
              IndexOf(typeString, '[') > 0 && EndsWith(typeString, "]")
              && r.value.arrayLength > 0
              && r.value.treatAsString == (r.value.element == Char)
  {
    var arrayStart := IndexOf(typeString, '[');
    if arrayStart > 0 && EndsWith(typeString, "]") then
      var baseType := typeString[..arrayStart];
      var lengthText := typeString[arrayStart + 1..|typeString| - 1];
      match ParseInt(lengthText)
      case Err(e) => Err(e)
      case Ok(arrayLength) =>
        match CreateScalarCodec(baseType)
        case Err(e) => Err(e)
        case Ok(t) =>
          assert typeString[..|WireName(t)|] == baseType[..|WireName(t)|];
          if arrayLength > 0 then Ok(ArrayCodec(t, arrayLength, t == Char)) else Ok(ScalarCodec(t))
    else
      match CreateScalarCodec(typeString)
      case Err(e) => Err(e)
      case Ok(t) => Ok(ScalarCodec(t))
  }

  /** Every wire name yields its scalar codec. */
  lemma CreateCodecOfWireName(t: WireType)
    ensures CreateCodec(WireName(t)) == Ok(ScalarCodec(t))
  {
    WireNameShape(t);
    ByNameOfWireName(t);
  }

  /** "name[n]" with a positive n yields an n-element array codec, string-typed exactly for char. */
  lemma CreateCodecOfArray(t: WireType, n: nat)
    requires 0 < n <= INT_MAX
    ensures CreateCodec(WireName(t) + "[" + Decimal(n) + "]") == Ok(ArrayCodec(t, n, t == Char))
    ensures CodecSize(ArrayCodec(t, n, t == Char)) == SizeInBytes(t) * n
  {
    var name := WireName(t);
    var s := name + "[" + Decimal(n) + "]";
    WireNameShape(t);
    assert s[..|name|] == name;
    assert IndexOf(s, '[') == |name|;
    assert s[|name| + 1..|s| - 1] == Decimal(n);
    ParseIntOfDecimal(n);
    ByNameOfWireName(t);
  }

  /** The first occurrence is the one with no occurrence before it. */
  lemma IndexOfTextIs(s: string, t: string, i: int)
    requires OccursAt(s, t, i)
    requires forall j :: 0 <= j < i ==> !OccursAt(s, t, j)
    ensures IndexOfText(s, t) == i
  {
  }

  lemma AliasSuffixAt()
    ensures IndexOfText(MAVLINK_VERSION_ALIAS, "_t") == 5
  {
    var s := MAVLINK_VERSION_ALIAS;
    assert s[5..7] == "_t";
    forall j | 0 <= j < 5
      ensures !OccursAt(s, "_t", j)
    {
      assert s[j] != '_';
    }
    IndexOfTextIs(s, "_t", 5);
  }

  /** The mavlink_version pseudo-type falls back to uint8_t through its "_t". */
  lemma CreateCodecOfAlias()
    ensures CreateCodec(MAVLINK_VERSION_ALIAS) == Ok(ScalarCodec(UInt8))
  {
    var s := MAVLINK_VERSION_ALIAS;
    assert '[' !in s;
    AliasSuffixAt();
    assert s[..7] == "uint8_t";
    assert ByName(s).None?;
    assert CreateScalarCodec(s) == CreateScalarCodec("uint8_t");
  }

  /** A type that contains no '[' and no "_t" and is not a wire name is rejected. */
  lemma CreateCodecRejectsUnknown(typeString: string)
    requires '[' !in typeString && ByName(typeString).None?
    requires forall j :: 0 <= j <= |typeString| ==> !OccursAt(typeString, "_t", j)
    ensures CreateCodec(typeString).Err?
  {
  }
}
