// A message definition: its fields in MAVLink wire order and its CRC-extra
// byte, the checksum seed that ties a frame to the message layout both ends
// agreed on.

module Messages {
  import opened Bytes
  import opened Crc
  import opened WireTypes

  /** A field as declared in the dialect XML; `index` is its declaration position. */
  datatype FieldDefinition = FieldDefinition(
    index: int,
    xmlType: Option<string>,
    name: string,
    enumName: Option<string>,
    wireType: WireType,
    extension: bool,
    isArray: bool,
    arrayLength: int)

  /** Wire-order comparison: larger element size first, then declaration order. */
  predicate Less(a: FieldDefinition, b: FieldDefinition)
  {
    SizeInBytes(a.wireType) > SizeInBytes(b.wireType)
    || (SizeInBytes(a.wireType) == SizeInBytes(b.wireType) && a.index < b.index)
  }

  predicate Sorted(s: seq<FieldDefinition>)
  {
    forall i, j :: 0 <= i < j < |s| ==> !Less(s[j], s[i])
  }

  /** Inserts `f` after every element it does not precede (a stable insertion). */
  function Insert(f: FieldDefinition, s: seq<FieldDefinition>): (r: seq<FieldDefinition>)
    ensures multiset(r) == multiset(s) + multiset{f}
    ensures |r| == |s| + 1
  {
    if |s| == 0 then [f]
    else if Less(f, s[0]) then [f] + s
    else
      assert s == [s[0]] + s[1..];
      [s[0]] + Insert(f, s[1..])
  }

  /** `List.sort` with the wire comparator: a stable insertion sort in input order. */
  function SortFields(s: seq<FieldDefinition>): (r: seq<FieldDefinition>)
    ensures multiset(r) == multiset(s)
    ensures |r| == |s|
  {
    if |s| == 0 then []
    else
      assert s == s[..|s| - 1] + [s[|s| - 1]];
      Insert(s[|s| - 1], SortFields(s[..|s| - 1]))
  }

  lemma {:induction false} InsertSorted(f: FieldDefinition, s: seq<FieldDefinition>)
    requires Sorted(s)
    ensures Sorted(Insert(f, s))
  {
    if |s| > 0 && !Less(f, s[0]) {
      var rest := Insert(f, s[1..]);
      InsertSorted(f, s[1..]);
      forall j | 0 <= j < |rest|
        ensures !Less(rest[j], s[0])
      {
        assert rest[j] in multiset(rest);
        assert rest[j] in multiset(s[1..]) || rest[j] == f;
        if rest[j] != f {
          var k :| 0 <= k < |s[1..]| && s[1..][k] == rest[j];
          assert s[k + 1] == rest[j];
        }
      }
    }
  }

  /** Sorting yields a sorted permutation. */
  lemma {:induction false} SortFieldsSorted(s: seq<FieldDefinition>)
    ensures Sorted(SortFields(s))
  {
    if |s| > 0 {
      SortFieldsSorted(s[..|s| - 1]);
      InsertSorted(s[|s| - 1], SortFields(s[..|s| - 1]));
    }
  }

  function BaseFields(s: seq<FieldDefinition>): (r: seq<FieldDefinition>)
    ensures forall f :: f in r ==> !f.extension
  {
    if |s| == 0 then []
    else
      assert s == s[..|s| - 1] + [s[|s| - 1]];
      BaseFields(s[..|s| - 1]) + (if s[|s| - 1].extension then [] else [s[|s| - 1]])
  }

  function ExtensionFields(s: seq<FieldDefinition>): (r: seq<FieldDefinition>)
    ensures forall f :: f in r ==> f.extension
  {
    if |s| == 0 then []
    else ExtensionFields(s[..|s| - 1]) + (if s[|s| - 1].extension then [s[|s| - 1]] else [])
  }

  lemma {:induction false} PartitionIsPermutation(s: seq<FieldDefinition>)
    ensures multiset(BaseFields(s)) + multiset(ExtensionFields(s)) == multiset(s)
  {
    if |s| > 0 {
      PartitionIsPermutation(s[..|s| - 1]);
      assert s == s[..|s| - 1] + [s[|s| - 1]];
    }
  }

  /** `orderForWire`: the base fields sorted, then the extension fields sorted. */
  function OrderForWire(xmlOrdered: seq<FieldDefinition>): seq<FieldDefinition>
  {
    SortFields(BaseFields(xmlOrdered)) + SortFields(ExtensionFields(xmlOrdered))
  }

  /** The base group holds no extension field and the extension group nothing else. */
  lemma {:induction false} PartitionGroups(s: seq<FieldDefinition>)
    ensures forall f :: f in multiset(SortFields(BaseFields(s))) ==> !f.extension
    ensures forall f :: f in multiset(SortFields(ExtensionFields(s))) ==> f.extension
  {
  }

  /**
   * Wire order is a permutation of the declared fields; every base field
   * precedes every extension field; and each group is sorted by element
   * size descending, then declaration index.
   */
  lemma OrderForWireProperties(xmlOrdered: seq<FieldDefinition>)
    ensures multiset(OrderForWire(xmlOrdered)) == multiset(xmlOrdered)
    ensures var r := OrderForWire(xmlOrdered);
            forall i, j :: 0 <= i < j < |r| && r[i].extension ==> r[j].extension
    ensures var r := OrderForWire(xmlOrdered);
            forall i, j :: 0 <= i < j < |r| && r[i].extension == r[j].extension ==> !Less(r[j], r[i])
  {
    PartitionIsPermutation(xmlOrdered);
    OrderForWireGroups(xmlOrdered);
    OrderForWireSorted(xmlOrdered);
  }

  lemma OrderForWireGroups(xmlOrdered: seq<FieldDefinition>)
    ensures var base := SortFields(BaseFields(xmlOrdered));
            var r := OrderForWire(xmlOrdered);
            forall i :: 0 <= i < |r| ==> (r[i].extension <==> i >= |base|)
  {
    var base := SortFields(BaseFields(xmlOrdered));
    var ext := SortFields(ExtensionFields(xmlOrdered));
    var r := base + ext;
    PartitionGroups(xmlOrdered);
    forall i | 0 <= i < |r|
      ensures r[i].extension <==> i >= |base|
    {
      if i < |base| {
        assert r[i] == base[i] && base[i] in multiset(base);
      } else {
        assert r[i] == ext[i - |base|] && ext[i - |base|] in multiset(ext);
      }
    }
  }

  lemma OrderForWireSorted(xmlOrdered: seq<FieldDefinition>)
    ensures var r := OrderForWire(xmlOrdered);
            forall i, j :: 0 <= i < j < |r| && r[i].extension == r[j].extension ==> !Less(r[j], r[i])
  {
    var base := SortFields(BaseFields(xmlOrdered));
    var ext := SortFields(ExtensionFields(xmlOrdered));
    var r := base + ext;
    SortFieldsSorted(BaseFields(xmlOrdered));
    SortFieldsSorted(ExtensionFields(xmlOrdered));
    OrderForWireGroups(xmlOrdered);
    forall i, j | 0 <= i < j < |r| && r[i].extension == r[j].extension
      ensures !Less(r[j], r[i])
    {
      if j < |base| {
        assert r[i] == base[i] && r[j] == base[j];
      } else {
        assert r[i] == ext[i - |base|] && r[j] == ext[j - |base|];
      }
    }
  }

  /** A token and the space the CRC-extra input puts after it. */
  function Token(text: string): seq<uint8>
  {
    TextBytes(text) + [' ' as int]
  }

  /** The CRC-extra contribution of one wire-ordered field; extension fields contribute nothing. */
  function FieldCrcInput(f: FieldDefinition): Result<seq<uint8>>
  {
    if f.extension then Ok([])
    else
      match FromXmlType(f.xmlType)
      case Err(e) => Err(e)
      case Ok(t) => Ok(Token(WireName(t)) + Token(f.name) + (if f.isArray then [f.arrayLength % 256] else []))
  }

  /** Two results joined: the first error, or both byte strings in order. */
  function Concat(a: Result<seq<uint8>>, b: Result<seq<uint8>>): (r: Result<seq<uint8>>)
    ensures r.Ok? <==> a.Ok? && b.Ok?
    ensures r.Ok? ==> r.value == a.value + b.value
  {
    if a.Err? then a else if b.Err? then b else Ok(a.value + b.value)
  }

  /** The bytes `computeExtraCrc` feeds the CRC engine: the message name, then each base field. */
  function ExtraCrcInput(name: string, fields: seq<FieldDefinition>): Result<seq<uint8>>
  {
    if |fields| == 0 then Ok(Token(name))
    else Concat(ExtraCrcInput(name, fields[..|fields| - 1]), FieldCrcInput(fields[|fields| - 1]))
  }

  lemma ExtraCrcInputLast(name: string, fields: seq<FieldDefinition>, f: FieldDefinition)
    ensures ExtraCrcInput(name, fields + [f]) == Concat(ExtraCrcInput(name, fields), FieldCrcInput(f))
  {
    assert (fields + [f])[..|fields|] == fields;
  }

  /** The two CRC bytes folded into one: low byte XOR high byte. */
  function FoldCrc(crc: bv16): (r: int)
    ensures 0 <= r <= 255
  {
    ((crc & 0xFF) ^ (crc >> 8)) as int
  }

  /** The CRC-extra byte of a message, or the error a field's type raises. */
  function ExtraCrcOf(name: string, fields: seq<FieldDefinition>): (r: Result<int>)
    ensures r.Ok? ==> 0 <= r.value <= 255
  {
    match ExtraCrcInput(name, fields)
    case Err(e) => Err(e)
    case Ok(input) => Ok(FoldCrc(Checksum(input)))
  }

  /** Extension fields never change the CRC-extra input. */
  lemma {:induction false} ExtraCrcIgnoresExtensions(name: string, fields: seq<FieldDefinition>)
    ensures ExtraCrcInput(name, fields) == ExtraCrcInput(name, BaseFields(fields))
  {
    if |fields| > 0 {
      var front := fields[..|fields| - 1];
      var last := fields[|fields| - 1];
      assert fields == front + [last];
      ExtraCrcIgnoresExtensions(name, front);
      ExtraCrcInputLast(name, front, last);
      if last.extension {
        assert BaseFields(fields) == BaseFields(front);
        var prefix := ExtraCrcInput(name, front);
        assert prefix.Ok? ==> prefix.value + [] == prefix.value;
      } else {
        assert BaseFields(fields) == BaseFields(front) + [last];
        ExtraCrcInputLast(name, BaseFields(front), last);
      }
    }
  }

  /** The input is the name token followed by each field's contribution, so a message's CRC-extra changes with its name. */
  lemma {:induction false} ExtraCrcInputStartsWithName(name: string, fields: seq<FieldDefinition>)
    requires ExtraCrcInput(name, fields).Ok?
    ensures var input := ExtraCrcInput(name, fields).value;
            |Token(name)| <= |input| && input[..|Token(name)|] == Token(name)
  {
    if |fields| > 0 {
      ExtraCrcInputStartsWithName(name, fields[..|fields| - 1]);
    }
  }

  /** A message definition; `fields` are in wire order once set. */
  class MessageDefinition {
    var messageId: int
    var name: string
    var fields: seq<FieldDefinition>
    var extraCrc: int

    constructor(messageId: int, name: string)
      ensures this.messageId == messageId && this.name == name
      ensures fields == [] && extraCrc == 0
    {
      this.messageId := messageId;
      this.name := name;
      fields := [];
      extraCrc := 0;
    }

    /**
     * `setXmlOrderedFields`: null or empty input leaves no fields; otherwise
     * the fields are put in wire order. The CRC-extra is recomputed either
     * way; a field whose type is not a wire type makes that step fail
     * (ok == false) after the fields are set.
     */
    method SetXmlOrderedFields(xmlOrdered: Option<seq<FieldDefinition>>) returns (ok: bool)
      modifies this
      ensures messageId == old(messageId) && name == old(name)
      ensures fields == (if xmlOrdered.None? || |xmlOrdered.value| == 0 then [] else OrderForWire(xmlOrdered.value))
      ensures ok <==> ExtraCrcOf(name, fields).Ok?
      ensures ok ==> extraCrc == ExtraCrcOf(name, fields).value
      ensures !ok ==> extraCrc == old(extraCrc)
    {
      if xmlOrdered.None? || |xmlOrdered.value| == 0 {
        fields := [];
      } else {
        fields := OrderForWire(xmlOrdered.value);
      }
      ok := ComputeExtraCrc();
    }

    /** `computeExtraCrc`: one CRC pass over the name and the base fields, folded to a byte. */
    method ComputeExtraCrc() returns (ok: bool)
      modifies this
      ensures messageId == old(messageId) && name == old(name) && fields == old(fields)
      ensures ok <==> ExtraCrcOf(name, fields).Ok?
      ensures ok ==> extraCrc == ExtraCrcOf(name, fields).value
      ensures !ok ==> extraCrc == old(extraCrc)
    {
      var r := ExtraCrcPass(name, fields);
      ok := r.Ok?;
      if ok {
        extraCrc := r.value;
      }
    }
  }

  /**
   * The CRC pass of `computeExtraCrc` on its own: a fresh X.25 engine fed
   * the name token and then each base field in turn; an unknown field type
   * aborts the pass.
   */
  method ExtraCrcPass(name: string, fields: seq<FieldDefinition>) returns (r: Result<int>)
    ensures r.Ok? <==> ExtraCrcOf(name, fields).Ok?
    ensures r.Ok? ==> r.value == ExtraCrcOf(name, fields).value
  {
    var crc := new X25Crc();
    crc.Reset();
    CrcCharArray(crc, name);
    var i := 0;
    while i < |fields|
      invariant 0 <= i <= |fields|
      invariant ExtraCrcInput(name, fields[..i]).Ok?
      invariant crc.current == Checksum(ExtraCrcInput(name, fields[..i]).value)
    {
      var fieldOk := CrcFieldStep(crc, name, fields, i);
      if !fieldOk {
        return Err("Unsupported field type");
      }
      i := i + 1;
    }
    assert fields[..i] == fields;
    return Ok(FoldCrc(crc.current));
  }

  /** The loop body of `computeExtraCrc`: the i-th field's contribution, or the failure that aborts the pass. */
  method CrcFieldStep(crc: X25Crc, name: string, fields: seq<FieldDefinition>, i: nat) returns (ok: bool)
    requires i < |fields| && ExtraCrcInput(name, fields[..i]).Ok?
    requires crc.current == Checksum(ExtraCrcInput(name, fields[..i]).value)
    modifies crc
    ensures ok ==> ExtraCrcInput(name, fields[..i + 1]).Ok?
    ensures ok ==> crc.current == Checksum(ExtraCrcInput(name, fields[..i + 1]).value)
    ensures !ok ==> ExtraCrcInput(name, fields).Err?
  {
    var field := fields[i];
    var prefix := ExtraCrcInput(name, fields[..i]).value;
    if !field.extension {
      var fieldType := FromXmlType(field.xmlType);
      if fieldType.Err? {
        ExtraCrcInputFails(name, fields, i + 1);
        return false;
      }
      CrcField(crc, field, fieldType.value, FieldCrcInput(field).value);
    } else {
      assert prefix + [] == prefix;
    }
    ExtraCrcInputSnoc(name, fields, i);
    AccumulateAppend(INITIAL_CRC, prefix, FieldCrcInput(field).value);
    return true;
  }

  lemma ExtraCrcInputSnoc(name: string, fields: seq<FieldDefinition>, i: nat)
    requires i < |fields| && ExtraCrcInput(name, fields[..i]).Ok? && FieldCrcInput(fields[i]).Ok?
    ensures ExtraCrcInput(name, fields[..i + 1]) == Ok(ExtraCrcInput(name, fields[..i]).value + FieldCrcInput(fields[i]).value)
  {
    assert fields[..i + 1] == fields[..i] + [fields[i]];
    ExtraCrcInputLast(name, fields[..i], fields[i]);
  }

  /** One base field's CRC-extra contribution: its wire name, its name and, for an array, the length byte. */
  method CrcField(crc: X25Crc, field: FieldDefinition, t: WireType, ghost input: seq<uint8>)
    requires input == Token(WireName(t)) + Token(field.name) + if field.isArray then [field.arrayLength % 256] else []
    modifies crc
    ensures crc.current == Accumulate(old(crc.current), input)
  {
    ghost var before := crc.current;
    CrcCharArray(crc, WireName(t));
    CrcCharArray(crc, field.name);
    AccumulateAppend(before, Token(WireName(t)), Token(field.name));
    if field.isArray {
      ghost var mid := crc.current;
      crc.Update(field.arrayLength % 256);
      UpdateByteLow(mid, field.arrayLength % 256);
      AccumulateSnoc(before, Token(WireName(t)) + Token(field.name), field.arrayLength % 256);
    } else {
      assert Token(WireName(t)) + Token(field.name) + [] == Token(WireName(t)) + Token(field.name);
    }
  }

  /** A failing field type fails every longer prefix. */
  lemma {:induction false} ExtraCrcInputFails(name: string, fields: seq<FieldDefinition>, n: nat)
    requires 0 < n <= |fields| && FieldCrcInput(fields[n - 1]).Err?
    ensures ExtraCrcInput(name, fields).Err?
  {
    if n < |fields| {
      ExtraCrcInputFails(name, fields[..|fields| - 1], n);
    }
  }

  lemma TextBytesSnoc(text: string, i: nat)
    requires i < |text|
    ensures TextBytes(text[..i + 1]) == TextBytes(text[..i]) + [(text[i] as int) % 256]
  {
  }

  /** `crcCharArray`: each character's low byte, then a space. */
  method CrcCharArray(crc: X25Crc, text: string)
    modifies crc
    ensures crc.current == Accumulate(old(crc.current), Token(text))
  {
    ghost var start := crc.current;
    ghost var fed: seq<uint8> := [];
    var i := 0;
    while i < |text|
      invariant 0 <= i <= |text|
      invariant fed == TextBytes(text[..i])
      invariant crc.current == Accumulate(start, fed)
    {
      ghost var before := crc.current;
      crc.Update(text[i] as int);
      UpdateByteLow(before, text[i] as int);
      AccumulateSnoc(start, fed, (text[i] as int) % 256);
      TextBytesSnoc(text, i);
      fed := fed + [(text[i] as int) % 256];
      i := i + 1;
    }
    assert text[..i] == text;
    ghost var before := crc.current;
    crc.Update(' ' as int);
    AccumulateSnoc(start, fed, ' ' as int);
  }
}
