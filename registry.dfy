// The message registry of a dialect: every message definition compiled
// into its field layout (codec, offset and size of each wire-ordered field)
// and indexed by message id, together with the dialect's enums.

module Registry {
  import opened Bytes
  import opened Text
  import opened WireTypes
  import opened CodecFactory
  import opened Messages
  import opened Enums

  /** A field placed in the payload. */
  datatype CompiledField = CompiledField(definition: FieldDefinition, codec: FieldCodec, offsetInPayload: int, sizeInBytes: int)

  /** A message ready for packing and parsing. The minimum payload size is never assigned, so it keeps Java's default 0. */
  datatype CompiledMessage = CompiledMessage(
    messageId: int,
    name: string,
    extraCrc: int,
    compiledFields: seq<CompiledField>,
    payloadSizeBytes: int,
    minimumPayloadSizeBytes: int)

  /** The codec chosen for a declared field: an array codec for an array field, a scalar codec otherwise. */
  function CodecFor(f: FieldDefinition): FieldCodec
  {
    if f.isArray then ArrayCodec(f.wireType, f.arrayLength, f.wireType == Char) else ScalarCodec(f.wireType)
  }

  /** A field's size on the wire. */
  function FieldSize(f: FieldDefinition): int
  {
    CodecSize(CodecFor(f))
  }

  /** The sum of the fields' sizes: where the field after them starts. */
  function TotalSize(fields: seq<FieldDefinition>): int
  {
    if |fields| == 0 then 0 else TotalSize(fields[..|fields| - 1]) + FieldSize(fields[|fields| - 1])
  }

  /** The layout of a message: fields in the given order, each starting where the ones before it end. */
  function Layout(definition: MessageDefinition): (r: CompiledMessage)
    reads definition
    ensures |r.compiledFields| == |definition.fields|
    ensures forall i :: 0 <= i < |r.compiledFields| ==> r.compiledFields[i].definition == definition.fields[i]
  {
    var fields := definition.fields;
    CompiledMessage(
      definition.messageId, definition.name, definition.extraCrc,
      seq(|fields|, i requires 0 <= i < |fields| => Placed(fields, i)),
      TotalSize(fields), 0)
  }

  /** The `i`-th field placed after the ones before it. */
  function Placed(fields: seq<FieldDefinition>, i: nat): CompiledField
    requires i < |fields|
  {
    CompiledField(fields[i], CodecFor(fields[i]), TotalSize(fields[..i]), FieldSize(fields[i]))
  }

  /** Adding a field moves the running offset by that field's size. */
  lemma TotalSizeStep(fields: seq<FieldDefinition>, i: nat)
    requires i < |fields|
    ensures TotalSize(fields[..i + 1]) == TotalSize(fields[..i]) + FieldSize(fields[i])
  {
    assert fields[..i + 1][..i] == fields[..i];
  }

  /** `compileMessage`: one pass over the wire-ordered fields, advancing a running offset. */
  method CompileMessage(definition: MessageDefinition) returns (compiled: CompiledMessage)
    ensures compiled == Layout(definition)
  {
    var fields := definition.fields;
    var compiledFields: seq<CompiledField> := [];
    var currentOffset := 0;
    var i := 0;
    while i < |fields|
      invariant 0 <= i <= |fields|
      invariant currentOffset == TotalSize(fields[..i])
      invariant |compiledFields| == i
      invariant forall k :: 0 <= k < i ==> compiledFields[k] == Placed(fields, k)
    {
      var fieldCodec := CodecFor(fields[i]);
      var compiledField := CompiledField(fields[i], fieldCodec, currentOffset, CodecSize(fieldCodec));
      assert compiledField == Placed(fields, i);
      compiledFields := compiledFields + [compiledField];
      TotalSizeStep(fields, i);
      currentOffset := currentOffset + CodecSize(fieldCodec);
      i := i + 1;
    }
    assert fields[..i] == fields;
    ghost var layout := Layout(definition);
    assert compiledFields == layout.compiledFields;
    compiled := CompiledMessage(definition.messageId, definition.name, definition.extraCrc, compiledFields, currentOffset, 0);
  }

  /** The first field starts at offset 0 and each next one where the previous one ends. */
  lemma OffsetsAreContiguous(definition: MessageDefinition)
    ensures var c := Layout(definition).compiledFields;
            (|c| > 0 ==> c[0].offsetInPayload == 0)
            && forall i :: 0 < i < |c| ==> c[i].offsetInPayload == c[i - 1].offsetInPayload + c[i - 1].sizeInBytes
  {
    var fields := definition.fields;
    forall i | 0 < i < |fields|
      ensures TotalSize(fields[..i]) == TotalSize(fields[..i - 1]) + FieldSize(fields[i - 1])
    {
      assert fields[..i][..i - 1] == fields[..i - 1];
    }
  }

  /** The payload size is where the last field ends (0 for a message without fields). */
  lemma PayloadSizeIsLastEnd(definition: MessageDefinition)
    ensures var m := Layout(definition);
            var c := m.compiledFields;
            m.payloadSizeBytes == if |c| == 0 then 0 else c[|c| - 1].offsetInPayload + c[|c| - 1].sizeInBytes
  {
    var fields := definition.fields;
    if |fields| > 0 {
      assert fields[..|fields|] == fields;
    }
  }

  /** Fields with no negative array length have non-negative sizes, so the payload size is at least each field's end. */
  lemma {:induction false} TotalSizeMonotone(fields: seq<FieldDefinition>, k: nat)
    requires k <= |fields|
    requires LengthsDeclared(fields)
    ensures TotalSize(fields[..k]) <= TotalSize(fields)
  {
    if k == |fields| {
      assert fields[..k] == fields;
    } else {
      var front := fields[..|fields| - 1];
      var last := fields[|fields| - 1];
      assert front[..k] == fields[..k];
      assert LengthsDeclared(front) by {
        forall i | 0 <= i < |front| ensures front[i] == fields[i] { }
      }
      TotalSizeMonotone(front, k);
      assert TotalSize(fields) == TotalSize(front) + FieldSize(last);
      assert last.isArray ==> last.arrayLength >= 0;
      assert FieldSize(last) >= 0;
    }
  }

  /** Extension fields follow every base field. */
  predicate ExtensionsTrail(fields: seq<FieldDefinition>)
  {
    forall i, j :: 0 <= i < j < |fields| && fields[i].extension ==> fields[j].extension
  }

  /** A definition whose fields were put in wire order compiles with its extensions last. */
  lemma CompiledExtensionsTrail(xmlOrdered: seq<FieldDefinition>)
    ensures ExtensionsTrail(OrderForWire(xmlOrdered))
  {
    OrderForWireGroups(xmlOrdered);
  }

  /** The codec chosen for a field is the one the type-string factory builds from its declared text. */
  lemma CodecForMatchesFactory(f: FieldDefinition)
    requires !f.isArray || 0 < f.arrayLength <= INT_MAX
    ensures !f.isArray ==> CreateCodec(WireName(f.wireType)) == Ok(CodecFor(f))
    ensures f.isArray ==> CreateCodec(WireName(f.wireType) + "[" + Decimal(f.arrayLength) + "]") == Ok(CodecFor(f))
  {
    if f.isArray {
      CreateCodecOfArray(f.wireType, f.arrayLength);
    } else {
      CreateCodecOfWireName(f.wireType);
    }
  }

  /** A compiled field as `compileMessage` makes it from a declaration with no negative array length. */
  predicate WellFormedField(cf: CompiledField)
  {
    cf.codec == CodecFor(cf.definition) && cf.sizeInBytes == CodecSize(cf.codec)
    && (cf.definition.isArray ==> cf.definition.arrayLength >= 0)
  }

  predicate WellFormedMessage(m: CompiledMessage)
  {
    forall i :: 0 <= i < |m.compiledFields| ==> WellFormedField(m.compiledFields[i])
  }

  /** No declared array length is negative. */
  predicate LengthsDeclared(fields: seq<FieldDefinition>)
  {
    forall i :: 0 <= i < |fields| ==> (fields[i].isArray ==> fields[i].arrayLength >= 0)
  }

  lemma LayoutWellFormed(definition: MessageDefinition)
    requires LengthsDeclared(definition.fields)
    ensures WellFormedMessage(Layout(definition))
  {
  }

  /** The by-id index: each message stored under its id, a later one replacing an earlier one. */
  function ById(messages: seq<CompiledMessage>): (r: map<int, CompiledMessage>)
    ensures forall id :: id in r <==> exists i :: 0 <= i < |messages| && messages[i].messageId == id
    ensures forall id :: id in r ==> r[id] in messages
  {
    if |messages| == 0 then map[]
    else
      var front := messages[..|messages| - 1];
      var last := messages[|messages| - 1];
      var r := ById(front)[last.messageId := last];
      assert forall i :: 0 <= i < |front| ==> front[i] == messages[i];
      r
  }

  /** Of several messages sharing an id, the index holds the last one. */
  lemma {:induction false} ByIdLastWins(messages: seq<CompiledMessage>, k: nat)
    requires k < |messages|
    requires forall j :: k < j < |messages| ==> messages[j].messageId != messages[k].messageId
    ensures ById(messages)[messages[k].messageId] == messages[k]
  {
    if k < |messages| - 1 {
      var front := messages[..|messages| - 1];
      ByIdLastWins(front, k);
    }
  }

  /** The loop of `fromDialectDefinition`: each message compiled in order and put in the by-id index. */
  method CompileMessages(messages: seq<MessageDefinition>) returns (compiledMessageList: seq<CompiledMessage>,
                                                                    compiledByIdMap: map<int, CompiledMessage>)
    ensures |compiledMessageList| == |messages|
    ensures forall k :: 0 <= k < |messages| ==> compiledMessageList[k] == Layout(messages[k])
    ensures compiledByIdMap == ById(compiledMessageList)
  {
    compiledMessageList := [];
    compiledByIdMap := map[];
    var i := 0;
    while i < |messages|
      invariant 0 <= i <= |messages|
      invariant |compiledMessageList| == i
      invariant forall k :: 0 <= k < i ==> compiledMessageList[k] == Layout(messages[k])
      invariant compiledByIdMap == ById(compiledMessageList)
    {
      var compiledMessage := CompileMessage(messages[i]);
      ghost var before := compiledMessageList;
      compiledMessageList := compiledMessageList + [compiledMessage];
      assert compiledMessageList[..|compiledMessageList| - 1] == before;
      compiledByIdMap := compiledByIdMap[compiledMessage.messageId := compiledMessage];
      i := i + 1;
    }
  }

  /** Messages whose declarations give no negative array length compile to well-formed layouts. */
  lemma MessagesWellFormed(messages: seq<MessageDefinition>, compiled: seq<CompiledMessage>)
    requires |compiled| == |messages|
    requires forall k :: 0 <= k < |messages| ==> compiled[k] == Layout(messages[k])
    ensures forall k :: 0 <= k < |messages| && LengthsDeclared(messages[k].fields) ==> WellFormedMessage(compiled[k])
  {
    forall k | 0 <= k < |messages| && LengthsDeclared(messages[k].fields)
      ensures WellFormedMessage(compiled[k])
    {
      LayoutWellFormed(messages[k]);
    }
  }

  class MessageRegistry {
    var dialectName: string
    var compiledMessages: seq<CompiledMessage>
    var compiledMessagesById: map<int, CompiledMessage>
    var enumsByName: map<string, EnumDefinition>

    /** Every indexed message is laid out as `compileMessage` lays it out. */
    ghost predicate Valid()
      reads this
    {
      forall id :: id in compiledMessagesById ==> WellFormedMessage(compiledMessagesById[id])
    }

    /**
     * `fromDialectDefinition`: every message compiled in dialect order,
     * indexed by id, with the dialect's enums. Collections are values here,
     * so the published copies cannot be changed through the dialect.
     */
    constructor FromDialectDefinition(name: string, messages: seq<MessageDefinition>, enums: map<string, EnumDefinition>)
      ensures dialectName == name && enumsByName == enums
      ensures |compiledMessages| == |messages|
      ensures forall i :: 0 <= i < |messages| ==> compiledMessages[i] == Layout(messages[i])
      ensures compiledMessagesById == ById(compiledMessages)
      ensures (forall i :: 0 <= i < |messages| ==> LengthsDeclared(messages[i].fields)) ==> Valid()
    {
      var compiledMessageList, compiledByIdMap := CompileMessages(messages);
      MessagesWellFormed(messages, compiledMessageList);
      dialectName := name;
      compiledMessages := compiledMessageList;
      compiledMessagesById := compiledByIdMap;
      enumsByName := enums;
    }
  }
}
