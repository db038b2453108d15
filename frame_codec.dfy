// The full-frame codec's glue: the adapter that answers the framing
// layer's two questions about a message id (its CRC-extra byte and the
// shortest payload a frame of it may carry) from the compiled registry,
// and the step that encodes field values into a frame's payload.

module FrameCodec {
  import opened Bytes
  import opened Values
  import opened Messages
  import opened Enums
  import opened Registry
  import opened PayloadPacker
  import opened Frames

  /** `RegistryAdapter.crcExtra`: unknown ids raise an error; known ids give the low byte of their CRC extra. */
  function CrcExtra(byId: map<int, CompiledMessage>, version: Version, messageId: int): (r: Result<uint8>)
    ensures r.Ok? <==> messageId in byId
    ensures r.Ok? ==> (byId[messageId].extraCrc - r.value) % 256 == 0
  {
    if messageId !in byId then Err("Unknown MAVLink message id") else Ok(LowByte(byId[messageId].extraCrc))
  }

  /**
   * `RegistryAdapter.minimumPayloadLength`: Integer.MAX_VALUE for an
   * unknown id (so every frame of it is refused), the full payload size
   * for v1 and the minimum payload size for v2.
   */
  function MinimumPayloadLength(byId: map<int, CompiledMessage>, version: Version, messageId: int): (r: int)
    ensures messageId !in byId ==> r == INT_MAX
    ensures messageId in byId && version == V1 ==> r == byId[messageId].payloadSizeBytes
    ensures messageId in byId && version == V2 ==> r == byId[messageId].minimumPayloadSizeBytes
  {
    if messageId !in byId then INT_MAX
    else if version == V1 then byId[messageId].payloadSizeBytes
    else byId[messageId].minimumPayloadSizeBytes
  }

  /** No payload of at most 255 bytes satisfies the minimum of an unknown id. */
  lemma UnknownIdRefused(byId: map<int, CompiledMessage>, version: Version, messageId: int, payloadLength: int)
    requires messageId !in byId && payloadLength <= MAX_PAYLOAD_LENGTH
    ensures payloadLength < MinimumPayloadLength(byId, version, messageId)
  {
  }

  /**
   * For a message compiled from its definition the v2 minimum is 0 (the
   * compiler never sets it), so the v2 check admits every length, while v1
   * demands the full payload.
   */
  lemma MinimumsOfCompiledMessage(byId: map<int, CompiledMessage>, definition: MessageDefinition)
    requires definition.messageId in byId && byId[definition.messageId] == Layout(definition)
    requires LengthsDeclared(definition.fields)
    ensures MinimumPayloadLength(byId, V2, definition.messageId) == 0
    ensures MinimumPayloadLength(byId, V1, definition.messageId) == TotalSize(definition.fields) >= 0
  {
    TotalSizeMonotone(definition.fields, 0);
  }

  class MavlinkFrameCodec {
    const registry: MessageRegistry
    const payloadPacker: PayloadPacker

    constructor(registry: MessageRegistry)
      ensures this.registry == registry && payloadPacker.messageRegistry == registry
    {
      this.registry := registry;
      payloadPacker := new PayloadPacker(registry);
    }

    /**
     * `encodePayloadIntoFrame`: packs the values and, when that succeeds,
     * gives the frame the message id, the payload and its length; every
     * other field of the frame is kept. A packing error leaves the frame
     * as it was.
     */
    method EncodePayloadIntoFrame(frame: Frame, messageId: int, values: map<string, Value>) returns (r: Result<Frame>)
      requires registry.Valid() && payloadPacker.messageRegistry == registry
      ensures var packed := PackedPayload(registry.compiledMessagesById, registry.enumsByName, messageId, values, false);
              (r.Ok? <==> packed.Ok?)
              && (r.Ok? ==> r.value == frame.(messageId := messageId, payload := Some(packed.value), payloadLength := |packed.value|))
    {
      var payloadBytes := payloadPacker.PackPayload(messageId, values);
      if payloadBytes.Err? {
        return Err(payloadBytes.reason);
      }
      r := Ok(frame.(messageId := messageId, payload := Some(payloadBytes.value), payloadLength := |payloadBytes.value|));
    }
  }

  /**
   * A payload encoded for a compiled message is never longer than the
   * message's full payload, so a v1 frame of it is accepted exactly when
   * every field was encoded, and a v2 frame always.
   */
  lemma EncodedPayloadWithinMessage(byId: map<int, CompiledMessage>, enums: map<string, EnumDefinition>,
                                    definition: MessageDefinition, values: map<string, Value>)
    requires forall id :: id in byId ==> WellFormedMessage(byId[id])
    requires definition.messageId in byId && byId[definition.messageId] == Layout(definition)
    requires LengthsDeclared(definition.fields)
    requires PackedPayload(byId, enums, definition.messageId, values, false).Ok?
    ensures var n := |PackedPayload(byId, enums, definition.messageId, values, false).value|;
            MinimumPayloadLength(byId, V2, definition.messageId) <= n <= MinimumPayloadLength(byId, V1, definition.messageId)
  {
    var fields := byId[definition.messageId].compiledFields;
    var count := IncludedCount(fields, LastExtensionIndex(fields, values));
    PackedPayloadLength(byId, enums, definition.messageId, values);
    SumSizesPrefix(fields, count);
    assert fields[..|fields|] == fields;
    SumSizesOfLayout(definition, |fields|);
    assert definition.fields[..|fields|] == definition.fields;
    MinimumsOfCompiledMessage(byId, definition);
  }
}
