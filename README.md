# MAVLink protocol engine in Dafny

This project models the protocol engine of a Java MAVLink library and proves
properties of it. MAVLink is the telemetry protocol spoken between drones and
ground stations. The engine has five parts:

- **Layout compiler.** This covers:
  - the wire-type table (`WireTypes`);
  - the wire ordering of a message's fields and its CRC-extra byte (`Messages`, `ExtraCrcCalculator`);
  - the codec chosen for each declared type (`CodecFactory`);
  - the cumulative field offsets of a compiled message (`Registry`).
- **Payload codec.** The packer (`PayloadPacker`) and the parser (`PayloadParser`) move a message's named values to and from payload bytes. Related modules:
  - `EnumResolver` and `Enums` resolve enum values;
  - `FieldCodecs` holds the scalar and fixed-array codecs.
- **CRC-16 engine.** `Crc` is CRC-16/MCRF4XX: the X.25 polynomial 0x8408, reflected, starting at 0xFFFF, with no final XOR. `CrcHelper` computes a frame checksum: the CRC over the written bytes, then the CRC-extra byte.
- **Frame codec.** This covers:
  - the sync-byte scanner (`Framer`);
  - the v1 and v2 frame handlers (`FrameHandlers`);
  - the packer (`FramePacker`) and the whole-frame parser (`FrameParser`);
  - the 13-byte v2 signature block (`SignatureGenerator`);
  - the signing key store (`Signing`);
  - the registry adapter and payload-into-frame step (`FrameCodec`).
- **Stream-health analyzer.** This covers:
  - the frame fingerprint (`FrameFingerprint`);
  - the 256-slot sequence ring (`SequenceRing`);
  - the per-system sequence state machine (`SequenceProcessing` as values, `SystemContexts.SequenceProcessor` as the method);
  - per-stream statistics with a time-to-live sweep (`SystemContextModel`, `SystemContexts.SystemContext`);
  - the system map (`ContextManagement`).

Code that changes state step by step is modelled as methods and classes. Each method is proved against a function on values:
- `X25Crc`, `ByteBuffer`, `MessageDefinition`, `MessageRegistry`, `MavlinkFramePacker`, `MavlinkFrameFramer`, `SequenceRingBuffer256`, `MapSigningKeyProvider`, `SystemContext` and `SystemContextManager` are classes.
- Loops over fields, bytes and map entries are `while` loops with invariants.

The properties are stated about those functions:
- round trips (pack then parse, write then read);
- layout facts (offsets, sizes, wire order);
- error detection (every single-byte corruption changes the CRC and the fingerprint);
- the analyzer's classification of every sequence step.

`Bytes`, `Text`, `Values`, `Buffers`, `Frames` and `ContextTypes` hold shared data types and helpers:
- Java's `ByteBuffer` with its position and limit;
- `String.indexOf`, `trim` and `Integer.parseInt`;
- the Java objects a payload value can be.

Source paths below are relative to the repository root. `P` stands for `src/main/java/io/mapsmessaging/mavlink`.

`Crc.CheckValue` proves that the engine gives 0x6F91 for "123456789", the CRC-16/MCRF4XX check value. The repository's test expects 0x906E at `src/test/java/io/mapsmessaging/mavlink/X25CrcTest.java:33-42`. That is the same CRC with a final XOR of 0xFFFF, which this engine never applies. The test is wrong, not the engine.

## Model

| member | source | states |
|---|---|---|
| `Crc.X25Crc.constructor` | src/main/java/io/mapsmessaging/mavlink/message/X25Crc.java:32-39 | A new engine holds 0xFFFF. |
| `Crc.X25Crc.Reset` | src/main/java/io/mapsmessaging/mavlink/message/X25Crc.java:54-56 | Reset puts the state back to 0xFFFF, whatever it held. |
| `Crc.X25Crc.Update` | src/main/java/io/mapsmessaging/mavlink/message/X25Crc.java:62-75 | The new state is `UpdateByte` of the old state and the argument: the low byte is XORed in, then the eight-step shift loop runs with 0x8408 on odd bits, and the loop is proved equal to that definition. |
| `Crc.X25Crc.UpdateRange` | src/main/java/io/mapsmessaging/mavlink/message/X25Crc.java:84-93 | Feeding a range equals feeding its bytes one at a time, left to right. A null buffer leaves the state unchanged. |
| `Crc.X25Crc.UpdateAll` | src/main/java/io/mapsmessaging/mavlink/message/X25Crc.java:77-82 | The whole array is fed in order. Null feeds nothing. |
| `Crc.X25Crc.GetCrc` | src/main/java/io/mapsmessaging/mavlink/message/X25Crc.java:98-100 | The CRC read out is a 16-bit value in [0, 0xFFFF]. |
| `Crc.X25Crc.GetRawCrc` | src/main/java/io/mapsmessaging/mavlink/message/X25Crc.java:109-111 | The raw CRC equals `getCrc`, so it is the same 16-bit value. |
| `Crc.CalculateRange` | src/main/java/io/mapsmessaging/mavlink/message/X25Crc.java:41-45 | Gives the checksum of the range, computed from a fresh engine. |
| `Crc.Calculate` | src/main/java/io/mapsmessaging/mavlink/message/X25Crc.java:47-52 | Gives 0xFFFF for null, otherwise the checksum of the whole array. |
| `Crc.AccumulateAppend` | src/main/java/io/mapsmessaging/mavlink/message/X25Crc.java:84-93 | Feeding `s` and then `t` is the same as feeding `s + t`. Incremental updates therefore compose. |
| `Crc.UpdateByteLow` | src/main/java/io/mapsmessaging/mavlink/message/X25Crc.java:63 | `update(int)` depends only on the low byte of its argument. |
| `Crc.AccumulateInjective` | src/main/java/io/mapsmessaging/mavlink/message/X25Crc.java:62-75 | Two different states stay different after the same bytes are fed to both. |
| `Crc.SingleByteErrorDetected` | src/main/java/io/mapsmessaging/mavlink/message/X25Crc.java:62-93 | Changing any one byte of the data, at any position, changes the CRC. |
| `Crc.CheckValue` | src/test/java/io/mapsmessaging/mavlink/X25CrcTest.java:33-42 | The engine gives 0x6F91 for "123456789". This is the MCRF4XX check value; the test's 0x906E has a final XOR the code never applies. |
| `CrcHelper.ComputeChecksumFromWritten` | src/main/java/io/mapsmessaging/mavlink/framing/CrcHelper.java:9-18 | Gives the CRC of the `length` bytes at absolute indices from `index`, followed by one update with the CRC-extra byte. The result is in [0, 0xFFFF]. The buffer's contents, position and limit are unchanged. |
| `CrcHelper.ChecksumDetectsCorruptedByte` | src/main/java/io/mapsmessaging/mavlink/framing/CrcHelper.java:11-16 | Corrupting any single byte in the covered span changes the frame checksum. |
| `CrcHelper.ChecksumSeparatesCrcExtra` | src/main/java/io/mapsmessaging/mavlink/framing/CrcHelper.java:16 | Over the same bytes, two different CRC-extra bytes never give the same checksum. |
| `WireTypes.SizeInBytes` | src/main/java/io/mapsmessaging/mavlink/message/fields/MavlinkWireType.java:24-34 | Every wire type is 1, 2, 4 or 8 bytes wide. |
| `WireTypes.FromXmlType` | src/main/java/io/mapsmessaging/mavlink/message/fields/MavlinkWireType.java:47-76 | A null type is an error. What it accepts is stated by the lemmas below: every wire name maps to its type, an array suffix is ignored, and the mavlink_version alias is UINT8. |
| `WireTypes.WireNameInjective` | src/main/java/io/mapsmessaging/mavlink/message/fields/MavlinkWireType.java:24-34 | No two wire types share a wire name. |
| `WireTypes.FromXmlTypeOfWireName` | src/main/java/io/mapsmessaging/mavlink/message/fields/MavlinkWireType.java:62-73 | `fromXmlType(t.getWireName()) == t` for every wire type. |
| `WireTypes.FromXmlTypeOfArray` | src/main/java/io/mapsmessaging/mavlink/message/fields/MavlinkWireType.java:58-60 | A "[n]" suffix after a wire name is ignored. |
| `WireTypes.FromXmlTypeOfAlias` | src/main/java/io/mapsmessaging/mavlink/message/fields/MavlinkWireType.java:54-57 | "uint8_t_mavlink_version" is UINT8. |
| `WireTypes.FromXmlTypeAccepts` | src/main/java/io/mapsmessaging/mavlink/message/fields/MavlinkWireType.java:52-75 | Whatever is accepted is a wire name once trimmed, with the alias mapped and the array suffix dropped. |
| `Messages.SortFields` | src/main/java/io/mapsmessaging/mavlink/message/MessageDefinition.java:86-91 | The wire sort keeps exactly the fields it is given: the result is a permutation (same multiset, same length) of its input. |
| `Messages.SortFieldsSorted` | src/main/java/io/mapsmessaging/mavlink/message/MessageDefinition.java:86-91 | The sorted list is ordered by element size descending, then by declaration index. |
| `Messages.OrderForWireGroups` | src/main/java/io/mapsmessaging/mavlink/message/MessageDefinition.java:74-98 | In wire order, a field is an extension exactly when it comes after all the sorted base fields. |
| `Messages.OrderForWireSorted` | src/main/java/io/mapsmessaging/mavlink/message/MessageDefinition.java:86-88 | Within each group, no later field sorts before an earlier one: larger elements first, then declaration order. |
| `Messages.OrderForWireProperties` | src/main/java/io/mapsmessaging/mavlink/message/MessageDefinition.java:74-98 | Wire order is a permutation of the declared fields. Every base field comes before every extension field. Each group is sorted by element size descending, then by declaration index. |
| `Messages.FoldCrc` | src/main/java/io/mapsmessaging/mavlink/message/MessageDefinition.java:119-120 | Gives the low byte XOR the high byte. The result is in [0, 255]. |
| `Messages.ExtraCrcOf` | src/main/java/io/mapsmessaging/mavlink/message/MessageDefinition.java:100-121 | When every base field's type resolves, the CRC-extra byte is in [0, 255]. |
| `Messages.ExtraCrcIgnoresExtensions` | src/main/java/io/mapsmessaging/mavlink/message/MessageDefinition.java:107-109 | Adding, removing or changing extension fields never changes the CRC-extra input. |
| `Messages.ExtraCrcInputStartsWithName` | src/main/java/io/mapsmessaging/mavlink/message/MessageDefinition.java:103-118 | The CRC-extra input begins with the message name followed by a space. |
| `Messages.MessageDefinition.constructor` | src/main/java/io/mapsmessaging/mavlink/message/MessageDefinition.java:62-72 | A definition starts with the given id and name, no fields and a CRC-extra of 0. |
| `Messages.MessageDefinition.SetXmlOrderedFields` | src/main/java/io/mapsmessaging/mavlink/message/MessageDefinition.java:62-72 | Null or empty input leaves no fields. Otherwise the fields are stored in wire order. In both cases the CRC-extra is recomputed from them. |
| `Messages.MessageDefinition.ComputeExtraCrc` | src/main/java/io/mapsmessaging/mavlink/message/MessageDefinition.java:100-121 | The stored CRC-extra becomes `ExtraCrcOf` of the name and the fields, or the pass fails with the field type's error. |
| `Messages.ExtraCrcPass` | src/main/java/io/mapsmessaging/mavlink/message/MessageDefinition.java:102-118 | The loop feeds the name token, then each base field in turn, into a fresh engine. The final state is the checksum of `ExtraCrcInput`. |
| `Messages.CrcField` | src/main/java/io/mapsmessaging/mavlink/message/MessageDefinition.java:110-117 | One base field's tokens are fed: its wire name, its name, and the length byte for an array. |
| `Messages.CrcCharArray` | src/main/java/io/mapsmessaging/mavlink/message/MessageDefinition.java:123-128 | The low byte of each character is fed, then a space. |
| `ExtraCrcCalculator.ComputeExtraCrc` | src/main/java/io/mapsmessaging/mavlink/parser/ExtraCrcCalculator.java:34-55 | The folded checksum of the name and each non-extension field's raw type text, name and length byte. The result is in [0, 255]. |
| `ExtraCrcCalculator.AccumulateField` | src/main/java/io/mapsmessaging/mavlink/parser/ExtraCrcCalculator.java:40-51 | An extension field feeds nothing. Any other field feeds its type text, its name and, for an array, `arrayLength & 0xFF`. |
| `ExtraCrcCalculator.AccumulateTokenWithSpace` | src/main/java/io/mapsmessaging/mavlink/parser/ExtraCrcCalculator.java:57-67 | A token's US-ASCII bytes and a space are fed. A null token feeds nothing, not even the space. |
| `ExtraCrcCalculator.CalculatorIgnoresExtensions` | src/main/java/io/mapsmessaging/mavlink/parser/ExtraCrcCalculator.java:41-43 | Extension fields never change what the calculator hashes. |
| `ExtraCrcCalculator.CalculatorAgreesWithDefinition` | src/main/java/io/mapsmessaging/mavlink/parser/ExtraCrcCalculator.java:34-55 | For fields typed by plain wire names with ASCII names, the calculator hashes exactly the bytes `MessageDefinition.computeExtraCrc` hashes. |
| `ExtraCrcCalculator.AliasFieldDiffers` | src/main/java/io/mapsmessaging/mavlink/parser/ExtraCrcCalculator.java:45 | A field typed with the mavlink_version alias is hashed differently by the two: the raw alias text here, "uint8_t" in the definition. |
| `CodecFactory.CodecSize` | src/main/java/io/mapsmessaging/mavlink/message/fields/ArrayFieldCodec.java:38-40 | A scalar codec's size is its wire size. An array codec with a non-negative length is at least that many bytes long; `CreateCodecOfArray` gives the exact product. |
| `CodecFactory.CreateScalarCodec` | src/main/java/io/mapsmessaging/mavlink/message/fields/MavlinkFieldCodecFactory.java:48-74 | Whatever it selects has a wire name that is a prefix of the base name. An exact base name selects its own codec. |
| `CodecFactory.CreateCodec` | src/main/java/io/mapsmessaging/mavlink/message/fields/MavlinkFieldCodecFactory.java:26-46 | Whatever it builds has an element wire name that is a prefix of the type text. An array codec comes only from text whose first '[' is past index 0 and which ends with ']'. It has a positive length and is a string exactly when its element is char. |
| `CodecFactory.CreateCodecOfWireName` | src/main/java/io/mapsmessaging/mavlink/message/fields/MavlinkFieldCodecFactory.java:49-61 | Each of the eleven wire names yields its own scalar codec. |
| `CodecFactory.CreateCodecOfArray` | src/main/java/io/mapsmessaging/mavlink/message/fields/MavlinkFieldCodecFactory.java:31-43 | "name[n]" with a positive n yields an n-element array codec, treated as a string exactly when the element is char. |
| `CodecFactory.CreateCodecOfAlias` | src/main/java/io/mapsmessaging/mavlink/message/fields/MavlinkFieldCodecFactory.java:68-71 | "uint8_t_mavlink_version" falls back through its "_t" to the uint8_t codec. |
| `CodecFactory.CreateCodecRejectsUnknown` | src/main/java/io/mapsmessaging/mavlink/message/fields/MavlinkFieldCodecFactory.java:73 | A type with no '[', no "_t" and no wire name is rejected. |
| `Registry.Layout` | src/main/java/io/mapsmessaging/mavlink/message/MessageRegistry.java:89-115 | A compiled message has one compiled field per declared field, in the same order, each carrying its declaration. |
| `Registry.CompileMessage` | src/main/java/io/mapsmessaging/mavlink/message/MessageRegistry.java:89-115 | The `currentOffset` loop produces exactly `Layout` of the definition. |
| `Registry.OffsetsAreContiguous` | src/main/java/io/mapsmessaging/mavlink/message/MessageRegistry.java:97-109 | The first field is at offset 0. Each later field starts where the previous one ends. |
| `Registry.PayloadSizeIsLastEnd` | src/main/java/io/mapsmessaging/mavlink/message/MessageRegistry.java:112 | `payloadSizeBytes` is the last field's offset plus its size, or 0 for no fields. |
| `Registry.TotalSizeMonotone` | src/main/java/io/mapsmessaging/mavlink/message/MessageRegistry.java:97-112 | With no negative array length, the payload size is at least every field's end. |
| `Registry.CompiledExtensionsTrail` | src/main/java/io/mapsmessaging/mavlink/message/MessageRegistry.java:98 | A definition whose fields were put in wire order compiles with its extension fields last. |
| `Registry.CodecForMatchesFactory` | src/main/java/io/mapsmessaging/mavlink/message/MessageRegistry.java:99-105 | The codec the compiler picks for a field is the one `MavlinkFieldCodecFactory.createCodec` builds from the declared text "type" or "type[n]". |
| `Registry.ById` | src/main/java/io/mapsmessaging/mavlink/message/MessageRegistry.java:58-63 | An id is a key exactly when some message has that id, and it maps to one of the messages. |
| `Registry.ByIdLastWins` | src/main/java/io/mapsmessaging/mavlink/message/MessageRegistry.java:61 | Of several messages with the same id, the index keeps the last one. |
| `Registry.CompileMessages` | src/main/java/io/mapsmessaging/mavlink/message/MessageRegistry.java:58-63 | The loop produces each message's layout in dialect order, and their `ById` index. |
| `Registry.MessagesWellFormed` | src/main/java/io/mapsmessaging/mavlink/message/MessageRegistry.java:89-115 | Declarations with no negative array length compile to well-formed layouts. |
| `Registry.LayoutWellFormed` | src/main/java/io/mapsmessaging/mavlink/message/MessageRegistry.java:97-112 | A definition with no negative array length compiles to a well-formed layout: contiguous offsets and a size equal to the last field's end. |
| `Registry.MessageRegistry.FromDialectDefinition` | src/main/java/io/mapsmessaging/mavlink/message/MessageRegistry.java:50-71 | The registry holds the dialect name, the compiled messages in order, their by-id index and the dialect's enums. |
| `FieldCodecs.ScalarRoundTrip` | src/main/java/io/mapsmessaging/mavlink/message/fields/MavlinkWireType.java:24-31 | Every integer in a wire type's range survives a little-endian write and read. Signed types, and uint64 read through a long, come back as two's complement. |
| `FieldCodecs.ScalarBytesOfValue` | src/main/java/io/mapsmessaging/mavlink/message/fields/MavlinkWireType.java:24-31 | Any bytes a scalar codec reads are written back identically. |
| `FieldCodecs.ScalarEncoding` | src/main/java/io/mapsmessaging/mavlink/codec/PayloadPacker.java:160-168 | A scalar field accepts only a Number and writes its low bytes. Null or any other value is an error. |
| `FieldCodecs.EncodeScalar` | src/main/java/io/mapsmessaging/mavlink/codec/PayloadPacker.java:160-168 | Puts exactly `ScalarEncoding` at the position, or fails. |
| `FieldCodecs.DecodeScalar` | src/main/java/io/mapsmessaging/mavlink/codec/PayloadParser.java:81-83 | Reads `ScalarValue` of the next wire-size bytes and advances past them. |
| `FieldCodecs.UntilZeroOfFixedText` | src/main/java/io/mapsmessaging/mavlink/message/fields/ArrayFieldCodec.java:46-72 | Text with no zero byte comes back from its fixed-size form, cut to the field length. |
| `FieldCodecs.ArrayEncoding` | src/main/java/io/mapsmessaging/mavlink/message/fields/ArrayFieldCodec.java:59-88 | A string codec writes the value's text cut or zero-padded to exactly the array length. A numeric array given anything but a list is an error, and when it succeeds it is exactly the codec's size. |
| `FieldCodecs.StringFieldRoundTrip` | src/main/java/io/mapsmessaging/mavlink/message/fields/ArrayFieldCodec.java:42-72 | Zero-free text no longer than the array comes back exactly as written. |
| `FieldCodecs.StringFieldTruncates` | src/main/java/io/mapsmessaging/mavlink/message/fields/ArrayFieldCodec.java:66 | Longer text comes back cut to the array length. |
| `FieldCodecs.NumericArrayLayout` | src/main/java/io/mapsmessaging/mavlink/message/fields/ArrayFieldCodec.java:80-87 | Element `i` sits in slot `i`. A short list is padded with zero elements to exactly `len` slots; a long list is cut. |
| `FieldCodecs.EncodeText` | src/main/java/io/mapsmessaging/mavlink/message/fields/ArrayFieldCodec.java:63-72 | Writes the text cut or zero-padded to exactly `arrayLength` bytes, and fails only when they do not fit. |
| `FieldCodecs.EncodeElements` | src/main/java/io/mapsmessaging/mavlink/message/fields/ArrayFieldCodec.java:82-84 | Writes every element's encoding in order. It fails exactly when an element cannot be encoded or the elements do not fit. |
| `FieldCodecs.EncodeZeroElements` | src/main/java/io/mapsmessaging/mavlink/message/fields/ArrayFieldCodec.java:85-87 | Writes `count` encodings of zero. |
| `FieldCodecs.ArrayEncode` | src/main/java/io/mapsmessaging/mavlink/message/fields/ArrayFieldCodec.java:59-88 | Puts exactly `ArrayEncoding` at the position; `ok == false` stands for the exception. |
| `FieldCodecs.EncodeNumericArray` | src/main/java/io/mapsmessaging/mavlink/message/fields/ArrayFieldCodec.java:74-87 | The numeric branch writes the elements that fit, then zero elements to the array length. |
| `FieldCodecs.ArrayDecode` | src/main/java/io/mapsmessaging/mavlink/message/fields/ArrayFieldCodec.java:42-57 | A string codec reads `len` bytes and keeps the text before the first zero. Any other array codec reads one element only. |
| `Enums.GetByName` | src/main/java/io/mapsmessaging/mavlink/message/fields/EnumDefinition.java:53-63 | A null name finds nothing. Otherwise the result is the first entry with that name, and no earlier entry has it. |
| `Enums.HasEntryIff` | src/main/java/io/mapsmessaging/mavlink/message/fields/EnumDefinition.java:65-67 | `hasEntry(n)` holds exactly when `getByName(n)` finds an entry. |
| `Enums.GetByValue` | src/main/java/io/mapsmessaging/mavlink/message/fields/EnumDefinition.java:69-76 | Gives the first entry with an equal value; no earlier entry has it. |
| `Enums.GetByBitmask` | src/main/java/io/mapsmessaging/mavlink/message/fields/EnumDefinition.java:78-93 | Gives nothing for a plain enum or a zero mask. Otherwise an entry is returned exactly when its value lies within the mask (`(mask & v) == v`). |
| `Enums.SubmasksAppend` | src/main/java/io/mapsmessaging/mavlink/message/fields/EnumDefinition.java:83-93 | The filter commutes with concatenation, so the flags come back in declaration order. |
| `Enums.BitmaskWithinMask` | src/main/java/io/mapsmessaging/mavlink/message/fields/EnumDefinition.java:83-93 | The flags returned, OR-ed back together, never set a bit outside the mask. |
| `EnumResolver.ResolveEnumValue` | src/main/java/io/mapsmessaging/mavlink/message/EnumResolver.java:37-111 | The type-dispatch method, with its two array loops, gives exactly the `Resolution` of the registry, the field and the value. |
| `EnumResolver.CollectNumbers` | src/main/java/io/mapsmessaging/mavlink/message/EnumResolver.java:73-82 | A non-bitmask array yields the `intValue` of each Number element, in order. Other elements are dropped. |
| `EnumResolver.ResolveBitmaskElements` | src/main/java/io/mapsmessaging/mavlink/message/EnumResolver.java:84-108 | Gives one int per element: a Number becomes the OR of its covered flags cut to an int, a name becomes its entry's value. An unknown name or any other element fails. |
| `EnumResolver.OrEntries` | src/main/java/io/mapsmessaging/mavlink/message/EnumResolver.java:90-93 | Gives the OR of the entries' values. |
| `EnumResolver.BitmaskItemsFails` | src/main/java/io/mapsmessaging/mavlink/message/EnumResolver.java:96-106 | One failing element fails the whole array, with the first failure's message. |
| `EnumResolver.NoEnumPassesThrough` | src/main/java/io/mapsmessaging/mavlink/message/EnumResolver.java:46-49 | A field with no enum name passes any value through untouched, null included. |
| `EnumResolver.EnumFieldErrors` | src/main/java/io/mapsmessaging/mavlink/message/EnumResolver.java:51-58 | On an enum field, both a null value and an unregistered enum are errors. |
| `EnumResolver.ResolvedNumberIsFixed` | src/main/java/io/mapsmessaging/mavlink/message/EnumResolver.java:60-62 | Resolving the int a Number resolved to gives it back, so resolution is idempotent. |
| `EnumResolver.NameValueRoundTrip` | src/main/java/io/mapsmessaging/mavlink/message/EnumResolver.java:64-71 | In an enum whose entry values are distinct ints, the value a name resolves to looks up that name's entry. |
| `EnumResolver.BitmaskNumberWithinMask` | src/main/java/io/mapsmessaging/mavlink/message/EnumResolver.java:88-94 | A bitmask Number resolves to flags that lie within its own mask. |
| `EnumResolver.NumbersOnlyAppend` | src/main/java/io/mapsmessaging/mavlink/message/EnumResolver.java:76-80 | Appending a non-number to a non-bitmask array does not change what it resolves to. |
| `PayloadPacker.LastExtensionIndex` | src/main/java/io/mapsmessaging/mavlink/codec/PayloadPacker.java:77-90 | Gives the index of the last extension field with a non-null value, or -1. That field is an extension with a value, and none after it has one. |
| `PayloadPacker.IncludedCount` | src/main/java/io/mapsmessaging/mavlink/codec/PayloadPacker.java:92-111 | Gives the number of fields written: everything before the first extension past `lastExtensionIndex`. |
| `PayloadPacker.FieldsBytesSlot` | src/main/java/io/mapsmessaging/mavlink/codec/PayloadPacker.java:133-157 | Field `i` occupies the bytes from the sum of the sizes before it, and holds exactly its own encoding. |
| `PayloadPacker.AbsentFieldIsZeros` | src/main/java/io/mapsmessaging/mavlink/codec/PayloadPacker.java:141-146 | A field given no value is written as zeros over its whole size. |
| `PayloadPacker.SumSizesOfLayout` | src/main/java/io/mapsmessaging/mavlink/codec/PayloadPacker.java:133-157 | In a compiled layout, the sizes before field `i` add up to that field's offset, so each field is written at its compiled offset. |
| `PayloadPacker.PackedPayloadLength` | src/main/java/io/mapsmessaging/mavlink/codec/PayloadPacker.java:48-67 | (corrected; see Findings) The payload is the included fields' bytes. Its length is what `computePayloadSize` gives, so the full-size buffer never overflows. |
| `PayloadPacker.TrimmedAreUnsetExtensions` | src/main/java/io/mapsmessaging/mavlink/codec/PayloadPacker.java:133-139 | Every extension given a value is written. Every field left off is an extension with no value. |
| `PayloadPacker.PaddingAgainOverruns` | src/main/java/io/mapsmessaging/mavlink/codec/PayloadPacker.java:201-221 | (as written) A numeric array given fewer elements than its length is padded twice, so it overruns its slot by `(len - count) * elemSize` bytes. |
| `PayloadPacker.PairFieldBytes` | src/main/java/io/mapsmessaging/mavlink/codec/PayloadPacker.java:201-221 | [1] packed into a uint8_t[2] field gives [1, 0] when padded once and [1, 0, 0] as written. |
| `PayloadPacker.DoublePaddingCounterexample` | src/main/java/io/mapsmessaging/mavlink/codec/PayloadPacker.java:201-221 | (as written) For a message with one uint8_t[2] field given [1], the packer as written overflows its 2-byte buffer. The corrected packer gives [1, 0]. |
| `PayloadPacker.PayloadPacker.PackPayload` | src/main/java/io/mapsmessaging/mavlink/codec/PayloadPacker.java:48-67 | (corrected; see Findings) Succeeds exactly when `PackedPayload(..., false)` does, and then gives its bytes. `PackedPayloadLength` says what those are. |
| `PayloadPacker.PayloadPacker.constructor` | src/main/java/io/mapsmessaging/mavlink/codec/PayloadPacker.java:44-46 | The packer holds the given registry. |
| `PayloadPacker.PayloadPacker.GetCompiledMessage` | src/main/java/io/mapsmessaging/mavlink/codec/PayloadPacker.java:69-75 | Gives the registered message for the id, or an IOException for an unknown id. |
| `PayloadPacker.PayloadPacker.EncodePayload` | src/main/java/io/mapsmessaging/mavlink/codec/PayloadPacker.java:127-158 | Writes the fields in order until the first extension past `lastExtensionIndex`. A field with no value is zero-filled. The bytes written are exactly `FieldsBytes`. |
| `PayloadPacker.PayloadPacker.EncodeNext` | src/main/java/io/mapsmessaging/mavlink/codec/PayloadPacker.java:133-157 | One loop pass writes field `i` after the bytes of the fields before it. |
| `PayloadPacker.PayloadPacker.EncodeField` | src/main/java/io/mapsmessaging/mavlink/codec/PayloadPacker.java:141-156 | A missing value writes zeros. Otherwise the value is enum-resolved and then written by the scalar, char-array or typed-array path. |
| `PayloadPacker.PayloadPacker.EncodeTypedArray` | src/main/java/io/mapsmessaging/mavlink/codec/PayloadPacker.java:201-214 | (corrected; see Findings) Only the array codec writes, and it already pads to the array length. |
| `PayloadPacker.PayloadPacker.EncodeTypedArrayAsWritten` | src/main/java/io/mapsmessaging/mavlink/codec/PayloadPacker.java:201-221 | (as written) After the codec has padded, another `(len - count) * elemSize` zero bytes are put, and they overflow the slot. |
| `PayloadPacker.PayloadPacker.EncodeCharArray` | src/main/java/io/mapsmessaging/mavlink/codec/PayloadPacker.java:182-199 | Accepts only a String (its UTF-8 bytes) or a byte[]. Writes `min(len, n)` bytes, then zeros up to `len`. Any other value is an IOException. |
| `PayloadPacker.PayloadPacker.ToElementsList` | src/main/java/io/mapsmessaging/mavlink/codec/PayloadPacker.java:223-237 | A List is taken as is, and an array element by element. Anything else is an IOException. |
| `PayloadPacker.PayloadPacker.FindLastIncludedExtensionIndex` | src/main/java/io/mapsmessaging/mavlink/codec/PayloadPacker.java:77-90 | The forward scan gives `LastExtensionIndex`. |
| `PayloadPacker.PayloadPacker.ComputePayloadSize` | src/main/java/io/mapsmessaging/mavlink/codec/PayloadPacker.java:92-111 | Gives the sum of the sizes of the first `IncludedCount` fields. |
| `PayloadPacker.PayloadPacker.ComputeTotalPotentialPayloadSize` | src/main/java/io/mapsmessaging/mavlink/codec/PayloadPacker.java:113-119 | Gives the sum of every compiled field's size. |
| `PayloadParser.ZeroValue` | src/main/java/io/mapsmessaging/mavlink/codec/PayloadParser.java:108-134 | Gives 0 for a number, "" for a char field or char array, and a list of `len` zeros for a numeric array. |
| `PayloadParser.ParseStep` | src/main/java/io/mapsmessaging/mavlink/codec/PayloadParser.java:60-103 | One step keeps the read position inside the payload and gives the field an entry in the result. |
| `PayloadParser.ParseFields` | src/main/java/io/mapsmessaging/mavlink/codec/PayloadParser.java:60-103 | Every compiled field has an entry after the loop, and the read position stays inside the payload. |
| `PayloadParser.FullPayloadReadsInPlace` | src/main/java/io/mapsmessaging/mavlink/codec/PayloadParser.java:60-105 | From a payload that holds every field, nothing is cut short, and each field is read from its compiled offset. |
| `PayloadParser.FullPayloadFieldValue` | src/main/java/io/mapsmessaging/mavlink/codec/PayloadParser.java:60-105 | A field with a unique name is parsed from the bytes of its own slot. Bytes past the last field are ignored. |
| `PayloadParser.PackThenParseScalar` | src/main/java/io/mapsmessaging/mavlink/codec/PayloadParser.java:81-83 | Packing then parsing gives back each in-range scalar of a field without an enum. |
| `PayloadParser.PackThenParseText` | src/main/java/io/mapsmessaging/mavlink/codec/PayloadParser.java:87-95 | Packing then parsing gives back a zero-free string no longer than its char array. |
| `PayloadParser.ParsedSlotIs` | src/main/java/io/mapsmessaging/mavlink/codec/PayloadParser.java:60-103 | A field whose slot in a full payload decodes to `v` is parsed as `v`. |
| `PayloadParser.ShortBaseFieldIsZero` | src/main/java/io/mapsmessaging/mavlink/codec/PayloadParser.java:66-71 | A base field that does not fit, and every base field after it, is parsed as its zero value without an exception. |
| `PayloadParser.ExtensionMisreadCounterexample` | src/main/java/io/mapsmessaging/mavlink/codec/PayloadParser.java:72-77 | (as written) Take a uint32_t extension and then a uint8_t extension, with payload [7, 0]. As written, the uint32_t is null but the uint8_t is decoded as 7 from byte 0, the uint32_t's slot. Corrected, it is null. |
| `PayloadParser.PayloadParser.ParsePayload` | src/main/java/io/mapsmessaging/mavlink/codec/PayloadParser.java:47-106 | (corrected; see Findings) An unknown id is an error. Otherwise the result is the values by field name given by `ParseFields(..., true)`. |
| `PayloadParser.PayloadParser.constructor` | src/main/java/io/mapsmessaging/mavlink/codec/PayloadParser.java:43-45 | The parser holds the given registry. |
| `PayloadParser.ParseFieldsFrom` | src/main/java/io/mapsmessaging/mavlink/codec/PayloadParser.java:60-103 | The field loop over one buffer gives exactly `ParseFields` of the fields. |
| `PayloadParser.ParseField` | src/main/java/io/mapsmessaging/mavlink/codec/PayloadParser.java:61-102 | (corrected; see Findings) One loop pass equals `ParseStep`; an extension that does not fit ends decoding. |
| `PayloadParser.DecodeFieldValue` | src/main/java/io/mapsmessaging/mavlink/codec/PayloadParser.java:81-102 | A field that fits is decoded from its own bytes: a scalar, `len` chars cut at the first zero, or `len` elements. The position moves past it. |
| `PayloadParser.DecodeElements` | src/main/java/io/mapsmessaging/mavlink/codec/PayloadParser.java:97-101 | A numeric array decodes exactly `len` elements, one `decode` call each. |
| `FrameHandlers.ReadUnsignedShort` | src/main/java/io/mapsmessaging/mavlink/framing/V1FrameHandler.java:82 | Reads two bytes, low byte first. The result is in [0, 0xFFFF]. |
| `FrameHandlers.DecodedV1` | src/main/java/io/mapsmessaging/mavlink/framing/V1FrameHandler.java:60-109 | A candidate gives a frame exactly when it starts with 0xFE, its message id is known and its length is at least the message's v1 minimum. The frame's outcome is OK or CRC_FAILED. |
| `FrameHandlers.ReadUnsigned48` | src/main/java/io/mapsmessaging/mavlink/framing/V2FrameHandler.java:172-181 | The value read from six bytes is below 2^48. |
| `FrameHandlers.DecodedV2` | src/main/java/io/mapsmessaging/mavlink/framing/V2FrameHandler.java:70-139 | A candidate gives a frame exactly when it starts with 0xFD, its 24-bit message id is known and its length is at least the v2 minimum. A CRC_FAILED frame has an empty payload and no signature. The outcome is UNSIGNED exactly for an unsigned frame whose checksum matched. |
| `FrameHandlers.CandidateChecksum` | src/main/java/io/mapsmessaging/mavlink/framing/V1FrameHandler.java:84-85 | Gives the frame checksum of the candidate's bytes after its start byte. The view is only read. |
| `FrameHandlers.V1FrameHandler.TryDecode` | src/main/java/io/mapsmessaging/mavlink/framing/V1FrameHandler.java:60-109 | Gives exactly `DecodedV1` of the candidate's bytes. The view is unchanged. |
| `FrameHandlers.V1FrameHandler.constructor` | src/main/java/io/mapsmessaging/mavlink/framing/V1FrameHandler.java:40-42 | The handler holds the given dialect. |
| `FrameHandlers.V2FrameHandler.TryDecode` | src/main/java/io/mapsmessaging/mavlink/framing/V2FrameHandler.java:70-139 | Gives exactly `DecodedV2` of the candidate's bytes, using the key provider's current state. The view is unchanged. |
| `FrameHandlers.V2FrameHandler.constructor` | src/main/java/io/mapsmessaging/mavlink/framing/V2FrameHandler.java:45-49 | The handler holds the given dialect; the hash is a parameter and the key provider is passed to each decode. |
| `FrameHandlers.V2FrameHandler.AcceptChecked` | src/main/java/io/mapsmessaging/mavlink/framing/V2FrameHandler.java:110-123 | Once the checksum matches, gives the payload and, for a signed frame, the signature block and its verdict. |
| `FrameHandlers.V2FrameHandler.CheckSignature` | src/main/java/io/mapsmessaging/mavlink/framing/V2FrameHandler.java:112-119 | Gives SIGNATURE_FAILED exactly when the provider can validate and `validateSignature` rejects; OK otherwise. |
| `FrameHandlers.V2FrameHandler.ValidateSignature` | src/main/java/io/mapsmessaging/mavlink/framing/V2FrameHandler.java:141-170 | False for a block that is not 13 bytes, or when no non-empty key is registered for (system, component, link). Otherwise true exactly when the whole block equals the one rebuilt over the signed span with that key and the block's timestamp. |
| `Framer.ProbeAt` | src/main/java/io/mapsmessaging/mavlink/framing/MavlinkFrameFramer.java:58-105 | The scan stops only at a start byte. A stop without a frame leaves the position on that byte. A stop with a frame moves the position past it, but not past the limit. |
| `Framer.ProbeAtCandidate` | src/main/java/io/mapsmessaging/mavlink/framing/MavlinkFrameFramer.java:94-104 | At a start byte with a complete candidate, the step is decided by the handler's decoding of exactly those bytes. |
| `Framer.Scan` | src/main/java/io/mapsmessaging/mavlink/framing/MavlinkFrameFramer.java:55-108 | The final position lies between the start and the limit. When no frame is returned and bytes remain, the position is on a start byte, so those bytes are kept. A returned frame always moves the position forward. |
| `Framer.Framed` | src/main/java/io/mapsmessaging/mavlink/framing/MavlinkFrameFramer.java:49-108 | The scan starts at the buffer's position and ends between it and the limit. |
| `Framer.MavlinkFrameFramer.constructor` | src/main/java/io/mapsmessaging/mavlink/framing/MavlinkFrameFramer.java:44-47 | A framer has v1 and v2 handlers over the given dialect. |
| `Framer.MavlinkFrameFramer.TryDecode` | src/main/java/io/mapsmessaging/mavlink/framing/MavlinkFrameFramer.java:49-112 | Returns the frame `Framed` finds, if any. The unread bytes from the scan's final position are then compacted to the front, and the bytes after them keep their contents. |
| `Framer.MavlinkFrameFramer.Locate` | src/main/java/io/mapsmessaging/mavlink/framing/MavlinkFrameFramer.java:50-108 | The scan loop leaves the position and result that `Framed` gives. The bytes and the limit are unchanged. |
| `Framer.MavlinkFrameFramer.ProbeCandidate` | src/main/java/io/mapsmessaging/mavlink/framing/MavlinkFrameFramer.java:59-104 | One pass of the loop equals `ProbeAt`. The buffer is only read. |
| `Framer.MavlinkFrameFramer.DecodeCandidate` | src/main/java/io/mapsmessaging/mavlink/framing/MavlinkFrameFramer.java:94-98 | The handler for the start byte decodes a duplicate view of exactly the candidate's bytes. |
| `Framer.ScanSkipsNoise` | src/main/java/io/mapsmessaging/mavlink/framing/MavlinkFrameFramer.java:62-69 | Bytes that are not 0xFE or 0xFD do not change the scan's outcome. |
| `Framer.ScanFindsV1Frame` | src/main/java/io/mapsmessaging/mavlink/framing/MavlinkFrameFramer.java:89-102 | A complete, decodable v1 frame at the scan index is the frame returned, and the position moves past it. |
| `Framer.ScanFindsV2Frame` | src/main/java/io/mapsmessaging/mavlink/framing/MavlinkFrameFramer.java:89-102 | The same holds for a v2 frame. |
| `Framer.NoiseThenV1Frame` | src/main/java/io/mapsmessaging/mavlink/framing/MavlinkFrameFramer.java:58-102 | Resynchronisation: noise before a decodable v1 frame is consumed along with it, and the frame is returned. |
| `Framer.NoiseThenV2Frame` | src/main/java/io/mapsmessaging/mavlink/framing/MavlinkFrameFramer.java:58-102 | The same holds for a v2 frame. |
| `Framer.NoiseIsConsumed` | src/main/java/io/mapsmessaging/mavlink/framing/MavlinkFrameFramer.java:107-110 | A buffer holding only noise is consumed entirely, and after compaction nothing is left to read. |
| `FramePacker.ChecksumBytes` | src/main/java/io/mapsmessaging/mavlink/framing/MavlinkFramePacker.java:106-107 | The checksum goes on the wire low byte first and reads back as itself. |
| `FramePacker.V1Body` | src/main/java/io/mapsmessaging/mavlink/framing/MavlinkFramePacker.java:94-101 | The v1 header and payload take exactly 6 + len bytes. |
| `FramePacker.V2Flags` | src/main/java/io/mapsmessaging/mavlink/framing/MavlinkFramePacker.java:139-144 | The signed bit is set exactly for a signed frame. Every other flag bit is kept. |
| `FramePacker.V2Body` | src/main/java/io/mapsmessaging/mavlink/framing/MavlinkFramePacker.java:136-155 | The v2 header and payload take exactly 10 + len bytes. |
| `FramePacker.PackedV1` | src/main/java/io/mapsmessaging/mavlink/framing/MavlinkFramePacker.java:81-114 | (corrected; see Findings) Succeeds exactly when the payload holds `payloadLength` bytes, the buffer has room and the message is known. Then it writes the whole 8 + len bytes with a 16-bit checksum. |
| `FramePacker.PackedV1AsWritten` | src/main/java/io/mapsmessaging/mavlink/framing/MavlinkFramePacker.java:81-114 | (as written) Succeeds exactly when the corrected packer does and writes as many bytes. Only the checksum differs. |
| `FramePacker.PackedV2` | src/main/java/io/mapsmessaging/mavlink/framing/MavlinkFramePacker.java:116-169 | Succeeds exactly when the payload holds `payloadLength` bytes, a signed frame has a 13-byte signature, the buffer has room and the message is known. Then it writes the whole frame, signature included, with a 16-bit checksum. |
| `FramePacker.PackedV2AfterChecks` | src/main/java/io/mapsmessaging/mavlink/framing/MavlinkFramePacker.java:134-169 | Once the pre-write checks pass, `packV2` writes the body alone for an unknown message, else the whole frame. |
| `FramePacker.PackedFrame` | src/main/java/io/mapsmessaging/mavlink/framing/MavlinkFramePacker.java:52-79 | Succeeds only for a payload length in [0, 255] and a known version. A bad length or a missing version is refused before anything is written. |
| `FramePacker.MavlinkFramePacker.constructor` | src/main/java/io/mapsmessaging/mavlink/framing/MavlinkFramePacker.java:44-46 | A packer over the given dialect. |
| `FramePacker.MavlinkFramePacker.Pack` | src/main/java/io/mapsmessaging/mavlink/framing/MavlinkFramePacker.java:52-79 | (corrected; see Findings) Puts the bytes of `PackedFrame` at the position and moves the position past them. Nothing else in the buffer changes. |
| `FramePacker.MavlinkFramePacker.PackV1` | src/main/java/io/mapsmessaging/mavlink/framing/MavlinkFramePacker.java:81-114 | (corrected; see Findings) Puts exactly `PackedV1` and gives back the frame with its checksum and cleared v2 fields. |
| `FramePacker.MavlinkFramePacker.PackV1AsWritten` | src/main/java/io/mapsmessaging/mavlink/framing/MavlinkFramePacker.java:81-114 | (as written) Puts exactly `PackedV1AsWritten`, whose checksum takes in the byte the buffer held just after the payload. It refuses the same short payloads and buffers as `packV1`. |
| `FramePacker.MavlinkFramePacker.PackV2` | src/main/java/io/mapsmessaging/mavlink/framing/MavlinkFramePacker.java:116-169 | Puts exactly `PackedV2` and gives back the frame with its checksum and adjusted flags. |
| `FramePacker.MavlinkFramePacker.WriteV2` | src/main/java/io/mapsmessaging/mavlink/framing/MavlinkFramePacker.java:134-165 | Writes the v2 body, the checksum and the optional signature once the checks have passed. |
| `FramePacker.MavlinkFramePacker.FinishFrame` | src/main/java/io/mapsmessaging/mavlink/framing/MavlinkFramePacker.java:103-107 | Computes the checksum over the written span plus CRC-extra and puts it low byte first. |
| `FramePacker.MavlinkFramePacker.FinishFrameAsWritten` | src/main/java/io/mapsmessaging/mavlink/framing/MavlinkFramePacker.java:103-107 | (as written) The same with the v1 span one byte too long. |
| `FrameParser.Parse` | src/main/java/io/mapsmessaging/mavlink/message/FrameParser.java:36-50 | A successful parse starts with 0xFE or 0xFD and gives the matching version, with no validation outcome and a 16-bit checksum. A v1 frame is never signed. |
| `FrameParser.ParseV1` | src/main/java/io/mapsmessaging/mavlink/message/FrameParser.java:52-91 | Succeeds exactly when there are at least 8 bytes and 8 + len in all. The payload is exactly len bytes. |
| `FrameParser.ParseV2` | src/main/java/io/mapsmessaging/mavlink/message/FrameParser.java:93-160 | Succeeds exactly when there are at least 12 bytes and the whole frame, signature included, is present. The payload is exactly len bytes. The frame is signed exactly when the flag says so, and has a signature exactly then. |
| `FrameParser.TrailingBytesIgnored` | src/main/java/io/mapsmessaging/mavlink/message/FrameParser.java:52-160 | Bytes after a complete frame do not change what is parsed. |
| `FrameRoundTrip.V1WrittenLayout` | src/main/java/io/mapsmessaging/mavlink/framing/MavlinkFramePacker.java:94-107 | Where each field of a packed v1 frame lies in the written bytes. |
| `FrameRoundTrip.V2WrittenLayout` | src/main/java/io/mapsmessaging/mavlink/framing/MavlinkFramePacker.java:136-165 | Where each field of a packed v2 frame lies in the written bytes. |
| `FrameRoundTrip.PackedV1Parses` | src/main/java/io/mapsmessaging/mavlink/message/FrameParser.java:52-91 | Whatever `packV1` writes, `parse` reads back as the frame written, with each id cut to its wire width. |
| `FrameRoundTrip.PackedV2Parses` | src/main/java/io/mapsmessaging/mavlink/message/FrameParser.java:93-160 | Whatever `packV2` writes, `parse` reads back as the frame written, with each id cut to its wire width. |
| `FrameRoundTrip.V2BytesDecode` | src/main/java/io/mapsmessaging/mavlink/framing/V2FrameHandler.java:70-123 | The bytes `packV2` writes for a frame, with the right checksum, are decoded by the v2 handler back into that frame, with the written flags and checksum and the outcome its signature check gives. |
| `FrameRoundTrip.PackedFrameParses` | src/main/java/io/mapsmessaging/mavlink/message/FrameParser.java:36-50 | Whatever `pack` writes, `parse` reads back. |
| `FrameRoundTrip.PackedV1Validates` | src/main/java/io/mapsmessaging/mavlink/framing/V1FrameHandler.java:82-91 | (corrected; see Findings) A packed v1 frame of a known message, with a one-byte id and at least the full payload, is accepted by the v1 handler as OK, with the frame written. |
| `FrameRoundTrip.PackedUnsignedV2Validates` | src/main/java/io/mapsmessaging/mavlink/framing/V2FrameHandler.java:100-122 | A packed unsigned v2 frame of a known message, with at least the minimum payload, is accepted as UNSIGNED, with the frame written. |
| `FrameRoundTrip.SignedWithRegisteredKeyValidates` | src/main/java/io/mapsmessaging/mavlink/framing/V2FrameHandler.java:112-119 | A signed v2 frame whose block was built over the packed bytes, with the key the provider holds for its link, is accepted as OK. |
| `FrameRoundTrip.BlockOfRegisteredKeyValid` | src/main/java/io/mapsmessaging/mavlink/framing/V2FrameHandler.java:141-170 | A block built over the signed span, with the key registered for its link and a 48-bit timestamp, passes `validateSignature`. |
| `FrameRoundTrip.SignatureWithoutKeyRefused` | src/main/java/io/mapsmessaging/mavlink/framing/V2FrameHandler.java:155-158 | A signed v2 frame whose link has no key at a validating provider gets SIGNATURE_FAILED. |
| `FrameRoundTrip.DecodedV1Accepted` | src/main/java/io/mapsmessaging/mavlink/framing/V1FrameHandler.java:74-91 | The v1 handler accepts a candidate of a known message with enough payload, and says OK exactly when the checksum matches. |
| `FrameRoundTrip.DecodedV2Accepted` | src/main/java/io/mapsmessaging/mavlink/framing/V2FrameHandler.java:91-123 | What the v2 handler makes of a known, long enough, correctly checksummed candidate. |
| `FrameRoundTrip.AsWrittenV1DependsOnStaleByte` | src/main/java/io/mapsmessaging/mavlink/framing/MavlinkFramePacker.java:104 | (as written) For two different stale bytes after the payload, at most one of the two packed frames passes the v1 handler. The handler's verdict therefore depends on memory outside the frame. |
| `FrameRoundTrip.AtMostOneV1Accepted` | src/main/java/io/mapsmessaging/mavlink/framing/V1FrameHandler.java:85-89 | Two candidates over the same span whose checksums take in different extra bytes are not both accepted. |
| `FrameCodec.CrcExtra` | src/main/java/io/mapsmessaging/mavlink/codec/MavlinkFrameCodec.java:220-227 | An unknown id is an error. A known id gives the low byte of its CRC-extra, in [0, 255]. |
| `FrameCodec.MinimumPayloadLength` | src/main/java/io/mapsmessaging/mavlink/codec/MavlinkFrameCodec.java:240-250 | Gives `Integer.MAX_VALUE` for an unknown id, the full payload size for v1, and the stored minimum for v2. |
| `FrameCodec.UnknownIdRefused` | src/main/java/io/mapsmessaging/mavlink/codec/MavlinkFrameCodec.java:242-244 | No payload of at most 255 bytes meets the minimum of an unknown id, so its frames are always refused. |
| `FrameCodec.MinimumsOfCompiledMessage` | src/main/java/io/mapsmessaging/mavlink/message/MessageRegistry.java:89-115 | The compiler never sets the v2 minimum, so it is 0 and every length passes. The v1 minimum is the full size. |
| `FrameCodec.MavlinkFrameCodec.constructor` | src/main/java/io/mapsmessaging/mavlink/codec/MavlinkFrameCodec.java:62-83 | A codec over the registry, with a payload packer over the same registry. |
| `FrameCodec.MavlinkFrameCodec.EncodePayloadIntoFrame` | src/main/java/io/mapsmessaging/mavlink/codec/MavlinkFrameCodec.java:190-199 | (corrected packer; see Findings) When packing succeeds, the frame gets the message id, the payload and `payloadLength == payload.length`; every other field is kept. A packing error changes nothing. |
| `FrameCodec.EncodedPayloadWithinMessage` | src/main/java/io/mapsmessaging/mavlink/codec/MavlinkFrameCodec.java:240-250 | An encoded payload lies between the v2 and v1 minimums of its message, so both handlers accept its length. |
| `SignatureGenerator.CopyOf` | src/main/java/io/mapsmessaging/mavlink/framing/V2SignatureGenerator.java:62 | Gives the first `n` digest bytes, zero-padded when the digest is shorter. |
| `SignatureGenerator.SignatureBlock` | src/main/java/io/mapsmessaging/mavlink/framing/V2SignatureGenerator.java:55-64 | The block is 13 bytes: the link id's low byte, the timestamp masked to 48 bits written little-endian, then the first six bytes of SHA-256(packet ‖ key). |
| `SignatureGenerator.BuiltSignature` | src/main/java/io/mapsmessaging/mavlink/framing/V2SignatureGenerator.java:32-65 | Succeeds exactly when the key is present and non-empty and the signed span [frameStart, crcStart + 2) is non-empty and fits. The result is then a 13-byte block. |
| `SignatureGenerator.WriteUnsigned48` | src/main/java/io/mapsmessaging/mavlink/framing/V2SignatureGenerator.java:67-76 | Writes six bytes of the masked value, lowest first, at the offset. Nothing else in the array changes. |
| `SignatureGenerator.BuildSignature` | src/main/java/io/mapsmessaging/mavlink/framing/V2SignatureGenerator.java:32-65 | Gives exactly `BuiltSignature`. The source buffer is read through a duplicate and left unchanged. |
| `SignatureGenerator.TimestampRoundTrip` | src/main/java/io/mapsmessaging/mavlink/framing/V2SignatureGenerator.java:67-76 | Reading the timestamp back from a block gives the timestamp masked to 48 bits. |
| `SignatureGenerator.BlocksAgreeOnDigestPrefix` | src/main/java/io/mapsmessaging/mavlink/framing/V2SignatureGenerator.java:55-64 | Two blocks for the same link and timestamp differ only if the first six digest bytes differ. |
| `Signing.GetSigningKey` | src/main/java/io/mapsmessaging/mavlink/signing/MapSigningKeyProvider.java:52-62 | Gives the key registered for exactly this (system, component, link) triple, if any. |
| `Signing.MapSigningKeyProvider.constructor` | src/main/java/io/mapsmessaging/mavlink/signing/MapSigningKeyProvider.java:32-34 | A new provider holds no keys. |
| `Signing.MapSigningKeyProvider.Register` | src/main/java/io/mapsmessaging/mavlink/signing/MapSigningKeyProvider.java:36-39 | The triple now maps to the key. Other triples keep theirs. |
| `Signing.MapSigningKeyProvider.Unregister` | src/main/java/io/mapsmessaging/mavlink/signing/MapSigningKeyProvider.java:41-44 | The triple no longer has a key. Other triples keep theirs. |
| `Signing.MapSigningKeyProvider.CanValidate` | src/main/java/io/mapsmessaging/mavlink/signing/MapSigningKeyProvider.java:46-49 | Always true. |
| `Signing.MapSigningKeyProvider.Provider` | src/main/java/io/mapsmessaging/mavlink/signing/MapSigningKeyProvider.java:46-55 | The provider as a frame handler sees it: can validate, with the current key map. |
| `Signing.LookupAfterRegister` | src/main/java/io/mapsmessaging/mavlink/signing/MapSigningKeyProvider.java:36-55 | After `register(s, c, l, k)`, `getSigningKey(s, c, l)` gives k. |
| `Signing.LookupAfterUnregister` | src/main/java/io/mapsmessaging/mavlink/signing/MapSigningKeyProvider.java:41-55 | After `unregister`, that lookup gives nothing, and every other lookup is unchanged. |
| `FrameFingerprint.HashedLength` | src/main/java/io/mapsmessaging/mavlink/context/FrameFingerprint.java:19-25 | The number of payload bytes hashed never exceeds the payload's length, and is 0 for a null payload. |
| `FrameFingerprint.ComputeFingerprint` | src/main/java/io/mapsmessaging/mavlink/context/FrameFingerprint.java:10-28 | Starting from 0x811C9DC5, folds in the version ordinal (0 for a null version, as `FrameFingerprint.java:13` does), system, component, message id and payload length, then the hashed payload bytes. Each step is `(h ^ v) * 16777619` wrapped to 32 bits. |
| `FrameFingerprint.HashBytesAppend` | src/main/java/io/mapsmessaging/mavlink/context/FrameFingerprint.java:19-25 | Folding in a concatenation is folding in each part in turn. |
| `FrameFingerprint.Fnv1aInjectiveInHash` | src/main/java/io/mapsmessaging/mavlink/context/FrameFingerprint.java:30-33 | One FNV-1a step never merges two states. |
| `FrameFingerprint.Fnv1aInjectiveInValue` | src/main/java/io/mapsmessaging/mavlink/context/FrameFingerprint.java:30-33 | One FNV-1a step never merges two input values. |
| `FrameFingerprint.OneByteChangeChangesHash` | src/main/java/io/mapsmessaging/mavlink/context/FrameFingerprint.java:19-25 | Two byte strings of the same length that differ in exactly one position hash differently. |
| `FrameFingerprint.PayloadByteChangeDetected` | src/main/java/io/mapsmessaging/mavlink/context/FrameFingerprint.java:10-28 | Changing one hashed payload byte always changes the fingerprint. |
| `FrameFingerprint.FingerprintIgnoresTransportFields` | src/main/java/io/mapsmessaging/mavlink/context/FrameFingerprint.java:13-17 | The sequence number, checksum, flags, signature and validation outcome do not affect the fingerprint. |
| `FrameFingerprint.BytesPastLengthIgnored` | src/main/java/io/mapsmessaging/mavlink/context/FrameFingerprint.java:19-25 | Payload bytes past `payloadLength` do not affect it. |
| `FrameFingerprint.NullPayloadHashesHeaderOnly` | src/main/java/io/mapsmessaging/mavlink/context/FrameFingerprint.java:19 | A null payload hashes like an empty one. |
| `SequenceRing.SlotOf` | src/main/java/io/mapsmessaging/mavlink/context/SequenceRingBuffer256.java:13-21 | `sequence & 0xFF` is in [0, 255] and congruent to the sequence modulo 256. |
| `SequenceRing.SameSlotIffCongruent` | src/main/java/io/mapsmessaging/mavlink/context/SequenceRingBuffer256.java:13-21 | Two sequence numbers share a slot exactly when they agree modulo 256. |
| `SequenceRing.LookupAfterStore` | src/main/java/io/mapsmessaging/mavlink/context/SequenceRingBuffer256.java:18-21 | After `put(s, e)`, `get(t)` gives e when t shares s's slot and the old entry otherwise. |
| `SequenceRing.SequenceRingBuffer256.constructor` | src/main/java/io/mapsmessaging/mavlink/context/SequenceRingBuffer256.java:9-11 | A new ring has exactly 256 slots, all empty. |
| `SequenceRing.SequenceRingBuffer256.Get` | src/main/java/io/mapsmessaging/mavlink/context/SequenceRingBuffer256.java:13-16 | Gives the entry in the sequence's slot, or nothing. |
| `SequenceRing.SequenceRingBuffer256.Put` | src/main/java/io/mapsmessaging/mavlink/context/SequenceRingBuffer256.java:18-21 | The sequence's slot now holds the entry. No other slot changes. |
| `SequenceProcessing.Delta` | src/main/java/io/mapsmessaging/mavlink/context/SequenceProcessor.java:76-77 | The forward distance `(seq - (head & 0xFF)) & 0xFF` is in [0, 255]. |
| `SequenceProcessing.Classify` | src/main/java/io/mapsmessaging/mavlink/context/SequenceProcessor.java:29-118 | Classification touches only this frame's stream record, and counters only grow. The head moves to the frame, at `at`, exactly when the frame is accepted as head; otherwise it is kept. Primary flags are never changed here. |
| `SequenceProcessing.ClassifyAgainstHead` | src/main/java/io/mapsmessaging/mavlink/context/SequenceProcessor.java:76-118 | The same guarantees hold for the head comparison alone, and it never changes whether the context is initialized. |
| `SequenceProcessing.ProcessFrame` | src/main/java/io/mapsmessaging/mavlink/context/SequenceProcessor.java:29-124 | Every path writes the frame's ring slot and no other. The state stays well formed, other streams are kept and counters only grow. The head moves to the frame exactly when it is accepted as head. |
| `SequenceProcessing.PrimaryChoiceStable` | src/main/java/io/mapsmessaging/mavlink/context/SequenceProcessor.java:257-273 | The primary lookup depends only on each stream's id, last-seen time and primary flag. |
| `SequenceProcessing.DuplicateInWindow` | src/main/java/io/mapsmessaging/mavlink/context/SequenceProcessor.java:37-47 | A recent ring entry with the same fingerprint gives one DUPLICATE at INFO, adds 1 to duplicates and leaves the head unchanged. |
| `SequenceProcessing.ConflictingFingerprintInWindow` | src/main/java/io/mapsmessaging/mavlink/context/SequenceProcessor.java:49-61 | A recent ring entry with another fingerprint gives SAME_SEQ_DIFFERENT_FINGERPRINT at ALERT, naming the earlier stream, with no counter change. |
| `SequenceProcessing.FirstFrameBecomesHead` | src/main/java/io/mapsmessaging/mavlink/context/SequenceProcessor.java:65-74 | The first frame outside the duplicate window initializes the context and becomes the head, with no sequence detection. |
| `SequenceProcessing.RepeatedHeadIsDuplicate` | src/main/java/io/mapsmessaging/mavlink/context/SequenceProcessor.java:76-84 | A number equal to the head modulo 256 is a duplicate even outside the duplicate window. |
| `SequenceProcessing.ForwardJumpMovesHead` | src/main/java/io/mapsmessaging/mavlink/context/SequenceProcessor.java:86-99 | A delta of 1 to 127 makes the frame the head. When numbers are skipped, one GAP at WARN reports delta - 1 lost, gaps grows by 1 and lostPackets by delta - 1. |
| `SequenceProcessing.SmallRecentBackwardStepIsReorder` | src/main/java/io/mapsmessaging/mavlink/context/SequenceProcessor.java:101-112 | A backward step within both the distance and time windows is one REORDER at INFO, counted, with the head unchanged. |
| `SequenceProcessing.OtherBackwardStepIsSuspicious` | src/main/java/io/mapsmessaging/mavlink/context/SequenceProcessor.java:114-118 | Any other backward step is SUSPICIOUS_BACKWARDS: ALERT exactly when it reaches the threshold, WARN otherwise. It is followed by RESET_SUSPECTED exactly when the head is in [50, 200], seq ≤ 10 and the silence exceeds the window. |
| `SequenceProcessing.NoActivePrimaryMarksStream` | src/main/java/io/mapsmessaging/mavlink/context/SequenceProcessor.java:233-241 | With no active primary, the frame's stream becomes primary from now, and arbitration adds no detection. |
| `SequenceProcessing.SecondSourceFlagged` | src/main/java/io/mapsmessaging/mavlink/context/SequenceProcessor.java:243-255 | While another stream is the active primary, a frame adds one MULTI_SOURCE_ACTIVE at WARN and counts it. |
| `SequenceProcessing.PrimaryStreamNotFlagged` | src/main/java/io/mapsmessaging/mavlink/context/SequenceProcessor.java:243-247 | Frames from the active primary itself never raise a multi-source detection. |
| `SequenceProcessing.ImmediateRepeatIsDuplicate` | src/main/java/io/mapsmessaging/mavlink/context/SequenceProcessor.java:126-133 | The same frame processed again within the duplicate window, from any stream, is reported as a duplicate: every path writes the ring slot. |
| `SystemContextModel.NewContextState` | src/main/java/io/mapsmessaging/mavlink/SystemContextManager.java:86-94 | A new context's state is well formed: its ring has 256 slots. |
| `SystemContextModel.ValidatedFrameRecordsStream` | src/main/java/io/mapsmessaging/mavlink/context/SystemContext.java:23-36 | A validated frame sets last activity to now, creates the stream's record if absent, sets last-seen to now and adds 1 to its packet count. Other streams' records keep their bookkeeping. |
| `SystemContextModel.InvalidFrameCounted` | src/main/java/io/mapsmessaging/mavlink/context/SystemContext.java:38-60 | An invalid frame adds 1 to the stream's invalid count and to the system's, and returns exactly one FRAME_INVALID at WARN naming the reason. |
| `SystemContextModel.ReasonNameInjective` | src/main/java/io/mapsmessaging/mavlink/context/SystemContext.java:52-58 | Different reasons give different details. |
| `SystemContextModel.SweepKeepsExactlyFreshStreams` | src/main/java/io/mapsmessaging/mavlink/context/SystemContext.java:70-81 | A stream survives a sweep exactly when its age does not exceed the source time-to-live. |
| `SystemContextModel.SweepKeepsStreamRecords` | src/main/java/io/mapsmessaging/mavlink/context/SystemContext.java:70-97 | A surviving stream keeps everything except possibly its primary flag and primary start time. |
| `SystemContextModel.SweepLeavesNoStalePrimary` | src/main/java/io/mapsmessaging/mavlink/context/SystemContext.java:82-97 | After a sweep, either a surviving primary is current within the active window, or no stream is primary. |
| `SystemContextModel.SweepIdempotent` | src/main/java/io/mapsmessaging/mavlink/context/SystemContext.java:62-100 | Sweeping twice at the same time changes nothing more. |
| `SystemContextModel.RemovedCountIsStaleCount` | src/main/java/io/mapsmessaging/mavlink/context/SystemContext.java:76-79 | The number a sweep returns is the number of stale streams. |
| `SystemContextModel.ExpiryFollowsLastFrame` | src/main/java/io/mapsmessaging/mavlink/context/SystemContext.java:102-105 | Processing and sweeping never change last activity, so they never change whether the system has expired. |
| `SystemContextModel.SnapshotCountsStreams` | src/main/java/io/mapsmessaging/mavlink/context/SystemContext.java:107-116 | A snapshot after a sweep counts the streams before it minus the ones removed. |
| `SystemContexts.SystemContext.constructor` | src/main/java/io/mapsmessaging/mavlink/SystemContextManager.java:86-94 | The object's state is `NewContextState` of its system id. |
| `SystemContexts.SystemContext.OnValidatedFrame` | src/main/java/io/mapsmessaging/mavlink/context/SystemContext.java:23-36 | The new state and detections are `ValidatedFrame` of the old state, given the primary the lookup chose. |
| `SystemContexts.SystemContext.OnInvalidFrame` | src/main/java/io/mapsmessaging/mavlink/context/SystemContext.java:38-60 | The new state and the one detection are `InvalidFrame` of the old state. |
| `SystemContexts.SystemContext.Sweep` | src/main/java/io/mapsmessaging/mavlink/context/SystemContext.java:62-100 | The new state is `Swept` of the old one, whatever order the map yields its entries. It returns the number of stale streams removed. |
| `SystemContexts.SystemContext.DropStale` | src/main/java/io/mapsmessaging/mavlink/context/SystemContext.java:70-88 | The first sweep loop keeps exactly the fresh streams and notes whether a current primary survives. |
| `SystemContexts.SystemContext.SweepOne` | src/main/java/io/mapsmessaging/mavlink/context/SystemContext.java:72-87 | One iteration drops the stream if stale, else says whether it is a current primary. |
| `SystemContexts.SystemContext.DemoteAll` | src/main/java/io/mapsmessaging/mavlink/context/SystemContext.java:90-97 | The second loop clears every primary flag and sets its start time to 0. |
| `SystemContexts.SystemContext.IsExpired` | src/main/java/io/mapsmessaging/mavlink/context/SystemContext.java:102-105 | Holds exactly when now - lastActivity > systemTtl. |
| `SystemContexts.SystemContext.Snapshot` | src/main/java/io/mapsmessaging/mavlink/context/SystemContext.java:107-116 | Gives the head, the counters and `sourceCount` equal to the number of streams. |
| `SystemContexts.SequenceProcessor.constructor` | src/main/java/io/mapsmessaging/mavlink/context/SequenceProcessor.java:27 | A processor over the given configuration. |
| `SystemContexts.SequenceProcessor.Process` | src/main/java/io/mapsmessaging/mavlink/context/SequenceProcessor.java:29-124 | The context's new state and the detections are `ProcessFrame` of the old state, with the primary the map lookup chose. |
| `SystemContexts.SequenceProcessor.Analyse` | src/main/java/io/mapsmessaging/mavlink/context/SequenceProcessor.java:29-118 | The branches before the ring write give `Classify`. |
| `SystemContexts.SequenceProcessor.AnalyseAgainstHead` | src/main/java/io/mapsmessaging/mavlink/context/SequenceProcessor.java:76-118 | The head comparison gives `ClassifyAgainstHead`. |
| `SystemContexts.SequenceProcessor.AdvanceHead` | src/main/java/io/mapsmessaging/mavlink/context/SequenceProcessor.java:86-99 | A forward step gives `Advanced`. |
| `SystemContexts.SequenceProcessor.IncrementReorder` | src/main/java/io/mapsmessaging/mavlink/context/SequenceProcessor.java:172-184 | Gives `ReorderCounted`: one more reorder and one REORDER at INFO. |
| `SystemContexts.SequenceProcessor.IncrementDuplicate` | src/main/java/io/mapsmessaging/mavlink/context/SequenceProcessor.java:143-155 | Gives `DuplicateCounted`: one more duplicate and one DUPLICATE at INFO. |
| `SystemContexts.SequenceProcessor.IncrementGap` | src/main/java/io/mapsmessaging/mavlink/context/SequenceProcessor.java:157-170 | One more gap, `lost` more lost packets, and one GAP at WARN. |
| `SystemContexts.SequenceProcessor.IncrementSuspiciousBackward` | src/main/java/io/mapsmessaging/mavlink/context/SequenceProcessor.java:186-217 | Gives `BackwardJump`: a suspicious backward step, and a reset suspicion when `looksLikeReset` holds. |
| `SystemContexts.SequenceProcessor.SetLastAcceptedSequenceForSource` | src/main/java/io/mapsmessaging/mavlink/context/SequenceProcessor.java:135-141 | Only a stream that already has stats gets its last accepted sequence updated. |
| `SystemContexts.SequenceProcessor.UpdateRing` | src/main/java/io/mapsmessaging/mavlink/context/SequenceProcessor.java:126-133 | The frame's slot now holds its sequence, fingerprint, stream and time. |
| `SystemContexts.SequenceProcessor.FindPrimaryStreamId` | src/main/java/io/mapsmessaging/mavlink/context/SequenceProcessor.java:257-273 | Gives nothing exactly when no stream is an active primary, otherwise the id of one that is. |
| `SystemContexts.SequenceProcessor.DetectMultiSourceActive` | src/main/java/io/mapsmessaging/mavlink/context/SequenceProcessor.java:233-255 | Gives `Arbitrate`: mark this stream primary when none is active, else flag a second stream. |
| `ContextManagement.SumEnumeration` | src/main/java/io/mapsmessaging/mavlink/SystemContextManager.java:71-80 | Adding counts along any enumeration of a set gives the same sum, so the sweep totals do not depend on the map's order. |
| `ContextManagement.IterationOrder` | src/main/java/io/mapsmessaging/mavlink/SystemContextManager.java:71 | The map's keys in some order, each exactly once. |
| `ContextManagement.SweptRemovedCount` | src/main/java/io/mapsmessaging/mavlink/context/SystemContext.java:62-100 | What a context sweep returns is the number of streams it dropped. |
| `ContextManagement.SystemContextManager.constructor` | src/main/java/io/mapsmessaging/mavlink/SystemContextManager.java:44-49 | A manager with the given configurations and no contexts. |
| `ContextManagement.SystemContextManager.CreateContext` | src/main/java/io/mapsmessaging/mavlink/SystemContextManager.java:86-94 | A fresh context in `NewContextState` of the system id. |
| `ContextManagement.SystemContextManager.ContextFor` | src/main/java/io/mapsmessaging/mavlink/SystemContextManager.java:53 | `computeIfAbsent`: gives the system's context, created and added if missing. No other entry changes. |
| `ContextManagement.SystemContextManager.OnValidatedFrame` | src/main/java/io/mapsmessaging/mavlink/SystemContextManager.java:51-55 | The frame's system gets a context lazily, and that context alone handles the frame. |
| `ContextManagement.SystemContextManager.OnInvalidFrame` | src/main/java/io/mapsmessaging/mavlink/SystemContextManager.java:57-63 | An unknown system gets an empty list and no context. A known one counts the invalid frame. |
| `ContextManagement.SystemContextManager.Sweep` | src/main/java/io/mapsmessaging/mavlink/SystemContextManager.java:65-84 | Every context drops its stale streams, then expired contexts are removed. Reports how many systems and streams were removed; an active system survives. |
| `ContextManagement.SystemContextManager.SweepContexts` | src/main/java/io/mapsmessaging/mavlink/SystemContextManager.java:71-80 | The loop's result: the swept contexts without the expired ones, and the two counts. |
| `ContextManagement.SystemContextManager.SweepInOrder` | src/main/java/io/mapsmessaging/mavlink/SystemContextManager.java:71-80 | Sweeps each context along the iteration order and removes each expired one. |
| `ContextManagement.SystemContextManager.SweepAt` | src/main/java/io/mapsmessaging/mavlink/SystemContextManager.java:72-79 | One iteration sweeps the context's streams and drops the context when expired. |
| `ContextManagement.SystemContextManager.SnapshotAll` | src/main/java/io/mapsmessaging/mavlink/SystemContextManager.java:96-102 | Gives one snapshot per context, in the map's order. |

## Left out

- Floating point. `float` and `double` fields are carried as integers written little-endian, with their wire sizes (`FieldCodecs.ScalarBytes`, `Values.Num`). IEEE 754 encoding is not modelled, and neither is the `0.0` zero value the parser gives for them.
- Character sets. A Java `String` is held as its UTF-8 bytes (`Values.Text`), so encoding, decoding and replacement of malformed input are not modelled. The decoder's `new String(raw, 0, end)` is the byte slice itself.
- Exceptions. Every thrown exception (IllegalArgumentException, IOException, NumberFormatException, BufferOverflowException) is an `Err` result or `ok == false`. Stack traces and messages beyond a short reason are not modelled.
- Nulls. A null map value is an absent key. A null map argument, a null dialect and a null signing key array are not modelled; an empty key stands for a missing one.
- Text.ParseInt: `Integer.parseInt` is modelled for ASCII digits only. Other Unicode digits are rejected.
- Overflow of `long`. Counters, time stamps and time differences in nanoseconds are unbounded integers. A `long` overflow, or a difference of time stamps that wraps, is not modelled. The fingerprint's 32-bit arithmetic and the 48-bit timestamp mask are modelled exactly.
- Concurrency. `ConcurrentHashMap` and `AtomicReferenceArray` are modelled sequentially, with one frame or sweep at a time.
- SHA-256. The hash is a parameter `sha256: seq<uint8> -> seq<uint8>`, so a signature is proved against any hash function. The round trip therefore covers a correct key. A forged block that happens to match is not excluded.
- Map iteration order. `HashMap` and `ConcurrentHashMap` give no iteration order, and the Java code depends on it in two places:
  - `findPrimaryStreamId` returns the first active primary the map yields. `SystemContexts.SequenceProcessor.FindPrimaryStreamId` returns its choice, and `SequenceProcessing.IsPrimaryChoice` states only what any order allows.
  - The manager's sweep loop takes keys in the order `ContextManagement.IterationOrder` gives. `ContextManagement.SumEnumeration` proves the counts do not depend on it.
- Framer.MavlinkFrameFramer decodes with the core `FrameHandlers.V1FrameHandler` and `FrameHandlers.V2FrameHandler`. `MavlinkFrameFramer.java:45-46` instead builds the legacy `MavlinkV1FrameHandler` and `MavlinkV2FrameHandler`, which are not part of this model. Those count the start byte twice in the v1 header and total length (`MavlinkV1FrameHandler.java:42,52`), read the v1 payload one byte late (`MavlinkV1FrameHandler.java:75`), and drop a frame whose checksum fails instead of returning it as CRC_FAILED (`MavlinkV1FrameHandler.java:82-84`). The framer's own scan, resync and compaction rules are modelled as written.
- Framer.ProbeAt: the framer's range check on a peeked length (`MavlinkFrameFramer.java:78-81`) and on a non-positive total (`MavlinkFrameFramer.java:84-87`) are not modelled as branches. A length is a masked byte and a total is at least 8, so neither branch can be taken.
- Messages.ExtraCrcOf: the CRC-extra values HEARTBEAT → 50 and SYS_STATUS → 124 (`X25CrcTest.java:44-119`) are not proved. Evaluating the CRC over their 126- and 358-byte inputs one byte at a time is beyond what the verifier does within its resource limit. The engine is pinned down instead by `Crc.CheckValue` (0x6F91 for "123456789"), and the input by `Messages.ExtraCrcInputStartsWithName` and `ExtraCrcCalculator.CalculatorAgreesWithDefinition`.
- Registry.CompileMessage: `MessageRegistry.compileMessage` calls `FieldCodecFactory.createCodec`, which is not part of this model. The codec is chosen from the field's wire type, array flag and array length. `Registry.CodecForMatchesFactory` ties that choice to `MavlinkFieldCodecFactory.createCodec` on the declared text.
- FieldCodecs.ArrayEncoding and FieldCodecs.ArrayEncode: on a `char[]` field the value must be null, a number, text or an opaque value whose text is given. A raw byte array, a list or an element sequence is excluded by the requires, whereas `ArrayFieldCodec.java:64` encodes its `toString()` text. That text is an identity hash for `byte[]` and a bracketed listing for a `List`, and neither is modelled.
- Text: strings are Dafny strings of Unicode scalar values. Java's UTF-16 code units and surrogate pairs are not modelled.
- ByteBufferUtils is not part of this model. Its reads are taken to be absolute little-endian reads that leave the position alone, and `copyBytes` an absolute copy.
- Published collections. `Collections.unmodifiableList` and `unmodifiableMap` copies are plain immutable values, so aliasing of the lists a registry or snapshot exposes is not modelled. A snapshot's `sequenceStats` is a copy of a value.
- XML and JSON. XML dialect loading, include resolution and the JSON schema and codec are not modelled: they are parsing and I/O. A dialect is given as a list of message definitions and an enum map, and `fromDialectDefinition` does not build the JSON schema.
- Legacy duplicates of core classes (`MavlinkPayloadPacker`, `MavlinkPayloadParser`, `MavlinkMessageRegistry`, `MavlinkMessageDefinition`, `MavlinkEnumResolver`, `MavlinkEnumDefinition`, `MavlinkExtraCrcCalculator`, `io/mapsmessaging/mavlink/MavlinkFrameCodec.java`, `MavlinkFrameEncoder`, `MavlinkCodec`, `FrameFactory`) are not modelled. They are superseded by the core classes above.
- MavlinkEventFactory and the clock. Times are parameters (`receivedAtNanos`, `nowNanos`); `System.nanoTime` is not modelled.
- SystemContextModel.SweepPrimary: the sweep counts a primary as current when `now - lastSeen <= activeWindow`, with no lower bound, as `SystemContext.java:83-85` does. The processor's lookup also demands a non-negative age. Both are modelled as written.
- `MavlinkFrameCodec.tryUnpackFrame`, `tryUnpackHeaderAndPayload` and `packFrame` delegate to a `FrameFramer` and a `FramePacker` built in the constructor (`MavlinkFrameCodec.java:73-77`, 106-107, 118-119, 149-150). Those two classes are not part of this model. The model assumes they behave like `MavlinkFrameFramer` and `MavlinkFramePacker`, which `Framer` and `FramePacker` model.
- `MavlinkFrameCodec.parsePayload` and `encodePayload` (`MavlinkFrameCodec.java:161-177`) only delegate to the payload codec's parser and packer, which are modelled above, so they are not modelled separately.
- FrameFailureReason: the model's enumeration has `OK` and `UNSIGNED` besides the five values `context/FrameFailureReason.java` declares. The handlers set those two values (`V1FrameHandler.java:86`, `V2FrameHandler.java:71,121`), and `MavlinkEventFactory.java:87` reads them.

## Findings

| source | as written | input that shows it | evidently intended | confidence | as-written member | corrected member |
|---|---|---|---|---|---|---|
| src/main/java/io/mapsmessaging/mavlink/codec/PayloadPacker.java:201-221 | `encodeTypedArray` lets `ArrayFieldCodec.encode` write the array, which already zero-pads to `arrayLength` elements. It then puts another `(len - count) * elemSize` zero bytes. The buffer is allocated at exactly the sum of field sizes, so the put overflows, or the later fields shift. | A message with one `uint8_t[2]` field given the list [1]: the codec writes [1, 0], then one more 0 overflows the 2-byte buffer. | Pad once, giving payload [1, 0]. | high; not executed | `PayloadPacker.DoublePaddingCounterexample` (also `PayloadPacker.PaddingAgainOverruns`, `PayloadPacker.PayloadPacker.EncodeTypedArrayAsWritten`) | `PayloadPacker.PayloadPacker.PackPayload` (with `PayloadPacker.PackedPayloadLength`) |
| src/main/java/io/mapsmessaging/mavlink/framing/MavlinkFramePacker.java:104 | `packV1` computes the checksum over `MAVLINK_V1_HEADER_LENGTH + payloadLength` = 6 + len bytes after the start byte. That span takes in the byte the buffer holds just after the payload, which is where the checksum is about to be written. The handler checks 5 + len bytes (`V1FrameHandler.java:85`). | Any v1 frame packed twice into buffers that differ only in the stale byte after the payload: at most one of the two results passes the v1 handler. | Span 5 + len, the header after the start byte plus the payload. | high; not executed | `FrameRoundTrip.AsWrittenV1DependsOnStaleByte` (with `FramePacker.MavlinkFramePacker.PackV1AsWritten`) | `FrameRoundTrip.PackedV1Validates` (with `FramePacker.MavlinkFramePacker.PackV1`) |
| src/main/java/io/mapsmessaging/mavlink/codec/PayloadParser.java:72-77 | An extension field that does not fit is mapped to null without setting `truncated`, so decoding goes on. A later, smaller extension is then read from the bytes of the skipped one. | Extensions `uint32_t a` then `uint8_t b`, payload [7, 0]: `a` is null but `b` is decoded as 7 from byte 0, which belongs to `a`. | An extension that does not fit ends decoding, so `b` is null too. | high; not executed | `PayloadParser.ExtensionMisreadCounterexample` | `PayloadParser.PayloadParser.ParsePayload` (with `PayloadParser.PackThenParseScalar`) |
