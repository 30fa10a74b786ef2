# wither: packet framing, wire codecs and data extractors

This project models three parts of the wither Minecraft client and bot libraries in Dafny.

- **The packet encoder** (`wither-network`). `PacketEncoder` is a growing buffer of outgoing packets. `append_packet` frames each packet into it:
  - without compression, a VarInt length and then the packet data;
  - with compression, a VarInt length, a VarInt data length and the data. The data is zlib-compressed when it is longer than the threshold; when it is not, the data length is `0`.

  A packet of 2 MiB or more is refused. `take` hands out the whole buffer, first encrypting it with AES-128/CFB8 when encryption is on. `set_encryption` and `set_compression` switch those two layers.
- **The hand-written wire codecs.** These are:
  - the serde visitors for `Binary`, once in `wither-protocol` and once in `wither-network`;
  - `PropertyMap` and `Uuid`;
  - the `read`/`write` of the login `CookieResponse` and `HandShake` packets.
- **Three data extractors** of `wither-extractor`, which dump game registries to JSON with Gson:
  - `ChunkStatus`: an array of paths;
  - `NoiseParameters`: an object of `{first_octave, amplitudes}` records keyed by path;
  - `MultiNoise`: an object of parameter lists, each an object of noise hypercubes keyed by the biome's full identifier.

Pure logic is written as functions. The encoder is a class whose buffer the methods change step by step, in the order the source writes it. The visitor and extractor loops are methods with loop invariants, each proved equal to a specification function. The properties are proved about those functions:
- the round trips `read(write(x)) == x` of the `wither-network` codecs and packets, and for the `wither-protocol` `Binary`, that a VarInt count followed by the bytes reads back;
- that every frame appended reads back as the packet;
- that encryption can be undone;
- how Gson's `add` resolves repeated keys;
- the error conditions of the readers: truncated input, an over-long VarInt, a refused length, a missing flag or port, an invalid intent.

Modules:
- `Bytes`, `VarInt`, `Wrappers`: shared definitions.
- `SeqAccess`: serde's element access.
- `ByteBuf`: the `ByteBuf` helpers.
- `Framing`: the frame layout.
- `Cfb8`: the cipher mode.
- `PacketEncoder`: the encoder.
- `ProtocolBinary`, `NetworkBinary`, `PropertyMap`, `Uuid`, `CookieResponse`, `Handshake`: the codecs.
- `Registry`, `Json`: registry entries and Gson's `JsonObject`.
- `ChunkStatus`, `NoiseParameters`, `MultiNoise`: the extractors.

## Model

| member | source | states |
|---|---|---|
| Bytes.ToI32 | wither-protocol/src/bytebuf/binary.rs:45 | reading 32 bits as an `i32` gives a value in range, non-negative exactly when the top bit is clear, and congruent to the bits modulo 2^32 |
| Bytes.ToU32 | wither-network/src/packet_encoder.rs:57 | the 32-bit pattern of an `i32` is below 2^32 and reads back as the same `i32` |
| Bytes.AsI32 | wither-network/src/types/binary.rs:25 | `len as i32` keeps the low 32 bits: the result is in `i32` range, congruent to the length modulo 2^32, and equal to it below 2^31 |
| Bytes.AsUsize | wither-network/src/protocol/server/login/cookie_response.rs:35 | `length as usize` on a 64-bit target: the result is below 2^64 and congruent to the value modulo 2^64, so a non-negative length is kept and a negative one becomes 2^64 - 2^31 or more |
| Bytes.FromBigEndian | wither-network/src/types/uuid.rs:48 | the big-endian number of k bytes is below 256^k |
| Bytes.FromToBigEndian | wither-network/src/types/uuid.rs:15 | writing a number below 256^k as k big-endian bytes and reading it back gives the number |
| Bytes.ToFromBigEndian | wither-network/src/types/uuid.rs:48 | reading bytes as a big-endian number and writing it back gives the same bytes |
| VarInt.Size | wither-network/src/packet_encoder.rs:84 | `written_size` is the length of the encoding, from 1 to 5 bytes |
| VarInt.EncodeU32Length | wither-network/src/packet_encoder.rs:57 | the encoding of a value below 128^k has at most k bytes; only the last one has its high bit clear |
| VarInt.Accumulate | wither-protocol/src/bytebuf/binary.rs:45 | the accumulated group bits stay a 32-bit value |
| VarInt.DecodeFrom | wither-protocol/src/bytebuf/binary.rs:36-55 | a successful decode yields an `i32` |
| VarInt.DecodeLeavesSuffix | wither-protocol/src/bytebuf/binary.rs:36-55 | a decode consumes a non-empty prefix and leaves the rest of the input |
| VarInt.DecodeFromAppend | wither-protocol/src/bytebuf/binary.rs:36-55 | bytes after a complete VarInt change neither its value nor what it consumes |
| VarInt.DecodeEncodeFrom | wither-protocol/src/bytebuf/binary.rs:36-55 | decoding the groups of a value from a partial accumulator adds the value's shifted bits and leaves the rest |
| VarInt.DecodeEncode | wither-protocol/src/bytebuf/binary.rs:36-55 | every `i32` encodes to bytes that decode back to it, leaving what follows |
| VarInt.DecodeTooLarge | wither-protocol/src/bytebuf/binary.rs:40-42 | five bytes that all have the continuation bit fail as too large |
| VarInt.DecodeIncomplete | wither-protocol/src/bytebuf/binary.rs:49-51 | input that ends inside a VarInt fails |
| SeqAccess.NextByte | wither-protocol/src/bytebuf/binary.rs:60 | `next_element::<u8>` is `None` exactly at the end of the input and otherwise yields the first byte and the remainder |
| SeqAccess.NextVarIntEncode | wither-network/src/types/binary.rs:51 | a `VarInt` element reads back the value it encodes and leaves the remainder |
| ByteBuf.VarIntRoundTrip | wither-network/src/protocol/server/handshake/mod.rs:32 | `try_get_var_int` reads back what `put_var_int` wrote |
| ByteBuf.BoolRoundTrip | wither-network/src/protocol/server/login/cookie_response.rs:23 | `try_get_bool` reads back what `put_bool` wrote |
| ByteBuf.U16RoundTrip | wither-network/src/protocol/server/handshake/mod.rs:34 | `try_get_u16` reads back what `put_u16` wrote |
| ByteBuf.StringRoundTrip | wither-network/src/protocol/server/handshake/mod.rs:33 | `try_get_string_len` reads back what `put_string_len` wrote under the same bound |
| ByteBuf.IdentifierRoundTrip | wither-network/src/protocol/server/login/cookie_response.rs:22 | `try_get_identifer` reads back what `put_identifier` wrote |
| ProtocolBinary.Serialize | wither-protocol/src/bytebuf/binary.rs:9-16 | `serialize` hands the bytes to `serialize_bytes` unchanged, same length and same bytes |
| ProtocolBinary.VisitSeq | wither-protocol/src/bytebuf/binary.rs:32-68 | the VarInt loop and then the byte loop compute exactly `Visit`: the count, then that many bytes, or the visitor's errors |
| ProtocolBinary.VisitLengthPrefixed | wither-protocol/src/bytebuf/binary.rs:36-67 | a VarInt count followed by that many bytes reads back as those bytes, leaving the rest |
| ProtocolBinary.VisitNonPositive | wither-protocol/src/bytebuf/binary.rs:59 | a count of zero or less reads no byte and gives an empty `Binary` |
| ProtocolBinary.VisitTruncated | wither-protocol/src/bytebuf/binary.rs:62-64 | fewer bytes than the count fail with "Binary was ended incompletely" |
| ProtocolBinary.VisitPrefixTooLong | wither-protocol/src/bytebuf/binary.rs:40-42 | five continuation bytes fail with "VarInt was too large" |
| ProtocolBinary.VisitEndsInPrefix | wither-protocol/src/bytebuf/binary.rs:49-51 | input that ends inside the count also fails with "VarInt was too large" |
| NetworkBinary.Serialize | wither-network/src/types/binary.rs:18-31 | declares `len + 1` elements and emits the VarInt length followed by the bytes; the bytes always end the output |
| NetworkBinary.VisitSeq | wither-network/src/types/binary.rs:47-68 | the byte loop computes exactly `Visit`: a VarInt count, then that many bytes, or the visitor's errors |
| NetworkBinary.VisitSerialize | wither-network/src/types/binary.rs:18-68 | what `serialize` writes, `visit_seq` reads back, leaving what follows |
| NetworkBinary.VisitEmpty | wither-network/src/types/binary.rs:65 | empty input fails with "invalid varint" |
| NetworkBinary.VisitNonPositive | wither-network/src/types/binary.rs:55 | a count of zero or less gives an empty `Binary` |
| NetworkBinary.VisitTruncated | wither-network/src/types/binary.rs:58-60 | fewer bytes than the count fail with "Binary was ended incompletely" |
| PropertyMap.Serialize | wither-network/src/types/property.rs:35-43 | the loop declares `len + 1` elements and emits the VarInt count followed by every property's encoding in order |
| PropertyMap.VisitSeq | wither-network/src/types/property.rs:61-83 | the property loop computes exactly `Visit`: a VarInt count, then that many properties, or the visitor's errors |
| PropertyMap.WriteAllSnoc | wither-network/src/types/property.rs:39-41 | one more property appends exactly its encoding |
| PropertyMap.ReadNWriteAll | wither-network/src/types/property.rs:69-77 | reading n properties from n written ones gives them back in order, leaving the rest |
| PropertyMap.VisitSerialize | wither-network/src/types/property.rs:35-83 | what `serialize` writes, `visit_seq` reads back |
| PropertyMap.VisitEmpty | wither-network/src/types/property.rs:81 | empty input fails with "invalid varint" |
| PropertyMap.VisitNonPositive | wither-network/src/types/property.rs:69 | a count of zero or less gives an empty map |
| PropertyMap.ReadNEndsEarly | wither-network/src/types/property.rs:72-76 | running out of properties before the count fails with "Binary was ended incompletely" |
| Uuid.Serialize | wither-network/src/types/uuid.rs:15 | the `u128` is below 2^128 and its 16 big-endian bytes are the UUID's bytes |
| Uuid.VisitSeq | wither-network/src/types/uuid.rs:34-49 | the 16-byte array loop computes exactly `Visit` and yields 16 bytes |
| Uuid.VisitSerialize | wither-network/src/types/uuid.rs:15-48 | a UUID written as its `u128` in big-endian order reads back as the same UUID |
| Uuid.SerializeVisit | wither-network/src/types/uuid.rs:15-48 | any 128-bit number read as a UUID serializes back to that number |
| CookieResponse.Read | wither-network/src/protocol/server/login/cookie_response.rs:21-41 | a payload that is read is at most 5120 bytes |
| CookieResponse.Write | wither-network/src/protocol/server/login/cookie_response.rs:43-63 | `write` emits the identifier, then the presence flag (1 with a payload, 0 without); with a payload, its VarInt length and the payload bytes end the packet, otherwise the flag does |
| CookieResponse.WriteWithoutPayload | wither-network/src/protocol/server/login/cookie_response.rs:58-60 | no payload is written as the key followed by a single `false` byte |
| CookieResponse.ReadWithoutPayload | wither-network/src/protocol/server/login/cookie_response.rs:25-30 | a `false` flag ends the packet with no payload |
| CookieResponse.ReadMissingFlag | wither-network/src/protocol/server/login/cookie_response.rs:22-23 | input that ends after the identifier fails for want of the presence flag |
| CookieResponse.ReadTruncatedPayload | wither-network/src/protocol/server/login/cookie_response.rs:32-35 | a declared length within 5120 but beyond the bytes left fails as incomplete |
| CookieResponse.ReadRefusesLongPayload | wither-network/src/protocol/server/login/cookie_response.rs:32-35 | a negative declared length, or one above 5120, is refused |
| CookieResponse.ReadWrite | wither-network/src/protocol/server/login/cookie_response.rs:21-63 | `read` gives back every response `write` accepts, leaving what follows |
| Handshake.IntentFrom | wither-network/src/protocol/server/handshake/mod.rs:35-38 | a VarInt converts to an intent exactly when it is 1, 2 or 3, and to the intent with that value |
| Handshake.New | wither-network/src/protocol/server/handshake/mod.rs:19-26 | the packet holds the given fields, and can be written when the host name is at most 255 bytes |
| Handshake.Read | wither-network/src/protocol/server/handshake/mod.rs:30-39 | a packet that is read can always be written back |
| Handshake.Write | wither-network/src/protocol/server/handshake/mod.rs:42-47 | `write` emits the version as a VarInt, the host name as a VarInt length and its bytes, the port as a big-endian u16, then the intent as a one-byte VarInt |
| Handshake.ReadWrite | wither-network/src/protocol/server/handshake/mod.rs:30-47 | `read` gives back every handshake `write` accepts, leaving what follows |
| Handshake.ReadHostTooLong | wither-network/src/protocol/server/handshake/mod.rs:33 | a host name declared longer than 255 bytes is refused as too large |
| Handshake.ReadMissingPort | wither-network/src/protocol/server/handshake/mod.rs:34 | fewer than two bytes after the host name fail as an incomplete port |
| Handshake.ReadInvalidIntent | wither-network/src/protocol/server/handshake/mod.rs:35-38 | an intent other than 1, 2 or 3 fails with "Invalid Intent" |
| Framing.Append | wither-network/src/packet_encoder.rs:54-138 | `append_packet` keeps the bytes already in the buffer; on any error the packet ID and body stay appended after them |
| Framing.AppendErrors | wither-network/src/packet_encoder.rs:79-127 | when each error occurs: too long at 2 MiB or more, counting the data alone, the data plus one, or the data-length VarInt plus the zlib output, as the branch has it, or the compressor's failure; in each branch the append succeeds exactly when the packet length is below 2 MiB |
| Framing.AppendAtomic | wither-network/src/packet_encoder.rs:88-92 | as intended: the same outcome, but the buffer is left as it was on error |
| Framing.ReadPlainFrame | wither-network/src/packet_encoder.rs:123-137 | an uncompressed frame reads back as its data |
| Framing.ReadShortFrame | wither-network/src/packet_encoder.rs:97-118 | a frame below the threshold reads back as its data, with data length 0 |
| Framing.ReadDeflatedFrame | wither-network/src/packet_encoder.rs:84-96 | a compressed frame reads back as its data length and compressed bytes |
| Framing.AppendedFrameReadsBack | wither-network/src/packet_encoder.rs:54-138 | after a successful append, the new bytes are exactly one frame, and it carries the packet data or its zlib output |
| Framing.ReadFrameAppend | wither-network/src/packet_encoder.rs:18 | bytes after a complete frame do not change the frame |
| Framing.FramedConcat | wither-network/src/packet_encoder.rs:18 | a buffer of whole frames followed by whole frames is whole frames |
| Framing.AppendAtomicKeepsFramed | wither-network/src/packet_encoder.rs:54-138 | with the buffer cut back on error, a buffer of whole frames stays one whatever the append's outcome |
| Framing.AppendErrorLeavesUnframedBytes | wither-network/src/packet_encoder.rs:123-127 | as written, a packet that is too long leaves bytes that do not read as frames |
| Cfb8.New | wither-network/src/packet_encoder.rs:145 | a cipher made from a 16-byte key and IV holds exactly that key, with the IV as its shift register |
| Cfb8.XorCancel | wither-network/src/packet_encoder.rs:192 | xoring a byte twice with the same key byte gives it back |
| Cfb8.Feed | wither-network/src/packet_encoder.rs:192 | feeding back a ciphertext byte keeps the key, shifts the register one byte to the front and puts the byte last |
| Cfb8.EncryptByte | wither-network/src/packet_encoder.rs:190-193 | encrypting one byte feeds its ciphertext back into the register |
| Cfb8.DecryptByte | wither-network/src/packet_encoder.rs:190-193 | decrypting one byte feeds the received ciphertext into the register |
| Cfb8.Encrypt | wither-network/src/packet_encoder.rs:189-194 | encryption keeps the length |
| Cfb8.EncryptConcat | wither-network/src/packet_encoder.rs:189-194 | encrypting two buffers in turn, carrying the state over, is encrypting them joined |
| Cfb8.DecryptEncrypt | wither-network/src/packet_encoder.rs:189-194 | decrypting from the same state gives the plaintext back and ends in the same state |
| PacketEncoder.MakeRoomForPrefix | wither-network/src/packet_encoder.rs:109-117 | `put_bytes`, then `copy_within`, then writing the prefixes in front inserts the prefixes before the packet data |
| PacketEncoder.PacketEncoder.constructor | wither-network/src/packet_encoder.rs:16-23 | the default encoder has an empty buffer, no cipher and no compression |
| PacketEncoder.PacketEncoder.InsertPrefix | wither-network/src/packet_encoder.rs:109-117 | the buffer becomes the bytes before the packet, the prefixes, then the packet data |
| PacketEncoder.PacketEncoder.AppendPacket | wither-network/src/packet_encoder.rs:54-138 | the outcome and the new buffer are exactly those of `Framing.Append` |
| PacketEncoder.PacketEncoder.AppendPacketAtomic | wither-network/src/packet_encoder.rs:54-138 | the corrected append: the outcome and buffer of `Framing.AppendAtomic` |
| PacketEncoder.PacketEncoder.SetEncryption | wither-network/src/packet_encoder.rs:141-151 | a key installs a cipher keyed and initialised with it; no key removes the cipher |
| PacketEncoder.PacketEncoder.SetCompression | wither-network/src/packet_encoder.rs:162-177 | succeeds exactly for a valid level and then stores it with the threshold; `None` disables compression; on error nothing changes |
| PacketEncoder.PacketEncoder.Take | wither-network/src/packet_encoder.rs:188-197 | hands out the buffer, CFB8-encrypted from the cipher's state when there is one, carries the cipher state over, and leaves the buffer empty |
| Registry.FullName | wither-extractor/src/main/kotlin/de/snowii/extractor/extractors/MultiNoise.kt:40 | `toString()` is the namespace, `:`, then the path |
| Registry.FullNameInjective | wither-extractor/src/main/kotlin/de/snowii/extractor/extractors/MultiNoise.kt:40 | two identifiers whose namespaces contain no `:` and that have the same full name are the same identifier |
| Json.Keys | wither-extractor/bin/main/de/snowii/extractor/extractors/NoiseParameters.kt:27-30 | an object's keys are its members' keys, in order |
| Json.AddLookup | wither-extractor/src/main/kotlin/de/snowii/extractor/extractors/MultiNoise.kt:44 | after `add`, the key maps to the new value and every other key is unchanged |
| Json.AddPlace | wither-extractor/src/main/kotlin/de/snowii/extractor/extractors/MultiNoise.kt:44 | `add` of an existing key keeps the key order; a new key is appended at the end |
| Json.AddDistinct | wither-extractor/src/main/kotlin/de/snowii/extractor/extractors/MultiNoise.kt:44 | `add` never duplicates a key |
| Json.AddAllLookup | wither-extractor/src/main/kotlin/de/snowii/extractor/extractors/MultiNoise.kt:36-45 | after adding a sequence of pairs, each key maps to the last value added under it |
| Json.LastValueAt | wither-extractor/src/main/kotlin/de/snowii/extractor/extractors/MultiNoise.kt:36-45 | the last value of a key is that of its last pair |
| Json.AddAllLast | wither-extractor/src/main/kotlin/de/snowii/extractor/extractors/MultiNoise.kt:36-45 | a pair that no later pair overrides is found under its key |
| Json.AddAllAbsent | wither-extractor/src/main/kotlin/de/snowii/extractor/extractors/MultiNoise.kt:36-45 | a key no pair has is absent |
| Json.AddAllDistinctKeys | wither-extractor/src/main/kotlin/de/snowii/extractor/extractors/MultiNoise.kt:36-45 | the resulting object never holds a key twice |
| Json.LastValueSome | wither-extractor/src/main/kotlin/de/snowii/extractor/extractors/MultiNoise.kt:36-45 | a key is present exactly when some pair has it |
| Json.AddAllDistinct | wither-extractor/src/main/kotlin/de/snowii/extractor/extractors/MultiNoise.kt:57-69 | pairs with distinct keys are kept as they are, in order |
| ChunkStatus.Extract | wither-extractor/bin/main/de/snowii/extractor/extractors/ChunkStatus.kt:14-23 | one array element per registry entry, in order, holding its identifier's path |
| NoiseParameters.Record | wither-extractor/bin/main/de/snowii/extractor/extractors/NoiseParameters.kt:20-26 | exactly the keys `first_octave` and `amplitudes`: the first octave as is, and the amplitudes as doubles, same number and order |
| NoiseParameters.Pairs | wither-extractor/bin/main/de/snowii/extractor/extractors/NoiseParameters.kt:19-31 | succeeds exactly when every entry has an identifier, and then pairs each entry's path with its record, in order |
| NoiseParameters.Extraction | wither-extractor/bin/main/de/snowii/extractor/extractors/NoiseParameters.kt:15-34 | fails on a missing registry, and fails exactly when some entry has no identifier; an empty registry gives `{}` |
| NoiseParameters.RecordOf | wither-extractor/bin/main/de/snowii/extractor/extractors/NoiseParameters.kt:20-26 | the loop that builds one record computes exactly `Record` |
| NoiseParameters.Extract | wither-extractor/bin/main/de/snowii/extractor/extractors/NoiseParameters.kt:15-34 | the extraction loop computes exactly `Extraction` |
| NoiseParameters.ExtractionKeyedByPath | wither-extractor/bin/main/de/snowii/extractor/extractors/NoiseParameters.kt:27-30 | each path holds the record of the last entry with that path; no other key occurs, and no key occurs twice |
| MultiNoise.CubeShape | wither-extractor/src/main/kotlin/de/snowii/extractor/extractors/MultiNoise.kt:57-79 | a hypercube becomes the seven members temperature, humidity, continentalness, erosion, depth, weirdness and offset, in that order, each range a `[min, max]` pair |
| MultiNoise.InnerPairs | wither-extractor/src/main/kotlin/de/snowii/extractor/extractors/MultiNoise.kt:36-45 | succeeds exactly when every biome entry has a key |
| MultiNoise.InnerPairsAt | wither-extractor/src/main/kotlin/de/snowii/extractor/extractors/MultiNoise.kt:40-44 | each pair becomes its biome's full name with its hypercube's object, in order |
| MultiNoise.ListObject | wither-extractor/src/main/kotlin/de/snowii/extractor/extractors/MultiNoise.kt:33-45 | a parameter list's object exists exactly when every biome entry has a key |
| MultiNoise.OuterPairs | wither-extractor/src/main/kotlin/de/snowii/extractor/extractors/MultiNoise.kt:29-48 | succeeds exactly when every list has a key and every biome in it does |
| MultiNoise.OuterPairsAt | wither-extractor/src/main/kotlin/de/snowii/extractor/extractors/MultiNoise.kt:30-47 | each list becomes its path with its object, in order |
| MultiNoise.Extraction | wither-extractor/src/main/kotlin/de/snowii/extractor/extractors/MultiNoise.kt:23-52 | fails on a missing registry, and fails exactly when some list or biome entry has no key; an empty registry gives `{}` |
| MultiNoise.ListToJson | wither-extractor/src/main/kotlin/de/snowii/extractor/extractors/MultiNoise.kt:33-45 | the inner loop computes exactly `ListObject` |
| MultiNoise.Extract | wither-extractor/src/main/kotlin/de/snowii/extractor/extractors/MultiNoise.kt:23-52 | the outer loop computes exactly `Extraction` |
| MultiNoise.ExtractionKeyedByListPath | wither-extractor/src/main/kotlin/de/snowii/extractor/extractors/MultiNoise.kt:30-47 | each path holds the object of the last list with that path; no other key occurs, and no key occurs twice |
| MultiNoise.EmptyListStillAdded | wither-extractor/src/main/kotlin/de/snowii/extractor/extractors/MultiNoise.kt:33-47 | a list without pairs is still added, as `{}` |
| MultiNoise.ListKeyedByBiome | wither-extractor/src/main/kotlin/de/snowii/extractor/extractors/MultiNoise.kt:40-44 | each biome's full name holds the hypercube of its last pair, with no key twice |
| MultiNoise.DistinctBiomesKept | wither-extractor/src/main/kotlin/de/snowii/extractor/extractors/MultiNoise.kt:40-44 | a biome that no later pair repeats keeps its own hypercube, because full names tell biomes apart |

## Left out

- The zlib compressor (libdeflate) and the AES-128 block function are parameters: `Framing.Zlib` and `Cfb8.Keystream`. Their internals, and the `compress_buf` scratch buffer, are not modelled.
- The VarInt codec, `VarInt::MAX_SIZE`, `MAX_PACKET_SIZE`, the `ByteBuf` helpers, `ClientIntent`'s values and the libdeflate level range are not part of this model's sources. They are given the protocol's usual definitions:
  - VarInt is seven-bit groups, least significant first, at most 5 bytes;
  - bool is one byte;
  - u16 is big-endian;
  - strings are length-prefixed;
  - intents are 1 to 3;
  - levels are 0 to 12.
- `ByteBuf.TryGetStringLen` does not check UTF-8: strings are kept as their bytes.
- The serde serializer and deserializer are not modelled. A `u8` element is one byte. A `VarInt` element is its VarInt bytes. A slice is its bytes. A `Property` element is a reader/writer pair that round-trips.
- ProtocolBinary.Serialize: the layout `serialize_bytes` produces belongs to the serializer, which is not modelled. The model passes the bytes through unchanged, while `visit_seq` expects a VarInt count first. `ProtocolBinary.VisitLengthPrefixed` therefore reads a count written out by hand: it relies on the serializer writing a VarInt length before the bytes.
- Uuid.Serialize: `serialize_u128` is taken to write the number as 16 big-endian bytes, the layout `Uuid.VisitSerialize` and `Uuid.SerializeVisit` read back.
- `Binary::new` and `PropertyMap::new` are the datatype constructors.
- `Framing.AppendedFrameReadsBack` and `Framing.AppendAtomicKeepsFramed` require the packet data to be shorter than 2^31 bytes. A longer packet would wrap `data_len as i32`; since any packet of 2 MiB or more is refused without compression, only compressed packets are affected.
- `Cfb8.Encrypt` is proved to keep the length, not that its output matches the real AES: the block function is a parameter.
- `PacketEncoder.PacketEncoder.SetEncryption` requires what the source asserts: a key only while encryption is off, and `None` only while it is on. A 16-byte key is required, so `expect("invalid key")` cannot fail. The panics themselves are not modelled.
- CookieResponse.Write: requires what the source panics on to be absent, a payload over 5120 bytes. The panic is not modelled.
- Handshake.Write: requires `Writable`, which bounds the host name at 255 bytes. That excludes the input on which `put_string_len(&self.host_name, 255)` panics; the panic is not modelled.
- `MultiNoise.RangeToJson` has no contract of its own. Its output is stated through `MultiNoise.CubeShape`.
- `MultiNoiseUtil.toFloat` is an uninterpreted parameter, and `float` and `double` values are kept as bit patterns. No floating-point arithmetic is modelled.
- `NoiseParameters.Extract` gives each registry entry an optional identifier in place of `getId(value)`. A value registered under two identifiers, where `getId` would return the same one for both, is not modelled.
- The registries are sequences of entries in iteration order; the game's registry manager and `MinecraftServer` are not modelled.
- The `fileName()` of each extractor is a constant (`FileName`) with no contract.
- The `Extractor` interface, the program that writes the files, the client's network loop and the packet definitions beyond `CookieResponse` and `HandShake` are not part of this model.

## Findings

| source | as written | input that shows it | evidently intended | confidence | as-written member | corrected member |
|---|---|---|---|---|---|---|
| wither-network/src/packet_encoder.rs:79-127 | on `TooLong` or `CompressionFailed`, `append_packet` returns without truncating the buffer back to `start_len`. The packet ID and body stay in `buf`, unframed. `send_packet` in wither-client/src/lib.rs:145-147 returns on that error, and the next `take` sends the stray bytes | no compression, an empty buffer, packet ID 0 and a body of 2097151 bytes of 0xFF: the result is `TooLong(2097152)` and the buffer holds `[0]` followed by the body, which does not read as whole frames | a failed append leaves the buffer as it was, so the buffer always holds whole frames | medium, not executed | Framing.AppendErrorLeavesUnframedBytes | Framing.AppendAtomicKeepsFramed |
