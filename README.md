# ktbuf core, modelled in Dafny

ktbuf is a Kotlin Multiplatform Protocol Buffers library. This project models
its core:

- **`ScopedProtobufWriter`** appends tagged fields to a shared growable byte
  store. It writes base-128 varints, ZigZag signed integers, little-endian
  fixed32/fixed64 values and length-delimited bytes. A nested message gets a
  one-byte length slot that is widened afterwards if needed.
  **`ProtobufOutputStream`** owns a store and one writer.
- **`ScopedProtobufReader`** consumes a store, or a bounded window of it, one
  field at a time. It reads typed scalars, opens a window for a nested message
  (`readField`), and re-encodes a field it skips (`skipField`).
  **`ProtobufInputStream`** owns a store that bytes are added to.
- **`ConcreteLinkedByteArray`** is the byte store. It supports absolute
  overwrite, shifting insert and a read cursor (`tipOffset`).
  **`LinkedByteSubarray`** is a zero-copy window onto a store, with its own
  cursor (`progress`).
- **`Status.kt`** holds the gRPC-style `Codes` and their `retriable`
  predicate. It maps an HTTP status or a WebSocket close code to a `Status`.
- **`Base64.kt`** is an unpadded base64url codec over the alphabet of section
  5 of RFC 4648.
- **`listOfBytesEquals`** compares lists of byte arrays element by element.

The modules follow the source files:

- `wire.dfy` (module `Wire`) holds the pure wire format of
  `ProtobufOutputStream.kt` and `ProtobufInputStream.kt`:
  - two's-complement conversions;
  - tags, ZigZag, varints and little-endian values, with their round trips.
- `bytes.dfy` (module `LinkedBytes`) holds the store and window classes:
  - the store keeps `buffer`, `cachedSize` and `tipOffset` fields over an
    `array<byte>`;
  - the `LinkedByteArray` interface a reader consumes is a datatype,
    `Buffer(store) | Window(subarray)`.
- `writer.dfy` (module `ProtoWriter`) holds the writer and output-stream
  classes. What they append is specified by the pure functions `FieldBytes`
  and `Encoding`.
- `reader.dfy` (module `ProtoReader`) holds the reader and input-stream
  classes. Every read is specified against the unread bytes of its scope.
- `status.dfy` (module `RpcStatus`) holds `Codes`, `Status`, `fromHTTPCode`
  and `fromWSCode`.
- `base64.dfy` (module `Base64`) has three parts:
  - the two loops of `Base64.kt`, as methods over arrays;
  - the reference definitions `Encode64` and `Decode` they are proved against;
  - the round trip.
- `equality.dfy` (module `Equality`) holds `listOfBytesEquals`.

Modelling conventions:

- **Bytes.** A Kotlin `Byte` is its bit pattern read unsigned, `byte` (0..255).
- **Fixed-width integers.** `Int`, `Long`, `UInt` and `ULong` are the
  subset types `i32`, `i64`, `u32` and `u64`. Every conversion between them
  is written out as two's complement (`ToU64`, `ToI32`, and so on).
- **Builders.** A builder lambda passed to the writer
  (`ProtobufWriter.() -> Unit`) is represented by the list of writer calls
  it makes, `seq<Op>`. The writer runs them one after another.
- **`readField`.** It is split in two: `ReadFieldOpen` reads the length and
  opens the window; `ReadFieldClose` advances past it. The builder is
  whatever the caller does with the sub-reader in between.
- **Default arguments.** The `MutableLinkedByteArray` and `LinkedByteArray`
  interfaces, and their default arguments, are not part of this model. The
  calls that rely on those defaults are taken to mean:
  - "write or insert at the logical end", i.e. at `cachedSize`;
  - "from offset 0 of the source";
  - "into offset 0 of the destination";
  - "all of its bytes" (of the source, or of the destination array when
    the call reads into one).

  The writes and inserts are the calls at `ProtobufOutputStream.kt:276`,
  `:324` and `ProtobufInputStream.kt:216`. The reads into an array are
  `readAdvance(tempBuffer, length = n)` at `ProtobufInputStream.kt:131`,
  `:140` and `:180`, and the window's `copyTo(it)` and `read(it)` at
  `ConcreteLinkedByteArray.kt:116` and `:127`: they fill the destination from
  its offset 0 (`ReadInto`, `ReadAdvanceInto` and `CopyTo` with a
  destination offset of 0).
- **Unchecked bounds.** Several store and window operations do not check
  bounds. Where the Kotlin code would then read or write past an array, the
  model has a precondition. No error is invented.

## Model

| member | source | states |
|---|---|---|
| Wire.TagRoundTrip | library/src/commonMain/kotlin/com/latenighthack/ktbuf/ProtobufOutputStream.kt:259-261 | For a field number below 2^29 and a wire type up to 7, `fieldTag` is `8 * fieldNumber + wireType`. `fieldNumberFromTag` and `wireTypeFromTag` of that tag give back the number and the type. |
| Wire.TagValue | library/src/commonMain/kotlin/com/latenighthack/ktbuf/ProtobufOutputStream.kt:259-261 | The tag of a field number below 2^29 is below 2^32, and it equals `8 * fieldNumber + wireType`. |
| Wire.ShlTag | library/src/commonMain/kotlin/com/latenighthack/ktbuf/ProtobufOutputStream.kt:260 | `fieldNumber.toULong() shl 3` is `8 * fieldNumber` for field numbers below 2^29. |
| Wire.OrTag | library/src/commonMain/kotlin/com/latenighthack/ktbuf/ProtobufOutputStream.kt:260 | OR-ing a wire type below 8 into a multiple of 8 adds it. |
| Wire.TagExamples | library/src/commonMain/kotlin/com/latenighthack/ktbuf/ProtobufOutputStream.kt:259-261 | Field 5 as a varint gives tag 40. Field 1 as length-delimited gives tag 10. |
| Wire.WireTypeFromTag | library/src/commonMain/kotlin/com/latenighthack/ktbuf/ProtobufOutputStream.kt:24-26 | The wire type read from any tag is at most 7. |
| Wire.FieldTag | library/src/commonMain/kotlin/com/latenighthack/ktbuf/ProtobufOutputStream.kt:259-261 | Definition of `fieldTag`: `fieldNumber.toULong() shl 3 or wireType`. It has no contract of its own: `TagValue` and `TagRoundTrip` prove it is `8 * fieldNumber + wireType` and that the reader unpacks it again. |
| Wire.FieldNumberFromTag | library/src/commonMain/kotlin/com/latenighthack/ktbuf/ProtobufOutputStream.kt:20-22 | Definition of `fieldNumberFromTag`: `(tag.toUInt() shr 3).toInt()`. `TagRoundTrip` proves it gives back the field number of every tag below 2^32. |
| Wire.SignedRoundTrip32 | library/src/commonMain/kotlin/com/latenighthack/ktbuf/ProtobufOutputStream.kt:102-108 | An `Int` widened to 64 bits, or read as 32 unsigned bits, is itself again under `toInt()`. |
| Wire.SignedRoundTrip64 | library/src/commonMain/kotlin/com/latenighthack/ktbuf/ProtobufOutputStream.kt:126-132 | A `Long` read as a `ULong` is itself again under `toLong()`. |
| Wire.ToU64 | library/src/commonMain/kotlin/com/latenighthack/ktbuf/ProtobufOutputStream.kt:260 | Definition of `toULong()`: the value modulo 2^64, which sign-extends a negative `Int` or `Long`. `SignedRoundTrip32`, `SignedRoundTrip64` and `ToU64Small` state its properties. |
| Wire.ToU32 | library/src/commonMain/kotlin/com/latenighthack/ktbuf/ProtobufInputStream.kt:110 | Definition of `toUInt()`: the low 32 bits. `SignedRoundTrip32` and `SignedRoundTripU32` state its properties. |
| Wire.ToI32 | library/src/commonMain/kotlin/com/latenighthack/ktbuf/ProtobufInputStream.kt:104 | Definition of `toInt()`: the low 32 bits read as two's complement. `ToI32Small` and the signed round trips state its properties. |
| Wire.ToI64 | library/src/commonMain/kotlin/com/latenighthack/ktbuf/ProtobufInputStream.kt:106 | Definition of `toLong()`: the low 64 bits read as two's complement. `SignedRoundTrip64` states its property. |
| Wire.Shl64 | library/src/commonMain/kotlin/com/latenighthack/ktbuf/ProtobufOutputStream.kt:260 | Definition of `shl n` on a `ULong`: n mod 64 doublings modulo 2^64, so the shift count is masked as in Kotlin. `DoubledNoWrap` and `ShlTag` state its value. |
| Wire.SignedRoundTripU32 | library/src/commonMain/kotlin/com/latenighthack/ktbuf/ProtobufInputStream.kt:100 | A `UInt` taken to `Int` and back is unchanged. This is how `readFloat` keeps the fixed32 bits intact. |
| Wire.ToI32Small | library/src/commonMain/kotlin/com/latenighthack/ktbuf/ProtobufInputStream.kt:157 | A length below 2^31 read as `Int` is itself. |
| Wire.ToU64Small | library/src/commonMain/kotlin/com/latenighthack/ktbuf/ProtobufOutputStream.kt:199 | A non-negative size read as `ULong` is itself. |
| Wire.DoubledNoWrap | library/src/commonMain/kotlin/com/latenighthack/ktbuf/ProtobufOutputStream.kt:260 | Shifting left by k, as repeated doubling modulo 2^64, is multiplication by 2^k when the product fits. |
| Wire.OrDisjoint | library/src/commonMain/kotlin/com/latenighthack/ktbuf/ProtobufInputStream.kt:195-205 | OR of a value below 2^k with a multiple of 2^k is their sum. The varint reader relies on this when it assembles groups. |
| Wire.OrCommutes | library/src/commonMain/kotlin/com/latenighthack/ktbuf/ProtobufInputStream.kt:195 | `or` is commutative. |
| Wire.OrBound | library/src/commonMain/kotlin/com/latenighthack/ktbuf/ProtobufInputStream.kt:195 | `or` of two values below 2^k stays below 2^k. |
| Wire.OrAtMostSum | library/src/commonMain/kotlin/com/latenighthack/ktbuf/ProtobufInputStream.kt:195 | `or` never exceeds the sum of its operands. |
| Wire.OrBound64 | library/src/commonMain/kotlin/com/latenighthack/ktbuf/ProtobufInputStream.kt:195-205 | `or` of two `ULong`s is a `ULong`. |
| Wire.Or64 | library/src/commonMain/kotlin/com/latenighthack/ktbuf/ProtobufInputStream.kt:195 | Definition of `or` on two `ULong`s. `OrDisjoint`, `OrCommutes`, `OrBound`, `OrAtMostSum` and `OrBound64` state its properties. |
| Wire.ZigZagValue | library/src/commonMain/kotlin/com/latenighthack/ktbuf/ProtobufOutputStream.kt:263-265 | `zigZag(v)` is `2v` for non-negative v and `-2v - 1` for negative v. |
| Wire.ZigZagExamples | library/src/commonMain/kotlin/com/latenighthack/ktbuf/ProtobufOutputStream.kt:263-265 | 0, -1, 1, -2 and 2 map to 0, 1, 2, 3 and 4. |
| Wire.ZigZagRoundTrip64 | library/src/commonMain/kotlin/com/latenighthack/ktbuf/ProtobufInputStream.kt:117-124 | `readSInt64`'s shift-and-complement inverts `zigZag` for every `Long`. |
| Wire.ZigZagRoundTrip32 | library/src/commonMain/kotlin/com/latenighthack/ktbuf/ProtobufInputStream.kt:108-115 | `readSInt32`'s 32-bit shift-and-complement inverts `zigZag` of every `Int` widened to `Long`. |
| Wire.ZigZag | library/src/commonMain/kotlin/com/latenighthack/ktbuf/ProtobufOutputStream.kt:263-265 | Definition of `zigZag`: `(value shl 1) xor (value shr 63)` as a `ULong`. `ZigZagValue` gives its closed form and the two round trips prove the reader inverts it. |
| Wire.UnZigZag64 | library/src/commonMain/kotlin/com/latenighthack/ktbuf/ProtobufInputStream.kt:117-124 | Definition of `readSInt64`'s decoding: shift right by one, complement when the low bit is set, `toLong()`. `ZigZagRoundTrip64` proves it inverts `zigZag`. |
| Wire.UnZigZag32 | library/src/commonMain/kotlin/com/latenighthack/ktbuf/ProtobufInputStream.kt:108-115 | Definition of `readSInt32`'s decoding on the low 32 bits. `ZigZagRoundTrip32` proves it inverts `zigZag` of every `Int`. |
| Wire.VarintBytes | library/src/commonMain/kotlin/com/latenighthack/ktbuf/ProtobufOutputStream.kt:304-321 | The encoding is never empty. |
| Wire.VarintShape | library/src/commonMain/kotlin/com/latenighthack/ktbuf/ProtobufOutputStream.kt:308-318 | Every byte except the last has the high bit set, and the last has it clear. |
| Wire.VarintLengthAtMost | library/src/commonMain/kotlin/com/latenighthack/ktbuf/ProtobufOutputStream.kt:304-321 | A value below 2^(7k) takes at most k bytes. |
| Wire.VarintLengthAtLeast | library/src/commonMain/kotlin/com/latenighthack/ktbuf/ProtobufOutputStream.kt:304-321 | A value of at least 2^(7k) takes more than k bytes. |
| Wire.VarintLength | library/src/commonMain/kotlin/com/latenighthack/ktbuf/ProtobufOutputStream.kt:304-321 | A varint is 1 byte exactly for 0..127 and at most 10 bytes for any `ULong`. |
| Wire.VarintLengthBetween | library/src/commonMain/kotlin/com/latenighthack/ktbuf/ProtobufOutputStream.kt:304-321 | A value in [2^(7(k-1)), 2^(7k)) takes exactly k bytes, and a value below 2^7 takes one. |
| Wire.VarintBoundaries | library/src/commonMain/kotlin/com/latenighthack/ktbuf/ProtobufOutputStream.kt:304-321 | 127 takes 1 byte and 128 takes 2. 16383 takes 2 bytes and 16384 takes 3. |
| Wire.SizeofVarint32 | library/src/commonMain/kotlin/com/latenighthack/ktbuf/ProtobufOutputStream.kt:267-273 | The size estimate is between 1 and 5. |
| Wire.SizeofVarint32Exact | library/src/commonMain/kotlin/com/latenighthack/ktbuf/ProtobufOutputStream.kt:267-273 | For non-negative `Int`s the estimate is exactly the length of the varint `writeVarint` emits. |
| Wire.ReadVarint | library/src/commonMain/kotlin/com/latenighthack/ktbuf/ProtobufInputStream.kt:185-208 | The reference varint reader consumes no more than the input. It consumes at least one byte of non-empty input. |
| Wire.ReadVarintLoop | library/src/commonMain/kotlin/com/latenighthack/ktbuf/ProtobufInputStream.kt:190-205 | The state of `readVarInt`'s loop after the first byte: it only moves forward and never past the input. |
| Wire.ShlGroup | library/src/commonMain/kotlin/com/latenighthack/ktbuf/ProtobufInputStream.kt:195 | `shl (shift * 7)` of a 7-bit group is multiplication by 2^(7·shift) when it fits in 64 bits. |
| Wire.OrGroup | library/src/commonMain/kotlin/com/latenighthack/ktbuf/ProtobufInputStream.kt:195 | OR-ing a group above the bits accumulated so far adds it. |
| Wire.GroupSplit | library/src/commonMain/kotlin/com/latenighthack/ktbuf/ProtobufInputStream.kt:195-205 | Peeling the low 7 bits off a value keeps the accumulated sum. |
| Wire.ReadVarintLoopContinues | library/src/commonMain/kotlin/com/latenighthack/ktbuf/ProtobufInputStream.kt:194-203 | A continuation byte of a well-formed varint adds its group and moves on. |
| Wire.ContinuedGroup | library/src/commonMain/kotlin/com/latenighthack/ktbuf/ProtobufInputStream.kt:195 | A continuation byte contributes its low 7 bits at the right position. |
| Wire.ReadVarintLoopEnds | library/src/commonMain/kotlin/com/latenighthack/ktbuf/ProtobufInputStream.kt:205 | The terminating byte is added whole at its position. |
| Wire.GroupFits | library/src/commonMain/kotlin/com/latenighthack/ktbuf/ProtobufInputStream.kt:194 | A continuation group that still fits in 64 bits occurs before the tenth byte. |
| Wire.GroupStep | library/src/commonMain/kotlin/com/latenighthack/ktbuf/ProtobufInputStream.kt:195 | Taking one group keeps the invariant that the accumulated value plus the rest still to come is the value. |
| Wire.VarintBytesAt | library/src/commonMain/kotlin/com/latenighthack/ktbuf/ProtobufOutputStream.kt:308-318 | The bytes of a varint of at least 128 are a continuation byte followed by the varint of the value shifted right by 7. |
| Wire.ReadVarintLoopOfVarint | library/src/commonMain/kotlin/com/latenighthack/ktbuf/ProtobufInputStream.kt:190-207 | Fed the rest of a varint mid-way, the loop finishes with the value and stops exactly at its end. |
| Wire.VarintRoundTrip | library/src/commonMain/kotlin/com/latenighthack/ktbuf/ProtobufInputStream.kt:185-208 | For every `ULong` v, reading `writeVarint(v)`'s bytes, whatever follows them, gives v and consumes exactly those bytes. |
| Wire.ReadVarintLoopStops | library/src/commonMain/kotlin/com/latenighthack/ktbuf/ProtobufInputStream.kt:194 | The loop stops right after the first byte with the high bit clear. |
| Wire.ReadVarintStopsAtTerminator | library/src/commonMain/kotlin/com/latenighthack/ktbuf/ProtobufInputStream.kt:194 | Decoding consumes up to and including the first byte with the high bit clear, within the first ten bytes. |
| Wire.LittleEndian | library/src/commonMain/kotlin/com/latenighthack/ktbuf/ProtobufOutputStream.kt:280-302 | The little-endian encoding of a value in n bytes has n bytes. |
| Wire.LittleEndianRoundTrip | library/src/commonMain/kotlin/com/latenighthack/ktbuf/ProtobufOutputStream.kt:280-302 | The n-byte little-endian encoding of a value below 2^(8n) reads back as the value. |
| Wire.LittleEndianValueBound | library/src/commonMain/kotlin/com/latenighthack/ktbuf/ProtobufInputStream.kt:130-150 | n bytes read little-endian give a value below 2^(8n). |
| Wire.LittleEndianValue4 | library/src/commonMain/kotlin/com/latenighthack/ktbuf/ProtobufInputStream.kt:133-136 | Four bytes read little-endian are b0 + 2^8·b1 + 2^16·b2 + 2^24·b3. |
| Wire.LittleEndianValueAppend | library/src/commonMain/kotlin/com/latenighthack/ktbuf/ProtobufInputStream.kt:142-149 | The little-endian value of a concatenation is the first value plus the second scaled by the first's width. |
| Wire.Fixed32ValueIsLittleEndian | library/src/commonMain/kotlin/com/latenighthack/ktbuf/ProtobufInputStream.kt:130-137 | The shift-and-or assembly of `readFixedInt32` is the little-endian value of the first 4 bytes. |
| Wire.Fixed64ValueIsLittleEndian | library/src/commonMain/kotlin/com/latenighthack/ktbuf/ProtobufInputStream.kt:139-150 | The shift-and-or assembly of `readFixedInt64` is the little-endian value of the first 8 bytes. |
| Wire.Fixed32Value | library/src/commonMain/kotlin/com/latenighthack/ktbuf/ProtobufInputStream.kt:130-137 | Definition of `readFixedInt32`'s shift-and-or assembly of four bytes. `Fixed32ValueIsLittleEndian` and `Fixed32RoundTrip` state what it is. |
| Wire.Fixed64Value | library/src/commonMain/kotlin/com/latenighthack/ktbuf/ProtobufInputStream.kt:139-150 | Definition of `readFixedInt64`'s shift-and-or assembly of eight bytes. `Fixed64ValueIsLittleEndian` and `Fixed64RoundTrip` state what it is. |
| Wire.LittleEndianOfValue | library/src/commonMain/kotlin/com/latenighthack/ktbuf/ProtobufInputStream.kt:130-150 | Re-encoding the value of n bytes gives back those n bytes. |
| Wire.Fixed32RoundTrip | library/src/commonMain/kotlin/com/latenighthack/ktbuf/ProtobufInputStream.kt:130-137 | `readFixedInt32` of `writeFixed32(v)`'s bytes is v, whatever follows. |
| Wire.Fixed64RoundTrip | library/src/commonMain/kotlin/com/latenighthack/ktbuf/ProtobufInputStream.kt:139-150 | `readFixedInt64` of `writeFixed64(v)`'s bytes is v, whatever follows. |
| LinkedBytes.Max | library/src/commonMain/kotlin/com/latenighthack/ktbuf/bytes/ConcreteLinkedByteArray.kt:16 | `max` is the larger of its arguments. |
| LinkedBytes.Zeros | library/src/commonMain/kotlin/com/latenighthack/ktbuf/ProtobufOutputStream.kt:235 | `ByteArray(n)` holds n zero bytes. |
| LinkedBytes.Resized | library/src/commonMain/kotlin/com/latenighthack/ktbuf/bytes/ConcreteLinkedByteArray.kt:41 | `copyOf(n)` has n bytes: the old ones, truncated or padded with zeros. |
| LinkedBytes.ResizedPrefix | library/src/commonMain/kotlin/com/latenighthack/ktbuf/bytes/ConcreteLinkedByteArray.kt:41 | Growing an array keeps its first bytes. |
| LinkedBytes.Overwrite | library/src/commonMain/kotlin/com/latenighthack/ktbuf/bytes/ConcreteLinkedByteArray.kt:34 | `copyInto` keeps the destination's length. |
| LinkedBytes.OverwriteAt | library/src/commonMain/kotlin/com/latenighthack/ktbuf/bytes/ConcreteLinkedByteArray.kt:34 | After `copyInto`, each index in the target range holds the matching source byte, and every other index is unchanged. |
| LinkedBytes.Inserted | library/src/commonMain/kotlin/com/latenighthack/ktbuf/bytes/ConcreteLinkedByteArray.kt:37-46 | Inserting k bytes into n gives n + k bytes. |
| LinkedBytes.InsertedLayout | library/src/commonMain/kotlin/com/latenighthack/ktbuf/bytes/ConcreteLinkedByteArray.kt:37-46 | After inserting k bytes at o: [0, o) is unchanged, [o, o+k) is the inserted bytes, and the rest is the old [o, n). |
| LinkedBytes.InsertedAtEnd | library/src/commonMain/kotlin/com/latenighthack/ktbuf/ProtobufInputStream.kt:216 | Inserting at the end appends. |
| LinkedBytes.OverwriteAtEnd | library/src/commonMain/kotlin/com/latenighthack/ktbuf/bytes/ConcreteLinkedByteArray.kt:26-35 | Writing at the end of the content appends. |
| LinkedBytes.OverwriteInside | library/src/commonMain/kotlin/com/latenighthack/ktbuf/bytes/ConcreteLinkedByteArray.kt:26-35 | Writing inside the content replaces exactly the target range. |
| LinkedBytes.OverwriteContents | library/src/commonMain/kotlin/com/latenighthack/ktbuf/bytes/ConcreteLinkedByteArray.kt:26-35 | In terms of the content only, a write inside it overwrites and a write at its end appends. |
| LinkedBytes.InsertByShifting | library/src/commonMain/kotlin/com/latenighthack/ktbuf/bytes/ConcreteLinkedByteArray.kt:44-45 | Shifting the tail up by k and then copying k bytes into the gap is the intended insertion. Bytes beyond it are untouched. |
| LinkedBytes.WriteGrowthTooSmall | library/src/commonMain/kotlin/com/latenighthack/ktbuf/bytes/ConcreteLinkedByteArray.kt:29-31 | As written, a writer on a fresh 8192-byte store that encodes a 10000-byte field 1 has written 3 bytes (a one-byte tag and a two-byte length), and the payload write that wants 10003 bytes reallocates to 4 (see Findings). |
| LinkedBytes.WriteGrowthAsWritten | library/src/commonMain/kotlin/com/latenighthack/ktbuf/bytes/ConcreteLinkedByteArray.kt:29-31 | Definition of the capacity both `write` overloads reallocate to as written, `cachedSize * 4 / 3`. `WriteFitsAsWritten` states when it suffices. |
| LinkedBytes.WriteFitsAsWritten | library/src/commonMain/kotlin/com/latenighthack/ktbuf/bytes/ConcreteLinkedByteArray.kt:26-35 | For every store, offset and length: the array `write` as written ends up with holds the copied range exactly when the old array already reaches the target size or `cachedSize * 4 / 3` does. Otherwise the source throws. |
| LinkedBytes.GrownCapacity | library/src/commonMain/kotlin/com/latenighthack/ktbuf/bytes/ConcreteLinkedByteArray.kt:40-42 | Growth as `insert` computes it always reaches the target size. It never shrinks, and it keeps the array when it already fits. |
| LinkedBytes.ArrayOf | library/src/commonMain/kotlin/com/latenighthack/ktbuf/bytes/ConcreteLinkedByteArray.kt:60-62 | A fresh array holds the given bytes. |
| LinkedBytes.CopyOf | library/src/commonMain/kotlin/com/latenighthack/ktbuf/bytes/ConcreteLinkedByteArray.kt:40-42 | The `copyOf` loop returns a fresh array equal to `Resized` of the old one. |
| LinkedBytes.OverwriteForward | library/src/commonMain/kotlin/com/latenighthack/ktbuf/bytes/ConcreteLinkedByteArray.kt:34 | Copying one more byte forwards extends the overwritten prefix. |
| LinkedBytes.OverwriteBackward | library/src/commonMain/kotlin/com/latenighthack/ktbuf/bytes/ConcreteLinkedByteArray.kt:44 | Copying one more byte backwards extends the overwritten suffix. |
| LinkedBytes.CopyInto | library/src/commonMain/kotlin/com/latenighthack/ktbuf/bytes/ConcreteLinkedByteArray.kt:44-45 | `copyInto` between any two arrays, overlapping or not, gives `Overwrite` of the destination with the source range as it was before the copy. |
| LinkedBytes.CopyForward | library/src/commonMain/kotlin/com/latenighthack/ktbuf/bytes/ConcreteLinkedByteArray.kt:45 | A forward copy loop is `Overwrite` when the ranges do not overlap harmfully. |
| LinkedBytes.ShiftUp | library/src/commonMain/kotlin/com/latenighthack/ktbuf/bytes/ConcreteLinkedByteArray.kt:44 | The overlapping upward copy, run backwards, is `Overwrite` with the original bytes. |
| LinkedBytes.OpenGap | library/src/commonMain/kotlin/com/latenighthack/ktbuf/bytes/ConcreteLinkedByteArray.kt:44-45 | The two copies of `insert` leave the content as `Inserted` of the old content, with the array beyond it untouched. |
| LinkedBytes.StoreAt | library/src/commonMain/kotlin/com/latenighthack/ktbuf/bytes/ConcreteLinkedByteArray.kt:34 | The `copyInto` of `write` overwrites inside the content, or appends when the destination is its end. |
| LinkedBytes.ConcreteLinkedByteArray.constructor | library/src/commonMain/kotlin/com/latenighthack/ktbuf/bytes/ConcreteLinkedByteArray.kt:5-13 | A new store has a fresh buffer of `bufferSize` bytes, no content and the cursor at 0. |
| LinkedBytes.ConcreteLinkedByteArray.WriteByte | library/src/commonMain/kotlin/com/latenighthack/ktbuf/bytes/ConcreteLinkedByteArray.kt:15-24 | `cachedSize` becomes max(cachedSize, offset + 1) and the byte lands at the offset. It replaces a byte inside the content or appends at its end. The cursor does not move. The buffer grows by the corrected `GrownCapacity`, so the throw the source hits when `cachedSize * 4 / 3` is below the target size is not modelled (see Findings). |
| LinkedBytes.ConcreteLinkedByteArray.Write | library/src/commonMain/kotlin/com/latenighthack/ktbuf/bytes/ConcreteLinkedByteArray.kt:26-35 | `cachedSize` becomes max(cachedSize, offset + length) and the source range lands at the offset. Nothing shifts, and every other byte is kept. The cursor does not move. The buffer grows by the corrected `GrownCapacity`, so the throw the source hits when `cachedSize * 4 / 3` is below the target size is not modelled (see Findings). |
| LinkedBytes.ConcreteLinkedByteArray.Grow | library/src/commonMain/kotlin/com/latenighthack/ktbuf/bytes/ConcreteLinkedByteArray.kt:40-42 | When the target size does not fit, the buffer is replaced by a fresh copy of `GrownCapacity` bytes (the corrected growth, see Findings). The old bytes are kept and zero-padded, and `cachedSize` and the cursor are unchanged. |
| LinkedBytes.ConcreteLinkedByteArray.Insert | library/src/commonMain/kotlin/com/latenighthack/ktbuf/bytes/ConcreteLinkedByteArray.kt:37-46 | The content grows by `length` and becomes `Inserted` of the old content. The capacity grows as `GrownCapacity`. The cursor does not move. |
| LinkedBytes.ConcreteLinkedByteArray.Reset | library/src/commonMain/kotlin/com/latenighthack/ktbuf/bytes/ConcreteLinkedByteArray.kt:51-53 | The cursor returns to 0 and the content is kept. |
| LinkedBytes.ConcreteLinkedByteArray.Clear | library/src/commonMain/kotlin/com/latenighthack/ktbuf/bytes/ConcreteLinkedByteArray.kt:55-58 | Both the content size and the cursor become 0. |
| LinkedBytes.ConcreteLinkedByteArray.ToByteArray | library/src/commonMain/kotlin/com/latenighthack/ktbuf/bytes/ConcreteLinkedByteArray.kt:60-62 | A fresh array of the whole content, from offset 0, whatever the cursor. |
| LinkedBytes.ConcreteLinkedByteArray.CopyTo | library/src/commonMain/kotlin/com/latenighthack/ktbuf/bytes/ConcreteLinkedByteArray.kt:64-66 | The bytes at cursor + offset are copied into the target range, and the rest of the target is kept. |
| LinkedBytes.ConcreteLinkedByteArray.ReadInto | library/src/commonMain/kotlin/com/latenighthack/ktbuf/bytes/ConcreteLinkedByteArray.kt:68-70 | The `length` bytes at the cursor are copied to the destination offset, and the cursor does not move. |
| LinkedBytes.ConcreteLinkedByteArray.Read | library/src/commonMain/kotlin/com/latenighthack/ktbuf/bytes/ConcreteLinkedByteArray.kt:72-74 | A fresh array of the `length` bytes at the cursor. The cursor does not move. |
| LinkedBytes.ConcreteLinkedByteArray.ReadAdvanceInto | library/src/commonMain/kotlin/com/latenighthack/ktbuf/bytes/ConcreteLinkedByteArray.kt:76-79 | The same bytes as `read` into an array, and the cursor moves by `length`. Content and buffer are unchanged. |
| LinkedBytes.ConcreteLinkedByteArray.ReadAdvance | library/src/commonMain/kotlin/com/latenighthack/ktbuf/bytes/ConcreteLinkedByteArray.kt:81-85 | The same bytes as `read(length)`, and the cursor moves by `length`. |
| LinkedBytes.ConcreteLinkedByteArray.Advance | library/src/commonMain/kotlin/com/latenighthack/ktbuf/bytes/ConcreteLinkedByteArray.kt:87-89 | The cursor moves by `length`, unchecked against the content. |
| LinkedBytes.ConcreteLinkedByteArray.Subarray | library/src/commonMain/kotlin/com/latenighthack/ktbuf/bytes/ConcreteLinkedByteArray.kt:91-93 | A fresh window on this store with the given offset and length, at progress 0. |
| LinkedBytes.LinkedByteSubarray.constructor | library/src/commonMain/kotlin/com/latenighthack/ktbuf/bytes/ConcreteLinkedByteArray.kt:96-102 | A window records parent, offset and length, with progress 0. |
| LinkedBytes.LinkedByteSubarray.Reset | library/src/commonMain/kotlin/com/latenighthack/ktbuf/bytes/ConcreteLinkedByteArray.kt:107-109 | Progress jumps to `length`, so the window is used up. |
| LinkedBytes.LinkedByteSubarray.Clear | library/src/commonMain/kotlin/com/latenighthack/ktbuf/bytes/ConcreteLinkedByteArray.kt:111-113 | Same as `reset`. |
| LinkedBytes.LinkedByteSubarray.CopyTo | library/src/commonMain/kotlin/com/latenighthack/ktbuf/bytes/ConcreteLinkedByteArray.kt:119-121 | Reads resolve to the parent's array at the parent's current cursor + window offset + progress + offset. |
| LinkedBytes.LinkedByteSubarray.ReadInto | library/src/commonMain/kotlin/com/latenighthack/ktbuf/bytes/ConcreteLinkedByteArray.kt:123-125 | `length` bytes from the window's cursor into the destination. |
| LinkedBytes.LinkedByteSubarray.Read | library/src/commonMain/kotlin/com/latenighthack/ktbuf/bytes/ConcreteLinkedByteArray.kt:127 | A fresh array of the `length` bytes at the window's cursor. |
| LinkedBytes.LinkedByteSubarray.ReadAdvance | library/src/commonMain/kotlin/com/latenighthack/ktbuf/bytes/ConcreteLinkedByteArray.kt:129-131 | Those bytes, and only the window's own progress moves. |
| LinkedBytes.LinkedByteSubarray.ReadAdvanceInto | library/src/commonMain/kotlin/com/latenighthack/ktbuf/bytes/ConcreteLinkedByteArray.kt:133-136 | Those bytes into an array, and only the window's progress moves. |
| LinkedBytes.LinkedByteSubarray.Advance | library/src/commonMain/kotlin/com/latenighthack/ktbuf/bytes/ConcreteLinkedByteArray.kt:138-140 | Only `progress` moves, and the parent's cursor is untouched. |
| LinkedBytes.LinkedByteSubarray.ToByteArray | library/src/commonMain/kotlin/com/latenighthack/ktbuf/bytes/ConcreteLinkedByteArray.kt:115-117 | A fresh array of just the remaining `size` bytes. |
| LinkedBytes.LinkedByteSubarray.Subarray | library/src/commonMain/kotlin/com/latenighthack/ktbuf/bytes/ConcreteLinkedByteArray.kt:142-144 | A window of a window is flattened onto the same store, at offset + this.offset + progress. |
| LinkedBytes.LinkedByteArray.Remaining | library/src/commonMain/kotlin/com/latenighthack/ktbuf/bytes/ConcreteLinkedByteArray.kt:48-49 | The unread bytes in scope number exactly `size`. |
| LinkedBytes.LinkedByteArray.ReadInto | library/src/commonMain/kotlin/com/latenighthack/ktbuf/bytes/ConcreteLinkedByteArray.kt:68-70 | On a store or a window, the first `length` unread bytes go into the destination range, and nothing is consumed. |
| LinkedBytes.LinkedByteArray.Read | library/src/commonMain/kotlin/com/latenighthack/ktbuf/bytes/ConcreteLinkedByteArray.kt:72-74 | On a store or a window, a fresh array of the first `length` unread bytes, and nothing is consumed. |
| LinkedBytes.LinkedByteArray.ReadAdvanceInto | library/src/commonMain/kotlin/com/latenighthack/ktbuf/bytes/ConcreteLinkedByteArray.kt:76-79 | On a store or a window, the next `length` unread bytes go into the destination and are removed from the unread bytes. |
| LinkedBytes.LinkedByteArray.ReadAdvance | library/src/commonMain/kotlin/com/latenighthack/ktbuf/bytes/ConcreteLinkedByteArray.kt:81-85 | On a store or a window, a fresh array of the next `length` unread bytes, which are then consumed. |
| LinkedBytes.LinkedByteArray.Advance | library/src/commonMain/kotlin/com/latenighthack/ktbuf/bytes/ConcreteLinkedByteArray.kt:87-89 | On a store or a window, the first `length` unread bytes are dropped. |
| LinkedBytes.LinkedByteArray.Subarray | library/src/commonMain/kotlin/com/latenighthack/ktbuf/bytes/ConcreteLinkedByteArray.kt:91-93 | A window whose unread bytes are exactly the scope's unread bytes [offset, offset + length), on the same store. |
| ProtoWriter.WireType | library/src/commonMain/kotlin/com/latenighthack/ktbuf/ProtobufOutputStream.kt:13-18 | Every payload has one of the four wire types 0, 1, 2 and 5. |
| ProtoWriter.PayloadOf | library/src/commonMain/kotlin/com/latenighthack/ktbuf/ProtobufOutputStream.kt:86-209 | Definition of what each `encode` overload writes after its tag: a varint of `toULong()`, a ZigZag varint, four or eight little-endian bytes, or length-delimited bytes. `DelimitedLayout`, `PayloadSize` and the reader's `FieldRoundTrip` state its properties. |
| ProtoWriter.PayloadBytes | library/src/commonMain/kotlin/com/latenighthack/ktbuf/ProtobufOutputStream.kt:280-327 | Definition of the bytes of a payload (`writeVarint`, `writeFixed32`, `writeFixed64`, or the length then `writeBytes`). `PayloadSize` bounds it and the reader's `PayloadRoundTrip` reads it back. |
| ProtoWriter.TagBytes | library/src/commonMain/kotlin/com/latenighthack/ktbuf/ProtobufOutputStream.kt:87-89 | Definition of the tag each `encode` writes only when a field number is given. `FieldLayout` states where it sits. |
| ProtoWriter.FieldBytes | library/src/commonMain/kotlin/com/latenighthack/ktbuf/ProtobufOutputStream.kt:86-209 | Definition of what `encode(value, fieldNumber)` appends: the tag, then the payload. `FieldLayout` and the writer methods' contracts are stated with it. |
| ProtoWriter.Encoding | library/src/commonMain/kotlin/com/latenighthack/ktbuf/ProtobufOutputStream.kt:73-75 | Definition of what a builder's calls append, in order. `EncodingAppend` and `EncodingPrefix` state how it composes. |
| ProtoWriter.OpEncoding | library/src/commonMain/kotlin/com/latenighthack/ktbuf/ProtobufOutputStream.kt:86-257 | Definition of what one call appends: a field, a nested message, or raw bytes. `OpEncodingWithin` places it inside `Encoding`. |
| ProtoWriter.MessageBytes | library/src/commonMain/kotlin/com/latenighthack/ktbuf/ProtobufOutputStream.kt:211-253 | Definition of a nested message: its tag, the varint of its content's length, and the content. `MessageLayout` and `MessageLengthPrefix` state its shape. |
| ProtoWriter.EncodingAppend | library/src/commonMain/kotlin/com/latenighthack/ktbuf/ProtobufOutputStream.kt:211-253 | Running two builders in a row writes the concatenation of what each writes. |
| ProtoWriter.EncodingPrefix | library/src/commonMain/kotlin/com/latenighthack/ktbuf/ProtobufOutputStream.kt:226-229 | After i + 1 calls of a builder, the output is the output after i calls followed by call i's bytes. |
| ProtoWriter.EncodingPrefixWithin | library/src/commonMain/kotlin/com/latenighthack/ktbuf/ProtobufOutputStream.kt:226-229 | No prefix of a builder writes more than the whole builder. |
| ProtoWriter.OpEncodingWithin | library/src/commonMain/kotlin/com/latenighthack/ktbuf/ProtobufOutputStream.kt:226-229 | No single call writes more than its builder. |
| ProtoWriter.FieldLayout | library/src/commonMain/kotlin/com/latenighthack/ktbuf/ProtobufOutputStream.kt:86-209 | Without a field number, an `encode*` writes only the payload. With one, the bytes start with the varint tag. |
| ProtoWriter.BoolExamples | library/src/commonMain/kotlin/com/latenighthack/ktbuf/ProtobufOutputStream.kt:182-188 | `true` is written as the varint 1 and `false` as 0. |
| ProtoWriter.ShortBytesExample | library/src/commonMain/kotlin/com/latenighthack/ktbuf/ProtobufOutputStream.kt:194-201 | A byte array of under 128 bytes is its one-byte length followed by its bytes. |
| ProtoWriter.Fixed32Example | library/src/commonMain/kotlin/com/latenighthack/ktbuf/ProtobufOutputStream.kt:280-290 | 0x04030201 as fixed32 is written 01 02 03 04, least significant byte first. |
| ProtoWriter.PayloadSize | library/src/commonMain/kotlin/com/latenighthack/ktbuf/ProtobufOutputStream.kt:280-321 | A fixed32 payload is 4 bytes, a fixed64 payload is 8, and a varint payload is 1 to 10. |
| ProtoWriter.MessageLengthPrefix | library/src/commonMain/kotlin/com/latenighthack/ktbuf/ProtobufOutputStream.kt:233-250 | 127 content bytes get a 1-byte length prefix, and 128 get 2. |
| ProtoWriter.Patched | library/src/commonMain/kotlin/com/latenighthack/ktbuf/ProtobufOutputStream.kt:234-250 | Inserting `varintSize - 1` zeros at the reserved byte and overwriting from there touches exactly `varintSize` bytes. The result is the content with the reserved zero replaced by the varint. |
| ProtoWriter.MessageLayout | library/src/commonMain/kotlin/com/latenighthack/ktbuf/ProtobufOutputStream.kt:211-252 | After backpatching, the output is the old content, the tag, varint(messageLength) and the content, with no gap or overlap. |
| ProtoWriter.DelimitedLayout | library/src/commonMain/kotlin/com/latenighthack/ktbuf/ProtobufOutputStream.kt:190-201 | A bytes or string field is its tag, varint(size) and the bytes. |
| ProtoWriter.ScopedProtobufWriter.constructor | library/src/commonMain/kotlin/com/latenighthack/ktbuf/ProtobufOutputStream.kt:82-84 | A new writer starts at length 0 on the given store, with a fresh temporary buffer. |
| ProtoWriter.ScopedProtobufWriter.WriteBytes | library/src/commonMain/kotlin/com/latenighthack/ktbuf/ProtobufOutputStream.kt:323-326 | The first `sourceLength` bytes are appended at the end of the store, and `length` grows by as many. |
| ProtoWriter.ScopedProtobufWriter.WriteByte | library/src/commonMain/kotlin/com/latenighthack/ktbuf/ProtobufOutputStream.kt:275-278 | One byte is appended, and `length` grows by 1. |
| ProtoWriter.ScopedProtobufWriter.WriteVarint | library/src/commonMain/kotlin/com/latenighthack/ktbuf/ProtobufOutputStream.kt:304-321 | Appends exactly the varint encoding of the value (7-bit groups, low first, 0x80 on every byte but the last), and `length` grows by its size. |
| ProtoWriter.ScopedProtobufWriter.WriteFixed32 | library/src/commonMain/kotlin/com/latenighthack/ktbuf/ProtobufOutputStream.kt:280-290 | Appends exactly 4 bytes, least significant first, and `length` grows by 4. |
| ProtoWriter.ScopedProtobufWriter.WriteFixed64 | library/src/commonMain/kotlin/com/latenighthack/ktbuf/ProtobufOutputStream.kt:292-302 | Appends exactly 8 bytes, least significant first, and `length` grows by 8. |
| ProtoWriter.ScopedProtobufWriter.WriteTag | library/src/commonMain/kotlin/com/latenighthack/ktbuf/ProtobufOutputStream.kt:87-89 | Appends the varint tag only when a field number is given. |
| ProtoWriter.ScopedProtobufWriter.EncodeBytes | library/src/commonMain/kotlin/com/latenighthack/ktbuf/ProtobufOutputStream.kt:194-201 | Appends the optional tag, varint(size) and the bytes, and `length` grows by exactly that many bytes. |
| ProtoWriter.ScopedProtobufWriter.Encode | library/src/commonMain/kotlin/com/latenighthack/ktbuf/ProtobufOutputStream.kt:86-209 | Every scalar, string, bytes or enum overload appends `FieldBytes` (optional tag, then payload), and `length` grows by exactly the bytes appended. |
| ProtoWriter.ScopedProtobufWriter.WritePayload | library/src/commonMain/kotlin/com/latenighthack/ktbuf/ProtobufOutputStream.kt:86-201 | Appends the optional tag for the payload's wire type, then the payload. |
| ProtoWriter.ScopedProtobufWriter.WriteScalar | library/src/commonMain/kotlin/com/latenighthack/ktbuf/ProtobufOutputStream.kt:86-188 | Appends a varint or fixed-width payload. |
| ProtoWriter.ScopedProtobufWriter.EncodeRaw | library/src/commonMain/kotlin/com/latenighthack/ktbuf/ProtobufOutputStream.kt:255-257 | The bytes are appended unchanged. |
| ProtoWriter.ScopedProtobufWriter.Run | library/src/commonMain/kotlin/com/latenighthack/ktbuf/ProtobufOutputStream.kt:226-229 | A builder's calls, run in order, append `Encoding` of them, and `length` grows by as many bytes. |
| ProtoWriter.ScopedProtobufWriter.Perform | library/src/commonMain/kotlin/com/latenighthack/ktbuf/ProtobufOutputStream.kt:29-67 | One builder call appends its own bytes. |
| ProtoWriter.ScopedProtobufWriter.EncodeMessage | library/src/commonMain/kotlin/com/latenighthack/ktbuf/ProtobufOutputStream.kt:211-253 | A nested message appends the tag, varint(content length) and the content the builder wrote. The writer's `length` grows by exactly what the store grew by. |
| ProtoWriter.ScopedProtobufWriter.EncodeNested | library/src/commonMain/kotlin/com/latenighthack/ktbuf/ProtobufOutputStream.kt:226-229 | The nested writer appends the builder's bytes and reports their count as `messageLength`. |
| ProtoWriter.ScopedProtobufWriter.PatchLength | library/src/commonMain/kotlin/com/latenighthack/ktbuf/ProtobufOutputStream.kt:233-250 | The one reserved zero byte is replaced by varint(messageLength), with content on either side kept. Returns the varint's size. |
| ProtoWriter.ScopedProtobufWriter.Reserve | library/src/commonMain/kotlin/com/latenighthack/ktbuf/ProtobufOutputStream.kt:234-236 | `k` zero bytes are inserted at the offset. |
| ProtoWriter.ScopedProtobufWriter.OverwriteVarint | library/src/commonMain/kotlin/com/latenighthack/ktbuf/ProtobufOutputStream.kt:238-250 | The do-while overwrites exactly the varint's bytes from the offset. The content size is unchanged. |
| ProtoWriter.ProtobufOutputStream.constructor | library/src/commonMain/kotlin/com/latenighthack/ktbuf/ProtobufOutputStream.kt:69-71 | A new stream has an empty store and a writer on it. |
| ProtoWriter.ProtobufOutputStream.Write | library/src/commonMain/kotlin/com/latenighthack/ktbuf/ProtobufOutputStream.kt:73-75 | The encoder's calls are appended to what the stream already holds. |
| ProtoWriter.ProtobufOutputStream.ToByteArray | library/src/commonMain/kotlin/com/latenighthack/ktbuf/ProtobufOutputStream.kt:77-79 | A fresh array of everything written. |
| ProtoReader.LengthPrefix | library/src/commonMain/kotlin/com/latenighthack/ktbuf/ProtobufInputStream.kt:157 | A length prefix is an `Int` read from at most the whole input. |
| ProtoReader.Delimited | library/src/commonMain/kotlin/com/latenighthack/ktbuf/ProtobufInputStream.kt:170-173 | A length-delimited value has exactly the announced number of bytes. |
| ProtoReader.DelimitedLength | library/src/commonMain/kotlin/com/latenighthack/ktbuf/ProtobufInputStream.kt:170-173 | Prefix plus value fit in the input. |
| ProtoReader.DelimitedSplit | library/src/commonMain/kotlin/com/latenighthack/ktbuf/ProtobufInputStream.kt:170-173 | After the prefix come the value's bytes and then the rest. |
| ProtoReader.ReadPayload | library/src/commonMain/kotlin/com/latenighthack/ktbuf/ProtobufInputStream.kt:82-95 | A payload is read exactly for wire types 0, 1, 2 and 5, with that wire type, within the input. |
| ProtoReader.SkippedPayload | library/src/commonMain/kotlin/com/latenighthack/ktbuf/ProtobufInputStream.kt:82-95 | A skipped payload keeps the field's wire type. |
| ProtoReader.SkippedCases | library/src/commonMain/kotlin/com/latenighthack/ktbuf/ProtobufInputStream.kt:82-95 | Per wire type, what `skipField` reads and how much it consumes. An unknown type reads nothing and consumes nothing. |
| ProtoReader.SkipReadableCases | library/src/commonMain/kotlin/com/latenighthack/ktbuf/ProtobufInputStream.kt:92-93 | Of the input `skipField` accepts, it reads the payload whole exactly when `readBytes` does not throw on a negative length; every payload readable whole is accepted. |
| ProtoReader.SkippedLength | library/src/commonMain/kotlin/com/latenighthack/ktbuf/ProtobufInputStream.kt:82-95 | `skipField` never consumes past the scope. |
| ProtoReader.DelimitedRoundTrip | library/src/commonMain/kotlin/com/latenighthack/ktbuf/ProtobufOutputStream.kt:194-201 | A written byte array's length prefix reads back as its size, and the bytes fit. |
| ProtoReader.PayloadRoundTrip | library/src/commonMain/kotlin/com/latenighthack/ktbuf/ProtobufInputStream.kt:82-95 | Every payload the writer produces (bytes below 2^31) reads back as itself, consuming exactly its bytes, whatever follows. |
| ProtoReader.VarintPayloadRoundTrip | library/src/commonMain/kotlin/com/latenighthack/ktbuf/ProtobufInputStream.kt:83-85 | A varint payload reads back. |
| ProtoReader.Fixed32PayloadRoundTrip | library/src/commonMain/kotlin/com/latenighthack/ktbuf/ProtobufInputStream.kt:86-88 | A fixed32 payload reads back. |
| ProtoReader.Fixed64PayloadRoundTrip | library/src/commonMain/kotlin/com/latenighthack/ktbuf/ProtobufInputStream.kt:89-91 | A fixed64 payload reads back. |
| ProtoReader.DelimitedPayloadRoundTrip | library/src/commonMain/kotlin/com/latenighthack/ktbuf/ProtobufInputStream.kt:92-94 | A length-delimited payload reads back. |
| ProtoReader.SkipReencodes | library/src/commonMain/kotlin/com/latenighthack/ktbuf/ProtobufInputStream.kt:78-98 | `skipField` on a field as the writer wrote it returns the tag and exactly the payload's bytes, and consumes exactly the payload. |
| ProtoReader.FixedReencodes | library/src/commonMain/kotlin/com/latenighthack/ktbuf/ProtobufInputStream.kt:86-91 | A fixed-width payload read and written again is byte-identical to its input. |
| ProtoReader.FieldRoundTrip | library/src/commonMain/kotlin/com/latenighthack/ktbuf/ProtobufInputStream.kt:65-76 | For field numbers below 2^29, the tag of every written field reads back as its number and wire type. Its payload reads back as itself. |
| ProtoReader.MessageRoundTrip | library/src/commonMain/kotlin/com/latenighthack/ktbuf/ProtobufInputStream.kt:156-162 | For field numbers below 2^29 and content below 2^31 bytes, a nested message as `encode(fieldNumber) { … }` writes it reads back as its number, the length-delimited wire type and a length that covers exactly the content; `readField`'s window is the content and its `advance` lands on what follows. |
| ProtoReader.ScopedProtobufReader.Unread | library/src/commonMain/kotlin/com/latenighthack/ktbuf/ProtobufInputStream.kt:48-50 | The unread bytes of the scope number `size`. |
| ProtoReader.ScopedProtobufReader.constructor | library/src/commonMain/kotlin/com/latenighthack/ktbuf/ProtobufInputStream.kt:48-59 | A reader starts on its scope with field number and type 0. |
| ProtoReader.ScopedProtobufReader.IsByteAvailable | library/src/commonMain/kotlin/com/latenighthack/ktbuf/ProtobufInputStream.kt:61-63 | True exactly when unread bytes remain. |
| ProtoReader.ScopedProtobufReader.NextByte | library/src/commonMain/kotlin/com/latenighthack/ktbuf/ProtobufInputStream.kt:175-183 | On an empty scope it fails ("Message length exceeded", `None`) and consumes nothing. Otherwise it returns the first unread byte and consumes it. |
| ProtoReader.ScopedProtobufReader.ReadVarInt | library/src/commonMain/kotlin/com/latenighthack/ktbuf/ProtobufInputStream.kt:185-208 | Returns `ReadVarint` of the unread bytes and consumes exactly what it reads: 0 and nothing on an empty scope, never past the scope. |
| ProtoReader.ScopedProtobufReader.NextField | library/src/commonMain/kotlin/com/latenighthack/ktbuf/ProtobufInputStream.kt:65-76 | False, consuming nothing and changing nothing, exactly when the scope is empty. Otherwise the tag is read and the field number (tag >>> 3) and wire type (tag & 7) are set from it. |
| ProtoReader.ScopedProtobufReader.ReadInt32 | library/src/commonMain/kotlin/com/latenighthack/ktbuf/ProtobufInputStream.kt:104 | The varint's low 32 bits as an `Int`. |
| ProtoReader.ScopedProtobufReader.ReadInt64 | library/src/commonMain/kotlin/com/latenighthack/ktbuf/ProtobufInputStream.kt:106 | The varint as a `Long`. |
| ProtoReader.ScopedProtobufReader.ReadUInt32 | library/src/commonMain/kotlin/com/latenighthack/ktbuf/ProtobufInputStream.kt:126 | The varint modulo 2^32. |
| ProtoReader.ScopedProtobufReader.ReadUInt64 | library/src/commonMain/kotlin/com/latenighthack/ktbuf/ProtobufInputStream.kt:128 | The varint. |
| ProtoReader.ScopedProtobufReader.ReadSInt32 | library/src/commonMain/kotlin/com/latenighthack/ktbuf/ProtobufInputStream.kt:108-115 | The ZigZag-decoded low 32 bits. |
| ProtoReader.ScopedProtobufReader.ReadSInt64 | library/src/commonMain/kotlin/com/latenighthack/ktbuf/ProtobufInputStream.kt:117-124 | The ZigZag-decoded varint. |
| ProtoReader.ScopedProtobufReader.ReadBool | library/src/commonMain/kotlin/com/latenighthack/ktbuf/ProtobufInputStream.kt:164 | True exactly when the varint is 1. |
| ProtoReader.ScopedProtobufReader.ReadFixedInt32 | library/src/commonMain/kotlin/com/latenighthack/ktbuf/ProtobufInputStream.kt:130-137 | Consumes exactly 4 bytes and returns their little-endian value. |
| ProtoReader.ScopedProtobufReader.ReadFixedInt64 | library/src/commonMain/kotlin/com/latenighthack/ktbuf/ProtobufInputStream.kt:139-150 | Consumes exactly 8 bytes and returns their little-endian value. |
| ProtoReader.ScopedProtobufReader.ReadSFixedInt32 | library/src/commonMain/kotlin/com/latenighthack/ktbuf/ProtobufInputStream.kt:152 | The 4-byte little-endian value as an `Int`. |
| ProtoReader.ScopedProtobufReader.ReadSFixedInt64 | library/src/commonMain/kotlin/com/latenighthack/ktbuf/ProtobufInputStream.kt:154 | The 8-byte little-endian value as a `Long`. |
| ProtoReader.ScopedProtobufReader.ReadFloat | library/src/commonMain/kotlin/com/latenighthack/ktbuf/ProtobufInputStream.kt:100 | The fixed32 bits, unchanged by the round trip through `Int`. |
| ProtoReader.ScopedProtobufReader.ReadDouble | library/src/commonMain/kotlin/com/latenighthack/ktbuf/ProtobufInputStream.kt:102 | The fixed64 bits. |
| ProtoReader.ScopedProtobufReader.ReadBytes | library/src/commonMain/kotlin/com/latenighthack/ktbuf/ProtobufInputStream.kt:170-173 | Reads a varint length. A negative length gives `None` (the source throws) with only the prefix consumed. Otherwise it returns exactly that many bytes, and the cursor advances past both. |
| ProtoReader.ScopedProtobufReader.ReadString | library/src/commonMain/kotlin/com/latenighthack/ktbuf/ProtobufInputStream.kt:166-168 | The bytes `readBytes` returns, still to be decoded as UTF-8, and `None` exactly where `readBytes` throws. |
| ProtoReader.ScopedProtobufReader.ReadFieldOpen | library/src/commonMain/kotlin/com/latenighthack/ktbuf/ProtobufInputStream.kt:156-159 | Only the length is consumed. For a non-negative length the builder gets a reader over a window of exactly that length on the same store. A negative length gives `None`, the corrected behaviour (see Findings). |
| ProtoReader.ScopedProtobufReader.OpenWindow | library/src/commonMain/kotlin/com/latenighthack/ktbuf/ProtobufInputStream.kt:159 | A sub-reader whose unread bytes are the next `length` bytes. Nothing is consumed. |
| ProtoReader.ScopedProtobufReader.ReadFieldClose | library/src/commonMain/kotlin/com/latenighthack/ktbuf/ProtobufInputStream.kt:159-161 | The parent advances by the declared length, whatever the builder consumed. |
| ProtoReader.ReadFieldEndAsWritten | library/src/commonMain/kotlin/com/latenighthack/ktbuf/ProtobufInputStream.kt:156-162 | Where `readField` as written leaves the cursor: before the end of the length prefix exactly when the length is negative, and past the whole value when it fits. |
| ProtoReader.NegativeLengthRewinds | library/src/commonMain/kotlin/com/latenighthack/ktbuf/ProtobufInputStream.kt:156-162 | On `0A FA FF FF FF 0F` (field 1, length-delimited, length -6) `readField` as written reads six bytes and moves the cursor back to where it started (see Findings). |
| ProtoReader.ScopedProtobufReader.SkipField | library/src/commonMain/kotlin/com/latenighthack/ktbuf/ProtobufInputStream.kt:78-98 | Returns the current field re-encoded, tag included. It consumes the payload for wire types 0, 1, 2 and 5, and for any other type returns an empty array and consumes nothing. A length-delimited field with a negative length gives `None` (the source throws in `readBytes`) with only the length prefix consumed. |
| ProtoReader.ScopedProtobufReader.ReadSkipped | library/src/commonMain/kotlin/com/latenighthack/ktbuf/ProtobufInputStream.kt:82-95 | The `when` over the wire type reads the payload with the matching reader, or nothing for an unknown type. `None` exactly where `readBytes` throws on a negative length. |
| ProtoReader.Rewritten | library/src/commonMain/kotlin/com/latenighthack/ktbuf/ProtobufInputStream.kt:78-98 | A writer on a fresh store writes the skipped field, and its bytes are returned. |
| ProtoReader.ProtobufInputStream.constructor | library/src/commonMain/kotlin/com/latenighthack/ktbuf/ProtobufInputStream.kt:211-213 | A new stream has an empty store and a reader with nothing unread. |
| ProtoReader.ProtobufInputStream.AddBytes | library/src/commonMain/kotlin/com/latenighthack/ktbuf/ProtobufInputStream.kt:215-217 | The added bytes are read after those still unread. |
| RpcStatus.AllCodesListed | library/src/commonMain/kotlin/com/latenighthack/ktbuf/proto/Status.kt:3-22 | Every code is listed, the values are distinct, and each is between 0 and 999. |
| RpcStatus.RetriableCodes | library/src/commonMain/kotlin/com/latenighthack/ktbuf/proto/Status.kt:24-33 | `retriable` is true exactly for UNKNOWN, CLIENT_TIMEOUT, DEADLINE_EXCEEDED, RESOURCE_EXHAUSTED, ABORTED, INTERNAL and UNAVAILABLE. |
| RpcStatus.Codes.Retriable | library/src/commonMain/kotlin/com/latenighthack/ktbuf/proto/Status.kt:24-33 | Definition of `retriable()`. `RetriableCodes` states exactly which codes it holds for. |
| RpcStatus.OrEmpty | library/src/commonMain/kotlin/com/latenighthack/ktbuf/proto/Status.kt:85 | Definition of `message.orEmpty()`. `HttpMessageRecovers` and `FromWSCode` state the messages built with it. |
| RpcStatus.Contains | library/src/commonMain/kotlin/com/latenighthack/ktbuf/proto/Status.kt:46 | Definition of `String.contains`: the pattern occurs at some index. `MentionsWhole` and `MentionsNot` state its cases. |
| RpcStatus.Mentions | library/src/commonMain/kotlin/com/latenighthack/ktbuf/proto/Status.kt:45-46 | Definition of `message?.lowercase()?.contains(word) == true`. `HttpIgnoresCase` and `MentionsWhole` state its properties. |
| RpcStatus.HttpStatusCode | library/src/commonMain/kotlin/com/latenighthack/ktbuf/proto/Status.kt:42-83 | Definition of the HTTP status `when`. `HttpFixedCodes`, `HttpAgreesWithCanonical` and `HttpReachesEveryCode` state what it maps. |
| RpcStatus.WsStatusCode | library/src/commonMain/kotlin/com/latenighthack/ktbuf/proto/Status.kt:89-96 | Definition of the WebSocket close-code `when`. `WsRoundTrip`, `WsUnknown` and `WsExamples` state what it maps. |
| RpcStatus.LowerChar | library/src/commonMain/kotlin/com/latenighthack/ktbuf/proto/Status.kt:45 | ASCII upper-case letters are lowered, and every other character is kept. |
| RpcStatus.Lower | library/src/commonMain/kotlin/com/latenighthack/ktbuf/proto/Status.kt:45 | `lowercase()` lowers character by character and keeps the length. |
| RpcStatus.LowerIdempotent | library/src/commonMain/kotlin/com/latenighthack/ktbuf/proto/Status.kt:45 | Lowering twice is lowering once. |
| RpcStatus.Digits | library/src/commonMain/kotlin/com/latenighthack/ktbuf/proto/Status.kt:85 | A non-negative number's decimal text is digits with no leading zero. |
| RpcStatus.DecimalString | library/src/commonMain/kotlin/com/latenighthack/ktbuf/proto/Status.kt:85 | `"$httpCode"` consists of digits and an optional minus sign. |
| RpcStatus.DigitsRoundTrip | library/src/commonMain/kotlin/com/latenighthack/ktbuf/proto/Status.kt:85 | A number's decimal digits parse back to it. |
| RpcStatus.DecimalRoundTrip | library/src/commonMain/kotlin/com/latenighthack/ktbuf/proto/Status.kt:85 | Every `Int`'s decimal text is well formed and parses back to it. |
| RpcStatus.FromHTTPCode | library/src/commonMain/kotlin/com/latenighthack/ktbuf/proto/Status.kt:41-86 | The code is chosen by the HTTP status `when`. The message is the decimal code, " - ", then the message or "". |
| RpcStatus.HttpFixedCodes | library/src/commonMain/kotlin/com/latenighthack/ktbuf/proto/Status.kt:42-83 | The fixed rows: 200→OK, 401→UNAUTHENTICATED, 403→PERMISSION_DENIED, 404→NOT_FOUND, 408→CLIENT_TIMEOUT, 429→RESOURCE_EXHAUSTED, 499→CANCELLED, 501→UNIMPLEMENTED, 503→UNAVAILABLE, 504→DEADLINE_EXCEEDED. A null message takes the default for 400, 409 and 500. |
| RpcStatus.HttpAgreesWithCanonical | library/src/commonMain/kotlin/com/latenighthack/ktbuf/proto/Status.kt:40-83 | Every code other than UNKNOWN is reached only from its canonical HTTP status. Every unlisted status gives UNKNOWN. |
| RpcStatus.MentionsWhole | library/src/commonMain/kotlin/com/latenighthack/ktbuf/proto/Status.kt:46 | A lower-case word contains itself, case-insensitively. |
| RpcStatus.MentionsNot | library/src/commonMain/kotlin/com/latenighthack/ktbuf/proto/Status.kt:46 | A message shorter than the word, or of equal length starting differently, does not contain it. |
| RpcStatus.HintsMention | library/src/commonMain/kotlin/com/latenighthack/ktbuf/proto/Status.kt:44-77 | The sample messages mention their keywords and not the keywords checked before them. |
| RpcStatus.HttpReachesEveryCode | library/src/commonMain/kotlin/com/latenighthack/ktbuf/proto/Status.kt:42-83 | Every code is produced from its canonical HTTP status with a fitting message. FAILED_PRECONDITION, OUT_OF_RANGE, ALREADY_EXISTS, INTERNAL and DATA_LOSS are reached by the substring checks, in the order written. |
| RpcStatus.HttpIgnoresCase | library/src/commonMain/kotlin/com/latenighthack/ktbuf/proto/Status.kt:44-77 | The code depends on the message only through its lower-cased form. |
| RpcStatus.HttpMessageRecovers | library/src/commonMain/kotlin/com/latenighthack/ktbuf/proto/Status.kt:85 | The message splits at its first space into the decimal code, " - ", and the original message or "". |
| RpcStatus.FirstWithValue | library/src/commonMain/kotlin/com/latenighthack/ktbuf/proto/Status.kt:94 | `firstOrNull` finds a code with the given value, and finds none exactly when no code has it. |
| RpcStatus.FromWSCode | library/src/commonMain/kotlin/com/latenighthack/ktbuf/proto/Status.kt:88-100 | The code is chosen by the WebSocket `when`, and the message passes through with null becoming "". |
| RpcStatus.WsRoundTrip | library/src/commonMain/kotlin/com/latenighthack/ktbuf/proto/Status.kt:92-95 | Close code 4000 + value gives back every code, with the message passed through. |
| RpcStatus.WsUnknown | library/src/commonMain/kotlin/com/latenighthack/ktbuf/proto/Status.kt:89-96 | Any close code other than 1000, 1001 and 4000 + value gives UNKNOWN. |
| RpcStatus.WsExamples | library/src/commonMain/kotlin/com/latenighthack/ktbuf/proto/Status.kt:89-96 | 4100→CLIENT_TIMEOUT, 4017→UNKNOWN and 1001→UNAVAILABLE. |
| Base64.AlphabetByRanges | library/src/commonMain/kotlin/com/latenighthack/ktbuf/bytes/Base64.kt:3 | The alphabet is the 64 characters A-Z, a-z, 0-9, '-', '_' in that order. |
| Base64.InverseAlphabet | library/src/commonMain/kotlin/com/latenighthack/ktbuf/bytes/Base64.kt:4 | The inverse table gives -1 or an index below 64. |
| Base64.InverseIsIndexOf | library/src/commonMain/kotlin/com/latenighthack/ktbuf/bytes/Base64.kt:4 | The inverse table is `indexOf`: -1 for bytes outside the alphabet, otherwise the first position holding the byte. |
| Base64.InverseOfAlphabet | library/src/commonMain/kotlin/com/latenighthack/ktbuf/bytes/Base64.kt:3-4 | Every alphabet character is ASCII and maps back to its position. |
| Base64.GroupValue | library/src/commonMain/kotlin/com/latenighthack/ktbuf/bytes/Base64.kt:13-15 | A group packs three bytes big-endian into 24 bits. |
| Base64.Sextet | library/src/commonMain/kotlin/com/latenighthack/ktbuf/bytes/Base64.kt:16-20 | Each character index is a 6-bit slice. |
| Base64.GroupChars | library/src/commonMain/kotlin/com/latenighthack/ktbuf/bytes/Base64.kt:16-20 | A group yields four characters. |
| Base64.GroupText | library/src/commonMain/kotlin/com/latenighthack/ktbuf/bytes/Base64.kt:12-23 | A full group yields 4 characters. One trailing byte yields 2 and two trailing bytes yield 3. |
| Base64.Digit | library/src/commonMain/kotlin/com/latenighthack/ktbuf/bytes/Base64.kt:39-49 | A decoded digit is below 64. |
| Base64.Octets | library/src/commonMain/kotlin/com/latenighthack/ktbuf/bytes/Base64.kt:51-56 | Unpacking a group gives three bytes. |
| Base64.DecodeGroup | library/src/commonMain/kotlin/com/latenighthack/ktbuf/bytes/Base64.kt:37-57 | A group emits exactly as many bytes as there are valid characters among the three after its first, and at most 3. |
| Base64.SextetAfterShifts | library/src/commonMain/kotlin/com/latenighthack/ktbuf/bytes/Base64.kt:16-20 | After i rounds of `b shl 6`, `b and 0xFC0000 shr 18` is the i-th sextet, even once `b` overflows 32 bits. |
| Base64.OctetAfterShifts | library/src/commonMain/kotlin/com/latenighthack/ktbuf/bytes/Base64.kt:51-56 | After i rounds of `b shl 8`, `b and 0xFF0000 shr 16` is the i-th byte. |
| Base64.OrInto | library/src/commonMain/kotlin/com/latenighthack/ktbuf/bytes/Base64.kt:39-49 | OR-ing a value below a power of two into a multiple of it adds them. |
| Base64.Encode64Step | library/src/commonMain/kotlin/com/latenighthack/ktbuf/bytes/Base64.kt:12-22 | Encoding from a position is the group there followed by encoding from three further on. |
| Base64.EncodeLoopStep | library/src/commonMain/kotlin/com/latenighthack/ktbuf/bytes/Base64.kt:12-22 | One loop round keeps the invariant that the output so far plus the encoding of the rest is the whole encoding. |
| Base64.ToBase64String | library/src/commonMain/kotlin/com/latenighthack/ktbuf/bytes/Base64.kt:8-25 | The loop returns exactly `Encode64` of the bytes. |
| Base64.EncodeGroupAt | library/src/commonMain/kotlin/com/latenighthack/ktbuf/bytes/Base64.kt:13-21 | One round appends the group's characters. `padding` counts the missing bytes. |
| Base64.DecodeStep | library/src/commonMain/kotlin/com/latenighthack/ktbuf/bytes/Base64.kt:29-58 | A byte outside the alphabet at a group start is skipped alone. A group start decodes its group and moves on by 4. |
| Base64.DecodeBase64 | library/src/commonMain/kotlin/com/latenighthack/ktbuf/bytes/Base64.kt:27-60 | The loop returns exactly `Decode` of the bytes. |
| Base64.DigitsAt | library/src/commonMain/kotlin/com/latenighthack/ktbuf/bytes/Base64.kt:39-49 | Each of the three following positions contributes its digit and a count of 1 only when it is in range and in the alphabet. |
| Base64.PackGroup | library/src/commonMain/kotlin/com/latenighthack/ktbuf/bytes/Base64.kt:33-50 | The three conditional ORs give the group value and the count of valid characters. |
| Base64.UnpackGroup | library/src/commonMain/kotlin/com/latenighthack/ktbuf/bytes/Base64.kt:51-56 | The count loop appends the first `count` bytes of the group, high first. |
| Base64.CharBytes | library/src/commonMain/kotlin/com/latenighthack/ktbuf/bytes/Base64.kt:6 | A character encodes to 1 to 4 UTF-8 bytes. ASCII is itself, and every byte of a non-ASCII character is at least 0x80. |
| Base64.Utf8 | library/src/commonMain/kotlin/com/latenighthack/ktbuf/bytes/Base64.kt:6 | `encodeToByteArray` gives at least one byte per character. |
| Base64.Utf8Append | library/src/commonMain/kotlin/com/latenighthack/ktbuf/bytes/Base64.kt:6 | UTF-8 of a concatenation is the concatenation of the encodings. |
| Base64.Utf8OfAscii | library/src/commonMain/kotlin/com/latenighthack/ktbuf/bytes/Base64.kt:6 | ASCII text encodes byte for byte. |
| Base64.NonAsciiBytesAreNoDigits | library/src/commonMain/kotlin/com/latenighthack/ktbuf/bytes/Base64.kt:4 | Bytes of non-ASCII characters are never base64 digits, so the decoder skips them. |
| Base64.FromBase64String | library/src/commonMain/kotlin/com/latenighthack/ktbuf/bytes/Base64.kt:6 | `decodeBase64` of the string's UTF-8 bytes. |
| Base64.EncodedLength | library/src/commonMain/kotlin/com/latenighthack/ktbuf/bytes/Base64.kt:12-23 | The output length is ceil(4n/3): 4 per full group, plus 2 or 3 for one or two trailing bytes. |
| Base64.GroupTextDigits | library/src/commonMain/kotlin/com/latenighthack/ktbuf/bytes/Base64.kt:16-20 | Each output character is the alphabet entry of the matching 6-bit slice, high first, of the group's 24-bit big-endian value. |
| Base64.EncodedInAlphabet | library/src/commonMain/kotlin/com/latenighthack/ktbuf/bytes/Base64.kt:16-20 | Every output character is in the base64url alphabet, and no '=' padding is ever emitted. |
| Base64.SextetsJoin | library/src/commonMain/kotlin/com/latenighthack/ktbuf/bytes/Base64.kt:16-20 | The four sextets put back together are the group value. |
| Base64.ShortGroupSextets | library/src/commonMain/kotlin/com/latenighthack/ktbuf/bytes/Base64.kt:14-15 | Missing bytes leave the trailing sextets zero. |
| Base64.OctetsOfGroup | library/src/commonMain/kotlin/com/latenighthack/ktbuf/bytes/Base64.kt:51-56 | Unpacking a packed group gives its three bytes. |
| Base64.DecodeGroupText | library/src/commonMain/kotlin/com/latenighthack/ktbuf/bytes/Base64.kt:8-60 | A group's characters decode to the group's bytes. |
| Base64.RoundTrip | library/src/commonMain/kotlin/com/latenighthack/ktbuf/bytes/Base64.kt:8-60 | For every byte array, `decodeBase64` of the UTF-8 bytes of `toBase64String` is the array. |
| Equality.ListOfBytesEquals | library/src/commonMain/kotlin/com/latenighthack/ktbuf/bytes/Equality.kt:3-12 | True exactly when the lengths are equal and the arrays are pairwise content-equal. The same list is equal, different lengths are unequal, and one differing index makes it false. |
| Equality.SameContentsEquivalence | library/src/commonMain/kotlin/com/latenighthack/ktbuf/bytes/Equality.kt:3-12 | The relation is reflexive, symmetric and transitive. |

## Left out

- Float and Double encoding and decoding (`toRawBits`, `fromBits`): a float or double is carried as its IEEE 754 bit pattern, and the conversion itself is not modelled. `ProtoReader.ScopedProtobufReader.ReadFloat` and `ReadDouble` return those bits.
- `String.encodeToByteArray()` in `encode(String)`: a string field is modelled by its UTF-8 bytes (`Value.Str`). `ProtoReader.ScopedProtobufReader.ReadString` returns the bytes without decoding them (`decodeToString` is a library call).
- Base64.Utf8: Dafny characters are Unicode scalar values, so a lone UTF-16 surrogate, which Kotlin replaces while encoding, cannot occur in the model.
- RpcStatus.Lower: `lowercase()` is modelled for ASCII letters only. Other scripts' case mappings are not modelled.
- Malformed varints: over-long (more than ten groups) or truncated varints hit Kotlin's shift-by-64-or-more and the partial OR after the loop. `Wire.ReadVarint` follows the loop as written, but the round-trip lemmas cover only well-formed input.
- Sizes and offsets are unbounded integers. A Kotlin `Int` overflow of `cachedSize`, `length` or `tipOffset` (content beyond 2^31 bytes) is not modelled. `ProtoWriter.ScopedProtobufWriter.Run` and `EncodeMessage` require content below 2^31 bytes, as `sizeofVarint32` assumes.
- Reads past the end of a scope: `advance`, `read`, `readAdvance` and the window's `copyTo` do not check bounds. A read that would leave the array is a precondition rather than an exception. Reader-level reads require their bytes to lie within the scope, since a window read past its end would read the parent's bytes.
- The `MutableLinkedByteArray(bufferSize)` factory and the `LinkedByteArray` interfaces are not part of this model. The factory is taken to make a `ConcreteLinkedByteArray`, and default arguments to mean "at the logical end", "from offset 0 of the source", "into offset 0 of the destination" and "the whole array", as listed under the modelling conventions above.
- Builder lambdas are represented by the list of calls they make (`seq<Op>` for the writer; the caller's own calls between `ReadFieldOpen` and `ReadFieldClose` for the reader). Arbitrary Kotlin code inside a builder, and `ProtobufInputStream.read(builder)`, which only applies the builder, are not modelled.
- Base64.EncodeGroupAt, Base64.PackGroup, Base64.UnpackGroup and Base64.OrInto are the bodies of the two Base64 loops, factored out. They are not separate Kotlin functions.
- Base64.DecodeBase64 and Base64.FromBase64String: the output list is a `seq<byte>` rather than a fresh `ByteArray`. `toBase64String`'s `mutableListOf<Char>` is likewise a `string`.
- Equality.ListOfBytesEquals: the identity test `a === b` is modelled as the two lists holding the same arrays in the same order. Identity of the list objects themselves is not visible.
- LinkedBytes.ConcreteLinkedByteArray.WriteByte and Write: the model grows the buffer to `targetSize * 4 / 3` (`GrownCapacity`). The source grows it to `cachedSize * 4 / 3` and then throws whenever `buffer.size < targetSize && cachedSize * 4 / 3 < targetSize`; that throw is not modelled. The writer contracts built on them (`ScopedProtobufWriter.WriteBytes`, `EncodeBytes`, `Encode`, `Run`, `EncodeMessage` and `ProtobufOutputStream.Write`) inherit the corrected growth, and so do `ProtoReader.ScopedProtobufReader.SkipField` and `ProtoReader.Rewritten`, which write the skipped field again (`ReadSkipped` only reads): on the fresh 20480-byte store of `skipField`, the source throws for a length-delimited payload of about 20477 bytes or more. `WriteGrowthAsWritten` and `WriteFitsAsWritten` state the growth as written.
- ProtoReader.ScopedProtobufReader.ReadFieldOpen and ReadFieldClose: a negative length gives no window (`None`), and `ReadFieldClose` takes a non-negative length. The source opens a window of negative size and its `advance` moves the cursor back, which `ReadFieldEndAsWritten` and `NegativeLengthRewinds` state. `ReadBytes`, `ReadString`, `SkipField` and `ReadSkipped` return `None` where the source throws on a negative length.
- `ProtoConstants.Flags`, the `ProtobufWriter`/`ProtobufReader` interfaces and `currentFieldNumber`'s private setter have no behaviour beyond what the classes above model.

## Findings

| source | as written | input that shows it | evidently intended | confidence | as-written member | corrected member |
|---|---|---|---|---|---|---|
| library/src/commonMain/kotlin/com/latenighthack/ktbuf/bytes/ConcreteLinkedByteArray.kt:18-20, 29-31 | Both `write` overloads grow the buffer to `cachedSize * 4 / 3`, computed from the size before the write. That can be smaller than `targetSize`, or even smaller than the current buffer, so the `copyInto` that follows runs past the end of the array. | A fresh `ProtobufOutputStream()` (8192 bytes) encoding a 10000-byte `ByteArray` as field 1. The tag and two-byte length make `cachedSize` 3, the payload write wants 10003 bytes, and the buffer is reallocated to 4. | Grow to `targetSize * 4 / 3`, as `insert` does at lines 38-42, so the new buffer always holds the write. The model's `WriteByte` and `Write` use this. | not executed | LinkedBytes.WriteGrowthTooSmall | LinkedBytes.GrownCapacity |
| library/src/commonMain/kotlin/com/latenighthack/ktbuf/ProtobufInputStream.kt:156-162 | `readField` reads the length with `readInt32`, which is negative for a prefix with bit 31 set, and then calls `subarray(0, expectedLength)` and `advance(expectedLength)` unchecked. A negative length opens a window of negative size and moves the cursor back. | `0A FA FF FF FF 0F`: tag 0x0A (field 1, length-delimited), then the varint of 0xFFFFFFFA, which is -6 as an `Int`. Six bytes are read, then the cursor moves back six, to the tag, and a `while (nextField())` loop reads this field forever. | Refuse a negative length (as `readBytes` does by throwing in `copyOfRange`) instead of opening the window. The model's `ReadFieldOpen` returns `None` for it. | not executed | ProtoReader.NegativeLengthRewinds | ProtoReader.ScopedProtobufReader.ReadFieldOpen |
