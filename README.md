# Delta Lake deletion vectors in Trino: a verified model

This project models the codec that Trino's Delta Lake connector uses for deletion vectors
(`io.trino.plugin.deltalake.delete.DeletionVectors`). A deletion vector is the set of row
positions deleted from a data file.

**Writing.** `writeDeletionVectors` merges three position sets into one 32-bit RoaringBitmap.
It then serializes the bitmap into the portable payload:

- the magic number;
- a segment count of one;
- key 0;
- the bitmap.

All payload fields are little-endian. The payload is wrapped in an envelope: a version byte,
a big-endian size, the payload, and its big-endian CRC-32. The envelope is stored in a file
named after a fresh UUID. The method returns a descriptor that holds:

- the storage type `u`;
- the Base85 text of the UUID;
- offset 1;
- the size;
- the recorded cardinality.

**Reading.** `readDeletionVectors` dispatches on the storage type and resolves the file name
from the descriptor. It checks the size and the checksum of the envelope, decodes the payload
segment by segment, and checks the decoded cardinality.

**Modules.** The model follows the source file:

- `DeletionVectors`: the class's methods as imperative Dafny. There are loops with invariants
  where the Java loops: the `forEach` merges, the segment loop, and the loop that adds a
  bitmap's values. Buffers and streams are classes whose methods update their fields. Each
  method is proved against a specification function: `WriteOutcome`, `ReadOutcome`,
  `ReadEnvelope`, `DecodePayload` or `MergedBitmap`.
- `DeletionVectorFormat`: the pure definitions of the envelope, the payload, the checksum and
  the merge, with their round trips and error cases.
- `DeletionVectorNames`: `encodeUuid`, `decodeUuid`, `toFileName` and the data file name.
- `Base85Codec`, `Roaring`, `Crc32`, `JavaUuid`, `JavaIo`, `ByteOrder`, `ByteValues` and
  `Results`: concrete stand-ins for the libraries the class calls. They are defined in Dafny so
  that every property is proved rather than assumed.

**Facts of the code that the model keeps:**

- The size and checksum fields of the envelope are written with `DataOutputStream.writeInt`
  (lines 101-103), so both are big-endian, while the bitmap header inside the payload is
  little-endian.
- The recorded cardinality is the sum of the three input cardinalities (line 91), not the size
  of their union. `WriteThenRead` proves the consequence: reading back what was written gives
  the written positions exactly when the three sets are pairwise disjoint. Otherwise the read
  fails with a cardinality mismatch, because the sum exceeds the number of distinct positions.
- `sizeInBytes` is a Java `int` sum and is modelled with 32-bit wrap-around. A wrapped size
  that is not positive fails `checkArgument` (IllegalArgument). A positive size that is too
  small fails the buffer put (BufferOverflow).

## Model

All source paths are in `plugin/trino-delta-lake/src/main/java/io/trino/plugin/deltalake/delete/`.

| member | source | states |
|---|---|---|
| `DeletionVectors.ReadDeletionVectors` | plugin/trino-delta-lake/src/main/java/io/trino/plugin/deltalake/delete/DeletionVectors.java:60-76 | Its result is exactly `ReadOutcome` of the files present: same success, same error. |
| `DeletionVectors.ReadOutcome` | plugin/trino-delta-lake/src/main/java/io/trino/plugin/deltalake/delete/DeletionVectors.java:60-76 | A read succeeds only for storage type `u`. The decoded set then has exactly the descriptor's cardinality and holds only ints. Types `i` and `p` fail as not supported, naming the type. Any other type fails with IllegalArgument. |
| `DeletionVectors.MissingOffsetRefused` | plugin/trino-delta-lake/src/main/java/io/trino/plugin/deltalake/delete/DeletionVectors.java:63-65 | A `u` descriptor without an offset fails. The file name is resolved first, so its error comes first; otherwise the failure is the missing offset. |
| `DeletionVectors.WriteDeletionVectors` | plugin/trino-delta-lake/src/main/java/io/trino/plugin/deltalake/delete/DeletionVectors.java:78-107 | The write fails exactly when `WriteOutcome` fails, with the same error, and no file is created. On success it returns `WriteOutcome`'s descriptor. The only change to the file system is the new file, which holds the envelope. |
| `DeletionVectors.WriteOutcome` | plugin/trino-delta-lake/src/main/java/io/trino/plugin/deltalake/delete/DeletionVectors.java:86-106 | A written descriptor has storage type `u` and offset 1. Its file sits under the location, named after the UUID. Its cardinality is the positive sum of the three cardinalities. |
| `DeletionVectors.WriteEnvelope` | plugin/trino-delta-lake/src/main/java/io/trino/plugin/deltalake/delete/DeletionVectors.java:98-104 | The offset taken after the version byte is 1. Closing the stream stores the version, the size, the data and the data's checksum under the path. |
| `DeletionVectors.WrittenLayout` | plugin/trino-delta-lake/src/main/java/io/trino/plugin/deltalake/delete/DeletionVectors.java:90-104 | A written file is the version byte 1 followed by the big-endian recorded size at offset 1. That size exceeds the 16 header bytes. The file is size + 9 bytes long, and the payload after the size field decodes. |
| `DeletionVectors.WriteSucceedsIff` | plugin/trino-delta-lake/src/main/java/io/trino/plugin/deltalake/delete/DeletionVectors.java:89-97 | A write succeeds if and only if all of these hold: every position fits an int; the past cardinality fits an int; there is at least one position; the payload size fits an int. |
| `DeletionVectors.WriteRefused` | plugin/trino-delta-lake/src/main/java/io/trino/plugin/deltalake/delete/DeletionVectors.java:89-94 | A position outside the int range fails the write with IntOverflow (toIntExact). Three empty sets fail it with IllegalArgument (cardinality > 0). |
| `DeletionVectors.WriteThenRead` | plugin/trino-delta-lake/src/main/java/io/trino/plugin/deltalake/delete/DeletionVectors.java:60-107 | Reading a written vector through the returned descriptor gives the union of the written positions when the three sets are pairwise disjoint. Otherwise it gives CardinalityMismatch(sum, size of the union). |
| `DeletionVectors.SerializeAsByteArray` | plugin/trino-delta-lake/src/main/java/io/trino/plugin/deltalake/delete/DeletionVectors.java:109-117 | A negative size fails with IllegalArgument. Otherwise the serialization succeeds exactly when the payload fits, and fails with BufferOverflow when it does not. The array has sizeInBytes bytes: the payload first, zeros after it. |
| `DeletionVectors.PutHeader` | plugin/trino-delta-lake/src/main/java/io/trino/plugin/deltalake/delete/DeletionVectors.java:111-114 | The three header puts succeed exactly when 16 bytes fit. They leave the magic, the count 1 and key 0 at the front, with the rest still zero. |
| `DeletionVectors.ToRoaringBitmap` | plugin/trino-delta-lake/src/main/java/io/trino/plugin/deltalake/delete/DeletionVectors.java:119-126 | The merge succeeds exactly when every position fits an int, and otherwise fails with IntOverflow. The bitmap is well formed, holds the unsigned image of the union, and equals `MergedBitmap`. |
| `DeletionVectors.AddAll` | plugin/trino-delta-lake/src/main/java/io/trino/plugin/deltalake/delete/DeletionVectors.java:122-124 | One `forEach` of adds succeeds exactly when every position fits an int, and otherwise fails with IntOverflow. The bitmap grows by the unsigned image of the positions. |
| `DeletionVectors.DeserializeDeletionVectors` | plugin/trino-delta-lake/src/main/java/io/trino/plugin/deltalake/delete/DeletionVectors.java:167-191 | The loop over the buffer returns exactly `DecodePayload` of the bytes. |
| `DeletionVectors.ReadSegment` | plugin/trino-delta-lake/src/main/java/io/trino/plugin/deltalake/delete/DeletionVectors.java:177-186 | One pass of the loop fails exactly when `ReadSegmentAt` fails, with the same error. Otherwise it adds the segment's positions and leaves the cursor after the bitmap. |
| `DeletionVectors.AddValues` | plugin/trino-delta-lake/src/main/java/io/trino/plugin/deltalake/delete/DeletionVectors.java:182 | Adding a bitmap's stream adds exactly its values read as signed ints. |
| `DeletionVectors.ReadDeletionVector` | plugin/trino-delta-lake/src/main/java/io/trino/plugin/deltalake/delete/DeletionVectors.java:139-156 | The stream reads return exactly `ReadEnvelope` of the file, the offset and the expected size. |
| `DeletionVectorFormat.ReadEnvelope` | plugin/trino-delta-lake/src/main/java/io/trino/plugin/deltalake/delete/DeletionVectors.java:139-156 | A successful read returns expectedSize bytes, and the file holds the whole envelope from the offset on. |
| `DeletionVectorFormat.Envelope` | plugin/trino-delta-lake/src/main/java/io/trino/plugin/deltalake/delete/DeletionVectors.java:99-103 | The envelope is nine bytes longer than its payload. |
| `DeletionVectorFormat.EnvelopeFields` | plugin/trino-delta-lake/src/main/java/io/trino/plugin/deltalake/delete/DeletionVectors.java:99-103 | The version byte is at 0, the big-endian size at 1..5, the payload next, and the big-endian checksum last. |
| `DeletionVectorFormat.EnvelopeRoundTrip` | plugin/trino-delta-lake/src/main/java/io/trino/plugin/deltalake/delete/DeletionVectors.java:142-155 | Reading an envelope at offset 1 with its recorded size returns the payload. |
| `DeletionVectorFormat.SizeMismatchFirst` | plugin/trino-delta-lake/src/main/java/io/trino/plugin/deltalake/delete/DeletionVectors.java:145-148 | A stored size that differs from the expected one fails with SizeMismatch(expected, actual), whatever follows the size field. |
| `DeletionVectorFormat.ChecksumMismatchIff` | plugin/trino-delta-lake/src/main/java/io/trino/plugin/deltalake/delete/DeletionVectors.java:149-153 | Once the size matches and the file is long enough, the read fails with ChecksumMismatch if and only if the stored checksum differs from the payload's. Otherwise it returns the payload. |
| `DeletionVectorFormat.TooShortFails` | plugin/trino-delta-lake/src/main/java/io/trino/plugin/deltalake/delete/DeletionVectors.java:144-150 | A file too short for offset + 8 + size fails. The error is the skip check, end of stream, or a size mismatch. |
| `DeletionVectorFormat.CorruptedPayloadRefused` | plugin/trino-delta-lake/src/main/java/io/trino/plugin/deltalake/delete/DeletionVectors.java:150-153 | Changing any one payload byte of a written envelope makes the read fail with ChecksumMismatch. |
| `DeletionVectorFormat.CalculateChecksum` | plugin/trino-delta-lake/src/main/java/io/trino/plugin/deltalake/delete/DeletionVectors.java:158-165 | The checksum is an int congruent modulo 2^32 to the CRC-32 value (the `(int)` cast). |
| `DeletionVectorFormat.CalculateChecksumCheckValue` | plugin/trino-delta-lake/src/main/java/io/trino/plugin/deltalake/delete/DeletionVectors.java:162-164 | The checksum of "123456789" is 0xCBF43926 read as a negative int. |
| `DeletionVectorFormat.ChecksumDetectsOneByte` | plugin/trino-delta-lake/src/main/java/io/trino/plugin/deltalake/delete/DeletionVectors.java:158-165 | Data differing in exactly one byte have different checksums. |
| `DeletionVectorFormat.PayloadSize` | plugin/trino-delta-lake/src/main/java/io/trino/plugin/deltalake/delete/DeletionVectors.java:90 | The payload is longer than the 16 header bytes. |
| `DeletionVectorFormat.Payload` | plugin/trino-delta-lake/src/main/java/io/trino/plugin/deltalake/delete/DeletionVectors.java:111-115 | The payload's length is exactly the computed payload size. |
| `DeletionVectorFormat.ReadSegmentAt` | plugin/trino-delta-lake/src/main/java/io/trino/plugin/deltalake/delete/DeletionVectors.java:177-186 | After a segment is read, the cursor has moved forward and stays within the bytes. Its positions are ints. |
| `DeletionVectorFormat.DecodePayload` | plugin/trino-delta-lake/src/main/java/io/trino/plugin/deltalake/delete/DeletionVectors.java:167-191 | A wrong magic fails as BadMagic, naming the value read. A decoded set holds only ints. |
| `DeletionVectorFormat.SegmentsAreInts` | plugin/trino-delta-lake/src/main/java/io/trino/plugin/deltalake/delete/DeletionVectors.java:176-187 | Every position the segment loop gathers is an int. |
| `DeletionVectorFormat.DecodeSegmentsUnion` | plugin/trino-delta-lake/src/main/java/io/trino/plugin/deltalake/delete/DeletionVectors.java:172-188 | Any number of segments with non-negative keys decodes to the union of their positions, whatever follows them. |
| `DeletionVectorFormat.DecodePayloadRoundTrip` | plugin/trino-delta-lake/src/main/java/io/trino/plugin/deltalake/delete/DeletionVectors.java:109-117 | The payload of a bitmap decodes to its values read as signed ints. |
| `DeletionVectorFormat.NegativeKeyRefused` | plugin/trino-delta-lake/src/main/java/io/trino/plugin/deltalake/delete/DeletionVectors.java:177-178 | A negative segment key fails with NegativeKey(key). |
| `DeletionVectorFormat.NonPositiveCountEmpty` | plugin/trino-delta-lake/src/main/java/io/trino/plugin/deltalake/delete/DeletionVectors.java:174-176 | A segment count of zero or less decodes to no positions. |
| `DeletionVectorFormat.MergedBitmap` | plugin/trino-delta-lake/src/main/java/io/trino/plugin/deltalake/delete/DeletionVectors.java:119-126 | The merge can fail only with IntOverflow. |
| `DeletionVectorFormat.UnsignedImage` | plugin/trino-delta-lake/src/main/java/io/trino/plugin/deltalake/delete/DeletionVectors.java:122 | Every value `RoaringBitmap.add` stores is an unsigned 32-bit word. |
| `DeletionVectorFormat.SignedValuesOfMerged` | plugin/trino-delta-lake/src/main/java/io/trino/plugin/deltalake/delete/DeletionVectors.java:119-126 | Reading the merged bitmap's values back as signed ints gives exactly the merged positions. |
| `DeletionVectorFormat.UnsignedImageSize` | plugin/trino-delta-lake/src/main/java/io/trino/plugin/deltalake/delete/DeletionVectors.java:119-126 | The merged bitmap holds one value per distinct position. |
| `DeletionVectorFormat.CardinalitySumIffDisjoint` | plugin/trino-delta-lake/src/main/java/io/trino/plugin/deltalake/delete/DeletionVectors.java:91 | The recorded sum of cardinalities equals the size of the union if and only if the three sets are pairwise disjoint. |
| `DeletionVectorNames.EncodeUuid` | plugin/trino-delta-lake/src/main/java/io/trino/plugin/deltalake/delete/DeletionVectors.java:193-200 | An encoded UUID is always 20 characters long. |
| `DeletionVectorNames.DecodeUuid` | plugin/trino-delta-lake/src/main/java/io/trino/plugin/deltalake/delete/DeletionVectors.java:202-210 | Text that is not 20 characters long fails. Text whose length is not a multiple of 5 fails with IllegalArgument. A result is a valid UUID. |
| `DeletionVectorNames.UuidBytesRoundTrip` | plugin/trino-delta-lake/src/main/java/io/trino/plugin/deltalake/delete/DeletionVectors.java:195-208 | Reading the two big-endian longs back from the 16 bytes gives the UUID's halves. |
| `DeletionVectorNames.DecodeEncodeUuid` | plugin/trino-delta-lake/src/main/java/io/trino/plugin/deltalake/delete/DeletionVectors.java:193-210 | Decoding an encoded UUID returns that UUID. |
| `DeletionVectorNames.ToFileName` | plugin/trino-delta-lake/src/main/java/io/trino/plugin/deltalake/delete/DeletionVectors.java:128-137 | Text shorter than 20 characters fails with IndexOutOfBounds. A random prefix that is not alphanumeric fails with IllegalArgument. |
| `DeletionVectorNames.ToFileNameOfEncoded` | plugin/trino-delta-lake/src/main/java/io/trino/plugin/deltalake/delete/DeletionVectors.java:128-137 | An alphanumeric prefix followed by an encoded UUID names `prefix/deletion_vector_<uuid>.bin`. An empty prefix names `deletion_vector_<uuid>.bin`. |
| `DeletionVectorNames.ToFileNameOfWritten` | plugin/trino-delta-lake/src/main/java/io/trino/plugin/deltalake/delete/DeletionVectors.java:86-88 | The descriptor's `pathOrInlineDv` resolves to exactly the file name the write used. |
| `DeletionVectorNames.DataFileName` | plugin/trino-delta-lake/src/main/java/io/trino/plugin/deltalake/delete/DeletionVectors.java:87 | A data file name is 56 characters long. |
| `DeletionVectorNames.DataFileNameInjective` | plugin/trino-delta-lake/src/main/java/io/trino/plugin/deltalake/delete/DeletionVectors.java:86-87 | Distinct UUIDs give distinct file names. |
| `Base85Codec.Encode` | plugin/trino-delta-lake/src/main/java/io/trino/plugin/deltalake/delete/DeletionVectors.java:199 | Every four bytes become five characters. |
| `Base85Codec.Decode` | plugin/trino-delta-lake/src/main/java/io/trino/plugin/deltalake/delete/DeletionVectors.java:204 | A length that is not a multiple of 5 fails with IllegalArgument. Every five characters become four bytes. |
| `Base85Codec.DecodeEncode` | plugin/trino-delta-lake/src/main/java/io/trino/plugin/deltalake/delete/DeletionVectors.java:199-204 | Decoding an encoding returns the bytes. |
| `Base85Codec.DigitsRoundTrip` | plugin/trino-delta-lake/src/main/java/io/trino/plugin/deltalake/delete/DeletionVectors.java:199-204 | The k base-85 digits of a number below 85^k decode back to it. |
| `Roaring.Add` | plugin/trino-delta-lake/src/main/java/io/trino/plugin/deltalake/delete/DeletionVectors.java:122 | Adding keeps the bitmap well formed and adds exactly the value to its contents. |
| `Roaring.FromSet` | plugin/trino-delta-lake/src/main/java/io/trino/plugin/deltalake/delete/DeletionVectors.java:121-125 | The bitmap of a set of words is well formed, holds exactly that set, and has one entry per element. |
| `Roaring.AscendingUnique` | plugin/trino-delta-lake/src/main/java/io/trino/plugin/deltalake/delete/DeletionVectors.java:121-125 | Two well-formed bitmaps with the same contents are equal, whatever order they were filled in. |
| `Roaring.Serialize` | plugin/trino-delta-lake/src/main/java/io/trino/plugin/deltalake/delete/DeletionVectors.java:115 | The serialized bitmap is exactly serializedSizeInBytes long. |
| `Roaring.Deserialize` | plugin/trino-delta-lake/src/main/java/io/trino/plugin/deltalake/delete/DeletionVectors.java:181 | A deserialized bitmap is well formed, and its serialized size fits in the bytes from the read position. |
| `Roaring.DeserializeSerialize` | plugin/trino-delta-lake/src/main/java/io/trino/plugin/deltalake/delete/DeletionVectors.java:181-186 | Deserializing a serialized bitmap returns it, whatever surrounds it. |
| `Crc32.CheckValue` | plugin/trino-delta-lake/src/main/java/io/trino/plugin/deltalake/delete/DeletionVectors.java:162-163 | The CRC-32 register gives the standard check value 0xCBF43926 for "123456789". |
| `Crc32.ValueDetectsOneByte` | plugin/trino-delta-lake/src/main/java/io/trino/plugin/deltalake/delete/DeletionVectors.java:162-164 | Data differing in exactly one byte have different CRC-32 values. |
| `ByteOrder.WrapInt32` | plugin/trino-delta-lake/src/main/java/io/trino/plugin/deltalake/delete/DeletionVectors.java:90 | The int sum is congruent to the true sum modulo 2^32 and equal to it when the true sum fits. |
| `ByteOrder.Be32RoundTrip` | plugin/trino-delta-lake/src/main/java/io/trino/plugin/deltalake/delete/DeletionVectors.java:101-103 | `readInt` of what `writeInt` wrote returns the int. |
| `ByteOrder.ReadBe32Inverse` | plugin/trino-delta-lake/src/main/java/io/trino/plugin/deltalake/delete/DeletionVectors.java:145 | Any four bytes are the big-endian form of the int read from them. |
| `ByteOrder.Le32RoundTrip` | plugin/trino-delta-lake/src/main/java/io/trino/plugin/deltalake/delete/DeletionVectors.java:112-114 | `getInt` of what `putInt` wrote returns the int, wherever it sits. |
| `ByteOrder.Le64RoundTrip` | plugin/trino-delta-lake/src/main/java/io/trino/plugin/deltalake/delete/DeletionVectors.java:113 | `getLong` of what `putLong` wrote returns the long, wherever it sits. |
| `JavaIo.SkipCount` | plugin/trino-delta-lake/src/main/java/io/trino/plugin/deltalake/delete/DeletionVectors.java:144 | A skip never exceeds what is left. It skips exactly n bytes if and only if 0 <= n <= what is left. |
| `JavaIo.ByteBuffer.Put` | plugin/trino-delta-lake/src/main/java/io/trino/plugin/deltalake/delete/DeletionVectors.java:115 | A put succeeds exactly when the bytes fit the remaining space, writes them at the position, and advances the position. Otherwise it fails with BufferOverflow and changes nothing. |
| `JavaIo.ByteBuffer.GetInt` | plugin/trino-delta-lake/src/main/java/io/trino/plugin/deltalake/delete/DeletionVectors.java:172 | A get succeeds exactly when four bytes remain, returns the little-endian int at the position, and advances the position by 4. |
| `JavaIo.DataInputStream.ReadFully` | plugin/trino-delta-lake/src/main/java/io/trino/plugin/deltalake/delete/DeletionVectors.java:149 | `readFully` fills the whole array from the stream or fails at end of stream. |
| `JavaIo.FileSystem.Create` | plugin/trino-delta-lake/src/main/java/io/trino/plugin/deltalake/delete/DeletionVectors.java:98-104 | After the stream closes, the path holds what was written and no other file changes. |
| `JavaIo.AppendPath` | plugin/trino-delta-lake/src/main/java/io/trino/plugin/deltalake/delete/DeletionVectors.java:64 | The child path starts with the location and ends with the name, with at most one separator added between them. |
| `JavaIo.AppendPathInjective` | plugin/trino-delta-lake/src/main/java/io/trino/plugin/deltalake/delete/DeletionVectors.java:64 | Two names under the same location give the same path only when they are equal, so a read resolves to the file written under its name. |
| `JavaUuid.ToStringInjective` | plugin/trino-delta-lake/src/main/java/io/trino/plugin/deltalake/delete/DeletionVectors.java:87 | Distinct UUIDs have distinct canonical texts. |

## Left out

- The libraries the class calls are not part of this model. Concrete stand-ins replace them, so
  the model proves properties of these definitions, not of the libraries:
  - `Base85Codec` is the Z85 alphabet of ZeroMQ RFC 32, with four big-endian bytes per five
    characters. Decoding refuses a length that is not a multiple of 5 and any character outside
    the alphabet. A five-character group above 2^32 - 1 keeps its low 32 bits.
  - `RoaringBitmap` is an ascending sequence of distinct unsigned 32-bit values. Its wire form is
    a little-endian count followed by the little-endian values, not the portable Roaring
    container format (containers, cookie, run encoding). The deletion-vector framing around it
    (magic, segment count, key, manual cursor advance by `serializedSizeInBytes`) is modelled
    exactly.
  - `CRC32` is the bitwise reflected CRC-32, polynomial 0xEDB88320.
  - `UUID.toString` is the 8-4-4-4-12 lower-case hexadecimal text.
- `Roaring64Bitmap` and `LongBitmapDataProvider` are sets of positions. The order in which
  `forEach` and `stream()` visit values is not captured; the results do not depend on it.
- `randomUUID()` (line 86) is a parameter of the write.
- `TrinoFileSystem` is a map from paths to bytes.
  - `create()` followed by closing the stream is one store at close. Failures of `create` for an
    existing file are not modelled.
  - `Location.appendPath` is modelled only as joining with `/`, without further normalisation.
- `DeletionVectorNames.ToFileName`: descriptor lengths and the prefix split are counted in
  characters (Unicode scalar values), not in Java's UTF-16 code units. A descriptor holding a
  character outside the Basic Multilingual Plane can therefore fail with a different error kind
  than in Java; well-formed descriptors, which are ASCII, behave the same.
- IOExceptions of the file system, the closing of streams, and the texts of exception messages
  are left out. Every exception becomes an error value of `Results.Error`.
- `InputStream.skip` skips min(n, available) bytes and 0 for n <= 0. A real stream may skip
  fewer bytes; the model does not cover that.
- The byte-order `checkArgument` at line 171 always holds and has no modelled branch.
- `WriteOutcome`: the cardinality sum at line 91 is the unbounded sum. A Java `long` would wrap
  only beyond 2^63 positions, which no finite position set in memory can reach.
- `PATH_MARKER` and `INLINE_MARKER` descriptors are only dispatched to their errors, as in the
  code. Reading such vectors is not implemented in the source either.
