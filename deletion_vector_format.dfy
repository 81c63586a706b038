/** The on-disk format of a Delta Lake deletion vector as the Trino codec writes and reads it:
    the payload (portable Roaring container: magic, segment count, then key and bitmap per
    segment, all little-endian), the envelope around it (version byte, big-endian size, payload,
    big-endian CRC-32), and the merged set of deleted row positions it stores. */
module DeletionVectorFormat {
  import opened Results
  import opened ByteOrder
  import opened Roaring
  import Crc32
  import JavaIo

  const PORTABLE_ROARING_BITMAP_MAGIC_NUMBER: int := 1681511377
  const MAGIC_NUMBER_BYTE_SIZE: nat := 4
  const BIT_MAP_COUNT_BYTE_SIZE: nat := 8
  const BIT_MAP_KEY_BYTE_SIZE: nat := 4
  const FORMAT_VERSION_V1: int := 1

  // ---------------------------------------------------------------- checksum

  /** calculateChecksum: the CRC-32 of the bytes, narrowed to a Java int. */
  function CalculateChecksum(data: seq<bv8>): (c: int)
    ensures IsInt32(c) && c % TWO_32 == Crc32.Value(data)
  {
    ToInt32(Crc32.Value(data))
  }

  /** The standard check value: the CRC-32 of "123456789" is 0xCBF43926, as an int. */
  lemma CalculateChecksumCheckValue()
    ensures CalculateChecksum([0x31, 0x32, 0x33, 0x34, 0x35, 0x36, 0x37, 0x38, 0x39]) == 0xCBF4_3926 - TWO_32
  {
    Crc32.CheckValueNumber();
  }

  /** Changing one byte of the data changes the checksum. */
  lemma ChecksumDetectsOneByte(a: seq<bv8>, b: seq<bv8>, k: nat)
    requires |a| == |b| && k < |a| && a[k] != b[k]
    requires forall i :: 0 <= i < |a| && i != k ==> a[i] == b[i]
    ensures CalculateChecksum(a) != CalculateChecksum(b)
  {
    Crc32.ValueDetectsOneByte(a, b, k);
    Int32RoundTrip(0, Crc32.Value(a));
    Int32RoundTrip(0, Crc32.Value(b));
  }

  // ---------------------------------------------------------------- envelope

  /** The bytes writeDeletionVectors writes: the format version, the size, the payload and the
      payload's checksum. */
  function Envelope(sizeInBytes: int, data: seq<bv8>): (f: seq<bv8>)
    requires IsInt32(sizeInBytes)
    ensures |f| == |data| + 9
  {
    [FORMAT_VERSION_V1 as bv8] + Be32(sizeInBytes) + data + Be32(CalculateChecksum(data))
  }

  /** readDeletionVector on a file (None when it does not exist): allocate the result, skip to
      the offset, check the stored size, read the payload, check the stored checksum. */
  function ReadEnvelope(file: Option<seq<bv8>>, offset: int, expectedSize: int): (r: Result<seq<bv8>>)
    ensures r.Success? ==> |r.value| == expectedSize
    ensures r.Success? ==> file.Some? && 0 <= offset && offset + 8 + expectedSize <= |file.value|
  {
    if expectedSize < 0 then Failure(NegativeArraySize)
    else if file.None? then Failure(FileNotFound)
    else
      var s := file.value;
      if JavaIo.SkipCount(|s|, offset) != offset then Failure(IllegalState)
      else if offset + 4 > |s| then Failure(Truncated)
      else
        var actualSize := ReadBe32(s[offset..offset + 4]);
        if actualSize != expectedSize then Failure(SizeMismatch(expectedSize, actualSize))
        else if offset + 4 + expectedSize > |s| then Failure(Truncated)
        else
          var bytes := s[offset + 4..offset + 4 + expectedSize];
          if offset + 8 + expectedSize > |s| then Failure(Truncated)
          else
            var checksum := ReadBe32(s[offset + 4 + expectedSize..offset + 8 + expectedSize]);
            if CalculateChecksum(bytes) != checksum then Failure(ChecksumMismatch)
            else Success(bytes)
  }

  /** Where the fields of an envelope lie. */
  lemma EnvelopeFields(sizeInBytes: int, data: seq<bv8>)
    requires IsInt32(sizeInBytes)
    ensures var f := Envelope(sizeInBytes, data);
      f[0] == FORMAT_VERSION_V1 as bv8 && f[1..5] == Be32(sizeInBytes) &&
      f[5..5 + |data|] == data && f[5 + |data|..9 + |data|] == Be32(CalculateChecksum(data))
  {
    var f := Envelope(sizeInBytes, data);
    var n := |data|;
    assert f[1..5] == Be32(sizeInBytes);
    assert f[5..5 + n] == data;
    assert f[5 + n..9 + n] == Be32(CalculateChecksum(data));
  }

  /** Reading the envelope at offset 1 with the recorded size gives back the payload. */
  lemma EnvelopeRoundTrip(data: seq<bv8>)
    requires IsInt32(|data|)
    ensures ReadEnvelope(Some(Envelope(|data|, data)), 1, |data|) == Success(data)
  {
    EnvelopeFields(|data|, data);
    Be32RoundTrip(|data|);
    Be32RoundTrip(CalculateChecksum(data));
  }

  /** A stored size that differs from the expected one is reported before anything after the
      size field is read: the rest of the file makes no difference. */
  lemma SizeMismatchFirst(header: seq<bv8>, rest: seq<bv8>, offset: int, expectedSize: int)
    requires expectedSize >= 0 && 0 <= offset && |header| == offset + 4
    requires ReadBe32(header[offset..]) != expectedSize
    ensures ReadEnvelope(Some(header + rest), offset, expectedSize) ==
      Failure(SizeMismatch(expectedSize, ReadBe32(header[offset..])))
  {
    assert (header + rest)[offset..offset + 4] == header[offset..];
  }

  /** Once the file holds the whole envelope and the size matches, the read fails with a
      checksum mismatch exactly when the stored checksum differs from the payload's CRC-32, and
      otherwise returns the payload. */
  lemma ChecksumMismatchIff(s: seq<bv8>, offset: int, expectedSize: int)
    requires expectedSize >= 0 && 0 <= offset && offset + 8 + expectedSize <= |s|
    requires ReadBe32(s[offset..offset + 4]) == expectedSize
    ensures var data := s[offset + 4..offset + 4 + expectedSize];
      var stored := ReadBe32(s[offset + 4 + expectedSize..offset + 8 + expectedSize]);
      ReadEnvelope(Some(s), offset, expectedSize) ==
        if CalculateChecksum(data) != stored then Failure(ChecksumMismatch) else Success(data)
  {
  }

  /** A file too short for the skip, the size, the payload or the checksum fails. */
  lemma TooShortFails(s: seq<bv8>, offset: int, expectedSize: int)
    requires expectedSize >= 0 && |s| < offset + 8 + expectedSize
    ensures var r := ReadEnvelope(Some(s), offset, expectedSize);
      r.Failure? && (r.error == IllegalState || r.error == Truncated || r.error.SizeMismatch?)
  {
  }

  /** A payload corrupted in one byte after it was written is refused with a checksum
      mismatch. */
  lemma CorruptedPayloadRefused(data: seq<bv8>, k: nat, b: bv8)
    requires IsInt32(|data|) && k < |data| && data[k] != b
    ensures var f := Envelope(|data|, data);
      ReadEnvelope(Some(f[5 + k := b]), 1, |data|) == Failure(ChecksumMismatch)
  {
    var n := |data|;
    var f := Envelope(n, data);
    var g := f[5 + k := b];
    var corrupted := data[k := b];
    assert g[1..5] == Be32(n);
    assert g[5..5 + n] == corrupted;
    assert g[5 + n..9 + n] == Be32(CalculateChecksum(data));
    Be32RoundTrip(n);
    Be32RoundTrip(CalculateChecksum(data));
    ChecksumDetectsOneByte(data, corrupted, k);
    ChecksumMismatchIff(g, 1, n);
  }

  // ---------------------------------------------------------------- payload

  /** The payload length writeDeletionVectors computes for a bitmap. */
  function PayloadSize(bm: seq<int>): (n: nat)
    ensures n > MAGIC_NUMBER_BYTE_SIZE + BIT_MAP_COUNT_BYTE_SIZE + BIT_MAP_KEY_BYTE_SIZE
  {
    MAGIC_NUMBER_BYTE_SIZE + BIT_MAP_COUNT_BYTE_SIZE + BIT_MAP_KEY_BYTE_SIZE + SerializedSizeInBytes(bm)
  }

  /** The payload serializeAsByteArray fills: magic, a count of one segment, key 0, the bitmap. */
  function Payload(bm: seq<int>): (p: seq<bv8>)
    requires IsBitmap(bm)
    ensures |p| == PayloadSize(bm)
  {
    Le32(PORTABLE_ROARING_BITMAP_MAGIC_NUMBER) + Le64(1) + Le32(0) + Serialize(bm)
  }

  /** The signed ints RoaringBitmap.stream yields, widened to longs by Roaring64Bitmap.add. */
  function SignedValues(bm: seq<int>): set<int> {
    set x | x in bm && IsUint32(x) :: ToInt32(x)
  }

  lemma SignedValuesAreInts(bm: seq<int>)
    ensures forall x :: x in SignedValues(bm) ==> IsInt32(x)
  {
  }

  /** What one turn of the read loop of deserializeDeletionVectors reads: the positions of the
      segment's bitmap and where the cursor moves next. */
  datatype SegmentRead = SegmentRead(positions: set<int>, next: nat)

  /** One segment at pos: a key that must not be negative, then a bitmap whose values join the
      result; the cursor then moves past the bitmap's serialized size. */
  function ReadSegmentAt(bytes: seq<bv8>, pos: nat): (r: Result<SegmentRead>)
    requires pos <= |bytes|
    ensures r.Success? ==> pos < r.value.next <= |bytes|
    ensures r.Success? ==> forall x :: x in r.value.positions ==> IsInt32(x)
  {
    if pos + BIT_MAP_KEY_BYTE_SIZE > |bytes| then Failure(Truncated)
    else
      var key := GetLe32(bytes, pos);
      if key < 0 then Failure(NegativeKey(key))
      else
        var bitmap :- Deserialize(bytes, pos + BIT_MAP_KEY_BYTE_SIZE);
        SignedValuesAreInts(bitmap);
        Success(SegmentRead(SignedValues(bitmap), pos + BIT_MAP_KEY_BYTE_SIZE + SerializedSizeInBytes(bitmap)))
  }

  /** The segments from pos on, `remaining` of them, read one after the other. */
  function DecodeSegments(bytes: seq<bv8>, pos: nat, remaining: int): (r: Result<set<int>>)
    requires pos <= |bytes|
    decreases remaining
  {
    if remaining <= 0 then Success({})
    else
      var segment :- ReadSegmentAt(bytes, pos);
      var rest :- DecodeSegments(bytes, segment.next, remaining - 1);
      Success(segment.positions + rest)
  }

  /** deserializeDeletionVectors: the magic must match (else the error names the value read),
      the segment count must fit an int, then the segments are read. */
  function DecodePayload(bytes: seq<bv8>): (r: Result<set<int>>)
    ensures |bytes| >= MAGIC_NUMBER_BYTE_SIZE && GetLe32(bytes, 0) != PORTABLE_ROARING_BITMAP_MAGIC_NUMBER ==>
      r == Failure(BadMagic(GetLe32(bytes, 0)))
    ensures r.Success? ==> forall x :: x in r.value ==> IsInt32(x)
  {
    if |bytes| < MAGIC_NUMBER_BYTE_SIZE then Failure(Truncated)
    else
      var magicNumber := GetLe32(bytes, 0);
      if magicNumber != PORTABLE_ROARING_BITMAP_MAGIC_NUMBER then Failure(BadMagic(magicNumber))
      else if |bytes| < MAGIC_NUMBER_BYTE_SIZE + BIT_MAP_COUNT_BYTE_SIZE then Failure(Truncated)
      else
        var size := GetLe64(bytes, MAGIC_NUMBER_BYTE_SIZE);
        if !IsInt32(size) then Failure(IntOverflow)
        else
          var r := DecodeSegments(bytes, MAGIC_NUMBER_BYTE_SIZE + BIT_MAP_COUNT_BYTE_SIZE, size);
          SegmentsAreInts(bytes, MAGIC_NUMBER_BYTE_SIZE + BIT_MAP_COUNT_BYTE_SIZE, size);
          r
  }

  lemma {:induction false} SegmentsAreInts(bytes: seq<bv8>, pos: nat, remaining: int)
    requires pos <= |bytes|
    ensures var r := DecodeSegments(bytes, pos, remaining);
      r.Success? ==> forall x :: x in r.value ==> IsInt32(x)
    decreases remaining
  {
    if remaining > 0 {
      var segment := ReadSegmentAt(bytes, pos);
      if segment.Success? {
        SegmentsAreInts(bytes, segment.value.next, remaining - 1);
      }
    }
  }

  /** The header the read side checks, followed by a segment count. */
  function Header(count: int): (h: seq<bv8>)
    requires IsInt64(count)
    ensures |h| == MAGIC_NUMBER_BYTE_SIZE + BIT_MAP_COUNT_BYTE_SIZE
  {
    Le32(PORTABLE_ROARING_BITMAP_MAGIC_NUMBER) + Le64(count)
  }

  datatype Segment = Segment(key: int, bitmap: seq<int>)

  predicate ValidSegment(seg: Segment) {
    IsInt32(seg.key) && IsBitmap(seg.bitmap) && |seg.bitmap| < TWO_32
  }

  /** The bytes of a run of segments: each key followed by its serialized bitmap. */
  function SegmentBytes(segs: seq<Segment>): seq<bv8>
    requires forall i :: 0 <= i < |segs| ==> ValidSegment(segs[i])
  {
    if segs == [] then []
    else
      assert ValidSegment(segs[0]);
      Le32(segs[0].key) + Serialize(segs[0].bitmap) + SegmentBytes(segs[1..])
  }

  /** The union of the positions of a run of segments; the keys play no part. */
  function SegmentUnion(segs: seq<Segment>): set<int> {
    if segs == [] then {} else SignedValues(segs[0].bitmap) + SegmentUnion(segs[1..])
  }

  /** The fields the read side finds at the start of a header. */
  lemma HeaderFields(count: int, rest: seq<bv8>)
    requires IsInt64(count)
    ensures var bytes := Header(count) + rest;
      |bytes| >= MAGIC_NUMBER_BYTE_SIZE + BIT_MAP_COUNT_BYTE_SIZE &&
      GetLe32(bytes, 0) == PORTABLE_ROARING_BITMAP_MAGIC_NUMBER &&
      GetLe64(bytes, MAGIC_NUMBER_BYTE_SIZE) == count
  {
    var magic := Le32(PORTABLE_ROARING_BITMAP_MAGIC_NUMBER);
    var bytes := Header(count) + rest;
    assert bytes == [] + magic + (Le64(count) + rest);
    Le32RoundTrip(PORTABLE_ROARING_BITMAP_MAGIC_NUMBER, [], Le64(count) + rest);
    assert bytes == magic + Le64(count) + rest;
    Le64RoundTrip(count, magic, rest);
  }

  /** After a valid header, decoding is the segment loop over the declared count. */
  lemma DecodePayloadOfHeader(count: int, rest: seq<bv8>)
    requires IsInt32(count)
    ensures DecodePayload(Header(count) + rest) ==
      DecodeSegments(Header(count) + rest, MAGIC_NUMBER_BYTE_SIZE + BIT_MAP_COUNT_BYTE_SIZE, count)
  {
    HeaderFields(count, rest);
  }

  /** The same, for a payload given in two pieces after the header. */
  lemma DecodePayloadOfHeaderThen(count: int, a: seq<bv8>, b: seq<bv8>)
    requires IsInt32(count)
    ensures DecodePayload(Header(count) + a + b) ==
      DecodeSegments(Header(count) + a + b, MAGIC_NUMBER_BYTE_SIZE + BIT_MAP_COUNT_BYTE_SIZE, count)
  {
    assert Header(count) + a + b == Header(count) + (a + b);
    DecodePayloadOfHeader(count, a + b);
  }

  /** One successful turn of the segment loop. */
  lemma DecodeSegmentsStep(bytes: seq<bv8>, pos: nat, remaining: int, segment: SegmentRead, rest: set<int>)
    requires pos <= |bytes| && remaining > 0 && ReadSegmentAt(bytes, pos) == Success(segment)
    requires DecodeSegments(bytes, segment.next, remaining - 1) == Success(rest)
    ensures DecodeSegments(bytes, pos, remaining) == Success(segment.positions + rest)
  {
  }

  /** A segment with a non-negative key whose bitmap deserializes at pos: the read loop takes
      its positions and moves past the bitmap. */
  lemma ReadSegmentOf(bytes: seq<bv8>, pos: nat, bitmap: seq<int>)
    requires pos + BIT_MAP_KEY_BYTE_SIZE <= |bytes| && GetLe32(bytes, pos) >= 0
    requires Deserialize(bytes, pos + BIT_MAP_KEY_BYTE_SIZE) == Success(bitmap)
    ensures ReadSegmentAt(bytes, pos) ==
      Success(SegmentRead(SignedValues(bitmap), pos + BIT_MAP_KEY_BYTE_SIZE + SerializedSizeInBytes(bitmap)))
  {
  }

  lemma Regroup(p: seq<bv8>, k: seq<bv8>, b: seq<bv8>, s: seq<bv8>, x: seq<bv8>)
    ensures p + (k + b + s) + x == p + k + (b + s + x)
    ensures p + (k + b + s) + x == (p + k) + b + (s + x)
    ensures p + (k + b + s) + x == (p + k + b) + s + x
  {
  }

  lemma {:induction false} DecodeSegmentBytes(segs: seq<Segment>, prefix: seq<bv8>, suffix: seq<bv8>)
    requires forall i :: 0 <= i < |segs| ==> ValidSegment(segs[i]) && segs[i].key >= 0
    ensures DecodeSegments(prefix + SegmentBytes(segs) + suffix, |prefix|, |segs|) == Success(SegmentUnion(segs))
    decreases |segs|
  {
    if segs != [] {
      var seg, tail := SplitSegments(segs);
      DecodeSegmentBytes(tail, prefix + Le32(seg.key) + Serialize(seg.bitmap), suffix);
      assert DecodeSegments(prefix + Le32(seg.key) + Serialize(seg.bitmap) + SegmentBytes(tail) + suffix, |prefix + Le32(seg.key) + Serialize(seg.bitmap)|, |tail|) == Success(SegmentUnion(tail));
      DecodeSegmentsCons(seg, prefix, SegmentBytes(tail), suffix, |tail| + 1, SegmentUnion(tail));
    }
  }

  /** A run of segments is its first segment followed by the rest of the run. */
  lemma SplitSegments(segs: seq<Segment>) returns (seg: Segment, tail: seq<Segment>)
    requires segs != []
    requires forall i :: 0 <= i < |segs| ==> ValidSegment(segs[i]) && segs[i].key >= 0
    ensures seg == segs[0] && tail == segs[1..] && |tail| == |segs| - 1 && ValidSegment(seg) && seg.key >= 0
    ensures forall i :: 0 <= i < |tail| ==> ValidSegment(tail[i]) && tail[i].key >= 0
    ensures SegmentBytes(segs) == Le32(seg.key) + Serialize(seg.bitmap) + SegmentBytes(tail)
    ensures SegmentUnion(segs) == SignedValues(seg.bitmap) + SegmentUnion(tail)
  {
    seg, tail := segs[0], segs[1..];
    assert ValidSegment(seg);
    forall i | 0 <= i < |tail| ensures ValidSegment(tail[i]) && tail[i].key >= 0 {
      assert tail[i] == segs[i + 1];
    }
  }

  /** Decoding a run whose first segment is seg: that segment's positions joined to those of
      the rest of the run. */
  lemma DecodeSegmentsCons(seg: Segment, prefix: seq<bv8>, s: seq<bv8>, suffix: seq<bv8>, remaining: int, rest: set<int>)
    requires ValidSegment(seg) && seg.key >= 0 && remaining > 0
    requires DecodeSegments(prefix + Le32(seg.key) + Serialize(seg.bitmap) + s + suffix,
      |prefix + Le32(seg.key) + Serialize(seg.bitmap)|, remaining - 1) == Success(rest)
    ensures DecodeSegments(prefix + (Le32(seg.key) + Serialize(seg.bitmap) + s) + suffix, |prefix|, remaining) ==
      Success(SignedValues(seg.bitmap) + rest)
  {
    var bytes := prefix + (Le32(seg.key) + Serialize(seg.bitmap) + s) + suffix;
    var p2 := FirstSegment(seg, prefix, s, suffix);
    SameSegments(p2 + s + suffix, bytes, |p2|, |p2|, remaining - 1, rest);
    DecodeSegmentsStep(bytes, |prefix|, remaining, SegmentRead(SignedValues(seg.bitmap), |p2|), rest);
  }

  /** Decoding depends only on the bytes and the position, however they are written. */
  lemma SameSegments(b1: seq<bv8>, b2: seq<bv8>, p1: nat, p2: nat, remaining: int, rest: set<int>)
    requires b1 == b2 && p1 == p2 && p1 <= |b1|
    requires DecodeSegments(b1, p1, remaining) == Success(rest)
    ensures DecodeSegments(b2, p2, remaining) == Success(rest)
  {
  }

  /** What the read loop finds at the first segment of a run: its key and its bitmap, and the
      rest of the run after them. */
  lemma FirstSegment(seg: Segment, prefix: seq<bv8>, s: seq<bv8>, suffix: seq<bv8>) returns (p2: seq<bv8>)
    requires ValidSegment(seg)
    requires seg.key >= 0
    ensures var bytes := prefix + (Le32(seg.key) + Serialize(seg.bitmap) + s) + suffix;
      ReadSegmentAt(bytes, |prefix|) == Success(SegmentRead(SignedValues(seg.bitmap), |p2|)) &&
      p2 == prefix + Le32(seg.key) + Serialize(seg.bitmap) && bytes == p2 + s + suffix
  {
    var k, b := Le32(seg.key), Serialize(seg.bitmap);
    var bytes := prefix + (k + b + s) + suffix;
    Regroup(prefix, k, b, s, suffix);
    Le32RoundTrip(seg.key, prefix, b + s + suffix);
    DeserializeSerialize(seg.bitmap, prefix + k, s + suffix);
    assert GetLe32(bytes, |prefix|) == seg.key;
    assert Deserialize(bytes, |prefix| + BIT_MAP_KEY_BYTE_SIZE) == Success(seg.bitmap);
    ReadSegmentOf(bytes, |prefix|, seg.bitmap);
    p2 := prefix + k + b;
  }

  /** A payload of any number of segments with non-negative keys decodes to the union of their
      positions, whatever the keys are. */
  lemma DecodeSegmentsUnion(segs: seq<Segment>, suffix: seq<bv8>)
    requires |segs| <= INT32_MAX
    requires forall i :: 0 <= i < |segs| ==> ValidSegment(segs[i]) && segs[i].key >= 0
    ensures DecodePayload(Header(|segs|) + SegmentBytes(segs) + suffix) == Success(SegmentUnion(segs))
  {
    DecodePayloadOfHeaderThen(|segs|, SegmentBytes(segs), suffix);
    DecodeSegmentBytes(segs, Header(|segs|), suffix);
  }

  /** The payload of a bitmap decodes to the positions it holds. */
  lemma DecodePayloadRoundTrip(bm: seq<int>)
    requires IsBitmap(bm) && |bm| < TWO_32
    ensures DecodePayload(Payload(bm)) == Success(SignedValues(bm))
  {
    var segs := SingleSegment(bm);
    PayloadPieces(bm, Header(|segs|), SegmentBytes(segs));
    DecodeSegmentsUnion(segs, []);
  }

  /** The payload's one segment: key 0 and the bitmap. */
  lemma SingleSegment(bm: seq<int>) returns (segs: seq<Segment>)
    requires IsBitmap(bm) && |bm| < TWO_32
    ensures |segs| == 1 && ValidSegment(segs[0]) && segs[0].key == 0
    ensures SegmentBytes(segs) == Le32(0) + Serialize(bm) && SegmentUnion(segs) == SignedValues(bm)
  {
    segs := [Segment(0, bm)];
    assert segs[1..] == [];
  }

  lemma PayloadPieces(bm: seq<int>, header: seq<bv8>, segment: seq<bv8>)
    requires IsBitmap(bm) && header == Header(1) && segment == Le32(0) + Serialize(bm)
    ensures Payload(bm) == header + segment + []
  {
  }

  /** A segment whose key is negative is refused, naming the key. */
  lemma NegativeKeyRefused(count: int, key: int, rest: seq<bv8>)
    requires 0 < count <= INT32_MAX && INT32_MIN <= key < 0
    ensures DecodePayload(Header(count) + Le32(key) + rest) == Failure(NegativeKey(key))
  {
    var h := Header(count);
    DecodePayloadOfHeaderThen(count, Le32(key), rest);
    Le32RoundTrip(key, h, rest);
  }

  /** A payload whose segment count is zero or negative holds no positions. */
  lemma NonPositiveCountEmpty(count: int, rest: seq<bv8>)
    requires INT32_MIN <= count <= 0
    ensures DecodePayload(Header(count) + rest) == Success({})
  {
    DecodePayloadOfHeader(count, rest);
  }

  // ---------------------------------------------------------------- merge

  predicate AllInt32(positions: set<int>) {
    forall x :: x in positions ==> IsInt32(x)
  }

  /** The unsigned values RoaringBitmap.add stores for the int positions of a set. */
  function UnsignedImage(positions: set<int>): (image: set<int>)
    ensures forall x :: x in image ==> IsUint32(x)
  {
    set x | x in positions && IsInt32(x) :: ToUint32(x)
  }

  /** toRoaringBitmap: the union of the three sets as one 32-bit bitmap, or IntOverflow when a
      position does not fit an int. */
  ghost function MergedBitmap(past: set<int>, deleted: set<int>, updated: set<int>): (r: Result<seq<int>>)
    ensures r.Failure? ==> r.error == IntOverflow
  {
    if AllInt32(past) && AllInt32(deleted) && AllInt32(updated) then
      Success(FromSet(UnsignedImage(past + deleted + updated)))
    else Failure(IntOverflow)
  }

  /** Reading back what was merged gives the original positions: the unsigned value stored for
      each int position is read back as that int. */
  lemma SignedValuesOfMerged(positions: set<int>)
    requires AllInt32(positions)
    ensures SignedValues(FromSet(UnsignedImage(positions))) == positions
  {
    var bm := FromSet(UnsignedImage(positions));
    forall x | x in positions ensures x in SignedValues(bm) {
      StoredValue(positions, x);
      assert ToUint32(x) in Contents(bm);
    }
    forall y | y in SignedValues(bm) ensures y in positions {
      var u :| u in bm && IsUint32(u) && ToInt32(u) == y;
      assert u in Contents(bm);
      ReadBackValue(positions, u);
    }
  }

  /** Each int position is stored as its unsigned word. */
  lemma StoredValue(positions: set<int>, x: int)
    requires x in positions && IsInt32(x)
    ensures ToUint32(x) in UnsignedImage(positions) && ToInt32(ToUint32(x)) == x
  {
    Int32RoundTrip(x, 0);
  }

  /** Each stored word reads back as a position of the set. */
  lemma ReadBackValue(positions: set<int>, u: int)
    requires u in UnsignedImage(positions)
    ensures IsUint32(u) && ToInt32(u) in positions
  {
    var x :| x in positions && IsInt32(x) && ToUint32(x) == u;
    Int32RoundTrip(x, 0);
  }

  /** The merged bitmap holds one value per distinct position. */
  lemma {:induction false} UnsignedImageSize(positions: set<int>)
    requires AllInt32(positions)
    ensures |UnsignedImage(positions)| == |positions|
    decreases |positions|
  {
    if positions != {} {
      SomeElement(positions);
      var x :| x in positions;
      var rest := positions - {x};
      UnsignedImageSize(rest);
      assert UnsignedImage(positions) == UnsignedImage(rest) + {ToUint32(x)};
      if ToUint32(x) in UnsignedImage(rest) {
        var y :| y in rest && IsInt32(y) && ToUint32(y) == ToUint32(x);
        Int32RoundTrip(x, 0);
        Int32RoundTrip(y, 0);
      }
    }
  }

  /** The sum of the three cardinalities, which writeDeletionVectors records, is the size of the
      union exactly when the three sets are pairwise disjoint. */
  lemma CardinalitySumIffDisjoint(past: set<int>, deleted: set<int>, updated: set<int>)
    ensures |past| + |deleted| + |updated| == |past + deleted + updated| <==>
      past * deleted == {} && past * updated == {} && deleted * updated == {}
  {
    SumOfUnion(past, deleted);
    SumOfUnion(past + deleted, updated);
    assert (past + deleted) * updated == (past * updated) + (deleted * updated);
    if past * deleted == {} && past * updated == {} && deleted * updated == {} {
      assert (past + deleted) * updated == {};
    } else {
      assert |past * deleted| > 0 || |past * updated| > 0 || |deleted * updated| > 0;
      if (past + deleted) * updated == {} {
        assert past * updated == {} && deleted * updated == {};
      }
    }
  }

  /** |a + b| + |a * b| == |a| + |b|. */
  lemma SumOfUnion(a: set<int>, b: set<int>)
    ensures |a + b| + |a * b| == |a| + |b|
  {
    assert a + b == a + (b - a);
    assert a * (b - a) == {};
    assert b == (b - a) + (a * b);
    assert (b - a) * (a * b) == {};
  }
}
