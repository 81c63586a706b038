/** io.trino.plugin.deltalake.delete.DeletionVectors: writing a deletion vector (merge the
    deleted row positions into one bitmap, serialize it, wrap it in the envelope, store it
    under a fresh name) and reading one back from its descriptor. Each method follows the
    Java step by step and is proved against the specification functions of
    DeletionVectorFormat and DeletionVectorNames. */
module DeletionVectors {
  import opened Results
  import opened ByteOrder
  import opened Roaring
  import opened JavaUuid
  import opened JavaIo
  import opened DeletionVectorNames
  import opened DeletionVectorFormat

  /** Storage kinds of a descriptor: a file named by a UUID under the table location, a file
      at an absolute path, or a bitmap stored in the log entry itself. */
  const UUID_MARKER: string := "u"
  const PATH_MARKER: string := "p"
  const INLINE_MARKER: string := "i"

  /** The descriptor of a deletion vector in the transaction log. */
  datatype DeletionVectorEntry = DeletionVectorEntry(
    storageType: string,
    pathOrInlineDv: string,
    offset: Option<int>,
    sizeInBytes: int,
    cardinality: int)

  // ---------------------------------------------------------------- merge

  /** One forEach of toRoaringBitmap: every position, narrowed by toIntExact, is added to the
      bitmap; a position outside the int range throws. */
  method AddAll(bitmap: seq<int>, positions: set<int>) returns (r: Result<seq<int>>)
    requires IsBitmap(bitmap)
    ensures r.Success? <==> AllInt32(positions)
    ensures r.Failure? ==> r.error == IntOverflow
    ensures r.Success? ==> IsBitmap(r.value) && Contents(r.value) == Contents(bitmap) + UnsignedImage(positions)
  {
    var acc := bitmap;
    var rest := positions;
    while rest != {}
      invariant rest <= positions && IsBitmap(acc)
      invariant AllInt32(positions - rest)
      invariant Contents(acc) == Contents(bitmap) + UnsignedImage(positions - rest)
      decreases |rest|
    {
      SomeElement(rest);
      var position :| position in rest;
      if !IsInt32(position) {
        return Failure(IntOverflow);
      }
      acc := Add(acc, ToUint32(position));
      ImageGrows(positions - rest, position);
      assert positions - (rest - {position}) == (positions - rest) + {position};
      rest := rest - {position};
    }
    assert positions - rest == positions;
    return Success(acc);
  }

  lemma ImageGrows(done: set<int>, position: int)
    requires IsInt32(position)
    ensures UnsignedImage(done + {position}) == UnsignedImage(done) + {ToUint32(position)}
  {
  }

  /** toRoaringBitmap: the union of past, deleted and updated positions as one 32-bit bitmap. */
  method ToRoaringBitmap(past: set<int>, deleted: set<int>, updated: set<int>) returns (r: Result<seq<int>>)
    ensures r.Success? <==> AllInt32(past) && AllInt32(deleted) && AllInt32(updated)
    ensures r.Failure? ==> r.error == IntOverflow
    ensures r.Success? ==> IsBitmap(r.value) && Contents(r.value) == UnsignedImage(past + deleted + updated)
    ensures r == MergedBitmap(past, deleted, updated)
  {
    var bitmap := [];
    bitmap :- AddAll(bitmap, past);
    bitmap :- AddAll(bitmap, deleted);
    bitmap :- AddAll(bitmap, updated);
    UnionImage(past, deleted, updated);
    AscendingUnique(bitmap, FromSet(UnsignedImage(past + deleted + updated)));
    return Success(bitmap);
  }

  lemma UnionImage(a: set<int>, b: set<int>, c: set<int>)
    ensures UnsignedImage(a + b + c) == UnsignedImage(a) + UnsignedImage(b) + UnsignedImage(c)
  {
  }

  // ---------------------------------------------------------------- payload

  /** serializeAsByteArray: a little-endian buffer of sizeInBytes bytes filled with the magic,
      a segment count of one, key 0 and the bitmap; the buffer's whole array is returned. */
  method SerializeAsByteArray(bitmap: seq<int>, sizeInBytes: int) returns (r: Result<seq<bv8>>)
    requires IsBitmap(bitmap)
    ensures sizeInBytes < 0 ==> r == Failure(IllegalArgument)
    ensures sizeInBytes >= 0 ==> (r.Success? <==> PayloadSize(bitmap) <= sizeInBytes)
    ensures sizeInBytes >= 0 && r.Failure? ==> r.error == BufferOverflow
    ensures r.Success? ==> |r.value| == sizeInBytes && r.value[..PayloadSize(bitmap)] == Payload(bitmap)
    ensures r.Success? ==> forall k :: PayloadSize(bitmap) <= k < |r.value| ==> r.value[k] == 0
  {
    if sizeInBytes < 0 {
      return Failure(IllegalArgument);
    }
    var buffer := new ByteBuffer.Allocate(sizeInBytes);
    assert Filled(buffer.data[..], []);
    var ok;
    ok :- PutHeader(buffer);
    ghost var before := buffer.data[..];
    ok :- buffer.Put(Serialize(bitmap));
    ghost var written := FillMore(before, PayloadHeader(), Serialize(bitmap), buffer.data[..]);
    return Success(buffer.data[..]);
  }

  /** What serializeAsByteArray puts before the bitmap: the magic, one segment, key 0. */
  function PayloadHeader(): (h: seq<bv8>)
    ensures forall bm | IsBitmap(bm) :: Payload(bm) == h + Serialize(bm)
  {
    Le32(PORTABLE_ROARING_BITMAP_MAGIC_NUMBER) + Le64(1) + Le32(0)
  }

  /** The three header puts of serializeAsByteArray on a fresh zero-filled buffer. */
  method PutHeader(buffer: ByteBuffer) returns (r: Result<()>)
    requires buffer.Valid() && buffer.position == 0 && Filled(buffer.data[..], [])
    modifies buffer, buffer.data
    ensures buffer.Valid()
    ensures r.Success? <==> |PayloadHeader()| <= buffer.data.Length
    ensures r.Failure? ==> r.error == BufferOverflow
    ensures r.Success? ==> buffer.position == |PayloadHeader()| && Filled(buffer.data[..], PayloadHeader())
  {
    var ok;
    ghost var before := buffer.data[..];
    ok :- buffer.PutInt(PORTABLE_ROARING_BITMAP_MAGIC_NUMBER);
    ghost var written := FillMore(before, [], Le32(PORTABLE_ROARING_BITMAP_MAGIC_NUMBER), buffer.data[..]);
    assert written == Le32(PORTABLE_ROARING_BITMAP_MAGIC_NUMBER);
    before := buffer.data[..];
    ok :- buffer.PutLong(1);  // always a single bitmap
    written := FillMore(before, written, Le64(1), buffer.data[..]);
    before := buffer.data[..];
    ok :- buffer.PutInt(0);   // the bitmap's key
    written := FillMore(before, written, Le32(0), buffer.data[..]);
    assert written == PayloadHeader();
    return Success(());
  }

  /** The buffer holds `written` followed by zeros only. */
  ghost predicate Filled(data: seq<bv8>, written: seq<bv8>) {
    |written| <= |data| && data[..|written|] == written &&
    forall k :: |written| <= k < |data| ==> data[k] == 0
  }

  /** A put at the end of what was written keeps the rest of the buffer zero. */
  lemma FillMore(before: seq<bv8>, written: seq<bv8>, bytes: seq<bv8>, after: seq<bv8>)
    returns (now: seq<bv8>)
    requires Filled(before, written) && |written| + |bytes| <= |before|
    requires after == before[..|written|] + bytes + before[|written| + |bytes|..]
    ensures now == written + bytes && Filled(after, now)
  {
    now := written + bytes;
    assert after[..|now|] == now;
    forall k | |now| <= k < |after|
      ensures after[k] == 0
    {
      assert after[k] == before[k];
    }
  }

  /** Prepends the positions gathered so far to the outcome of the segments still to read. */
  function Prepend(gathered: set<int>, r: Result<set<int>>): Result<set<int>> {
    if r.Failure? then r else Success(gathered + r.value)
  }

  /** deserializeDeletionVectors: the magic, the segment count through toIntExact, then per
      segment a non-negative key and a bitmap whose values are all added to the result; the
      cursor is then moved past the bitmap by hand. */
  method DeserializeDeletionVectors(bytes: seq<bv8>) returns (r: Result<set<int>>)
    ensures r == DecodePayload(bytes)
  {
    var buffer := new ByteBuffer.Wrap(bytes);
    var magicNumber :- buffer.GetInt();
    if magicNumber != PORTABLE_ROARING_BITMAP_MAGIC_NUMBER {
      return Failure(BadMagic(magicNumber));
    }
    var count :- buffer.GetLong();
    if !IsInt32(count) {
      return Failure(IntOverflow);
    }
    var size := count;
    var bitmaps: set<int> := {};
    ghost var expected := DecodePayload(bytes);
    DecodePayloadSegments(bytes);
    PrependNothing(DecodeSegments(bytes, buffer.position, size));
    var i := 0;
    ghost var remaining := size;
    while i < size
      invariant buffer.Valid() && buffer.data[..] == bytes && remaining == size - i
      invariant expected == Prepend(bitmaps, DecodeSegments(bytes, buffer.position, remaining))
      decreases size - i
    {
      ghost var segment := ReadSegmentAt(bytes, buffer.position);
      PrependSegment(bytes, buffer.position, remaining, bitmaps);
      bitmaps :- ReadSegment(buffer, bitmaps);
      assert buffer.data[..] == bytes && buffer.position == segment.value.next;
      i, remaining := i + 1, remaining - 1;
    }
    return Success(bitmaps);
  }

  /** One pass of the segment loop of deserializeDeletionVectors: the key, the bitmap read in
      place, each of its values added to `gathered`, and the cursor moved past the bitmap. */
  method ReadSegment(buffer: ByteBuffer, gathered: set<int>) returns (r: Result<set<int>>)
    requires buffer.Valid()
    modifies buffer
    ensures buffer.Valid()
    ensures var segment := ReadSegmentAt(buffer.data[..], old(buffer.position));
      (r.Failure? <==> segment.Failure?) &&
      (r.Failure? ==> r.error == segment.error) &&
      (r.Success? ==> r.value == gathered + segment.value.positions && buffer.position == segment.value.next)
  {
    ghost var start := buffer.position;
    ghost var bytes := buffer.data[..];
    var key :- buffer.GetInt();
    if key < 0 {
      return Failure(NegativeKey(key));
    }
    var bitmap :- Deserialize(buffer.data[..], buffer.position);
    var bitmaps := AddValues(gathered, bitmap);
    var consumedBytes := SerializedSizeInBytes(bitmap);
    buffer.SetPosition(buffer.position + consumedBytes);
    return Success(bitmaps);
  }

  /** bitmap.stream().forEach(bitmaps::add): every stored value, read back as a signed int. */
  method AddValues(gathered: set<int>, bitmap: seq<int>) returns (bitmaps: set<int>)
    requires IsBitmap(bitmap)
    ensures bitmaps == gathered + SignedValues(bitmap)
  {
    bitmaps := gathered;
    var j := 0;
    while j < |bitmap|
      invariant 0 <= j <= |bitmap|
      invariant bitmaps == gathered + SignedValues(bitmap[..j])
    {
      SignedValuesSnoc(bitmap, j);
      bitmaps := bitmaps + {ToInt32(bitmap[j])};
      j := j + 1;
    }
    assert bitmap[..|bitmap|] == bitmap;
  }

  /** Gathering one segment's values first leaves the outcome of the whole read unchanged. */
  lemma PrependSegment(bytes: seq<bv8>, pos: nat, remaining: int, gathered: set<int>)
    requires pos <= |bytes| && remaining > 0
    ensures var segment := ReadSegmentAt(bytes, pos);
      segment.Failure? ==> Prepend(gathered, DecodeSegments(bytes, pos, remaining)) == Failure(segment.error)
    ensures var segment := ReadSegmentAt(bytes, pos);
      segment.Success? ==>
        Prepend(gathered, DecodeSegments(bytes, pos, remaining)) ==
        Prepend(gathered + segment.value.positions, DecodeSegments(bytes, segment.value.next, remaining - 1))
  {
    var segment := ReadSegmentAt(bytes, pos);
    if segment.Success? {
      var rest := DecodeSegments(bytes, segment.value.next, remaining - 1);
      if rest.Success? {
        assert gathered + (segment.value.positions + rest.value) == gathered + segment.value.positions + rest.value;
      }
    }
  }

  /** Past a header with the right magic and a count that fits an int, decoding is the
      segment loop. */
  lemma DecodePayloadSegments(bytes: seq<bv8>)
    requires |bytes| >= MAGIC_NUMBER_BYTE_SIZE + BIT_MAP_COUNT_BYTE_SIZE
    requires GetLe32(bytes, 0) == PORTABLE_ROARING_BITMAP_MAGIC_NUMBER
    requires IsInt32(GetLe64(bytes, MAGIC_NUMBER_BYTE_SIZE))
    ensures DecodePayload(bytes) ==
      DecodeSegments(bytes, MAGIC_NUMBER_BYTE_SIZE + BIT_MAP_COUNT_BYTE_SIZE, GetLe64(bytes, MAGIC_NUMBER_BYTE_SIZE))
  {
  }

  lemma PrependNothing(r: Result<set<int>>)
    ensures Prepend({}, r) == r
  {
    if r.Success? {
      assert {} + r.value == r.value;
    }
  }

  lemma SignedValuesSnoc(bitmap: seq<int>, j: nat)
    requires IsBitmap(bitmap) && j < |bitmap|
    ensures SignedValues(bitmap[..j + 1]) == SignedValues(bitmap[..j]) + {ToInt32(bitmap[j])}
  {
    assert bitmap[..j + 1] == bitmap[..j] + [bitmap[j]];
  }

  // ---------------------------------------------------------------- reading

  /** readDeletionVector: allocate the result array, open the file, skip to the offset (the skip
      must cover it), read the big-endian size and compare it with the expected one, read the
      payload, read the big-endian checksum and compare it with the payload's CRC-32. */
  method ReadDeletionVector(fs: FileSystem, path: string, offset: int, expectedSize: int)
    returns (r: Result<seq<bv8>>)
    ensures r == ReadEnvelope(fs.Open(path), offset, expectedSize)
  {
    if expectedSize < 0 {
      return Failure(NegativeArraySize);
    }
    var bytes := new bv8[expectedSize];
    var file := fs.Open(path);
    if file.None? {
      return Failure(FileNotFound);
    }
    ghost var contents := file.value;
    var inputStream := new DataInputStream(file.value);
    var skipped := inputStream.Skip(offset);
    if skipped != offset {
      return Failure(IllegalState);
    }
    var actualSize :- inputStream.ReadInt();
    assert actualSize == ReadBe32(contents[offset..offset + 4]);
    if actualSize != expectedSize {
      return Failure(SizeMismatch(expectedSize, actualSize));
    }
    var ok :- inputStream.ReadFully(bytes);
    ghost var data := contents[offset + 4..offset + 4 + expectedSize];
    assert bytes[..] == data && inputStream.pos == offset + 4 + expectedSize;
    var checksum :- inputStream.ReadInt();
    assert checksum == ReadBe32(contents[offset + 4 + expectedSize..offset + 8 + expectedSize]);
    ChecksumMismatchIff(contents, offset, expectedSize);
    if CalculateChecksum(bytes[..]) != checksum {
      return Failure(ChecksumMismatch);
    }
    return Success(bytes[..]);
  }

  /** readDeletionVectors on a file system holding `files`: only descriptors stored beside the
      table under a UUID name are read; the positions read must be as many as the descriptor
      records. */
  function ReadOutcome(files: map<string, seq<bv8>>, location: string, dv: DeletionVectorEntry): (r: Result<set<int>>)
    ensures r.Success? ==> dv.storageType == UUID_MARKER && |r.value| == dv.cardinality
    ensures r.Success? ==> forall x :: x in r.value ==> IsInt32(x)
    ensures dv.storageType == INLINE_MARKER || dv.storageType == PATH_MARKER ==>
      r == Failure(NotSupported(dv.storageType))
    ensures dv.storageType !in {UUID_MARKER, INLINE_MARKER, PATH_MARKER} ==> r == Failure(IllegalArgument)
  {
    if dv.storageType == UUID_MARKER then
      var name :- ToFileName(dv.pathOrInlineDv);
      if dv.offset.None? then Failure(MissingOffset)
      else
        var buffer :- ReadEnvelope(FileAt(files, AppendPath(location, name)), dv.offset.value, dv.sizeInBytes);
        var bitmaps :- DecodePayload(buffer);
        if |bitmaps| != dv.cardinality then Failure(CardinalityMismatch(dv.cardinality, |bitmaps|))
        else Success(bitmaps)
    else if dv.storageType == INLINE_MARKER || dv.storageType == PATH_MARKER then
      Failure(NotSupported(dv.storageType))
    else Failure(IllegalArgument)
  }

  /** readDeletionVectors: dispatch on the storage type, then read, decode and check the
      cardinality. */
  method ReadDeletionVectors(fs: FileSystem, location: string, dv: DeletionVectorEntry) returns (r: Result<set<int>>)
    ensures r == ReadOutcome(fs.files, location, dv)
  {
    if dv.storageType == UUID_MARKER {
      var name :- ToFileName(dv.pathOrInlineDv);
      var path := AppendPath(location, name);
      if dv.offset.None? {
        return Failure(MissingOffset);
      }
      var buffer :- ReadDeletionVector(fs, path, dv.offset.value, dv.sizeInBytes);
      var bitmaps :- DeserializeDeletionVectors(buffer);
      if |bitmaps| != dv.cardinality {
        return Failure(CardinalityMismatch(dv.cardinality, |bitmaps|));
      }
      return Success(bitmaps);
    }
    if dv.storageType == INLINE_MARKER || dv.storageType == PATH_MARKER {
      return Failure(NotSupported(dv.storageType));
    }
    return Failure(IllegalArgument);
  }

  /** A UUID descriptor without an offset fails once its name has been resolved. */
  lemma MissingOffsetRefused(files: map<string, seq<bv8>>, location: string, dv: DeletionVectorEntry)
    requires dv.storageType == UUID_MARKER && dv.offset.None?
    ensures var name := ToFileName(dv.pathOrInlineDv);
      ReadOutcome(files, location, dv) == if name.Failure? then Failure(name.error) else Failure(MissingOffset)
  {
  }

  // ---------------------------------------------------------------- writing

  /** What writeDeletionVectors produces: the descriptor it returns, and the file it creates
      with its contents. */
  datatype Written = Written(entry: DeletionVectorEntry, path: string, file: seq<bv8>)

  /** writeDeletionVectors with `uuid` as the random UUID: merge the positions, size the payload
      (an int sum, which wraps), record the sum of the three cardinalities (the past one taken as
      an int), refuse a size or cardinality that is not positive, fill the payload, and store the
      envelope under the UUID's file name. */
  ghost function WriteOutcome(location: string, uuid: Uuid, past: set<int>, deleted: set<int>, updated: set<int>)
    : (r: Result<Written>)
    requires Valid(uuid)
    ensures r.Success? ==> r.value.entry.storageType == UUID_MARKER && r.value.entry.offset == Some(1)
    ensures r.Success? ==> r.value.path == AppendPath(location, DataFileName(uuid))
    ensures r.Success? ==> r.value.entry.cardinality == |past| + |deleted| + |updated| > 0
  {
    var bitmap :- MergedBitmap(past, deleted, updated);
    var sizeInBytes := WrapInt32(PayloadSize(bitmap));
    if |past| > INT32_MAX then Failure(IntOverflow)
    else
      var cardinality := |past| + |deleted| + |updated|;
      if sizeInBytes <= 0 || cardinality <= 0 then Failure(IllegalArgument)
      else if PayloadSize(bitmap) > sizeInBytes then Failure(BufferOverflow)
      else
        var entry := DeletionVectorEntry(UUID_MARKER, EncodeUuid(uuid), Some(1), sizeInBytes, cardinality);
        Success(Written(entry, AppendPath(location, DataFileName(uuid)), Envelope(sizeInBytes, Payload(bitmap))))
  }

  /** writeDeletionVectors: the file is created only when every check passes, and the
      descriptor returned points into it. */
  method WriteDeletionVectors(fs: FileSystem, location: string, uuid: Uuid,
                              past: set<int>, deleted: set<int>, updated: set<int>)
    returns (r: Result<DeletionVectorEntry>)
    requires Valid(uuid)
    modifies fs
    ensures var w := WriteOutcome(location, uuid, past, deleted, updated);
      (r.Success? <==> w.Success?) && (r.Failure? ==> r.error == w.error && fs.files == old(fs.files))
    ensures var w := WriteOutcome(location, uuid, past, deleted, updated);
      r.Success? ==> r.value == w.value.entry && fs.files == old(fs.files)[w.value.path := w.value.file]
  {
    ghost var w := WriteOutcome(location, uuid, past, deleted, updated);
    var deletionVectorFilename := DataFileName(uuid);
    var pathOrInlineDv := EncodeUuid(uuid);
    var bitmap :- ToRoaringBitmap(past, deleted, updated);
    var sizeInBytes := WrapInt32(PayloadSize(bitmap));
    if |past| > INT32_MAX {
      assert w == Failure(IntOverflow);
      return Failure(IntOverflow);  // getIntCardinality
    }
    var cardinality := |past| + |deleted| + |updated|;
    if sizeInBytes <= 0 || cardinality <= 0 {
      assert w == Failure(IllegalArgument);
      return Failure(IllegalArgument);
    }
    var data :- SerializeAsByteArray(bitmap, sizeInBytes);
    assert data == Payload(bitmap) by {
      assert data == data[..PayloadSize(bitmap)];
    }
    var offset := WriteEnvelope(fs, AppendPath(location, deletionVectorFilename), sizeInBytes, data);
    r := Success(DeletionVectorEntry(UUID_MARKER, pathOrInlineDv, Some(offset), sizeInBytes, cardinality));
    assert w.value.entry == r.value && w.value.file == Envelope(sizeInBytes, data);
  }

  /** The try-with-resources block of writeDeletionVectors: the version byte, the offset taken
      after it, the size, the payload and its checksum, stored when the stream closes. */
  method WriteEnvelope(fs: FileSystem, path: string, sizeInBytes: int, data: seq<bv8>) returns (offset: int)
    requires IsInt32(sizeInBytes)
    modifies fs
    ensures offset == 1 && fs.files == old(fs.files)[path := Envelope(sizeInBytes, data)]
  {
    var output := new DataOutputStream();
    output.WriteByte(FORMAT_VERSION_V1);
    assert output.written == [FORMAT_VERSION_V1 as bv8];
    offset := output.Size();
    output.WriteInt(sizeInBytes);
    output.Write(data);
    output.WriteInt(CalculateChecksum(data));
    assert output.written == Envelope(sizeInBytes, data);
    fs.Create(path, output.written);
  }

  // ---------------------------------------------------------------- properties of a write

  /** The merged bitmap of a successful write, its size, and the file holding it. */
  lemma WrittenParts(location: string, uuid: Uuid, past: set<int>, deleted: set<int>, updated: set<int>)
    returns (bitmap: seq<int>)
    requires Valid(uuid) && WriteOutcome(location, uuid, past, deleted, updated).Success?
    ensures AllInt32(past) && AllInt32(deleted) && AllInt32(updated)
    ensures bitmap == FromSet(UnsignedImage(past + deleted + updated)) && IsBitmap(bitmap)
    ensures var w := WriteOutcome(location, uuid, past, deleted, updated).value;
      w.entry.sizeInBytes == PayloadSize(bitmap) && IsInt32(PayloadSize(bitmap)) &&
      w.file == Envelope(PayloadSize(bitmap), Payload(bitmap)) &&
      w.entry.pathOrInlineDv == EncodeUuid(uuid)
  {
    bitmap := MergedBitmap(past, deleted, updated).value;
  }

  /** The file a write creates: the version byte 1, then at offset 1 the big-endian size of the
      payload, which exceeds the 16 header bytes, then the payload and its checksum; the file is
      nine bytes longer than the payload. */
  lemma WrittenLayout(location: string, uuid: Uuid, past: set<int>, deleted: set<int>, updated: set<int>)
    requires Valid(uuid) && WriteOutcome(location, uuid, past, deleted, updated).Success?
    ensures var w := WriteOutcome(location, uuid, past, deleted, updated).value;
      var size := w.entry.sizeInBytes;
      size > MAGIC_NUMBER_BYTE_SIZE + BIT_MAP_COUNT_BYTE_SIZE + BIT_MAP_KEY_BYTE_SIZE &&
      |w.file| == size + 9 && w.file[0] == FORMAT_VERSION_V1 as bv8 &&
      ReadBe32(w.file[1..5]) == size &&
      DecodePayload(w.file[5..5 + size]).Success?
  {
    var bitmap := WrittenParts(location, uuid, past, deleted, updated);
    var w := WriteOutcome(location, uuid, past, deleted, updated).value;
    EnvelopeFields(PayloadSize(bitmap), Payload(bitmap));
    Be32RoundTrip(PayloadSize(bitmap));
    DecodePayloadRoundTrip(bitmap);
  }

  /** A write succeeds exactly when every position fits an int, the past vector's cardinality
      fits an int, there is at least one position, and the payload size fits an int. */
  lemma WriteSucceedsIff(location: string, uuid: Uuid, past: set<int>, deleted: set<int>, updated: set<int>)
    requires Valid(uuid)
    ensures WriteOutcome(location, uuid, past, deleted, updated).Success? <==>
      AllInt32(past) && AllInt32(deleted) && AllInt32(updated) && |past| <= INT32_MAX &&
      |past| + |deleted| + |updated| > 0 &&
      MAGIC_NUMBER_BYTE_SIZE + BIT_MAP_COUNT_BYTE_SIZE + BIT_MAP_KEY_BYTE_SIZE + 4 + 4 * |past + deleted + updated| <= INT32_MAX
  {
    if AllInt32(past) && AllInt32(deleted) && AllInt32(updated) {
      var union := past + deleted + updated;
      UnsignedImageSize(union);
      var bitmap := FromSet(UnsignedImage(union));
      assert PayloadSize(bitmap) == MAGIC_NUMBER_BYTE_SIZE + BIT_MAP_COUNT_BYTE_SIZE + BIT_MAP_KEY_BYTE_SIZE + 4 + 4 * |union|;
    }
  }

  /** Positions that do not fit an int make the write fail before anything is written, and so
      does a write with no positions at all. */
  lemma WriteRefused(location: string, uuid: Uuid, past: set<int>, deleted: set<int>, updated: set<int>)
    requires Valid(uuid)
    ensures !(AllInt32(past) && AllInt32(deleted) && AllInt32(updated)) ==>
      WriteOutcome(location, uuid, past, deleted, updated) == Failure(IntOverflow)
    ensures past == {} && deleted == {} && updated == {} ==>
      WriteOutcome(location, uuid, past, deleted, updated) == Failure(IllegalArgument)
  {
    if past == {} && deleted == {} && updated == {} {
      assert AllInt32(past) && AllInt32(deleted) && AllInt32(updated);
    }
  }

  /** Reading back what a write stored, through the descriptor it returned: the positions
      written when the three sets are pairwise disjoint; otherwise the recorded cardinality, a
      sum, exceeds the number of distinct positions and the read fails. */
  lemma WriteThenRead(files: map<string, seq<bv8>>, location: string, uuid: Uuid,
                      past: set<int>, deleted: set<int>, updated: set<int>)
    requires Valid(uuid) && WriteOutcome(location, uuid, past, deleted, updated).Success?
    ensures var w := WriteOutcome(location, uuid, past, deleted, updated).value;
      var union := past + deleted + updated;
      ReadOutcome(files[w.path := w.file], location, w.entry) ==
        if past * deleted == {} && past * updated == {} && deleted * updated == {} then Success(union)
        else Failure(CardinalityMismatch(|past| + |deleted| + |updated|, |union|))
  {
    var w := WriteOutcome(location, uuid, past, deleted, updated).value;
    var union := past + deleted + updated;
    var bitmap := WrittenParts(location, uuid, past, deleted, updated);
    var payload := Payload(bitmap);
    ToFileNameOfWritten(uuid);
    EnvelopeRoundTrip(payload);
    DecodePayloadRoundTrip(bitmap);
    SignedValuesOfMerged(union);
    CardinalitySumIffDisjoint(past, deleted, updated);
    var files' := files[w.path := w.file];
    assert FileAt(files', AppendPath(location, DataFileName(uuid))) == Some(Envelope(|payload|, payload));
    assert ReadEnvelope(FileAt(files', AppendPath(location, DataFileName(uuid))), 1, w.entry.sizeInBytes) == Success(payload);
    assert DecodePayload(payload) == Success(union);
  }
}
