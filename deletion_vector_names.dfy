/** The names of deletion-vector files: the UUID packed into 16 bytes and Base85-encoded as the
    descriptor's pathOrInlineDv, and the file name recovered from it, with its optional
    alphanumeric random prefix. */
module DeletionVectorNames {
  import opened Results
  import opened ByteOrder
  import opened JavaUuid
  import Base85Codec

  /** The characters the ALPHANUMERIC matcher accepts: A-Z, a-z and 0-9. */
  predicate IsAlphanumeric(c: char) {
    'A' <= c <= 'Z' || 'a' <= c <= 'z' || '0' <= c <= '9'
  }

  predicate AllAlphanumeric(s: string) {
    forall i :: 0 <= i < |s| ==> IsAlphanumeric(s[i])
  }

  /** The 16 bytes a big-endian ByteBuffer holds after putLong(msb) and putLong(lsb). */
  function UuidBytes(u: Uuid): (b: seq<bv8>)
    requires Valid(u)
    ensures |b| == 16
  {
    BigEndian(ToUint64(u.mostSigBits), 8) + BigEndian(ToUint64(u.leastSigBits), 8)
  }

  /** encodeUuid: the Base85 text of the UUID's 16 bytes. */
  function EncodeUuid(u: Uuid): (s: string)
    requires Valid(u)
    ensures |s| == Base85Codec.ENCODED_UUID_LENGTH
  {
    Base85Codec.Encode(UuidBytes(u))
  }

  /** decodeUuid: the Base85 bytes must be exactly 16, read as two big-endian longs. */
  function DecodeUuid(encoded: string): (r: Result<Uuid>)
    ensures r.Success? ==> Valid(r.value)
    ensures |encoded| != Base85Codec.ENCODED_UUID_LENGTH ==> r.Failure?
    ensures |encoded| % 5 != 0 ==> r == Failure(IllegalArgument)
  {
    var bytes :- Base85Codec.Decode(encoded);
    if |bytes| != 16 then Failure(IllegalArgument)
    else
      Pow256Widths();
      Success(Uuid(ToInt64(FromBigEndian(bytes[..8])), ToInt64(FromBigEndian(bytes[8..]))))
  }

  /** The name writeDeletionVectors gives the file of a new vector. */
  function DataFileName(u: Uuid): (name: string)
    requires Valid(u)
    ensures |name| == 56
  {
    "deletion_vector_" + ToString(u) + ".bin"
  }

  /** toFileName: the trailing ENCODED_UUID_LENGTH characters are the encoded UUID; anything
      before them is a random prefix that must be alphanumeric and becomes a directory. */
  function ToFileName(pathOrInlineDv: string): (r: Result<string>)
    ensures |pathOrInlineDv| < Base85Codec.ENCODED_UUID_LENGTH ==> r == Failure(IndexOutOfBounds)
    ensures |pathOrInlineDv| >= Base85Codec.ENCODED_UUID_LENGTH ==>
      var randomPrefix := pathOrInlineDv[..|pathOrInlineDv| - Base85Codec.ENCODED_UUID_LENGTH];
      !AllAlphanumeric(randomPrefix) ==> r == Failure(IllegalArgument)
  {
    var prefixLength := |pathOrInlineDv| - Base85Codec.ENCODED_UUID_LENGTH;
    if prefixLength < 0 then Failure(IndexOutOfBounds)
    else
      var randomPrefix := pathOrInlineDv[..prefixLength];
      if !AllAlphanumeric(randomPrefix) then Failure(IllegalArgument)
      else
        var prefix := if randomPrefix == [] then "" else randomPrefix + "/";
        var uuid :- DecodeUuid(pathOrInlineDv[prefixLength..]);
        Success(prefix + DataFileName(uuid))
  }

  /** Reading back the 16 bytes of a UUID gives the UUID. */
  lemma UuidBytesRoundTrip(u: Uuid)
    requires Valid(u)
    ensures var b := UuidBytes(u);
      ToInt64(FromBigEndian(b[..8])) == u.mostSigBits && ToInt64(FromBigEndian(b[8..])) == u.leastSigBits
  {
    Pow256Widths();
    var b := UuidBytes(u);
    var m, l := ToUint64(u.mostSigBits), ToUint64(u.leastSigBits);
    assert b[..8] == BigEndian(m, 8) && b[8..] == BigEndian(l, 8);
    BigEndianRoundTrip(m, 8);
    BigEndianRoundTrip(l, 8);
    Int64RoundTrip(u.mostSigBits, 0);
    Int64RoundTrip(u.leastSigBits, 0);
  }

  /** decodeUuid undoes encodeUuid. */
  lemma DecodeEncodeUuid(u: Uuid)
    requires Valid(u)
    ensures DecodeUuid(EncodeUuid(u)) == Success(u)
  {
    Base85Codec.DecodeEncode(UuidBytes(u));
    UuidBytesRoundTrip(u);
  }

  lemma ToFileNameSplit(randomPrefix: string, encoded: string, u: Uuid)
    requires |encoded| == Base85Codec.ENCODED_UUID_LENGTH && AllAlphanumeric(randomPrefix)
    requires DecodeUuid(encoded) == Success(u)
    ensures ToFileName(randomPrefix + encoded) ==
      Success((if randomPrefix == [] then "" else randomPrefix + "/") + DataFileName(u))
  {
    var s := randomPrefix + encoded;
    assert s[..|randomPrefix|] == randomPrefix;
    assert s[|randomPrefix|..] == encoded;
  }

  /** The name toFileName derives from a random prefix followed by an encoded UUID: a prefix
      segment when the prefix is not empty, none when it is. */
  lemma ToFileNameOfEncoded(randomPrefix: string, u: Uuid)
    requires Valid(u) && AllAlphanumeric(randomPrefix)
    ensures randomPrefix == "" ==> ToFileName(randomPrefix + EncodeUuid(u)) == Success(DataFileName(u))
    ensures randomPrefix != "" ==>
      ToFileName(randomPrefix + EncodeUuid(u)) == Success(randomPrefix + "/" + DataFileName(u))
  {
    var encoded := EncodeUuid(u);
    var name := DataFileName(u);
    DecodeEncodeUuid(u);
    ToFileNameSplit(randomPrefix, encoded, u);
    if randomPrefix == "" {
      assert "" + name == name;
    } else {
      assert randomPrefix + "/" + name == (randomPrefix + "/") + name;
    }
  }

  /** The descriptor of a new vector names exactly the file it was written to. */
  lemma ToFileNameOfWritten(u: Uuid)
    requires Valid(u)
    ensures ToFileName(EncodeUuid(u)) == Success(DataFileName(u))
  {
    ToFileNameOfEncoded("", u);
    assert "" + EncodeUuid(u) == EncodeUuid(u);
  }

  /** Distinct UUIDs give distinct file names. */
  lemma DataFileNameInjective(u1: Uuid, u2: Uuid)
    requires Valid(u1) && Valid(u2) && u1 != u2
    ensures DataFileName(u1) != DataFileName(u2)
  {
    ToStringInjective(u1, u2);
    assert DataFileName(u1)[16..52] == ToString(u1);
    assert DataFileName(u2)[16..52] == ToString(u2);
  }
}
