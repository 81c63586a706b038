/** Fixed-width integers of the JVM and their byte layouts: two's complement words and their
    little-endian (java.nio.ByteBuffer in LITTLE_ENDIAN order) and big-endian
    (java.io.DataOutputStream, DataInputStream, ByteBuffer's default order) byte sequences. */
module ByteOrder {
  import opened ByteValues

  const TWO_32: int := 0x1_0000_0000
  const TWO_64: int := 0x1_0000_0000_0000_0000
  const INT32_MIN: int := -0x8000_0000
  const INT32_MAX: int := 0x7FFF_FFFF
  const INT64_MIN: int := -0x8000_0000_0000_0000
  const INT64_MAX: int := 0x7FFF_FFFF_FFFF_FFFF

  /** The values of a Java int. */
  predicate IsInt32(v: int) {
    INT32_MIN <= v <= INT32_MAX
  }

  /** The values of a Java long. */
  predicate IsInt64(v: int) {
    INT64_MIN <= v <= INT64_MAX
  }

  /** The 32-bit two's complement word of an int, read as an unsigned number. */
  function ToUint32(v: int): (u: int)
    requires IsInt32(v)
    ensures 0 <= u < TWO_32
    ensures u % TWO_32 == v % TWO_32
  {
    if v < 0 then v + TWO_32 else v
  }

  /** The int whose two's complement word is u: Java's (int) cast of a value in [0, 2^32). */
  function ToInt32(u: int): (v: int)
    requires 0 <= u < TWO_32
    ensures IsInt32(v)
    ensures v % TWO_32 == u % TWO_32
  {
    if u <= INT32_MAX then u else u - TWO_32
  }

  /** Java int arithmetic: the int congruent to x modulo 2^32. */
  function WrapInt32(x: int): (v: int)
    ensures IsInt32(v) && (x - v) % TWO_32 == 0
    ensures IsInt32(x) ==> v == x
  {
    ToInt32(x % TWO_32)
  }

  function ToUint64(v: int): (u: int)
    requires IsInt64(v)
    ensures 0 <= u < TWO_64
    ensures u % TWO_64 == v % TWO_64
  {
    if v < 0 then v + TWO_64 else v
  }

  function ToInt64(u: int): (v: int)
    requires 0 <= u < TWO_64
    ensures IsInt64(v)
    ensures v % TWO_64 == u % TWO_64
  {
    if u <= INT64_MAX then u else u - TWO_64
  }

  lemma Int32RoundTrip(v: int, u: int)
    ensures IsInt32(v) ==> ToInt32(ToUint32(v)) == v
    ensures 0 <= u < TWO_32 ==> ToUint32(ToInt32(u)) == u
  {
  }

  lemma Int64RoundTrip(v: int, u: int)
    ensures IsInt64(v) ==> ToInt64(ToUint64(v)) == v
    ensures 0 <= u < TWO_64 ==> ToUint64(ToInt64(u)) == u
  {
  }

  function Pow256(k: nat): (p: nat)
    ensures p > 0
  {
    if k == 0 then 1 else 256 * Pow256(k - 1)
  }

  lemma Pow256Widths()
    ensures Pow256(4) == TWO_32 && Pow256(8) == TWO_64
  {
  }

  /** The k low-order bytes of n, least significant first. */
  function LittleEndian(n: nat, k: nat): (s: seq<bv8>)
    ensures |s| == k
  {
    if k == 0 then [] else [ByteOf(n % 256)] + LittleEndian(n / 256, k - 1)
  }

  /** The number whose bytes, least significant first, are s. */
  function FromLittleEndian(s: seq<bv8>): (n: nat)
    ensures n < Pow256(|s|)
  {
    if s == [] then 0 else s[0] as nat + 256 * FromLittleEndian(s[1..])
  }

  /** The k low-order bytes of n, most significant first. */
  function BigEndian(n: nat, k: nat): (s: seq<bv8>)
    ensures |s| == k
  {
    if k == 0 then [] else BigEndian(n / 256, k - 1) + [ByteOf(n % 256)]
  }

  /** The number whose bytes, most significant first, are s. */
  function FromBigEndian(s: seq<bv8>): (n: nat)
    ensures n < Pow256(|s|)
  {
    if s == [] then 0 else 256 * FromBigEndian(s[..|s| - 1]) + s[|s| - 1] as nat
  }

  lemma SplitLowByte(n: nat, p: nat)
    requires n < 256 * p
    ensures n == n % 256 + 256 * (n / 256) && n / 256 < p
  {
  }

  lemma JoinLowByte(high: nat, low: bv8)
    ensures (256 * high + low as nat) % 256 == low as nat
    ensures (256 * high + low as nat) / 256 == high
  {
  }

  lemma {:induction false} LittleEndianRoundTrip(n: nat, k: nat)
    requires n < Pow256(k)
    ensures FromLittleEndian(LittleEndian(n, k)) == n
  {
    if k > 0 {
      var s := LittleEndian(n, k);
      SplitLowByte(n, Pow256(k - 1));
      assert s[1..] == LittleEndian(n / 256, k - 1);
      LittleEndianRoundTrip(n / 256, k - 1);
    }
  }

  /** The k bytes of a number whose low byte is b. */
  lemma LittleEndianCons(n: nat, k: nat, b: bv8, high: nat)
    requires k > 0 && n == 256 * high + b as nat
    ensures LittleEndian(n, k) == [b] + LittleEndian(high, k - 1)
  {
    JoinLowByte(high, b);
    ByteOfValue(b);
  }

  lemma {:induction false} FromLittleEndianRoundTrip(s: seq<bv8>)
    ensures LittleEndian(FromLittleEndian(s), |s|) == s
  {
    if s != [] {
      FromLittleEndianRoundTrip(s[1..]);
      LittleEndianCons(FromLittleEndian(s), |s|, s[0], FromLittleEndian(s[1..]));
      assert [s[0]] + s[1..] == s;
    }
  }

  lemma {:induction false} BigEndianRoundTrip(n: nat, k: nat)
    requires n < Pow256(k)
    ensures FromBigEndian(BigEndian(n, k)) == n
  {
    if k > 0 {
      var s := BigEndian(n, k);
      SplitLowByte(n, Pow256(k - 1));
      assert s[..k - 1] == BigEndian(n / 256, k - 1);
      BigEndianRoundTrip(n / 256, k - 1);
    }
  }

  /** The k bytes of a number whose low byte is b. */
  lemma BigEndianSnoc(n: nat, k: nat, b: bv8, high: nat)
    requires k > 0 && n == 256 * high + b as nat
    ensures BigEndian(n, k) == BigEndian(high, k - 1) + [b]
  {
    JoinLowByte(high, b);
    ByteOfValue(b);
  }

  lemma {:induction false} FromBigEndianRoundTrip(s: seq<bv8>)
    ensures BigEndian(FromBigEndian(s), |s|) == s
  {
    if s != [] {
      var init := s[..|s| - 1];
      FromBigEndianRoundTrip(init);
      BigEndianSnoc(FromBigEndian(s), |s|, s[|s| - 1], FromBigEndian(init));
      assert init + [s[|s| - 1]] == s;
    }
  }

  /** ByteBuffer.putInt in LITTLE_ENDIAN order. */
  function Le32(v: int): (s: seq<bv8>)
    requires IsInt32(v)
    ensures |s| == 4
  {
    LittleEndian(ToUint32(v), 4)
  }

  /** ByteBuffer.putLong in LITTLE_ENDIAN order. */
  function Le64(v: int): (s: seq<bv8>)
    requires IsInt64(v)
    ensures |s| == 8
  {
    LittleEndian(ToUint64(v), 8)
  }

  /** DataOutputStream.writeInt: big-endian. */
  function Be32(v: int): (s: seq<bv8>)
    requires IsInt32(v)
    ensures |s| == 4
  {
    BigEndian(ToUint32(v), 4)
  }

  /** ByteBuffer.getInt at index i in LITTLE_ENDIAN order. */
  function GetLe32(s: seq<bv8>, i: nat): (v: int)
    requires i + 4 <= |s|
    ensures IsInt32(v)
  {
    Pow256Widths();
    ToInt32(FromLittleEndian(s[i..i + 4]))
  }

  /** ByteBuffer.getLong at index i in LITTLE_ENDIAN order. */
  function GetLe64(s: seq<bv8>, i: nat): (v: int)
    requires i + 8 <= |s|
    ensures IsInt64(v)
  {
    Pow256Widths();
    ToInt64(FromLittleEndian(s[i..i + 8]))
  }

  /** DataInputStream.readInt of the four bytes of s. */
  function ReadBe32(s: seq<bv8>): (v: int)
    requires |s| == 4
    ensures IsInt32(v)
  {
    Pow256Widths();
    ToInt32(FromBigEndian(s))
  }

  lemma Le32RoundTrip(v: int, prefix: seq<bv8>, suffix: seq<bv8>)
    requires IsInt32(v)
    ensures GetLe32(prefix + Le32(v) + suffix, |prefix|) == v
  {
    var s := prefix + Le32(v) + suffix;
    assert s[|prefix|..|prefix| + 4] == Le32(v);
    Pow256Widths();
    LittleEndianRoundTrip(ToUint32(v), 4);
  }

  lemma Le64RoundTrip(v: int, prefix: seq<bv8>, suffix: seq<bv8>)
    requires IsInt64(v)
    ensures GetLe64(prefix + Le64(v) + suffix, |prefix|) == v
  {
    var s := prefix + Le64(v) + suffix;
    assert s[|prefix|..|prefix| + 8] == Le64(v);
    Pow256Widths();
    LittleEndianRoundTrip(ToUint64(v), 8);
  }

  lemma Be32RoundTrip(v: int)
    requires IsInt32(v)
    ensures ReadBe32(Be32(v)) == v
  {
    Pow256Widths();
    BigEndianRoundTrip(ToUint32(v), 4);
  }

  /** Reading an int and writing it back restores the four bytes. */
  lemma ReadBe32Inverse(s: seq<bv8>)
    requires |s| == 4
    ensures Be32(ReadBe32(s)) == s
  {
    Pow256Widths();
    FromBigEndianRoundTrip(s);
  }
}
