/** CRC-32 as computed by java.util.zip.CRC32: the reflected form of the ISO-HDLC / ITU-T V.42
    polynomial (0xEDB88320), register preset to all ones, result complemented. */
module Crc32 {
  import opened ByteOrder

  const POLYNOMIAL: bv32 := 0xEDB8_8320
  const PRESET: bv32 := 0xFFFF_FFFF

  /** One bit of the reflected shift register. */
  function ShiftBit(c: bv32): bv32 {
    if c & 1 == 1 then (c >> 1) ^ POLYNOMIAL else c >> 1
  }

  /** n bits of the shift register. */
  function ShiftBits(c: bv32, n: nat): bv32
    decreases n
  {
    if n == 0 then c else ShiftBits(ShiftBit(c), n - 1)
  }

  /** The register after one input byte. */
  function UpdateByte(c: bv32, b: bv8): bv32 {
    ShiftBits(c ^ (b as bv32), 8)
  }

  /** The register after feeding data, first byte first, into register c. */
  function Update(c: bv32, data: seq<bv8>): bv32
    decreases |data|
  {
    if data == [] then c else Update(UpdateByte(c, data[0]), data[1..])
  }

  /** CRC32.update(data) followed by getValue(), as a 32-bit word. */
  function Checksum(data: seq<bv8>): bv32 {
    Update(PRESET, data) ^ PRESET
  }

  /** The four bytes of a word, most significant first. */
  function WordBytes(w: bv32): (b: seq<bv8>)
    ensures |b| == 4
  {
    [((w >> 24) & 0xFF) as bv8, ((w >> 16) & 0xFF) as bv8, ((w >> 8) & 0xFF) as bv8, (w & 0xFF) as bv8]
  }

  /** A 32-bit word as a non-negative number. */
  function WordValue(w: bv32): (n: int)
    ensures 0 <= n < TWO_32
  {
    Pow256Widths();
    FromBigEndian(WordBytes(w))
  }

  /** CRC32.getValue: the checksum as a non-negative long. */
  function Value(data: seq<bv8>): (n: int)
    ensures 0 <= n < 0x1_0000_0000
  {
    WordValue(Checksum(data))
  }

  /** The shift register loses no information: because the polynomial's top bit is set, the
      bit shifted out can be read back from the top bit of the result. */
  lemma ShiftBitInjective(x: bv32, y: bv32)
    requires x != y
    ensures ShiftBit(x) != ShiftBit(y)
  {
    ShiftBitParts(x);
    ShiftBitParts(y);
    if x & 1 == y & 1 {
      assert x >> 1 != y >> 1 by { Halves(x); Halves(y); }
    }
  }

  /** The top bit of a shifted register is the bit shifted out, and the rest is the register
      shifted right. */
  lemma ShiftBitParts(c: bv32)
    ensures ShiftBit(c) >> 31 == c & 1
    ensures ShiftBit(c) ^ (if c & 1 == 1 then POLYNOMIAL else 0) == c >> 1
  {
  }

  /** A word is its upper 31 bits followed by its lowest bit. */
  lemma Halves(c: bv32)
    ensures c == ((c >> 1) << 1) | (c & 1)
  {
  }

  lemma {:induction false} ShiftBitsInjective(x: bv32, y: bv32, n: nat)
    ensures x != y ==> ShiftBits(x, n) != ShiftBits(y, n)
    decreases n
  {
    if n > 0 && x != y {
      ShiftBitInjective(x, y);
      ShiftBitsInjective(ShiftBit(x), ShiftBit(y), n - 1);
    }
  }

  /** Two registers that differ still differ after the same byte. */
  lemma UpdateByteKeepsDifference(c1: bv32, c2: bv32, b: bv8)
    requires c1 != c2
    ensures UpdateByte(c1, b) != UpdateByte(c2, b)
  {
    assert c1 ^ (b as bv32) != c2 ^ (b as bv32);
    ShiftBitsInjective(c1 ^ (b as bv32), c2 ^ (b as bv32), 8);
  }

  /** One register fed two different bytes ends in two different registers. */
  lemma UpdateByteSeparatesBytes(c: bv32, b1: bv8, b2: bv8)
    requires b1 != b2
    ensures UpdateByte(c, b1) != UpdateByte(c, b2)
  {
    assert c ^ (b1 as bv32) != c ^ (b2 as bv32);
    ShiftBitsInjective(c ^ (b1 as bv32), c ^ (b2 as bv32), 8);
  }

  lemma {:induction false} UpdateKeepsDifference(c1: bv32, c2: bv32, data: seq<bv8>)
    requires c1 != c2
    ensures Update(c1, data) != Update(c2, data)
    decreases |data|
  {
    if data != [] {
      UpdateByteKeepsDifference(c1, c2, data[0]);
      UpdateKeepsDifference(UpdateByte(c1, data[0]), UpdateByte(c2, data[0]), data[1..]);
    }
  }

  /** Registers fed equally long data that differ in exactly the byte at index k end apart. */
  lemma {:induction false} UpdateDetectsOneByte(c: bv32, a: seq<bv8>, b: seq<bv8>, k: nat)
    requires |a| == |b| && k < |a| && a[k] != b[k]
    requires forall i :: 0 <= i < |a| && i != k ==> a[i] == b[i]
    ensures Update(c, a) != Update(c, b)
    decreases |a|
  {
    if k == 0 {
      UpdateByteSeparatesBytes(c, a[0], b[0]);
      assert a[1..] == b[1..];
      UpdateKeepsDifference(UpdateByte(c, a[0]), UpdateByte(c, b[0]), a[1..]);
    } else {
      assert a[0] == b[0];
      UpdateDetectsOneByte(UpdateByte(c, a[0]), a[1..], b[1..], k - 1);
    }
  }

  /** Changing any single byte of the data changes its CRC-32. */
  lemma SingleByteChangeDetected(a: seq<bv8>, b: seq<bv8>, k: nat)
    requires |a| == |b| && k < |a| && a[k] != b[k]
    requires forall i :: 0 <= i < |a| && i != k ==> a[i] == b[i]
    ensures Checksum(a) != Checksum(b)
  {
    UpdateDetectsOneByte(PRESET, a, b, k);
  }

  /** The check value of the CRC-32/ISO-HDLC catalogue entry: the CRC of the ASCII digits
      "123456789" is 0xCBF43926. */
  lemma CheckValue()
    ensures Checksum([0x31, 0x32, 0x33, 0x34, 0x35, 0x36, 0x37, 0x38, 0x39]) == 0xCBF4_3926
  {
    var data: seq<bv8> := [0x31, 0x32, 0x33, 0x34, 0x35, 0x36, 0x37, 0x38, 0x39];
    assert UpdateByte(0xFFFF_FFFF, 0x31) == 0x7C23_1048;
    assert UpdateByte(0x7C23_1048, 0x32) == 0xB0AC_BB32;
    assert UpdateByte(0xB0AC_BB32, 0x33) == 0x77B7_9C2D;
    assert UpdateByte(0x77B7_9C2D, 0x34) == 0x641C_1F5C;
    assert UpdateByte(0x641C_1F5C, 0x35) == 0x340A_C5E3;
    assert UpdateByte(0x340A_C5E3, 0x36) == 0xF68D_2C9E;
    assert UpdateByte(0xF68D_2C9E, 0x37) == 0xAFFC_9660;
    assert UpdateByte(0xAFFC_9660, 0x38) == 0x651F_2550;
    assert UpdateByte(0x651F_2550, 0x39) == 0x340B_C6D9;
    assert Update(0x340B_C6D9, data[9..]) == 0x340B_C6D9;
    assert Update(0x651F_2550, data[8..]) == 0x340B_C6D9;
    assert Update(0xAFFC_9660, data[7..]) == 0x340B_C6D9;
    assert Update(0xF68D_2C9E, data[6..]) == 0x340B_C6D9;
    assert Update(0x340A_C5E3, data[5..]) == 0x340B_C6D9;
    assert Update(0x641C_1F5C, data[4..]) == 0x340B_C6D9;
    assert Update(0x77B7_9C2D, data[3..]) == 0x340B_C6D9;
    assert Update(0xB0AC_BB32, data[2..]) == 0x340B_C6D9;
    assert Update(0x7C23_1048, data[1..]) == 0x340B_C6D9;
    assert Update(PRESET, data) == 0x340B_C6D9;
  }

  /** Changing one byte of the data changes the value getValue reports. */
  lemma ValueDetectsOneByte(a: seq<bv8>, b: seq<bv8>, k: nat)
    requires |a| == |b| && k < |a| && a[k] != b[k]
    requires forall i :: 0 <= i < |a| && i != k ==> a[i] == b[i]
    ensures Value(a) != Value(b)
  {
    SingleByteChangeDetected(a, b, k);
    WordValueInjective(Checksum(a), Checksum(b));
  }

  lemma WordBytesInjective(x: bv32, y: bv32)
    requires x != y
    ensures WordBytes(x) != WordBytes(y)
  {
  }

  lemma WordValueInjective(x: bv32, y: bv32)
    requires x != y
    ensures WordValue(x) != WordValue(y)
  {
    WordBytesInjective(x, y);
    FromBigEndianRoundTrip(WordBytes(x));
    FromBigEndianRoundTrip(WordBytes(y));
  }

  /** The standard check value, as getValue reports it. */
  lemma CheckValueNumber()
    ensures Value([0x31, 0x32, 0x33, 0x34, 0x35, 0x36, 0x37, 0x38, 0x39]) == 0xCBF4_3926
  {
    CheckValue();
    var b := WordBytes(0xCBF4_3926);
    assert b == [0xCB, 0xF4, 0x39, 0x26];
    assert FromBigEndian(b[..1]) == 0xCB by {
      assert b[..1][..0] == [];
    }
    assert FromBigEndian(b[..2]) == 0xCBF4 by {
      assert b[..2][..1] == b[..1];
    }
    assert FromBigEndian(b[..3]) == 0xCBF439 by {
      assert b[..3][..2] == b[..2];
    }
    assert b[..4] == b && b[..4][..3] == b[..3];
  }
}
