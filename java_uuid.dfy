/** java.util.UUID: a 128-bit value held as two signed longs, and its canonical text, the
    8-4-4-4-12 lower-case hexadecimal form of section 3 of RFC 4122. */
module JavaUuid {
  import opened ByteOrder

  datatype Uuid = Uuid(mostSigBits: int, leastSigBits: int)

  /** Both halves are Java longs. */
  predicate Valid(u: Uuid) {
    IsInt64(u.mostSigBits) && IsInt64(u.leastSigBits)
  }

  predicate IsLowerHex(c: char) {
    '0' <= c <= '9' || 'a' <= c <= 'f'
  }

  function HexDigit(d: nat): (c: char)
    requires d < 16
    ensures IsLowerHex(c)
  {
    if d < 10 then (48 + d) as char else (97 + d - 10) as char
  }

  function Pow16(k: nat): (p: nat)
    ensures p > 0
  {
    if k == 0 then 1 else 16 * Pow16(k - 1)
  }

  /** The k low-order hexadecimal digits of n, most significant first. */
  function Hex(n: nat, k: nat): (s: string)
    ensures |s| == k && forall i :: 0 <= i < k ==> IsLowerHex(s[i])
  {
    if k == 0 then "" else Hex(n / 16, k - 1) + [HexDigit(n % 16)]
  }

  /** UUID.toString. */
  function ToString(u: Uuid): (s: string)
    requires Valid(u)
    ensures |s| == 36
    ensures s[8] == '-' && s[13] == '-' && s[18] == '-' && s[23] == '-'
    ensures forall i :: 0 <= i < 36 && i != 8 && i != 13 && i != 18 && i != 23 ==> IsLowerHex(s[i])
  {
    var m := Hex(ToUint64(u.mostSigBits), 16);
    var l := Hex(ToUint64(u.leastSigBits), 16);
    m[..8] + "-" + m[8..12] + "-" + m[12..] + "-" + l[..4] + "-" + l[4..]
  }

  lemma {:induction false} HexInjective(n1: nat, n2: nat, k: nat)
    requires n1 < Pow16(k) && n2 < Pow16(k) && n1 != n2
    ensures Hex(n1, k) != Hex(n2, k)
    decreases k
  {
    var h1, h2 := Hex(n1, k), Hex(n2, k);
    if n1 % 16 != n2 % 16 {
      assert h1[k - 1] == HexDigit(n1 % 16) && h2[k - 1] == HexDigit(n2 % 16);
    } else {
      assert n1 / 16 != n2 / 16;
      HexInjective(n1 / 16, n2 / 16, k - 1);
      assert h1[..k - 1] == Hex(n1 / 16, k - 1) && h2[..k - 1] == Hex(n2 / 16, k - 1);
    }
  }

  lemma Pow16Of16()
    ensures Pow16(16) == TWO_64
  {
    assert Pow16(4) == 0x1_0000;
    assert Pow16(8) == 0x1_0000 * Pow16(4) by {
      assert Pow16(8) == 16 * 16 * 16 * 16 * Pow16(4);
    }
    assert Pow16(12) == 0x1_0000 * Pow16(8) by {
      assert Pow16(12) == 16 * 16 * 16 * 16 * Pow16(8);
    }
    assert Pow16(16) == 0x1_0000 * Pow16(12) by {
      assert Pow16(16) == 16 * 16 * 16 * 16 * Pow16(12);
    }
  }

  /** The two halves of the text, with the hyphens taken out, are the two hexadecimal words. */
  lemma ToStringParts(u: Uuid)
    requires Valid(u)
    ensures var s := ToString(u);
      s[..8] + s[9..13] + s[14..18] == Hex(ToUint64(u.mostSigBits), 16) &&
      s[19..23] + s[24..] == Hex(ToUint64(u.leastSigBits), 16)
  {
    var s := ToString(u);
    var m := Hex(ToUint64(u.mostSigBits), 16);
    var l := Hex(ToUint64(u.leastSigBits), 16);
    assert s[..8] == m[..8] && s[9..13] == m[8..12] && s[14..18] == m[12..];
    assert m[..8] + m[8..12] + m[12..] == m;
    assert s[19..23] == l[..4] && s[24..] == l[4..];
    assert l[..4] + l[4..] == l;
  }

  /** Distinct identifiers have distinct canonical texts. */
  lemma ToStringInjective(u1: Uuid, u2: Uuid)
    requires Valid(u1) && Valid(u2) && u1 != u2
    ensures ToString(u1) != ToString(u2)
  {
    Pow16Of16();
    ToStringParts(u1);
    ToStringParts(u2);
    if u1.mostSigBits != u2.mostSigBits {
      HexInjective(ToUint64(u1.mostSigBits), ToUint64(u2.mostSigBits), 16);
    } else {
      HexInjective(ToUint64(u1.leastSigBits), ToUint64(u2.leastSigBits), 16);
    }
  }
}
