/** The correspondence between a byte and its numeric value, kept apart from the rest of the
    byte-order arithmetic so that each proof sees only what it needs. The byte of a number is
    assembled bit by bit rather than by a conversion, which keeps the solver's arithmetic linear. */
module ByteValues {
  /** The byte whose value is n, assembled bit by bit from the most significant end. */
  function ByteOf(n: nat): (b: bv8)
    requires n < 256
    ensures b as nat == n
    decreases n
  {
    if n == 0 then 0
    else
      var high := ByteOf(n / 2);
      ShiftIn(high, n % 2 == 1);
      (high << 1) | (if n % 2 == 1 then 1 else 0)
  }

  /** Shifting one more bit in below a byte value under 128 doubles it and adds the bit. */
  lemma ShiftIn(high: bv8, odd: bool)
    requires high as nat < 128
    ensures ((high << 1) | (if odd then 1 else 0)) as nat == 2 * (high as nat) + (if odd then 1 else 0)
  {
  }

  /** A byte is the byte of its own value. */
  lemma ByteOfValue(b: bv8)
    ensures ByteOf(b as nat) == b
  {
    var c := ByteOf(b as nat);
    assert (c as nat) as bv8 == c && (b as nat) as bv8 == b;
  }
}
