/** RoaringBitmap, the 32-bit bitmap the deletion-vector payload embeds. A bitmap is modelled
    by the values it holds in ascending unsigned order. Its wire form here is a stand-in for
    the Roaring portable format: a little-endian 32-bit value count followed by each value as
    a little-endian 32-bit word, ascending. Like the real format it is self-describing, and
    serializedSizeInBytes is the number of bytes deserialize reads. */
module Roaring {
  import opened Results
  import opened ByteOrder

  predicate IsUint32(x: int) {
    0 <= x < TWO_32
  }

  predicate Ascending(s: seq<int>) {
    forall i, j :: 0 <= i < j < |s| ==> s[i] < s[j]
  }

  /** A well-formed bitmap: distinct unsigned 32-bit values in ascending order. */
  predicate IsBitmap(bm: seq<int>) {
    Ascending(bm) && forall i :: 0 <= i < |bm| ==> IsUint32(bm[i])
  }

  function Contents(bm: seq<int>): set<int> {
    set x | x in bm
  }

  /** RoaringBitmap.add. */
  function Add(bm: seq<int>, x: int): (r: seq<int>)
    requires IsBitmap(bm) && IsUint32(x)
    ensures IsBitmap(r) && Contents(r) == Contents(bm) + {x}
    decreases |bm|
  {
    if bm == [] then [x]
    else if x < bm[0] then
      HeadBelowTail(bm);
      ConsBitmap(x, bm);
      [x] + bm
    else if x == bm[0] then
      HeadBelowTail(bm);
      bm
    else
      HeadBelowTail(bm);
      var rest := Add(bm[1..], x);
      ConsBitmap(bm[0], rest);
      [bm[0]] + rest
  }

  /** Prepending a value below every element keeps a bitmap well formed. */
  lemma ConsBitmap(x: int, bm: seq<int>)
    requires IsUint32(x) && IsBitmap(bm)
    requires forall y :: y in Contents(bm) ==> x < y
    ensures IsBitmap([x] + bm) && Contents([x] + bm) == {x} + Contents(bm)
  {
    var r := [x] + bm;
    forall i, j | 0 <= i < j < |r| ensures r[i] < r[j] {
      if i > 0 {
        assert r[i] == bm[i - 1] && r[j] == bm[j - 1];
      } else {
        assert r[j] == bm[j - 1] && r[j] in Contents(bm);
      }
    }
  }

  /** The head of a bitmap lies below its tail, which is a bitmap too. */
  lemma HeadBelowTail(bm: seq<int>)
    requires IsBitmap(bm) && bm != []
    ensures IsBitmap(bm[1..]) && bm == [bm[0]] + bm[1..]
    ensures Contents(bm) == {bm[0]} + Contents(bm[1..])
    ensures forall y :: y in Contents(bm[1..]) ==> bm[0] < y
  {
    assert bm == [bm[0]] + bm[1..];
    forall y | y in Contents(bm[1..]) ensures bm[0] < y {
      var i :| 0 <= i < |bm[1..]| && bm[1..][i] == y;
      assert bm[i + 1] == y;
    }
  }

  /** A non-empty set has an element. */
  lemma SomeElement(s: set<int>)
    requires s != {}
    ensures exists x :: x in s
  {
    if forall x :: x !in s {
      assert false;
    }
  }

  /** Only the empty sequence holds no values. */
  lemma EmptyContents(s: seq<int>)
    ensures Contents(s) == {} ==> s == []
  {
    if s != [] {
      assert s[0] in Contents(s);
    }
  }

  /** The least element of a non-empty finite set. */
  ghost function Min(s: set<int>): (m: int)
    requires s != {}
    ensures m in s && forall x :: x in s ==> m <= x
    decreases |s|
  {
    SomeElement(s);
    var x :| x in s;
    if s == {x} then
      assert forall y :: y in s ==> y == x;
      x
    else
      var m := Min(s - {x});
      assert forall y :: y in s ==> y == x || y in s - {x};
      if x < m then x else m
  }

  /** The bitmap holding exactly the values of s. */
  ghost function FromSet(s: set<int>): (bm: seq<int>)
    requires forall x :: x in s ==> IsUint32(x)
    ensures IsBitmap(bm) && Contents(bm) == s && |bm| == |s|
    decreases |s|
  {
    if s == {} then []
    else
      var m := Min(s);
      MinSplit(s, m);
      var rest := FromSet(s - {m});
      ConsBitmap(m, rest);
      [m] + rest
  }

  /** Taking the least element out of a set leaves the values above it. */
  lemma MinSplit(s: set<int>, m: int)
    requires m in s && forall x :: x in s ==> m <= x
    ensures |s - {m}| == |s| - 1 && {m} + (s - {m}) == s
    ensures forall y :: y in s - {m} ==> m < y
  {
  }

  /** A bitmap is determined by its values. */
  lemma {:induction false} AscendingUnique(a: seq<int>, b: seq<int>)
    requires Ascending(a) && Ascending(b) && Contents(a) == Contents(b)
    ensures a == b
    decreases |a|
  {
    if a != [] {
      assert a[0] in Contents(b);
      assert b != [] && b[0] in Contents(a);
      assert a[0] == b[0] by {
        var i :| 0 <= i < |b| && b[i] == a[0];
        var j :| 0 <= j < |a| && a[j] == b[0];
      }
      assert Contents(a[1..]) == Contents(a) - {a[0]} by {
        assert a == [a[0]] + a[1..];
      }
      assert Contents(b[1..]) == Contents(b) - {b[0]} by {
        assert b == [b[0]] + b[1..];
      }
      AscendingUnique(a[1..], b[1..]);
    } else {
      EmptyContents(b);
    }
  }

  /** RoaringBitmap.serializedSizeInBytes. */
  function SerializedSizeInBytes(bm: seq<int>): nat {
    4 + 4 * |bm|
  }

  function ValuesBytes(vs: seq<int>): (r: seq<bv8>)
    requires forall i :: 0 <= i < |vs| ==> IsUint32(vs[i])
    ensures |r| == 4 * |vs|
  {
    if vs == [] then [] else
      assert IsUint32(vs[0]);
      LittleEndian(vs[0], 4) + ValuesBytes(vs[1..])
  }

  /** RoaringBitmap.serialize. */
  function Serialize(bm: seq<int>): (r: seq<bv8>)
    requires IsBitmap(bm)
    ensures |r| == SerializedSizeInBytes(bm)
  {
    LittleEndian(|bm|, 4) + ValuesBytes(bm)
  }

  /** n little-endian words starting at index pos. */
  function ParseValues(bytes: seq<bv8>, pos: nat, n: nat): (r: Result<seq<int>>)
    requires pos <= |bytes|
    ensures r.Success? ==> |r.value| == n && pos + 4 * n <= |bytes|
    ensures r.Success? ==> forall i :: 0 <= i < n ==> IsUint32(r.value[i])
    decreases n
  {
    if n == 0 then Success([])
    else if pos + 4 > |bytes| then Failure(Truncated)
    else
      Pow256Widths();
      var v := FromLittleEndian(bytes[pos..pos + 4]);
      var rest :- ParseValues(bytes, pos + 4, n - 1);
      Success([v] + rest)
  }

  /** RoaringBitmap.deserialize reading from index pos: the bitmap, which occupies the
      serializedSizeInBytes bytes that start at pos. */
  function Deserialize(bytes: seq<bv8>, pos: nat): (r: Result<seq<int>>)
    ensures r.Success? ==> IsBitmap(r.value) && pos + SerializedSizeInBytes(r.value) <= |bytes|
  {
    if pos + 4 > |bytes| then Failure(Truncated)
    else
      var n := FromLittleEndian(bytes[pos..pos + 4]);
      var values :- ParseValues(bytes, pos + 4, n);
      if Ascending(values) then Success(values) else Failure(MalformedBitmap)
  }

  /** Parsing one word in front of further words. */
  lemma ParseValuesCons(bytes: seq<bv8>, pos: nat, n: nat, v: int, rest: seq<int>)
    requires n > 0 && pos + 4 <= |bytes|
    requires FromLittleEndian(bytes[pos..pos + 4]) == v
    requires ParseValues(bytes, pos + 4, n - 1) == Success(rest)
    ensures ParseValues(bytes, pos, n) == Success([v] + rest)
  {
  }

  /** Regrouping a concatenation around a part that is itself a concatenation. */
  lemma SplitAround(prefix: seq<bv8>, whole: seq<bv8>, word: seq<bv8>, tail: seq<bv8>, suffix: seq<bv8>)
    requires whole == word + tail
    ensures prefix + whole + suffix == (prefix + word) + tail + suffix
  {
    assert prefix + (word + tail) == (prefix + word) + tail;
  }

  /** A word stands where it was put. */
  lemma WordAt(prefix: seq<bv8>, word: seq<bv8>, tail: seq<bv8>, suffix: seq<bv8>)
    ensures ((prefix + word) + tail + suffix)[|prefix|..|prefix| + |word|] == word
  {
    assert (prefix + word) + tail + suffix == prefix + (word + (tail + suffix));
  }

  lemma {:induction false} ParseValuesBytes(vs: seq<int>, prefix: seq<bv8>, suffix: seq<bv8>)
    requires forall i :: 0 <= i < |vs| ==> IsUint32(vs[i])
    ensures ParseValues(prefix + ValuesBytes(vs) + suffix, |prefix|, |vs|) == Success(vs)
    decreases |vs|
  {
    if vs != [] {
      var bytes := prefix + ValuesBytes(vs) + suffix;
      var word := LittleEndian(vs[0], 4);
      SplitAround(prefix, ValuesBytes(vs), word, ValuesBytes(vs[1..]), suffix);
      WordAt(prefix, word, ValuesBytes(vs[1..]), suffix);
      Pow256Widths();
      LittleEndianRoundTrip(vs[0], 4);
      ParseValuesBytes(vs[1..], prefix + word, suffix);
      ParseValuesCons(bytes, |prefix|, |vs|, vs[0], vs[1..]);
      assert [vs[0]] + vs[1..] == vs;
    }
  }

  /** Deserializing a serialized bitmap gives it back, whatever surrounds it. */
  lemma DeserializeSerialize(bm: seq<int>, prefix: seq<bv8>, suffix: seq<bv8>)
    requires IsBitmap(bm) && |bm| < TWO_32
    ensures Deserialize(prefix + Serialize(bm) + suffix, |prefix|) == Success(bm)
  {
    Pow256Widths();
    var count := LittleEndian(|bm|, 4);
    var bytes := prefix + Serialize(bm) + suffix;
    assert bytes == (prefix + count) + ValuesBytes(bm) + suffix;
    assert bytes[|prefix|..|prefix| + 4] == count;
    LittleEndianRoundTrip(|bm|, 4);
    ParseValuesBytes(bm, prefix + count, suffix);
  }
}
