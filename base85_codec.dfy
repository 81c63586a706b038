// Base85Codec, the compact identifier encoding of deletion-vector UUIDs: the Z85 variant of
// ZeroMQ RFC 32. Every four bytes, read as one big-endian unsigned word, become five
// characters of the alphabet
//   0123456789abcdefghijklmnopqrstuvwxyzABCDEFGHIJKLMNOPQRSTUVWXYZ.-:+=^!/*?&<>()[]{}@%$#
// most significant digit first.
module Base85Codec {
  import opened Results
  import opened ByteOrder

  /** Sixteen bytes always encode into twenty characters. */
  const ENCODED_UUID_LENGTH: nat := 20

  /** Digits 62 to 84 of the alphabet. */
  function PunctuationDigit(k: nat): char
    requires k < 23
  {
    match k
    case 0 => '.'  case 1 => '-'  case 2 => ':'  case 3 => '+'  case 4 => '='
    case 5 => '^'  case 6 => '!'  case 7 => '/'  case 8 => '*'  case 9 => '?'
    case 10 => '&' case 11 => '<' case 12 => '>' case 13 => '(' case 14 => ')'
    case 15 => '[' case 16 => ']' case 17 => '{' case 18 => '}' case 19 => '@'
    case 20 => '%' case 21 => '$' case _ => '#'
  }

  function PunctuationValue(c: char): (r: Option<nat>)
    ensures r.Some? ==> r.value < 23 && PunctuationDigit(r.value) == c
  {
    match c
    case '.' => Some(0)  case '-' => Some(1)  case ':' => Some(2)  case '+' => Some(3)
    case '=' => Some(4)  case '^' => Some(5)  case '!' => Some(6)  case '/' => Some(7)
    case '*' => Some(8)  case '?' => Some(9)  case '&' => Some(10) case '<' => Some(11)
    case '>' => Some(12) case '(' => Some(13) case ')' => Some(14) case '[' => Some(15)
    case ']' => Some(16) case '{' => Some(17) case '}' => Some(18) case '@' => Some(19)
    case '%' => Some(20) case '$' => Some(21) case '#' => Some(22)
    case _ => None
  }

  /** The character of base-85 digit d. */
  function Digit(d: nat): char
    requires d < 85
  {
    if d < 10 then (48 + d) as char
    else if d < 36 then (97 + d - 10) as char
    else if d < 62 then (65 + d - 36) as char
    else PunctuationDigit(d - 62)
  }

  /** The digit a character stands for; None for a character outside the alphabet. */
  function DigitValue(c: char): (r: Option<nat>)
    ensures r.Some? ==> r.value < 85 && Digit(r.value) == c
  {
    if '0' <= c <= '9' then Some(c as int - 48)
    else if 'a' <= c <= 'z' then Some(c as int - 97 + 10)
    else if 'A' <= c <= 'Z' then Some(c as int - 65 + 36)
    else match PunctuationValue(c)
      case Some(k) => Some(62 + k)
      case None => None
  }

  lemma DigitRoundTrip(d: nat)
    requires d < 85
    ensures DigitValue(Digit(d)) == Some(d)
  {
    if d >= 62 {
      PunctuationRoundTrip(d - 62);
    }
  }

  lemma PunctuationRoundTrip(k: nat)
    requires k < 23
    ensures PunctuationValue(PunctuationDigit(k)) == Some(k)
  {
  }

  function Pow85(k: nat): (p: nat)
    ensures p > 0
  {
    if k == 0 then 1 else 85 * Pow85(k - 1)
  }

  /** The k low-order base-85 digits of w, most significant first. */
  function EncodeDigits(w: nat, k: nat): (s: string)
    ensures |s| == k
  {
    if k == 0 then "" else EncodeDigits(w / 85, k - 1) + [Digit(w % 85)]
  }

  /** The number whose base-85 digits, most significant first, are s; None when s holds a
      character outside the alphabet. */
  function DecodeDigits(s: string): (r: Option<nat>)
  {
    if s == "" then Some(0)
    else
      match (DecodeDigits(s[..|s| - 1]), DigitValue(s[|s| - 1]))
      case (Some(high), Some(d)) => Some(85 * high + d)
      case _ => None
  }

  /** The five characters of one unsigned 32-bit word. */
  function EncodeWord(w: nat): (s: string)
    requires w < TWO_32
    ensures |s| == 5
  {
    EncodeDigits(w, 5)
  }

  /** The word five characters stand for, kept to its low 32 bits. */
  function DecodeWord(s: string): (r: Result<nat>)
    requires |s| == 5
    ensures r.Success? ==> r.value < TWO_32
  {
    match DecodeDigits(s)
    case Some(v) => Success(v % TWO_32)
    case None => Failure(IllegalArgument)
  }

  /** The encoding of n four-byte blocks: five characters per block. */
  function EncodeBlocks(data: seq<bv8>, n: nat): (s: string)
    requires |data| == 4 * n
    ensures |s| == 5 * n
  {
    if n == 0 then ""
    else
      Pow256Widths();
      EncodeWord(FromBigEndian(data[..4])) + EncodeBlocks(data[4..], n - 1)
  }

  /** Base85Codec.encode of a buffer whose length is a multiple of four. */
  function Encode(data: seq<bv8>): (s: string)
    requires |data| % 4 == 0
    ensures |s| == |data| / 4 * 5
  {
    EncodeBlocks(data, |data| / 4)
  }

  /** The bytes of n five-character groups, four per group. */
  function DecodeBlocks(s: string, n: nat): (r: Result<seq<bv8>>)
    requires |s| == 5 * n
    ensures r.Success? ==> |r.value| == 4 * n
  {
    if n == 0 then Success([])
    else
      var w :- DecodeWord(s[..5]);
      var rest :- DecodeBlocks(s[5..], n - 1);
      Success(BigEndian(w, 4) + rest)
  }

  /** Base85Codec.decode: the input must be five-character aligned and drawn from the alphabet. */
  function Decode(s: string): (r: Result<seq<bv8>>)
    ensures r.Success? ==> |s| % 5 == 0 && |r.value| == |s| / 5 * 4
    ensures |s| % 5 != 0 ==> r == Failure(IllegalArgument)
  {
    if |s| % 5 != 0 then Failure(IllegalArgument) else DecodeBlocks(s, |s| / 5)
  }

  /** The k digits of a number below 85^k decode back to it. */
  lemma {:induction false} DigitsRoundTrip(w: nat, k: nat)
    requires w < Pow85(k)
    ensures DecodeDigits(EncodeDigits(w, k)) == Some(w)
  {
    if k > 0 {
      var s := EncodeDigits(w, k);
      DigitsRoundTrip(w / 85, k - 1);
      DigitRoundTrip(w % 85);
      assert s[..k - 1] == EncodeDigits(w / 85, k - 1);
      assert s[k - 1] == Digit(w % 85);
    }
  }

  lemma EncodeWordRoundTrip(w: nat)
    requires w < TWO_32
    ensures DecodeWord(EncodeWord(w)) == Success(w)
  {
    WordFitsFiveDigits();
    DigitsRoundTrip(w, 5);
    DecodeWordOfDigits(EncodeDigits(w, 5), w);
  }

  /** Five digits that stand for a 32-bit word decode to it. */
  lemma DecodeWordOfDigits(s: string, v: nat)
    requires |s| == 5 && DecodeDigits(s) == Some(v) && v < TWO_32
    ensures DecodeWord(s) == Success(v)
  {
  }

  /** Five base-85 digits hold any unsigned 32-bit word. */
  lemma WordFitsFiveDigits()
    ensures TWO_32 < Pow85(5)
  {
  }

  /** Decoding one group in front of further groups. */
  lemma DecodeBlocksCons(group: string, tail: string, n: nat, w: nat, rest: seq<bv8>)
    requires n > 0 && |group| == 5 && |tail| == 5 * (n - 1)
    requires DecodeWord(group) == Success(w)
    requires DecodeBlocks(tail, n - 1) == Success(rest)
    ensures DecodeBlocks(group + tail, n) == Success(BigEndian(w, 4) + rest)
  {
    SplitAppend(group, tail);
  }

  /** The first block of an encoding: the word of the first four bytes, in five characters. */
  lemma EncodeSplit(data: seq<bv8>, n: nat) returns (w: nat)
    requires |data| == 4 * n && n > 0
    ensures w < TWO_32 && data == BigEndian(w, 4) + data[4..]
    ensures EncodeBlocks(data, n) == EncodeWord(w) + EncodeBlocks(data[4..], n - 1)
  {
    Pow256Widths();
    w := FromBigEndian(data[..4]);
    FromBigEndianRoundTrip(data[..4]);
    assert data[..4] + data[4..] == data;
  }

  lemma SplitAppend(a: string, b: string)
    ensures (a + b)[..|a|] == a && (a + b)[|a|..] == b
  {
  }

  lemma {:induction false} DecodeBlocksEncode(data: seq<bv8>, n: nat)
    requires |data| == 4 * n
    ensures DecodeBlocks(EncodeBlocks(data, n), n) == Success(data)
  {
    if n > 0 {
      var w := EncodeSplit(data, n);
      EncodeWordRoundTrip(w);
      DecodeBlocksEncode(data[4..], n - 1);
      DecodeBlocksCons(EncodeWord(w), EncodeBlocks(data[4..], n - 1), n, w, data[4..]);
    }
  }

  /** Decoding an encoding gives back the bytes. */
  lemma DecodeEncode(data: seq<bv8>)
    requires |data| % 4 == 0
    ensures Decode(Encode(data)) == Success(data)
  {
    var n := |data| / 4;
    assert |Encode(data)| / 5 == n;
    DecodeBlocksEncode(data, n);
  }
}
