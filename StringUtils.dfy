/*
 * StringUtils: the hexadecimal byte codecs, the int <-> byte[] codecs and the
 * `\uXXXX` unescaper of the utility library. The three regular-expression
 * validators live in Validators.dfy.
 */
module StringUtils {
  import opened JavaLang

  // =====================================================================
  // Hexadecimal string -> bytes (hexString2Bytes, char2Byte)

  /** The table char2Byte searches. */
  const HEX_UPPER: JString := Str("0123456789ABCDEF")

  predicate IsUpperHexDigit(c: JChar)
  {
    IsAsciiDigit(c) || 'A' as int <= c <= 'F' as int
  }

  /**
   * char2Byte: the position of c in "0123456789ABCDEF", cast to a byte, so
   * an upper-case digit gives its value and every other character gives -1.
   */
  function Char2Byte(c: JChar): (r: bv8)
    ensures IsUpperHexDigit(c) ==> r == HexDigit(c) && r < 16
    ensures !IsUpperHexDigit(c) ==> r == 0xFF
  {
    IndexInHexUpper(c);
    ByteOfIndex(IndexOfChar(HEX_UPPER, c))
  }

  lemma IndexInHexUpper(c: JChar)
    ensures IndexOfChar(HEX_UPPER, c) ==
      if IsAsciiDigit(c) then c - '0' as int
      else if 'A' as int <= c <= 'F' as int then c - 'A' as int + 10
      else -1
  {
    assert forall k :: 0 <= k < 16 ==> HEX_UPPER[k] == if k < 10 then 0x30 + k else 0x37 + k;
    var r := IndexOfChar(HEX_UPPER, c);
    if IsAsciiDigit(c) {
      assert HEX_UPPER[c - '0' as int] == c;
    } else if 'A' as int <= c <= 'F' as int {
      assert HEX_UPPER[c - 'A' as int + 10] == c;
    }
  }

  /**
   * The byte hexString2Bytes builds from the char2Byte values of two
   * characters: (byte) (h << 4 | l), with both operands widened to int first.
   */
  function PackBytes(h: bv8, l: bv8): bv8
  {
    Narrow((SignExtend(h) << 4) | SignExtend(l))
  }

  /** The bit-level facts behind PackBytes, for the values char2Byte can return. */
  lemma PackNibbles(h: bv8, l: bv8)
    requires h < 16 || h == 0xFF
    requires l < 16 || l == 0xFF
    ensures h < 16 && l < 16 ==> PackBytes(h, l) >> 4 == h && PackBytes(h, l) & 0xF == l
    // an invalid low digit sign-extends to all ones and swamps the high digit
    ensures l == 0xFF ==> PackBytes(h, l) == 0xFF
    // an invalid high digit leaves ones in the high nibble, as 'F' would
    ensures h == 0xFF && l < 16 ==> PackBytes(h, l) >> 4 == 0xF && PackBytes(h, l) & 0xF == l
  {
  }

  /**
   * The byte a pair of characters stands for, read case-insensitively: the
   * two digit values when both are digits, 0xFF when the low one is not a
   * digit, and an all-ones high nibble when only the high one is not.
   */
  function PairByte(hi: JChar, lo: JChar): (r: bv8)
    ensures IsHexDigit(hi) && IsHexDigit(lo) ==> r >> 4 == HexDigit(hi) && r & 0xF == HexDigit(lo)
    ensures !IsHexDigit(lo) ==> r == 0xFF
    ensures !IsHexDigit(hi) && IsHexDigit(lo) ==> r >> 4 == 0xF && r & 0xF == HexDigit(lo)
  {
    if !IsHexDigit(lo) then 0xFF
    else if !IsHexDigit(hi) then 0xF0 | HexDigit(lo)
    else (HexDigit(hi) << 4) | HexDigit(lo)
  }

  /** Upper-casing first makes char2Byte accept the digits of either case. */
  lemma Char2ByteOfUpperCase(c: JChar)
    ensures IsUpperHexDigit(UpperCase(c)) <==> IsHexDigit(c)
    ensures IsHexDigit(c) ==> Char2Byte(UpperCase(c)) == HexDigit(c)
    ensures !IsHexDigit(c) ==> Char2Byte(UpperCase(c)) == 0xFF
  {
    if 'a' as int <= c <= 'f' as int {
      assert UpperCase(c) == c - 32;
      assert HexDigit(UpperCase(c)) == HexDigit(c);
    } else if 'a' as int <= c <= 'z' as int {
      assert !IsUpperHexDigit(UpperCase(c));
    } else {
      assert UpperCase(c) == c;
    }
  }

  /**
   * The bit operations of hexString2Bytes on the upper-cased pair compute
   * exactly the case-insensitive reading of the pair.
   */
  lemma PackOfUpperCase(hi: JChar, lo: JChar)
    ensures PackBytes(Char2Byte(UpperCase(hi)), Char2Byte(UpperCase(lo))) == PairByte(hi, lo)
  {
    var h, l := Char2Byte(UpperCase(hi)), Char2Byte(UpperCase(lo));
    Char2ByteOfUpperCase(hi);
    Char2ByteOfUpperCase(lo);
    PackNibbles(h, l);
    BytesFromNibbles(PackBytes(h, l), PairByte(hi, lo));
  }

  /** The bytes that hexString2Bytes returns for a non-empty string. */
  function DecodeHex(s: JString): (r: seq<bv8>)
    ensures |r| == |s| / 2
    ensures forall i :: 0 <= i < |s| / 2 ==> 2 * i + 1 < |s| && r[i] == PairByte(s[2 * i], s[2 * i + 1])
  {
    seq(|s| / 2, i requires 0 <= i < |s| / 2 =>
      PairInBounds(i, |s|);
      PairByte(s[2 * i], s[2 * i + 1]))
  }

  /** Pair i of a string of length n lies inside it. */
  lemma PairInBounds(i: nat, n: nat)
    requires i < n / 2
    ensures 2 * i + 1 < n
  {
  }

  /** Decoding does not depend on the case of the letters. */
  lemma DecodeHexIgnoresCase(s: JString, t: JString)
    requires |s| == |t|
    requires forall k :: 0 <= k < |s| ==> IsHexDigit(s[k]) == IsHexDigit(t[k])
    requires forall k :: 0 <= k < |s| && IsHexDigit(s[k]) ==> HexDigit(s[k]) == HexDigit(t[k])
    ensures DecodeHex(s) == DecodeHex(t)
  {
    forall i | 0 <= i < |s| / 2
      ensures DecodeHex(s)[i] == DecodeHex(t)[i]
    {
      PairInBounds(i, |s|);
      BytesFromNibbles(DecodeHex(s)[i], DecodeHex(t)[i]);
    }
  }

  lemma BytesFromNibbles(a: bv8, b: bv8)
    requires a >> 4 == b >> 4 && a & 0xF == b & 0xF
    ensures a == b
  {
  }

  /** Pair i of the upper-cased string packs into byte i of the decoding. */
  lemma UpperCasePair(s: JString, upper: JString, i: nat)
    requires upper == ToUpperCase(s) && i < |s| / 2
    ensures 2 * i + 1 < |upper|
    ensures PackBytes(Char2Byte(upper[2 * i]), Char2Byte(upper[2 * i + 1])) == DecodeHex(s)[i]
  {
    PairInBounds(i, |s|);
    PackOfUpperCase(s[2 * i], s[2 * i + 1]);
  }

  /**
   * hexString2Bytes: null for a null or empty string; otherwise the string is
   * upper-cased and each pair of characters packed into one byte, a trailing
   * odd character being ignored.
   */
  method HexString2Bytes(hexString: Option<JString>) returns (d: Option<array<bv8>>)
    ensures hexString == None || hexString == Some([]) <==> d == None
    ensures d.Some? ==> fresh(d.value) && d.value[..] == DecodeHex(hexString.value)
  {
    if hexString.None? || hexString.value == [] {
      return None;
    }
    ghost var decoded := DecodeHex(hexString.value);
    var upper := ToUpperCase(hexString.value);
    var length := |upper| / 2;
    var hexChars := upper;
    var bytes := new bv8[length];
    for i := 0 to length
      invariant forall k :: 0 <= k < i ==> bytes[k] == decoded[k]
    {
      var pos := 2 * i;
      UpperCasePair(hexString.value, hexChars, i);
      var h := Char2Byte(hexChars[pos]);
      var l := Char2Byte(hexChars[pos + 1]);
      bytes[i] := PackBytes(h, l);
    }
    return Some(bytes);
  }

  // =====================================================================
  // Bytes -> hexadecimal string (bytes2HexString)

  predicate IsLowerHexDigit(c: JChar)
  {
    IsAsciiDigit(c) || 'a' as int <= c <= 'f' as int
  }

  /** A byte as two lower-case hexadecimal digits, high nibble first. */
  function ByteHex(b: bv8): (r: JString)
    ensures |r| == 2 && IsLowerHexDigit(r[0]) && IsLowerHexDigit(r[1])
    ensures IsHexDigit(r[0]) && HexDigit(r[0]) == b >> 4
    ensures IsHexDigit(r[1]) && HexDigit(r[1]) == b & 0xF
  {
    HexDigitOfLower(b >> 4);
    HexDigitOfLower(b & 0xF);
    [LowerHexDigit((b >> 4) as int), LowerHexDigit((b & 0xF) as int)]
  }

  /** The bytes as hexadecimal text, two lower-case digits per byte, in order. */
  function EncodeHex(bs: seq<bv8>): (r: JString)
    ensures |r| == 2 * |bs|
    ensures forall i :: 0 <= i < |bs| ==> r[2 * i] == ByteHex(bs[i])[0] && r[2 * i + 1] == ByteHex(bs[i])[1]
  {
    if bs == [] then [] else EncodeHex(bs[..|bs| - 1]) + ByteHex(bs[|bs| - 1])
  }

  /** Encoding one byte more appends that byte's two digits. */
  lemma EncodeHexSnoc(bs: seq<bv8>, i: nat)
    requires i < |bs|
    ensures EncodeHex(bs[..i + 1]) == EncodeHex(bs[..i]) + ByteHex(bs[i])
  {
    assert bs[..i + 1][..i] == bs[..i];
  }

  lemma NibblesOfByte(b: bv8)
    ensures (b >> 4) as int == b as int / 16
    ensures (b & 0xF) as int == b as int % 16
  {
  }

  /**
   * What one pass of the loop of bytes2HexString appends for a byte:
   * Integer.toHexString(b & 0xFF), after a "0" when that is a single digit.
   */
  function PaddedHex(b: bv8): (r: JString)
    ensures r == ByteHex(b)
  {
    var value := SignExtend(b) & 0xFF;
    var hv := ToHexString(value);
    ToHexStringOfByte(b);
    NibblesOfByte(b);
    PaddedDigits(b as int);
    (if |hv| < 2 then ['0' as int] else []) + hv
  }

  /** Integer.toHexString of a value below 256 is one or two digits; with a "0" in front of one digit it is the two nibbles. */
  lemma PaddedDigits(v: nat)
    requires v < 256
    ensures |HexDigits(v)| == 1 || |HexDigits(v)| == 2
    ensures (if |HexDigits(v)| < 2 then ['0' as int] else []) + HexDigits(v) == [LowerHexDigit(v / 16), LowerHexDigit(v % 16)]
  {
    HexDigitsOfByte(v);
  }

  /** bytes2HexString: null for an empty array, otherwise the lower-case hex text of the bytes. */
  method Bytes2HexString(b: array<bv8>) returns (r: Option<JString>)
    ensures b.Length == 0 <==> r == None
    ensures r.Some? ==> r.value == EncodeHex(b[..])
  {
    if b.Length == 0 {
      return None;
    }
    var sb: JString := [];
    for i := 0 to b.Length
      invariant sb == EncodeHex(b[..i])
    {
      EncodeHexSnoc(b[..], i);
      assert b[..i + 1] == b[..][..i + 1] && b[..i] == b[..][..i];
      sb := sb + PaddedHex(b[i]);
    }
    assert b[..b.Length] == b[..];
    return Some(sb);
  }

  /** Decoding the encoding of any byte sequence gives it back. */
  lemma HexRoundTrip(bs: seq<bv8>)
    ensures DecodeHex(EncodeHex(bs)) == bs
  {
    var s := EncodeHex(bs);
    forall i | 0 <= i < |bs|
      ensures DecodeHex(s)[i] == bs[i]
    {
      assert s[2 * i] == ByteHex(bs[i])[0] && s[2 * i + 1] == ByteHex(bs[i])[1];
      PairOfByteHex(bs[i]);
    }
  }

  /** The two digits of one byte pack back into that byte. */
  lemma PairOfByteHex(b: bv8)
    ensures PairByte(ByteHex(b)[0], ByteHex(b)[1]) == b
  {
    BytesFromNibbles(PairByte(ByteHex(b)[0], ByteHex(b)[1]), b);
  }

  /** The two Java methods are inverse on every non-empty byte array. */
  method Bytes2HexStringThenBack(b: array<bv8>) returns (d: Option<array<bv8>>)
    requires b.Length > 0
    ensures d.Some? && d.value[..] == b[..]
  {
    var hex := Bytes2HexString(b);
    HexRoundTrip(b[..]);
    d := HexString2Bytes(hex);
  }

  // =====================================================================
  // int <-> byte[] (int2Byte, byte2Int)

  /** The four bytes of an int, least significant first. */
  function IntToBytes(res: bv32): (r: seq<bv8>)
    ensures |r| == 4
    ensures (r[0] as bv32) | ((r[1] as bv32) << 8) | ((r[2] as bv32) << 16) | ((r[3] as bv32) << 24) == res
  {
    [Narrow(res), Narrow(res >> 8), Narrow(res >> 16), Narrow(res >> 24)]
  }

  /**
   * int2Byte: a new four-byte array holding res little-endian; the two lower
   * shifts are Java's sign-copying `>>`, the top one the unsigned `>>>`.
   */
  method Int2Byte(res: bv32) returns (targets: array<bv8>)
    ensures fresh(targets) && targets.Length == 4 && targets[..] == IntToBytes(res)
  {
    targets := new bv8[4];
    targets[0] := Narrow(res & 0xff);
    targets[1] := Narrow(ShiftRightSigned(res, 8) & 0xff);
    targets[2] := Narrow(ShiftRightSigned(res, 16) & 0xff);
    targets[3] := Narrow(res >> 24);
    ShiftRightSignedLowByte(res);
  }

  /**
   * byte2Int: the first four bytes read big-endian; each byte is widened with
   * its sign, shifted into place and masked back to its own eight bits.
   */
  function Byte2Int(res: seq<bv8>): (r: bv32)
    requires |res| >= 4
    ensures r >> 24 == res[0] as bv32 && (r >> 16) & 0xFF == res[1] as bv32
    ensures (r >> 8) & 0xFF == res[2] as bv32 && r & 0xFF == res[3] as bv32
  {
    (SignExtend(res[3]) & 0xff) | ((SignExtend(res[2]) << 8) & 0xff00)
      | ((SignExtend(res[1]) << 16) & 0xff_0000) | ((SignExtend(res[0]) << 24) & 0xff00_0000)
  }

  function Reverse4(s: seq<bv8>): (r: seq<bv8>)
    requires |s| >= 4
    ensures |r| == 4 && forall k :: 0 <= k < 4 ==> r[k] == s[3 - k]
  {
    [s[3], s[2], s[1], s[0]]
  }

  /** byte2Int undoes int2Byte only after the bytes are put in the opposite order. */
  lemma IntBytesRoundTrip(x: bv32)
    ensures Byte2Int(Reverse4(IntToBytes(x))) == x
  {
  }

  /** Reading the four bytes of any array back into an int and out again reverses them. */
  lemma BytesIntRoundTrip(s: seq<bv8>)
    requires |s| >= 4
    ensures IntToBytes(Byte2Int(s)) == Reverse4(s)
  {
  }

  /** x with its four bytes in the opposite order. */
  function ByteSwap(x: bv32): (r: bv32)
    ensures r >> 24 == x & 0xFF && (r >> 16) & 0xFF == (x >> 8) & 0xFF
    ensures (r >> 8) & 0xFF == (x >> 16) & 0xFF && r & 0xFF == x >> 24
  {
    (x >> 24) | ((x >> 8) & 0xFF00) | ((x << 8) & 0xFF_0000) | (x << 24)
  }

  /** Straight composition of the two codecs swaps the bytes instead of giving x back. */
  lemma IntBytesComposeSwaps(x: bv32)
    ensures Byte2Int(IntToBytes(x)) == ByteSwap(x)
  {
  }

  /** For instance 1 comes back as 0x01000000. */
  lemma IntBytesComposeExample()
    ensures Byte2Int(IntToBytes(1)) == 0x0100_0000
  {
  }

  // =====================================================================
  // Unicode escapes (convertUnicodeToChina)

  const BACKSLASH: JChar := 0x5C
  const LETTER_U: JChar := 0x75

  /** The two characters `\u` that open an escape. */
  const ESCAPE: JString := [BACKSLASH, LETTER_U]

  /** `\u` starts at index k of s. */
  predicate EscapeAt(s: JString, k: nat)
  {
    k + 1 < |s| && s[k] == BACKSLASH && s[k + 1] == LETTER_U
  }

  /** utfString.indexOf("\\u", from): where the next `\u` at or after `from` starts, or -1. */
  function IndexOfEscape(s: JString, from: nat): (r: int)
    ensures r == -1 || (from <= r && EscapeAt(s, r))
    decreases |s| - from
  {
    if from + 2 > |s| then -1
    else if EscapeAt(s, from) then from
    else IndexOfEscape(s, from + 1)
  }

  /** The search finds the first `\u` at or after `from`, and gives -1 only when there is none. */
  lemma {:induction false} IndexOfEscapeIsFirst(s: JString, from: nat)
    ensures IndexOfEscape(s, from) == -1 ==> forall k: nat :: from <= k ==> !EscapeAt(s, k)
    ensures IndexOfEscape(s, from) != -1 ==> forall k: nat :: from <= k < IndexOfEscape(s, from) ==> !EscapeAt(s, k)
    decreases |s| - from
  {
    if from + 2 <= |s| && !EscapeAt(s, from) {
      IndexOfEscapeIsFirst(s, from + 1);
    }
  }

  /** Why convertUnicodeToChina gives no string back. */
  datatype UnescapeFailure =
    | NumberFormat   // Integer.parseInt throws NumberFormatException on the four characters
    | NoProgress     // a `\u` with fewer than four characters after it: the loop never exits

  function Prepend(p: JString, r: Result<JString, UnescapeFailure>): Result<JString, UnescapeFailure>
  {
    match r
    case Ok(t) => Ok(p + t)
    case Err(e) => Err(e)
  }

  /**
   * What convertUnicodeToChina computes from position `pos` on: the text up
   * to the next escape, then the character the escape names, and so on;
   * whatever follows the last escape is not part of the result.
   */
  function UnescapeFrom(s: JString, pos: nat): (r: Result<JString, UnescapeFailure>)
    requires pos <= |s|
    decreases |s| - pos
  {
    var i := IndexOfEscape(s, pos);
    if i == -1 then Ok([])
    else if i + 5 < |s| then
      match ParseInt16(s[i + 2..i + 6])
      case None => Err(NumberFormat)
      case Some(v) => Prepend(s[pos..i] + [CharOfInt(v)], UnescapeFrom(s, i + 6))
    else Err(NoProgress)
  }

  function Unescape(s: JString): Result<JString, UnescapeFailure>
  {
    UnescapeFrom(s, 0)
  }

  lemma PrependTwice(p: JString, q: JString, r: Result<JString, UnescapeFailure>)
    ensures Prepend(p, Prepend(q, r)) == Prepend(p + q, r)
  {
    if r.Ok? {
      assert p + (q + r.value) == (p + q) + r.value;
    }
  }

  /** One pass of the loop when the escape found has four characters after it. */
  lemma UnescapeFromStep(s: JString, pos: nat, i: int)
    requires pos <= |s| && i == IndexOfEscape(s, pos) && i != -1 && i + 5 < |s|
    ensures ParseInt16(s[i + 2..i + 6]).None? ==> UnescapeFrom(s, pos) == Err(NumberFormat)
    ensures ParseInt16(s[i + 2..i + 6]).Some? ==>
      UnescapeFrom(s, pos) == Prepend(s[pos..i] + [CharOfInt(ParseInt16(s[i + 2..i + 6]).value)], UnescapeFrom(s, i + 6))
  {
    var rest := UnescapeFrom(s, i + 6);
    match ParseInt16(s[i + 2..i + 6])
    case None =>
    case Some(v) =>
      assert UnescapeFrom(s, pos) == Prepend(s[pos..i] + [CharOfInt(v)], rest);
  }

  /**
   * convertUnicodeToChina. Integer.parseInt's NumberFormatException and the
   * loop that never ends on a truncated escape come back as Err.
   */
  method ConvertUnicodeToChina(utfString: JString) returns (r: Result<JString, UnescapeFailure>)
    ensures r == Unescape(utfString)
  {
    var sb: JString := [];
    var pos := 0;
    assert Prepend(sb, Unescape(utfString)) == Unescape(utfString) by {
      if Unescape(utfString).Ok? { assert sb + Unescape(utfString).value == Unescape(utfString).value; }
    }
    while true
      invariant 0 <= pos <= |utfString|
      invariant Unescape(utfString) == Prepend(sb, UnescapeFrom(utfString, pos))
      decreases |utfString| - pos
    {
      var i := IndexOfEscape(utfString, pos);
      if i == -1 {
        assert UnescapeFrom(utfString, pos) == Ok([]);
        assert sb + [] == sb;
        break;
      }
      ghost var before, start := sb, pos;
      sb := sb + utfString[pos..i];
      if i + 5 < |utfString| {
        pos := i + 6;
        var code := ParseInt16(utfString[i + 2..i + 6]);
        UnescapeFromStep(utfString, start, i);
        if code.None? {
          return Err(NumberFormat);
        }
        var c := CharOfInt(code.value);
        PrependTwice(before, utfString[start..i] + [c], UnescapeFrom(utfString, pos));
        assert before + (utfString[start..i] + [c]) == sb + [c];
        sb := sb + [c];
      } else {
        // pos stays where it is, so the next search finds the same escape again
        assert UnescapeFrom(utfString, start) == Err(NoProgress);
        return Err(NoProgress);
      }
    }
    return Ok(sb);
  }

  /** A slice of b is the same slice of a + b, shifted by |a|. */
  lemma SliceOfAppend(a: JString, b: JString, lo: nat, hi: nat)
    requires lo <= hi <= |b|
    ensures (a + b)[|a| + lo..|a| + hi] == b[lo..hi]
  {
  }

  /** Searching b from k finds what searching a + b from |a| + k finds, shifted by |a|. */
  lemma {:induction false} IndexOfEscapeShift(a: JString, b: JString, k: nat)
    ensures IndexOfEscape(a + b, |a| + k) == (var j := IndexOfEscape(b, k); if j == -1 then -1 else |a| + j)
    decreases |b| - k
  {
    if k + 2 <= |b| {
      assert EscapeAt(a + b, |a| + k) == EscapeAt(b, k);
      if !EscapeAt(b, k) {
        IndexOfEscapeShift(a, b, k + 1);
      }
    }
  }

  /** Converting b from k is converting a + b from |a| + k: text before pos plays no part. */
  lemma {:induction false} UnescapeShift(a: JString, b: JString, k: nat)
    requires k <= |b|
    ensures UnescapeFrom(a + b, |a| + k) == UnescapeFrom(b, k)
    decreases |b| - k
  {
    var s := a + b;
    IndexOfEscapeShift(a, b, k);
    var j := IndexOfEscape(b, k);
    if j != -1 && j + 5 < |b| {
      var i := |a| + j;
      SliceOfAppend(a, b, j + 2, j + 6);
      SliceOfAppend(a, b, k, j);
      UnescapeShift(a, b, j + 6);
      var rest := UnescapeFrom(b, j + 6);
      assert UnescapeFrom(s, i + 6) == rest;
      match ParseInt16(b[j + 2..j + 6])
      case None =>
        assert UnescapeFrom(s, |a| + k) == Err(NumberFormat);
      case Some(v) =>
        assert UnescapeFrom(s, |a| + k) == Prepend(b[k..j] + [CharOfInt(v)], rest);
        assert UnescapeFrom(b, k) == Prepend(b[k..j] + [CharOfInt(v)], rest);
    }
  }

  /** s holds no `\u` anywhere. */
  predicate NoEscape(s: JString)
  {
    forall k: nat | k < |s| :: !EscapeAt(s, k)
  }

  /** After text free of `\u`, an escape that starts the rest is the first one. */
  lemma FirstEscapeAt(p: JString, rest: JString)
    requires NoEscape(p) && EscapeAt(rest, 0)
    ensures IndexOfEscape(p + rest, 0) == |p|
  {
    var s := p + rest;
    assert EscapeAt(s, |p|);
    forall k: nat | k < |p|
      ensures !EscapeAt(s, k)
    {
      if k + 1 < |p| {
        assert !EscapeAt(p, k);
      } else {
        assert s[k + 1] == rest[0] == BACKSLASH;
      }
    }
    IndexOfEscapeIsFirst(s, 0);
  }

  /** Text with no escape at all gives the empty string: nothing after the last escape is kept. */
  lemma UnescapePlainText(s: JString)
    requires NoEscape(s)
    ensures Unescape(s) == Ok([])
  {
    assert IndexOfEscape(s, 0) == -1;
  }

  /**
   * The text before the first escape is copied, the four characters after
   * `\u` are read as a hexadecimal number and become one character, and the
   * rest is converted the same way.
   */
  lemma UnescapeEscape(p: JString, h: JString, q: JString)
    requires NoEscape(p) && |h| == 4 && ParseInt16(h).Some?
    ensures Unescape(p + ESCAPE + h + q) == Prepend(p + [CharOfInt(ParseInt16(h).value)], Unescape(q))
  {
    var s := p + ESCAPE + h + q;
    assert s == p + (ESCAPE + h + q);
    assert EscapeAt(ESCAPE + h + q, 0);
    FirstEscapeAt(p, ESCAPE + h + q);
    assert s[0..|p|] == p;
    assert s[|p| + 2..|p| + 6] == h;
    assert s == (p + ESCAPE + h) + q;
    UnescapeShift(p + ESCAPE + h, q, 0);
  }

  /** Four characters after `\u` that are not a hexadecimal number end in NumberFormatException. */
  lemma UnescapeBadDigits(p: JString, h: JString, q: JString)
    requires NoEscape(p) && |h| == 4 && ParseInt16(h).None?
    ensures Unescape(p + ESCAPE + h + q) == Err(NumberFormat)
  {
    var s := p + ESCAPE + h + q;
    assert s == p + (ESCAPE + h + q);
    assert EscapeAt(ESCAPE + h + q, 0);
    FirstEscapeAt(p, ESCAPE + h + q);
    assert s[|p| + 2..|p| + 6] == h;
  }

  /** A `\u` with fewer than four characters after it is never consumed: the loop does not end. */
  lemma UnescapeTruncated(p: JString, t: JString)
    requires NoEscape(p) && |t| < 4
    ensures Unescape(p + ESCAPE + t) == Err(NoProgress)
  {
    assert p + ESCAPE + t == p + (ESCAPE + t);
    assert EscapeAt(ESCAPE + t, 0);
    FirstEscapeAt(p, ESCAPE + t);
  }

  /**
   * Four hexadecimal digits after `\u`, of either case, become the character
   * with that code.
   */
  lemma UnescapeHexEscape(p: JString, h: JString, q: JString)
    requires NoEscape(p) && |h| == 4 && AllHexDigits(h)
    ensures Unescape(p + ESCAPE + h + q) == Prepend(p + [HexValue(h)], Unescape(q))
  {
    UnescapeEscape(p, h, q);
  }

  lemma UnescapeEmpty()
    ensures Unescape([]) == Ok([])
  {
  }

  /** A string that opens with an escape: its character, then the rest converted. */
  lemma UnescapeLeadingEscape(h: JString, q: JString)
    requires |h| == 4 && AllHexDigits(h)
    ensures Unescape(ESCAPE + h + q) == Prepend([HexValue(h)], Unescape(q))
  {
    UnescapeHexEscape([], h, q);
    assert [] + ESCAPE + h + q == ESCAPE + h + q;
    assert [] + [HexValue(h)] == [HexValue(h)];
  }

  /** Two escapes in a row, with nothing around them, become two characters. */
  lemma UnescapeTwoEscapes(h1: JString, h2: JString)
    requires |h1| == 4 && AllHexDigits(h1)
    requires |h2| == 4 && AllHexDigits(h2)
    ensures Unescape(ESCAPE + h1 + ESCAPE + h2) == Ok([HexValue(h1), HexValue(h2)])
  {
    var rest := ESCAPE + h2;
    UnescapeLeadingEscape(h2, []);
    UnescapeEmpty();
    assert ESCAPE + h2 + [] == rest;
    assert [HexValue(h2)] + [] == [HexValue(h2)];
    assert Unescape(rest) == Ok([HexValue(h2)]);
    UnescapeLeadingEscape(h1, rest);
    assert ESCAPE + h1 + rest == ESCAPE + h1 + ESCAPE + h2;
    assert [HexValue(h1)] + [HexValue(h2)] == [HexValue(h1), HexValue(h2)];
  }

  /** `\u4e2d\u6587` becomes the two characters U+4E2D U+6587. */
  lemma UnescapeExample(h1: JString, h2: JString)
    requires h1 == [0x34, 0x65, 0x32, 0x64] && h2 == [0x36, 0x35, 0x38, 0x37]
    ensures Unescape(ESCAPE + h1 + ESCAPE + h2) == Ok([0x4E2D, 0x6587])
  {
    HexValueExamples(h1, h2);
    UnescapeTwoEscapes(h1, h2);
  }

  lemma HexValueExamples(h1: JString, h2: JString)
    requires h1 == [0x34, 0x65, 0x32, 0x64] && h2 == [0x36, 0x35, 0x38, 0x37]
    ensures AllHexDigits(h1) && HexValue(h1) == 0x4E2D
    ensures AllHexDigits(h2) && HexValue(h2) == 0x6587
  {
    HexValueOfFour(h1);
    HexValueOfFour(h2);
  }

  /**
   * Whatever follows the last escape is lost: an escape followed by plain
   * text gives only the escaped character.
   */
  lemma UnescapeDropsTail(h: JString, q: JString)
    requires |h| == 4 && AllHexDigits(h) && NoEscape(q)
    ensures Unescape(ESCAPE + h + q) == Ok([HexValue(h)])
  {
    UnescapeLeadingEscape(h, q);
    UnescapePlainText(q);
    assert [HexValue(h)] + [] == [HexValue(h)];
  }

  // ---------------------------------------------------------------------
  // The evidently intended conversion: text after the last escape, and a
  // `\u` with fewer than four characters after it, are copied unchanged.

  function UnescapeKeepingTailFrom(s: JString, pos: nat): (r: Result<JString, UnescapeFailure>)
    requires pos <= |s|
    decreases |s| - pos
  {
    var i := IndexOfEscape(s, pos);
    if i == -1 || |s| <= i + 5 then Ok(s[pos..])
    else
      match ParseInt16(s[i + 2..i + 6])
      case None => Err(NumberFormat)
      case Some(v) => Prepend(s[pos..i] + [CharOfInt(v)], UnescapeKeepingTailFrom(s, i + 6))
  }

  function UnescapeKeepingTail(s: JString): Result<JString, UnescapeFailure>
  {
    UnescapeKeepingTailFrom(s, 0)
  }

  /** The corrected conversion always ends: it never reports NoProgress. */
  lemma {:induction false} UnescapeKeepingTailEnds(s: JString, pos: nat)
    requires pos <= |s|
    ensures UnescapeKeepingTailFrom(s, pos) != Err(NoProgress)
    decreases |s| - pos
  {
    var i := IndexOfEscape(s, pos);
    if i != -1 && i + 5 < |s| {
      UnescapeKeepingTailEnds(s, i + 6);
      var rest := UnescapeKeepingTailFrom(s, i + 6);
      match ParseInt16(s[i + 2..i + 6])
      case None =>
      case Some(v) =>
        assert UnescapeKeepingTailFrom(s, pos) == Prepend(s[pos..i] + [CharOfInt(v)], rest);
    }
  }

  /** Text without escapes comes back unchanged. */
  lemma UnescapeKeepingTailPlainText(s: JString)
    requires NoEscape(s)
    ensures UnescapeKeepingTail(s) == Ok(s)
  {
    assert IndexOfEscape(s, 0) == -1;
    assert s[0..] == s;
  }

  /** A `\u` with fewer than four characters after it is copied unchanged, with the text before it. */
  lemma UnescapeKeepingTailCopiesTruncated(p: JString, t: JString)
    requires NoEscape(p) && |t| < 4
    ensures UnescapeKeepingTail(p + ESCAPE + t) == Ok(p + ESCAPE + t)
  {
    assert p + ESCAPE + t == p + (ESCAPE + t);
    assert EscapeAt(ESCAPE + t, 0);
    FirstEscapeAt(p, ESCAPE + t);
    assert (p + ESCAPE + t)[0..] == p + ESCAPE + t;
  }

  /** The text after the last escape is kept. */
  lemma UnescapeKeepingTailKeepsText(h: JString, q: JString)
    requires |h| == 4 && AllHexDigits(h) && NoEscape(q)
    ensures UnescapeKeepingTail(ESCAPE + h + q) == Ok([HexValue(h)] + q)
  {
    var s := ESCAPE + h + q;
    var a := ESCAPE + h;
    assert s == a + q && |a| == 6;
    assert EscapeAt(s, 0);
    assert IndexOfEscape(s, 0) == 0;
    assert s[2..6] == h;
    IndexOfEscapeShift(a, q, 0);
    assert IndexOfEscape(q, 0) == -1;
    assert IndexOfEscape(s, 6) == -1;
    assert s[6..] == q;
    assert UnescapeKeepingTailFrom(s, 6) == Ok(q);
    assert ParseInt16(s[2..6]) == Some(HexValue(h));
    assert s[0..0] + [CharOfInt(HexValue(h))] == [HexValue(h)];
  }
}
