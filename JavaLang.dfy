/*
 * The slice of java.lang that the utility classes rely on: Java's value types
 * (byte, char, int), the null-able results they return, and the library
 * routines they call (Integer.toHexString, Integer.parseInt, String.indexOf(char),
 * String.toUpperCase), each written out with the width and rounding Java uses.
 *
 * Representation choices:
 *  - a Java `byte` is its bit pattern, a `bv8`;
 *  - a Java `int` is a `bv32` where the code works on bits, and an `Int32`
 *    (an `int` in [-2^31, 2^31)) where the code does arithmetic;
 *  - a Java `char` is a UTF-16 code unit, a `JChar` in [0, 0x10000), and a
 *    Java `String` is a sequence of them.
 */
module JavaLang {

  datatype Option<T> = None | Some(value: T)

  /** The value of a call that can end in an exception instead of returning. */
  datatype Result<T, E> = Ok(value: T) | Err(error: E)

  /** One UTF-16 code unit, the `char` of Java (surrogates included). */
  type JChar = c: int | 0 <= c < 0x1_0000

  type JString = seq<JChar>

  /** A Java string literal written with Dafny characters of the Basic Multilingual Plane. */
  function Str(s: string): (r: JString)
    requires forall k :: 0 <= k < |s| ==> s[k] as int < 0x1_0000
    ensures |r| == |s|
    ensures forall k :: 0 <= k < |s| ==> r[k] == s[k] as int
  {
    seq(|s|, k requires 0 <= k < |s| => s[k] as int)
  }

  // ---------------------------------------------------------------------
  // Characters

  predicate IsAsciiDigit(c: JChar) { '0' as int <= c <= '9' as int }

  /** Character.toUpperCase restricted to ASCII: 'a'..'z' become 'A'..'Z'. */
  function UpperCase(c: JChar): (r: JChar)
    ensures 'a' as int <= c <= 'z' as int ==> r == c - 32
    ensures !('a' as int <= c <= 'z' as int) ==> r == c
  {
    if 'a' as int <= c <= 'z' as int then c - ('a' as int - 'A' as int) else c
  }

  /** String.toUpperCase, character by character. */
  function ToUpperCase(s: JString): (r: JString)
    ensures |r| == |s|
    ensures forall k :: 0 <= k < |s| ==> r[k] == UpperCase(s[k])
  {
    seq(|s|, k requires 0 <= k < |s| => UpperCase(s[k]))
  }

  /** The lower-case digit that Character.forDigit(d, 16) gives. */
  function LowerHexDigit(d: nat): (r: JChar)
    requires d < 16
    ensures d < 10 ==> r == '0' as int + d
    ensures 10 <= d ==> r == 'a' as int + (d - 10)
  {
    if d < 10 then '0' as int + d else 'a' as int + (d - 10)
  }

  /** A hexadecimal digit of either case. */
  predicate IsHexDigit(c: JChar)
  {
    IsAsciiDigit(c) || 'A' as int <= c <= 'F' as int || 'a' as int <= c <= 'f' as int
  }

  /** Character.digit(c, 16) on ASCII: the value of a digit of either case, or -1. */
  function Digit16(c: JChar): (r: int)
    ensures -1 <= r < 16
    ensures 0 <= r <==> IsHexDigit(c)
  {
    if IsAsciiDigit(c) then c - '0' as int
    else if 'A' as int <= c <= 'F' as int then c - 'A' as int + 10
    else if 'a' as int <= c <= 'f' as int then c - 'a' as int + 10
    else -1
  }

  /** The value of a hexadecimal digit of either case, as a nibble. */
  function HexDigit(c: JChar): (r: bv8)
    requires IsHexDigit(c)
    ensures r < 16
  {
    Digit16(c) as bv8
  }

  lemma HexDigitOfLower(n: bv8)
    requires n < 16
    ensures IsHexDigit(LowerHexDigit(n as int)) && HexDigit(LowerHexDigit(n as int)) == n
  {
  }

  // ---------------------------------------------------------------------
  // Bits of byte and int

  /** Java's widening of a byte to an int: the sign bit is copied upwards. */
  function SignExtend(b: bv8): (r: bv32)
    ensures r & 0xFF == b as bv32
    ensures b < 0x80 ==> r == b as bv32
    ensures 0x80 <= b ==> r >> 8 == 0xFF_FFFF
  {
    if b < 0x80 then b as bv32 else (b as bv32) | 0xFFFF_FF00
  }

  /** Java's `(byte) x` on an int bit pattern: the low eight bits. */
  function Narrow(x: bv32): (r: bv8)
    ensures r as bv32 == x & 0xFF
  {
    (x & 0xFF) as bv8
  }

  /**
   * Java's `(byte) v` on an int value, v modulo 256 as a bit pattern, for the
   * values String.indexOf can give on a short string.
   */
  function ByteOfIndex(v: int): (r: bv8)
    requires -1 <= v < 256
  {
    if v == -1 then 0xFF else v as bv8
  }

  /** Java's `x >> n` on an int: the shift that copies the sign bit. */
  function ShiftRightSigned(x: bv32, n: nat): (r: bv32)
    requires n < 32
    ensures x < 0x8000_0000 ==> r == x >> n
  {
    if x < 0x8000_0000 then x >> n else !((!x) >> n)
  }

  /** Below the bits it copies in, the sign-copying shift agrees with the plain one. */
  lemma ShiftRightSignedLowByte(x: bv32)
    ensures ShiftRightSigned(x, 8) & 0xFF == (x >> 8) & 0xFF
    ensures ShiftRightSigned(x, 16) & 0xFF == (x >> 16) & 0xFF
  {
  }

  // ---------------------------------------------------------------------
  // Arithmetic on int

  const INT_MIN: int := -0x8000_0000
  const INT_MAX: int := 0x7FFF_FFFF

  type Int32 = x: int | INT_MIN <= x <= INT_MAX

  /** Two's-complement wrap-around of a mathematical integer into an int. */
  function Wrap32(x: int): (r: Int32)
    ensures INT_MIN <= x <= INT_MAX ==> r == x
    ensures (r - x) % 0x1_0000_0000 == 0
  {
    var u := x % 0x1_0000_0000;
    if u <= INT_MAX then u else u - 0x1_0000_0000
  }

  function Abs(x: int): (r: nat)
    ensures r == x || r == -x
  {
    if x < 0 then -x else x
  }

  /** Java's `a / b` on int: rounds toward zero and wraps MIN_VALUE / -1. */
  function Div32(a: Int32, b: Int32): (r: Int32)
    requires b != 0
    ensures 0 <= a && 0 < b ==> r == a / b
    ensures a < 0 && 0 < b ==> r == -(Abs(a) / b)
  {
    var q := Abs(a) / Abs(b);
    DivAtMost(Abs(a), Abs(b));
    if (a < 0) == (b < 0) then Wrap32(q) else -q
  }

  /** A non-negative int divided by a positive one is non-negative. */
  lemma DivNonNegative(a: Int32, b: Int32)
    requires 0 <= a && 0 < b
    ensures Div32(a, b) >= 0
  {
    var n: nat, d: nat := a, b;
    assert n / d == a / b;
    NatDivNonNegative(n, d);
  }

  lemma NatDivNonNegative(n: nat, d: nat)
    requires 0 < d
    ensures 0 <= n / d
  {
  }

  lemma DivAtMost(n: nat, d: nat)
    requires 0 < d
    ensures n / d <= n
  {
    MulAtLeast(n / d, d);
  }

  lemma {:induction false} MulAtLeast(q: nat, d: nat)
    requires 1 <= d
    ensures q <= q * d
  {
    if d > 1 {
      MulAtLeast(q, d - 1);
      assert q * d == q * (d - 1) + q;
    }
  }

  function Pow2(k: nat): (r: nat)
    ensures 1 <= r
  {
    if k == 0 then 1 else 2 * Pow2(k - 1)
  }

  // ---------------------------------------------------------------------
  // Library routines

  /** The hexadecimal digits of n, lower case, without leading zeros. */
  function HexDigits(n: nat): (r: JString)
    ensures 1 <= |r|
    ensures n < 16 <==> |r| == 1
    ensures r[0] == '0' as int ==> n == 0
    ensures r[|r| - 1] == LowerHexDigit(n % 16)
    decreases n
  {
    if n < 16 then [LowerHexDigit(n)] else HexDigits(n / 16) + [LowerHexDigit(n % 16)]
  }

  /** Integer.toHexString: the int read as unsigned, in lower-case hexadecimal. */
  function ToHexString(i: bv32): (r: JString)
    ensures 0 < |r|
  {
    HexDigits(i as int)
  }

  /** For a value below 256 the digits are those of its two nibbles, without a leading zero. */
  lemma HexDigitsOfByte(v: nat)
    requires v < 256
    ensures v < 16 ==> HexDigits(v) == [LowerHexDigit(v)]
    ensures 16 <= v ==> HexDigits(v) == [LowerHexDigit(v / 16), LowerHexDigit(v % 16)]
  {
  }

  /** Integer.toHexString(b & 0xff) for a byte b reads b as unsigned. */
  lemma ToHexStringOfByte(b: bv8)
    ensures ToHexString(SignExtend(b) & 0xFF) == HexDigits(b as int)
  {
    assert SignExtend(b) & 0xFF == b as bv32;
    assert (b as bv32) as int == b as int;
  }

  /** String.indexOf(ch): the first index of c in s, or -1. */
  function IndexOfChar(s: JString, c: JChar): (r: int)
    ensures -1 <= r < |s|
    ensures r == -1 <==> c !in s
    ensures 0 <= r ==> s[r] == c && c !in s[..r]
  {
    if s == [] then -1
    else if s[0] == c then 0
    else
      var k := IndexOfChar(s[1..], c);
      if k == -1 then -1 else k + 1
  }

  predicate AllHexDigits(s: JString)
  {
    forall k :: 0 <= k < |s| ==> IsHexDigit(s[k])
  }

  /** The unsigned value of a run of hexadecimal digits, most significant first. */
  function HexValue(s: JString): (r: nat)
    requires AllHexDigits(s)
    ensures |s| <= 1 ==> r < 0x10
    ensures |s| <= 2 ==> r < 0x100
    ensures |s| <= 3 ==> r < 0x1000
    ensures |s| <= 4 ==> r < 0x1_0000
  {
    if s == [] then 0 else 16 * HexValue(s[..|s| - 1]) + Digit16(s[|s| - 1])
  }

  lemma {:induction false} Pow2Add(a: nat, b: nat)
    ensures Pow2(a + b) == Pow2(a) * Pow2(b)
  {
    if b > 0 { Pow2Add(a, b - 1); }
  }

  /**
   * Integer.parseInt(s, 16): an optional '+' or '-' and then at least one
   * digit; None stands for the NumberFormatException it throws otherwise,
   * including when the value does not fit in an int.
   */
  function ParseInt16(s: JString): (r: Option<Int32>)
    ensures r.Some? ==> |s| >= 1
    ensures AllHexDigits(s) && |s| == 4 ==> r == Some(HexValue(s))
  {
    if s == [] then None
    else
      var negative := s[0] == '-' as int;
      var digits := if s[0] == '-' as int || s[0] == '+' as int then s[1..] else s;
      if digits == [] || !AllHexDigits(digits) then None
      else
        var value: int := if negative then 0 - HexValue(digits) else HexValue(digits);
        if INT_MIN <= value <= INT_MAX then Some(value) else None
  }

  /** The value of four digits, digit by digit. */
  lemma HexValueOfFour(h: JString)
    requires |h| == 4 && AllHexDigits(h)
    ensures HexValue(h) == 0x1000 * Digit16(h[0]) + 0x100 * Digit16(h[1])
                           + 0x10 * Digit16(h[2]) + Digit16(h[3])
  {
    var h1, h2, h3 := h[..1], h[..2], h[..3];
    assert h1[..0] == [] && h2[..1] == h1 && h3[..2] == h2 && h[..3] == h3;
    assert HexValue(h1) == Digit16(h[0]);
    assert HexValue(h2) == 16 * HexValue(h1) + Digit16(h[1]);
    assert HexValue(h3) == 16 * HexValue(h2) + Digit16(h[2]);
  }

  /** Java's `(char) v` on an int: v modulo 2^16. */
  function CharOfInt(v: int): (r: JChar)
    ensures 0 <= v < 0x1_0000 ==> r == v
  {
    v % 0x1_0000
  }
}
