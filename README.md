# smartbetter utility library: string, bitmap-sampling and SHA-512 helpers in Dafny

This project models, in Dafny, the computational core of an Android utility library's
static helpers and proves what those helpers promise. It covers:

- **StringUtils**:
  - the hexadecimal codecs `hexString2Bytes`, `char2Byte` and `bytes2HexString`;
  - the int/byte-array codecs `int2Byte` and `byte2Int`;
  - the `\uXXXX` unescaper `convertUnicodeToChina`;
  - the whole-string regular-expression validators `isMobile`, `isIDNumber` and
    `isContainChinese`, through `check`.
- **BitmapUtils**: `calculateInSampleSize`, the power-of-two decode divisor.
- **SHA512Utils**: `encryptSHAForBuilder` and `encryptSHAForBuffer`, the hex rendering
  around a SHA-512 digest.

Java's value types are written out explicitly (module `JavaLang`):

- A `byte` is a `bv8`.
- An `int` is a `bv32` where the code works on bits. Where the code does arithmetic it is
  an `Int32`, with truncating division (`Div32`) and two's-complement wrap-around (`Wrap32`).
- A `char` is a UTF-16 code unit (`JChar`), and a `String` is a sequence of code units.
- A Java `null` argument or result is `Option.None`.
- An exception that ends a call is a `Result.Err`.

The library routines the code calls are modelled on these types, as far as the code needs
them: `String.indexOf`, `String.toUpperCase`, `Integer.toHexString` and
`Integer.parseInt(s, 16)`.

The imperative parts keep their form. `hexString2Bytes`, `bytes2HexString`,
`int2Byte`, `convertUnicodeToChina`, `calculateInSampleSize` and both SHA-512 methods
are methods with the source's loops. Each is proved against a specification
function (`DecodeHex`, `EncodeHex`, `IntToBytes`, `Unescape`) or a closed-form
characterisation (`FirstStop`, `KeepsThroughMin`). The specification functions then
carry the round-trip, case-insensitivity and agreement lemmas.

What the code computes, where its names or comments could be read otherwise:

- `calculateInSampleSize` returns the first power of two at which half the height or half
  the width no longer exceeds the request, as the comment at BitmapUtils.java:198-199 says.
  For a 3000-high, 4000-wide image requested at 400 wide by 300 high that is 8: halved and
  divided by 4 the image is 375 by 500, still above 300 by 400; divided by 8 it is 187 by
  250 (`BitmapUtils.WorkedExample`).
- `isIDNumber` accepts 8 to 18 characters, all digits and `x` or all digits and `X`;
  the lazy `{8,18}?` and the anchors make no difference under `matches()`.

Where the code and the name it carries disagree, the model follows the code:

- `isContainChinese` accepts a string only when it is exactly one ideograph.
  `Matcher.matches()` demands the whole input, so "contains" does not hold for any
  longer string (`Validators.IsContainChineseIff`).

## Model

| member | source | states |
|---|---|---|
| StringUtils.Char2Byte | StringUtils.java:147-149 | an upper-case hex digit gives its value (< 16), any other character gives the byte 0xFF, i.e. `(byte) -1` from a failed indexOf |
| StringUtils.IndexInHexUpper | StringUtils.java:148 | the index of c in "0123456789ABCDEF" is c's digit value for 0-9 and A-F and -1 for every other character |
| StringUtils.PackNibbles | StringUtils.java:142 | `(byte)(h << 4 \| l)` on sign-extended operands: two valid nibbles pack high/low; an invalid low digit (-1) makes the whole byte 0xFF; an invalid high digit leaves the high nibble all ones, as 'F' would |
| StringUtils.PackBytes | StringUtils.java:142 | `(byte)(h << 4 \| l)` with both char2Byte results widened to int first; `PackNibbles` states its value for every pair char2Byte can return |
| StringUtils.PairByte | StringUtils.java:132-145 | the case-insensitive byte a character pair stands for: both digit values, 0xFF when the low digit is invalid, high nibble 0xF when only the high digit is invalid |
| StringUtils.Char2ByteOfUpperCase | StringUtils.java:136-149 | after upper-casing, char2Byte accepts exactly the hex digits of either case, with their values |
| StringUtils.PackOfUpperCase | StringUtils.java:136-142 | upper-casing then packing two char2Byte results equals the case-insensitive `PairByte` |
| StringUtils.DecodeHex | StringUtils.java:137-143 | the result has `len/2` bytes (a trailing odd character is ignored) and byte i is the pair (2i, 2i+1) |
| StringUtils.DecodeHexIgnoresCase | StringUtils.java:136 | two strings whose characters agree on being hex digits and on their values decode to the same bytes |
| StringUtils.UpperCasePair | StringUtils.java:136-142 | the byte packed from characters 2i and 2i+1 of the upper-cased string is byte i of `DecodeHex` of the original |
| StringUtils.HexString2Bytes | StringUtils.java:132-145 | null exactly for a null or empty string, otherwise a newly allocated array equal to `DecodeHex` of the input |
| StringUtils.ByteHex | StringUtils.java:164-170 | a byte renders as exactly two lower-case hex digits, high nibble first, each digit's value being that nibble |
| StringUtils.EncodeHex | StringUtils.java:158-173 | the rendering has length 2n and characters 2i, 2i+1 are the two digits of byte i, in order |
| StringUtils.PaddedHex | StringUtils.java:164-170 | `Integer.toHexString(b & 0xFF)` with a "0" in front of a single digit is exactly the two-digit rendering of b |
| StringUtils.PaddedDigits | StringUtils.java:165-168 | below 256, toHexString gives one or two digits, and padding one digit with "0" gives the two nibbles |
| StringUtils.EncodeHexSnoc | StringUtils.java:163-171 | appending one more byte's digits extends the rendering of the prefix by that byte's two digits |
| StringUtils.Bytes2HexString | StringUtils.java:158-173 | null exactly for an empty array, otherwise `EncodeHex` of its contents |
| StringUtils.PairOfByteHex | StringUtils.java:137-170 | the two digits bytes2HexString writes for a byte pack back into that byte in hexString2Bytes |
| StringUtils.HexRoundTrip | StringUtils.java:132-173 | decoding the hex rendering of any byte sequence gives the sequence back |
| StringUtils.Bytes2HexStringThenBack | StringUtils.java:132-173 | `hexString2Bytes(bytes2HexString(b))` is a non-null array equal to b for every non-empty b |
| StringUtils.IntToBytes | StringUtils.java:181-188 | the four bytes, least significant first, reassemble to the int |
| StringUtils.Int2Byte | StringUtils.java:181-188 | a newly allocated 4-byte array equal to `IntToBytes(res)`, least significant byte first |
| StringUtils.Byte2Int | StringUtils.java:196-200 | the first four bytes read big-endian: byte 0 is the top eight bits, byte 3 the low eight, whatever their signs |
| StringUtils.IntBytesRoundTrip | StringUtils.java:181-200 | `byte2Int(reverse(int2Byte(x))) == x`: the two codecs use opposite byte orders |
| StringUtils.BytesIntRoundTrip | StringUtils.java:181-200 | int2Byte of byte2Int of four bytes is those bytes reversed |
| StringUtils.IntBytesComposeSwaps | StringUtils.java:181-200 | composing the codecs directly swaps the bytes of x |
| StringUtils.IntBytesComposeExample | StringUtils.java:181-200 | 1 comes back from byte2Int(int2Byte(1)) as 0x01000000 |
| StringUtils.IndexOfEscape | StringUtils.java:48 | `indexOf("\\u", from)` is -1 or a position at or after `from` where `\u` starts |
| StringUtils.IndexOfEscapeIsFirst | StringUtils.java:48 | no `\u` starts between `from` and the found position, and none at all after `from` when -1 is returned |
| StringUtils.UnescapeFrom | StringUtils.java:48-53 | the result from position `pos` on: the text up to the next `\u`, the character its four digits name, then the same from after the escape; NumberFormat when parseInt rejects the digits, NoProgress when fewer than four characters follow, and nothing after the last escape; `UnescapeEscape`, `UnescapeBadDigits`, `UnescapeTruncated` and `UnescapeDropsTail` state each case |
| StringUtils.Unescape | StringUtils.java:43-56 | convertUnicodeToChina's result is `UnescapeFrom` at position 0, as `ConvertUnicodeToChina` proves for the loop |
| StringUtils.PrependTwice | StringUtils.java:49-52 | appending two pieces of text to the builder one after the other is appending their concatenation |
| StringUtils.UnescapeFromStep | StringUtils.java:48-53 | one pass of the loop on an escape with four characters after it: NumberFormatException when parseInt rejects them, otherwise the copied text and the parsed character before the conversion of the rest |
| StringUtils.ConvertUnicodeToChina | StringUtils.java:43-56 | the loop computes `Unescape(utfString)`, including the NumberFormatException and the non-terminating case |
| StringUtils.UnescapeShift | StringUtils.java:48-53 | converting from position pos does not depend on the text before pos |
| StringUtils.FirstEscapeAt | StringUtils.java:48 | after text with no `\u`, an escape that starts the rest is the first one found |
| StringUtils.UnescapePlainText | StringUtils.java:48-55 | text without any `\u` converts to the empty string |
| StringUtils.UnescapeEscape | StringUtils.java:48-53 | text before the first escape is copied, the four characters after `\u` become `(char) parseInt(…, 16)`, and the rest is converted the same way |
| StringUtils.UnescapeBadDigits | StringUtils.java:52 | four characters after `\u` that parseInt rejects end in NumberFormatException |
| StringUtils.UnescapeTruncated | StringUtils.java:48-53 | a `\u` with fewer than four characters after it is never consumed: the loop does not end |
| StringUtils.UnescapeHexEscape | StringUtils.java:48-53 | four hex digits of either case after `\u` become the character with that code |
| StringUtils.UnescapeEmpty | StringUtils.java:43-55 | the empty string converts to the empty string |
| StringUtils.UnescapeLeadingEscape | StringUtils.java:48-53 | a leading escape gives its character followed by the conversion of the rest |
| StringUtils.UnescapeTwoEscapes | StringUtils.java:48-53 | two adjacent escapes give exactly their two characters |
| StringUtils.UnescapeExample | StringUtils.java:43-56 | the escape text `\u4e2d\u6587` converts to the two characters U+4E2D U+6587 |
| StringUtils.HexValueExamples | StringUtils.java:52 | "4e2d" and "6587" read as hex are 0x4E2D and 0x6587 |
| StringUtils.UnescapeDropsTail | StringUtils.java:48-55 | an escape followed by escape-free text converts to the escaped character alone: the text after the last escape is dropped |
| StringUtils.UnescapeKeepingTailFrom | StringUtils.java:48-55 | the corrected conversion from `pos` on: as `UnescapeFrom`, except that the text after the last escape, or a `\u` with fewer than four characters after it, is copied unchanged; `UnescapeKeepingTailKeepsText` and `UnescapeKeepingTailCopiesTruncated` state those cases |
| StringUtils.UnescapeKeepingTail | StringUtils.java:43-56 | the corrected conversion of the whole string, which never ends in NoProgress (`UnescapeKeepingTailEnds`) |
| StringUtils.UnescapeKeepingTailEnds | StringUtils.java:43-56 | the corrected conversion never reports the non-terminating case |
| StringUtils.UnescapeKeepingTailCopiesTruncated | StringUtils.java:48-53 | the corrected conversion copies a `\u` with fewer than four characters after it, and the text before it, unchanged |
| StringUtils.UnescapeKeepingTailPlainText | StringUtils.java:43-56 | the corrected conversion returns escape-free text unchanged |
| StringUtils.UnescapeKeepingTailKeepsText | StringUtils.java:43-56 | the corrected conversion keeps the text after the last escape |
| Validators.MatchesConcatClass | StringUtils.java:119-123 | a pattern that opens with a character class takes exactly one character, from that class, from the front |
| Validators.MatchesConcatWidth | StringUtils.java:119-123 | a prefix pattern whose words all have length n takes exactly the first n characters |
| Validators.MatchesRepeatClass | StringUtils.java:119-123 | `[class]{min,max}` matches exactly the strings of min to max characters, all in the class |
| Validators.Matches | StringUtils.java:119-123 | `Matcher.matches()`: the whole string is a word of the pattern, with classes, concatenation, alternation and bounded repetition read as regular-expression semantics |
| Validators.Check | StringUtils.java:119-123 | `check(content, rule)` holds exactly when the rule matches the whole content |
| Validators.TelRegex | StringUtils.java:26 | the pattern `(13[0-9]\|14[0-9]\|15[0-9]\|17[0-9]\|18[0-9])\d{8}`; the anchors add nothing under `matches()`; `TelGroupWords` and `TelTailWords` state its words |
| Validators.IdNumRegex | StringUtils.java:31 | the three alternatives `\d{8,18}`, `[0-9x]{8,18}` and `[0-9X]{8,18}`; the lazy quantifier and the anchors add nothing under `matches()` |
| Validators.ChineseRegex | StringUtils.java:30 | one character in U+4E00-U+9FA5 or U+F900-U+FA2D |
| Validators.IsMobile | StringUtils.java:64-66 | `check` with the mobile pattern; `IsMobileIff` characterises it |
| Validators.IsIdNumber | StringUtils.java:115-117 | `check` with the ID-number pattern; `IsIdNumberIff` characterises it |
| Validators.IsContainChinese | StringUtils.java:105-107 | `check` with the ideograph class; `IsContainChineseIff` characterises it |
| Validators.MobilePrefixWords | StringUtils.java:26 | `1d[0-9]` matches exactly the three-character strings 1, d, digit |
| Validators.TelGroupWords | StringUtils.java:26 | the group `(13[0-9]\|14[0-9]\|15[0-9]\|17[0-9]\|18[0-9])` matches exactly 1, one of 3 4 5 7 8, a digit |
| Validators.TelGroupWidth | StringUtils.java:26 | every word of that group is three characters long |
| Validators.IsMobileSplit | StringUtils.java:64-66 | isMobile reads the group on the first three characters and `\d{8}` on the rest |
| Validators.TelTailWords | StringUtils.java:26 | `\d{8}` matches exactly eight ASCII digits |
| Validators.AllDigitsSplit | StringUtils.java:26 | a string is all digits exactly when its first three characters and the rest are |
| Validators.IsMobileIff | StringUtils.java:64-123 | isMobile holds exactly for 11 ASCII digits starting 13, 14, 15, 17 or 18 |
| Validators.InDigitsOr | StringUtils.java:31 | `[0-9x]` and `[0-9X]` hold exactly for a digit or that letter |
| Validators.IsIdNumberIff | StringUtils.java:115-123 | isIDNumber holds exactly for 8 to 18 characters, all in `[0-9x]` or all in `[0-9X]` |
| Validators.IdNumberDigitsOnly | StringUtils.java:115-117 | 8 to 18 plain digits are accepted |
| Validators.IsContainChineseIff | StringUtils.java:105-123 | isContainChinese holds exactly for one character in U+4E00..U+9FA5 or U+F900..U+FA2D |
| Validators.IsMobileExamples | StringUtils.java:64-66 | "13812345678" is accepted; "12812345678" and the ten-digit "1381234567" are not |
| Validators.IsIdNumberExampleUpper | StringUtils.java:115-117 | "11010519491231002X" is accepted |
| Validators.IsIdNumberExampleLower | StringUtils.java:115-117 | "11010519491231002x" is accepted |
| Validators.IsIdNumberExampleMixed | StringUtils.java:115-117 | a number mixing `x` and `X` is rejected |
| Validators.IsIdNumberExampleShort | StringUtils.java:115-117 | seven digits are rejected |
| Validators.IsContainChineseExamples | StringUtils.java:105-107 | the one-character string U+4E2D is accepted; U+4E2D U+6587, and "a" followed by U+4E2D, are not |
| BitmapUtils.CalculateInSampleSize | BitmapUtils.java:189-206 | result 1 when no downscale is needed; otherwise Ok(2^k), k ≤ 30, with k the first number of doublings at which the loop condition fails (stop condition at the result, loop condition at every smaller candidate); ArithmeticException exactly when the condition holds for every candidate up to MIN_VALUE |
| BitmapUtils.SampleCandidate | BitmapUtils.java:193-202 | after j doublings inSampleSize is 2^j up to j = 30 and MIN_VALUE at j = 31, never 0 |
| BitmapUtils.NeedsDownscale | BitmapUtils.java:195 | the guard: the image is taller or wider than requested |
| BitmapUtils.Keeps | BitmapUtils.java:200-201 | the loop condition at divisor s: half the height and half the width, each divided by s with truncation, both still exceed the request |
| BitmapUtils.FirstStop | BitmapUtils.java:198-202 | k doublings are the first at which the loop condition fails: it held for every smaller number of doublings and fails at k; `FirstStopUnique` proves there is at most one such k |
| BitmapUtils.DoubleCandidate | BitmapUtils.java:202 | `inSampleSize *= 2` in 32-bit arithmetic moves to the next candidate, and from MIN_VALUE to 0 |
| BitmapUtils.Pow2Bounds | BitmapUtils.java:202 | 2^j fits an int up to j = 30; 2^31 and 2^32 are the values that wrap |
| BitmapUtils.HalfOverLargest | BitmapUtils.java:196-201 | half an int divided by 2^30 is at most 0, and divided by MIN_VALUE is 0 |
| BitmapUtils.KeepsAtLargest | BitmapUtils.java:200-202 | the loop continues at 2^30 only if both requested sizes are negative, and then it also continues at MIN_VALUE |
| BitmapUtils.NonNegativeRequestEnds | BitmapUtils.java:200-202 | with reqHeight ≥ 0 or reqWidth ≥ 0 the loop stops before the divisor wraps |
| BitmapUtils.NegativeRequestKeeps | BitmapUtils.java:195-202 | for a non-negative image size and negative requested height and width, the loop condition holds at every candidate up to MIN_VALUE |
| BitmapUtils.NegativeRequestFails | BitmapUtils.java:189-206 | every such input ends in division by zero once the doubling wraps to 0 |
| BitmapUtils.FirstStopUnique | BitmapUtils.java:200-202 | the first stopping point is unique |
| BitmapUtils.WorkedExampleStopsAtThree | BitmapUtils.java:196-202 | half of 3000×4000 divided by 1, 2, 4 exceeds 300×400 and divided by 8 does not |
| BitmapUtils.WorkedExample | BitmapUtils.java:189-206 | height 3000, width 4000, reqWidth 400, reqHeight 300 gives 8 |
| SHA512Utils.DigestByteHex | encrypt/SHA512Utils.java:50-51 | `toHexString(b & 0xff)`, padded with "0" when one digit long, is the two-digit lower-case rendering of b |
| SHA512Utils.EncryptSHAForBuilder | encrypt/SHA512Utils.java:38-57 | null exactly for a null or empty string; "" when the SHA-512 lookup fails; otherwise `EncodeHex` of the digest of the string's bytes |
| SHA512Utils.EncryptSHAForBuffer | encrypt/SHA512Utils.java:66-84 | the same three cases as the builder variant |
| SHA512Utils.BuilderAgreesWithBuffer | encrypt/SHA512Utils.java:38-84 | the two variants return the same value for every input |
| SHA512Utils.DigestHexShape | encrypt/SHA512Utils.java:49-52 | a 64-byte digest renders as 128 lower-case hex digits, which decode back to the digest |
| SHA512Utils.AgreesWithBytes2HexString | encrypt/SHA512Utils.java:38-57 | the SHA-512 rendering equals bytes2HexString of the digest bytes |
| JavaLang.Digit16 | StringUtils.java:52 | `Character.digit(c, 16)` is non-negative exactly for the ASCII hex digits of either case |
| JavaLang.IndexOfChar | StringUtils.java:148 | `String.indexOf(c)` is -1 exactly when c is absent, and otherwise the first position of c |
| JavaLang.HexValue | StringUtils.java:52 | up to four hex digits have a value below 16^length |
| JavaLang.HexValueOfFour | StringUtils.java:52 | four digits are worth 0x1000·d0 + 0x100·d1 + 0x10·d2 + d3 |
| JavaLang.ParseInt16 | StringUtils.java:52 | `Integer.parseInt(s, 16)` of four hex digits is their value; it fails on the empty string |
| JavaLang.HexDigits | StringUtils.java:165 | `toHexString` has no leading zeros: one digit exactly below 16, a first digit '0' only for 0, last digit n mod 16 |
| JavaLang.HexDigitsOfByte | StringUtils.java:165 | below 256 the digits are those of the two nibbles, without a leading zero |
| JavaLang.ToHexStringOfByte | StringUtils.java:164-165 | `toHexString(b & 0xFF)` reads the byte as unsigned |
| JavaLang.SignExtend | StringUtils.java:142 | widening a byte to int copies its sign bit into the upper 24 bits |
| JavaLang.Narrow | StringUtils.java:142 | `(byte) x` keeps the low eight bits of the int |
| JavaLang.ByteOfIndex | StringUtils.java:148 | `(byte)` of an indexOf result: -1 becomes 0xFF, an index below 256 keeps its value |
| JavaLang.ShiftRightSigned | StringUtils.java:184-185 | Java's `>>`: on a non-negative int it is the plain shift, on a negative one it shifts in ones |
| JavaLang.ShiftRightSignedLowByte | StringUtils.java:184-185 | below the copied sign bits `>>` and `>>>` agree |
| JavaLang.Div32 | BitmapUtils.java:196-201 | for a positive divisor, Java int division rounds toward zero, also for a negative dividend |
| JavaLang.DivNonNegative | BitmapUtils.java:196-201 | a non-negative int divided by a positive one is non-negative |
| JavaLang.Wrap32 | BitmapUtils.java:202 | two's-complement wrap-around is the identity on ints and congruent modulo 2^32 |
| JavaLang.ToUpperCase | StringUtils.java:136 | `toUpperCase` maps a-z to A-Z, character by character, keeping the length |
| JavaLang.UpperCase | StringUtils.java:136 | 'a'-'z' become 'A'-'Z' and every other character is unchanged |
| JavaLang.ToHexString | StringUtils.java:165 | `Integer.toHexString`: the int read as unsigned, in lower-case digits, never empty |
| JavaLang.CharOfInt | StringUtils.java:52 | `(char)` of an int: the same value for every code below 2^16 |

## Left out

- The other members of StringUtils.java are not part of this model:
  - `isEmail` and `isHttpUrl` need a backtracking engine for nested groups;
  - `isIp`'s pattern is double-escaped and matches literal backslashes;
  - `saveDecimals` is `double` formatting.
- The rest of BitmapUtils.java is graphics-library and stream I/O (decoding, scaling with
  `Matrix`, flipping, rotating, circular masks, Base64, MediaStore). The Options object
  contributes only `outHeight` and `outWidth`.
- encrypt/TripleDESUtils.java, AppUtils.java, DevicesUtils.java and ViewUtils.java are
  not part of this model: JCE cipher wrappers, Android framework calls.
- `check` takes the compiled pattern, not the pattern string. `Pattern.compile` is replaced
  by the three syntax trees in `Validators`, one per pattern constant. The trees have no
  anchor nodes and no lazy-quantifier flag, which `matches()` makes irrelevant.
- SHA-512 itself (FIPS 180-4, section 6.4) and `String.getBytes()` in the platform default
  charset are function parameters. `MessageDigest.getInstance` failing with
  NoSuchAlgorithmException is a missing digest function. The printed stack trace is not
  modelled.
- A null argument where the source throws NullPointerException is not modelled:
  - `convertUnicodeToChina`, the validators, `bytes2HexString`, `byte2Int`;
  - `int2Byte`, which cannot receive one.
  Null is modelled only where the source tests for it (`hexString2Bytes`, both SHA-512
  methods).
- Byte2Int: a `requires` of at least four bytes stands for the
  ArrayIndexOutOfBoundsException a shorter array raises.
- ToUpperCase: only the ASCII letters are mapped. Java's full Unicode case mapping also
  changes other letters, and can change the length (e.g. U+00DF becomes "SS").
- HexString2Bytes: `DecodeHex`'s length |s|/2 and its pairing of characters 2i, 2i+1 hold
  only when upper-casing maps every character to exactly one character. Java maps some
  non-ASCII characters to several, some of them `F` (U+FB00 becomes "FF"). So for input
  such as U+FB00 alone, or U+00DF followed by "0A1B", Java returns different bytes from
  the model.
- Digit16: `Character.digit` also accepts non-ASCII decimal digits and full-width Latin
  letters, which `Integer.parseInt` would then read. Only ASCII digits are modelled, so
  such an escape is reported as NumberFormat.
- ByteOfIndex: covers only the values `indexOf` can return on the 16-character table
  (-1 to 15), not a general int-to-byte cast.
- IndexOfEscape: is `indexOf` specialised to the two-character pattern `\u`.
- ConvertUnicodeToChina: an escape whose loop never ends is returned as `Err(NoProgress)`.
  The model detects the one case where the loop cannot advance and does not diverge.
- StringBuilder and StringBuffer are modelled as sequences. StringBuffer's locking is not
  modelled.
- Allocation failure (OutOfMemoryError) is not modelled.
- ConvertUnicodeToChina: StringUtils.java:43 declares `convertUnicodeToChina` as an instance
  method, but the class's only constructor (StringUtils.java:33-35) is private and throws
  UnsupportedOperationException. No caller can reach the method. The model treats it as a
  function of its argument.

## Findings

| source | as written | input that shows it | evidently intended | confidence | as-written member | corrected member |
|---|---|---|---|---|---|---|
| StringUtils.java:48-55 | after the last escape the loop exits and `sb` is returned without the rest of the string | `\u4e2dabc` gives the single character U+4E2D, dropping "abc" | the text after the last escape is appended | high, not executed | StringUtils.UnescapeDropsTail | StringUtils.UnescapeKeepingTailKeepsText |
| StringUtils.java:48-53 | when fewer than four characters follow `\u`, `pos` is not advanced and the same escape is found forever | `ab\u12` never returns | the truncated escape is copied as text and the loop ends | high, not executed | StringUtils.UnescapeTruncated | StringUtils.UnescapeKeepingTailCopiesTruncated |
