/*
 * The three validators of StringUtils that survive as whole-string pattern
 * matches: isMobile, isIDNumber and isContainChinese. Each one compiles a
 * fixed regular expression and asks Matcher.matches(), which succeeds only
 * when the pattern matches the WHOLE input.
 *
 * The patterns are written here as syntax trees, already compiled, and a
 * pattern's meaning is the set of strings it matches as a whole. Under
 * matches() the anchors `^` and `$` match only at the two ends of the
 * input, which the whole-string reading already demands, and a lazy `{8,18}?`
 * matches the same whole strings as a greedy one; neither is a node here.
 */
module Validators {
  import opened JavaLang

  /** A compiled regular expression, restricted to what the three patterns use. */
  datatype Regex =
    | Class(ranges: seq<(JChar, JChar)>)         // [lo-hi...], one character
    | Concat(left: Regex, right: Regex)          // left then right
    | Alt(first: Regex, second: Regex)           // first | second
    | Repeat(body: Regex, min: nat, max: nat)    // body{min,max}

  predicate InRanges(ranges: seq<(JChar, JChar)>, c: JChar)
  {
    ranges != [] && (ranges[0].0 <= c <= ranges[0].1 || InRanges(ranges[1..], c))
  }

  /** The whole of s is a word of the pattern r. */
  predicate Matches(r: Regex, s: JString)
    decreases r, 0
  {
    match r
    case Class(ranges) => |s| == 1 && InRanges(ranges, s[0])
    case Concat(a, b) => exists k :: 0 <= k <= |s| && Matches(a, s[..k]) && Matches(b, s[k..])
    case Alt(a, b) => Matches(a, s) || Matches(b, s)
    case Repeat(body, min, max) => MatchesRepeat(body, min, max, s)
  }

  /** s is between min and max words of body, one after another. */
  predicate MatchesRepeat(body: Regex, min: nat, max: nat, s: JString)
    decreases body, 1, max
  {
    (min == 0 && s == [])
    || (0 < max && exists k :: 0 <= k <= |s| && Matches(body, s[..k])
                                && MatchesRepeat(body, if min == 0 then 0 else min - 1, max - 1, s[k..]))
  }

  // ---------------------------------------------------------------------
  // The patterns

  function Char(c: JChar): Regex { Class([(c, c)]) }

  /** \d: without UNICODE_CHARACTER_CLASS Java reads it as [0-9]. */
  function DigitClass(): Regex { Class([('0' as int, '9' as int)]) }

  /** 1, then d, then a digit: one alternative of the mobile prefix group. */
  function MobilePrefix(d: JChar): Regex
  {
    Concat(Char('1' as int), Concat(Char(d), DigitClass()))
  }

  /** ^(13[0-9]|14[0-9]|15[0-9]|17[0-9]|18[0-9])\d{8}$ */
  function TelRegex(): Regex
  {
    var group := Alt(Alt(Alt(Alt(MobilePrefix('3' as int), MobilePrefix('4' as int)),
                             MobilePrefix('5' as int)), MobilePrefix('7' as int)),
                     MobilePrefix('8' as int));
    Concat(group, Repeat(DigitClass(), 8, 8))
  }

  /** ^\d{8,18}|[0-9x]{8,18}|[0-9X]{8,18}?$ */
  function IdNumRegex(): Regex
  {
    Alt(Alt(Repeat(DigitClass(), 8, 18),
            Repeat(Class([('0' as int, '9' as int), ('x' as int, 'x' as int)]), 8, 18)),
        Repeat(Class([('0' as int, '9' as int), ('X' as int, 'X' as int)]), 8, 18))
  }

  /** [\u4E00-\u9FA5\uF900-\uFA2D]: one CJK ideograph from either block. */
  function ChineseRegex(): Regex
  {
    Class([(0x4E00, 0x9FA5), (0xF900, 0xFA2D)])
  }

  // ---------------------------------------------------------------------
  // The validators

  /** StringUtils.check: the compiled rule matches the whole content. */
  predicate Check(content: JString, rule: Regex)
  {
    Matches(rule, content)
  }

  predicate IsMobile(mobiles: JString) { Check(mobiles, TelRegex()) }

  predicate IsIdNumber(id: JString) { Check(id, IdNumRegex()) }

  predicate IsContainChinese(sequence: JString) { Check(sequence, ChineseRegex()) }

  // ---------------------------------------------------------------------
  // What the patterns accept, stated without patterns

  predicate AllDigits(s: JString)
  {
    forall k :: 0 <= k < |s| ==> IsAsciiDigit(s[k])
  }

  /** Eleven ASCII digits starting 13, 14, 15, 17 or 18. */
  predicate IsMobileNumber(s: JString)
  {
    |s| == 11 && AllDigits(s) && s[0] == '1' as int
    && (s[1] == '3' as int || s[1] == '4' as int || s[1] == '5' as int
        || s[1] == '7' as int || s[1] == '8' as int)
  }

  /** Every character is a digit or the letter x. */
  predicate AllDigitsOr(s: JString, x: JChar)
  {
    forall k :: 0 <= k < |s| ==> IsAsciiDigit(s[k]) || s[k] == x
  }

  /** 8 to 18 characters, all digits and lower-case x, or all digits and upper-case X. */
  predicate IsIdNumberText(s: JString)
  {
    8 <= |s| <= 18 && (AllDigitsOr(s, 'x' as int) || AllDigitsOr(s, 'X' as int))
  }

  /** One character of the CJK Unified Ideographs U+4E00..U+9FA5 or Compatibility Ideographs U+F900..U+FA2D. */
  predicate IsOneChineseChar(s: JString)
  {
    |s| == 1 && (0x4E00 <= s[0] <= 0x9FA5 || 0xF900 <= s[0] <= 0xFA2D)
  }

  // ---------------------------------------------------------------------
  // Lemmas about the matcher

  /** A pattern that opens with a character class takes exactly one character from the front. */
  lemma MatchesConcatClass(ranges: seq<(JChar, JChar)>, r: Regex, s: JString)
    ensures Matches(Concat(Class(ranges), r), s)
        <==> 1 <= |s| && InRanges(ranges, s[0]) && Matches(r, s[1..])
  {
    if 1 <= |s| && InRanges(ranges, s[0]) && Matches(r, s[1..]) {
      assert s[..1] == [s[0]];
      assert Matches(Class(ranges), s[..1]);
    }
  }

  /** A pattern whose words all have length n takes exactly n characters from the front. */
  lemma MatchesConcatWidth(a: Regex, b: Regex, n: nat, s: JString)
    requires forall t :: Matches(a, t) ==> |t| == n
    ensures Matches(Concat(a, b), s) <==> n <= |s| && Matches(a, s[..n]) && Matches(b, s[n..])
  {
  }

  /** body{min,max} of a class: between min and max characters, every one in the class. */
  lemma {:induction false} MatchesRepeatClass(ranges: seq<(JChar, JChar)>, min: nat, max: nat, s: JString)
    ensures MatchesRepeat(Class(ranges), min, max, s)
        <==> min <= |s| <= max && forall k :: 0 <= k < |s| ==> InRanges(ranges, s[k])
    decreases max
  {
    var c := Class(ranges);
    var min' := if min == 0 then 0 else min - 1;
    if 0 < max && s != [] {
      MatchesRepeatClass(ranges, min', max - 1, s[1..]);
    }
    if MatchesRepeat(c, min, max, s) && !(min == 0 && s == []) {
      var k :| 0 <= k <= |s| && Matches(c, s[..k]) && MatchesRepeat(c, min', max - 1, s[k..]);
      assert k == 1;
      assert s[..k][0] == s[0];
      assert forall j :: 1 <= j < |s| ==> s[j] == s[1..][j - 1];
    }
    if min <= |s| <= max && (forall k :: 0 <= k < |s| ==> InRanges(ranges, s[k])) && s != [] {
      assert s[..1] == [s[0]];
      assert Matches(c, s[..1]);
      assert forall j :: 0 <= j < |s| - 1 ==> s[1..][j] == s[j + 1];
      assert MatchesRepeat(c, min', max - 1, s[1..]);
    }
  }

  // ---------------------------------------------------------------------
  // isMobile

  lemma InOneRange(lo: JChar, hi: JChar, c: JChar)
    ensures InRanges([(lo, hi)], c) <==> lo <= c <= hi
  {
    assert [(lo, hi)][1..] == [];
  }

  lemma MobilePrefixWords(d: JChar, t: JString)
    ensures Matches(MobilePrefix(d), t)
        <==> |t| == 3 && t[0] == '1' as int && t[1] == d && IsAsciiDigit(t[2])
  {
    MatchesConcatClass([('1' as int, '1' as int)], Concat(Char(d), DigitClass()), t);
    if 1 <= |t| {
      MatchesConcatClass([(d, d)], DigitClass(), t[1..]);
      if 2 <= |t| {
        assert t[1..][0] == t[1];
        assert t[1..][1..] == t[2..];
      }
    }
    InOneRange('1' as int, '1' as int, if 1 <= |t| then t[0] else 0);
    InOneRange(d, d, if 2 <= |t| then t[1] else 0);
    InOneRange('0' as int, '9' as int, if 3 <= |t| then t[2] else 0);
  }

  /** The words of the prefix group: 1, one of 3 4 5 7 8, a digit. */
  lemma TelGroupWords(t: JString)
    ensures Matches(TelRegex().left, t)
        <==> |t| == 3 && t[0] == '1' as int && IsAsciiDigit(t[2])
             && (t[1] == '3' as int || t[1] == '4' as int || t[1] == '5' as int
                 || t[1] == '7' as int || t[1] == '8' as int)
  {
    MobilePrefixWords('3' as int, t);
    MobilePrefixWords('4' as int, t);
    MobilePrefixWords('5' as int, t);
    MobilePrefixWords('7' as int, t);
    MobilePrefixWords('8' as int, t);
  }

  /** Every word of the prefix group is three characters long. */
  lemma TelGroupWidth()
    ensures forall t :: Matches(TelRegex().left, t) ==> |t| == 3
  {
    forall t | Matches(TelRegex().left, t)
      ensures |t| == 3
    {
      TelGroupWords(t);
    }
  }

  /** isMobile reads the input as the prefix group on its first three characters and eight digits after. */
  lemma IsMobileSplit(s: JString)
    ensures IsMobile(s) <==> 3 <= |s| && Matches(TelRegex().left, s[..3])
                              && Matches(Repeat(DigitClass(), 8, 8), s[3..])
  {
    TelGroupWidth();
    MatchesConcatWidth(TelRegex().left, Repeat(DigitClass(), 8, 8), 3, s);
  }

  /** The eight digits after the prefix: s[3..] is eight digits. */
  lemma TelTailWords(t: JString)
    ensures Matches(Repeat(DigitClass(), 8, 8), t) <==> |t| == 8 && AllDigits(t)
  {
    MatchesRepeatClass([('0' as int, '9' as int)], 8, 8, t);
    forall k | 0 <= k < |t|
      ensures InRanges([('0' as int, '9' as int)], t[k]) <==> IsAsciiDigit(t[k])
    {
      InOneRange('0' as int, '9' as int, t[k]);
    }
  }

  /** s is all digits when its first three characters and the rest are. */
  lemma AllDigitsSplit(s: JString)
    requires 3 <= |s|
    ensures AllDigits(s) <==> IsAsciiDigit(s[0]) && IsAsciiDigit(s[1]) && IsAsciiDigit(s[2]) && AllDigits(s[3..])
  {
    if AllDigits(s[3..]) {
      forall k | 3 <= k < |s|
        ensures IsAsciiDigit(s[k])
      {
        assert s[k] == s[3..][k - 3];
      }
    }
  }

  /** isMobile accepts exactly the eleven-digit numbers starting 13, 14, 15, 17 or 18. */
  lemma IsMobileIff(s: JString)
    ensures IsMobile(s) <==> IsMobileNumber(s)
  {
    IsMobileSplit(s);
    if 3 <= |s| {
      var p := s[..3];
      TelGroupWords(p);
      TelTailWords(s[3..]);
      AllDigitsSplit(s);
      assert p[0] == s[0] && p[1] == s[1] && p[2] == s[2];
    }
  }

  // ---------------------------------------------------------------------
  // isIDNumber

  lemma InDigitsOr(x: JChar, c: JChar)
    ensures InRanges([('0' as int, '9' as int), (x, x)], c) <==> IsAsciiDigit(c) || c == x
  {
    assert [('0' as int, '9' as int), (x, x)][1..] == [(x, x)];
    InOneRange(x, x, c);
  }

  /** isIDNumber accepts 8 to 18 characters, all digits and x, or all digits and X. */
  lemma IsIdNumberIff(s: JString)
    ensures IsIdNumber(s) <==> IsIdNumberText(s)
  {
    var digits := [('0' as int, '9' as int)];
    var lower := [('0' as int, '9' as int), ('x' as int, 'x' as int)];
    var upper := [('0' as int, '9' as int), ('X' as int, 'X' as int)];
    MatchesRepeatClass(digits, 8, 18, s);
    MatchesRepeatClass(lower, 8, 18, s);
    MatchesRepeatClass(upper, 8, 18, s);
    forall k | 0 <= k < |s|
      ensures InRanges(digits, s[k]) <==> IsAsciiDigit(s[k])
      ensures InRanges(lower, s[k]) <==> IsAsciiDigit(s[k]) || s[k] == 'x' as int
      ensures InRanges(upper, s[k]) <==> IsAsciiDigit(s[k]) || s[k] == 'X' as int
    {
      InOneRange('0' as int, '9' as int, s[k]);
      InDigitsOr('x' as int, s[k]);
      InDigitsOr('X' as int, s[k]);
    }
  }

  /** The first alternative, plain digits, adds nothing the second does not accept. */
  lemma IdNumberDigitsOnly(s: JString)
    requires 8 <= |s| <= 18 && AllDigits(s)
    ensures IsIdNumber(s)
  {
    IsIdNumberIff(s);
  }

  // ---------------------------------------------------------------------
  // isContainChinese

  /**
   * Despite its name, isContainChinese accepts a string only when it is one
   * ideograph and nothing else: matches() demands the whole input.
   */
  lemma IsContainChineseIff(s: JString)
    ensures IsContainChinese(s) <==> IsOneChineseChar(s)
  {
    assert [(0x4E00, 0x9FA5), (0xF900, 0xFA2D)][1..] == [(0xF900, 0xFA2D)];
    if |s| == 1 {
      InOneRange(0xF900, 0xFA2D, s[0]);
    }
  }

  // ---------------------------------------------------------------------
  // Examples

  lemma IsMobileExamples(good: JString, unknownPrefix: JString, short: JString)
    requires good == Str("13812345678")
    requires unknownPrefix == Str("12812345678")
    requires short == Str("1381234567")
    ensures IsMobile(good) && !IsMobile(unknownPrefix) && !IsMobile(short)
  {
    IsMobileIff(good);
    IsMobileIff(unknownPrefix);
    IsMobileIff(short);
  }

  lemma IsIdNumberExampleUpper(id: JString)
    requires id == Str("11010519491231002X")
    ensures IsIdNumber(id)
  {
    IsIdNumberIff(id);
    assert AllDigitsOr(id, 'X' as int);
  }

  lemma IsIdNumberExampleLower(id: JString)
    requires id == Str("11010519491231002x")
    ensures IsIdNumber(id)
  {
    IsIdNumberIff(id);
    assert AllDigitsOr(id, 'x' as int);
  }

  /** Lower-case x and upper-case X may not be mixed. */
  lemma IsIdNumberExampleMixed(id: JString)
    requires id == Str("1101051949123100xX")
    ensures !IsIdNumber(id)
  {
    IsIdNumberIff(id);
    assert !AllDigitsOr(id, 'x' as int) by { assert id[17] == 'X' as int; }
    assert !AllDigitsOr(id, 'X' as int) by { assert id[16] == 'x' as int; }
  }

  lemma IsIdNumberExampleShort(id: JString)
    requires id == Str("1234567")
    ensures !IsIdNumber(id)
  {
    IsIdNumberIff(id);
  }

  lemma IsContainChineseExamples(one: JString, two: JString, mixed: JString)
    requires one == [0x4E2D] && two == [0x4E2D, 0x6587] && mixed == [0x61, 0x4E2D]
    ensures IsContainChinese(one) && !IsContainChinese(two) && !IsContainChinese(mixed)
  {
    IsContainChineseIff(one);
    IsContainChineseIff(two);
    IsContainChineseIff(mixed);
  }
}
