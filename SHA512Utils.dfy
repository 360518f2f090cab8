/*
 * SHA512Utils: the SHA-512 digest of a string, rendered as lower-case
 * hexadecimal text. The digest itself (FIPS 180-4, section 6.4) and
 * String.getBytes() with the platform's default charset are not computed
 * here: they are passed in as functions. MessageDigest.getInstance failing
 * with NoSuchAlgorithmException is passed in as a missing digest function.
 */
module SHA512Utils {
  import opened JavaLang
  import StringUtils

  /** What MessageDigest.digest() returns for SHA-512: 64 bytes. */
  type Digest = s: seq<bv8> | |s| == 64 witness seq(64, _ => 0)

  /**
   * What one pass of the loop appends for a byte b:
   * Integer.toHexString(b & 0xff), after a "0" when it is one digit long.
   */
  function DigestByteHex(b: bv8): (r: JString)
    ensures r == StringUtils.ByteHex(b)
  {
    var value := SignExtend(b) & 0xFF;
    var hexStr := ToHexString(value);
    ToHexStringOfByte(b);
    StringUtils.NibblesOfByte(b);
    StringUtils.PaddedDigits(b as int);
    if |hexStr| == 1 then ['0' as int] + hexStr else hexStr
  }

  /** The loop over the digest bytes, appending to a StringBuilder. */
  method EncryptSHAForBuilder(str: Option<JString>, getBytes: JString -> seq<bv8>,
                              sha512: Option<seq<bv8> -> Digest>)
    returns (r: Option<JString>)
    ensures (str.None? || str.value == []) <==> r.None?
    ensures r.Some? && sha512.None? ==> r.value == []
    ensures r.Some? && sha512.Some? ==> r.value == StringUtils.EncodeHex(sha512.value(getBytes(str.value)))
  {
    if str.None? || |str.value| == 0 {
      return None;
    }
    var builder: JString := [];
    if sha512.None? {
      // NoSuchAlgorithmException: the stack trace is printed and the empty text returned
      return Some(builder);
    }
    var cipher: seq<bv8> := sha512.value(getBytes(str.value));
    for i := 0 to |cipher|
      invariant builder == StringUtils.EncodeHex(cipher[..i])
    {
      StringUtils.EncodeHexSnoc(cipher, i);
      builder := builder + DigestByteHex(cipher[i]);
    }
    assert cipher[..|cipher|] == cipher;
    return Some(builder);
  }

  /** The same loop appending to a StringBuffer, which only adds locking. */
  method EncryptSHAForBuffer(str: Option<JString>, getBytes: JString -> seq<bv8>,
                             sha512: Option<seq<bv8> -> Digest>)
    returns (r: Option<JString>)
    ensures (str.None? || str.value == []) <==> r.None?
    ensures r.Some? && sha512.None? ==> r.value == []
    ensures r.Some? && sha512.Some? ==> r.value == StringUtils.EncodeHex(sha512.value(getBytes(str.value)))
  {
    if str.None? || |str.value| == 0 {
      return None;
    }
    var buffer: JString := [];
    if sha512.None? {
      // NoSuchAlgorithmException: the stack trace is printed and the empty text returned
      return Some(buffer);
    }
    var cipher: seq<bv8> := sha512.value(getBytes(str.value));
    for i := 0 to |cipher|
      invariant buffer == StringUtils.EncodeHex(cipher[..i])
    {
      StringUtils.EncodeHexSnoc(cipher, i);
      buffer := buffer + DigestByteHex(cipher[i]);
    }
    assert cipher[..|cipher|] == cipher;
    return Some(buffer);
  }

  /** The two variants give the same answer on every input. */
  method BuilderAgreesWithBuffer(str: Option<JString>, getBytes: JString -> seq<bv8>,
                                 sha512: Option<seq<bv8> -> Digest>)
    returns (fromBuilder: Option<JString>, fromBuffer: Option<JString>)
    ensures fromBuilder == fromBuffer
  {
    fromBuilder := EncryptSHAForBuilder(str, getBytes, sha512);
    fromBuffer := EncryptSHAForBuffer(str, getBytes, sha512);
  }

  /**
   * The rendering of a digest is 128 lower-case hexadecimal digits, two per
   * byte, and reading them back gives the digest.
   */
  lemma DigestHexShape(d: Digest)
    ensures |StringUtils.EncodeHex(d)| == 128
    ensures forall k :: 0 <= k < 128 ==> StringUtils.IsLowerHexDigit(StringUtils.EncodeHex(d)[k])
    ensures StringUtils.DecodeHex(StringUtils.EncodeHex(d)) == d
  {
    var s := StringUtils.EncodeHex(d);
    forall k | 0 <= k < 128
      ensures StringUtils.IsLowerHexDigit(s[k])
    {
      StringUtils.PairInBounds(k / 2, 128);
      assert k == 2 * (k / 2) || k == 2 * (k / 2) + 1;
    }
    StringUtils.HexRoundTrip(d);
  }

  /** On a digest, the SHA-512 rendering is what bytes2HexString gives for the same bytes. */
  method AgreesWithBytes2HexString(str: JString, getBytes: JString -> seq<bv8>, sha512: seq<bv8> -> Digest)
    returns (digestHex: Option<JString>, bytesHex: Option<JString>)
    requires str != []
    ensures digestHex == bytesHex
  {
    digestHex := EncryptSHAForBuilder(Some(str), getBytes, Some(sha512));
    var cipher := sha512(getBytes(str));
    var b := new bv8[64](i requires 0 <= i < 64 => cipher[i]);
    assert b[..] == cipher;
    bytesHex := StringUtils.Bytes2HexString(b);
  }
}
