/**
 * Bytes, SHA-256 digests and their lowercase hexadecimal text.
 *
 * SHA-256 itself (FIPS 180-4) is not modelled: every operation that hashes
 * takes the hash function as a parameter whose only known property is that
 * it returns 32 bytes. Both `fmt.Sprintf("%x", b)` and `hex.EncodeToString(b)`
 * produce two lowercase hexadecimal digits per byte, which is `Hex` below.
 */
module Encoding {

  type byte = bv8

  const DigestLength := 32

  /** A SHA-256 digest: exactly 32 bytes. */
  type Digest = s: seq<byte> | |s| == DigestLength witness seq(DigestLength, _ => 0 as byte)

  /** The hash function, as `crypto/sha256` computes it over everything written to a hasher. */
  type Sha256 = seq<byte> -> Digest

  predicate IsLowerHexChar(c: char) {
    ('0' <= c <= '9') || ('a' <= c <= 'f')
  }

  predicate IsLowerHex(s: string) {
    forall k :: 0 <= k < |s| ==> IsLowerHexChar(s[k])
  }

  /** The lowercase digit for a value below 16: '0'..'9', then 'a'..'f'. */
  function Digit(v: nat): (c: char)
    requires v < 16
    ensures IsLowerHexChar(c)
  {
    if v < 10 then ((v + '0' as int) as char) else ((v - 10 + 'a' as int) as char)
  }

  /** The two digits of one byte, high nibble first. */
  function HexByte(b: byte): (s: string)
    ensures |s| == 2 && IsLowerHex(s)
  {
    var v := b as int;
    [Digit(v / 16), Digit(v % 16)]
  }

  /** Lowercase hexadecimal text of a byte string. */
  function Hex(bs: seq<byte>): (s: string)
    ensures |s| == 2 * |bs|
    ensures IsLowerHex(s)
  {
    if bs == [] then "" else HexByte(bs[0]) + Hex(bs[1..])
  }

  /** Value of one lowercase hexadecimal digit. */
  function DigitValue(c: char): (v: nat)
    requires IsLowerHexChar(c)
    ensures v < 16 && Digit(v) == c
  {
    if c <= '9' then (c as int) - ('0' as int) else (c as int) - ('a' as int) + 10
  }

  /** Decoding of lowercase hexadecimal text, two digits per byte. */
  function Unhex(s: string): seq<byte>
    requires |s| % 2 == 0 && IsLowerHex(s)
  {
    if s == [] then []
    else [(DigitValue(s[0]) * 16 + DigitValue(s[1])) as byte] + Unhex(s[2..])
  }

  lemma UnhexByte(b: byte)
    ensures DigitValue(HexByte(b)[0]) * 16 + DigitValue(HexByte(b)[1]) == b as int
  {
    var v := b as int;
    assert DigitValue(Digit(v / 16)) == v / 16;
    assert DigitValue(Digit(v % 16)) == v % 16;
  }

  /** Hex text decodes back to the bytes it was made from. */
  lemma {:induction false} UnhexHex(bs: seq<byte>)
    ensures Unhex(Hex(bs)) == bs
  {
    if bs != [] {
      var s := Hex(bs);
      assert s[..2] == HexByte(bs[0]);
      assert s[2..] == Hex(bs[1..]);
      UnhexByte(bs[0]);
      UnhexHex(bs[1..]);
    }
  }

  /** Different byte strings never share their hex text. */
  lemma HexInjective(a: seq<byte>, b: seq<byte>)
    requires Hex(a) == Hex(b)
    ensures a == b
  {
    UnhexHex(a);
    UnhexHex(b);
  }

  /** Text whose every character is ASCII (code below 128). */
  predicate IsAscii(s: string) {
    forall k :: 0 <= k < |s| ==> (s[k] as int) < 128
  }

  /**
   * `[]byte(s)` for ASCII text: one byte per character, with the
   * character's code (UTF-8 encodes ASCII that way).
   */
  function AsciiBytes(s: string): (bs: seq<byte>)
    requires IsAscii(s)
    ensures |bs| == |s|
  {
    seq(|s|, k requires 0 <= k < |s| => (s[k] as int) as byte)
  }

  lemma LowerHexIsAscii(s: string)
    requires IsLowerHex(s)
    ensures IsAscii(s)
  {
  }
}
