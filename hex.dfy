/**
 * PHP's `bin2hex`: each byte becomes two lower-case hexadecimal digits, high
 * nibble first. auth/login.php mints its tokens as `bin2hex(random_bytes(32))`.
 * `Decode` is the inverse (PHP's `hex2bin`), used to prove that the encoding is
 * one-to-one, so distinct random bytes give distinct tokens.
 */
module Hex {
  import opened Store

  type byte = x: int | 0 <= x < 256

  const Digits: string := "0123456789abcdef"

  predicate IsHexDigit(c: char)
  {
    c in Digits
  }

  /** `bin2hex($bytes)`. */
  function Encode(bytes: seq<byte>): (hex: string)
    ensures |hex| == 2 * |bytes|
    ensures forall i :: 0 <= i < |hex| ==> IsHexDigit(hex[i])
  {
    if bytes == [] then []
    else [Digits[bytes[0] / 16], Digits[bytes[0] % 16]] + Encode(bytes[1..])
  }

  /** The value of one lower-case hexadecimal digit. */
  function DigitValue(c: char): (v: Option<nat>)
    ensures v.Some? <==> IsHexDigit(c)
    ensures v.Some? ==> v.value < 16 && Digits[v.value] == c
  {
    if '0' <= c <= '9' then Some(c as nat - '0' as nat)
    else if 'a' <= c <= 'f' then Some(c as nat - 'a' as nat + 10)
    else None
  }

  /** The byte written as the two digits `hi` `lo`. */
  function PairValue(hi: char, lo: char): (b: Option<byte>)
    ensures b.Some? <==> IsHexDigit(hi) && IsHexDigit(lo)
  {
    var h, l := DigitValue(hi), DigitValue(lo);
    if h.Some? && l.Some? then Some((h.value * 16 + l.value) as byte) else None
  }

  /** `hex2bin($hex)` restricted to lower-case digits: None on an odd length or a non-digit. */
  function Decode(hex: string): (bytes: Option<seq<byte>>)
    ensures bytes.Some? ==> 2 * |bytes.value| == |hex|
    decreases |hex|
  {
    if hex == [] then Some([])
    else if |hex| == 1 then None
    else
      var b, rest := PairValue(hex[0], hex[1]), Decode(hex[2..]);
      if b.Some? && rest.Some? then Some([b.value] + rest.value) else None
  }

  lemma DigitValueOfDigit(n: nat)
    requires n < 16
    ensures DigitValue(Digits[n]) == Some(n)
  {
  }

  lemma PairValueOfByte(b: byte)
    ensures PairValue(Digits[b / 16], Digits[b % 16]) == Some(b)
  {
    DigitValueOfDigit(b / 16);
    DigitValueOfDigit(b % 16);
  }

  /** Decoding the two digits of one byte in front of any text. */
  lemma DecodeByte(b: byte, rest: string, decoded: seq<byte>)
    requires Decode(rest) == Some(decoded)
    ensures Decode([Digits[b / 16], Digits[b % 16]] + rest) == Some([b] + decoded)
  {
    var hex := [Digits[b / 16], Digits[b % 16]] + rest;
    assert hex[0] == Digits[b / 16] && hex[1] == Digits[b % 16] && hex[2..] == rest;
    PairValueOfByte(b);
  }

  /** Decoding an encoding gives the bytes back. */
  lemma {:induction false} DecodeEncode(bytes: seq<byte>)
    ensures Decode(Encode(bytes)) == Some(bytes)
  {
    if bytes != [] {
      DecodeEncode(bytes[1..]);
      DecodeByte(bytes[0], Encode(bytes[1..]), bytes[1..]);
      assert [bytes[0]] + bytes[1..] == bytes;
    }
  }

  /** Different bytes are never rendered as the same hex string. */
  lemma EncodeInjective(a: seq<byte>, b: seq<byte>)
    requires a != b
    ensures Encode(a) != Encode(b)
  {
    DecodeEncode(a);
    DecodeEncode(b);
  }
}
