/** The format of a reset token: random bytes written as lower-case
    hexadecimal, two characters per byte, high nibble first
    (Node's `Buffer.toString('hex')`). */
module Hex {

  import opened Wrappers

  newtype byte = x: int | 0 <= x < 256

  /** Number of random bytes drawn for one reset token. */
  const TokenBytes: nat := 32

  predicate IsHexDigit(c: char) {
    '0' <= c <= '9' || 'a' <= c <= 'f'
  }

  predicate IsHexString(s: string) {
    forall i :: 0 <= i < |s| ==> IsHexDigit(s[i])
  }

  /** The lower-case digit for a nibble. */
  function HexDigit(n: int): (c: char)
    requires 0 <= n < 16
    ensures IsHexDigit(c)
  {
    if n < 10 then ('0' as int + n) as char else ('a' as int + n - 10) as char
  }

  /** The nibble a digit stands for; inverse of HexDigit. */
  function HexValue(c: char): (n: int)
    requires IsHexDigit(c)
    ensures 0 <= n < 16
    ensures HexDigit(n) == c
  {
    if c <= '9' then c as int - '0' as int else c as int - 'a' as int + 10
  }

  lemma HexValueOfDigit(n: int)
    requires 0 <= n < 16
    ensures HexValue(HexDigit(n)) == n
  {
  }

  /** Hex encoding: every byte becomes two lower-case digits, high nibble
      first. */
  function HexEncode(bytes: seq<byte>): (s: string)
    ensures |s| == 2 * |bytes|
    ensures IsHexString(s)
    ensures forall i :: 0 <= i < |bytes| ==>
      s[2 * i] == HexDigit(bytes[i] as int / 16) && s[2 * i + 1] == HexDigit(bytes[i] as int % 16)
  {
    if bytes == [] then []
    else
      var b := bytes[0] as int;
      [HexDigit(b / 16), HexDigit(b % 16)] + HexEncode(bytes[1..])
  }

  /** The inverse of HexEncode: rejects odd lengths and characters outside
      `0-9a-f`. */
  function HexDecode(s: string): (r: Option<seq<byte>>)
    ensures r.Some? ==> |s| == 2 * |r.value|
    ensures r.Some? ==> IsHexString(s)
  {
    if s == [] then Some([])
    else if |s| < 2 || !IsHexDigit(s[0]) || !IsHexDigit(s[1]) then None
    else
      match HexDecode(s[2..])
      case None => None
      case Some(rest) => Some([(HexValue(s[0]) * 16 + HexValue(s[1])) as byte] + rest)
  }

  /** Decoding an encoded token gives back the bytes it was made from. */
  lemma {:induction false} DecodeEncode(bytes: seq<byte>)
    ensures HexDecode(HexEncode(bytes)) == Some(bytes)
  {
    if bytes != [] {
      var b := bytes[0] as int;
      var s := HexEncode(bytes);
      assert s[2..] == HexEncode(bytes[1..]);
      DecodeEncode(bytes[1..]);
      HexValueOfDigit(b / 16);
      HexValueOfDigit(b % 16);
      assert [bytes[0]] + bytes[1..] == bytes;
    }
  }

  /** Every string the decoder accepts is the encoding of what it decodes to. */
  lemma {:induction false} EncodeDecode(s: string, bytes: seq<byte>)
    requires HexDecode(s) == Some(bytes)
    ensures HexEncode(bytes) == s
  {
    if s != [] {
      var rest := HexDecode(s[2..]).value;
      EncodeDecode(s[2..], rest);
      var hi, lo := HexValue(s[0]), HexValue(s[1]);
      assert bytes == [(hi * 16 + lo) as byte] + rest;
      assert (hi * 16 + lo) / 16 == hi && (hi * 16 + lo) % 16 == lo;
      assert s == [s[0], s[1]] + s[2..];
    }
  }

  /** The decoder accepts every even-length lower-case hex string, so with
      DecodeEncode and EncodeDecode the encoding is a bijection onto them. */
  lemma {:induction false} DecodeTotal(s: string)
    requires |s| % 2 == 0 && IsHexString(s)
    ensures HexDecode(s).Some?
  {
    if s != [] {
      DecodeTotal(s[2..]);
    }
  }

  /** Distinct byte strings give distinct tokens. */
  lemma EncodeInjective(a: seq<byte>, b: seq<byte>)
    requires HexEncode(a) == HexEncode(b)
    ensures a == b
  {
    DecodeEncode(a);
    DecodeEncode(b);
  }

  /** A reset token as issued: 32 random bytes, hex encoded, so 64 characters
      from `0-9a-f`. */
  function Token(random: seq<byte>): (t: string)
    requires |random| == TokenBytes
    ensures |t| == 64 && IsHexString(t)
    ensures HexDecode(t) == Some(random)
  {
    DecodeEncode(random);
    HexEncode(random)
  }
}
