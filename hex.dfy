/**
 * Token text. Both kinds of token are `secrets.token_hex(16)`: sixteen bytes
 * from the operating system's random source, written as lower-case
 * hexadecimal. The random bytes are an input of the model; the encoding and
 * its inverse are modelled exactly.
 */
module Hex {
  import opened Wrappers

  type Byte = b: int | 0 <= b < 256

  /** The byte count passed to `token_hex`. */
  const TokenBytes: nat := 16

  predicate IsHexDigit(c: char) {
    ('0' <= c <= '9') || ('a' <= c <= 'f')
  }

  /** The numeric value of a hexadecimal digit. */
  function DigitValue(c: char): (n: int)
    requires IsHexDigit(c)
    ensures 0 <= n < 16
  {
    if c <= '9' then c as int - '0' as int else c as int - 'a' as int + 10
  }

  /** The lower-case digit for a value below 16. */
  function Digit(n: int): (c: char)
    requires 0 <= n < 16
    ensures IsHexDigit(c) && DigitValue(c) == n
  {
    if n < 10 then ('0' as int + n) as char else ('a' as int + n - 10) as char
  }

  /** `token_hex`: two lower-case digits per byte, high nibble first. */
  function TokenHex(bytes: seq<Byte>): (s: string)
    ensures |s| == 2 * |bytes|
    ensures forall i :: 0 <= i < |s| ==> IsHexDigit(s[i])
  {
    if bytes == [] then ""
    else [Digit(bytes[0] / 16), Digit(bytes[0] % 16)] + TokenHex(bytes[1..])
  }

  /** Reads a hexadecimal string back into bytes; None when it is not one. */
  function ParseHex(s: string): (r: Option<seq<Byte>>)
    ensures r.Some? ==> 2 * |r.value| == |s|
  {
    if s == [] then Some([])
    else if |s| == 1 || !IsHexDigit(s[0]) || !IsHexDigit(s[1]) then None
    else
      match ParseHex(s[2..])
      case None => None
      case Some(rest) => Some([DigitValue(s[0]) * 16 + DigitValue(s[1])] + rest)
  }

  /** A token determines the random bytes it was made from. */
  lemma {:induction false} ParseTokenHex(bytes: seq<Byte>)
    ensures ParseHex(TokenHex(bytes)) == Some(bytes)
  {
    if bytes != [] {
      var s := TokenHex(bytes);
      assert s[2..] == TokenHex(bytes[1..]);
      ParseTokenHex(bytes[1..]);
      assert DigitValue(s[0]) * 16 + DigitValue(s[1]) == bytes[0];
      assert [bytes[0]] + bytes[1..] == bytes;
    }
  }

  /** Distinct random draws give distinct tokens. */
  lemma TokenHexInjective(a: seq<Byte>, b: seq<Byte>)
    requires TokenHex(a) == TokenHex(b)
    ensures a == b
  {
    ParseTokenHex(a);
    ParseTokenHex(b);
  }
}
