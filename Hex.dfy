/** Bytes, SHA-256 sized digests and their lower-case hexadecimal rendering (`hexdigest()`). */
module Hex {
  import opened Wrappers

  type Byte = b: int | 0 <= b < 256

  /** A SHA-256 output: exactly 32 bytes. */
  type Digest = d: seq<Byte> | |d| == 32 witness seq(32, _ => 0)

  predicate IsLowerHex(c: char) {
    '0' <= c <= '9' || 'a' <= c <= 'f'
  }

  /** The digit for a nibble, from "0123456789abcdef". */
  function NibbleChar(n: int): (c: char)
    requires 0 <= n < 16
    ensures IsLowerHex(c)
  {
    if n < 10 then ('0' as int + n) as char else ('a' as int + n - 10) as char
  }

  function NibbleValue(c: char): (n: int)
    requires IsLowerHex(c)
    ensures 0 <= n < 16 && NibbleChar(n) == c
  {
    if c <= '9' then c as int - '0' as int else c as int - 'a' as int + 10
  }

  /** Two lower-case hex characters per byte, high nibble first. */
  function HexDigest(bytes: seq<Byte>): (s: string)
    ensures |s| == 2 * |bytes|
    ensures forall i :: 0 <= i < |s| ==> IsLowerHex(s[i])
  {
    if bytes == [] then []
    else [NibbleChar(bytes[0] / 16), NibbleChar(bytes[0] % 16)] + HexDigest(bytes[1..])
  }

  /** Decodes an even-length string of lower-case hex characters. */
  function ParseHex(s: string): (r: Option<seq<Byte>>)
    ensures r.Some? ==> 2 * |r.value| == |s|
  {
    if s == [] then Some([])
    else if |s| < 2 || !IsLowerHex(s[0]) || !IsLowerHex(s[1]) then None
    else match ParseHex(s[2..])
      case None => None
      case Some(rest) => Some([16 * NibbleValue(s[0]) + NibbleValue(s[1])] + rest)
  }

  lemma NibbleRoundTrip(n: int)
    requires 0 <= n < 16
    ensures NibbleValue(NibbleChar(n)) == n
  {
  }

  lemma {:induction false} ParseHexDigest(bytes: seq<Byte>)
    ensures ParseHex(HexDigest(bytes)) == Some(bytes)
  {
    if bytes != [] {
      var hi, lo := bytes[0] / 16, bytes[0] % 16;
      var rest := HexDigest(bytes[1..]);
      var s := [NibbleChar(hi), NibbleChar(lo)] + rest;
      assert HexDigest(bytes) == s;
      assert s[2..] == rest;
      NibbleRoundTrip(hi);
      NibbleRoundTrip(lo);
      ParseHexDigest(bytes[1..]);
      assert ParseHex(s) == Some([16 * hi + lo] + bytes[1..]);
      assert bytes == [16 * hi + lo] + bytes[1..];
    }
  }
}
