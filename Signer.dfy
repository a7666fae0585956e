/**
 * Request signing (`Client.calculate_hash`): the canonical signing string
 * and the `key:timestamp:hexdigest` token built from its HMAC-SHA256.
 *
 * The clock is the integer millisecond timestamp `ts`; HMAC-SHA256 keyed by
 * the UTF-8 bytes of the secret over the UTF-8 bytes of the message is the
 * parameter `mac`, any function yielding a 32-byte digest.
 */
module Signer {
  import opened Wrappers
  import opened Decimal
  import opened Hex

  const CRLF: string := "\r\n"

  /** HMAC-SHA256(secret, message), abstracted. */
  type Mac = (string, string) -> Digest

  /** `f"{timestamp}\r\n{verb}\r\n{path}\r\n\r\n{body}"` */
  function RawSignature(ts: int, verb: string, path: string, body: string): (raw: string)
  {
    IntToDec(ts) + CRLF + verb + CRLF + path + CRLF + CRLF + body
  }

  /** The text before the first carriage return. */
  function BeforeFirstCR(s: string): string {
    if s == [] || s[0] == '\r' then [] else [s[0]] + BeforeFirstCR(s[1..])
  }

  lemma {:induction false} BeforeFirstCRAppend(a: string, x: string)
    requires forall i :: 0 <= i < |a| ==> a[i] != '\r'
    requires |x| > 0 && x[0] == '\r'
    ensures BeforeFirstCR(a + x) == a
  {
    if a != [] {
      assert (a + x)[1..] == a[1..] + x;
      BeforeFirstCRAppend(a[1..], x);
    }
  }

  /** The signing string is the timestamp, then a separator block holding the verb and path, then the body. */
  lemma RawSignatureSplit(ts: int, verb: string, path: string, body: string)
    ensures RawSignature(ts, verb, path, body) == IntToDec(ts) + ((CRLF + verb + CRLF + path + CRLF + CRLF) + body)
  {
  }

  /**
   * Layout of the signing string: it opens with the decimal timestamp, which
   * runs up to the first carriage return, and closes with the path, the
   * blank line `\r\n\r\n` and then the body.
   */
  lemma RawSignatureLayout(ts: int, verb: string, path: string, body: string)
    ensures var raw := RawSignature(ts, verb, path, body);
      && |raw| == |IntToDec(ts)| + |verb| + |path| + |body| + 8
      && BeforeFirstCR(raw) == IntToDec(ts)
      && raw[|raw| - |body|..] == body
      && raw[|raw| - |body| - 4 - |path|..|raw| - |body|] == path + CRLF + CRLF
  {
    var raw := RawSignature(ts, verb, path, body);
    var d := IntToDec(ts);
    var front := d + CRLF + verb + CRLF;
    var tail := path + CRLF + CRLF;
    RawSignatureSplit(ts, verb, path, body);
    DecHasNoSeparator(ts);
    BeforeFirstCRAppend(d, (CRLF + verb + CRLF + path + CRLF + CRLF) + body);
    assert raw == front + tail + body;
    assert raw[|raw| - |body|..] == body;
    assert raw[|front|..|front| + |tail|] == tail;
  }

  /**
   * For a given verb and path the signing string determines both the
   * timestamp and the body: no two requests share a signing string.
   */
  lemma RawSignatureInjective(ts1: int, ts2: int, verb: string, path: string, body1: string, body2: string)
    requires RawSignature(ts1, verb, path, body1) == RawSignature(ts2, verb, path, body2)
    ensures ts1 == ts2 && body1 == body2
  {
    var d1, d2 := IntToDec(ts1), IntToDec(ts2);
    var mid := CRLF + verb + CRLF + path + CRLF + CRLF;
    RawSignatureSplit(ts1, verb, path, body1);
    RawSignatureSplit(ts2, verb, path, body2);
    DecHasNoSeparator(ts1);
    DecHasNoSeparator(ts2);
    BeforeFirstCRAppend(d1, mid + body1);
    BeforeFirstCRAppend(d2, mid + body2);
    IntToDecInjective(ts1, ts2);
    CancelPrefix(d1, mid + body1, mid + body2);
    CancelPrefix(mid, body1, body2);
  }

  /** Equal strings with a common prefix have equal remainders. */
  lemma CancelPrefix(a: string, x: string, y: string)
    requires a + x == a + y
    ensures x == y
  {
    assert x == (a + x)[|a|..];
    assert y == (a + y)[|a|..];
  }

  /** A decimal rendering holds neither a carriage return nor a colon. */
  lemma DecHasNoSeparator(n: int)
    ensures forall i :: 0 <= i < |IntToDec(n)| ==> IntToDec(n)[i] != '\r' && IntToDec(n)[i] != ':'
  {
  }

  /** The three parts of an authorization token. */
  datatype TokenParts = TokenParts(key: string, timestamp: int, digest: Digest)

  /** `"{key}:{timestamp}:{signature}".format(...)` */
  function Token(parts: TokenParts): (t: string)
    ensures |t| == |parts.key| + |IntToDec(parts.timestamp)| + 66
    ensures t[..|parts.key| + 1] == parts.key + ":"
    ensures forall i :: |t| - 64 <= i < |t| ==> IsLowerHex(t[i])
    ensures t[|t| - 65] == ':' && t[|t| - 64..] == HexDigest(parts.digest)
  {
    parts.key + ":" + IntToDec(parts.timestamp) + ":" + HexDigest(parts.digest)
  }

  /** Position of the last occurrence of `c` in `s`. */
  function LastIndexOf(s: string, c: char): (r: Option<nat>)
    ensures r.Some? ==> r.value < |s| && s[r.value] == c
    ensures r.Some? ==> forall j :: r.value < j < |s| ==> s[j] != c
    ensures r.None? ==> forall j :: 0 <= j < |s| ==> s[j] != c
  {
    if s == [] then None
    else if s[|s| - 1] == c then Some(|s| - 1)
    else LastIndexOf(s[..|s| - 1], c)
  }

  /**
   * Splits a token from the right: the last 64 characters are the digest,
   * the segment between the last two colons is the timestamp and everything
   * before them is the key (which may itself contain colons).
   */
  function ParseToken(t: string): Option<TokenParts> {
    if |t| < 65 || t[|t| - 65] != ':' then None
    else match ParseHex(t[|t| - 64..])
      case None => None
      case Some(bytes) =>
        var head := t[..|t| - 65];
        match LastIndexOf(head, ':')
        case None => None
        case Some(j) =>
          match ParseInt(head[j + 1..])
          case None => None
          case Some(ts) => Some(TokenParts(head[..j], ts, bytes))
  }

  /** An occurrence with none after it is the one `LastIndexOf` finds. */
  lemma {:induction false} LastIndexOfAt(s: string, c: char, i: nat)
    requires i < |s| && s[i] == c
    requires forall j :: i < j < |s| ==> s[j] != c
    ensures LastIndexOf(s, c) == Some(i)
  {
    if i < |s| - 1 {
      var init := s[..|s| - 1];
      assert init[i] == c;
      LastIndexOfAt(init, c, i);
    }
  }

  /** The colon after the key is the last one before the digest: the timestamp holds none. */
  lemma KeyColonIsLast(key: string, ts: int)
    ensures LastIndexOf(key + ":" + IntToDec(ts), ':') == Some(|key|)
  {
    var dec := IntToDec(ts);
    var head := key + ":" + dec;
    DecHasNoSeparator(ts);
    forall j | |key| < j < |head| ensures head[j] != ':' {
      assert head[j] == dec[j - |key| - 1];
    }
    LastIndexOfAt(head, ':', |key|);
  }

  /** Where the parser cuts a token: the 64 trailing characters, the colon before them, the head. */
  lemma TokenCuts(head: string, hex: string)
    requires |hex| == 64
    ensures var t := head + ":" + hex;
      && |t| >= 65 && t[|t| - 65] == ':' && t[|t| - 64..] == hex && t[..|t| - 65] == head
  {
  }

  /** The head `key:timestamp` splits at its last colon into the key and the timestamp. */
  lemma HeadCuts(key: string, dec: string)
    ensures var head := key + ":" + dec;
      && head[|key| + 1..] == dec && head[..|key|] == key
  {
  }

  /** A token parses back into the key, timestamp and digest it was made of. */
  lemma ParseTokenRoundTrip(parts: TokenParts)
    ensures ParseToken(Token(parts)) == Some(parts)
  {
    var dec := IntToDec(parts.timestamp);
    var head := parts.key + ":" + dec;
    var hex := HexDigest(parts.digest);
    var t := head + ":" + hex;
    assert Token(parts) == t;
    TokenCuts(head, hex);
    ParseHexDigest(parts.digest);
    KeyColonIsLast(parts.key, parts.timestamp);
    HeadCuts(parts.key, dec);
    ParseIntToDec(parts.timestamp);
  }

  /**
   * `Client.calculate_hash(body, verb, path)` for credentials `(key, secret)`
   * at millisecond time `ts`: the token over the HMAC of the signing string.
   */
  function CalculateHash(key: string, secret: string, ts: int, mac: Mac,
                         body: string, verb: string, path: string): (token: string)
    ensures ParseToken(token) ==
      Some(TokenParts(key, ts, mac(secret, RawSignature(ts, verb, path, body))))
    ensures |token| == |key| + |IntToDec(ts)| + 66
    ensures token[..|key| + 1] == key + ":"
    ensures forall i :: |token| - 64 <= i < |token| ==> IsLowerHex(token[i])
  {
    var parts := TokenParts(key, ts, mac(secret, RawSignature(ts, verb, path, body)));
    ParseTokenRoundTrip(parts);
    Token(parts)
  }
}
