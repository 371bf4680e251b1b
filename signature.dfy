/**
 * `verifyGitHubWebhook`: the check of the `x-hub-signature-256` header
 * against `"sha256=" + hex(HMAC-SHA256(secret, body))`, compared with
 * Node's `crypto.timingSafeEqual` on the UTF-8 bytes of both strings.
 *
 * HMAC-SHA256 (RFC 2104 over FIPS 180-4) is not computed here: it is the
 * parameter `hmac`, an arbitrary function from (key, message) to digest
 * bytes. The process-wide secret is the parameter `secret`.
 */
module WebhookSignature {
  import opened Wrappers
  import opened Strings

  newtype byte = x: int | 0 <= x < 256

  /** The keyed digest function: HMAC-SHA256(key, message). */
  type Hmac = (string, string) -> seq<byte>

  /** What the verifier does: answer true, answer false, or throw because
      `timingSafeEqual` was given buffers of different lengths. */
  datatype Outcome = Valid | Invalid | LengthMismatch

  function HexChar(d: nat): (c: char)
    requires d < 16
    ensures ('0' <= c <= '9') || ('a' <= c <= 'f')
  {
    if d < 10 then (d + '0' as int) as char else (d - 10 + 'a' as int) as char
  }

  /** `digest("hex")`: two lower-case hexadecimal characters per byte, high
      nibble first. */
  function HexEncode(d: seq<byte>): (h: string)
    ensures |h| == 2 * |d|
    ensures forall k :: 0 <= k < |h| ==> ('0' <= h[k] <= '9') || ('a' <= h[k] <= 'f')
  {
    if d == [] then []
    else [HexChar(d[0] as int / 16), HexChar(d[0] as int % 16)] + HexEncode(d[1..])
  }

  function HexValue(c: char): nat {
    if '0' <= c <= '9' then c as int - '0' as int
    else if 'a' <= c <= 'f' then c as int - 'a' as int + 10
    else 0
  }

  /** Reads back lower-case hexadecimal, two characters per byte. */
  function HexDecode(h: string): seq<byte>
    decreases |h|
  {
    if |h| < 2 then []
    else [((HexValue(h[0]) * 16 + HexValue(h[1])) % 256) as byte] + HexDecode(h[2..])
  }

  /** Hex encoding loses nothing: decoding gives back the digest. */
  lemma {:induction false} HexRoundTrip(d: seq<byte>)
    ensures HexDecode(HexEncode(d)) == d
  {
    if d != [] {
      HexRoundTrip(d[1..]);
      var h := HexEncode(d);
      assert h[2..] == HexEncode(d[1..]);
    }
  }

  /** Two digests with the same hex encoding are equal. */
  lemma HexInjective(d1: seq<byte>, d2: seq<byte>)
    requires HexEncode(d1) == HexEncode(d2)
    ensures d1 == d2
  {
    HexRoundTrip(d1);
    HexRoundTrip(d2);
  }

  /** The UTF-8 bytes of one character, as `Buffer.from` writes them. */
  function Utf8Char(c: char): (b: seq<byte>)
    ensures 1 <= |b| <= 4
    ensures (c as int < 0x80) <==> (|b| == 1)
    ensures c as int < 0x80 ==> b == [c as int as byte]
    ensures c as int >= 0x80 ==> b[0] >= 0xC0
  {
    var n := c as int;
    if n < 0x80 then [n as byte]
    else if n < 0x800 then [(0xC0 + n / 64) as byte, (0x80 + n % 64) as byte]
    else if n < 0x10000 then
      [(0xE0 + n / 4096) as byte, (0x80 + (n / 64) % 64) as byte, (0x80 + n % 64) as byte]
    else
      [(0xF0 + n / 262144) as byte, (0x80 + (n / 4096) % 64) as byte,
       (0x80 + (n / 64) % 64) as byte, (0x80 + n % 64) as byte]
  }

  /** `Buffer.from(s)`: the UTF-8 encoding of a string. */
  function Utf8(s: string): (b: seq<byte>)
    ensures |b| >= |s|
  {
    if s == [] then [] else Utf8Char(s[0]) + Utf8(s[1..])
  }

  predicate IsAscii(s: string) {
    forall k :: 0 <= k < |s| ==> s[k] as int < 0x80
  }

  /** The UTF-8 bytes of an ASCII string are its character codes. */
  lemma {:induction false} Utf8Ascii(s: string)
    requires IsAscii(s)
    ensures |Utf8(s)| == |s|
    ensures forall k :: 0 <= k < |s| ==> Utf8(s)[k] == s[k] as int as byte
  {
    if s != [] {
      Utf8Ascii(s[1..]);
    }
  }

  /** A string whose UTF-8 bytes equal those of an ASCII string is that
      string: a non-ASCII character starts with a byte of 0xC0 or more,
      which no ASCII character produces. */
  lemma {:induction false} Utf8AsciiUnique(s: string, t: string)
    requires IsAscii(t)
    requires Utf8(s) == Utf8(t)
    ensures s == t
  {
    Utf8Ascii(t);
    if s == [] {
      assert |t| == 0;
    } else {
      assert t != [];
      assert Utf8(s)[0] == Utf8Char(s[0])[0];
      assert Utf8(t)[0] == t[0] as int as byte;
      assert s[0] as int < 0x80;
      assert s[0] == t[0];
      assert Utf8(s)[1..] == Utf8(s[1..]);
      assert Utf8(t)[1..] == Utf8(t[1..]);
      Utf8AsciiUnique(s[1..], t[1..]);
    }
  }

  /** The header value GitHub computes for `body` under `secret`. */
  function ExpectedSignature(hmac: Hmac, secret: string, body: string): (e: string)
    ensures IsAscii(e)
    ensures StartsWith(e, "sha256=")
    ensures |e| == 7 + 2 * |hmac(secret, body)|
  {
    "sha256=" + HexEncode(hmac(secret, body))
  }

  /** `timingSafeEqual(a, b)`: throws on a length difference, otherwise
      compares every byte. */
  function TimingSafeEqual(a: seq<byte>, b: seq<byte>): (o: Outcome)
    ensures o == LengthMismatch <==> |a| != |b|
    ensures o == Valid <==> a == b
  {
    if |a| != |b| then LengthMismatch else if a == b then Valid else Invalid
  }

  /** `verifyGitHubWebhook(body, signature)` with the configured secret: a
      missing or empty header or secret is rejected without throwing, a
      header of another byte length than the expected one makes
      `timingSafeEqual` throw, and only the header GitHub computes for this
      body under this secret is accepted. */
  function Verify(hmac: Hmac, secret: Option<string>, body: string, signature: Option<string>): (r: Outcome)
    ensures (signature.None? || signature == Some("") || secret.None? || secret == Some("")) ==> r == Invalid
    ensures r == Valid <==>
              secret.Some? && secret.value != "" &&
              signature == Some(ExpectedSignature(hmac, secret.value, body))
    ensures r == LengthMismatch <==>
              secret.Some? && secret.value != "" && signature.Some? && signature.value != "" &&
              |Utf8(signature.value)| != 7 + 2 * |hmac(secret.value, body)|
  {
    if signature.None? || signature.value == "" then Invalid
    else if secret.None? || secret.value == "" then Invalid
    else
      var expected := ExpectedSignature(hmac, secret.value, body);
      Utf8Ascii(expected);
      if Utf8(signature.value) == Utf8(expected) then
        Utf8AsciiUnique(signature.value, expected);
        TimingSafeEqual(Utf8(signature.value), Utf8(expected))
      else
        TimingSafeEqual(Utf8(signature.value), Utf8(expected))
  }

  /** The header GitHub sends for this body under this secret is accepted. */
  lemma VerifyAcceptsExpected(hmac: Hmac, secret: string, body: string)
    requires secret != ""
    ensures Verify(hmac, Some(secret), body, Some(ExpectedSignature(hmac, secret, body))) == Valid
  {
  }

  /** A tampered body is rejected under the header of the original, as long
      as the two bodies have different digests. */
  lemma TamperedBodyRejected(hmac: Hmac, secret: string, body: string, tampered: string)
    requires secret != ""
    requires hmac(secret, body) != hmac(secret, tampered)
    ensures Verify(hmac, Some(secret), tampered, Some(ExpectedSignature(hmac, secret, body))) != Valid
  {
    if Verify(hmac, Some(secret), tampered, Some(ExpectedSignature(hmac, secret, body))) == Valid {
      assert HexEncode(hmac(secret, body)) == ExpectedSignature(hmac, secret, body)[7..];
      HexInjective(hmac(secret, body), hmac(secret, tampered));
    }
  }
}
