/** Checking the `X-Hub-Signature-256` header of a webhook delivery: the
    header must be "sha256=" followed by the hexadecimal HMAC-SHA256 (RFC
    2104) of the raw body under the shared secret. HMAC-SHA256 itself is a
    parameter: any function from a key and a message to a 32-byte digest. */
module WebhookSignature {
  import opened Wrappers
  import opened Text
  import opened Bytes
  import opened Hex

  const DigestLength: nat := 32
  const SignaturePrefix := "sha256="

  type Digest = d: seq<byte> | |d| == DigestLength witness seq(32, _ => 0 as byte)

  /** `verifyGitHubWebhookSignature`, with `timingSafeEqual` as byte
      equality. */
  function VerifyWebhookSignature(rawBody: string, signatureHeader: Option<string>, secret: string,
                                  hmac: (string, string) -> Digest): (ok: bool)
    ensures ok ==> signatureHeader.Some? && StartsWith(signatureHeader.value, SignaturePrefix)
    ensures ok ==> HexDecode(signatureHeader.value[|SignaturePrefix|..]) == hmac(secret, rawBody)
  {
    if signatureHeader.None? || signatureHeader.value == "" || !StartsWith(signatureHeader.value, SignaturePrefix) then
      false
    else
      var signatureHex := signatureHeader.value[|SignaturePrefix|..];
      var expectedHex := HexEncode(hmac(secret, rawBody));
      var signatureBuffer := HexDecode(signatureHex);
      var expectedBuffer := HexDecode(expectedHex);
      HexDecodeEncode(hmac(secret, rawBody));
      if |signatureBuffer| != |expectedBuffer| then false
      else signatureBuffer == expectedBuffer
  }

  /** A present header is accepted exactly when it has the "sha256=" prefix
      and the hex after it decodes to the digest of the body. */
  lemma AcceptedIffDigestDecodes(rawBody: string, header: string, secret: string, hmac: (string, string) -> Digest)
    ensures VerifyWebhookSignature(rawBody, Some(header), secret, hmac)
        <==> StartsWith(header, SignaturePrefix) && HexDecode(header[|SignaturePrefix|..]) == hmac(secret, rawBody)
  {
    HexDecodeEncode(hmac(secret, rawBody));
  }

  /** A missing or empty header is rejected. */
  lemma RejectsMissingHeader(rawBody: string, secret: string, hmac: (string, string) -> Digest)
    ensures !VerifyWebhookSignature(rawBody, None, secret, hmac)
    ensures !VerifyWebhookSignature(rawBody, Some(""), secret, hmac)
  {
  }

  /** A header of another scheme is rejected. */
  lemma RejectsOtherScheme(rawBody: string, header: string, secret: string, hmac: (string, string) -> Digest)
    requires !StartsWith(header, SignaturePrefix)
    ensures !VerifyWebhookSignature(rawBody, Some(header), secret, hmac)
  {
  }

  /** A signature whose decoding is not 32 bytes long is rejected, whatever
      the digest. */
  lemma RejectsWrongLength(rawBody: string, header: string, secret: string, hmac: (string, string) -> Digest)
    requires StartsWith(header, SignaturePrefix)
    requires |HexDecode(header[|SignaturePrefix|..])| != DigestLength
    ensures !VerifyWebhookSignature(rawBody, Some(header), secret, hmac)
  {
  }

  /** "sha256=deadbeef" carries a 4-byte signature and is rejected. */
  lemma RejectsShortSignature(rawBody: string, header: string, secret: string, hmac: (string, string) -> Digest)
    requires header == "sha256=deadbeef"
    ensures !VerifyWebhookSignature(rawBody, Some(header), secret, hmac)
  {
    var hex := header[|SignaturePrefix|..];
    assert hex == "deadbeef";
    assert HexDecode(hex[6..]) == [0xef];
    assert HexDecode(hex[4..]) == [0xbe, 0xef];
    assert HexDecode(hex[2..]) == [0xad, 0xbe, 0xef];
    assert |HexDecode(hex)| == 4;
    RejectsWrongLength(rawBody, header, secret, hmac);
  }

  /** The header a sender computes is accepted. */
  lemma AcceptsOwnSignature(rawBody: string, secret: string, hmac: (string, string) -> Digest)
    ensures VerifyWebhookSignature(rawBody, Some(SignaturePrefix + HexEncode(hmac(secret, rawBody))), secret, hmac)
  {
    var header := SignaturePrefix + HexEncode(hmac(secret, rawBody));
    assert header[..|SignaturePrefix|] == SignaturePrefix;
    assert header[|SignaturePrefix|..] == HexEncode(hmac(secret, rawBody));
    HexDecodeEncode(hmac(secret, rawBody));
  }

  /** Only the leading hex pairs are read, so the digest in upper case, or
      followed by text that does not start with a pair of hex digits (such
      as one stray digit or "zz"), is accepted too. */
  lemma AcceptsUpperCaseAndTrailingText(rawBody: string, secret: string, hmac: (string, string) -> Digest, trailer: string)
    requires HexDecode(trailer) == []
    ensures VerifyWebhookSignature(rawBody, Some(SignaturePrefix + Upper(HexEncode(hmac(secret, rawBody)))), secret, hmac)
    ensures VerifyWebhookSignature(rawBody, Some(SignaturePrefix + HexEncode(hmac(secret, rawBody)) + trailer), secret, hmac)
  {
    var d := hmac(secret, rawBody);
    var upper := SignaturePrefix + Upper(HexEncode(d));
    assert upper[..|SignaturePrefix|] == SignaturePrefix;
    assert upper[|SignaturePrefix|..] == Upper(HexEncode(d));
    HexDecodeUpperEncode(d);
    HexDecodeEncode(d);
    var trailing := SignaturePrefix + HexEncode(d) + trailer;
    assert trailing[..|SignaturePrefix|] == SignaturePrefix;
    assert trailing[|SignaturePrefix|..] == HexEncode(d) + trailer;
    HexDecodeEncodeAppend(d, trailer);
  }
}
