/** Authenticating as a GitHub App: the JSON Web Token the app signs
    (compact JWS serialisation, section 7.1 of RFC 7515, alg RS256 of
    section 3.3 of RFC 7518, claims `iat`, `exp` and `iss` of sections
    4.1.6, 4.1.4 and 4.1.1 of RFC 7519), the private-key normalisation, the
    installation-token URL and the splitting of a repository name.
    RS256 signing is a parameter: any function from a key and a message to
    signature bytes. */
module AppAuth {
  import opened Wrappers
  import opened Text
  import opened Bytes
  import opened Base64
  import Json
  import Seqs

  /** `base64Url`: the UTF-8 bytes of the text, in base64url without padding. */
  function Base64Url(input: string): (r: string)
    ensures forall i :: 0 <= i < |r| ==> IsUrlChar(r[i])
    ensures '=' !in r && '.' !in r
    ensures UrlDecode(r) == Utf8Encode(input)
  {
    Base64UrlIsUrlEncode(Utf8Encode(input));
    UrlDecodeEncode(Utf8Encode(input));
    Base64UrlBytes(Utf8Encode(input))
  }

  /** `JSON.stringify({ alg: "RS256", typ: "JWT" })` */
  const HeaderJson := "{\"alg\":\"RS256\",\"typ\":\"JWT\"}"

  /** The registered claims GitHub expects: issued a minute in the past,
      expiring nine minutes from now, issued by the app. */
  datatype Claims = Claims(iat: int, exp: int, iss: string)

  function JwtClaims(appId: string, nowUnixSeconds: int): (c: Claims)
    ensures c.exp - c.iat == 600
  {
    Claims(nowUnixSeconds - 60, nowUnixSeconds + 9 * 60, appId)
  }

  /** `JSON.stringify` of the claims object, keys in insertion order:
      `{"iat":<iat>,"exp":<exp>,"iss":<quoted iss>}`. */
  function PayloadJson(c: Claims): (r: string)
    ensures |r| > 2 && r[..2] == "{\"" && r[|r| - 1] == '}'
  {
    "{\"iat\":" + (IntToString(c.iat) + ("," + ("\"exp\":" + (IntToString(c.exp)
      + ("," + ("\"iss\":" + (Json.Quote(c.iss) + "}")))))))
  }

  lemma NoCommaInNumber(n: int)
    ensures ',' !in IntToString(n)
  {
    if ',' in IntToString(n) {
      IntToStringChars(n, ',');
    }
  }

  lemma DropPrefix(p: string, x: string, y: string)
    requires p + x == p + y
    ensures x == y
  {
    assert (p + x)[|p|..] == x;
    assert (p + y)[|p|..] == y;
  }

  /** Two texts `<number>,<key>:<rest>` with the same key are equal only
      when number and rest are. */
  lemma NumberThenMember(m: int, n: int, key: string, x: string, y: string)
    requires IntToString(m) + ("," + (key + x)) == IntToString(n) + ("," + (key + y))
    ensures m == n && x == y
  {
    NoCommaInNumber(m);
    NoCommaInNumber(n);
    assert IntToString(m) + ("," + (key + x)) == IntToString(m) + [','] + (key + x);
    assert IntToString(n) + ("," + (key + y)) == IntToString(n) + [','] + (key + y);
    SeparatedHeads(IntToString(m), key + x, IntToString(n), key + y, ',');
    IntToStringInjective(m, n);
    DropPrefix(key, x, y);
  }

  /** The payload determines the claims: each of `iat`, `exp` and `iss` can
      be read back from it. */
  lemma PayloadJsonInjective(c: Claims, d: Claims)
    requires PayloadJson(c) == PayloadJson(d)
    ensures c == d
  {
    var lastC := "\"iss\":" + (Json.Quote(c.iss) + "}");
    var lastD := "\"iss\":" + (Json.Quote(d.iss) + "}");
    var midC := IntToString(c.exp) + ("," + lastC);
    var midD := IntToString(d.exp) + ("," + lastD);
    DropPrefix("{\"iat\":", IntToString(c.iat) + ("," + ("\"exp\":" + midC)),
                             IntToString(d.iat) + ("," + ("\"exp\":" + midD)));
    NumberThenMember(c.iat, d.iat, "\"exp\":", midC, midD);
    NumberThenMember(c.exp, d.exp, "\"iss\":", Json.Quote(c.iss) + "}", Json.Quote(d.iss) + "}");
    assert Json.Quote(c.iss) == (Json.Quote(c.iss) + "}")[..|Json.Quote(c.iss)|];
    assert Json.Quote(d.iss) == (Json.Quote(d.iss) + "}")[..|Json.Quote(d.iss)|];
    Json.QuoteInjective(c.iss, d.iss);
  }

  /** `normalizePrivateKey`'s `replace(/\\n/g, "\n")`: every backslash
      followed by 'n', scanning left to right, becomes a newline. */
  function ReplaceEscapedNewlines(s: string): (r: string)
    ensures NoEscapedNewline(r)
    ensures |s| > 0 ==> |r| > 0 && (r[0] == 'n' ==> s[0] == 'n')
    decreases |s|
  {
    if |s| >= 2 && s[0] == '\\' && s[1] == 'n' then "\n" + ReplaceEscapedNewlines(s[2..])
    else if s == [] then ""
    else [s[0]] + ReplaceEscapedNewlines(s[1..])
  }

  /** No backslash is directly followed by 'n'. */
  predicate NoEscapedNewline(s: string) {
    forall i :: 0 <= i < |s| - 1 ==> !(s[i] == '\\' && s[i + 1] == 'n')
  }

  lemma {:induction false} NoEscapedNewlineNotContained(s: string)
    requires NoEscapedNewline(s)
    ensures !Contains(s, "\\n")
    decreases |s|
  {
    if |s| > 0 {
      NoEscapedNewlineNotContained(s[1..]);
      if |s| >= 2 {
        assert s[..2] == [s[0], s[1]];
      }
    }
  }

  /** `normalizePrivateKey`: keys stored with backslash-n sequences get real
      line breaks; other keys are left as they are. */
  function NormalizePrivateKey(rawKey: string): (r: string)
    ensures !Contains(r, "\\n")
    ensures !Contains(rawKey, "\\n") ==> r == rawKey
  {
    if Contains(rawKey, "\\n") then
      var r := ReplaceEscapedNewlines(rawKey);
      NoEscapedNewlineNotContained(r);
      r
    else rawKey
  }

  /** A character that does not start an escaped newline is kept. */
  lemma {:induction false} ReplaceKeeps(c: char, t: string)
    requires c != '\\' || t == [] || t[0] != 'n'
    ensures ReplaceEscapedNewlines([c] + t) == [c] + ReplaceEscapedNewlines(t)
  {
    var s := [c] + t;
    assert s[0] == c && s[1..] == t;
    if c == '\\' && t != [] {
      assert s[1] == t[0];
    }
  }

  lemma {:induction false} NoEscapedNewlineTail(p: string)
    requires p != [] && NoEscapedNewline(p)
    ensures NoEscapedNewline(p[1..])
  {
    forall i | 0 <= i < |p[1..]| - 1
      ensures !(p[1..][i] == '\\' && p[1..][i + 1] == 'n')
    {
      assert p[1..][i] == p[i + 1] && p[1..][i + 1] == p[i + 2];
    }
  }

  /** A backslash followed by 'n' becomes a newline. */
  lemma {:induction false} ReplaceEscape(t: string)
    ensures ReplaceEscapedNewlines("\\n" + t) == "\n" + ReplaceEscapedNewlines(t)
  {
    var s := "\\n" + t;
    assert s[0] == '\\' && s[1] == 'n' && s[2..] == t;
  }

  /** Text free of escaped newlines, not ending in a backslash, passes
      through unchanged. */
  lemma {:induction false} ReplaceAfterPlain(p: string, rest: string)
    requires NoEscapedNewline(p) && (p != [] ==> p[|p| - 1] != '\\')
    ensures ReplaceEscapedNewlines(p + rest) == p + ReplaceEscapedNewlines(rest)
    decreases |p|
  {
    if p != [] {
      var tail := p[1..] + rest;
      NoEscapedNewlineTail(p);
      if p[0] == '\\' {
        assert |p| >= 2 && tail[0] == p[1] && p[1] != 'n';
      }
      assert p + rest == [p[0]] + tail;
      ReplaceKeeps(p[0], tail);
      assert p[1..] != [] ==> p[1..][|p[1..]| - 1] == p[|p| - 1];
      ReplaceAfterPlain(p[1..], rest);
      assert [p[0]] + (p[1..] + ReplaceEscapedNewlines(rest)) == p + ReplaceEscapedNewlines(rest);
    } else {
      assert p + rest == rest;
    }
  }

  /** Text free of escaped newlines is left as it is. */
  lemma {:induction false} ReplacePlain(p: string)
    requires NoEscapedNewline(p)
    ensures ReplaceEscapedNewlines(p) == p
    decreases |p|
  {
    if p != [] {
      NoEscapedNewlineTail(p);
      if p[0] == '\\' && |p| >= 2 {
        assert p[1..][0] == p[1] && p[1] != 'n';
      }
      assert p == [p[0]] + p[1..];
      ReplaceKeeps(p[0], p[1..]);
      ReplacePlain(p[1..]);
    }
  }

  /** A key stored as two pieces of plain text around one backslash-n
      sequence gets a real line break there, and nothing else changes. */
  lemma {:induction false} NormalizesEscapedKey(a: string, b: string)
    requires NoEscapedNewline(a) && NoEscapedNewline(b) && (a != [] ==> a[|a| - 1] != '\\')
    ensures NormalizePrivateKey(a + "\\n" + b) == a + "\n" + b
  {
    var raw := a + "\\n" + b;
    Seqs.AppendAssoc(a, "\\n", b);
    assert raw[|a|] == '\\' && raw[|a| + 1] == 'n';
    EscapedKeyIsReplaced(raw, |a|);
    ReplaceOneEscape(a, b);
    Seqs.AppendAssoc(a, "\n", b);
  }

  lemma {:induction false} ReplaceOneEscape(a: string, b: string)
    requires NoEscapedNewline(a) && NoEscapedNewline(b) && (a != [] ==> a[|a| - 1] != '\\')
    ensures ReplaceEscapedNewlines(a + ("\\n" + b)) == a + ("\n" + b)
  {
    ReplaceAfterPlain(a, "\\n" + b);
    ReplaceEscape(b);
    ReplacePlain(b);
  }

  /** A key with a backslash-n somewhere is the replaced key. */
  lemma {:induction false} EscapedKeyIsReplaced(raw: string, i: nat)
    requires i + 2 <= |raw| && raw[i] == '\\' && raw[i + 1] == 'n'
    ensures NormalizePrivateKey(raw) == ReplaceEscapedNewlines(raw)
  {
    assert raw[i..i + 2] == "\\n";
    ContainsAt(raw, "\\n", i);
  }

  /** Compact JWS serialisation: header and payload in base64url, joined
      by '.', signed under the key, and the signature appended in base64url.
      It splits on '.' into exactly three segments, which decode to the
      header, the payload, and the signature of `header "." payload`. */
  function CompactJws(headerJson: string, payloadJson: string, key: string,
                      sign: (string, string) -> seq<byte>): (r: string)
    ensures var signingInput := Base64Url(headerJson) + "." + Base64Url(payloadJson);
            var segments := Split(r, '.');
            |segments| == 3
            && segments[0] + "." + segments[1] == signingInput
            && UrlDecode(segments[0]) == Utf8Encode(headerJson)
            && UrlDecode(segments[1]) == Utf8Encode(payloadJson)
            && UrlDecode(segments[2]) == sign(key, signingInput)
  {
    var header, payload := Base64Url(headerJson), Base64Url(payloadJson);
    var signingInput := header + "." + payload;
    var sig := sign(key, signingInput);
    Base64UrlAlphabet(sig);
    Base64UrlIsUrlEncode(sig);
    UrlDecodeEncode(sig);
    ThreeSegments(header, payload, Base64UrlBytes(sig));
    signingInput + "." + Base64UrlBytes(sig)
  }

  lemma ThreeSegments(a: string, b: string, c: string)
    requires '.' !in a && '.' !in b && '.' !in c
    ensures Split(a + "." + b + "." + c, '.') == [a, b, c]
  {
    SplitNoSeparator(c, '.');
    SplitConcat(b, '.', c);
    SplitConcat(a, '.', b + "." + c);
    assert a + "." + b + "." + c == a + ['.'] + (b + ['.'] + c);
  }

  /** `buildGitHubAppJwt`: the claims for `nowUnixSeconds`, signed with
      RS256 under the normalised key. The token has three segments: the
      RS256 header, the claims (iat one minute before now, exp nine minutes
      after, iss the app id), and their signature under the normalised key. */
  function BuildGitHubAppJwt(appId: string, privateKeyRaw: string, nowUnixSeconds: int,
                             sign: (string, string) -> seq<byte>): (r: string)
    ensures var segments := Split(r, '.');
            |segments| == 3
            && UrlDecode(segments[0]) == Utf8Encode(HeaderJson)
            && UrlDecode(segments[1]) == Utf8Encode(PayloadJson(Claims(nowUnixSeconds - 60, nowUnixSeconds + 540, appId)))
            && UrlDecode(segments[2]) == sign(NormalizePrivateKey(privateKeyRaw), segments[0] + "." + segments[1])
  {
    CompactJws(HeaderJson, PayloadJson(JwtClaims(appId, nowUnixSeconds)), NormalizePrivateKey(privateKeyRaw), sign)
  }

  lemma Utf8StartsWithBrace(rest: string)
    ensures |Utf8Encode("{\"" + rest)| >= 2
    ensures Utf8Encode("{\"" + rest)[0] == 0x7B && Utf8Encode("{\"" + rest)[1] == 0x22
  {
    Utf8EncodeAppend("{\"", rest);
    assert Utf8Encode("{\"") == [0x7B, 0x22];
  }

  /** Text starting with `{"`, as every JSON object with a key does, is
      encoded as text starting with "ey". */
  lemma Base64UrlOfObjectStartsWithEy(rest: string)
    ensures Base64Url("{\"" + rest)[..2] == "ey"
  {
    var b := Utf8Encode("{\"" + rest);
    Utf8StartsWithBrace(rest);
    UrlEncodeStartsWithEy(b);
    Base64UrlIsUrlEncode(b);
  }

  /** Every token starts with "ey". */
  lemma JwtStartsWithEy(appId: string, privateKeyRaw: string, nowUnixSeconds: int, sign: (string, string) -> seq<byte>)
    ensures BuildGitHubAppJwt(appId, privateKeyRaw, nowUnixSeconds, sign)[..2] == "ey"
  {
    var rest := "alg\":\"RS256\",\"typ\":\"JWT\"}";
    assert HeaderJson == "{\"" + rest;
    CompactJwsStartsWithEy(rest, PayloadJson(JwtClaims(appId, nowUnixSeconds)), NormalizePrivateKey(privateKeyRaw), sign);
  }

  lemma CompactJwsStartsWithEy(rest: string, payloadJson: string, key: string, sign: (string, string) -> seq<byte>)
    ensures CompactJws("{\"" + rest, payloadJson, key, sign)[..2] == "ey"
  {
    Base64UrlOfObjectStartsWithEy(rest);
  }

  /** `apiBaseUrl.replace(/\/$/, "")`: one trailing '/' is removed. */
  function StripTrailingSlash(url: string): (r: string)
    ensures r == url || url == r + "/"
    ensures |url| > 0 && url[|url| - 1] == '/' ==> url == r + "/"
  {
    if |url| > 0 && url[|url| - 1] == '/' then url[..|url| - 1] else url
  }

  const TokenPath := "/app/installations/"
  const TokenSuffix := "/access_tokens"

  /** The endpoint that exchanges the app token for an installation token:
      the base without its trailing '/', the installations path, the
      installation id in decimal, and `/access_tokens`. */
  function InstallationTokenUrl(apiBaseUrl: string, installationId: int): (url: string)
    ensures StartsWith(url, StripTrailingSlash(apiBaseUrl) + TokenPath)
    ensures |url| >= |StripTrailingSlash(apiBaseUrl) + TokenPath| + |TokenSuffix|
    ensures url[|url| - |TokenSuffix|..] == TokenSuffix
    ensures url[|StripTrailingSlash(apiBaseUrl) + TokenPath|..|url| - |TokenSuffix|] == IntToString(installationId)
  {
    var prefix := StripTrailingSlash(apiBaseUrl) + TokenPath;
    var url := prefix + IntToString(installationId) + TokenSuffix;
    assert url[..|prefix|] == prefix;
    assert url[|prefix|..|url| - |TokenSuffix|] == IntToString(installationId);
    url
  }

  /** One base URL, different installations: different endpoints. */
  lemma InstallationTokenUrlInjective(apiBaseUrl: string, m: int, n: int)
    requires InstallationTokenUrl(apiBaseUrl, m) == InstallationTokenUrl(apiBaseUrl, n)
    ensures m == n
  {
    IntToStringInjective(m, n);
  }

  /** A base URL with or without a trailing '/' gives the same endpoint, but
      only one '/' is removed. */
  lemma TokenUrlIgnoresOneTrailingSlash(apiBaseUrl: string, installationId: int)
    requires apiBaseUrl == [] || apiBaseUrl[|apiBaseUrl| - 1] != '/'
    ensures InstallationTokenUrl(apiBaseUrl + "/", installationId) == InstallationTokenUrl(apiBaseUrl, installationId)
    ensures InstallationTokenUrl(apiBaseUrl + "//", installationId)
         == apiBaseUrl + "/" + TokenPath + IntToString(installationId) + TokenSuffix
  {
    assert (apiBaseUrl + "/")[..|apiBaseUrl|] == apiBaseUrl;
    assert (apiBaseUrl + "//")[..|apiBaseUrl| + 1] == apiBaseUrl + "/";
  }

  datatype Repository = Repository(owner: string, repo: string)

  lemma FirstTwoParts(s: string)
    requires |Split(s, '/')| >= 2
    ensures StartsWith(s, Split(s, '/')[0] + "/" + Split(s, '/')[1])
  {
    var parts := Split(s, '/');
    JoinSplit(s, '/');
    assert Join(parts, "/") == parts[0] + "/" + Join(parts[1..], "/");
    if |parts| == 2 {
      assert s == parts[0] + "/" + parts[1];
    } else {
      assert Join(parts[1..], "/") == parts[1] + "/" + Join(parts[2..], "/");
      assert s == (parts[0] + "/" + parts[1]) + ("/" + Join(parts[2..], "/"));
    }
  }

  /** `parseRepository`: the first two '/'-separated parts, both non-empty;
      any further parts are ignored. */
  function ParseRepository(fullName: string): (r: Result<Repository>)
    ensures r.Success? ==> r.value.owner != "" && r.value.repo != ""
    ensures r.Success? ==> '/' !in r.value.owner && '/' !in r.value.repo
    ensures r.Success? ==> StartsWith(fullName, r.value.owner + "/" + r.value.repo)
    ensures r.Failure? ==> r.error == "Invalid repository name: " + fullName
  {
    var parts := Split(fullName, '/');
    SplitPiecesHaveNoSeparator(fullName, '/');
    var owner := parts[0];
    if owner == "" || |parts| < 2 || parts[1] == "" then
      Failure("Invalid repository name: " + fullName)
    else
      FirstTwoParts(fullName);
      var repo := parts[1];
      Success(Repository(owner, repo))
  }

  /** "owner/repo", optionally followed by more '/'-parts, gives back owner
      and repo. */
  lemma ParseRepositoryRoundTrip(owner: string, repo: string, more: string)
    requires owner != "" && repo != "" && '/' !in owner && '/' !in repo
    requires more == [] || more[0] == '/'
    ensures ParseRepository(owner + "/" + repo + more) == Success(Repository(owner, repo))
  {
    var s := owner + "/" + repo + more;
    SplitConcat(owner, '/', repo + more);
    assert s == owner + ['/'] + (repo + more);
    if more == [] {
      SplitNoSeparator(repo, '/');
      assert repo + more == repo;
    } else {
      SplitConcat(repo, '/', more[1..]);
      assert repo + more == repo + ['/'] + more[1..];
    }
  }

  /** A name without '/', or beginning with '/', is refused. */
  lemma ParseRepositoryRejects(fullName: string)
    requires '/' !in fullName || (fullName != [] && fullName[0] == '/')
    ensures ParseRepository(fullName).Failure?
  {
    if '/' !in fullName {
      SplitNoSeparator(fullName, '/');
    } else {
      assert fullName == [] + ['/'] + fullName[1..];
      SplitConcat([], '/', fullName[1..]);
    }
  }

  /** A name whose second part is empty, such as "owner/" or
      "owner//repo", is refused. */
  lemma ParseRepositoryRejectsEmptyRepo(owner: string, more: string)
    requires '/' !in owner && (more == [] || more[0] == '/')
    ensures ParseRepository(owner + "/" + more).Failure?
  {
    var s := owner + "/" + more;
    assert s == owner + ['/'] + more;
    SplitConcat(owner, '/', more);
    if more == [] {
      SplitNoSeparator(more, '/');
    } else {
      assert more == [] + ['/'] + more[1..];
      SplitConcat([], '/', more[1..]);
    }
  }
}
