/** Base 64 encoding of bytes (section 4 of RFC 4648, with '=' padding, as
    `toString("base64")` writes it), the URL-safe rewriting the GitHub App
    token code applies to it, and the unpadded base64url encoding of section
    5 of RFC 4648 that the rewriting amounts to. */
module Base64 {
  import opened Bytes

  /** The alphabet of section 4 of RFC 4648: A-Z, a-z, 0-9, '+', '/'. */
  function StdChar(n: nat): (c: char)
    requires n < 64
  {
    if n < 26 then ('A' as int + n) as char
    else if n < 52 then ('a' as int + n - 26) as char
    else if n < 62 then ('0' as int + n - 52) as char
    else if n == 62 then '+'
    else '/'
  }

  /** The alphabet of section 5 of RFC 4648: A-Z, a-z, 0-9, '-', '_'. */
  function UrlChar(n: nat): (c: char)
    requires n < 64
    ensures IsUrlChar(c)
  {
    if n < 26 then ('A' as int + n) as char
    else if n < 52 then ('a' as int + n - 26) as char
    else if n < 62 then ('0' as int + n - 52) as char
    else if n == 62 then '-'
    else '_'
  }

  predicate IsUrlChar(c: char) {
    ('A' <= c <= 'Z') || ('a' <= c <= 'z') || ('0' <= c <= '9') || c == '-' || c == '_'
  }

  function UrlValue(c: char): (n: nat)
    requires IsUrlChar(c)
    ensures n < 64 && UrlChar(n) == c
  {
    if 'A' <= c <= 'Z' then c as int - 'A' as int
    else if 'a' <= c <= 'z' then c as int - 'a' as int + 26
    else if '0' <= c <= '9' then c as int - '0' as int + 52
    else if c == '-' then 62
    else 63
  }

  lemma UrlValueOfChar(n: nat)
    requires n < 64
    ensures UrlValue(UrlChar(n)) == n
  {
  }

  /** The four sextets of a group of three bytes. */
  function S0(a: byte): nat { a as int / 4 }
  function S1(a: byte, b: byte): nat { (a as int % 4) * 16 + b as int / 16 }
  function S2(b: byte, c: byte): nat { (b as int % 16) * 4 + c as int / 64 }
  function S3(c: byte): nat { c as int % 64 }

  lemma SextetBounds(a: byte, b: byte, c: byte)
    ensures S0(a) < 64 && S1(a, b) < 64 && S2(b, c) < 64 && S3(c) < 64
  {
  }

  /** The four standard characters of a full group of three bytes. */
  function StdGroup(a: byte, b: byte, c: byte): (r: string)
    ensures |r| == 4
  {
    SextetBounds(a, b, c);
    [StdChar(S0(a)), StdChar(S1(a, b)), StdChar(S2(b, c)), StdChar(S3(c))]
  }

  /** `toString("base64")`: four characters per group of three bytes, the
      last group padded with '='. */
  function StdEncode(b: seq<byte>): (r: string)
    ensures |r| == 4 * ((|b| + 2) / 3)
    decreases |b|
  {
    if |b| == 0 then ""
    else if |b| == 1 then
      SextetBounds(b[0], 0, 0);
      [StdChar(S0(b[0])), StdChar(S1(b[0], 0)), '=', '=']
    else if |b| == 2 then
      SextetBounds(b[0], b[1], 0);
      [StdChar(S0(b[0])), StdChar(S1(b[0], b[1])), StdChar(S2(b[1], 0)), '=']
    else
      StdGroup(b[0], b[1], b[2]) + StdEncode(b[3..])
  }

  /** `.replace(/x/g, "")` for one character. */
  function RemoveAll(s: string, x: char): (r: string)
    ensures x !in r
    ensures forall c :: c in r ==> c in s
    decreases |s|
  {
    if s == [] then "" else (if s[0] == x then "" else [s[0]]) + RemoveAll(s[1..], x)
  }

  /** `.replace(/x/g, y)` for one character. */
  function ReplaceAll(s: string, x: char, y: char): (r: string)
    ensures |r| == |s|
    ensures forall i :: 0 <= i < |s| ==> r[i] == (if s[i] == x then y else s[i])
  {
    seq(|s|, i requires 0 <= i < |s| => if s[i] == x then y else s[i])
  }

  /** The rewriting `.replace(/=/g, "").replace(/\+/g, "-").replace(/\//g, "_")`. */
  function UrlSafe(s: string): string {
    ReplaceAll(ReplaceAll(RemoveAll(s, '='), '+', '-'), '/', '_')
  }

  /** `base64Url` on bytes: standard base 64 with padding removed and the
      two special characters swapped for URL-safe ones. */
  function Base64UrlBytes(b: seq<byte>): string {
    UrlSafe(StdEncode(b))
  }

  /** The four base64url characters of a full group of three bytes. */
  function UrlGroup(a: byte, b: byte, c: byte): (r: string)
    ensures |r| == 4 && forall i :: 0 <= i < 4 ==> IsUrlChar(r[i])
  {
    SextetBounds(a, b, c);
    [UrlChar(S0(a)), UrlChar(S1(a, b)), UrlChar(S2(b, c)), UrlChar(S3(c))]
  }

  /** Section 5 of RFC 4648 without padding: the reference definition. */
  function UrlEncode(b: seq<byte>): (r: string)
    ensures forall i :: 0 <= i < |r| ==> IsUrlChar(r[i])
    ensures |r| == (4 * |b| + 2) / 3
    decreases |b|
  {
    if |b| == 0 then ""
    else if |b| == 1 then
      SextetBounds(b[0], 0, 0);
      [UrlChar(S0(b[0])), UrlChar(S1(b[0], 0))]
    else if |b| == 2 then
      SextetBounds(b[0], b[1], 0);
      [UrlChar(S0(b[0])), UrlChar(S1(b[0], b[1])), UrlChar(S2(b[1], 0))]
    else
      UrlGroup(b[0], b[1], b[2]) + UrlEncode(b[3..])
  }

  /** Rewriting a standard character gives the URL-safe character of the
      same value. */
  lemma UrlSafeChar(n: nat)
    requires n < 64
    ensures UrlSafe([StdChar(n)]) == [UrlChar(n)]
  {
    var c := StdChar(n);
    assert [c][1..] == [];
    assert RemoveAll([c], '=') == [c];
    var r1 := ReplaceAll([c], '+', '-');
    assert r1 == [if c == '+' then '-' else c];
    var r2 := ReplaceAll(r1, '/', '_');
    assert r2 == [if r1[0] == '/' then '_' else r1[0]];
  }

  lemma {:induction false} RemoveAllAppend(a: string, b: string, x: char)
    ensures RemoveAll(a + b, x) == RemoveAll(a, x) + RemoveAll(b, x)
    decreases |a|
  {
    if a == [] {
      assert a + b == b;
    } else {
      assert (a + b)[1..] == a[1..] + b;
      RemoveAllAppend(a[1..], b, x);
    }
  }

  lemma UrlSafeAppend(a: string, b: string)
    ensures UrlSafe(a + b) == UrlSafe(a) + UrlSafe(b)
  {
    RemoveAllAppend(a, b, '=');
  }

  lemma UrlSafeChars(cs: seq<nat>, s: string)
    requires forall i :: 0 <= i < |cs| ==> cs[i] < 64
    requires |s| == |cs| && forall i :: 0 <= i < |cs| ==> s[i] == StdChar(cs[i])
    ensures UrlSafe(s) == seq(|cs|, i requires 0 <= i < |cs| => UrlChar(cs[i]))
    decreases |s|
  {
    if s != [] {
      UrlSafeChars(cs[1..], s[1..]);
      UrlSafeAppend([s[0]], s[1..]);
      UrlSafeChar(cs[0]);
      assert [s[0]] + s[1..] == s;
    }
  }

  lemma UrlSafeOfPadding(s: string)
    requires forall i :: 0 <= i < |s| ==> s[i] == '='
    ensures UrlSafe(s) == ""
    decreases |s|
  {
    if s != [] {
      UrlSafeOfPadding(s[1..]);
    }
  }

  lemma UrlSafeOne(a: byte)
    ensures Base64UrlBytes([a]) == UrlEncode([a])
  {
    SextetBounds(a, 0, 0);
    var body := [StdChar(S0(a)), StdChar(S1(a, 0))];
    assert StdEncode([a]) == body + "==";
    UrlSafeAppend(body, "==");
    UrlSafeChars([S0(a), S1(a, 0)], body);
    UrlSafeOfPadding("==");
  }

  lemma UrlSafeTwo(a: byte, b: byte)
    ensures Base64UrlBytes([a, b]) == UrlEncode([a, b])
  {
    SextetBounds(a, b, 0);
    var body := [StdChar(S0(a)), StdChar(S1(a, b)), StdChar(S2(b, 0))];
    assert StdEncode([a, b]) == body + "=";
    UrlSafeAppend(body, "=");
    UrlSafeChars([S0(a), S1(a, b), S2(b, 0)], body);
    UrlSafeOfPadding("=");
  }

  lemma UrlSafeGroup(a: byte, b: byte, c: byte)
    ensures UrlSafe(StdGroup(a, b, c)) == UrlGroup(a, b, c)
  {
    SextetBounds(a, b, c);
    UrlSafeChars([S0(a), S1(a, b), S2(b, c), S3(c)],
                 [StdChar(S0(a)), StdChar(S1(a, b)), StdChar(S2(b, c)), StdChar(S3(c))]);
  }

  /** The rewriting of padded standard base 64 is exactly the unpadded
      base64url encoding. */
  lemma {:induction false} Base64UrlIsUrlEncode(b: seq<byte>)
    ensures Base64UrlBytes(b) == UrlEncode(b)
    decreases |b|
  {
    if |b| == 1 {
      assert b == [b[0]];
      UrlSafeOne(b[0]);
    } else if |b| == 2 {
      assert b == [b[0], b[1]];
      UrlSafeTwo(b[0], b[1]);
    } else if |b| > 2 {
      UrlSafeAppend(StdGroup(b[0], b[1], b[2]), StdEncode(b[3..]));
      UrlSafeGroup(b[0], b[1], b[2]);
      Base64UrlIsUrlEncode(b[3..]);
    }
  }

  /** `base64Url` output uses only A-Z, a-z, 0-9, '-' and '_': no padding
      and no '.'. */
  lemma Base64UrlAlphabet(b: seq<byte>)
    ensures forall i :: 0 <= i < |Base64UrlBytes(b)| ==> IsUrlChar(Base64UrlBytes(b)[i])
    ensures '=' !in Base64UrlBytes(b) && '.' !in Base64UrlBytes(b)
  {
    Base64UrlIsUrlEncode(b);
  }

  /** Reading back sextets into bytes. */
  function Byte0(s0: nat, s1: nat): byte
    requires s0 < 64 && s1 < 64
  {
    ((s0 * 4 + s1 / 16) % 256) as byte
  }

  function Byte1(s1: nat, s2: nat): byte
    requires s1 < 64 && s2 < 64
  {
    (((s1 % 16) * 16 + s2 / 4) % 256) as byte
  }

  function Byte2(s2: nat, s3: nat): byte
    requires s2 < 64 && s3 < 64
  {
    (((s2 % 4) * 64 + s3) % 256) as byte
  }

  /** Decoding of unpadded base64url; characters outside the alphabet end
      the decoding. */
  function UrlDecode(s: string): (r: seq<byte>)
    decreases |s|
  {
    if |s| < 2 || !IsUrlChar(s[0]) || !IsUrlChar(s[1]) then []
    else if |s| == 2 then [Byte0(UrlValue(s[0]), UrlValue(s[1]))]
    else if !IsUrlChar(s[2]) then []
    else if |s| == 3 then
      [Byte0(UrlValue(s[0]), UrlValue(s[1])), Byte1(UrlValue(s[1]), UrlValue(s[2]))]
    else if !IsUrlChar(s[3]) then []
    else
      [Byte0(UrlValue(s[0]), UrlValue(s[1])), Byte1(UrlValue(s[1]), UrlValue(s[2])),
       Byte2(UrlValue(s[2]), UrlValue(s[3]))] + UrlDecode(s[4..])
  }

  lemma SextetsInvert(a: byte, b: byte, c: byte)
    ensures Byte0(S0(a), S1(a, b)) == a
    ensures Byte1(S1(a, b), S2(b, c)) == b
    ensures Byte2(S2(b, c), S3(c)) == c
  {
    SextetBounds(a, b, c);
    var x, y, z := a as int, b as int, c as int;
    assert S1(a, b) / 16 == x % 4;
    assert S1(a, b) % 16 == y / 16;
    assert S2(b, c) / 4 == y % 16;
    assert S2(b, c) % 4 == z / 64;
  }

  lemma UrlDecodeGroup(a: byte, b: byte, c: byte, rest: string)
    ensures UrlDecode(UrlGroup(a, b, c) + rest) == [a, b, c] + UrlDecode(rest)
  {
    SextetsInvert(a, b, c);
    UrlValueOfChar(S0(a));
    UrlValueOfChar(S1(a, b));
    UrlValueOfChar(S2(b, c));
    UrlValueOfChar(S3(c));
    var s := UrlGroup(a, b, c) + rest;
    assert s[4..] == rest;
  }

  lemma UrlDecodePair(c0: char, c1: char)
    requires IsUrlChar(c0) && IsUrlChar(c1)
    ensures UrlDecode([c0, c1]) == [Byte0(UrlValue(c0), UrlValue(c1))]
  {
  }

  lemma LoneByteInverts(a: byte)
    ensures S1(a, 0) < 64 && Byte0(S0(a), S1(a, 0)) == a
  {
    SextetsInvert(a, 0, 0);
  }

  lemma UrlDecodeOne(a: byte)
    ensures UrlDecode(UrlEncode([a])) == [a]
  {
    LoneByteInverts(a);
    var s0, s1 := S0(a), S1(a, 0);
    var e := UrlEncode([a]);
    assert e == [UrlChar(s0), UrlChar(s1)];
    UrlValueOfChar(s0);
    UrlValueOfChar(s1);
    UrlDecodePair(UrlChar(s0), UrlChar(s1));
  }

  lemma UrlDecodeTwo(a: byte, b: byte)
    ensures UrlDecode(UrlEncode([a, b])) == [a, b]
  {
    SextetsInvert(a, b, 0);
    UrlValueOfChar(S0(a));
    UrlValueOfChar(S1(a, b));
    UrlValueOfChar(S2(b, 0));
    var e := UrlEncode([a, b]);
    assert e == [UrlChar(S0(a)), UrlChar(S1(a, b)), UrlChar(S2(b, 0))];
  }

  /** Decoding inverts the encoding. */
  lemma {:induction false} UrlDecodeEncode(b: seq<byte>)
    ensures UrlDecode(UrlEncode(b)) == b
    decreases |b|
  {
    if |b| == 1 {
      assert b == [b[0]];
      UrlDecodeOne(b[0]);
    } else if |b| == 2 {
      assert b == [b[0], b[1]];
      UrlDecodeTwo(b[0], b[1]);
    } else if |b| > 2 {
      assert UrlDecode(UrlEncode(b)) == [b[0], b[1], b[2]] + UrlDecode(UrlEncode(b[3..])) by {
        UrlEncodeGroups(b);
        UrlDecodeGroup(b[0], b[1], b[2], UrlEncode(b[3..]));
      }
      UrlDecodeEncode(b[3..]);
      assert b == [b[0], b[1], b[2]] + b[3..];
    }
  }

  lemma UrlEncodeGroups(b: seq<byte>)
    requires |b| > 2
    ensures UrlEncode(b) == UrlGroup(b[0], b[1], b[2]) + UrlEncode(b[3..])
  {
  }

  /** Any text of two or more bytes starting with `{"` encodes to text
      starting with "ey". */
  lemma UrlEncodeStartsWithEy(b: seq<byte>)
    requires |b| >= 2 && b[0] == 0x7B && b[1] == 0x22
    ensures |UrlEncode(b)| >= 2 && UrlEncode(b)[0] == 'e' && UrlEncode(b)[1] == 'y'
  {
    assert S0(b[0]) == 30;
    assert S1(b[0], b[1]) == 50;
    if |b| > 2 {
      assert UrlEncode(b)[..4] == UrlGroup(b[0], b[1], b[2]);
    }
  }
}
