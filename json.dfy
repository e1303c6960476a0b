/** The string literals `JSON.stringify` writes (section 7 of RFC 8259):
    the quotation mark, the reverse solidus and the control characters are
    escaped, everything else is written as it is. */
module Json {
  import opened Wrappers
  import opened Hex

  const Backspace: char := '\U{0008}'
  const FormFeed: char := '\U{000C}'

  /** The escape of one character. */
  function EscapeChar(c: char): (r: string)
    ensures |r| >= 1
    ensures c as int >= 0x20 && c != '"' && c != '\\' ==> r == [c]
  {
    if c == '"' then "\\\""
    else if c == '\\' then "\\\\"
    else if c == Backspace then "\\b"
    else if c == FormFeed then "\\f"
    else if c == '\n' then "\\n"
    else if c == '\r' then "\\r"
    else if c == '\t' then "\\t"
    else if c as int < 0x20 then "\\u00" + [HexDigit(c as int / 16), HexDigit(c as int % 16)]
    else [c]
  }

  /** The escaped contents of a literal; no shorter than the text, and
      unescaping gives the text back. */
  function Escape(s: string): (r: string)
    ensures |r| >= |s|
    ensures Unescape(r) == s
    decreases |s|
  {
    if s == [] then ""
    else
      var rest := Escape(s[1..]);
      UnescapeChar(s[0], rest);
      assert s == [s[0]] + s[1..];
      EscapeChar(s[0]) + rest
  }

  /** `JSON.stringify` of a string. */
  function Quote(s: string): (r: string)
    ensures |r| >= 2 && r[0] == '"' && r[|r| - 1] == '"'
  {
    "\"" + Escape(s) + "\""
  }

  /** The character a one-letter escape stands for. */
  function ShortEscape(c: char): Option<char> {
    if c == '"' then Some('"')
    else if c == '\\' then Some('\\')
    else if c == '/' then Some('/')
    else if c == 'b' then Some(Backspace)
    else if c == 'f' then Some(FormFeed)
    else if c == 'n' then Some('\n')
    else if c == 'r' then Some('\r')
    else if c == 't' then Some('\t')
    else None
  }

  predicate IsAsciiEscape(s: string) {
    |s| >= 6 && s[0] == '\\' && s[1] == 'u' && s[2] == '0' && s[3] == '0'
    && IsHexDigit(s[4]) && IsHexDigit(s[5])
  }

  /** Reading the escapes of a string literal's contents back; a reverse
      solidus that starts no escape stands for itself. */
  function Unescape(s: string): string
    decreases |s|
  {
    if s == [] then ""
    else if s[0] == '\\' && |s| >= 2 && ShortEscape(s[1]).Some? then
      [ShortEscape(s[1]).value] + Unescape(s[2..])
    else if IsAsciiEscape(s) then
      [(HexValue(s[4]) * 16 + HexValue(s[5])) as char] + Unescape(s[6..])
    else [s[0]] + Unescape(s[1..])
  }

  lemma UnescapeChar(c: char, rest: string)
    ensures Unescape(EscapeChar(c) + rest) == [c] + Unescape(rest)
  {
    var e := EscapeChar(c) + rest;
    assert e[|EscapeChar(c)|..] == rest;
    if c as int < 0x20 && c != Backspace && c != FormFeed && c != '\n' && c != '\r' && c != '\t' {
      assert e[1] == 'u';
      assert (c as int / 16) * 16 + c as int % 16 == c as int;
    }
  }

  /** Distinct strings are written as distinct literals. */
  lemma QuoteInjective(s: string, t: string)
    requires Quote(s) == Quote(t)
    ensures s == t
  {
    assert Escape(s) == Quote(s)[1..|Quote(s)| - 1];
    assert Escape(t) == Quote(t)[1..|Quote(t)| - 1];
  }

  predicate NeedsNoEscape(s: string) {
    forall i :: 0 <= i < |s| ==> s[i] as int >= 0x20 && s[i] != '"' && s[i] != '\\'
  }

  /** Text without quotation marks, reverse solidi or control characters
      is written as it is. */
  lemma {:induction false} EscapePlain(s: string)
    requires NeedsNoEscape(s)
    ensures Escape(s) == s
    decreases |s|
  {
    if s != [] {
      EscapePlain(s[1..]);
      assert s == [s[0]] + s[1..];
    }
  }
}
