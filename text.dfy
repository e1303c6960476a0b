/** String operations of the JavaScript runtime that the core relies on:
    `trim`, `toLowerCase` (ASCII letters only), `startsWith`, `includes`,
    `split` on one character, `join`, and the decimal rendering of integers.
    Strings are sequences of Unicode scalar values. */
module Text {

  /** The characters matched by `\s` in a JavaScript regular expression and
      removed by `String.prototype.trim` (tab, line feed, vertical tab, form feed
      and carriage return are the contiguous range U+0009..U+000D). */
  predicate IsWhitespace(c: char) {
    c == ' ' || ('\t' <= c <= '\r')
    || ('\U{00A0}' <= c &&
        (c == '\U{00A0}' || c == '\U{1680}' || ('\U{2000}' <= c <= '\U{200A}')
         || c == '\U{2028}' || c == '\U{2029}' || c == '\U{202F}' || c == '\U{205F}'
         || c == '\U{3000}' || c == '\U{FEFF}'))
  }

  /** `\d` */
  predicate IsDigit(c: char) {
    '0' <= c <= '9'
  }

  /** `\w`, the characters on the word side of `\b` */
  predicate IsWordChar(c: char) {
    ('a' <= c <= 'z') || ('A' <= c <= 'Z') || ('0' <= c <= '9') || c == '_'
  }

  predicate AllDigits(s: string) {
    forall i :: 0 <= i < |s| ==> IsDigit(s[i])
  }

  function LowerChar(c: char): (r: char)
    ensures !('A' <= r <= 'Z')
    ensures 'A' <= c <= 'Z' ==> r as int == c as int + 32
    ensures !('A' <= c <= 'Z') ==> r == c
  {
    if 'A' <= c <= 'Z' then (c as int + 32) as char else c
  }

  function UpperChar(c: char): (r: char)
    ensures !('a' <= r <= 'z')
  {
    if 'a' <= c <= 'z' then (c as int - 32) as char else c
  }

  /** `toLowerCase`, restricted to the ASCII letters */
  function Lower(s: string): (r: string)
    ensures |r| == |s|
    ensures forall i :: 0 <= i < |s| ==> r[i] == LowerChar(s[i])
  {
    seq(|s|, i requires 0 <= i < |s| => LowerChar(s[i]))
  }

  function Upper(s: string): (r: string)
    ensures |r| == |s|
    ensures forall i :: 0 <= i < |s| ==> r[i] == UpperChar(s[i])
  {
    seq(|s|, i requires 0 <= i < |s| => UpperChar(s[i]))
  }

  /** Lowercasing forgets which ASCII case a letter was written in. */
  lemma LowerOfUpper(s: string)
    ensures Lower(Upper(s)) == Lower(s)
  {
    forall i | 0 <= i < |s| ensures Lower(Upper(s))[i] == Lower(s)[i] {
      var c := s[i];
      if 'a' <= c <= 'z' {
        assert UpperChar(c) as int == c as int - 32;
      }
    }
  }

  lemma LowerIdempotent(s: string)
    ensures Lower(Lower(s)) == Lower(s)
  {
  }

  predicate StartsWith(s: string, prefix: string) {
    |prefix| <= |s| && s[..|prefix|] == prefix
  }

  /** `s.includes(t)` */
  predicate Contains(s: string, t: string)
    decreases |s|
  {
    StartsWith(s, t) || (|s| > 0 && Contains(s[1..], t))
  }

  /** An occurrence of `t` at a position of `s` makes `s` contain `t`. */
  lemma ContainsAt(s: string, t: string, i: nat)
    requires i + |t| <= |s| && s[i..i + |t|] == t
    ensures Contains(s, t)
    decreases i
  {
    if i > 0 {
      assert s[1..][i - 1..i - 1 + |t|] == s[i..i + |t|];
      ContainsAt(s[1..], t, i - 1);
    }
  }

  lemma ContainsPrefix(t: string, rest: string)
    ensures Contains(t + rest, t)
  {
    assert (t + rest)[..|t|] == t;
  }

  lemma ContainsInLeft(a: string, b: string, t: string)
    requires Contains(a, t)
    ensures Contains(a + b, t)
    decreases |a|
  {
    if StartsWith(a, t) {
      assert (a + b)[..|t|] == a[..|t|];
    } else {
      assert (a + b)[1..] == a[1..] + b;
      ContainsInLeft(a[1..], b, t);
    }
  }

  lemma ContainsInRight(a: string, b: string, t: string)
    requires Contains(b, t)
    ensures Contains(a + b, t)
    decreases |a|
  {
    if |a| > 0 {
      assert (a + b)[1..] == a[1..] + b;
      ContainsInRight(a[1..], b, t);
    } else {
      assert a + b == b;
    }
  }

  /** A string in which the first character of `t` never occurs does not
      contain `t`. */
  lemma NotContainsWithoutFirstChar(s: string, t: string)
    requires |t| > 0 && t[0] !in s
    ensures !Contains(s, t)
    decreases |s|
  {
    if |s| > 0 {
      assert s[0] in s;
      assert forall c :: c in s[1..] ==> c in s;
      NotContainsWithoutFirstChar(s[1..], t);
    }
  }

  /** A string that does not start with `t`, and in which the first character
      of `t` occurs at no later position, does not contain `t`. */
  lemma NotContainsOnlyHead(s: string, t: string)
    requires |t| > 0 && !StartsWith(s, t)
    requires |s| > 0 ==> t[0] !in s[1..]
    ensures !Contains(s, t)
  {
    if |s| > 0 {
      NotContainsWithoutFirstChar(s[1..], t);
    }
  }

  function TrimStart(s: string): (r: string)
    ensures |r| <= |s| && r == s[|s| - |r|..]
    ensures forall i :: 0 <= i < |s| - |r| ==> IsWhitespace(s[i])
    ensures r == [] || !IsWhitespace(r[0])
    decreases |s|
  {
    if |s| > 0 && IsWhitespace(s[0]) then TrimStart(s[1..]) else s
  }

  function TrimEnd(s: string): (r: string)
    ensures |r| <= |s| && r == s[..|r|]
    ensures forall i :: |r| <= i < |s| ==> IsWhitespace(s[i])
    ensures r == [] || !IsWhitespace(r[|r| - 1])
    decreases |s|
  {
    if |s| > 0 && IsWhitespace(s[|s| - 1]) then TrimEnd(s[..|s| - 1]) else s
  }

  predicate AllWhitespace(w: string) {
    forall i :: 0 <= i < |w| ==> IsWhitespace(w[i])
  }

  /** `String.prototype.trim`: the longest infix with no whitespace at
      either end, obtained by removing only whitespace (`TrimInfix`). */
  function Trim(s: string): (r: string)
    ensures r == [] || (!IsWhitespace(r[0]) && !IsWhitespace(r[|r| - 1]))
    ensures (s == [] || (!IsWhitespace(s[0]) && !IsWhitespace(s[|s| - 1]))) ==> r == s
  {
    TrimEnds(s);
    TrimUnpadded(s);
    TrimEnd(TrimStart(s))
  }

  /** What `Trim` removes is whitespace only, at either end: the result is
      the infix of `s` after its leading whitespace. */
  lemma TrimInfix(s: string)
    ensures WhitespaceEdged(s, |s| - |TrimStart(s)|, Trim(s))
  {
    InfixOf(s, TrimStart(s), TrimEnd(TrimStart(s)));
  }

  /** `r` is the infix of `s` at position `i`, with only whitespace before
      and after it. */
  predicate WhitespaceEdged(s: string, i: int, r: string) {
    0 <= i && i + |r| <= |s| && r == s[i..i + |r|] && AllWhitespace(s[..i]) && AllWhitespace(s[i + |r|..])
  }

  /** A prefix `r` of the suffix `t` of `s`, with only whitespace before `t`
      in `s` and after `r` in `t`, is an infix edged by whitespace. */
  lemma InfixOf(s: string, t: string, r: string)
    requires |t| <= |s| && t == s[|s| - |t|..] && forall k :: 0 <= k < |s| - |t| ==> IsWhitespace(s[k])
    requires |r| <= |t| && r == t[..|r|] && forall k :: |r| <= k < |t| ==> IsWhitespace(t[k])
    ensures WhitespaceEdged(s, |s| - |t|, r)
  {
    var i := |s| - |t|;
    assert s[i..i + |r|] == r;
    assert AllWhitespace(s[..i]) by {
      forall k | 0 <= k < i
        ensures IsWhitespace(s[..i][k])
      {
        assert s[..i][k] == s[k];
      }
    }
    assert AllWhitespace(s[i + |r|..]) by {
      forall k | i + |r| <= k < |s|
        ensures IsWhitespace(s[k])
      {
        assert s[k] == t[k - i];
      }
    }
  }

  lemma TrimEnds(s: string)
    ensures var r := TrimEnd(TrimStart(s)); r == [] || (!IsWhitespace(r[0]) && !IsWhitespace(r[|r| - 1]))
  {
    TrimEndKeepsFirst(TrimStart(s));
  }

  lemma TrimEndKeepsFirst(t: string)
    requires t == [] || !IsWhitespace(t[0])
    ensures TrimEnd(t) == [] || !IsWhitespace(TrimEnd(t)[0])
  {
    var r := TrimEnd(t);
    if r != [] {
      assert r[0] == t[0];
    }
  }

  lemma TrimUnpadded(s: string)
    ensures (s == [] || (!IsWhitespace(s[0]) && !IsWhitespace(s[|s| - 1]))) ==> TrimStart(s) == s && TrimEnd(s) == s
  {
  }

  /** Trimming adds no character. */
  lemma TrimChars(s: string)
    ensures forall c :: c in Trim(s) ==> c in s
  {
    var t := TrimStart(s);
    var r := TrimEnd(t);
    assert forall c :: c in r ==> c in t;
    assert forall c :: c in t ==> c in s;
  }

  /** Trimming removes only whitespace: every other character stays. */
  lemma TrimKeeps(s: string, i: nat)
    requires i < |s| && !IsWhitespace(s[i])
    ensures s[i] in Trim(s)
  {
    var t := TrimStart(s);
    var r := TrimEnd(t);
    var j := i - (|s| - |t|);
    assert 0 <= j < |t| && t[j] == s[i];
    assert j < |r| && r[j] == t[j];
  }

  /** Trimming removes exactly a leading run of whitespace from a text
      that starts and ends with something else. */
  lemma TrimPadded(pad: string, y: string)
    requires forall i :: 0 <= i < |pad| ==> IsWhitespace(pad[i])
    requires y != [] && !IsWhitespace(y[0]) && !IsWhitespace(y[|y| - 1])
    ensures Trim(pad + y) == y
  {
    var s := pad + y;
    var t := TrimStart(s);
    assert s[|pad|..] == y;
    var m := |s| - |t|;
    assert m <= |pad|;
    assert t[0] == s[m];
    assert t == y;
  }

  /** `parts.join(sep)` */
  function Join(parts: seq<string>, sep: string): string
    decreases |parts|
  {
    if |parts| == 0 then ""
    else if |parts| == 1 then parts[0]
    else parts[0] + sep + Join(parts[1..], sep)
  }

  /** `s.split(sep)` for a one-character separator: the pieces between the
      separators, always at least one. */
  function Split(s: string, sep: char): (parts: seq<string>)
    ensures |parts| >= 1
    decreases |s|
  {
    if |s| == 0 then [""]
    else if s[0] == sep then [""] + Split(s[1..], sep)
    else
      var rest := Split(s[1..], sep);
      [[s[0]] + rest[0]] + rest[1..]
  }

  lemma {:induction false} SplitPiecesHaveNoSeparator(s: string, sep: char)
    ensures forall k :: 0 <= k < |Split(s, sep)| ==> sep !in Split(s, sep)[k]
    decreases |s|
  {
    if |s| > 0 {
      SplitPiecesHaveNoSeparator(s[1..], sep);
    }
  }

  /** Joining the pieces with the separator gives back the string. */
  lemma {:induction false} JoinSplit(s: string, sep: char)
    ensures Join(Split(s, sep), [sep]) == s
    decreases |s|
  {
    if |s| > 0 {
      JoinSplit(s[1..], sep);
      var rest := Split(s[1..], sep);
      if s[0] == sep {
        assert s == [sep] + s[1..];
      } else {
        if |rest| == 1 {
        } else {
          assert Join(rest, [sep]) == rest[0] + [sep] + Join(rest[1..], [sep]);
          assert Join([[s[0]] + rest[0]] + rest[1..], [sep])
              == ([s[0]] + rest[0]) + [sep] + Join(rest[1..], [sep]);
        }
        assert s == [s[0]] + s[1..];
      }
    }
  }

  lemma SplitNoSeparator(s: string, sep: char)
    requires sep !in s
    ensures Split(s, sep) == [s]
    decreases |s|
  {
    if |s| > 0 {
      assert forall c :: c in s[1..] ==> c in s;
      SplitNoSeparator(s[1..], sep);
      assert [s[0]] + s[1..] == s;
    }
  }

  lemma {:induction false} SplitConcat(a: string, sep: char, b: string)
    requires sep !in a
    ensures Split(a + [sep] + b, sep) == [a] + Split(b, sep)
    decreases |a|
  {
    if |a| == 0 {
      assert a + [sep] + b == [sep] + b;
      assert ([sep] + b)[1..] == b;
    } else {
      assert (a + [sep] + b)[1..] == a[1..] + [sep] + b;
      assert a[0] in a;
      assert forall c :: c in a[1..] ==> c in a;
      SplitConcat(a[1..], sep, b);
      assert [a[0]] + a[1..] == a;
    }
  }

  /** Splitting a join gives back the parts when no part holds the separator. */
  lemma {:induction false} SplitJoin(parts: seq<string>, sep: char)
    requires |parts| >= 1
    requires forall k :: 0 <= k < |parts| ==> sep !in parts[k]
    ensures Split(Join(parts, [sep]), sep) == parts
    decreases |parts|
  {
    if |parts| == 1 {
      SplitNoSeparator(parts[0], sep);
    } else {
      SplitJoin(parts[1..], sep);
      SplitConcat(parts[0], sep, Join(parts[1..], [sep]));
      assert [parts[0]] + parts[1..] == parts;
    }
  }

  /** Text before the first separator determines the split: equal
      strings with separator-free heads have equal heads and equal tails. */
  lemma SeparatedHeads(a: string, x: string, b: string, y: string, sep: char)
    requires sep !in a && sep !in b
    requires a + [sep] + x == b + [sep] + y
    ensures a == b && x == y
  {
    SplitConcat(a, sep, x);
    SplitConcat(b, sep, y);
    assert ([a] + Split(x, sep))[0] == a;
    assert ([b] + Split(y, sep))[0] == b;
    assert (a + [sep] + x)[|a| + 1..] == x;
    assert (b + [sep] + y)[|b| + 1..] == y;
  }

  /** Joining a concatenation puts one separator between the two joins. */
  lemma {:induction false} JoinAppend(a: seq<string>, b: seq<string>, sep: string)
    requires |a| >= 1 && |b| >= 1
    ensures Join(a + b, sep) == Join(a, sep) + sep + Join(b, sep)
    decreases |a|
  {
    assert (a + b)[0] == a[0];
    if |a| == 1 {
      assert (a + b)[1..] == b;
    } else {
      assert (a + b)[1..] == a[1..] + b;
      JoinAppend(a[1..], b, sep);
    }
  }

  /** Joining a joined run in place of the run itself gives the same text. */
  lemma JoinFlatten(a: seq<string>, mid: seq<string>, b: seq<string>, sep: string)
    requires |a| >= 1 && |mid| >= 1 && |b| >= 1
    ensures Join(a + [Join(mid, sep)] + b, sep) == Join(a + mid + b, sep)
  {
    var one: seq<string> := [Join(mid, sep)];
    calc {
      Join(a + one + b, sep);
      { assert a + one + b == a + (one + b); }
      Join(a + (one + b), sep);
      { JoinAppend(a, one + b, sep); }
      Join(a, sep) + sep + Join(one + b, sep);
      { JoinAppend(one, b, sep); }
      Join(a, sep) + sep + (Join(mid, sep) + sep + Join(b, sep));
      { JoinAppend(mid, b, sep); }
      Join(a, sep) + sep + Join(mid + b, sep);
      { JoinAppend(a, mid + b, sep); }
      Join(a + (mid + b), sep);
      { assert a + mid + b == a + (mid + b); }
      Join(a + mid + b, sep);
    }
  }

  /** A join ends with its last part. */
  lemma {:induction false} JoinEndsWithLast(parts: seq<string>, sep: string)
    requires |parts| >= 1
    ensures var j, last := Join(parts, sep), parts[|parts| - 1];
            |last| <= |j| && j[|j| - |last|..] == last
    decreases |parts|
  {
    if |parts| > 1 {
      JoinEndsWithLast(parts[1..], sep);
    }
  }

  /** Every character of every part is in the joined text. */
  lemma {:induction false} JoinKeeps(parts: seq<string>, sep: string, k: nat, c: char)
    requires k < |parts| && c in parts[k]
    ensures c in Join(parts, sep)
    decreases |parts|
  {
    if |parts| > 1 && k > 0 {
      JoinKeeps(parts[1..], sep, k - 1, c);
    }
  }

  lemma JoinCharsFrom(parts: seq<string>, sep: string, c: char)
    requires c in Join(parts, sep)
    ensures c in sep || exists k :: 0 <= k < |parts| && c in parts[k]
    decreases |parts|
  {
    if |parts| > 1 {
      var rest := Join(parts[1..], sep);
      if c in parts[0] {
      } else if c in sep {
      } else {
        assert c in rest;
        JoinCharsFrom(parts[1..], sep, c);
        var k :| 0 <= k < |parts[1..]| && c in parts[1..][k];
        assert c in parts[k + 1];
      }
    }
  }

  function DigitChar(d: nat): (c: char)
    requires d < 10
    ensures IsDigit(c)
  {
    ('0' as int + d) as char
  }

  /** Decimal rendering of a non-negative integer, without leading zeros. */
  function NatToString(n: nat): (r: string)
    ensures |r| >= 1 && AllDigits(r)
    ensures |r| > 1 ==> r[0] != '0'
    decreases n
  {
    if n < 10 then [DigitChar(n)] else NatToString(n / 10) + [DigitChar(n % 10)]
  }

  /** Reads a string of digits as a decimal number. */
  function ParseDigits(s: string): nat
    requires AllDigits(s)
    decreases |s|
  {
    if |s| == 0 then 0
    else ParseDigits(s[..|s| - 1]) * 10 + (s[|s| - 1] as int - '0' as int)
  }

  lemma {:induction false} ParseNatToString(n: nat)
    ensures ParseDigits(NatToString(n)) == n
    decreases n
  {
    if n >= 10 {
      ParseNatToString(n / 10);
      var s := NatToString(n);
      assert s[..|s| - 1] == NatToString(n / 10);
    }
  }

  /** The decimal rendering of a number, as `String(n)` / a template literal
      writes an integral JavaScript number. */
  function IntToString(n: int): (r: string)
    ensures |r| >= 1
    ensures forall i :: 0 <= i < |r| ==> IsDigit(r[i]) || (i == 0 && r[i] == '-')
    ensures (r[0] == '-') <==> n < 0
  {
    if n < 0 then "-" + NatToString(-n) else NatToString(n)
  }

  /** Distinct numbers have distinct renderings. */
  lemma IntToStringInjective(m: int, n: int)
    requires IntToString(m) == IntToString(n)
    ensures m == n
  {
    if m < 0 {
      assert IntToString(m)[1..] == NatToString(-m);
      assert IntToString(n)[1..] == NatToString(-n);
      ParseNatToString(-m);
      ParseNatToString(-n);
    } else {
      ParseNatToString(m);
      ParseNatToString(n);
    }
  }

  /** A number's rendering holds only digits and a minus sign. */
  lemma IntToStringChars(n: int, c: char)
    requires c in IntToString(n)
    ensures IsDigit(c) || c == '-'
  {
  }

  /** `c` occurs nowhere in `s`, checked one character at a time. */
  predicate Lacks(s: string, c: char)
    decreases |s|
  {
    s == [] || (s[0] != c && Lacks(s[1..], c))
  }

  lemma {:induction false} LacksNotIn(s: string, c: char)
    requires Lacks(s, c)
    ensures c !in s
    decreases |s|
  {
    if s != [] {
      LacksNotIn(s[1..], c);
      assert s == [s[0]] + s[1..];
    }
  }
}
