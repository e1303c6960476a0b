/** The context builder (scripts/sentry-build-contexts.ts): for each issue
    to fix, up to a maximum, the remediation request sent to the dispatcher,
    with one finding whose file is read back from the stack trace the
    fetcher wrote. */
module SentryBuildContexts {
  import opened Wrappers
  import opened Text
  import opened Types
  import opened SentryTypes
  import opened SentryFetch

  // ---------------------------------------------------------------------
  // The two stack-frame patterns

  /** `[^():]`: a character a file name may contain. */
  predicate IsFileChar(c: char) {
    c != '(' && c != ')' && c != ':'
  }

  predicate NotWhitespace(c: char) {
    !IsWhitespace(c)
  }

  /** The end of the longest run of characters satisfying `p` from `i`. */
  function SpanEnd(s: string, i: nat, p: char -> bool): (e: nat)
    requires i <= |s|
    ensures i <= e <= |s|
    ensures forall k :: i <= k < e ==> p(s[k])
    ensures e == |s| || !p(s[e])
    decreases |s| - i
  {
    if i < |s| && p(s[i]) then SpanEnd(s, i + 1, p) else i
  }

  /** `\d+:\d+` at `i`: where it ends. */
  function LineColEnd(s: string, i: nat): (r: Option<nat>)
    requires i <= |s|
    ensures r.Some? ==> i < r.value <= |s|
  {
    var a := SpanEnd(s, i, IsDigit);
    if a == i || a == |s| || s[a] != ':' then None
    else
      var b := SpanEnd(s, a + 1, IsDigit);
      if b == a + 1 then None else Some(b)
  }

  /** `\(([^():]+(?:\.[a-zA-Z0-9]+)?):\d+:\d+\)` matched at `p`, and its
      capture. The optional extension group adds nothing: its characters are
      file characters already, so the capture always runs from after the
      parenthesis to the first colon. */
  function ParenFileAt(s: string, p: nat): (r: Option<string>)
    requires p <= |s|
    ensures r.Some? ==> r.value != [] && forall c :: c in r.value ==> IsFileChar(c)
  {
    if p == |s| || s[p] != '(' then None
    else
      var q := SpanEnd(s, p + 1, IsFileChar);
      if q == p + 1 || q == |s| || s[q] != ':' then None
      else match LineColEnd(s, q + 1)
        case None => None
        case Some(e) => if e < |s| && s[e] == ')' then Some(s[p + 1..q]) else None
  }

  /** The leftmost match of the parenthesised pattern from `p` on. */
  function ParenFile(s: string, p: nat): (r: Option<string>)
    requires p <= |s|
    ensures r.Some? ==> r.value != [] && forall c :: c in r.value ==> IsFileChar(c)
    decreases |s| - p
  {
    if p == |s| then None
    else match ParenFileAt(s, p)
      case Some(f) => Some(f)
      case None => ParenFile(s, p + 1)
  }

  /** `at\s+[^\s]+\s+([^():]+(?:\.[a-zA-Z0-9]+)?):\d+:\d+` matched at `p`,
      and its capture. The first two runs can only be matched whole. The
      capture starts after the second run of whitespace; when that fails
      because a colon follows at once, the engine gives the last whitespace
      character of the run to the capture instead, if the run has more than
      one. */
  function FallbackFileAt(s: string, p: nat): (r: Option<string>)
    requires p <= |s|
    ensures r.Some? ==> r.value != [] && forall c :: c in r.value ==> IsFileChar(c)
  {
    if p + 2 > |s| || s[p] != 'a' || s[p + 1] != 't' then None
    else
      var w1 := SpanEnd(s, p + 2, IsWhitespace);
      var n := SpanEnd(s, w1, NotWhitespace);
      var w2 := SpanEnd(s, n, IsWhitespace);
      if w1 == p + 2 || n == w1 || w2 == n then None
      else if w2 < |s| && IsFileChar(s[w2]) then
        var q := SpanEnd(s, w2, IsFileChar);
        if q < |s| && s[q] == ':' && LineColEnd(s, q + 1).Some? then Some(s[w2..q]) else None
      else if w2 - n >= 2 && w2 < |s| && s[w2] == ':' && LineColEnd(s, w2 + 1).Some? then
        assert IsWhitespace(s[w2 - 1]);
        Some([s[w2 - 1]])
      else None
  }

  /** The leftmost match of the fallback pattern from `p` on. */
  function FallbackFile(s: string, p: nat): (r: Option<string>)
    requires p <= |s|
    ensures r.Some? ==> r.value != [] && forall c :: c in r.value ==> IsFileChar(c)
    decreases |s| - p
  {
    if p == |s| then None
    else match FallbackFileAt(s, p)
      case Some(f) => Some(f)
      case None => FallbackFile(s, p + 1)
  }

  /** The file of the first line, trimmed, that either pattern matches,
      the parenthesised one first; "unknown" when none does. A file name
      read from a trace is therefore "unknown" or a non-empty name free of
      parentheses and colons. */
  function InferredFile(lines: seq<string>): (r: string)
    ensures r == "unknown" || (r != "" && forall c :: c in r ==> IsFileChar(c))
    decreases |lines|
  {
    if lines == [] then "unknown"
    else
      var line := Trim(lines[0]);
      match ParenFile(line, 0)
      case Some(f) => f
      case None =>
        match FallbackFile(line, 0)
        case Some(f) => f
        case None => InferredFile(lines[1..])
  }

  /** `inferFileFromStackTrace`: the lines are tried in order and the loop
      returns at the first match. */
  method InferFileFromStackTrace(stackTrace: string) returns (file: string)
    ensures file == InferredFile(Split(stackTrace, '\n'))
  {
    var lines := Split(stackTrace, '\n');
    for i := 0 to |lines|
      invariant InferredFile(lines[i..]) == InferredFile(lines)
    {
      assert lines[i..][1..] == lines[i + 1..];
      var line := Trim(lines[i]);
      var m := ParenFile(line, 0);
      if m.Some? {
        return m.value;
      }
      var f := FallbackFile(line, 0);
      if f.Some? {
        return f.value;
      }
    }
    assert lines[|lines|..] == [];
    return "unknown";
  }

  // ---------------------------------------------------------------------
  // Reading a frame line back

  lemma {:induction false} SpanEndAt(s: string, i: nat, w: string, p: char -> bool)
    requires i + |w| <= |s| && s[i..i + |w|] == w
    requires forall k :: 0 <= k < |w| ==> p(w[k])
    requires i + |w| == |s| || !p(s[i + |w|])
    ensures SpanEnd(s, i, p) == i + |w|
    decreases |w|
  {
    if |w| > 0 {
      assert s[i] == w[0];
      assert s[i + 1..i + 1 + |w[1..]|] == w[1..];
      SpanEndAt(s, i + 1, w[1..], p);
    }
  }

  lemma {:induction false} ParenFileSkip(s: string, p: nat, i: nat)
    requires p <= i <= |s|
    requires forall k :: p <= k < i ==> s[k] != '('
    ensures ParenFile(s, p) == ParenFile(s, i)
    decreases i - p
  {
    if p < i {
      ParenFileSkip(s, p + 1, i);
    }
  }

  /** `\d+:\d+` read over two numbers. */
  lemma LineColOver(s: string, i: nat, l: string, c: string)
    requires i + |l| + 1 + |c| <= |s|
    requires s[i..i + |l| + 1 + |c|] == l + ":" + c
    requires l != [] && c != [] && AllDigits(l) && AllDigits(c)
    requires i + |l| + 1 + |c| == |s| || !IsDigit(s[i + |l| + 1 + |c|])
    ensures LineColEnd(s, i) == Some(i + |l| + 1 + |c|)
  {
    var j := i + |l|;
    var e := j + 1 + |c|;
    assert s[i..j] == s[i..e][..|l|];
    assert s[j] == s[i..e][|l|];
    assert s[j + 1..e] == s[i..e][|l| + 1..];
    SpanEndAt(s, i, l, IsDigit);
    SpanEndAt(s, j + 1, c, IsDigit);
  }

  /** The parenthesised pattern at `p` over `(<file>:<line>:<column>)`. */
  lemma ParenFileAtOver(s: string, p: nat, file: string, l: string, c: string)
    requires p + 1 + |file| + 1 + |l| + 1 + |c| + 1 <= |s|
    requires s[p] == '(' && s[p + 1..p + 1 + |file|] == file
    requires s[p + 1 + |file|..p + 1 + |file| + 1 + |l| + 1 + |c| + 1] == ":" + l + ":" + c + ")"
    requires file != [] && forall k :: 0 <= k < |file| ==> IsFileChar(file[k])
    requires l != [] && c != [] && AllDigits(l) && AllDigits(c)
    ensures ParenFileAt(s, p) == Some(file)
  {
    var q := p + 1 + |file|;
    var e := q + 1 + |l| + 1 + |c|;
    ParenTail(s, q, l, c);
    assert SpanEnd(s, p + 1, IsFileChar) == q by {
      SpanEndAt(s, p + 1, file, IsFileChar);
    }
    assert LineColEnd(s, q + 1) == Some(e) by {
      LineColOver(s, q + 1, l, c);
    }
  }

  /** The pieces of `:<line>:<column>)` at `q`. */
  lemma ParenTail(s: string, q: nat, l: string, c: string)
    requires q + |l| + |c| + 3 <= |s| && s[q..q + |l| + |c| + 3] == ":" + l + ":" + c + ")"
    ensures s[q] == ':' && s[q + 1..q + |l| + |c| + 2] == l + ":" + c && s[q + |l| + |c| + 2] == ')'
  {
    var t := ":" + l + ":" + c + ")";
    var e := q + |l| + |c| + 2;
    assert t[0] == ':' && t[|t| - 1] == ')';
    assert t[1..|t| - 1] == l + ":" + c;
    assert s[q] == s[q..e + 1][0];
    assert s[e] == s[q..e + 1][|t| - 1];
    assert |t| == e + 1 - q;
    var w := s[q..e + 1];
    var mid, inner := s[q + 1..e], w[1..|t| - 1];
    assert |mid| == |inner|;
    forall k | 0 <= k < |mid|
      ensures mid[k] == inner[k]
    {
      assert inner[k] == w[1 + k] == s[q + 1 + k];
    }
    assert mid == inner;
  }

  /** The parenthesised pattern reads the file back from
      `<prefix>(<file>:<line>:<column>)` when the prefix holds no other
      parenthesis. */
  lemma ParenFileOver(s: string, pre: string, file: string, l: string, c: string)
    requires forall k :: 0 <= k < |pre| ==> pre[k] != '('
    requires file != [] && forall k :: 0 <= k < |file| ==> IsFileChar(file[k])
    requires l != [] && c != [] && AllDigits(l) && AllDigits(c)
    requires s == pre + "(" + file + ":" + l + ":" + c + ")"
    ensures ParenFile(s, 0) == Some(file)
  {
    var tail := ":" + l + ":" + c + ")";
    var p := |pre|;
    assert s[p] == '(' && (forall k :: 0 <= k < p ==> s[k] == pre[k])
           && s[p + 1..p + 1 + |file|] == file && s[p + 1 + |file|..] == tail by {
      assert s == pre + "(" + file + tail;
    }
    ParenFileSkip(s, 0, p);
    ParenFileAtOver(s, p, file, l, c);
  }

  lemma NatStringFacts(n: int)
    requires n >= 0
    ensures IntToString(n) != [] && AllDigits(IntToString(n))
  {
  }

  /** The inverse of the fetcher's frame format: the line written for a
      frame gives back the frame's file, when the file name is free of
      parentheses and colons, the function name holds no '(' and the line
      and column are not negative. */
  lemma FrameLineGivesFile(f: Frame, lines: seq<string>)
    requires f.filename != [] && forall k :: 0 <= k < |f.filename| ==> IsFileChar(f.filename[k])
    requires forall k :: 0 <= k < |f.functionName| ==> f.functionName[k] != '('
    requires f.lineNo >= 0 && f.colNo >= 0
    requires lines != [] && lines[0] == FrameLine(f)
    ensures InferredFile(lines) == f.filename
  {
    var name := FunctionShown(f);
    var l, c := IntToString(f.lineNo), IntToString(f.colNo);
    NatStringFacts(f.lineNo);
    NatStringFacts(f.colNo);
    var pre := "at " + name + " ";
    var y := pre + "(" + f.filename + ":" + l + ":" + c + ")";
    assert Trim(lines[0]) == y by {
      FrameLineShape(f, pre, y);
      TrimPadded("  ", y);
    }
    assert forall k :: 0 <= k < |pre| ==> pre[k] != '(' by {
      PrefixHasNoParen(name);
    }
    ParenFileOver(y, pre, f.filename, l, c);
  }

  lemma PrefixHasNoParen(name: string)
    requires forall k :: 0 <= k < |name| ==> name[k] != '('
    ensures forall k :: 0 <= k < |"at " + name + " "| ==> ("at " + name + " ")[k] != '('
  {
    var pre := "at " + name + " ";
    assert forall k :: 3 <= k < 3 + |name| ==> pre[k] == name[k - 3];
  }

  lemma FrameLineShape(f: Frame, pre: string, y: string)
    requires pre == "at " + FunctionShown(f) + " "
    requires y == pre + "(" + f.filename + ":" + IntToString(f.lineNo) + ":" + IntToString(f.colNo) + ")"
    ensures FrameLine(f) == "  " + y
  {
  }

  lemma {:induction false} NoParenNoMatch(s: string, p: nat)
    requires p <= |s| && forall k :: 0 <= k < |s| ==> s[k] != '('
    ensures ParenFile(s, p) == None
    decreases |s| - p
  {
    if p < |s| {
      NoParenNoMatch(s, p + 1);
    }
  }

  /** A line without parentheses, `at <function> <file>:<line>:<column>`,
      is read by the fallback pattern. */
  lemma FallbackLineGivesFile(name: string, file: string, l: string, c: string, lines: seq<string>)
    requires name != [] && forall k :: 0 <= k < |name| ==> !IsWhitespace(name[k]) && name[k] != '('
    requires file != [] && !IsWhitespace(file[0]) && forall k :: 0 <= k < |file| ==> IsFileChar(file[k])
    requires l != [] && c != [] && AllDigits(l) && AllDigits(c)
    requires lines != [] && lines[0] == "at " + name + " " + file + ":" + l + ":" + c
    ensures InferredFile(lines) == file
  {
    var s := lines[0];
    assert s[|s| - 1] == c[|c| - 1];
    assert Trim(s) == s;
    FallbackLineHasNoParen(s, name, file, l, c);
    NoParenNoMatch(s, 0);
    var head, tail := "at " + name + " ", ":" + l + ":" + c;
    assert s == head + (file + tail);
    FallbackFileAtOver(s, head, name, file, tail, l, c);
    assert FallbackFile(s, 0) == Some(file);
  }

  lemma FallbackLineHasNoParen(s: string, name: string, file: string, l: string, c: string)
    requires forall k :: 0 <= k < |name| ==> name[k] != '('
    requires forall k :: 0 <= k < |file| ==> IsFileChar(file[k])
    requires AllDigits(l) && AllDigits(c)
    requires s == "at " + name + " " + file + ":" + l + ":" + c
    ensures forall k :: 0 <= k < |s| ==> s[k] != '('
  {
    var n := 3 + |name|;
    var q := n + 1 + |file|;
    forall k | 0 <= k < |s|
      ensures s[k] != '('
    {
      if 3 <= k < n {
        assert s[k] == name[k - 3];
      } else if n < k < q {
        assert s[k] == file[k - n - 1];
      } else if q < k < q + 1 + |l| {
        assert s[k] == l[k - q - 1];
      } else if q + 1 + |l| < k {
        assert s[k] == c[k - q - 2 - |l|];
      }
    }
  }

  lemma FallbackFileAtOver(s: string, head: string, name: string, file: string, tail: string, l: string, c: string)
    requires name != [] && forall k :: 0 <= k < |name| ==> !IsWhitespace(name[k])
    requires file != [] && !IsWhitespace(file[0]) && forall k :: 0 <= k < |file| ==> IsFileChar(file[k])
    requires l != [] && c != [] && AllDigits(l) && AllDigits(c)
    requires head == "at " + name + " " && tail == ":" + l + ":" + c && s == head + (file + tail)
    ensures FallbackFileAt(s, 0) == Some(file)
  {
    var n := 3 + |name|;
    var q := n + 1 + |file|;
    FallbackHeadOver(s, head, name, file + tail);
    FallbackRestOver(s, n + 1, q, file, tail, l, c);
    FallbackAtSpans(s, 3, n, n + 1, q, file);
  }

  /** The runs of `at <name> ` at the start of `s`, and the rest after them. */
  lemma FallbackHeadOver(s: string, head: string, name: string, rest: string)
    requires name != [] && forall k :: 0 <= k < |name| ==> !IsWhitespace(name[k])
    requires head == "at " + name + " " && s == head + rest && rest != [] && !IsWhitespace(rest[0])
    ensures s[0] == 'a' && s[1] == 't' && SpanEnd(s, 2, IsWhitespace) == 3
    ensures SpanEnd(s, 3, NotWhitespace) == 3 + |name| && SpanEnd(s, 3 + |name|, IsWhitespace) == 4 + |name|
    ensures s[4 + |name|..] == rest
  {
    FallbackHeadSpans(s, head, name, rest);
    assert |head| == 4 + |name|;
  }

  /** The file run and the line and column after it, from `i` on. */
  lemma FallbackRestOver(s: string, i: nat, q: nat, file: string, tail: string, l: string, c: string)
    requires file != [] && forall k :: 0 <= k < |file| ==> IsFileChar(file[k])
    requires l != [] && c != [] && AllDigits(l) && AllDigits(c)
    requires tail == ":" + l + ":" + c && i <= |s| && s[i..] == file + tail && q == i + |file|
    ensures q < |s| && SpanEnd(s, i, IsFileChar) == q && s[q] == ':'
    ensures LineColEnd(s, q + 1).Some?
    ensures s[i..q] == file && IsFileChar(s[i])
  {
    FallbackTailSlices(s, i, q, file, tail);
    assert SpanEnd(s, i, IsFileChar) == q by {
      SpanEndAt(s, i, file, IsFileChar);
    }
    LineColAfter(s, q, l, c);
    assert s[i] == file[0] && IsFileChar(file[0]);
  }

  lemma FallbackHeadSpans(s: string, head: string, name: string, rest: string)
    requires name != [] && forall k :: 0 <= k < |name| ==> !IsWhitespace(name[k])
    requires head == "at " + name + " " && s == head + rest && rest != [] && !IsWhitespace(rest[0])
    ensures s[0] == 'a' && s[1] == 't'
    ensures SpanEnd(s, 2, IsWhitespace) == 3 && SpanEnd(s, 3, NotWhitespace) == 3 + |name|
    ensures SpanEnd(s, 3 + |name|, IsWhitespace) == 4 + |name|
  {
    var n := 3 + |name|;
    assert s[..|head|] == head;
    assert s[2..3] == head[2..3] == " ";
    SpanEndAt(s, 2, " ", IsWhitespace);
    assert s[3..n] == head[3..n] == name;
    SpanEndAt(s, 3, name, NotWhitespace);
    assert s[n..n + 1] == head[n..n + 1] == " ";
    assert s[n + 1] == rest[0];
    SpanEndAt(s, n, " ", IsWhitespace);
  }

  lemma FallbackTailSlices(s: string, i: nat, q: nat, file: string, tail: string)
    requires tail != [] && tail[0] == ':' && i <= |s| && s[i..] == file + tail && q == i + |file|
    ensures q < |s| && s[i..q] == file && s[q..] == tail && s[q] == ':'
  {
    assert s[i..q] == s[i..][..|file|];
    assert s[q..] == s[i..][|file|..];
    assert s[q] == tail[0];
  }

  lemma LineColAfter(s: string, q: nat, l: string, c: string)
    requires l != [] && c != [] && AllDigits(l) && AllDigits(c)
    requires q <= |s| && s[q..] == ":" + l + ":" + c
    ensures LineColEnd(s, q + 1).Some?
  {
    assert s[q + 1..] == (":" + l + ":" + c)[1..] == l + ":" + c;
    LineColOver(s, q + 1, l, c);
  }

  /** The fallback pattern at the start of `s`, given where its runs end. */
  lemma FallbackAtSpans(s: string, w1: nat, n: nat, w2: nat, q: nat, file: string)
    requires 2 < w1 < n < w2 < q < |s| && s[0] == 'a' && s[1] == 't'
    requires SpanEnd(s, 2, IsWhitespace) == w1 && SpanEnd(s, w1, NotWhitespace) == n
    requires SpanEnd(s, n, IsWhitespace) == w2 && SpanEnd(s, w2, IsFileChar) == q
    requires IsFileChar(s[w2]) && s[q] == ':' && LineColEnd(s, q + 1).Some? && s[w2..q] == file
    ensures FallbackFileAt(s, 0) == Some(file)
  {
  }

  // ---------------------------------------------------------------------
  // Summaries and contexts

  /** A request for one issue, with the facts the dispatcher reports back. */
  datatype DispatchContext = DispatchContext(ghIssueNumber: int, shortId: string, project: string,
                                             trackingState: TrackingState, event: AutoFixEvent)

  const ReproduceSentence := " Reproduce with a test and fix root cause."

  /** The issue's short id, or its id when it has none. */
  function ShortName(issue: SentryIssue): string {
    if issue.shortId != "" then issue.shortId else issue.id
  }

  /** `[<short id>] <title>.`, the culprit when there is one, and the
      instruction to reproduce and fix. */
  function BuildFindingSummary(issue: SentryIssue): (r: string)
    ensures StartsWith(r, "[" + ShortName(issue) + "] " + issue.title + ".")
    ensures |r| >= |ReproduceSentence| && r[|r| - |ReproduceSentence|..] == ReproduceSentence
    ensures issue.culprit == "" <==>
              |r| == |"[" + ShortName(issue) + "] " + issue.title + "."| + |ReproduceSentence|
    ensures var h := |"[" + ShortName(issue) + "] " + issue.title + "."|;
            h <= |r| - |ReproduceSentence|
            && r[h..|r| - |ReproduceSentence|] == if issue.culprit != "" then " Culprit: " + issue.culprit + "." else ""
  {
    var head := "[" + ShortName(issue) + "] " + issue.title + ".";
    var culprit := if issue.culprit != "" then " Culprit: " + issue.culprit + "." else "";
    var r := head + culprit + ReproduceSentence;
    assert r[..|head|] == head;
    assert r[|head|..|r| - |ReproduceSentence|] == culprit;
    r
  }

  /** `Sentry-<short id>#<GitHub issue number>`: the short id follows the
      prefix, and when it holds no '#' the first '#' of the reference
      separates it from the number. */
  function IssueRef(shortId: string, number: int): (r: string)
    ensures 8 + |shortId| <= |r| && r[..7] == "Sentry-" && r[7..7 + |shortId|] == shortId
    ensures r[7 + |shortId|] == '#' && r[8 + |shortId|..] == IntToString(number)
    ensures '#' !in shortId ==> FirstIndexOf(r, '#') == 7 + |shortId|
  {
    var r := ("Sentry-" + shortId) + ("#" + IntToString(number));
    if '#' in shortId then r
    else
      FirstIndexOfAt(r, '#', 7 + |shortId|);
      r
  }

  /** Distinct issues get distinct references, as long as short ids hold no
      '#'. */
  lemma IssueRefInjective(a: string, m: int, b: string, n: int)
    requires '#' !in a && '#' !in b
    requires IssueRef(a, m) == IssueRef(b, n)
    ensures a == b && m == n
  {
    IntToStringInjective(m, n);
  }

  /** The position of the first `c` in `s`, or `|s|`. */
  function FirstIndexOf(s: string, c: char): nat
    decreases |s|
  {
    if s == [] || s[0] == c then 0 else 1 + FirstIndexOf(s[1..], c)
  }

  lemma {:induction false} FirstIndexOfAt(s: string, c: char, i: nat)
    requires i < |s| && s[i] == c && forall k :: 0 <= k < i ==> s[k] != c
    ensures FirstIndexOf(s, c) == i
    decreases i
  {
    if i > 0 {
      FirstIndexOfAt(s[1..], c, i - 1);
    }
  }

  /** The request for one issue to fix; its single finding has the inferred
      file, no line and the built summary. */
  function ToContext(t: TrackedIssue, repository: string, targetBranch: string): (c: DispatchContext)
    ensures c.ghIssueNumber == t.ghIssueNumber && c.shortId == t.issue.shortId
    ensures c.project == t.issue.project && c.trackingState == t.trackingState
    ensures c.event.source == Sentry && c.event.repository == repository && c.event.targetBranch == targetBranch
    ensures c.event.issueRef == IssueRef(t.issue.shortId, t.ghIssueNumber)
    ensures |c.event.findings| == 1 && c.event.findings[0].line.None?
    ensures c.event.findings[0].file == InferredFile(Split(t.issue.stackTrace, '\n'))
    ensures c.event.findings[0].summary == BuildFindingSummary(t.issue)
  {
    var finding := Finding(InferredFile(Split(t.issue.stackTrace, '\n')), None, BuildFindingSummary(t.issue));
    DispatchContext(t.ghIssueNumber, t.issue.shortId, t.issue.project, t.trackingState,
                    AutoFixEvent(Sentry, repository, targetBranch, IssueRef(t.issue.shortId, t.ghIssueNumber), [finding]))
  }

  /** How many issues are taken: `slice(0, Math.max(maxFixes, 0))`; an
      unparsable maximum (`None`, JavaScript's NaN) takes none. */
  function SelectedCount(count: nat, maxFixes: Option<int>): (r: nat)
    ensures r <= count
    ensures maxFixes.None? || maxFixes.value <= 0 ==> r == 0
    ensures maxFixes.Some? && 0 <= maxFixes.value <= count ==> r == maxFixes.value
    ensures maxFixes.Some? && maxFixes.value >= count ==> r == count
  {
    match maxFixes
    case None => 0
    case Some(m) => if m <= 0 then 0 else if m < count then m else count
  }

  /** The contexts written: one per selected issue, in order. */
  function BuildContexts(toFix: seq<TrackedIssue>, maxFixes: Option<int>, repository: string,
                         targetBranch: string): (r: seq<DispatchContext>)
    ensures |r| == SelectedCount(|toFix|, maxFixes)
    ensures forall k :: 0 <= k < |r| ==> r[k] == ToContext(toFix[k], repository, targetBranch)
  {
    var n := SelectedCount(|toFix|, maxFixes);
    seq(n, k requires 0 <= k < n => ToContext(toFix[k], repository, targetBranch))
  }
}
