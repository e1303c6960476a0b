/** Canonical signatures of findings and order-preserving removal of
    findings whose signature was already seen (src/core/dedupe.ts). */
module Dedupe {
  import opened Wrappers
  import opened Text
  import opened Seqs
  import opened Types

  /** The characters `[a-z0-9:/._ -]` that survive normalisation. */
  predicate IsAllowedChar(c: char) {
    ('a' <= c <= 'z') || ('0' <= c <= '9') || c == ':' || c == '/' || c == '.' || c == '_'
    || c == ' ' || c == '-'
  }

  predicate IsNonBlank(c: char) {
    !IsWhitespace(c)
  }

  /** The characters a normalised text keeps besides spaces. */
  predicate IsKeptChar(c: char) {
    IsAllowedChar(c) && !IsWhitespace(c)
  }

  /** `.replace(/\s+/g, " ")`: every maximal run of whitespace becomes one
      space (`CollapseRun`, `CollapseWord`), and every other character is
      kept in order (`CollapseKeeps`). Collapsing adds no character but the
      space, leaves the space as the only blank, and no two blanks side by
      side. */
  function CollapseWhitespace(s: string): (r: string)
    ensures forall c :: c in r ==> c in s || c == ' '
    ensures forall i :: 0 <= i < |r| && IsWhitespace(r[i]) ==> r[i] == ' '
    ensures forall i :: 0 <= i < |r| - 1 ==> !(IsWhitespace(r[i]) && IsWhitespace(r[i + 1]))
    ensures r != [] ==> s != [] && (IsWhitespace(r[0]) <==> IsWhitespace(s[0]))
    decreases |s|
  {
    if s == [] then []
    else if IsWhitespace(s[0]) && |s| > 1 && IsWhitespace(s[1]) then CollapseWhitespace(s[1..])
    else if IsWhitespace(s[0]) then [' '] + CollapseWhitespace(s[1..])
    else [s[0]] + CollapseWhitespace(s[1..])
  }

  lemma CollapseCons(c: char, t: string)
    requires !IsWhitespace(c)
    ensures CollapseWhitespace([c] + t) == [c] + CollapseWhitespace(t)
  {
    assert ([c] + t)[1..] == t;
  }

  /** A maximal run of whitespace becomes one space. */
  lemma CollapseRun(w: string, b: string)
    requires |w| > 0 && AllWhitespace(w)
    requires b == [] || !IsWhitespace(b[0])
    ensures CollapseWhitespace(w + b) == [' '] + CollapseWhitespace(b)
  {
    CollapseRunToSpace(w, b);
    assert ([' '] + b)[1..] == b;
  }

  /** Text without whitespace is kept as it is. */
  lemma {:induction false} CollapseWord(a: string, b: string)
    requires forall i :: 0 <= i < |a| ==> !IsWhitespace(a[i])
    ensures CollapseWhitespace(a + b) == a + CollapseWhitespace(b)
    decreases |a|
  {
    if a != [] {
      assert a + b == [a[0]] + (a[1..] + b);
      CollapseCons(a[0], a[1..] + b);
      CollapseWord(a[1..], b);
      assert a == [a[0]] + a[1..];
    } else {
      assert a + b == b;
    }
  }

  /** `.replace(/[^a-z0-9:/._ -]/g, "")`: only allowed characters are
      left, and nothing is added. */
  function KeepAllowed(s: string): (r: string)
    ensures forall i :: 0 <= i < |r| ==> IsAllowedChar(r[i])
    ensures |r| <= |s|
    ensures (forall i :: 0 <= i < |s| ==> IsAllowedChar(s[i])) ==> r == s
    ensures r == Filter(s, IsAllowedChar)
    decreases |s|
  {
    if s == [] then []
    else if IsAllowedChar(s[0]) then [s[0]] + KeepAllowed(s[1..])
    else KeepAllowed(s[1..])
  }

  /** What is kept was there. */
  lemma {:induction false} KeepAllowedChars(s: string)
    ensures forall c :: c in KeepAllowed(s) ==> IsAllowedChar(c) && c in s
    decreases |s|
  {
    if s != [] {
      KeepAllowedChars(s[1..]);
      assert forall c :: c in s[1..] ==> c in s;
    }
  }

  /** `normalizeText`: lowercase, collapse whitespace runs, drop every
      character outside `[a-z0-9:/._ -]`, trim. The result uses only the
      allowed characters and neither starts nor ends with a space; besides
      spaces it keeps exactly the allowed characters of the lowercased
      input, in order (`NormalizeKeepsWords`). */
  function NormalizeText(input: string): (r: string)
    ensures forall c :: c in r ==> IsAllowedChar(c)
    ensures r == [] || (r[0] != ' ' && r[|r| - 1] != ' ')
    ensures forall c :: c in r ==> c == ' ' || c in Lower(input)
  {
    NormalizeSteps(input);
    Trim(KeepAllowed(CollapseWhitespace(Lower(input))))
  }

  lemma NormalizeSteps(input: string)
    ensures var r := Trim(KeepAllowed(CollapseWhitespace(Lower(input))));
            && (forall c :: c in r ==> IsAllowedChar(c))
            && (r == [] || (r[0] != ' ' && r[|r| - 1] != ' '))
            && (forall c :: c in r ==> c == ' ' || c in Lower(input))
  {
    var collapsed := CollapseWhitespace(Lower(input));
    var kept := KeepAllowed(collapsed);
    var r := Trim(kept);
    assert forall c :: c in r ==> IsAllowedChar(c) && (c == ' ' || c in Lower(input)) by {
      KeepAllowedChars(collapsed);
      TrimChars(kept);
    }
    assert r == [] || (r[0] != ' ' && r[|r| - 1] != ' ');
  }

  /** Normalising drops and re-spaces characters but keeps the lower-cased
      allowed non-blank ones, all of them and in their order. */
  lemma NormalizeKeepsWords(input: string)
    ensures Filter(NormalizeText(input), IsNonBlank) == Filter(Lower(input), IsKeptChar)
  {
    var collapsed := CollapseWhitespace(Lower(input));
    NonBlankOfAllowed(collapsed);
    CollapseKeeps(Lower(input), IsKeptChar);
    NonBlankOfTrim(KeepAllowed(collapsed));
  }

  /** The non-blank characters among the allowed ones are the kept ones. */
  lemma {:induction false} NonBlankOfAllowed(s: string)
    ensures Filter(Filter(s, IsAllowedChar), IsNonBlank) == Filter(s, IsKeptChar)
    decreases |s|
  {
    if s != [] {
      NonBlankOfAllowed(s[1..]);
      var rest := Filter(s[1..], IsAllowedChar);
      if IsAllowedChar(s[0]) {
        assert Filter(s, IsAllowedChar) == [s[0]] + rest;
        assert ([s[0]] + rest)[1..] == rest;
        assert Filter([s[0]] + rest, IsNonBlank) == (if IsNonBlank(s[0]) then [s[0]] else []) + Filter(rest, IsNonBlank);
      } else {
        assert Filter(s, IsAllowedChar) == rest;
      }
    }
  }

  /** Collapsing keeps the characters other than whitespace, in order: those
      of any kind that holds no whitespace, such as `IsNonBlank` or
      `IsKeptChar`. */
  lemma {:induction false} CollapseKeeps(s: string, p: char -> bool)
    requires forall c :: p(c) ==> !IsWhitespace(c)
    ensures Filter(CollapseWhitespace(s), p) == Filter(s, p)
    decreases |s|
  {
    if s != [] {
      CollapseKeeps(s[1..], p);
      var rest := CollapseWhitespace(s[1..]);
      if IsWhitespace(s[0]) && |s| > 1 && IsWhitespace(s[1]) {
      } else if IsWhitespace(s[0]) {
        assert ([' '] + rest)[1..] == rest;
      } else {
        assert ([s[0]] + rest)[1..] == rest;
      }
    }
  }

  /** Trimming keeps the non-blank characters. */
  lemma NonBlankOfTrim(s: string)
    ensures Filter(Trim(s), IsNonBlank) == Filter(s, IsNonBlank)
  {
    var r := Trim(s);
    var i := |s| - |TrimStart(s)|;
    TrimInfix(s);
    var pre, post := s[..i], s[i + |r|..];
    assert s == pre + r + post;
    FilterAppend(pre + r, post, IsNonBlank);
    FilterAppend(pre, r, IsNonBlank);
    BlankFilter(pre);
    BlankFilter(post);
  }

  lemma {:induction false} BlankFilter(w: string)
    requires AllWhitespace(w)
    ensures Filter(w, IsNonBlank) == []
    decreases |w|
  {
    if w != [] {
      BlankFilter(w[1..]);
    }
  }

  lemma {:induction false} CollapseRunToSpace(w: string, b: string)
    requires |w| > 0 && AllWhitespace(w)
    ensures CollapseWhitespace(w + b) == CollapseWhitespace([' '] + b)
    decreases |w|
  {
    if |w| > 1 {
      assert (w + b)[1..] == w[1..] + b;
      CollapseRunToSpace(w[1..], b);
    } else {
      assert (w + b)[1..] == b == ([' '] + b)[1..];
    }
  }

  /** The length of a whitespace run does not matter to the collapsed form. */
  lemma {:induction false} CollapseRunAnywhere(a: string, w: string, b: string)
    requires |w| > 0 && AllWhitespace(w)
    ensures CollapseWhitespace(a + w + b) == CollapseWhitespace(a + [' '] + b)
    decreases |a|
  {
    if a == [] {
      assert a + w + b == w + b;
      assert a + [' '] + b == [' '] + b;
      CollapseRunToSpace(w, b);
    } else {
      var x, y := a + w + b, a + [' '] + b;
      assert x[1..] == a[1..] + w + b;
      assert y[1..] == a[1..] + [' '] + b;
      CollapseRunAnywhere(a[1..], w, b);
      assert |x| > 1 && |y| > 1;
      assert IsWhitespace(x[1]) == IsWhitespace(y[1]) by {
        if |a| == 1 {
          assert x[1] == w[0] && y[1] == ' ';
        } else {
          assert x[1] == a[1] == y[1];
        }
      }
    }
  }

  lemma LowerWhitespace(w: string)
    requires AllWhitespace(w)
    ensures Lower(w) == w
  {
  }

  lemma LowerConcat(a: string, b: string)
    ensures Lower(a + b) == Lower(a) + Lower(b)
  {
  }

  /** Two texts that differ only in the length of one whitespace run
      normalise identically. */
  lemma NormalizeIgnoresRunLength(a: string, w1: string, w2: string, b: string)
    requires |w1| > 0 && AllWhitespace(w1)
    requires |w2| > 0 && AllWhitespace(w2)
    ensures NormalizeText(a + w1 + b) == NormalizeText(a + w2 + b)
  {
    LowerConcat(a + w1, b);
    LowerConcat(a, w1);
    LowerConcat(a + w2, b);
    LowerConcat(a, w2);
    LowerWhitespace(w1);
    LowerWhitespace(w2);
    CollapseRunAnywhere(Lower(a), w1, Lower(b));
    CollapseRunAnywhere(Lower(a), w2, Lower(b));
  }

  /** Two texts that differ only in the ASCII case of letters normalise
      identically. */
  lemma NormalizeIgnoresCase(s: string)
    ensures NormalizeText(Upper(s)) == NormalizeText(s)
  {
    LowerOfUpper(s);
  }

  /** Normalisation is not idempotent: a removed character between two
      spaces leaves a double space ... */
  lemma NormalizeLeavesDoubleSpace()
    ensures NormalizeText("a ! b") == "a  b"
  {
    LowerExample();
    CollapseExample();
    KeepAllowedExample();
    TrimExample();
  }

  lemma LowerExample()
    ensures Lower("a ! b") == "a ! b"
  {
  }

  lemma TrimExample()
    ensures Trim("a  b") == "a  b"
  {
    var s := "a  b";
    assert s[0] == 'a' && s[|s| - 1] == 'b';
  }

  lemma KeepAllowedCons(c: char, t: string)
    ensures KeepAllowed([c] + t) == (if IsAllowedChar(c) then [c] else []) + KeepAllowed(t)
  {
    assert ([c] + t)[1..] == t;
  }

  lemma KeepAllowedExample()
    ensures KeepAllowed("a ! b") == "a  b"
  {
    KeepAllowedDropsBetweenSpaces('a', '!', 'b');
  }

  lemma KeepAllowedDropsBetweenSpaces(x: char, d: char, y: char)
    requires IsAllowedChar(x) && !IsAllowedChar(d) && IsAllowedChar(y)
    ensures KeepAllowed([x, ' ', d, ' ', y]) == [x, ' ', ' ', y]
  {
    KeepAllowedDropsBefore(d, y);
    assert KeepAllowed([' ', d, ' ', y]) == [' ', ' ', y] by {
      KeepAllowedCons(' ', [d, ' ', y]);
      assert [' '] + [d, ' ', y] == [' ', d, ' ', y];
    }
    KeepAllowedCons(x, [' ', d, ' ', y]);
    assert [x] + [' ', d, ' ', y] == [x, ' ', d, ' ', y];
  }

  lemma KeepAllowedDropsBefore(d: char, y: char)
    requires !IsAllowedChar(d) && IsAllowedChar(y)
    ensures KeepAllowed([d, ' ', y]) == [' ', y]
  {
    assert KeepAllowed([y]) == [y] by {
      KeepAllowedCons(y, []);
      assert [y] + [] == [y];
    }
    assert KeepAllowed([' ', y]) == [' ', y] by {
      KeepAllowedCons(' ', [y]);
      assert [' '] + [y] == [' ', y];
    }
    KeepAllowedCons(d, [' ', y]);
    assert [d] + [' ', y] == [d, ' ', y];
  }

  lemma CollapseExample()
    ensures CollapseWhitespace("a ! b") == "a ! b"
  {
    assert CollapseWhitespace("b") == "b";
    assert CollapseWhitespace(" b") == " b";
    assert CollapseWhitespace("! b") == "! b";
    assert CollapseWhitespace(" ! b") == " ! b";
  }

  /** ... which a second pass collapses. */
  lemma NormalizeCollapsesDoubleSpace()
    ensures NormalizeText("a  b") == "a b"
  {
    assert Lower("a  b") == "a  b";
    CollapseCons('b', "");
    assert ['b'] + "" == "b";
    CollapseRun("  ", "b");
    assert "  " + "b" == "  b";
    CollapseCons('a', "  b");
    assert ['a'] + "  b" == "a  b";
    assert ['a'] + ([' '] + "b") == "a b";
    assert KeepAllowed("a b") == "a b";
    NormalizedIsTrimmed("a b");
  }

  /** `s` starts with `w` followed by a word boundary. */
  predicate LeadsWithWord(s: string, w: string) {
    StartsWith(s, w) && (|s| == |w| || !IsWordChar(s[|w|]))
  }

  /** `.replace(/^w\b/, "")`: remove `w` from the front when it is a whole
      word there, and only then. */
  function StripLeadingWord(s: string, w: string): (r: string)
    requires |w| > 0
    ensures r == s || (StartsWith(s, w) && r == s[|w|..] && (r == [] || !IsWordChar(r[0])))
    ensures r != s <==> StartsWith(s, w) && (|s| == |w| || !IsWordChar(s[|w|]))
  {
    if LeadsWithWord(s, w) then s[|w|..] else s
  }

  /** The normalised summary with one leading whole word "fix" or "issue"
      removed, then trimmed: a leading "fix" goes, else a leading "issue",
      and a summary that starts with neither is the normalised one. */
  function SummaryKey(summary: string): (r: string)
    ensures forall c :: c in r ==> IsAllowedChar(c)
    ensures r == [] || (!IsWhitespace(r[0]) && !IsWhitespace(r[|r| - 1]))
    ensures var n := NormalizeText(summary);
            (LeadsWithWord(n, "fix") ==> r == Trim(n[3..]))
            && (!LeadsWithWord(n, "fix") && LeadsWithWord(n, "issue") ==> r == Trim(n[5..]))
            && (!LeadsWithWord(n, "fix") && !LeadsWithWord(n, "issue") ==> r == n)
  {
    var n := NormalizeText(summary);
    StrippedKeyChars(n);
    StrippedKeyCases(n);
    Trim(StripLeadingWord(StripLeadingWord(n, "fix"), "issue"))
  }

  /** The key of a normalised text `n` keeps its characters and trims. */
  lemma StrippedKeyChars(n: string)
    requires forall c :: c in n ==> IsAllowedChar(c)
    ensures var r := Trim(StripLeadingWord(StripLeadingWord(n, "fix"), "issue"));
            && (forall c :: c in r ==> IsAllowedChar(c))
            && (r == [] || (!IsWhitespace(r[0]) && !IsWhitespace(r[|r| - 1])))
  {
    var twice := StripLeadingWord(StripLeadingWord(n, "fix"), "issue");
    assert forall c :: c in twice ==> c in n;
    TrimChars(twice);
  }

  /** The case analysis behind `SummaryKey`, on a normalised text `n`. */
  lemma StrippedKeyCases(n: string)
    requires forall c :: c in n ==> IsAllowedChar(c)
    requires n == [] || (n[0] != ' ' && n[|n| - 1] != ' ')
    ensures var r := Trim(StripLeadingWord(StripLeadingWord(n, "fix"), "issue"));
            && (LeadsWithWord(n, "fix") ==> r == Trim(n[3..]))
            && (!LeadsWithWord(n, "fix") && LeadsWithWord(n, "issue") ==> r == Trim(n[5..]))
            && (!LeadsWithWord(n, "fix") && !LeadsWithWord(n, "issue") ==> r == n)
  {
    StripCases(n);
    if !LeadsWithWord(n, "fix") && !LeadsWithWord(n, "issue") {
      NormalizedIsTrimmed(n);
    }
  }

  /** Which word, if any, the two strips remove. */
  lemma StripCases(n: string)
    ensures var twice := StripLeadingWord(StripLeadingWord(n, "fix"), "issue");
            && (forall c :: c in twice ==> c in n)
            && (LeadsWithWord(n, "fix") ==> |n| >= 3 && twice == n[3..])
            && (!LeadsWithWord(n, "fix") && LeadsWithWord(n, "issue") ==> |n| >= 5 && twice == n[5..])
            && (!LeadsWithWord(n, "fix") && !LeadsWithWord(n, "issue") ==> twice == n)
  {
    if LeadsWithWord(n, "fix") {
      StripsAtMostOneWord(n);
    }
  }

  /** A text of allowed characters without an edge space is its own trim. */
  lemma NormalizedIsTrimmed(n: string)
    requires forall c :: c in n ==> IsAllowedChar(c)
    requires n == [] || (n[0] != ' ' && n[|n| - 1] != ' ')
    ensures Trim(n) == n
  {
    if n != [] {
      assert n[0] in n && n[|n| - 1] in n;
    }
  }

  /** `findingSignature`: `file:line:summary`, each part canonical; a missing
      line counts as line 0. */
  function FindingSignature(finding: Finding): (r: string)
    ensures ':' !in finding.file ==>
              |Split(r, ':')| >= 2 && Split(r, ':')[0] == NormalizeText(finding.file)
              && Split(r, ':')[1] == IntToString(finding.line.GetOr(0))
    ensures var a, l := NormalizeText(finding.file), IntToString(finding.line.GetOr(0));
            |a| + |l| + 2 <= |r| && r[|a| + |l| + 2..] == SummaryKey(finding.summary)
  {
    var file, line := NormalizeText(finding.file), IntToString(finding.line.GetOr(0));
    if ':' !in finding.file then
      NoColonInNormalized(finding.file);
      NumberHasNoColon(finding.line.GetOr(0));
      SplitTwoFields(file, line, SummaryKey(finding.summary));
      ThirdField(file, line, SummaryKey(finding.summary));
      file + ":" + line + ":" + SummaryKey(finding.summary)
    else
      ThirdField(file, line, SummaryKey(finding.summary));
      file + ":" + line + ":" + SummaryKey(finding.summary)
  }

  /** A leading "fix" is stripped only as a whole word: "fix." and "fix "
      go, "fixed" stays. */
  lemma StripFixOnlyWholeWord(rest: string)
    ensures rest == [] || !IsWordChar(rest[0]) ==> StripLeadingWord("fix" + rest, "fix") == rest
    ensures rest != [] && IsWordChar(rest[0]) ==> StripLeadingWord("fix" + rest, "fix") == "fix" + rest
  {
    assert ("fix" + rest)[..3] == "fix";
    assert ("fix" + rest)[3..] == rest;
  }

  /** At most one of the two words is stripped: after "fix" goes, the text
      starts with a non-word character and cannot start with "issue". */
  lemma StripsAtMostOneWord(n: string)
    requires StripLeadingWord(n, "fix") != n
    ensures StripLeadingWord(StripLeadingWord(n, "fix"), "issue") == StripLeadingWord(n, "fix")
  {
    var r := StripLeadingWord(n, "fix");
    assert r == [] || !IsWordChar(r[0]);
  }

  /** The signature does not depend on case, as in "Fix race condition"
      versus "fix race condition". */
  lemma SignatureIgnoresCase(f: Finding)
    ensures FindingSignature(Finding(Upper(f.file), f.line, Upper(f.summary))) == FindingSignature(f)
  {
    NormalizeIgnoresCase(f.file);
    NormalizeIgnoresCase(f.summary);
  }

  /** An absent line and line 0 give the same signature. */
  lemma SignatureMissingLineIsZero(file: string, summary: string)
    ensures FindingSignature(Finding(file, None, summary)) == FindingSignature(Finding(file, Some(0), summary))
  {
  }

  lemma NoColonInNormalized(s: string)
    requires ':' !in s
    ensures ':' !in NormalizeText(s)
  {
    assert forall i | 0 <= i < |s| :: Lower(s)[i] != ':';
  }

  /** The first two colon-separated fields of `a:l:t` are `a` and `l` when
      neither holds a colon. */
  lemma SplitTwoFields(a: string, l: string, t: string)
    requires ':' !in a && ':' !in l
    ensures |Split(a + ":" + l + ":" + t, ':')| >= 2
    ensures Split(a + ":" + l + ":" + t, ':')[0] == a
    ensures Split(a + ":" + l + ":" + t, ':')[1] == l
  {
    assert a + ":" + l + ":" + t == a + [':'] + (l + [':'] + t);
    SplitConcat(a, ':', l + [':'] + t);
    SplitConcat(l, ':', t);
  }

  /** When the file names have no colon, two findings have the same
      signature exactly when they agree on the normalised file, the line
      (absent counting as 0) and the summary key: findings on different
      lines are never merged. */
  lemma SignatureSeparatesLines(f: Finding, g: Finding)
    requires ':' !in f.file && ':' !in g.file
    ensures FindingSignature(f) == FindingSignature(g)
            <==> NormalizeText(f.file) == NormalizeText(g.file) && f.line.GetOr(0) == g.line.GetOr(0)
                 && SummaryKey(f.summary) == SummaryKey(g.summary)
  {
    if FindingSignature(f) == FindingSignature(g) {
      NoColonInNormalized(f.file);
      NoColonInNormalized(g.file);
      NumberHasNoColon(f.line.GetOr(0));
      NumberHasNoColon(g.line.GetOr(0));
      FieldsSeparate(NormalizeText(f.file), IntToString(f.line.GetOr(0)), SummaryKey(f.summary),
                     NormalizeText(g.file), IntToString(g.line.GetOr(0)), SummaryKey(g.summary));
      IntToStringInjective(f.line.GetOr(0), g.line.GetOr(0));
    }
  }

  lemma NumberHasNoColon(n: int)
    ensures ':' !in IntToString(n)
  {
    if ':' in IntToString(n) {
      IntToStringChars(n, ':');
    }
  }

  /** Two `a:l:t` texts agree on `a`, `l` and `t` when no `a` or `l`
      holds a colon. */
  lemma FieldsSeparate(a1: string, l1: string, t1: string, a2: string, l2: string, t2: string)
    requires ':' !in a1 && ':' !in l1 && ':' !in a2 && ':' !in l2
    requires a1 + ":" + l1 + ":" + t1 == a2 + ":" + l2 + ":" + t2
    ensures a1 == a2 && l1 == l2 && t1 == t2
  {
    SplitTwoFields(a1, l1, t1);
    SplitTwoFields(a2, l2, t2);
    ThirdField(a1, l1, t1);
    ThirdField(a2, l2, t2);
  }

  /** The text after the second separator of `a:l:t`. */
  lemma ThirdField(a: string, l: string, t: string)
    ensures |a| + |l| + 2 <= |a + ":" + l + ":" + t| && (a + ":" + l + ":" + t)[|a| + |l| + 2..] == t
  {
  }

  /** The loop of `dedupeFindings`, for any key: a set of the keys seen so
      far decides whether each element is kept. */
  method DedupeLoop<T, K(==)>(s: seq<T>, key: T -> K) returns (out: seq<T>)
    ensures out == DedupeBy(s, key)
  {
    var seen: set<K> := {};
    out := [];
    for i := 0 to |s|
      invariant out == DedupeBy(s[..i], key)
      invariant seen == Keys(out, key)
    {
      ghost var upTo := s[..i + 1];
      assert upTo[..i] == s[..i] && upTo[i] == s[i];
      var k := key(s[i]);
      if k in seen {
        continue;
      }
      KeysSnoc(out, s[i], key);
      seen := seen + {k};
      out := out + [s[i]];
    }
    assert s[..|s|] == s;
  }

  /** `dedupeFindings`: keeps each finding whose signature has not been seen
      yet. The result is an order-preserving subsequence of the input made
      of the input's own findings, one per distinct signature, each the first
      finding with that signature. */
  method DedupeFindings(findings: seq<Finding>) returns (out: seq<Finding>)
    ensures out == DedupeBy(findings, FindingSignature)
    ensures IsSubseq(out, findings) && |out| <= |findings|
    ensures KeysDistinct(out, FindingSignature)
    ensures Keys(out, FindingSignature) == Keys(findings, FindingSignature)
    ensures |out| == |Keys(findings, FindingSignature)|
  {
    out := DedupeLoop(findings, FindingSignature);
    DedupeIsSubseq(findings, FindingSignature);
    DedupeKeysDistinct(findings, FindingSignature);
    DedupeKeys(findings, FindingSignature);
    DedupeLength(findings, FindingSignature);
  }

  /** Deduplicating findings a second time changes nothing. */
  lemma DedupeFindingsIdempotent(findings: seq<Finding>)
    ensures DedupeBy(DedupeBy(findings, FindingSignature), FindingSignature)
         == DedupeBy(findings, FindingSignature)
  {
    DedupeIdempotent(findings, FindingSignature);
  }
}
