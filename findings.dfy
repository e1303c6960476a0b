/** Turning the inline comments of a pull-request review into findings:
    only comments by an allowed reviewer count, each gives one finding, and
    a review with none gives a single placeholder finding. */
module ReviewFindings {
  import opened Wrappers
  import opened Text
  import opened Types
  import opened Seqs

  /** A review comment as delivered by the hosting service. `login` is
      absent when either the user or the user's login is absent. */
  datatype ReviewComment = ReviewComment(
    path: string,
    body: string,
    line: Option<int>,
    originalLine: Option<int>,
    login: Option<string>)

  const MaxSummaryLength: nat := 240
  const MissingSummary := "Missing summary"
  const FallbackSummary := "Review requested changes, but no matching inline comments were found."

  /** A line that trims to nothing. */
  predicate IsBlank(line: string) {
    Trim(line) == ""
  }

  /** The position of the first line at or after `from` that is not blank. */
  function FirstNonBlankFrom(lines: seq<string>, from: nat): (r: Option<nat>)
    requires from <= |lines|
    ensures r.None? <==> forall i :: from <= i < |lines| ==> IsBlank(lines[i])
    ensures r.Some? ==> from <= r.value < |lines| && !IsBlank(lines[r.value])
    ensures r.Some? ==> forall j :: from <= j < r.value ==> IsBlank(lines[j])
    decreases |lines| - from
  {
    if from == |lines| then None
    else if !IsBlank(lines[from]) then Some(from)
    else FirstNonBlankFrom(lines, from + 1)
  }

  /** The position of the first line that is not blank once trimmed. */
  function FirstNonBlank(lines: seq<string>): (r: Option<nat>)
    ensures r.None? <==> forall i :: 0 <= i < |lines| ==> IsBlank(lines[i])
    ensures r.Some? ==> r.value < |lines| && !IsBlank(lines[r.value])
    ensures r.Some? ==> forall j :: 0 <= j < r.value ==> IsBlank(lines[j])
  {
    FirstNonBlankFrom(lines, 0)
  }

  function Truncate(s: string, n: nat): (r: string)
    ensures |r| <= n && |r| <= |s| && r == s[..|r|]
    ensures |s| <= n ==> r == s
  {
    if |s| <= n then s else s[..n]
  }

  /** The first non-blank line of the body, trimmed and cut to 240
      characters, or "Missing summary". The result is one non-empty line
      that does not start with whitespace. */
  function SummarizeCommentBody(body: string): (r: string)
    ensures 0 < |r| <= MaxSummaryLength
    ensures '\n' !in r
    ensures !IsWhitespace(r[0])
  {
    var lines := Split(body, '\n');
    match FirstNonBlank(lines)
    case None => MissingSummary
    case Some(k) =>
      SplitPiecesHaveNoSeparator(body, '\n');
      var t := Trim(lines[k]);
      TrimChars(lines[k]);
      assert forall c :: c in Truncate(t, MaxSummaryLength) ==> c in t;
      Truncate(t, MaxSummaryLength)
  }

  /** The summary is the first line of the body that is not blank. */
  lemma SummaryIsFirstNonBlankLine(body: string, i: nat)
    requires i < |Split(body, '\n')| && !IsBlank(Split(body, '\n')[i])
    requires forall j :: 0 <= j < i ==> IsBlank(Split(body, '\n')[j])
    ensures SummarizeCommentBody(body) == Truncate(Trim(Split(body, '\n')[i]), MaxSummaryLength)
  {
    var k := FirstNonBlank(Split(body, '\n'));
    assert k.Some?;
    if k.value < i {
    } else if k.value > i {
    }
  }

  /** A body with no non-blank line gives the placeholder summary. */
  lemma SummaryOfBlankBody(body: string)
    requires forall i :: 0 <= i < |Split(body, '\n')| ==> IsBlank(Split(body, '\n')[i])
    ensures SummarizeCommentBody(body) == MissingSummary
  {
  }

  /** A first line with no surrounding whitespace and at most 240
      characters is the summary as it stands, whatever follows it. */
  lemma SummaryOfFirstLine(first: string, rest: string)
    requires '\n' !in first && first != []
    requires !IsWhitespace(first[0]) && !IsWhitespace(first[|first| - 1])
    requires |first| <= MaxSummaryLength
    ensures SummarizeCommentBody(first + "\n" + rest) == first
  {
    SplitConcat(first, '\n', rest);
    SummaryIsFirstNonBlankLine(first + "\n" + rest, 0);
  }

  /** The allow-list, lowercased. */
  function LowerAll(names: seq<string>): (r: seq<string>)
    ensures |r| == |names|
    ensures forall i :: 0 <= i < |names| ==> r[i] == Lower(names[i])
  {
    seq(|names|, i requires 0 <= i < |names| => Lower(names[i]))
  }

  /** A missing or empty login is never allowed; otherwise the login is
      allowed when it equals an allow-listed name ignoring ASCII case, or
      when its lowercase form contains "greptile". */
  function ReviewerAllowed(login: Option<string>, allowedReviewAuthors: seq<string>): (r: bool)
    ensures (login.None? || login.value == "") ==> !r
    ensures login.Some? && login.value != "" ==>
      (r <==> (exists i :: 0 <= i < |allowedReviewAuthors| && Lower(allowedReviewAuthors[i]) == Lower(login.value))
              || Contains(Lower(login.value), "greptile"))
  {
    if login.None? || login.value == "" then false
    else
      var normalized := Lower(login.value);
      var allowed := LowerAll(allowedReviewAuthors);
      assert (normalized in allowed) <==>
        exists i :: 0 <= i < |allowedReviewAuthors| && Lower(allowedReviewAuthors[i]) == normalized;
      if normalized in allowed then true
      else Contains(normalized, "greptile")
  }

  /** The decision ignores the ASCII case of the login. */
  lemma ReviewerAllowedIgnoresCase(login: string, allowedReviewAuthors: seq<string>)
    ensures ReviewerAllowed(Some(Upper(login)), allowedReviewAuthors)
         == ReviewerAllowed(Some(login), allowedReviewAuthors)
  {
    LowerOfUpper(login);
  }

  /** The finding one allowed comment gives: the comment's path, its line
      or else its original line, and the summary of its body. */
  function CommentFinding(comment: ReviewComment): (f: Finding)
    ensures f.file == comment.path
    ensures comment.line.Some? ==> f.line == comment.line
    ensures comment.line.None? ==> f.line == comment.originalLine
    ensures f.summary == SummarizeCommentBody(comment.body)
  {
    Finding(comment.path, if comment.line.Some? then comment.line else comment.originalLine,
            SummarizeCommentBody(comment.body))
  }

  /** The findings one comment contributes: its own when allowed, else
      none; one step of `AllowedFindings`. */
  function FindingOf(c: ReviewComment, allowed: seq<string>): seq<Finding> {
    if ReviewerAllowed(c.login, allowed) then [CommentFinding(c)] else []
  }

  /** The findings of the allowed comments, in input order: never more
      than there are comments, and none exactly when no comment has an
      allowed author. */
  function AllowedFindings(comments: seq<ReviewComment>, allowedReviewAuthors: seq<string>): (r: seq<Finding>)
    ensures |r| <= |comments|
    ensures r == [] <==> forall i {:trigger ReviewerAllowed(comments[i].login, allowedReviewAuthors)} ::
                           0 <= i < |comments| ==> !ReviewerAllowed(comments[i].login, allowedReviewAuthors)
    decreases |comments|
  {
    if comments == [] then []
    else
      var p := comments[..|comments| - 1];
      var before := AllowedFindings(p, allowedReviewAuthors);
      var c := comments[|comments| - 1];
      assert forall i :: 0 <= i < |p| ==> p[i] == comments[i];
      if ReviewerAllowed(c.login, allowedReviewAuthors) then before + [CommentFinding(c)] else before
  }

  const Fallback := Finding("unknown", None, FallbackSummary)

  /** What the extractor returns: the allowed comments' findings, or the
      single placeholder finding when there is none. */
  function ExtractedFindings(comments: seq<ReviewComment>, allowedReviewAuthors: seq<string>): (r: seq<Finding>)
    ensures |r| >= 1
    ensures (forall i :: 0 <= i < |comments| ==> !ReviewerAllowed(comments[i].login, allowedReviewAuthors))
        ==> r == [Fallback]
    ensures (exists i :: 0 <= i < |comments| && ReviewerAllowed(comments[i].login, allowedReviewAuthors))
        ==> r == AllowedFindings(comments, allowedReviewAuthors)
  {
    var fs := AllowedFindings(comments, allowedReviewAuthors);
    if |fs| > 0 then fs else [Fallback]
  }

  /** Findings of a concatenation are the concatenation of the findings:
      every comment is judged on its own and order is kept. */
  lemma {:induction false} AllowedFindingsAppend(a: seq<ReviewComment>, b: seq<ReviewComment>, allowed: seq<string>)
    ensures AllowedFindings(a + b, allowed) == AllowedFindings(a, allowed) + AllowedFindings(b, allowed)
    decreases |b|
  {
    if b == [] {
      assert a + b == a;
    } else {
      var b' := b[..|b| - 1];
      AllowedFindingsAppend(a, b', allowed);
      AllowedFindingsLast(a + b, allowed);
      AllowedFindingsLast(b, allowed);
      assert (a + b)[..|a + b| - 1] == a + b' && (a + b)[|a + b| - 1] == b[|b| - 1];
      AppendAssoc(AllowedFindings(a, allowed), AllowedFindings(b', allowed), FindingOf(b[|b| - 1], allowed));
    }
  }

  /** The last comment adds its finding last, when allowed. */
  lemma AllowedFindingsLast(comments: seq<ReviewComment>, allowed: seq<string>)
    requires comments != []
    ensures AllowedFindings(comments, allowed)
         == AllowedFindings(comments[..|comments| - 1], allowed) + FindingOf(comments[|comments| - 1], allowed)
  {
  }

  /** One comment gives one finding when its author is allowed, else none. */
  lemma AllowedFindingsOfOne(c: ReviewComment, allowed: seq<string>)
    ensures AllowedFindings([c], allowed)
         == if ReviewerAllowed(c.login, allowed) then [CommentFinding(c)] else []
  {
    assert [c][..0] == [];
  }

  /** There is one finding per allowed comment, never more than comments. */
  lemma {:induction false} AllowedFindingsFromAllowedComments(comments: seq<ReviewComment>, allowed: seq<string>, k: nat)
      returns (i: nat)
    requires k < |AllowedFindings(comments, allowed)|
    ensures i < |comments| && ReviewerAllowed(comments[i].login, allowed)
    ensures AllowedFindings(comments, allowed)[k] == CommentFinding(comments[i])
    decreases |comments|
  {
    var p := comments[..|comments| - 1];
    var before := AllowedFindings(p, allowed);
    if k < |before| {
      i := AllowedFindingsFromAllowedComments(p, allowed, k);
    } else {
      i := |comments| - 1;
    }
  }

  /** `extractFindingsFromReviewComments`: one pass over the comments,
      appending the finding of each allowed one, then the placeholder
      finding if nothing was appended. */
  method ExtractFindingsFromReviewComments(comments: seq<ReviewComment>, allowedReviewAuthors: seq<string>)
      returns (findings: seq<Finding>)
    ensures findings == ExtractedFindings(comments, allowedReviewAuthors)
  {
    findings := [];
    for i := 0 to |comments|
      invariant findings == AllowedFindings(comments[..i], allowedReviewAuthors)
    {
      assert comments[..i + 1][..i] == comments[..i];
      if ReviewerAllowed(comments[i].login, allowedReviewAuthors) {
        findings := findings + [CommentFinding(comments[i])];
      }
    }
    assert comments[..|comments|] == comments;
    if |findings| == 0 {
      findings := [Fallback];
    }
  }

  lemma HumanReviewerNotAllowed(allowed: seq<string>)
    requires forall k :: 0 <= k < |allowed| ==> Lower(allowed[k]) != "human-reviewer"
    ensures !ReviewerAllowed(Some("human-reviewer"), allowed)
  {
    assert Lower("human-reviewer") == "human-reviewer";
    NotContainsWithoutFirstChar("human-reviewer", "greptile");
  }

  /** Of an allowed comment followed by one that is not, only the first
      gives a finding. */
  lemma OnlyAllowedReviewerKept(bot: ReviewComment, human: ReviewComment, allowed: seq<string>)
    requires ReviewerAllowed(bot.login, allowed) && !ReviewerAllowed(human.login, allowed)
    ensures ExtractedFindings([bot, human], allowed) == [CommentFinding(bot)]
  {
    AllowedThenRefused(bot, human, allowed);
  }

  lemma AllowedThenRefused(bot: ReviewComment, human: ReviewComment, allowed: seq<string>)
    requires ReviewerAllowed(bot.login, allowed) && !ReviewerAllowed(human.login, allowed)
    ensures AllowedFindings([bot, human], allowed) == [CommentFinding(bot)]
  {
    AllowedFindingsOfOne(bot, allowed);
    AllowedFindingsOfOne(human, allowed);
    AllowedFindingsAppend([bot], [human], allowed);
    assert [bot] + [human] == [bot, human];
  }

  /** Of a bot comment and a human comment, only the bot's survives, with
      the first line of its body as summary. */
  lemma BotAndHumanExample(bot: ReviewComment, human: ReviewComment, allowed: seq<string>)
    requires bot == ReviewComment("src/a.ts", "Missing null check\nmore context", Some(10), None, Some("greptile[bot]"))
    requires human == ReviewComment("src/b.ts", "Nit: rename variable", Some(20), None, Some("human-reviewer"))
    requires allowed == ["greptile", "greptile[bot]"]
    ensures ExtractedFindings([bot, human], allowed) == [Finding("src/a.ts", Some(10), "Missing null check")]
  {
    assert ReviewerAllowed(bot.login, allowed) by {
      BotAllowed(allowed);
    }
    assert !ReviewerAllowed(human.login, allowed) by {
      HumanReviewerNotAllowed(allowed);
    }
    OnlyAllowedReviewerKept(bot, human, allowed);
    BotSummary(bot.body);
  }

  lemma BotAllowed(allowed: seq<string>)
    requires allowed == ["greptile", "greptile[bot]"]
    ensures ReviewerAllowed(Some("greptile[bot]"), allowed)
  {
    assert Lower("greptile[bot]") == "greptile[bot]";
    assert LowerAll(allowed)[1] == "greptile[bot]";
  }

  lemma BotSummary(body: string)
    requires body == "Missing null check\nmore context"
    ensures SummarizeCommentBody(body) == "Missing null check"
  {
    var first, rest := "Missing null check", "more context";
    assert body == first + "\n" + rest;
    SummaryOfFirstLine(first, rest);
  }

  /** A review without an allowed comment gives only the placeholder. */
  lemma FallbackWhenNoneAllowed()
    ensures ExtractedFindings(
      [ReviewComment("src/a.ts", "Looks good", Some(10), None, Some("human-reviewer"))], ["greptile"])
      == [Finding("unknown", None, FallbackSummary)]
  {
    assert Lower("greptile") == "greptile";
    HumanReviewerNotAllowed(["greptile"]);
  }
}
