/** The Sentry fetcher (scripts/sentry-fetch-issues.ts): which projects it
    asks about, how the latest event of an issue becomes the text stack trace
    the later scripts read, how the event's tags become a map, and the order
    of its output. The Sentry API is a parameter: for each project the issue
    list it returns (absent when the request failed), and for each issue id
    its latest event (absent when that request failed). */
module SentryFetch {
  import opened Wrappers
  import opened Text
  import opened Seqs
  import opened SentryTypes

  /** The records of the Sentry API that the fetcher reads. */
  datatype Frame = Frame(filename: string, functionName: string, lineNo: int, colNo: int, inApp: bool)
  /** One exception of an event; `frames` is absent when the exception has
      no stack trace or the stack trace no frame list. */
  datatype ExceptionValue = ExceptionValue(errorType: Option<string>, message: Option<string>,
                                           frames: Option<seq<Frame>>)
  datatype Entry = Entry(entryType: string, values: Option<seq<ExceptionValue>>)
  datatype Tag = Tag(key: string, value: string)
  datatype Event = Event(entries: seq<Entry>, tags: Option<seq<Tag>>)
  /** `project?: { slug?: string }` */
  datatype ProjectRef = ProjectRef(slug: Option<string>)
  datatype ApiIssue = ApiIssue(id: string, shortId: string, title: string, culprit: string,
                               count: string, firstSeen: string, lastSeen: string, level: string,
                               project: Option<ProjectRef>)

  const NoEventText := "No event data available"
  const NoStackTraceText := "No stack trace available"
  const NoProjectsError := "No Sentry projects configured. Use --projects or SENTRY_PROJECTS."

  // ---------------------------------------------------------------------
  // Projects

  predicate NonEmpty(s: string) {
    s != ""
  }

  function Itself(s: string): string {
    s
  }

  /** The comma-separated pieces of `raw`, each trimmed. */
  function TrimmedPieces(raw: string): (r: seq<string>)
    ensures |r| == |Split(raw, ',')|
    ensures forall k :: 0 <= k < |r| ==> r[k] == Trim(Split(raw, ',')[k])
  {
    var parts := Split(raw, ',');
    seq(|parts|, k requires 0 <= k < |parts| => Trim(parts[k]))
  }

  /** The projects to fetch: the `--project` value when it is not empty,
      else the `--projects` value, each either given on the command line or
      taken from the environment; split on ',', trimmed, blanks dropped and
      repetitions removed, keeping first occurrences. An error exactly when
      every piece is blank; otherwise the names are distinct, non-empty,
      trimmed pieces without a comma, in the order of their first
      occurrence. */
  function ProjectList(projectRaw: string, projectsRaw: string): (r: Result<seq<string>>)
    ensures var pieces := TrimmedPieces(ProjectSource(projectRaw, projectsRaw));
            r.Failure? <==> forall k :: 0 <= k < |pieces| ==> pieces[k] == ""
    ensures var pieces := TrimmedPieces(ProjectSource(projectRaw, projectsRaw));
            r.Success? ==>
              IsSubseq(r.value, Filter(pieces, NonEmpty))
              && (forall i, j :: 0 <= i < j < |r.value| ==> r.value[i] != r.value[j])
              && (forall i :: 0 <= i < |r.value| ==>
                    r.value[i] != "" && ',' !in r.value[i]
                    && !IsWhitespace(r.value[i][0]) && !IsWhitespace(r.value[i][|r.value[i]| - 1]))
    ensures var pieces := TrimmedPieces(ProjectSource(projectRaw, projectsRaw));
            r.Success? ==> r.value == DedupeBy(Filter(pieces, NonEmpty), Itself)
    ensures r.Failure? ==> r.error == NoProjectsError
  {
    ListedPieces(ProjectSource(projectRaw, projectsRaw));
    var names := DedupeBy(Filter(TrimmedPieces(ProjectSource(projectRaw, projectsRaw)), NonEmpty), Itself);
    if names == [] then Failure(NoProjectsError) else Success(names)
  }

  /** `KeptPieces` for the trimmed pieces of one list. */
  lemma ListedPieces(raw: string)
    ensures var pieces := TrimmedPieces(raw);
            var names := DedupeBy(Filter(pieces, NonEmpty), Itself);
            (names == [] <==> forall k :: 0 <= k < |pieces| ==> pieces[k] == "")
            && IsSubseq(names, Filter(pieces, NonEmpty))
            && (forall i, j :: 0 <= i < j < |names| ==> names[i] != names[j])
            && (forall i :: 0 <= i < |names| ==>
                  names[i] != "" && ',' !in names[i]
                  && !IsWhitespace(names[i][0]) && !IsWhitespace(names[i][|names[i]| - 1]))
  {
    PiecesHaveNoComma(raw);
    PiecesTrimmed(raw);
    KeptPieces(TrimmedPieces(raw));
  }

  /** The list read: `--project` wins whenever it is not empty. */
  function ProjectSource(projectRaw: string, projectsRaw: string): string {
    if projectRaw != "" then projectRaw else projectsRaw
  }

  /** Every trimmed piece is free of whitespace at its ends. */
  lemma PiecesTrimmed(raw: string)
    ensures forall k :: 0 <= k < |TrimmedPieces(raw)| ==>
              var p := TrimmedPieces(raw)[k];
              p == [] || (!IsWhitespace(p[0]) && !IsWhitespace(p[|p| - 1]))
  {
  }

  /** No trimmed piece holds the separator. */
  lemma PiecesHaveNoComma(raw: string)
    ensures forall k :: 0 <= k < |TrimmedPieces(raw)| ==> ',' !in TrimmedPieces(raw)[k]
  {
    var pieces := TrimmedPieces(raw);
    SplitPiecesHaveNoSeparator(raw, ',');
    forall k | 0 <= k < |pieces|
      ensures ',' !in pieces[k]
    {
      assert ',' !in Split(raw, ',')[k];
    }
  }

  /** The facts behind `ProjectList`'s contract, for any list of trimmed pieces
      without a comma. */
  lemma KeptPieces(pieces: seq<string>)
    requires forall k :: 0 <= k < |pieces| ==> ',' !in pieces[k]
    requires forall k :: 0 <= k < |pieces| ==>
               pieces[k] == [] || (!IsWhitespace(pieces[k][0]) && !IsWhitespace(pieces[k][|pieces[k]| - 1]))
    ensures var names := DedupeBy(Filter(pieces, NonEmpty), Itself);
            (names == [] <==> forall k :: 0 <= k < |pieces| ==> pieces[k] == "")
            && IsSubseq(names, Filter(pieces, NonEmpty))
            && (forall i, j :: 0 <= i < j < |names| ==> names[i] != names[j])
            && (forall i :: 0 <= i < |names| ==>
                  names[i] != "" && ',' !in names[i]
                  && !IsWhitespace(names[i][0]) && !IsWhitespace(names[i][|names[i]| - 1]))
  {
    var kept := Filter(pieces, NonEmpty);
    DedupeIsSubseq(kept, Itself);
    DedupeKeysDistinct(kept, Itself);
    KeptPiecesEmpty(pieces);
    KeptPiecesShape(pieces);
  }

  /** Nothing is kept exactly when every piece is blank. */
  lemma KeptPiecesEmpty(pieces: seq<string>)
    ensures DedupeBy(Filter(pieces, NonEmpty), Itself) == [] <==> forall k :: 0 <= k < |pieces| ==> pieces[k] == ""
  {
    var kept := Filter(pieces, NonEmpty);
    var names := DedupeBy(kept, Itself);
    if forall k :: 0 <= k < |pieces| ==> pieces[k] == "" {
      if kept != [] {
        var k := FilterFrom(pieces, NonEmpty, 0);
        assert false;
      }
      DedupeIsSubseq(kept, Itself);
    } else {
      var k :| 0 <= k < |pieces| && pieces[k] != "";
      var j := FilterKeeps(pieces, NonEmpty, k);
      KeyAt(kept, Itself, j);
      DedupeKeys(kept, Itself);
      assert names != [];
    }
  }

  /** Every kept name is a non-blank piece. */
  lemma KeptPiecesShape(pieces: seq<string>)
    requires forall k :: 0 <= k < |pieces| ==> ',' !in pieces[k]
    requires forall k :: 0 <= k < |pieces| ==>
               pieces[k] == [] || (!IsWhitespace(pieces[k][0]) && !IsWhitespace(pieces[k][|pieces[k]| - 1]))
    ensures var names := DedupeBy(Filter(pieces, NonEmpty), Itself);
            forall i :: 0 <= i < |names| ==>
              names[i] != "" && ',' !in names[i]
              && !IsWhitespace(names[i][0]) && !IsWhitespace(names[i][|names[i]| - 1])
  {
    var kept := Filter(pieces, NonEmpty);
    var names := DedupeBy(kept, Itself);
    DedupeKeys(kept, Itself);
    forall i | 0 <= i < |names|
      ensures names[i] != "" && ',' !in names[i]
      ensures !IsWhitespace(names[i][0]) && !IsWhitespace(names[i][|names[i]| - 1])
    {
      KeyAt(names, Itself, i);
      var j := KeyIndex(kept, Itself, names[i]);
      assert NonEmpty(kept[j]);
      var k := FilterFrom(pieces, NonEmpty, j);
    }
  }

  /** Every non-blank piece is among the projects fetched. */
  lemma ProjectListComplete(projectRaw: string, projectsRaw: string, k: nat)
    requires k < |TrimmedPieces(ProjectSource(projectRaw, projectsRaw))|
    requires TrimmedPieces(ProjectSource(projectRaw, projectsRaw))[k] != ""
    ensures ProjectList(projectRaw, projectsRaw).Success?
    ensures TrimmedPieces(ProjectSource(projectRaw, projectsRaw))[k] in ProjectList(projectRaw, projectsRaw).value
  {
    var pieces := TrimmedPieces(ProjectSource(projectRaw, projectsRaw));
    var kept := Filter(pieces, NonEmpty);
    var names := DedupeBy(kept, Itself);
    var j := FilterKeeps(pieces, NonEmpty, k);
    KeyAt(kept, Itself, j);
    DedupeKeys(kept, Itself);
    var i := KeyIndex(names, Itself, pieces[k]);
  }

  // ---------------------------------------------------------------------
  // Stack traces

  /** `s || d`: an absent or empty text is replaced by `d`. */
  function OrElse(s: Option<string>, d: string): string {
    if s.None? || s.value == "" then d else s.value
  }

  /** A frame as the fetcher writes it: `  at <function> (<file>:<line>:<column>)`,
      with "?" for a frame without a function name. */
  function FrameLine(f: Frame): (r: string)
    ensures |r| > 5 && r[..5] == "  at " && r[|r| - 1] == ')'
    ensures Contains(r, " (" + f.filename + ":")
  {
    var head := "  at " + FunctionShown(f);
    var loc := " (" + f.filename + ":";
    var tail := IntToString(f.lineNo) + ":" + IntToString(f.colNo) + ")";
    assert Contains(head + (loc + tail), loc) by {
      ContainsPrefix(loc, tail);
      ContainsInRight(head, loc + tail, loc);
    }
    assert (head + (loc + tail))[..5] == "  at ";
    head + (loc + tail)
  }

  function FunctionShown(f: Frame): string {
    if f.functionName == "" then "?" else f.functionName
  }

  predicate IsInApp(f: Frame) {
    f.inApp
  }

  /** The frames written out: the application's own, innermost first. */
  function InAppFrames(frames: seq<Frame>): (r: seq<Frame>)
    ensures forall k :: 0 <= k < |r| ==> r[k].inApp
    ensures forall i :: 0 <= i < |frames| && frames[i].inApp ==> frames[i] in r
    ensures IsSubseq(Reverse(r), frames)
    ensures Reverse(r) == Filter(frames, IsInApp)
  {
    var kept := Filter(frames, IsInApp);
    var r := Reverse(kept);
    FilterIsSubseq(frames, IsInApp);
    ReverseReverse(kept);
    forall i | 0 <= i < |frames| && frames[i].inApp
      ensures frames[i] in r
    {
      var k := FilterKeeps(frames, IsInApp, i);
      assert r[|kept| - 1 - k] == frames[i];
    }
    r
  }

  /** The first line of an exception's text: `<type or Error>: <message or "">`. */
  function HeadLine(v: ExceptionValue): string {
    OrElse(v.errorType, "Error") + ": " + OrElse(v.message, "")
  }

  /** One line per frame written out. */
  function FrameLines(frames: seq<Frame>): (r: seq<string>)
    ensures |r| == |frames| && forall k :: 0 <= k < |r| ==> r[k] == FrameLine(frames[k])
  {
    seq(|frames|, k requires 0 <= k < |frames| => FrameLine(frames[k]))
  }

  /** An exception whose texts hold no line break and whose type does not
      start with whitespace, so its block can be read back line by line. */
  predicate OneLineValue(v: ExceptionValue) {
    var frames := InAppFrames(v.frames.GetOr([]));
    '\n' !in OrElse(v.errorType, "Error") && '\n' !in OrElse(v.message, "")
    && !IsWhitespace(OrElse(v.errorType, "Error")[0])
    && forall k :: 0 <= k < |frames| ==> '\n' !in FunctionShown(frames[k]) && '\n' !in frames[k].filename
  }

  /** The lines of a one-line exception's block: the head line and one line
      per in-app frame; without in-app frames, the head line trimmed. */
  function BlockLines(v: ExceptionValue): seq<string> {
    var frames := InAppFrames(v.frames.GetOr([]));
    if frames == [] then [Trim(HeadLine(v))] else [HeadLine(v)] + FrameLines(frames)
  }

  /** The text of one exception: its type and message, then its frames, one
      per line; trimmed. Its lines read back as the head line and the frame
      lines. */
  function ValueBlock(v: ExceptionValue): (r: string)
    ensures ':' in r
    ensures OneLineValue(v) ==> Split(r, '\n') == BlockLines(v)
  {
    ValueBlockColon(v);
    if OneLineValue(v) then
      ValueBlockLines(v);
      Trim(BlockText(v))
    else Trim(BlockText(v))
  }

  /** The block before trimming: the head line, a line break, the frame lines. */
  function BlockText(v: ExceptionValue): string {
    HeadLine(v) + "\n" + Join(FrameLines(InAppFrames(v.frames.GetOr([]))), "\n")
  }

  /** The colon after the type survives the trim. */
  lemma ValueBlockColon(v: ExceptionValue)
    ensures ':' in Trim(BlockText(v))
  {
    var head := OrElse(v.errorType, "Error") + ": ";
    assert BlockText(v)[|head| - 2] == ':';
    TrimKeeps(BlockText(v), |head| - 2);
  }

  lemma ValueBlockLines(v: ExceptionValue)
    requires OneLineValue(v)
    ensures Split(Trim(BlockText(v)), '\n') == BlockLines(v)
  {
    var frames := InAppFrames(v.frames.GetOr([]));
    var lines := FrameLines(frames);
    var h := HeadLine(v);
    assert h[0] == OrElse(v.errorType, "Error")[0];
    assert '\n' !in h;
    if frames == [] {
      TrimmedHead(h);
    } else {
      forall k | 0 <= k < |lines|
        ensures '\n' !in lines[k]
      {
        FrameLineOnOneLine(frames[k]);
      }
      TrimmedLines(h, lines);
    }
  }

  /** A one-line head and no lines read back as the head trimmed. */
  lemma TrimmedHead(h: string)
    requires h != [] && !IsWhitespace(h[0]) && '\n' !in h
    ensures Split(Trim(h + "\n" + Join([], "\n")), '\n') == [Trim(h)]
  {
    assert h + "\n" + Join([], "\n") == h + "\n";
    TrimHeadNewline(h);
    TrimChars(h);
    SplitNoSeparator(Trim(h), '\n');
  }

  /** A one-line head followed by frame lines, the last ending with ')',
      reads back as the head and the lines. */
  lemma TrimmedLines(h: string, lines: seq<string>)
    requires h != [] && !IsWhitespace(h[0]) && '\n' !in h
    requires |lines| >= 1 && forall k :: 0 <= k < |lines| ==> '\n' !in lines[k]
    requires var last := lines[|lines| - 1]; last != [] && last[|last| - 1] == ')'
    ensures Split(Trim(h + "\n" + Join(lines, "\n")), '\n') == [h] + lines
  {
    var s := h + "\n" + Join(lines, "\n");
    JoinEndsWithLast(lines, "\n");
    assert s[0] == h[0];
    assert s[|s| - 1] == ')';
    assert Trim(s) == s;
    var parts := [h] + lines;
    assert parts[1..] == lines;
    assert Join(parts, "\n") == s;
    SplitJoin(parts, '\n');
  }

  /** A trailing line break goes with the trim of a text that starts with
      something other than whitespace. */
  lemma TrimHeadNewline(h: string)
    requires h != [] && !IsWhitespace(h[0])
    ensures Trim(h + "\n") == Trim(h)
  {
    var t := h + "\n";
    assert t[..|t| - 1] == h;
    assert TrimStart(t) == t;
    assert TrimStart(h) == h;
  }

  lemma FrameLineOnOneLine(f: Frame)
    requires '\n' !in FunctionShown(f) && '\n' !in f.filename
    ensures '\n' !in FrameLine(f)
  {
    if '\n' in IntToString(f.lineNo) {
      IntToStringChars(f.lineNo, '\n');
    }
    if '\n' in IntToString(f.colNo) {
      IntToStringChars(f.colNo, '\n');
    }
    assert FrameLine(f) == "  at " + FunctionShown(f) + " (" + f.filename + ":"
                          + IntToString(f.lineNo) + ":" + IntToString(f.colNo) + ")";
  }

  /** The first entry of type "exception", if any. */
  function ExceptionEntry(entries: seq<Entry>): (r: Option<Entry>)
    ensures r.Some? ==> r.value in entries && r.value.entryType == "exception"
    ensures r.None? <==> forall i :: 0 <= i < |entries| ==> entries[i].entryType != "exception"
    decreases |entries|
  {
    if entries == [] then None
    else if entries[0].entryType == "exception" then Some(entries[0])
    else ExceptionEntry(entries[1..])
  }

  /** The exceptions of the latest event, when it has an exception entry
      with at least one value. */
  function ExceptionValues(event: Option<Event>): Option<seq<ExceptionValue>> {
    if event.None? then None
    else match ExceptionEntry(event.value.entries)
      case None => None
      case Some(e) => if e.values.None? || e.values.value == [] then None else e.values
  }

  /** The blocks of the exceptions, in order. */
  function ValueBlocks(values: seq<ExceptionValue>): (r: seq<string>)
    ensures |r| == |values| && forall k :: 0 <= k < |r| ==> r[k] == ValueBlock(values[k])
    decreases |values|
  {
    if values == [] then [] else [ValueBlock(values[0])] + ValueBlocks(values[1..])
  }

  /** The stack trace recorded for an issue: one block per exception,
      separated by a blank line. There are three outcomes: no event, an event
      without exceptions, and the joined blocks, whose text always shows a
      colon, which neither placeholder does. Read line by line, the trace
      gives back each block's lines (`StackTraceLines`). */
  function StackTraceFromEvent(event: Option<Event>): (r: string)
    ensures event.None? ==> r == NoEventText
    ensures event.Some? && ExceptionValues(event).None? ==> r == NoStackTraceText
    ensures ExceptionValues(event).Some? ==> r == Join(ValueBlocks(ExceptionValues(event).value), "\n\n")
    ensures ExceptionValues(event).Some? <==> ':' in r
  {
    PlaceholderFacts();
    if event.None? then NoEventText
    else match ExceptionValues(event)
      case None => NoStackTraceText
      case Some(values) =>
        JoinKeeps(ValueBlocks(values), "\n\n", 0, ':');
        Join(ValueBlocks(values), "\n\n")
  }

  /** The lines of a trace: each block's lines, with an empty line between
      two blocks. */
  function TraceLines(values: seq<ExceptionValue>): seq<string> {
    BlankSeparated(seq(|values|, k requires 0 <= k < |values| => BlockLines(values[k])))
  }

  /** Runs of lines with an empty line between two runs. */
  function BlankSeparated(runs: seq<seq<string>>): seq<string>
    decreases |runs|
  {
    if |runs| <= 1 then (if runs == [] then [] else runs[0])
    else runs[0] + [""] + BlankSeparated(runs[1..])
  }

  /** Read line by line, the trace of one-line exceptions is the lines of
      each block in order, a blank line between two blocks. */
  lemma StackTraceLines(event: Option<Event>)
    requires ExceptionValues(event).Some?
    requires forall k :: 0 <= k < |ExceptionValues(event).value| ==> OneLineValue(ExceptionValues(event).value[k])
    ensures Split(StackTraceFromEvent(event), '\n') == TraceLines(ExceptionValues(event).value)
  {
    var values := ExceptionValues(event).value;
    var runs := seq(|values|, k requires 0 <= k < |values| => BlockLines(values[k]));
    var blocks := ValueBlocks(values);
    forall k | 0 <= k < |values|
      ensures |runs[k]| >= 1 && (forall j :: 0 <= j < |runs[k]| ==> '\n' !in runs[k][j])
              && Join(runs[k], "\n") == blocks[k]
    {
      BlockJoinsBack(values[k]);
    }
    RunsJoin(runs, blocks);
    SplitJoin(TraceLines(values), '\n');
  }

  /** Runs of one-line texts, each joined by a line break into its block,
      separated by empty lines, join into the blocks separated by blank
      lines. */
  lemma {:induction false} RunsJoin(runs: seq<seq<string>>, blocks: seq<string>)
    requires |runs| == |blocks| >= 1
    requires forall k :: 0 <= k < |runs| ==>
               |runs[k]| >= 1 && (forall j :: 0 <= j < |runs[k]| ==> '\n' !in runs[k][j])
               && Join(runs[k], "\n") == blocks[k]
    ensures |BlankSeparated(runs)| >= 1
    ensures forall k :: 0 <= k < |BlankSeparated(runs)| ==> '\n' !in BlankSeparated(runs)[k]
    ensures Join(BlankSeparated(runs), "\n") == Join(blocks, "\n\n")
    decreases |runs|
  {
    if |runs| > 1 {
      RunsJoin(runs[1..], blocks[1..]);
      var tl := BlankSeparated(runs[1..]);
      BlankLineBetween(runs[0], blocks[0], tl, Join(blocks[1..], "\n\n"));
      LinesOnOneLine(runs[0], tl);
    }
  }

  /** A one-line exception's block is the join of its lines. */
  lemma BlockJoinsBack(v: ExceptionValue)
    requires OneLineValue(v)
    ensures |BlockLines(v)| >= 1
    ensures forall k :: 0 <= k < |BlockLines(v)| ==> '\n' !in BlockLines(v)[k]
    ensures Join(BlockLines(v), "\n") == ValueBlock(v)
  {
    var b := ValueBlock(v);
    assert Split(b, '\n') == BlockLines(v);
    SplitPiecesHaveNoSeparator(b, '\n');
    JoinSplit(b, '\n');
  }

  /** Two joined line runs with an empty line between are the two texts
      separated by a blank line. */
  lemma BlankLineBetween(bl: seq<string>, b: string, tl: seq<string>, t: string)
    requires |bl| >= 1 && |tl| >= 1
    requires Join(bl, "\n") == b && Join(tl, "\n") == t
    ensures Join(bl + [""] + tl, "\n") == b + "\n\n" + t
  {
    JoinAppend(bl + [""], tl, "\n");
    JoinAppend(bl, [""], "\n");
  }

  lemma LinesOnOneLine(bl: seq<string>, tl: seq<string>)
    requires forall k :: 0 <= k < |bl| ==> '\n' !in bl[k]
    requires forall k :: 0 <= k < |tl| ==> '\n' !in tl[k]
    ensures forall k :: 0 <= k < |bl + [""] + tl| ==> '\n' !in (bl + [""] + tl)[k]
  {
  }

  lemma PlaceholderFacts()
    ensures ':' !in NoEventText && ':' !in NoStackTraceText
  {
  }

  /** An event whose first exception entry lists no exception gives the
      "no stack trace" text. */
  lemma NoValuesNoStackTrace(entries: seq<Entry>, tags: Option<seq<Tag>>, i: nat)
    requires i < |entries| && entries[i].entryType == "exception" && entries[i].values.GetOr([]) == []
    requires forall j :: 0 <= j < i ==> entries[j].entryType != "exception"
    ensures StackTraceFromEvent(Some(Event(entries, tags))) == NoStackTraceText
  {
    var e := ExceptionEntry(entries);
    assert e == ExceptionEntry(entries[i..]) by {
      FirstExceptionFrom(entries, i);
    }
  }

  lemma {:induction false} FirstExceptionFrom(entries: seq<Entry>, i: nat)
    requires i <= |entries|
    requires forall j :: 0 <= j < i ==> entries[j].entryType != "exception"
    ensures ExceptionEntry(entries) == ExceptionEntry(entries[i..])
    decreases i
  {
    if i > 0 {
      FirstExceptionFrom(entries[1..], i - 1);
      assert entries[1..][i - 1..] == entries[i..];
    }
  }

  // ---------------------------------------------------------------------
  // Tags, project slug and the record written

  /** `Object.fromEntries` of the tag pairs: a later pair with the same key
      replaces an earlier one. */
  function TagMap(tags: seq<Tag>): (m: map<string, string>)
    ensures forall k :: k in m <==> exists i :: 0 <= i < |tags| && tags[i].key == k
    decreases |tags|
  {
    if tags == [] then map[]
    else
      var init, last := tags[..|tags| - 1], tags[|tags| - 1];
      var m := TagMap(init);
      assert forall i :: 0 <= i < |init| ==> init[i] == tags[i];
      m[last.key := last.value]
  }

  /** The value kept for a key is that of its last pair. */
  lemma {:induction false} LastTagWins(tags: seq<Tag>, i: nat)
    requires i < |tags|
    requires forall j :: i < j < |tags| ==> tags[j].key != tags[i].key
    ensures TagMap(tags)[tags[i].key] == tags[i].value
    decreases |tags|
  {
    if i < |tags| - 1 {
      var init := tags[..|tags| - 1];
      assert init[i] == tags[i];
      LastTagWins(init, i);
    }
  }

  /** `issue.project?.slug ?? "unknown"`: only an absent slug is replaced;
      an empty one is kept. */
  function ProjectSlug(project: Option<ProjectRef>): (r: string)
    ensures project.Some? && project.value.slug.Some? ==> r == project.value.slug.value
    ensures (project.None? || project.value.slug.None?) ==> r == "unknown"
  {
    match project
    case None => "unknown"
    case Some(p) => p.slug.GetOr("unknown")
  }

  /** The record written for an issue and its latest event. */
  function Fetched(issue: ApiIssue, event: Option<Event>): (r: SentryIssue)
    ensures r.id == issue.id && r.shortId == issue.shortId && r.title == issue.title
            && r.culprit == issue.culprit && r.lastSeen == issue.lastSeen
    ensures r.count == issue.count && r.level == issue.level && r.firstSeen == issue.firstSeen
    ensures r.project == ProjectSlug(issue.project) && r.stackTrace == StackTraceFromEvent(event)
    ensures r.tags == Some(TagMap(if event.None? then [] else event.value.tags.GetOr([])))
    ensures forall k :: k in r.tags.value <==>
              event.Some? && event.value.tags.Some? && exists i :: 0 <= i < |event.value.tags.value| && event.value.tags.value[i].key == k
  {
    var tags := if event.None? then [] else event.value.tags.GetOr([]);
    SentryIssue(issue.id, ProjectSlug(issue.project), issue.shortId, issue.title, issue.culprit,
                issue.count, issue.level, issue.firstSeen, issue.lastSeen,
                StackTraceFromEvent(event), Some(TagMap(tags)))
  }

  /** The issues of all projects, in project order; a failed request
      contributes none. */
  function AllIssues(perProject: seq<Option<seq<ApiIssue>>>): (r: seq<ApiIssue>)
    ensures forall k :: 0 <= k < |perProject| && perProject[k].Some? ==>
              forall x :: x in perProject[k].value ==> x in r
    ensures r == Flatten(ProjectIssues(perProject))
    decreases |perProject|
  {
    if perProject == [] then []
    else
      assert ProjectIssues(perProject)[1..] == ProjectIssues(perProject[1..]);
      perProject[0].GetOr([]) + AllIssues(perProject[1..])
  }

  /** Each project's issues, none for a failed request. */
  function ProjectIssues(perProject: seq<Option<seq<ApiIssue>>>): (r: seq<seq<ApiIssue>>)
    ensures |r| == |perProject|
  {
    seq(|perProject|, k requires 0 <= k < |perProject| => perProject[k].GetOr([]))
  }

  /** `.flat()` over the projects: the issues of the first projects, then
      those of the rest, each project's issues kept with their repetitions. */
  lemma {:induction false} AllIssuesAppend(a: seq<Option<seq<ApiIssue>>>, b: seq<Option<seq<ApiIssue>>>)
    ensures AllIssues(a + b) == AllIssues(a) + AllIssues(b)
    ensures AllIssues([]) == [] && (forall p :: AllIssues([p]) == p.GetOr([]))
    decreases |a|
  {
    if a == [] {
      assert a + b == b;
    } else {
      assert (a + b)[0] == a[0];
      assert (a + b)[1..] == a[1..] + b;
      AllIssuesAppend(a[1..], b);
    }
    forall p: Option<seq<ApiIssue>> ensures AllIssues([p]) == p.GetOr([]) {
      assert [p][1..] == [];
    }
  }

  /** The records of the fetched issues, before sorting. */
  function FetchedAll(issues: seq<ApiIssue>, latestEvent: string -> Option<Event>): (r: seq<SentryIssue>)
    ensures |r| == |issues|
    ensures forall k :: 0 <= k < |issues| ==> r[k] == Fetched(issues[k], latestEvent(issues[k].id))
  {
    seq(|issues|, k requires 0 <= k < |issues| => Fetched(issues[k], latestEvent(issues[k].id)))
  }

  // ---------------------------------------------------------------------
  // Output order

  /** Most recently seen first; `seenAt` reads a `lastSeen` timestamp. */
  ghost predicate NewestFirst(s: seq<SentryIssue>, seenAt: string -> int) {
    forall p, q :: 0 <= p < q < |s| ==> seenAt(s[p].lastSeen) >= seenAt(s[q].lastSeen)
  }

  /** `s[..n]` is newest first, except possibly for the element at `hole`. */
  ghost predicate NewestFirstExcept(s: seq<SentryIssue>, n: nat, hole: int, seenAt: string -> int)
    requires n <= |s|
  {
    forall p, q :: 0 <= p < q < n && q != hole ==> seenAt(s[p].lastSeen) >= seenAt(s[q].lastSeen)
  }

  /** `out.sort((a, b) => seen(b) - seen(a))`, as an insertion sort. */
  method SortByLastSeen(a: array<SentryIssue>, seenAt: string -> int)
    modifies a
    ensures NewestFirst(a[..], seenAt)
    ensures multiset(a[..]) == multiset(old(a[..]))
  {
    var i := 0;
    while i < a.Length
      invariant 0 <= i <= a.Length
      invariant NewestFirstExcept(a[..], i, -1, seenAt)
      invariant multiset(a[..]) == multiset(old(a[..]))
    {
      InsertIntoPrefix(a, i, seenAt);
      i := i + 1;
    }
  }

  /** Moves `a[i]` left into the sorted prefix `a[..i]`, past every
      neighbour that is older; it stops at an equally recent one. */
  method InsertIntoPrefix(a: array<SentryIssue>, i: nat, seenAt: string -> int)
    requires i < a.Length
    requires NewestFirstExcept(a[..], i, -1, seenAt)
    modifies a
    ensures NewestFirstExcept(a[..], i + 1, -1, seenAt)
    ensures multiset(a[..]) == multiset(old(a[..]))
  {
    var j := i;
    while j > 0 && seenAt(a[j - 1].lastSeen) < seenAt(a[j].lastSeen)
      invariant 0 <= j <= i
      invariant NewestFirstExcept(a[..], i + 1, j, seenAt)
      invariant 0 < j < i ==> seenAt(a[j - 1].lastSeen) >= seenAt(a[j + 1].lastSeen)
      invariant multiset(a[..]) == multiset(old(a[..]))
    {
      ghost var before := a[..];
      a[j - 1], a[j] := a[j], a[j - 1];
      SwapKeepsOrder(before, a[..], i + 1, j, seenAt);
      j := j - 1;
    }
  }

  lemma SwapKeepsOrder(s: seq<SentryIssue>, t: seq<SentryIssue>, n: nat, j: nat, seenAt: string -> int)
    requires 0 < j < n <= |s| && NewestFirstExcept(s, n, j, seenAt)
    requires seenAt(s[j - 1].lastSeen) < seenAt(s[j].lastSeen)
    requires t == s[j - 1 := s[j]][j := s[j - 1]]
    ensures NewestFirstExcept(t, n, j - 1, seenAt)
    ensures 0 < j - 1 ==> seenAt(t[j - 2].lastSeen) >= seenAt(t[j].lastSeen)
    ensures multiset(t) == multiset(s)
  {
  }

  /** The fetcher's output: a record for every issue of every project, most
      recently seen first. */
  method FetchIssues(perProject: seq<Option<seq<ApiIssue>>>, latestEvent: string -> Option<Event>,
                     seenAt: string -> int) returns (out: array<SentryIssue>)
    ensures multiset(out[..]) == multiset(FetchedAll(AllIssues(perProject), latestEvent))
    ensures NewestFirst(out[..], seenAt)
  {
    var records := FetchedAll(AllIssues(perProject), latestEvent);
    out := new SentryIssue[|records|](k requires 0 <= k < |records| => records[k]);
    assert out[..] == records;
    SortByLastSeen(out, seenAt);
  }
}
