/** The reconciler that keeps one GitHub issue per unresolved Sentry issue.
    For each Sentry issue it looks for a tracked GitHub issue whose title
    carries `[Sentry <shortId>]`: with none it opens one, a closed one is
    reopened, and an open one is queued again once the cooldown since the
    last dispatch (or since the issue was opened) has passed. The issues to
    fix are returned in input order together with four counters. Times are
    milliseconds; `now` is one reading of the clock for the whole run. */
module SentrySync {
  import opened Wrappers
  import opened Text
  import opened Seqs
  import opened IssueTracker
  import opened SentryTypes

  /** The REST API's page size, which the page loops ask for. */
  const PerPage: nat := 100
  const SentryLabel := "sentry"
  const CreatedLabels := ["bug", "needs-test", SentryLabel]
  const DiscussionPrefix := "[Discussion]"
  const MsPerHour := 1000 * 60 * 60

  // ---------------------------------------------------------------------
  // Paging

  /** The response to the request for page `page` (counted from 1) of a
      listing served as `pages`; past the last page the API answers with
      an empty page. */
  function PageAt<T>(pages: seq<seq<T>>, page: nat): seq<T> {
    if 1 <= page <= |pages| then pages[page - 1] else []
  }

  /** An issue the reconciler tracks: neither a pull request nor a
      discussion. */
  predicate IsTracked(x: Issue) {
    !x.isPullRequest && !StartsWith(x.title, DiscussionPrefix)
  }

  function TrackedOnly(chunk: seq<Issue>): (r: seq<Issue>)
    ensures forall k :: 0 <= k < |r| ==> IsTracked(r[k])
  {
    Filter(chunk, IsTracked)
  }

  /** A comment as the reconciler reads it: its body, or "" for none. */
  datatype ListedComment = ListedComment(body: string, createdAt: int)

  function ListedBodies(chunk: seq<Comment>): (r: seq<ListedComment>)
    ensures |r| == |chunk|
    ensures forall k :: 0 <= k < |r| ==> r[k].createdAt == chunk[k].createdAt
    ensures forall k :: 0 <= k < |r| ==> r[k].body == if chunk[k].body.Some? then chunk[k].body.value else ""
  {
    seq(|chunk|, k requires 0 <= k < |chunk| => ListedComment(chunk[k].body.GetOr(""), chunk[k].createdAt))
  }

  lemma TrackedOnlyDistributes()
    ensures Distributes(TrackedOnly)
  {
    forall a: seq<Issue>, b: seq<Issue> ensures TrackedOnly(a + b) == TrackedOnly(a) + TrackedOnly(b) {
      FilterAppend(a, b, IsTracked);
    }
  }

  lemma ListedBodiesDistributes()
    ensures Distributes(ListedBodies)
  {
    forall a: seq<Comment>, b: seq<Comment> ensures ListedBodies(a + b) == ListedBodies(a) + ListedBodies(b) {
      assert |ListedBodies(a + b)| == |ListedBodies(a) + ListedBodies(b)|;
    }
  }

  /** One turn of a page loop: the page asked for, then the rest. */
  lemma {:induction false} CollectFrom<T, U>(pages: seq<seq<T>>, page: nat, size: nat, f: seq<T> -> seq<U>)
    requires 1 <= page <= |pages| + 1
    ensures var chunk := PageAt(pages, page);
            Collect(pages[page - 1..], size, f)
            == if |chunk| == 0 then [] else f(chunk) + (if |chunk| < size then [] else Collect(pages[page..], size, f))
  {
    if page <= |pages| {
      assert pages[page - 1..][0] == pages[page - 1];
      assert pages[page - 1..][1..] == pages[page..];
    } else {
      assert pages[page - 1..] == [];
    }
  }

  /** `listLabeledIssues`: asks for pages 1, 2, ... until a page is empty or
      shorter than `PerPage`, and keeps the tracked issues of each page; a
      page is counted before it is filtered. */
  method ListLabeledIssues(pages: seq<seq<Issue>>) returns (all: seq<Issue>)
    ensures all == Collect(pages, PerPage, TrackedOnly)
  {
    all := [];
    var page := 1;
    while true
      invariant 1 <= page <= |pages| + 1
      invariant Collect(pages, PerPage, TrackedOnly) == all + Collect(pages[page - 1..], PerPage, TrackedOnly)
      decreases |pages| + 1 - page
    {
      var chunk := PageAt(pages, page);
      CollectFrom(pages, page, PerPage, TrackedOnly);
      if |chunk| == 0 {
        break;
      }
      AppendAssoc(all, TrackedOnly(chunk), if |chunk| < PerPage then [] else Collect(pages[page..], PerPage, TrackedOnly));
      all := all + TrackedOnly(chunk);
      if |chunk| < PerPage {
        break;
      }
      page := page + 1;
    }
  }

  /** `listComments`: the same page loop over an issue's comments. */
  method ListComments(pages: seq<seq<Comment>>) returns (out: seq<ListedComment>)
    ensures out == Collect(pages, PerPage, ListedBodies)
  {
    out := [];
    var page := 1;
    while true
      invariant 1 <= page <= |pages| + 1
      invariant Collect(pages, PerPage, ListedBodies) == out + Collect(pages[page - 1..], PerPage, ListedBodies)
      decreases |pages| + 1 - page
    {
      var chunk := PageAt(pages, page);
      CollectFrom(pages, page, PerPage, ListedBodies);
      if |chunk| == 0 {
        break;
      }
      AppendAssoc(out, ListedBodies(chunk), if |chunk| < PerPage then [] else Collect(pages[page..], PerPage, ListedBodies));
      out := out + ListedBodies(chunk);
      if |chunk| < PerPage {
        break;
      }
      page := page + 1;
    }
  }

  /** Listing the tracker's issues with a label, page by page, gives exactly
      the tracked ones among them, in tracker order. */
  lemma ListingIsComplete(issues: seq<Issue>)
    ensures Collect(Chunks(issues, PerPage), PerPage, TrackedOnly) == TrackedOnly(issues)
  {
    TrackedOnlyDistributes();
    CollectChunks(issues, PerPage, TrackedOnly);
  }

  /** Listing an issue's comments page by page gives all of them, with
      absent bodies read as "". */
  lemma CommentListingIsComplete(comments: seq<Comment>)
    ensures Collect(Chunks(comments, PerPage), PerPage, ListedBodies) == ListedBodies(comments)
  {
    ListedBodiesDistributes();
    CollectChunks(comments, PerPage, ListedBodies);
  }

  // ---------------------------------------------------------------------
  // Reading the dispatch ledger

  predicate IsDispatchComment(c: ListedComment) {
    Contains(c.body, DispatchMarker)
  }

  /** `parseLastDispatchTimestamp`: the creation time of the latest comment
      carrying the dispatch marker, if any does. */
  function ParseLastDispatchTimestamp(comments: seq<ListedComment>): (r: Option<int>)
    ensures r.None? <==> forall i :: 0 <= i < |comments| ==> !IsDispatchComment(comments[i])
    ensures r.Some? ==> exists i :: 0 <= i < |comments| && IsDispatchComment(comments[i]) && comments[i].createdAt == r.value
    ensures r.Some? ==> forall i :: 0 <= i < |comments| && IsDispatchComment(comments[i]) ==> comments[i].createdAt <= r.value
    decreases |comments|
  {
    if comments == [] then None
    else
      var earlier := comments[..|comments| - 1];
      var last := comments[|comments| - 1];
      var before := ParseLastDispatchTimestamp(earlier);
      assert forall i :: 0 <= i < |earlier| ==> comments[i] == earlier[i];
      if !IsDispatchComment(last) then before
      else if before.Some? && before.value >= last.createdAt then before
      else Some(last.createdAt)
  }

  /** A comment without the marker does not move the last dispatch. */
  lemma LastDispatchIgnoresUnmarked(comments: seq<ListedComment>, c: ListedComment)
    requires !IsDispatchComment(c)
    ensures ParseLastDispatchTimestamp(comments + [c]) == ParseLastDispatchTimestamp(comments)
  {
    assert (comments + [c])[..|comments|] == comments;
  }

  /** When the last attempt was: the last dispatch, else the opening of the
      tracked issue. */
  function LastAttemptAt(comments: seq<Comment>, openedAt: int): int {
    ParseLastDispatchTimestamp(ListedBodies(comments)).GetOr(openedAt)
  }

  /** Comparing `elapsed < hours * 3600000` in whole milliseconds is the
      script's comparison of elapsed hours, taken over the reals. */
  lemma MsComparisonIsHours(elapsed: int, hours: int)
    ensures elapsed < hours * MsPerHour <==> elapsed as real / (MsPerHour as real) < hours as real
  {
    var e := elapsed as real;
    var h := MsPerHour as real;
    assert e / h * h == e;
    if e / h < hours as real {
      assert e / h * h < hours as real * h;
    } else {
      assert e / h * h >= hours as real * h;
    }
  }

  /** `elapsedHours < cooldownHours`. The cooldown is `Number.parseInt` of a
      flag, `None` when that is NaN; a comparison with NaN is false, so a NaN
      cooldown never holds an issue back. */
  function InCooldown(now: int, lastAttempt: int, cooldownHours: Option<int>): (r: bool)
    ensures r <==> cooldownHours.Some?
                   && (now - lastAttempt) as real / (MsPerHour as real) < cooldownHours.value as real
  {
    if cooldownHours.Some? then
      MsComparisonIsHours(now - lastAttempt, cooldownHours.value);
      now - lastAttempt < cooldownHours.value * MsPerHour
    else false
  }

  // ---------------------------------------------------------------------
  // What the reconciler writes

  /** The title token that ties a GitHub issue to a Sentry issue. */
  function SentryToken(shortId: string): (r: string)
    ensures |r| == |shortId| + 9 && r[8..|r| - 1] == shortId
  {
    "[Sentry " + shortId + "]"
  }

  /** The title of a created issue: its token, a space and the Sentry title. */
  function CreatedTitle(x: SentryIssue): (r: string)
    ensures StartsWith(r, SentryToken(x.shortId)) && Contains(r, SentryToken(x.shortId))
    ensures r[|SentryToken(x.shortId)|..] == " " + x.title
  {
    var token := SentryToken(x.shortId);
    ContainsPrefix(token, " " + x.title);
    assert token + " " + x.title == token + (" " + x.title);
    token + " " + x.title
  }

  /** JavaScript's `s || fallback` on a string. */
  function OrDefault(s: string, fallback: string): (r: string)
    ensures r == s || (s == "" && r == fallback)
  {
    if s == "" then fallback else s
  }

  /** The lines of `issueBody`. */
  function IssueBodyLines(x: SentryIssue): seq<string> {
    [TrackMarker,
     "",
     "## Error Details",
     "",
     "| Field | Value |",
     "|---|---|",
     "| Project | `" + x.project + "` |",
     "| Sentry ID | `" + x.shortId + "` |",
     "| Level | " + x.level + " |",
     "| Culprit | `" + OrDefault(x.culprit, "unknown") + "` |",
     "| Events | " + x.count + " |",
     "| Last seen | " + x.lastSeen + " |",
     "",
     "## Stack Trace",
     "",
     "```",
     OrDefault(x.stackTrace, "No stack trace available"),
     "```",
     "",
     "## Action Required",
     "",
     "1. Add/extend a test that reproduces the issue.",
     "2. Fix root cause with minimal scope.",
     "3. Link fix PR in this issue.",
     "",
     "_Created by AgentFix Sentry pipeline_"]
  }

  /** The body of a new issue; it starts with the tracking marker. */
  function IssueBody(x: SentryIssue): (r: string)
    ensures StartsWith(r, TrackMarker)
  {
    var lines := IssueBodyLines(x);
    assert Join(lines, "\n") == TrackMarker + "\n" + Join(lines[1..], "\n");
    assert (TrackMarker + "\n" + Join(lines[1..], "\n"))[..|TrackMarker|] == TrackMarker;
    Join(lines, "\n")
  }

  const ReopenCommentLines := [TrackMarker, "", "Sentry still reports this issue unresolved.", "Auto-reopened by AgentFix."]

  /** The comment on a reopened issue: it starts with the tracking marker
      and has no dispatch marker, so it never reads as a dispatch. */
  function ReopenComment(): (r: string)
    ensures StartsWith(r, TrackMarker) && !Contains(r, DispatchMarker)
  {
    TrackedTextHasNoDispatchMarker(ReopenCommentLines);
    Join(ReopenCommentLines, "\n")
  }

  // Written in pieces, so that its characters are checked piece by piece.
  const RequeueHead := "Issue is still " + "unresolved in " + "Sentry and has " + "been re-queued " + "after "
  const RequeueTail := "h cooldown."

  /** The cooldown as the template literal prints it. */
  function HoursText(cooldownHours: Option<int>): string {
    match cooldownHours
    case Some(h) => IntToString(h)
    case None => "NaN"
  }

  function RequeueCommentLines(cooldownHours: Option<int>): seq<string> {
    [TrackMarker, "", RequeueHead + HoursText(cooldownHours) + RequeueTail]
  }

  /** The comment on a requeued issue: for every cooldown, NaN included, it
      starts with the tracking marker and has no dispatch marker. */
  function RequeueComment(cooldownHours: Option<int>): (r: string)
    ensures StartsWith(r, TrackMarker) && !Contains(r, DispatchMarker)
  {
    RequeueLineHasNoAngle(cooldownHours);
    TrackedTextHasNoDispatchMarker(RequeueCommentLines(cooldownHours));
    Join(RequeueCommentLines(cooldownHours), "\n")
  }

  /** The requeue line has no '<', whatever the cooldown. */
  lemma RequeueLineHasNoAngle(cooldownHours: Option<int>)
    ensures forall k :: 1 <= k < |RequeueCommentLines(cooldownHours)| ==> '<' !in RequeueCommentLines(cooldownHours)[k]
  {
    var n := HoursText(cooldownHours);
    if cooldownHours.Some? && '<' in n {
      IntToStringChars(cooldownHours.value, '<');
    }
    var head, tail := RequeueHead, RequeueTail;
    assert '<' !in head && '<' !in tail;
    assert forall c :: c in head + n + tail ==> c in head || c in n || c in tail;
  }

  /** The issue `createIssue` opens for `x`. */
  function NewIssue(number: int, x: SentryIssue, now: int): Issue {
    Issue(number, CreatedTitle(x), Open, now, CreatedLabels, false, IssueBody(x), [])
  }

  // ---------------------------------------------------------------------
  // Matching

  /** `tracked.find(...)`: the position of the first tracked issue whose
      title contains the token of `shortId`. */
  function FindTracked(tracked: seq<Issue>, shortId: string): (r: Option<nat>)
    ensures r.Some? ==> r.value < |tracked| && Contains(tracked[r.value].title, SentryToken(shortId))
    ensures r.Some? ==> forall j :: 0 <= j < r.value ==> !Contains(tracked[j].title, SentryToken(shortId))
    ensures r.None? <==> forall j :: 0 <= j < |tracked| ==> !Contains(tracked[j].title, SentryToken(shortId))
    decreases |tracked|
  {
    if tracked == [] then None
    else if Contains(tracked[0].title, SentryToken(shortId)) then Some(0)
    else match FindTracked(tracked[1..], shortId)
      case None => None
      case Some(i) => Some(i + 1)
  }

  // ---------------------------------------------------------------------
  // The run

  datatype Counters = Counters(created: nat, reopened: nat, requeued: nat, skipped: nat)

  /** The tracker's issues, the next issue number, and what the run has
      gathered so far. */
  datatype RunState = RunState(issues: seq<Issue>, nextNumber: int, toFix: seq<TrackedIssue>, counters: Counters)

  function Start(issues: seq<Issue>, nextNumber: int): RunState {
    RunState(issues, nextNumber, [], Counters(0, 0, 0, 0))
  }

  /** What one turn of the loop does with a Sentry issue. */
  datatype Decision = Create | Reopen(number: int) | Skip | Requeue(number: int)

  /** The branches of the loop in `main` for the Sentry issue `x`, against
      the snapshot `tracked` taken before the loop and the tracker's
      current `issues`. */
  function Decide(issues: seq<Issue>, x: SentryIssue, tracked: seq<Issue>, cooldownHours: Option<int>, now: int): (r: Decision)
    ensures r == Create <==> FindTracked(tracked, x.shortId).None?
    ensures r != Create ==>
              var t := tracked[FindTracked(tracked, x.shortId).value];
              (r.Reopen? <==> t.state == Closed)
              && (r == Skip <==> t.state == Open && InCooldown(now, LastAttemptAt(CommentsOf(issues, t.number), t.createdAt), cooldownHours))
              && (r != Skip ==> r.number == t.number)
  {
    match FindTracked(tracked, x.shortId)
    case None => Create
    case Some(i) =>
      if tracked[i].state == Closed then Reopen(tracked[i].number)
      else if InCooldown(now, LastAttemptAt(CommentsOf(issues, tracked[i].number), tracked[i].createdAt), cooldownHours) then Skip
      else Requeue(tracked[i].number)
  }

  /** The issues a run has counted but not skipped. */
  function Handled(c: Counters): nat {
    c.created + c.reopened + c.requeued
  }

  /** Carrying out a decision. A skip only counts itself; every other
      decision adds one record and counts it. Only a creation adds an issue
      and uses up a number. */
  function Apply(st: RunState, x: SentryIssue, d: Decision, cooldownHours: Option<int>, now: int): (r: RunState)
    ensures |r.toFix| == |st.toFix| + (if d == Skip then 0 else 1)
    ensures Handled(r.counters) == Handled(st.counters) + (if d == Skip then 0 else 1)
    ensures r.counters.skipped == st.counters.skipped + (if d == Skip then 1 else 0)
    ensures r.nextNumber == st.nextNumber + (if d == Create then 1 else 0)
    ensures |r.issues| == |st.issues| + (if d == Create then 1 else 0)
  {
    match d
    case Create =>
      RunState(st.issues + [NewIssue(st.nextNumber, x, now)], st.nextNumber + 1,
               st.toFix + [TrackedIssue(x, st.nextNumber, Created)],
               st.counters.(created := st.counters.created + 1))
    case Reopen(number) =>
      RunState(WithComment(WithReopened(st.issues, number), number, Comment(Some(ReopenComment()), now)),
               st.nextNumber,
               st.toFix + [TrackedIssue(x, number, Reopened)],
               st.counters.(reopened := st.counters.reopened + 1))
    case Skip =>
      st.(counters := st.counters.(skipped := st.counters.skipped + 1))
    case Requeue(number) =>
      RunState(WithComment(st.issues, number, Comment(Some(RequeueComment(cooldownHours)), now)),
               st.nextNumber,
               st.toFix + [TrackedIssue(x, number, Requeued)],
               st.counters.(requeued := st.counters.requeued + 1))
  }

  /** One turn of the loop in `main`: a new issue, and a new number, exactly
      when nothing in the snapshot matches. */
  function Step(st: RunState, x: SentryIssue, tracked: seq<Issue>, cooldownHours: Option<int>, now: int): (r: RunState)
    ensures r.nextNumber == st.nextNumber + (if FindTracked(tracked, x.shortId).None? then 1 else 0)
    ensures |r.issues| == |st.issues| + (if FindTracked(tracked, x.shortId).None? then 1 else 0)
  {
    Apply(st, x, Decide(st.issues, x, tracked, cooldownHours, now), cooldownHours, now)
  }

  /** The loop in `main` over the Sentry issues `xs`. */
  function Run(st: RunState, xs: seq<SentryIssue>, tracked: seq<Issue>, cooldownHours: Option<int>, now: int): (r: RunState)
    ensures Handled(r.counters) + r.counters.skipped == Handled(st.counters) + st.counters.skipped + |xs|
    ensures |r.toFix| - |st.toFix| == Handled(r.counters) - Handled(st.counters)
    decreases |xs|
  {
    if xs == [] then st
    else Step(Run(st, xs[..|xs| - 1], tracked, cooldownHours, now), xs[|xs| - 1], tracked, cooldownHours, now)
  }

  /** The tracked snapshot a run starts from, newest issue first. */
  function Snapshot(issues: seq<Issue>): (r: seq<Issue>)
    ensures forall k :: 0 <= k < |r| ==> r[k] in issues && SentryLabel in r[k].labels && IsTracked(r[k])
  {
    SnapshotMembers(issues);
    TrackedOnly(Listed(issues, SentryLabel))
  }

  lemma SnapshotMembers(issues: seq<Issue>)
    ensures forall k :: 0 <= k < |TrackedOnly(Listed(issues, SentryLabel))| ==>
              var t := TrackedOnly(Listed(issues, SentryLabel))[k];
              t in issues && SentryLabel in t.labels
  {
    var hasLabel := (x: Issue) => SentryLabel in x.labels;
    var labeled := Labeled(issues, SentryLabel);
    var listed := Listed(issues, SentryLabel);
    forall k | 0 <= k < |TrackedOnly(listed)|
      ensures TrackedOnly(listed)[k] in issues && SentryLabel in TrackedOnly(listed)[k].labels
    {
      var j := FilterFrom(listed, IsTracked, k);
      assert listed[j] == labeled[|labeled| - 1 - j];
      var p := FilterFrom(issues, hasLabel, |labeled| - 1 - j);
      assert hasLabel(labeled[|labeled| - 1 - j]);
    }
  }

  /** The comments of issue `number`, listed page by page, read for the
      last dispatch; the issue's opening time when there is none. */
  method ReadLastAttempt(tracker: Tracker, number: int, openedAt: int) returns (lastAttemptAt: int)
    ensures lastAttemptAt == LastAttemptAt(CommentsOf(tracker.issues, number), openedAt)
  {
    var comments := ListComments(Chunks(tracker.Comments(number), PerPage));
    CommentListingIsComplete(tracker.Comments(number));
    var lastDispatchAt := ParseLastDispatchTimestamp(comments);
    lastAttemptAt := lastDispatchAt.GetOr(openedAt);
  }

  /** One turn of the loop in `main`. */
  method ReconcileOne(tracker: Tracker, tracked: seq<Issue>, issue: SentryIssue, cooldownHours: Option<int>, now: int,
                      toFix: seq<TrackedIssue>, counters: Counters)
    returns (toFix': seq<TrackedIssue>, counters': Counters)
    requires tracker.Valid()
    modifies tracker
    ensures tracker.Valid()
    ensures RunState(tracker.issues, tracker.nextNumber, toFix', counters')
         == Step(RunState(old(tracker.issues), old(tracker.nextNumber), toFix, counters), issue, tracked, cooldownHours, now)
  {
    var existing := FindTracked(tracked, issue.shortId);
    if existing.None? {
      var ghIssueNumber := tracker.CreateIssue(CreatedTitle(issue), IssueBody(issue), CreatedLabels, now);
      counters' := counters.(created := counters.created + 1);
      toFix' := toFix + [TrackedIssue(issue, ghIssueNumber, Created)];
      return;
    }
    var number := tracked[existing.value].number;
    if tracked[existing.value].state == Closed {
      tracker.Reopen(number);
      var _ := tracker.AddComment(number, ReopenComment(), now);
      counters' := counters.(reopened := counters.reopened + 1);
      toFix' := toFix + [TrackedIssue(issue, number, Reopened)];
      return;
    }
    var lastAttemptAt := ReadLastAttempt(tracker, number, tracked[existing.value].createdAt);
    if InCooldown(now, lastAttemptAt, cooldownHours) {
      counters' := counters.(skipped := counters.skipped + 1);
      toFix' := toFix;
      return;
    }
    var _ := tracker.AddComment(number, RequeueComment(cooldownHours), now);
    counters' := counters.(requeued := counters.requeued + 1);
    toFix' := toFix + [TrackedIssue(issue, number, Requeued)];
  }

  /** `main`: lists the tracked issues once, then reconciles the Sentry
      issues one by one, creating, reopening and commenting on the tracker. */
  method Reconcile(tracker: Tracker, sentryIssues: seq<SentryIssue>, cooldownHours: Option<int>, now: int)
    returns (toFix: seq<TrackedIssue>, counters: Counters)
    requires tracker.Valid()
    modifies tracker
    ensures tracker.Valid()
    ensures RunState(tracker.issues, tracker.nextNumber, toFix, counters)
         == Run(Start(old(tracker.issues), old(tracker.nextNumber)), sentryIssues, Snapshot(old(tracker.issues)), cooldownHours, now)
  {
    var tracked := ListLabeledIssues(Chunks(tracker.LabeledIssues(SentryLabel), PerPage));
    ListingIsComplete(tracker.LabeledIssues(SentryLabel));
    ghost var st0 := Start(tracker.issues, tracker.nextNumber);
    toFix := [];
    counters := Counters(0, 0, 0, 0);
    for i := 0 to |sentryIssues|
      invariant tracker.Valid()
      invariant RunState(tracker.issues, tracker.nextNumber, toFix, counters) == Run(st0, sentryIssues[..i], tracked, cooldownHours, now)
    {
      assert sentryIssues[..i + 1][..i] == sentryIssues[..i];
      toFix, counters := ReconcileOne(tracker, tracked, sentryIssues[i], cooldownHours, now, toFix, counters);
    }
    assert sentryIssues[..|sentryIssues|] == sentryIssues;
  }

  // ---------------------------------------------------------------------
  // What a run promises

  /** One turn either only counts a skip, or appends one record for `x` and
      counts it under its state. */
  lemma StepRecords(st: RunState, x: SentryIssue, tracked: seq<Issue>, cooldownHours: Option<int>, now: int)
    ensures var r := Step(st, x, tracked, cooldownHours, now);
            (r.toFix == st.toFix && r.counters == st.counters.(skipped := st.counters.skipped + 1))
            || (|r.toFix| == |st.toFix| + 1 && r.toFix[..|st.toFix|] == st.toFix && r.toFix[|st.toFix|].issue == x
                && r.counters.skipped == st.counters.skipped
                && Handled(r.counters) == Handled(st.counters) + 1)
  {
    var r := Step(st, x, tracked, cooldownHours, now);
    match Decide(st.issues, x, tracked, cooldownHours, now)
    case Create =>
      assert r.toFix == st.toFix + [TrackedIssue(x, st.nextNumber, Created)];
    case Reopen(number) =>
      assert r.toFix == st.toFix + [TrackedIssue(x, number, Reopened)];
    case Skip =>
    case Requeue(number) =>
      assert r.toFix == st.toFix + [TrackedIssue(x, number, Requeued)];
  }

  function IssuesOf(records: seq<TrackedIssue>): (r: seq<SentryIssue>)
    ensures |r| == |records|
  {
    seq(|records|, k requires 0 <= k < |records| => records[k].issue)
  }

  lemma StepFollowsInputOrder(st: RunState, x: SentryIssue, tracked: seq<Issue>, cooldownHours: Option<int>, now: int, xs: seq<SentryIssue>)
    requires IsSubseq(IssuesOf(st.toFix), xs)
    ensures IsSubseq(IssuesOf(Step(st, x, tracked, cooldownHours, now).toFix), xs + [x])
  {
    StepRecords(st, x, tracked, cooldownHours, now);
    RecordsFollow(st.toFix, Step(st, x, tracked, cooldownHours, now).toFix, x, xs);
  }

  /** Keeping the records, or adding one for `x`, follows the input order. */
  lemma RecordsFollow(before: seq<TrackedIssue>, after: seq<TrackedIssue>, x: SentryIssue, xs: seq<SentryIssue>)
    requires IsSubseq(IssuesOf(before), xs)
    requires after == before
             || (|after| == |before| + 1 && after[..|before|] == before && after[|before|].issue == x)
    ensures IsSubseq(IssuesOf(after), xs + [x])
  {
    if after == before {
      SubseqSkip(IssuesOf(before), xs, x);
    } else {
      assert after == before + [after[|before|]];
      assert IssuesOf(after) == IssuesOf(before) + [x];
      SubseqKeep(IssuesOf(before), xs, x);
    }
  }

  /** The records to fix follow the input order, one per kept Sentry issue. */
  lemma {:induction false} RunFollowsInputOrder(st: RunState, xs: seq<SentryIssue>, tracked: seq<Issue>, cooldownHours: Option<int>, now: int)
    requires st.toFix == []
    ensures IsSubseq(IssuesOf(Run(st, xs, tracked, cooldownHours, now).toFix), xs)
    decreases |xs|
  {
    if xs == [] {
      assert IssuesOf([]) == [];
    } else {
      var xs' := xs[..|xs| - 1];
      RunFollowsInputOrder(st, xs', tracked, cooldownHours, now);
      StepFollowsInputOrder(Run(st, xs', tracked, cooldownHours, now), xs[|xs| - 1], tracked, cooldownHours, now, xs');
      DropLastAppend(xs);
    }
  }

  /** Two Sentry issues with the same short id and no tracked issue both
      open a new GitHub issue: the snapshot is not refreshed in between. */
  lemma DuplicatesBothCreated(issues: seq<Issue>, nextNumber: int, x: SentryIssue, y: SentryIssue, tracked: seq<Issue>, cooldownHours: Option<int>, now: int)
    requires FindTracked(tracked, x.shortId).None? && y.shortId == x.shortId
    ensures var r := Run(Start(issues, nextNumber), [x, y], tracked, cooldownHours, now);
            r.toFix == [TrackedIssue(x, nextNumber, Created), TrackedIssue(y, nextNumber + 1, Created)]
            && r.counters == Counters(2, 0, 0, 0)
            && r.issues == issues + [NewIssue(nextNumber, x, now), NewIssue(nextNumber + 1, y, now)]
  {
    var st := Start(issues, nextNumber);
    RunSnoc(st, [], x, tracked, cooldownHours, now);
    RunSnoc(st, [x], y, tracked, cooldownHours, now);
    CreatingStep(st, x, tracked, cooldownHours, now);
    CreatingStep(Step(st, x, tracked, cooldownHours, now), y, tracked, cooldownHours, now);
  }

  /** The run over one more Sentry issue is one more turn. */
  lemma RunSnoc(st: RunState, xs: seq<SentryIssue>, x: SentryIssue, tracked: seq<Issue>, cooldownHours: Option<int>, now: int)
    ensures Run(st, xs + [x], tracked, cooldownHours, now) == Step(Run(st, xs, tracked, cooldownHours, now), x, tracked, cooldownHours, now)
  {
    assert (xs + [x])[..|xs|] == xs;
  }

  /** A turn with no match opens the next issue and records it. */
  lemma CreatingStep(st: RunState, x: SentryIssue, tracked: seq<Issue>, cooldownHours: Option<int>, now: int)
    requires FindTracked(tracked, x.shortId).None?
    ensures Step(st, x, tracked, cooldownHours, now)
            == RunState(st.issues + [NewIssue(st.nextNumber, x, now)], st.nextNumber + 1,
                        st.toFix + [TrackedIssue(x, st.nextNumber, Created)],
                        st.counters.(created := st.counters.created + 1))
  {
  }

  /** An open tracked issue whose last attempt is exactly the cooldown ago
      is queued again: the comparison is strict. */
  lemma ExactBoundaryRequeues(st: RunState, x: SentryIssue, tracked: seq<Issue>, hours: int, now: int, i: nat)
    requires FindTracked(tracked, x.shortId) == Some(i) && tracked[i].state == Open
    requires now - LastAttemptAt(CommentsOf(st.issues, tracked[i].number), tracked[i].createdAt) == hours * MsPerHour
    ensures Step(st, x, tracked, Some(hours), now).toFix == st.toFix + [TrackedIssue(x, tracked[i].number, Requeued)]
  {
  }

  /** With a NaN cooldown every open match is queued again, whenever it was
      last attempted, and its comment says "after NaNh cooldown". */
  lemma NaNCooldownRequeues(st: RunState, x: SentryIssue, tracked: seq<Issue>, now: int, i: nat)
    requires FindTracked(tracked, x.shortId) == Some(i) && tracked[i].state == Open
    ensures var r := Step(st, x, tracked, None, now);
            r.toFix == st.toFix + [TrackedIssue(x, tracked[i].number, Requeued)]
            && r.issues == WithComment(st.issues, tracked[i].number, Comment(Some(RequeueComment(None)), now))
    ensures RequeueCommentLines(None)[2] == RequeueHead + "NaN" + RequeueTail
  {
  }

  /** Within the cooldown nothing is written and nothing is recorded. */
  lemma WithinCooldownSkips(st: RunState, x: SentryIssue, tracked: seq<Issue>, cooldownHours: Option<int>, now: int, i: nat)
    requires FindTracked(tracked, x.shortId) == Some(i) && tracked[i].state == Open
    requires InCooldown(now, LastAttemptAt(CommentsOf(st.issues, tracked[i].number), tracked[i].createdAt), cooldownHours)
    ensures var r := Step(st, x, tracked, cooldownHours, now);
            r.issues == st.issues && r.toFix == st.toFix && r.counters.skipped == st.counters.skipped + 1
  {
  }

  // ---------------------------------------------------------------------
  // The comments the reconciler writes do not reset the cooldown

  /** A text that starts with `m` and has the first character of `t`
      nowhere after its start does not contain `t` when `m` and `t` differ
      at some position. */
  lemma DiffersAtHead(m: string, rest: string, t: string, i: nat)
    requires i < |m| && i < |t| && m[i] != t[i]
    requires t[0] !in m[1..] && t[0] !in rest
    ensures StartsWith(m + rest, m) && !Contains(m + rest, t)
  {
    var s := m + rest;
    assert s[..|m|] == m;
    assert s[1..] == m[1..] + rest;
    assert s[i] == m[i];
    NotContainsOnlyHead(s, t);
  }

  /** Text that starts with the tracking marker and has no further '<'
      never contains the dispatch marker. */
  lemma TrackedPrefixHasNoDispatchMarker(rest: string)
    requires '<' !in rest
    ensures StartsWith(TrackMarker + rest, TrackMarker)
    ensures !Contains(TrackMarker + rest, DispatchMarker)
  {
    MarkerFacts();
    DiffersAtHead(TrackMarker, rest, DispatchMarker, 21);
  }

  lemma MarkerFacts()
    ensures |TrackMarker| == 30 && |DispatchMarker| == 33
    ensures TrackMarker[21] == 't' && DispatchMarker[21] == 'd' && DispatchMarker[0] == '<'
    ensures '<' !in TrackMarker[1..]
  {
  }

  /** Lines joined by newlines, the first being the tracking marker and no
      other holding a '<', start with the tracking marker and never contain
      the dispatch marker. */
  lemma TrackedTextHasNoDispatchMarker(lines: seq<string>)
    requires |lines| >= 1 && lines[0] == TrackMarker
    requires forall k :: 1 <= k < |lines| ==> '<' !in lines[k]
    ensures StartsWith(Join(lines, "\n"), TrackMarker)
    ensures !Contains(Join(lines, "\n"), DispatchMarker)
  {
    if |lines| == 1 {
      assert Join(lines, "\n") == TrackMarker + "";
      TrackedPrefixHasNoDispatchMarker("");
    } else {
      var rest := Join(lines[1..], "\n");
      if '<' in rest {
        JoinCharsFrom(lines[1..], "\n", '<');
        assert false;
      }
      assert Join(lines, "\n") == TrackMarker + ("\n" + rest);
      TrackedPrefixHasNoDispatchMarker("\n" + rest);
    }
  }

  function ListedComment1(c: Comment): ListedComment {
    ListedComment(c.body.GetOr(""), c.createdAt)
  }

  lemma ListedBodiesSnoc(cs: seq<Comment>, c: Comment)
    ensures ListedBodies(cs + [c]) == ListedBodies(cs) + [ListedComment1(c)]
  {
  }

  /** A comment without the marker, added to any issue, moves no issue's
      last dispatch. */
  lemma UnmarkedCommentKeepsDispatchTimes(issues: seq<Issue>, number: int, c: Comment, n: int)
    requires DistinctNumbers(issues) && !IsDispatchComment(ListedComment1(c))
    ensures ParseLastDispatchTimestamp(ListedBodies(CommentsOf(WithComment(issues, number, c), n)))
         == ParseLastDispatchTimestamp(ListedBodies(CommentsOf(issues, n)))
  {
    CommentsOfWithComment(issues, number, c, n);
    ListedBodiesSnoc(CommentsOf(issues, n), c);
    LastDispatchIgnoresUnmarked(ListedBodies(CommentsOf(issues, n)), ListedComment1(c));
  }

  /** A new issue under the next number keeps the numbering valid and moves
      no issue's last dispatch. */
  lemma AppendKeepsLedger(issues: seq<Issue>, nextNumber: int, added: Issue, n: int)
    requires NumbersValid(issues, nextNumber) && added.number == nextNumber && added.comments == []
    ensures NumbersValid(issues + [added], nextNumber + 1)
    ensures ParseLastDispatchTimestamp(ListedBodies(CommentsOf(issues + [added], n)))
         == ParseLastDispatchTimestamp(ListedBodies(CommentsOf(issues, n)))
  {
    NumbersValidUpdates(issues, nextNumber, 0, Comment(None, 0), added);
    CommentsOfAppended(issues, added, n);
  }

  /** A comment without the marker keeps the numbering valid and moves no
      issue's last dispatch. */
  lemma CommentKeepsLedger(issues: seq<Issue>, nextNumber: int, number: int, c: Comment, n: int)
    requires NumbersValid(issues, nextNumber) && !IsDispatchComment(ListedComment1(c))
    ensures NumbersValid(WithComment(issues, number, c), nextNumber)
    ensures ParseLastDispatchTimestamp(ListedBodies(CommentsOf(WithComment(issues, number, c), n)))
         == ParseLastDispatchTimestamp(ListedBodies(CommentsOf(issues, n)))
  {
    NumbersValidUpdates(issues, nextNumber, number, c, Issue(0, "", Open, 0, [], false, "", []));
    UnmarkedCommentKeepsDispatchTimes(issues, number, c, n);
  }

  /** Reopening keeps the numbering valid and every issue's comments. */
  lemma ReopenKeepsLedger(issues: seq<Issue>, nextNumber: int, number: int, n: int)
    requires NumbersValid(issues, nextNumber)
    ensures NumbersValid(WithReopened(issues, number), nextNumber)
    ensures CommentsOf(WithReopened(issues, number), n) == CommentsOf(issues, n)
  {
    NumbersValidUpdates(issues, nextNumber, number, Comment(None, 0), Issue(0, "", Open, 0, [], false, "", []));
    CommentsOfWithReopened(issues, number, n);
  }

  /** One turn of the loop never moves the last dispatch of any issue. */
  lemma StepKeepsDispatchTimes(st: RunState, x: SentryIssue, tracked: seq<Issue>, cooldownHours: Option<int>, now: int, n: int)
    requires NumbersValid(st.issues, st.nextNumber)
    ensures var r := Step(st, x, tracked, cooldownHours, now);
            NumbersValid(r.issues, r.nextNumber)
            && ParseLastDispatchTimestamp(ListedBodies(CommentsOf(r.issues, n)))
               == ParseLastDispatchTimestamp(ListedBodies(CommentsOf(st.issues, n)))
  {
    match Decide(st.issues, x, tracked, cooldownHours, now)
    case Create =>
      AppendKeepsLedger(st.issues, st.nextNumber, NewIssue(st.nextNumber, x, now), n);
    case Reopen(number) =>
      ReopenKeepsLedger(st.issues, st.nextNumber, number, n);
      CommentKeepsLedger(WithReopened(st.issues, number), st.nextNumber, number, Comment(Some(ReopenComment()), now), n);
    case Skip =>
    case Requeue(number) =>
      CommentKeepsLedger(st.issues, st.nextNumber, number, Comment(Some(RequeueComment(cooldownHours)), now), n);
  }

  /** A run never resets a cooldown: no comment it writes carries the
      dispatch marker, so every issue keeps its last dispatch. */
  lemma {:induction false} RunKeepsDispatchTimes(st: RunState, xs: seq<SentryIssue>, tracked: seq<Issue>, cooldownHours: Option<int>, now: int, n: int)
    requires NumbersValid(st.issues, st.nextNumber)
    ensures var r := Run(st, xs, tracked, cooldownHours, now);
            NumbersValid(r.issues, r.nextNumber)
            && ParseLastDispatchTimestamp(ListedBodies(CommentsOf(r.issues, n)))
               == ParseLastDispatchTimestamp(ListedBodies(CommentsOf(st.issues, n)))
    decreases |xs|
  {
    if xs != [] {
      RunKeepsDispatchTimes(st, xs[..|xs| - 1], tracked, cooldownHours, now, n);
      StepKeepsDispatchTimes(Run(st, xs[..|xs| - 1], tracked, cooldownHours, now), xs[|xs| - 1], tracked, cooldownHours, now, n);
    }
  }

  // ---------------------------------------------------------------------
  // A second run finds every issue the first one handled

  /** What a run never changes about an issue: its number, title, labels and
      kind. */
  predicate SameHead(a: Issue, b: Issue) {
    a.number == b.number && a.title == b.title && a.labels == b.labels && a.isPullRequest == b.isPullRequest
  }

  /** `b` is `a` with issues possibly added at the end and the others
      commented on or reopened. */
  ghost predicate Extends(a: seq<Issue>, b: seq<Issue>) {
    |a| <= |b| && forall p :: 0 <= p < |a| ==> SameHead(a[p], b[p])
  }

  lemma StepExtends(st: RunState, x: SentryIssue, tracked: seq<Issue>, cooldownHours: Option<int>, now: int)
    ensures Extends(st.issues, Step(st, x, tracked, cooldownHours, now).issues)
  {
    var r := Step(st, x, tracked, cooldownHours, now).issues;
    match Decide(st.issues, x, tracked, cooldownHours, now)
    case Create =>
      assert forall p :: 0 <= p < |st.issues| ==> r[p] == st.issues[p];
    case Reopen(number) =>
      var reopened := WithReopened(st.issues, number);
      assert forall p :: 0 <= p < |st.issues| ==> SameHead(st.issues[p], reopened[p]);
    case Skip =>
    case Requeue(number) =>
  }

  lemma ExtendsTrans(a: seq<Issue>, b: seq<Issue>, c: seq<Issue>)
    requires Extends(a, b) && Extends(b, c)
    ensures Extends(a, c)
  {
    assert forall p :: 0 <= p < |a| ==> SameHead(a[p], b[p]) && SameHead(b[p], c[p]);
  }

  lemma {:induction false} RunExtends(st: RunState, xs: seq<SentryIssue>, tracked: seq<Issue>, cooldownHours: Option<int>, now: int)
    ensures Extends(st.issues, Run(st, xs, tracked, cooldownHours, now).issues)
    decreases |xs|
  {
    if xs != [] {
      var before := Run(st, xs[..|xs| - 1], tracked, cooldownHours, now);
      RunExtends(st, xs[..|xs| - 1], tracked, cooldownHours, now);
      StepExtends(before, xs[|xs| - 1], tracked, cooldownHours, now);
      ExtendsTrans(st.issues, before.issues, Run(st, xs, tracked, cooldownHours, now).issues);
    }
  }

  /** The tracker holds a tracked, labelled issue whose title carries the
      token of `shortId`. */
  ghost predicate Findable(issues: seq<Issue>, shortId: string) {
    exists p :: 0 <= p < |issues| && SentryLabel in issues[p].labels && IsTracked(issues[p])
                && Contains(issues[p].title, SentryToken(shortId))
  }

  lemma FindableExtends(a: seq<Issue>, b: seq<Issue>, shortId: string)
    requires Findable(a, shortId) && Extends(a, b)
    ensures Findable(b, shortId)
  {
    var p :| 0 <= p < |a| && SentryLabel in a[p].labels && IsTracked(a[p]) && Contains(a[p].title, SentryToken(shortId));
    assert SameHead(a[p], b[p]);
  }

  /** A findable issue is matched by the next snapshot. */
  lemma FindableIsFound(issues: seq<Issue>, shortId: string)
    requires Findable(issues, shortId)
    ensures FindTracked(Snapshot(issues), shortId).Some?
  {
    var p :| 0 <= p < |issues| && SentryLabel in issues[p].labels && IsTracked(issues[p]) && Contains(issues[p].title, SentryToken(shortId));
    var hasLabel := (x: Issue) => SentryLabel in x.labels;
    var labeled := Labeled(issues, SentryLabel);
    var k1 := FilterKeeps(issues, hasLabel, p);
    assert Reverse(labeled)[|labeled| - 1 - k1] == labeled[k1];
    var k2 := FilterKeeps(Reverse(labeled), IsTracked, |labeled| - 1 - k1);
  }

  /** A match in a snapshot is findable in the issues it was taken from. */
  lemma FoundIsFindable(issues: seq<Issue>, shortId: string)
    requires FindTracked(Snapshot(issues), shortId).Some?
    ensures Findable(issues, shortId)
  {
    var i := FindTracked(Snapshot(issues), shortId).value;
    var p := SnapshotFrom(issues, i);
  }

  /** Skipping a prefix without a match shifts the match by its length. */
  lemma {:induction false} FindTrackedAfter(x: seq<Issue>, y: seq<Issue>, shortId: string)
    requires forall j :: 0 <= j < |x| ==> !Contains(x[j].title, SentryToken(shortId))
    ensures FindTracked(y, shortId).None? ==> FindTracked(x + y, shortId).None?
    ensures FindTracked(y, shortId).Some? ==> FindTracked(x + y, shortId) == Some(|x| + FindTracked(y, shortId).value)
    decreases |x|
  {
    if x == [] {
      assert x + y == y;
    } else {
      assert (x + y)[0] == x[0];
      assert (x + y)[1..] == x[1..] + y;
      FindTrackedAfter(x[1..], y, shortId);
    }
  }

  /** The snapshot of `older + [newer] + later` with `newer` labelled and
      tracked: the later issues' part, `newer`, then the older part. */
  lemma SnapshotAround(older: seq<Issue>, newer: Issue, later: seq<Issue>)
    requires SentryLabel in newer.labels && IsTracked(newer)
    ensures Snapshot(older + [newer] + later)
         == Snapshot(later) + [newer] + Snapshot(older)
  {
    var hasLabel := (x: Issue) => SentryLabel in x.labels;
    var la, lb := Labeled(older, SentryLabel), Labeled(later, SentryLabel);
    FilterAppend(older + [newer], later, hasLabel);
    FilterAppend(older, [newer], hasLabel);
    assert Filter([newer], hasLabel) == [newer];
    ReverseAppend(la + [newer], lb);
    ReverseAppend(la, [newer]);
    assert Reverse([newer]) == [newer];
    assert Labeled(older + [newer] + later, SentryLabel) == la + [newer] + lb;
    assert Reverse(la + [newer]) == [newer] + Reverse(la);
    assert Listed(older + [newer] + later, SentryLabel) == Reverse(lb) + [newer] + Reverse(la);
    FilterAppend(Reverse(lb) + [newer], Reverse(la), IsTracked);
    FilterAppend(Reverse(lb), [newer], IsTracked);
    assert TrackedOnly([newer]) == [newer];
  }

  /** Every snapshot issue is a labelled, tracked issue of the tracker. */
  lemma SnapshotFrom(issues: seq<Issue>, j: nat) returns (p: nat)
    requires j < |Snapshot(issues)|
    ensures p < |issues| && issues[p] == Snapshot(issues)[j]
    ensures SentryLabel in issues[p].labels && IsTracked(issues[p])
  {
    var hasLabel := (x: Issue) => SentryLabel in x.labels;
    var labeled := Labeled(issues, SentryLabel);
    var k := FilterFrom(Reverse(labeled), IsTracked, j);
    assert Reverse(labeled)[k] == labeled[|labeled| - 1 - k];
    p := FilterFrom(issues, hasLabel, |labeled| - 1 - k);
    assert hasLabel(labeled[|labeled| - 1 - k]);
  }

  /** With several tracked issues carrying the same token, the one opened
      last is the match: the listing is newest first and `find` takes the
      first hit. `newer` is followed only by issues that are no candidate. */
  lemma NewestMatchWins(older: seq<Issue>, newer: Issue, later: seq<Issue>, shortId: string)
    requires SentryLabel in newer.labels && IsTracked(newer) && Contains(newer.title, SentryToken(shortId))
    requires forall j :: 0 <= j < |later| && SentryLabel in later[j].labels && IsTracked(later[j])
               ==> !Contains(later[j].title, SentryToken(shortId))
    ensures var s := Snapshot(older + [newer] + later);
            FindTracked(s, shortId).Some? && s[FindTracked(s, shortId).value] == newer
  {
    SnapshotAround(older, newer, later);
    var t1 := Snapshot(later);
    forall j | 0 <= j < |t1| ensures !Contains(t1[j].title, SentryToken(shortId)) {
      var q := SnapshotFrom(later, j);
    }
    assert t1 + [newer] + Snapshot(older) == t1 + ([newer] + Snapshot(older));
    FindTrackedAfter(t1, [newer] + Snapshot(older), shortId);
  }

  /** A created issue is tracked, carries the queried label, and its title
      carries its own token. */
  lemma NewIssueIsFindable(number: int, x: SentryIssue, now: int)
    ensures var added := NewIssue(number, x, now);
            SentryLabel in added.labels && IsTracked(added) && Contains(added.title, SentryToken(x.shortId))
  {
    var title := CreatedTitle(x);
    assert title[1] == 'S' && DiscussionPrefix[1] == 'D';
  }

  lemma StepFindable(issues0: seq<Issue>, st: RunState, x: SentryIssue, cooldownHours: Option<int>, now: int)
    requires Extends(issues0, st.issues)
    ensures Findable(Step(st, x, Snapshot(issues0), cooldownHours, now).issues, x.shortId)
  {
    var r := Step(st, x, Snapshot(issues0), cooldownHours, now).issues;
    StepExtends(st, x, Snapshot(issues0), cooldownHours, now);
    if FindTracked(Snapshot(issues0), x.shortId).None? {
      NewIssueIsFindable(st.nextNumber, x, now);
      assert r[|st.issues|] == NewIssue(st.nextNumber, x, now);
    } else {
      FoundIsFindable(issues0, x.shortId);
      FindableExtends(issues0, r, x.shortId);
    }
  }

  lemma {:induction false} RunFindable(issues0: seq<Issue>, st: RunState, xs: seq<SentryIssue>, cooldownHours: Option<int>, now: int)
    requires Extends(issues0, st.issues)
    ensures var r := Run(st, xs, Snapshot(issues0), cooldownHours, now);
            Extends(issues0, r.issues) && AllFindable(r.issues, xs)
    decreases |xs|
  {
    if xs != [] {
      var xs' := xs[..|xs| - 1];
      var before := Run(st, xs', Snapshot(issues0), cooldownHours, now);
      var after := Step(before, xs[|xs| - 1], Snapshot(issues0), cooldownHours, now);
      assert after == Run(st, xs, Snapshot(issues0), cooldownHours, now);
      RunFindable(issues0, st, xs', cooldownHours, now);
      StepExtends(before, xs[|xs| - 1], Snapshot(issues0), cooldownHours, now);
      StepFindable(issues0, before, xs[|xs| - 1], cooldownHours, now);
      DropLastAppend(xs);
      FindableStep(issues0, before.issues, after.issues, xs', xs[|xs| - 1]);
      assert AllFindable(after.issues, xs);
    }
  }

  lemma FindableStep(issues0: seq<Issue>, a: seq<Issue>, b: seq<Issue>, xs: seq<SentryIssue>, x: SentryIssue)
    requires Extends(issues0, a) && AllFindable(a, xs) && Extends(a, b) && Findable(b, x.shortId)
    ensures Extends(issues0, b) && AllFindable(b, xs + [x])
  {
    ExtendsTrans(issues0, a, b);
    AllFindableSnoc(a, b, xs, x);
  }

  ghost predicate AllFindable(issues: seq<Issue>, xs: seq<SentryIssue>) {
    forall j :: 0 <= j < |xs| ==> Findable(issues, xs[j].shortId)
  }

  lemma AllFindableSnoc(a: seq<Issue>, b: seq<Issue>, xs: seq<SentryIssue>, x: SentryIssue)
    requires AllFindable(a, xs) && Extends(a, b) && Findable(b, x.shortId)
    ensures AllFindable(b, xs + [x])
  {
    forall j | 0 <= j < |xs| + 1 ensures Findable(b, (xs + [x])[j].shortId) {
      if j < |xs| {
        FindableExtends(a, b, xs[j].shortId);
      }
    }
  }

  lemma {:induction false} RunWithAllMatchedCreatesNothing(st: RunState, xs: seq<SentryIssue>, tracked: seq<Issue>, cooldownHours: Option<int>, now: int)
    requires forall j :: 0 <= j < |xs| ==> FindTracked(tracked, xs[j].shortId).Some?
    ensures Run(st, xs, tracked, cooldownHours, now).counters.created == st.counters.created
    ensures Run(st, xs, tracked, cooldownHours, now).nextNumber == st.nextNumber
    decreases |xs|
  {
    if xs != [] {
      var xs' := xs[..|xs| - 1];
      forall j | 0 <= j < |xs'|
        ensures FindTracked(tracked, xs'[j].shortId).Some?
      {
        assert xs'[j] == xs[j];
      }
      RunWithAllMatchedCreatesNothing(st, xs', tracked, cooldownHours, now);
      StepMatchedCreatesNothing(Run(st, xs', tracked, cooldownHours, now), xs[|xs| - 1], tracked, cooldownHours, now);
    }
  }

  lemma StepMatchedCreatesNothing(st: RunState, x: SentryIssue, tracked: seq<Issue>, cooldownHours: Option<int>, now: int)
    requires FindTracked(tracked, x.shortId).Some?
    ensures Step(st, x, tracked, cooldownHours, now).counters.created == st.counters.created
    ensures Step(st, x, tracked, cooldownHours, now).nextNumber == st.nextNumber
  {
  }

  /** Running the reconciler again on the same Sentry issues, against the
      tracker the first run left, opens no issue: each of them is now
      matched. */
  lemma SecondRunCreatesNothing(issues: seq<Issue>, nextNumber: int, xs: seq<SentryIssue>,
                                cooldownHours: Option<int>, now: int, cooldownHours': Option<int>, now': int)
    ensures var r := Run(Start(issues, nextNumber), xs, Snapshot(issues), cooldownHours, now);
            var again := Run(Start(r.issues, r.nextNumber), xs, Snapshot(r.issues), cooldownHours', now');
            again.counters.created == 0 && again.nextNumber == r.nextNumber
  {
    var st := Start(issues, nextNumber);
    assert Extends(issues, st.issues);
    RunFindable(issues, st, xs, cooldownHours, now);
    var r := Run(st, xs, Snapshot(issues), cooldownHours, now);
    forall j | 0 <= j < |xs| ensures FindTracked(Snapshot(r.issues), xs[j].shortId).Some? {
      FindableIsFound(r.issues, xs[j].shortId);
    }
    RunWithAllMatchedCreatesNothing(Start(r.issues, r.nextNumber), xs, Snapshot(r.issues), cooldownHours', now');
  }

  // ---------------------------------------------------------------------
  // Every record names an issue the tracker has

  ghost predicate AllRecorded(issues: seq<Issue>, toFix: seq<TrackedIssue>) {
    forall k :: 0 <= k < |toFix| ==> HasIssue(issues, toFix[k].ghIssueNumber)
  }

  lemma HasIssueExtends(a: seq<Issue>, b: seq<Issue>, n: int)
    requires HasIssue(a, n) && Extends(a, b)
    ensures HasIssue(b, n)
  {
    var p := IndexOf(a, n).value;
    assert SameHead(a[p], b[p]);
  }

  lemma SnapshotNumberExists(issues: seq<Issue>, i: nat)
    requires i < |Snapshot(issues)|
    ensures HasIssue(issues, Snapshot(issues)[i].number)
  {
    var p := SnapshotFrom(issues, i);
    assert issues[p].number == Snapshot(issues)[i].number;
  }

  lemma StepRecordsExist(issues0: seq<Issue>, st: RunState, x: SentryIssue, cooldownHours: Option<int>, now: int)
    requires Extends(issues0, st.issues) && AllRecorded(st.issues, st.toFix)
    ensures var r := Step(st, x, Snapshot(issues0), cooldownHours, now);
            Extends(issues0, r.issues) && AllRecorded(r.issues, r.toFix)
  {
    var r := Step(st, x, Snapshot(issues0), cooldownHours, now);
    StepExtends(st, x, Snapshot(issues0), cooldownHours, now);
    ExtendsTrans(issues0, st.issues, r.issues);
    forall k | 0 <= k < |st.toFix| ensures HasIssue(r.issues, st.toFix[k].ghIssueNumber) {
      HasIssueExtends(st.issues, r.issues, st.toFix[k].ghIssueNumber);
    }
    NewRecordExists(issues0, st, x, cooldownHours, now);
    StepRecords(st, x, Snapshot(issues0), cooldownHours, now);
    if |r.toFix| > |st.toFix| {
      assert r.toFix == st.toFix + [r.toFix[|st.toFix|]];
    }
  }

  lemma NewRecordExists(issues0: seq<Issue>, st: RunState, x: SentryIssue, cooldownHours: Option<int>, now: int)
    requires Extends(issues0, st.issues)
    ensures var r := Step(st, x, Snapshot(issues0), cooldownHours, now);
            |r.toFix| > |st.toFix| ==> HasIssue(r.issues, r.toFix[|st.toFix|].ghIssueNumber)
  {
    var r := Step(st, x, Snapshot(issues0), cooldownHours, now);
    StepExtends(st, x, Snapshot(issues0), cooldownHours, now);
    ExtendsTrans(issues0, st.issues, r.issues);
    match Decide(st.issues, x, Snapshot(issues0), cooldownHours, now)
    case Create =>
      assert r.issues[|st.issues|].number == st.nextNumber;
    case Reopen(number) =>
      SnapshotNumberExists(issues0, FindTracked(Snapshot(issues0), x.shortId).value);
      HasIssueExtends(issues0, r.issues, number);
    case Skip =>
    case Requeue(number) =>
      SnapshotNumberExists(issues0, FindTracked(Snapshot(issues0), x.shortId).value);
      HasIssueExtends(issues0, r.issues, number);
  }

  /** Every record to fix names an issue the tracker has after the run, so
      the dispatch comments written for them find their issue. */
  lemma {:induction false} RunRecordsExist(issues0: seq<Issue>, st: RunState, xs: seq<SentryIssue>, cooldownHours: Option<int>, now: int)
    requires Extends(issues0, st.issues) && AllRecorded(st.issues, st.toFix)
    ensures var r := Run(st, xs, Snapshot(issues0), cooldownHours, now);
            Extends(issues0, r.issues) && AllRecorded(r.issues, r.toFix)
    decreases |xs|
  {
    if xs != [] {
      RunRecordsExist(issues0, st, xs[..|xs| - 1], cooldownHours, now);
      StepRecordsExist(issues0, Run(st, xs[..|xs| - 1], Snapshot(issues0), cooldownHours, now), xs[|xs| - 1], cooldownHours, now);
    }
  }

  /** From a fresh start on the tracker's own issues. */
  lemma RunRecordsExistFromStart(issues: seq<Issue>, nextNumber: int, xs: seq<SentryIssue>, cooldownHours: Option<int>, now: int)
    ensures var r := Run(Start(issues, nextNumber), xs, Snapshot(issues), cooldownHours, now);
            forall k :: 0 <= k < |r.toFix| ==> HasIssue(r.issues, r.toFix[k].ghIssueNumber)
  {
    RunRecordsExist(issues, Start(issues, nextNumber), xs, cooldownHours, now);
  }
}
