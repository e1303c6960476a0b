# agentfix in Dafny

A model of the core of agentfix. agentfix turns reports into automated
fix requests for a coding agent. There are two sources of reports.

- **The Sentry pipeline.** Four scripts run in sequence.
  - `scripts/sentry-fetch-issues.ts` fetches the unresolved Sentry issues and renders each latest event as a text stack trace.
  - `scripts/sentry-sync-github-issues.ts` keeps one GitHub issue per Sentry issue. It classifies each Sentry issue as `created`, `reopened`, `requeued` or skipped under a cooldown.
  - `scripts/sentry-build-contexts.ts` turns the issues to fix into dispatch contexts. It infers a file from each stack trace.
  - `scripts/sentry-dispatch-contexts.ts` runs auto-fix on every context. It writes the outcome as a comment carrying a dispatch marker, and the next reconciliation reads that comment back as the last attempt.
- **Pull-request reviews.**
  - `src/server/app.ts` turns a review that requests changes into an auto-fix event.
  - `src/github/findings.ts` extracts findings from an allowed reviewer's inline comments.

Shared pieces:

- the finding signature and order-preserving dedupe (`src/core/dedupe.ts`);
- the auto-fix prompt and its dry-run and missing-token branches (`src/modes/auto-fix.ts`);
- the `X-Hub-Signature-256` check (`src/github/webhook-signature.ts`);
- the GitHub App JWT, the token URL and repository names (`src/github/app-auth.ts`);
- the bug-hunt command line (`src/modes/bug-hunt.ts`).

One module per source file, plus the runtime pieces they rely on:

- `Text`: `trim`, ASCII `toLowerCase`, `split`, `join` and integer rendering.
- `Seqs`: subsequences, first-occurrence dedupe, filter and pages.
- `Bytes`: UTF-8.
- `Base64`: base64 and base64url, sections 4 and 5 of RFC 4648.
- `Hex`: `digest("hex")` and `Buffer.from(s, "hex")`.
- `Json`: `JSON.stringify` string literals, section 7 of RFC 8259.
- `IssueTracker`: the GitHub issues API as a `Tracker` class. The class holds a sequence of issues and the next issue number. Its methods create issues, reopen them and add comments in place.

The reconciler and the dispatcher both change the tracker. So the model can state the property that links the two scripts: a dispatch restarts the cooldown of exactly the issues it commented on.

Time is integer milliseconds, and the clock is a `now` parameter. The boundaries are parameters too:

- HTTP answers are given pages of responses, or an `Option` when a request can fail;
- the HMAC and RSA signers are function values;
- the provider's answer to a request is a function value;
- a process's exit code is a parameter;
- the environment is a map.

## Model

| member | source | states |
|---|---|---|
| SentrySync.TrackedOnly | scripts/sentry-sync-github-issues.ts:92 | Only issues that are not pull requests and whose title does not start with `[Discussion]` are kept. |
| SentrySync.TrackedOnlyDistributes | scripts/sentry-sync-github-issues.ts:92 | Filtering a concatenation of pages is the concatenation of the filtered pages. |
| SentrySync.ListedBodies | scripts/sentry-sync-github-issues.ts:111-116 | One listed comment per API comment, in order, with the same creation time; an absent body becomes "". |
| SentrySync.ListedBodiesDistributes | scripts/sentry-sync-github-issues.ts:111-116 | Mapping comments page by page is the same as mapping the whole list. |
| SentrySync.CollectFrom | scripts/sentry-sync-github-issues.ts:86-96 | One iteration of the page loop: an empty page stops it, a short page is gathered and stops it, and a full page is gathered and the loop goes on at the next page. |
| SentrySync.ListLabeledIssues | scripts/sentry-sync-github-issues.ts:82-99 | The `while (true)` loop over pages returns the filtered pages concatenated in page order. It stops at the first empty page or at the first page shorter than 100; the check is made on the raw page. |
| SentrySync.ListComments | scripts/sentry-sync-github-issues.ts:101-123 | The comment page loop returns the mapped pages in page order, with the same stopping rule. |
| SentrySync.ListingIsComplete | scripts/sentry-sync-github-issues.ts:82-99 | Listing a tracker's issues served in pages of 100 yields exactly the filtered list: no issue is lost or repeated at page boundaries. |
| SentrySync.CommentListingIsComplete | scripts/sentry-sync-github-issues.ts:101-123 | The same for the comments of an issue. |
| SentrySync.ParseLastDispatchTimestamp | scripts/sentry-sync-github-issues.ts:125-132 | None exactly when no comment body contains the dispatch marker. Otherwise the result is the creation time of some marked comment, and no marked comment is later. |
| SentrySync.LastDispatchIgnoresUnmarked | scripts/sentry-sync-github-issues.ts:125-132 | A comment without the marker does not change the last dispatch. |
| SentrySync.MsComparisonIsHours | scripts/sentry-sync-github-issues.ts:236-238 | Comparing `now - last < h * 3600000` in whole milliseconds agrees with the script's `(now - last) / 3600000 < h` taken over the reals. |
| SentrySync.InCooldown | scripts/sentry-sync-github-issues.ts:236-238 | In the cooldown exactly when the cooldown is a number and the elapsed hours, taken over the reals, are below it. A NaN cooldown is never in force. |
| SentrySync.OrDefault | scripts/sentry-sync-github-issues.ts:145 | `s \|\| fallback` is `s`, or is `fallback` when `s` is empty. |
| SentrySync.FindTracked | scripts/sentry-sync-github-issues.ts:207 | The index of the first tracked issue whose title contains `[Sentry <shortId>]`; none exactly when no title does. |
| SentrySync.Snapshot | scripts/sentry-sync-github-issues.ts:199 | Every snapshot issue is an issue of the tracker, labelled "sentry" and tracked: no pull request and no `[Discussion]` title. |
| SentrySync.SnapshotFrom | scripts/sentry-sync-github-issues.ts:199 | Every snapshot entry sits at some position of the tracker, as a labelled, tracked issue. |
| SentrySync.SnapshotAround | scripts/sentry-sync-github-issues.ts:199 | The listing is newest first: the snapshot of `older + [newer] + later` lists the later issues, then `newer`, then the older ones. |
| SentrySync.FindTrackedAfter | scripts/sentry-sync-github-issues.ts:207 | Issues without the token before the match shift the match by their number. |
| SentrySync.NewestMatchWins | scripts/sentry-sync-github-issues.ts:199-207 | Of several tracked issues carrying the same token, `find` picks the one created last. |
| SentrySync.SentryToken | scripts/sentry-sync-github-issues.ts:207 | `[Sentry <shortId>]`: the short id inside nine characters. |
| SentrySync.CreatedTitle | scripts/sentry-sync-github-issues.ts:170 | A created title starts with, and so contains, its token; a space and the Sentry title follow. |
| SentrySync.Decide | scripts/sentry-sync-github-issues.ts:207-241 | Create exactly when the snapshot has no match. Otherwise reopen exactly when the match is closed, skip exactly when it is open and in its cooldown (last attempt read from the current comments), and every decision but a skip names the matched issue. |
| SentrySync.Apply | scripts/sentry-sync-github-issues.ts:209-252 | A skip only counts itself. Every other decision appends one record and adds one to created+reopened+requeued; only a creation adds an issue and takes the next number. |
| SentrySync.Step | scripts/sentry-sync-github-issues.ts:206-253 | A turn adds an issue and takes a number exactly when the snapshot has no match. |
| SentrySync.ReadLastAttempt | scripts/sentry-sync-github-issues.ts:232-235 | Lists the issue's comments page by page. The result is the last dispatch time, or the issue's creation time when there is none. |
| SentrySync.ReconcileOne | scripts/sentry-sync-github-issues.ts:206-253 | One turn of the loop, changing the tracker in place. The effect equals `Step`: no match creates an issue titled `[Sentry <shortId>] <title>`. A closed match is reopened and gets a comment. An open match inside the cooldown is only counted as skipped. Any other open match gets a requeue comment. |
| SentrySync.Reconcile | scripts/sentry-sync-github-issues.ts:195-253 | `main`: the tracked list is read once, newest first, before the loop. The final tracker, records and counters equal `Run` over the input in order. |
| SentrySync.StepRecords | scripts/sentry-sync-github-issues.ts:209-252 | One turn either only counts a skip, or appends exactly one record for this Sentry issue and adds one to created+reopened+requeued. |
| SentrySync.Run | scripts/sentry-sync-github-issues.ts:200-253 | created+reopened+requeued+skipped grows by the number of Sentry issues, and the records to fix grow by created+reopened+requeued. |
| SentrySync.IssuesOf | scripts/sentry-sync-github-issues.ts:212 | One Sentry issue per record. |
| SentrySync.StepFollowsInputOrder | scripts/sentry-sync-github-issues.ts:206-253 | One turn keeps the records an order-preserving subsequence of the input seen so far. |
| SentrySync.RunFollowsInputOrder | scripts/sentry-sync-github-issues.ts:206-253 | The records to fix are an order-preserving subsequence of the Sentry issues. |
| SentrySync.DuplicatesBothCreated | scripts/sentry-sync-github-issues.ts:199-214 | Two unmatched inputs with the same short id both create an issue (two records, two numbers, created = 2), because the snapshot is not refreshed. |
| SentrySync.ExactBoundaryRequeues | scripts/sentry-sync-github-issues.ts:238-252 | An open match whose last attempt is exactly the cooldown ago is requeued: the comparison is strict. |
| SentrySync.NaNCooldownRequeues | scripts/sentry-sync-github-issues.ts:238-252 | With a NaN cooldown an open match is always requeued, whenever it was last attempted, and its comment says "after NaNh cooldown". |
| SentrySync.RunSnoc | scripts/sentry-sync-github-issues.ts:206-253 | The run over one more Sentry issue is one more turn. |
| SentrySync.CreatingStep | scripts/sentry-sync-github-issues.ts:209-213 | A turn without a match appends an open issue with the next number, records it as created and counts it. |
| SentrySync.WithinCooldownSkips | scripts/sentry-sync-github-issues.ts:238-241 | Inside the cooldown nothing is written and nothing is recorded; only `skipped` grows. |
| SentrySync.DiffersAtHead | scripts/sentry-sync-github-issues.ts:30-31 | A text that starts with one marker and lacks the other marker's first character after its start cannot contain the other marker. |
| SentrySync.TrackedPrefixHasNoDispatchMarker | scripts/sentry-sync-github-issues.ts:30-31 | Text that starts with TRACK_MARKER and has no '<' after it starts with the track marker and never contains DISPATCH_MARKER. |
| SentrySync.TrackedTextHasNoDispatchMarker | scripts/sentry-sync-github-issues.ts:220-225 | Lines joined by line breaks whose first line is TRACK_MARKER, with no '<' in the other lines, start with the track marker and lack the dispatch marker. |
| SentrySync.ReopenComment | scripts/sentry-sync-github-issues.ts:218-226 | The reopen comment starts with TRACK_MARKER and has no DISPATCH_MARKER. |
| SentrySync.RequeueComment | scripts/sentry-sync-github-issues.ts:243-250 | The requeue comment starts with TRACK_MARKER and has no DISPATCH_MARKER, for every cooldown, NaN included. |
| SentrySync.RequeueLineHasNoAngle | scripts/sentry-sync-github-issues.ts:248 | The requeue line has no '<', whatever the cooldown it names. |
| SentrySync.IssueBody | scripts/sentry-sync-github-issues.ts:134-163 | A created issue's body starts with TRACK_MARKER. |
| SentrySync.ListedBodiesSnoc | scripts/sentry-sync-github-issues.ts:111-116 | A comment appended to a thread is listed last. |
| SentrySync.UnmarkedCommentKeepsDispatchTimes | scripts/sentry-sync-github-issues.ts:218-250 | Adding an unmarked comment to any issue leaves the last dispatch time of every issue unchanged. |
| SentrySync.AppendKeepsLedger | scripts/sentry-sync-github-issues.ts:165-177 | Creating an issue keeps issue numbers valid and leaves every last dispatch time unchanged. |
| SentrySync.CommentKeepsLedger | scripts/sentry-sync-github-issues.ts:187-193 | An unmarked comment keeps numbers valid and leaves every last dispatch time unchanged. |
| SentrySync.ReopenKeepsLedger | scripts/sentry-sync-github-issues.ts:179-185 | Reopening keeps numbers valid and touches no comment thread. |
| SentrySync.StepKeepsDispatchTimes | scripts/sentry-sync-github-issues.ts:209-252 | No turn of the reconciler changes any issue's last dispatch time. |
| SentrySync.RunKeepsDispatchTimes | scripts/sentry-sync-github-issues.ts:206-253 | A whole reconciliation leaves every issue's last dispatch time as it found it, so its own comments never restart a cooldown. |
| SentrySync.StepExtends | scripts/sentry-sync-github-issues.ts:209-252 | A turn only appends issues and changes state or comments. It never removes an issue, renumbers it, or changes its title or labels. |
| SentrySync.ExtendsTrans | scripts/sentry-sync-github-issues.ts:206-253 | That relation is transitive. |
| SentrySync.RunExtends | scripts/sentry-sync-github-issues.ts:206-253 | A whole run only extends the tracker in that sense. |
| SentrySync.FindableExtends | scripts/sentry-sync-github-issues.ts:199-207 | An issue the labelled listing finds stays findable as the tracker is extended. |
| SentrySync.FindableIsFound | scripts/sentry-sync-github-issues.ts:199-207 | A tracked, labelled issue whose title carries the token is matched by the snapshot search. |
| SentrySync.FoundIsFindable | scripts/sentry-sync-github-issues.ts:199-207 | Conversely, a match in the snapshot is such an issue. |
| SentrySync.NewIssueIsFindable | scripts/sentry-sync-github-issues.ts:165-177 | A created issue's title `[Sentry <shortId>] <title>` contains its own token, and it carries the label "sentry" that the listing asks for. |
| SentrySync.StepFindable | scripts/sentry-sync-github-issues.ts:206-253 | After its turn, every Sentry issue has a findable tracked issue. |
| SentrySync.RunFindable | scripts/sentry-sync-github-issues.ts:206-253 | After a run, every input Sentry issue has a findable tracked issue. |
| SentrySync.FindableStep | scripts/sentry-sync-github-issues.ts:206-253 | The invariant of `RunFindable` is carried from one turn to the next. |
| SentrySync.AllFindableSnoc | scripts/sentry-sync-github-issues.ts:206-253 | Findability of all inputs so far extends by one input. |
| SentrySync.RunWithAllMatchedCreatesNothing | scripts/sentry-sync-github-issues.ts:209-214 | When every input is matched, a run creates no issue and allocates no number. |
| SentrySync.StepMatchedCreatesNothing | scripts/sentry-sync-github-issues.ts:209-214 | A matched input creates nothing. |
| SentrySync.SecondRunCreatesNothing | scripts/sentry-sync-github-issues.ts:195-253 | Running again over the tracker the first run left, with the same Sentry issues, creates no issue, whatever the new cooldown and clock. |
| SentrySync.HasIssueExtends | scripts/sentry-sync-github-issues.ts:206-253 | An existing issue number survives an extension. |
| SentrySync.SnapshotNumberExists | scripts/sentry-sync-github-issues.ts:199 | Every snapshot issue is an issue of the tracker. |
| SentrySync.StepRecordsExist | scripts/sentry-sync-github-issues.ts:209-252 | After a turn, every record to fix still names an issue the tracker has. |
| SentrySync.NewRecordExists | scripts/sentry-sync-github-issues.ts:209-252 | The record a turn appends names an issue the tracker has. |
| SentrySync.RunRecordsExist | scripts/sentry-sync-github-issues.ts:206-253 | Every record to fix names an issue of the tracker after the run. |
| SentrySync.RunRecordsExistFromStart | scripts/sentry-sync-github-issues.ts:195-253 | The same, from a fresh start on the tracker's own issues. |
| IssueTracker.IndexOf | scripts/sentry-sync-github-issues.ts:179-193 | The position of the issue with a given number; none exactly when no issue has it. |
| IssueTracker.WithComment | scripts/sentry-sync-github-issues.ts:187-193 | Commenting keeps the number of issues. |
| IssueTracker.WithReopened | scripts/sentry-sync-github-issues.ts:179-185 | Reopening keeps the number of issues. |
| IssueTracker.CommentsOfWithComment | scripts/sentry-sync-github-issues.ts:187-193 | The comment is appended to the commented issue's thread, and every other thread is unchanged. |
| IssueTracker.CommentsOfWithReopened | scripts/sentry-sync-github-issues.ts:179-185 | Reopening changes no comment thread. |
| IssueTracker.CommentsOfAppended | scripts/sentry-sync-github-issues.ts:165-177 | A new issue without comments changes no existing thread. |
| IssueTracker.NumbersValidUpdates | scripts/sentry-sync-github-issues.ts:165-193 | Comments and reopening keep issue numbers distinct, positive and below the next number. So does a creation that takes the next number. |
| IssueTracker.IndexOfSameNumbers | scripts/sentry-sync-github-issues.ts:179-193 | Lists with the same numbers in the same places locate every number alike. |
| IssueTracker.IndexOfAppend | scripts/sentry-sync-github-issues.ts:165-177 | An appended issue is located only when no earlier issue has its number. |
| IssueTracker.Tracker.constructor | scripts/sentry-sync-github-issues.ts:199 | An empty tracker whose first issue gets number 1. |
| IssueTracker.Tracker.CreateIssue | scripts/sentry-sync-github-issues.ts:165-177 | Appends one open issue with the given title, body and labels and the next number, and returns that number. |
| IssueTracker.Tracker.Reopen | scripts/sentry-sync-github-issues.ts:179-185 | Sets the issue's state to open and changes nothing else. |
| IssueTracker.Tracker.AddComment | scripts/sentry-sync-github-issues.ts:187-193 | Appends the comment, created at `now`, to the issue's thread. It reports whether the issue exists. |
| SentryFetch.TrimmedPieces | scripts/sentry-fetch-issues.ts:65 | The comma-separated pieces, each trimmed, one per piece in order. |
| SentryFetch.ProjectList | scripts/sentry-fetch-issues.ts:60-71 | The `--project` value is used when it is non-empty, else the other. The list is empty, and so an error with the "No Sentry projects configured" message, exactly when every trimmed piece is empty. Otherwise the names are exactly the non-empty trimmed pieces with later repetitions dropped, in order of first occurrence: non-empty, comma-free, trimmed and pairwise distinct. |
| SentryFetch.PiecesHaveNoComma | scripts/sentry-fetch-issues.ts:65 | The pieces of a `split(",")`, trimmed, hold no ','. |
| SentryFetch.KeptPieces | scripts/sentry-fetch-issues.ts:64-66 | Dropping empties and repetitions leaves distinct, non-empty, comma-free, trimmed names, none if every piece is empty. |
| SentryFetch.KeptPiecesEmpty | scripts/sentry-fetch-issues.ts:64-71 | The kept list is empty exactly when every piece is empty. |
| SentryFetch.KeptPiecesShape | scripts/sentry-fetch-issues.ts:64-66 | Each kept name is non-empty, comma-free and has no blank at either end. |
| SentryFetch.ProjectListComplete | scripts/sentry-fetch-issues.ts:64-66 | Every non-empty trimmed piece is in the project list, so the list is then no error. |
| SentryFetch.InAppFrames | scripts/sentry-fetch-issues.ts:95 | Only in-app frames, every in-app frame; reversed, they are exactly the event's in-app frames in order. |
| SentryFetch.ExceptionEntry | scripts/sentry-fetch-issues.ts:90 | An entry of type "exception" from the event; none exactly when there is no such entry. |
| SentryFetch.ValueBlock | scripts/sentry-fetch-issues.ts:94-98 | The block always holds a ':'. When the type, message, function names and file names hold no line break and the type does not start with whitespace, its lines read back as the head line `<type or Error>: <value>` followed by one line per in-app frame, innermost first; with no in-app frame, as the head line trimmed. |
| SentryFetch.FrameLine | scripts/sentry-fetch-issues.ts:96 | A frame line starts with "  at ", ends with ')' and holds ` (<filename>:`. |
| SentryFetch.StackTraceFromEvent | scripts/sentry-fetch-issues.ts:88-100 | A null event gives "No event data available". An event with no exception entry, or one without values, gives "No stack trace available". Otherwise the trace is the values' blocks, in order, joined by a blank line, and it holds a ':'. |
| SentryFetch.StackTraceLines | scripts/sentry-fetch-issues.ts:93-99 | When every exception is written on one line, the trace reads back line by line as each value's head line and frame lines, consecutive values separated by exactly one empty line. |
| SentryFetch.NoValuesNoStackTrace | scripts/sentry-fetch-issues.ts:90-91 | A first exception entry whose values are empty or absent gives "No stack trace available". |
| SentryFetch.FirstExceptionFrom | scripts/sentry-fetch-issues.ts:90 | The search skips entries of other types. |
| SentryFetch.TagMap | scripts/sentry-fetch-issues.ts:116 | The map's keys are exactly the tag keys. |
| SentryFetch.LastTagWins | scripts/sentry-fetch-issues.ts:116 | A key maps to the value of its last tag. |
| SentryFetch.ProjectSlug | scripts/sentry-fetch-issues.ts:120 | The slug when given, else "unknown". |
| SentryFetch.AllIssues | scripts/sentry-fetch-issues.ts:103-112 | `perProject.flat()` with a failed request as `[]`: the concatenation of every project's issues, so every issue returned for any project is included. |
| SentryFetch.ProjectIssues | scripts/sentry-fetch-issues.ts:103-110 | `issues ?? []`: one list per project. |
| SentryFetch.AllIssuesAppend | scripts/sentry-fetch-issues.ts:112 | Flattening works project by project: a project contributes its issues, a failed request none. |
| SentryFetch.Fetched | scripts/sentry-fetch-issues.ts:113-131 | Copies the id, short id, title, culprit, count, level, first-seen and last-seen times; the project is the slug or "unknown", and the stack trace is rendered from the latest event. The tags are the map built from the event's tag list, empty without an event or tags, so its keys are exactly the event's tag keys. |
| SentryFetch.FetchedAll | scripts/sentry-fetch-issues.ts:113-132 | One record per issue, in order, built from the issue and its latest event. |
| SentryFetch.SortByLastSeen | scripts/sentry-fetch-issues.ts:134 | Sorts the array in place, most recently seen first, as a permutation of its contents. |
| SentryFetch.InsertIntoPrefix | scripts/sentry-fetch-issues.ts:134 | One insertion step extends the sorted prefix by one element and permutes the array. |
| SentryFetch.SwapKeepsOrder | scripts/sentry-fetch-issues.ts:134 | Swapping a newer element left past an older one keeps the prefix ordered except at the moving element. |
| SentryFetch.FetchIssues | scripts/sentry-fetch-issues.ts:102-135 | The output holds exactly the fetched records, as a multiset, ordered newest first by `lastSeen`. |
| SentryBuildContexts.SpanEnd | scripts/sentry-build-contexts.ts:54-57 | The end of the longest run of characters satisfying the class from a position. |
| SentryBuildContexts.LineColEnd | scripts/sentry-build-contexts.ts:54-57 | When `\d+:\d+` matches at a position, the match ends after it. |
| SentryBuildContexts.ParenFileAt | scripts/sentry-build-contexts.ts:54 | When the parenthesised pattern matches at a position, the capture is non-empty and free of '(', ')' and ':'. |
| SentryBuildContexts.ParenFile | scripts/sentry-build-contexts.ts:54 | The same for the first matching position. |
| SentryBuildContexts.FallbackFileAt | scripts/sentry-build-contexts.ts:57 | The same for the `at X F:L:C` fallback at a position. |
| SentryBuildContexts.FallbackFile | scripts/sentry-build-contexts.ts:57 | The same for the first matching position of the fallback. |
| SentryBuildContexts.InferFileFromStackTrace | scripts/sentry-build-contexts.ts:50-62 | The loop over trimmed lines with early return equals `InferredFile`. Each line is tried with the parenthesised pattern, then the fallback, so the first line with either match decides; "unknown" otherwise. |
| SentryBuildContexts.InferredFile | scripts/sentry-build-contexts.ts:50-62 | The inferred file is "unknown" or a non-empty name free of '(', ')' and ':'. |
| SentryBuildContexts.SpanEndAt | scripts/sentry-build-contexts.ts:54-57 | A run of class characters followed by a non-member ends there. |
| SentryBuildContexts.ParenFileSkip | scripts/sentry-build-contexts.ts:54 | Positions without '(' are skipped by the search. |
| SentryBuildContexts.LineColOver | scripts/sentry-build-contexts.ts:54-57 | Digits, ':', digits followed by a non-digit match `\d+:\d+` exactly. |
| SentryBuildContexts.ParenFileAtOver | scripts/sentry-build-contexts.ts:54 | `(F:L:C)` at a position is matched there with capture F. |
| SentryBuildContexts.ParenTail | scripts/sentry-build-contexts.ts:54 | The parts of the text `:L:C)`. |
| SentryBuildContexts.ParenFileOver | scripts/sentry-build-contexts.ts:54 | A line `pre(F:L:C)` with no '(' in `pre` yields F. |
| SentryBuildContexts.NatStringFacts | scripts/sentry-fetch-issues.ts:96 | A non-negative number renders as a non-empty digit string. |
| SentryBuildContexts.FrameLineGivesFile | scripts/sentry-build-contexts.ts:54 | A stack trace whose first line is a frame the fetcher wrote yields that frame's file: inference inverts the frame format. |
| SentryBuildContexts.PrefixHasNoParen | scripts/sentry-fetch-issues.ts:96 | `at <function> ` has no '(' when the function name has none. |
| SentryBuildContexts.FrameLineShape | scripts/sentry-fetch-issues.ts:96 | A frame line is two spaces and `at f (F:L:C)`. |
| SentryBuildContexts.NoParenNoMatch | scripts/sentry-build-contexts.ts:54 | A line without '(' has no parenthesised match. |
| SentryBuildContexts.FallbackLineGivesFile | scripts/sentry-build-contexts.ts:57 | A line `at name F:L:C` yields F through the fallback. |
| SentryBuildContexts.FallbackLineHasNoParen | scripts/sentry-build-contexts.ts:54-57 | Such a line has no '(', so the first pattern does not fire on it. |
| SentryBuildContexts.FallbackFileAtOver | scripts/sentry-build-contexts.ts:57 | The fallback matches `at name F:L:C` at its start with capture F. |
| SentryBuildContexts.FallbackHeadOver | scripts/sentry-build-contexts.ts:57 | The `at\s+[^\s]+\s+` part of the fallback spans `at name `. |
| SentryBuildContexts.FallbackRestOver | scripts/sentry-build-contexts.ts:57 | The capture spans F, and `:L:C` follows it. |
| SentryBuildContexts.FallbackHeadSpans | scripts/sentry-build-contexts.ts:57 | The whitespace and name spans of `at name `. |
| SentryBuildContexts.FallbackTailSlices | scripts/sentry-build-contexts.ts:57 | The slices of `F:L:C` at its parts. |
| SentryBuildContexts.LineColAfter | scripts/sentry-build-contexts.ts:57 | `:L:C` is followed by a `\d+:\d+` match. |
| SentryBuildContexts.FallbackAtSpans | scripts/sentry-build-contexts.ts:57 | Spans in the fallback's order give its match. |
| SentryBuildContexts.BuildFindingSummary | scripts/sentry-build-contexts.ts:64-68 | Starts `[short] title.`, where short is the short id or else the id, and ends with the reproduce sentence. Between them stands ` Culprit: c.` when the culprit is non-empty, and nothing otherwise. |
| SentryBuildContexts.IssueRefInjective | scripts/sentry-build-contexts.ts:84 | `Sentry-<shortId>#<n>` determines the short id and the number when the short id has no '#'. |
| SentryBuildContexts.IssueRef | scripts/sentry-build-contexts.ts:84 | `Sentry-<shortId>#<n>`: the short id follows the prefix, then '#' and the number. When the short id has no '#', the first '#' of the reference separates the two. |
| SentryBuildContexts.FirstIndexOfAt | scripts/sentry-build-contexts.ts:84 | The first occurrence of a character is found at its index. |
| SentryBuildContexts.ToContext | scripts/sentry-build-contexts.ts:75-92 | The context copies the number, short id, project and tracking state. It has source "sentry", the repository, the target branch and issueRef `Sentry-<shortId>#<n>`, and exactly one finding, with no line, the inferred file and the built finding summary. |
| SentryBuildContexts.SelectedCount | scripts/sentry-build-contexts.ts:74 | `min(max(maxFixes, 0), count)`; an unparsable maximum selects nothing. |
| SentryBuildContexts.BuildContexts | scripts/sentry-build-contexts.ts:70-92 | The contexts are built from the first `max(maxFixes, 0)` issues to fix, in order. |
| SentryDispatch.AutoFixRunner | scripts/sentry-dispatch-contexts.ts:66 | Every context is run through `runAutoFix` with dryRun = false: the outcome is always a dispatch result. Without a token each run fails with "Missing token env: <name>"; with one it is the provider's answer to the deduplicated prompt. |
| SentryDispatch.CommentBody | scripts/sentry-dispatch-contexts.ts:68-75 | Every comment starts with DISPATCH_MARKER, so the reconciler counts it as a dispatch. Read back line by line it is its six lines, when the context's names and the message hold no line break. |
| SentryDispatch.MarkerOnOneLine | scripts/sentry-dispatch-contexts.ts:6 | The marker has no line break. |
| SentryDispatch.StateNameOnOneLine | scripts/sentry-dispatch-contexts.ts:72 | A tracking-state name has no line break. |
| SentryDispatch.CommentLines | scripts/sentry-dispatch-contexts.ts:68-75 | Six lines: the marker, a blank line, the context and its project, the tracking state, "Dispatch result: ok" or "failed", and a line starting "Reason: " exactly on failure. No line holds a line break when the names and the message hold none. |
| SentryDispatch.Outcomes | scripts/sentry-dispatch-contexts.ts:65-66 | One outcome per context. |
| SentryDispatch.OutcomesOfRunner | scripts/sentry-dispatch-contexts.ts:65-66 | Under `runAutoFix` with dryRun = false every outcome is a dispatch result, and without a provider token every one fails. |
| SentryDispatch.AllFailed | scripts/sentry-dispatch-contexts.ts:83-85 | When no outcome is ok, every outcome counts as a failure. |
| SentryDispatch.OutcomesSnoc | scripts/sentry-dispatch-contexts.ts:65-66 | The contexts are run in order. |
| SentryDispatch.OutcomesAt | scripts/sentry-dispatch-contexts.ts:65-66 | The k-th outcome is the run of the k-th context. |
| SentryDispatch.FailureCount | scripts/sentry-dispatch-contexts.ts:83-85 | At most one per outcome; zero exactly when every outcome is ok. |
| SentryDispatch.Postings | scripts/sentry-dispatch-contexts.ts:68-78 | One comment per context. |
| SentryDispatch.PostAll | scripts/sentry-dispatch-contexts.ts:77-81 | Posting keeps the number of issues. |
| SentryDispatch.FailureCountSnoc | scripts/sentry-dispatch-contexts.ts:83-85 | A failed outcome adds one failure, an ok one none. |
| SentryDispatch.PostingsSnoc | scripts/sentry-dispatch-contexts.ts:68-78 | The comment for a new context comes last. |
| SentryDispatch.PostAllSnoc | scripts/sentry-dispatch-contexts.ts:77-81 | The posts happen in order. |
| SentryDispatch.DispatchOne | scripts/sentry-dispatch-contexts.ts:66-85 | Runs the context, then posts its comment at `now`. No post is made without a token or without an `owner/repo` repository, and a missing issue is left alone. |
| SentryDispatch.DispatchStep | scripts/sentry-dispatch-contexts.ts:65-99 | One turn adds its outcome, its post and at most one failure. |
| SentryDispatch.DispatchAll | scripts/sentry-dispatch-contexts.ts:63-99 | The loop runs every context once, in order. It posts every comment (none without a token or an `owner/repo` repository) and counts the failed outcomes. |
| SentryDispatch.DispatchContexts | scripts/sentry-dispatch-contexts.ts:53-104 | With no context nothing runs and nothing is posted. Otherwise every context is dispatched, all fail without a provider token, and the exit code is 1 exactly when some outcome failed. |
| SentryDispatch.PostingsPrefix | scripts/sentry-dispatch-contexts.ts:65-78 | The comments of a prefix of the contexts are a prefix of the comments. |
| SentryDispatch.PostingsAreDispatchRecords | scripts/sentry-dispatch-contexts.ts:68-78 | Every comment carries the marker and goes to its context's issue. |
| SentryDispatch.PostAllKeepsNumbers | scripts/sentry-dispatch-contexts.ts:77-81 | Posting renumbers no issue. |
| SentryDispatch.SameNumbersKeepIssues | scripts/sentry-dispatch-contexts.ts:77-81 | Lists with the same numbers have the same issues and the same distinctness. |
| SentryDispatch.PostAllKeepsIssues | scripts/sentry-dispatch-contexts.ts:77-81 | Posting adds and removes no issue. |
| SentryDispatch.PostAllLeavesOthers | scripts/sentry-dispatch-contexts.ts:77-81 | An issue that is sent no comment keeps its thread. |
| SentryDispatch.PostAllNoLaterThan | scripts/sentry-dispatch-contexts.ts:77-81 | Posts at `now` keep every comment of an issue no later than `now`. |
| SentryDispatch.DispatchesNoLaterThan | scripts/sentry-sync-github-issues.ts:125-132 | When no comment is later than `now`, neither is the last dispatch. |
| SentryDispatch.LastDispatchOfSnoc | scripts/sentry-sync-github-issues.ts:125-132 | A new marked comment makes the last dispatch the later of the old one and its own time. |
| SentryDispatch.LatestDispatch | scripts/sentry-sync-github-issues.ts:125-132 | A marked comment posted at `now`, after comments no later than `now`, is the last dispatch. |
| SentryDispatch.PostedDispatchIsLast | scripts/sentry-dispatch-contexts.ts:77-81 | After a marked post at `now`, the issue's last dispatch is `now`. |
| SentryDispatch.PostAllMarksNow | scripts/sentry-dispatch-contexts.ts:65-99 | After the dispatch loop, every issue that was sent a comment has its last dispatch at `now`. |
| SentryDispatch.DispatchStartsCooldown | scripts/sentry-dispatch-contexts.ts:65-99 | For the reconciler, a dispatched issue's last attempt becomes the dispatch time: the dispatch restarts its cooldown. |
| SentryDispatch.DispatchLeavesOtherIssues | scripts/sentry-dispatch-contexts.ts:65-99 | Issues not among the contexts keep their comments. |
| Dedupe.CollapseWhitespace | src/core/dedupe.ts:6 | `replace(/\s+/g, " ")`: only input characters or ' ' remain, the only whitespace left is ' ', no two whitespace characters are adjacent, and the text starts with whitespace exactly when the input does. |
| Dedupe.CollapseRun | src/core/dedupe.ts:6 | A non-empty whitespace run before the end or a non-whitespace character becomes one space. |
| Dedupe.CollapseWord | src/core/dedupe.ts:6 | A whitespace-free text passes through collapsing unchanged, whatever follows it. |
| Dedupe.CollapseKeeps | src/core/dedupe.ts:6 | Collapsing keeps every non-whitespace character, all of them and in order: for any property only non-whitespace characters have, the characters with it are the same before and after. |
| Dedupe.KeepAllowed | src/core/dedupe.ts:7 | `replace(/[^a-z0-9:/._ -]/g, "")`: the result is exactly the input's allowed characters, in order; it is no longer than the input, and text of allowed characters is unchanged. |
| Dedupe.KeepAllowedChars | src/core/dedupe.ts:7 | Stripping leaves only characters of `[a-z0-9:/._ -]` taken from the input. |
| Dedupe.NormalizeText | src/core/dedupe.ts:3-9 | Only characters of `[a-z0-9:/._ -]` remain, taken from the lowercased input or spaces. There is no space at either end. |
| Dedupe.NormalizeKeepsWords | src/core/dedupe.ts:3-9 | Normalising keeps the lower-cased input's allowed non-whitespace characters, all of them and in order, and no other non-blank character. |
| Dedupe.NonBlankOfAllowed | src/core/dedupe.ts:7 | The non-blank characters left by stripping are the input's allowed non-whitespace characters. |
| Dedupe.NonBlankOfTrim | src/core/dedupe.ts:8 | Trimming loses no non-blank character. |
| Dedupe.CollapseRunToSpace | src/core/dedupe.ts:6 | A leading whitespace run collapses like one space. |
| Dedupe.CollapseRunAnywhere | src/core/dedupe.ts:6 | A whitespace run anywhere collapses like one space. |
| Dedupe.LowerWhitespace | src/core/dedupe.ts:5 | Lowercasing leaves whitespace alone. |
| Dedupe.LowerConcat | src/core/dedupe.ts:5 | Lowercasing works piecewise. |
| Dedupe.NormalizeIgnoresRunLength | src/core/dedupe.ts:5-6 | Texts that differ only in the length of a whitespace run normalise alike. |
| Dedupe.NormalizeIgnoresCase | src/core/dedupe.ts:5 | Texts that differ only in ASCII case normalise alike. |
| Dedupe.NormalizeLeavesDoubleSpace | src/core/dedupe.ts:6-7 | "a ! b" normalises to "a  b": whitespace is collapsed before other characters are stripped. |
| Dedupe.NormalizeCollapsesDoubleSpace | src/core/dedupe.ts:6 | "a  b" normalises to "a b", so normalising twice differs from once: `normalizeText` is not idempotent. |
| Dedupe.KeepAllowedExample | src/core/dedupe.ts:7 | "a ! b" is stripped to "a  b". |
| Dedupe.KeepAllowedDropsBetweenSpaces | src/core/dedupe.ts:7 | A disallowed character between two spaces leaves the two spaces side by side. |
| Dedupe.StripLeadingWord | src/core/dedupe.ts:15-16 | `^word\b` is removed once when the text starts with the whole word; otherwise the text is unchanged. The text changes exactly when it starts with the word followed by the end or a non-word character. |
| Dedupe.StripFixOnlyWholeWord | src/core/dedupe.ts:15 | A leading "fix" is removed only as a whole word: "fixed" stays. |
| Dedupe.StripsAtMostOneWord | src/core/dedupe.ts:15-16 | After "fix" is removed, an "issue" rests only when it follows as a word. The two replacements strip the prefix once each, in that order. |
| Dedupe.SummaryKey | src/core/dedupe.ts:14-17 | A normalised summary that starts with the whole word "fix" gives what follows "fix", trimmed. Otherwise one that starts with the whole word "issue" gives what follows "issue", trimmed. Any other gives the normalised summary itself. The key holds only allowed characters and no blank at either end. |
| Dedupe.FindingSignature | src/core/dedupe.ts:11-19 | For a file without ':', the first ':'-field of the signature is the normalised file and the second the line, an absent line read as 0. After the normalised file, the line and two ':' the signature continues with exactly the summary key. |
| Dedupe.SignatureIgnoresCase | src/core/dedupe.ts:11-19 | Findings differing only in ASCII case have one signature, as test "signature is stable" expects for "Fix race condition" and "fix race condition". |
| Dedupe.SignatureMissingLineIsZero | src/core/dedupe.ts:13 | An absent line signs like line 0. |
| Dedupe.NoColonInNormalized | src/core/dedupe.ts:3-9 | Normalising adds no ':'. |
| Dedupe.SplitTwoFields | src/core/dedupe.ts:18 | With no ':' in the first two fields, they are the first two ':'-pieces of the signature. |
| Dedupe.SignatureSeparatesLines | src/core/dedupe.ts:11-19 | For files without ':', two findings have equal signatures exactly when their normalised files, their lines (absent read as 0) and their summary keys are equal. |
| Dedupe.NumberHasNoColon | src/core/dedupe.ts:18 | A rendered line number has no ':'. |
| Dedupe.FieldsSeparate | src/core/dedupe.ts:18 | `a:l:t` with no ':' in a or l determines a, l and t. |
| Dedupe.DedupeLoop | src/core/dedupe.ts:21-33 | The loop with its `seen` set returns the first-occurrence dedupe by the key. |
| Dedupe.DedupeFindings | src/core/dedupe.ts:21-33 | An order-preserving subsequence of the unmodified input findings, with pairwise distinct signatures. Every input signature is represented, one finding per distinct signature. |
| Dedupe.DedupeFindingsIdempotent | src/core/dedupe.ts:21-33 | Deduplicating twice is deduplicating once. |
| Seqs.SubseqLength | src/core/dedupe.ts:21-33 | A subsequence is no longer than its sequence. |
| Seqs.SubseqElements | src/core/dedupe.ts:21-33 | A subsequence's elements come from its sequence. |
| Seqs.DedupeIsSubseq | src/core/dedupe.ts:21-33 | The dedupe is an order-preserving subsequence of the input. |
| Seqs.DedupeKeys | src/core/dedupe.ts:25-30 | The dedupe has the same set of keys as the input. |
| Seqs.DedupeKeysDistinct | src/core/dedupe.ts:27-28 | No two kept elements share a key. |
| Seqs.DedupeDistinct | src/core/dedupe.ts:21-33 | Input with distinct keys is returned as it is. |
| Seqs.DedupeIdempotent | src/core/dedupe.ts:21-33 | Deduplicating twice is deduplicating once. |
| Seqs.DedupeKeepsFirstOccurrences | src/core/dedupe.ts:25-30 | The first occurrence of every key is kept. |
| Seqs.DedupeKeepsOnlyFirstOccurrences | src/core/dedupe.ts:25-30 | Every kept element is the first occurrence of its key. |
| Seqs.DedupeOrder | src/core/dedupe.ts:25-30 | Kept elements keep the input's order: any two kept elements, earlier and later, are first occurrences at an earlier and a later input position. |
| Seqs.DedupeLength | src/core/dedupe.ts:21-33 | The dedupe has one element per distinct key. |
| Seqs.Chunks | scripts/sentry-sync-github-issues.ts:84-95 | A list served in pages of the given size: non-empty pages, all full except the last. |
| Seqs.FlattenChunks | scripts/sentry-sync-github-issues.ts:84-95 | The pages put together give back the list. |
| Seqs.CollectIgnoresAfterShort | scripts/sentry-sync-github-issues.ts:94 | Responses after a short page are never asked for. |
| Seqs.CollectChunks | scripts/sentry-sync-github-issues.ts:84-96 | A list served in full pages, page by page, is gathered completely, whatever its length. |
| Seqs.Filter | scripts/sentry-sync-github-issues.ts:92 | Only elements satisfying the test are kept. |
| Seqs.FilterAppend | scripts/sentry-sync-github-issues.ts:92 | Filtering works page by page. |
| Seqs.FilterKeeps | scripts/sentry-fetch-issues.ts:95 | Every element satisfying the test is kept. |
| Seqs.FilterFrom | scripts/sentry-fetch-issues.ts:95 | Every kept element comes from the input. |
| Seqs.FilterIsSubseq | scripts/sentry-fetch-issues.ts:95 | The kept elements keep their order. |
| Seqs.Reverse | scripts/sentry-fetch-issues.ts:95 | `reverse`: index k holds the element at `|s|-1-k`. |
| Seqs.ReverseReverse | scripts/sentry-fetch-issues.ts:95 | Reversing twice is the identity. |
| ReviewFindings.FirstNonBlankFrom | src/github/findings.ts:16-17 | The first line from a position whose trim is non-empty; none exactly when there is none. |
| ReviewFindings.FirstNonBlank | src/github/findings.ts:16-17 | The same from the first line. |
| ReviewFindings.Truncate | src/github/findings.ts:19 | `slice(0, n)`: a prefix of length at most n, the whole text when it is short enough. |
| ReviewFindings.SummarizeCommentBody | src/github/findings.ts:13-20 | A non-empty summary of at most 240 characters, on one line, not starting with a blank. |
| ReviewFindings.SummaryIsFirstNonBlankLine | src/github/findings.ts:13-20 | The summary is the first non-blank line, trimmed, cut to 240 characters. |
| ReviewFindings.SummaryOfBlankBody | src/github/findings.ts:19 | A body of blank lines gives "Missing summary". |
| ReviewFindings.SummaryOfFirstLine | src/github/findings.ts:13-20 | A short trimmed first line is the summary. |
| ReviewFindings.LowerAll | src/github/findings.ts:25 | The allow-list lowercased, element by element. |
| ReviewFindings.ReviewerAllowed | src/github/findings.ts:22-32 | A missing or empty login is refused. Otherwise a login is allowed exactly when, lowercased, it is in the lowercased allow-list or contains "greptile". |
| ReviewFindings.ReviewerAllowedIgnoresCase | src/github/findings.ts:24-31 | The decision ignores the login's ASCII case. |
| ReviewFindings.CommentFinding | src/github/findings.ts:45-49 | File is the path, line is `line` else `original_line`, and the summary is the body's summary. |
| ReviewFindings.ExtractedFindings | src/github/findings.ts:34-62 | Never empty. With no allowed comment it is the one fallback finding; with one, it is the findings of the allowed comments. |
| ReviewFindings.AllowedFindingsAppend | src/github/findings.ts:40-50 | Findings of a concatenation are the concatenated findings: input order is kept. |
| ReviewFindings.AllowedFindingsOfOne | src/github/findings.ts:40-50 | One comment gives its finding when allowed, nothing otherwise. |
| ReviewFindings.AllowedFindings | src/github/findings.ts:40-52 | No more findings than comments, and none exactly when no comment has an allowed author. |
| ReviewFindings.AllowedFindingsFromAllowedComments | src/github/findings.ts:40-50 | Every finding is the finding of an allowed comment. |
| ReviewFindings.ExtractFindingsFromReviewComments | src/github/findings.ts:34-62 | The push loop returns `ExtractedFindings`. |
| ReviewFindings.HumanReviewerNotAllowed | src/github/findings.ts:22-32 | "human-reviewer" is refused by a list that does not name it. |
| ReviewFindings.OnlyAllowedReviewerKept | src/github/findings.ts:34-62 | From an allowed and a refused comment only the allowed one's finding is returned. |
| ReviewFindings.BotAndHumanExample | src/github/findings.ts:34-62 | The mixed test list gives exactly `src/a.ts`, line 10, "Missing null check". |
| ReviewFindings.BotAllowed | src/github/findings.ts:22-32 | "greptile[bot]" is allowed by the test's list. |
| ReviewFindings.BotSummary | src/github/findings.ts:13-20 | The test's bot comment is summarised as "Missing null check". |
| ReviewFindings.FallbackWhenNoneAllowed | src/github/findings.ts:52-61 | Only refused comments give the one fallback finding with file "unknown" and no line. |
| WebhookSignature.VerifyWebhookSignature | src/github/webhook-signature.ts:3-19 | True only for a header starting "sha256=" whose hex decodes byte for byte to HMAC(secret, body). |
| WebhookSignature.AcceptedIffDigestDecodes | src/github/webhook-signature.ts:3-19 | A present header is accepted exactly when it starts "sha256=" and its rest decodes to the digest. |
| WebhookSignature.RejectsMissingHeader | src/github/webhook-signature.ts:4-6 | A missing or empty header is refused. |
| WebhookSignature.RejectsOtherScheme | src/github/webhook-signature.ts:4-6 | A header without the "sha256=" prefix is refused. |
| WebhookSignature.RejectsWrongLength | src/github/webhook-signature.ts:14-16 | A signature that does not decode to 32 bytes is refused. |
| WebhookSignature.RejectsShortSignature | src/github/webhook-signature.ts:14-16 | "sha256=deadbeef" is refused. |
| WebhookSignature.AcceptsOwnSignature | src/github/webhook-signature.ts:8-18 | "sha256=" and the lowercase hex of the HMAC is accepted. |
| WebhookSignature.AcceptsUpperCaseAndTrailingText | src/github/webhook-signature.ts:11-18 | Upper-case hex is accepted, and so is text after the 64 digits that does not start a hex pair. |
| Hex.HexValue | src/github/webhook-signature.ts:11 | A hex digit's value is below 16. |
| Hex.HexDigit | src/github/webhook-signature.ts:9 | The lowercase digit of a nibble, whose value is the nibble. |
| Hex.HexEncode | src/github/webhook-signature.ts:9 | Two lowercase digits per byte. |
| Hex.HexDecode | src/github/webhook-signature.ts:11-12 | At most one byte per two characters. |
| Hex.HexDecodeEncodeAppend | src/github/webhook-signature.ts:9-12 | Decoding the encoding followed by more text gives the bytes and the decoding of the rest. |
| Hex.HexDecodeEncode | src/github/webhook-signature.ts:9-12 | Decoding inverts encoding. |
| Hex.HexDecodeUpperEncode | src/github/webhook-signature.ts:11 | Decoding also inverts upper-case encoding. |
| Hex.HexDecodeStops | src/github/webhook-signature.ts:11 | Decoding stops at a character that is no hex digit. |
| Base64.UrlChar | src/github/app-auth.ts:10-16 | The base64url alphabet. |
| Base64.UrlValue | src/github/app-auth.ts:10-16 | The value of a base64url character, inverse to `UrlChar`. |
| Base64.StdEncode | src/github/app-auth.ts:12 | Standard base64 makes four characters per started group of three bytes. |
| Base64.RemoveAll | src/github/app-auth.ts:13 | `replace(/=/g, "")` removes every '='. |
| Base64.ReplaceAll | src/github/app-auth.ts:14-15 | `replace(/x/g, y)` replaces every x by y, length unchanged. |
| Base64.UrlEncode | src/github/app-auth.ts:10-16 | base64url without padding: only URL characters, `ceil(4n/3)` of them. |
| Base64.Base64UrlIsUrlEncode | src/github/app-auth.ts:10-16 | Standard base64 with '=' removed, '+' as '-' and '/' as '_' is base64url without padding, as section 5 of RFC 4648 defines it. |
| Base64.Base64UrlAlphabet | src/github/app-auth.ts:10-16 | Its output has only `[A-Za-z0-9_-]`, with no '=' and no '.'. |
| Base64.UrlDecodeEncode | src/github/app-auth.ts:10-16 | Decoding inverts the encoding, for every byte string. |
| Base64.UrlEncodeStartsWithEy | src/github/app-auth.ts:24-31 | Bytes starting `{"` encode to text starting "ey". |
| Bytes.Utf8Char | src/github/app-auth.ts:11 | One to four bytes per character; one exactly for ASCII. |
| Bytes.Utf8Encode | src/github/app-auth.ts:11 | `Buffer.from(s, "utf8")`: at least one byte per character. |
| Bytes.Utf8EncodeAppend | src/github/app-auth.ts:11 | UTF-8 encoding works piecewise. |
| Bytes.Utf8EncodeAscii | src/github/app-auth.ts:11 | ASCII text encodes to its character codes. |
| Json.Quote | src/github/app-auth.ts:24-31 | A JSON string literal is wrapped in double quotes. |
| Json.Escape | src/github/app-auth.ts:24-31 | The escaped text is no shorter than the text, and JSON unescaping gives the text back. |
| Json.QuoteInjective | src/github/app-auth.ts:24-31 | Different strings give different literals. |
| Json.EscapePlain | src/github/app-auth.ts:24-31 | Text that needs no escape is written as it is. |
| AppAuth.Base64Url | src/github/app-auth.ts:10-16 | Only base64url characters, no '=' or '.', and the output decodes to the UTF-8 bytes of the input. |
| AppAuth.JwtClaims | src/github/app-auth.ts:25-31 | iat = now − 60, exp = now + 540, iss = app id, so exp − iat = 600. |
| AppAuth.PayloadJsonInjective | src/github/app-auth.ts:26-30 | The payload JSON determines the claims. |
| AppAuth.ReplaceEscapedNewlines | src/github/app-auth.ts:19 | `replace(/\\n/g, "\n")` leaves no backslash-n pair. |
| AppAuth.NormalizePrivateKey | src/github/app-auth.ts:18-20 | The result contains no backslash-n pair, and a key without one is returned unchanged. |
| AppAuth.NormalizesEscapedKey | src/github/app-auth.ts:18-20 | A key with one backslash-n pair between plain parts gets a line break there. |
| AppAuth.EscapedKeyIsReplaced | src/github/app-auth.ts:19 | A key with a backslash-n pair goes through the replacement. |
| AppAuth.ReplacePlain | src/github/app-auth.ts:19 | A key without a backslash-n pair is left as it is by the replacement. |
| AppAuth.CompactJws | src/github/app-auth.ts:33-44 | Section 7.1 of RFC 7515: three '.'-segments. The first two joined by '.' are the signing input; they decode to the header and payload, and the third to their signature. |
| AppAuth.ThreeSegments | src/github/app-auth.ts:44 | Three dot-free parts joined by '.' split back into them. |
| AppAuth.BuildGitHubAppJwt | src/github/app-auth.ts:22-45 | The JWT decodes to `{"alg":"RS256","typ":"JWT"}`, the claims for now, and the signature of the first two segments under the normalised key. |
| AppAuth.PayloadJson | src/github/app-auth.ts:26-30 | The claims are written as a JSON object: the text starts `{"` and ends with '}'. |
| AppAuth.JwtStartsWithEy | src/github/app-auth.ts:22-45 | The JWT starts with "ey". |
| AppAuth.CompactJwsStartsWithEy | src/github/app-auth.ts:33-44 | A JWS whose header JSON starts `{"` starts with "ey". |
| AppAuth.StripTrailingSlash | src/github/app-auth.ts:61 | `replace(/\/$/, "")` removes at most one trailing '/', and does remove one when present. |
| AppAuth.InstallationTokenUrl | src/github/app-auth.ts:61 | The base without its trailing '/', then `/app/installations/`, the installation id and `/access_tokens`, in that order. |
| AppAuth.TokenUrlIgnoresOneTrailingSlash | src/github/app-auth.ts:61 | One trailing '/' on the base changes nothing; a second one is kept. |
| AppAuth.InstallationTokenUrlInjective | src/github/app-auth.ts:61 | Different installation ids give different URLs on one base. |
| AppAuth.ParseRepository | src/github/app-auth.ts:114-120 | Success gives the non-empty, slash-free first two '/'-parts, whose join starts the name. Failure's message is "Invalid repository name: <name>". |
| AppAuth.ParseRepositoryRoundTrip | src/github/app-auth.ts:114-120 | `owner/repo` followed by nothing or by further '/'-parts parses to owner and repo. |
| AppAuth.ParseRepositoryRejects | src/github/app-auth.ts:114-120 | A name without '/' or starting with '/' is refused. |
| AppAuth.ParseRepositoryRejectsEmptyRepo | src/github/app-auth.ts:114-120 | `owner/` and `owner//…`, whose repository part is empty, are refused. |
| AutoFix.FindingLines | src/modes/auto-fix.ts:6-13 | Line k is `<k+1>. <file>[:<line>] -> <summary>`. |
| AutoFix.PromptHead | src/modes/auto-fix.ts:15-30 | The twelve fixed and event lines before the findings. |
| AutoFix.FindingLine | src/modes/auto-fix.ts:8-11 | A finding line has a ':' exactly when the finding has a line, 0 included, given that file and summary have none. It has no line break when its fields have none. |
| AutoFix.BuildAutoFixPrompt | src/modes/auto-fix.ts:15-33 | The prompt joins the head, the finding lines (a blank line when there are none), a blank line and the closing line. With one-line fields it splits back into exactly these lines: repository, branch, reference, the workflow, "Findings:", the finding lines and the closing line, in order. |
| AutoFix.RenderFindings | src/modes/auto-fix.ts:6-13 | No findings render as "". Otherwise, with one-line fields, the text splits back into the finding lines. |
| AutoFix.PromptHeadOnOneLine | src/modes/auto-fix.ts:17-28 | The head lines have no line break when the event fields have none. |
| AutoFix.FindingLinesOnOneLine | src/modes/auto-fix.ts:6-13 | The finding lines have no line break when the findings have none. |
| AutoFix.PromptParts | src/modes/auto-fix.ts:15-33 | Joining the head, the rendered findings, a blank line and the closing line equals joining the head, the finding lines (a blank line when there are none), a blank line and the closing line. |
| AutoFix.PromptLines | src/modes/auto-fix.ts:15-33 | With one-line fields, that text splits back into the head, the finding lines (or a blank line) and the closing lines, in order. |
| AutoFix.DryRunDispatchesNothing | src/modes/auto-fix.ts:40-50 | A dry run's result does not depend on the environment or on the provider. |
| AutoFix.MissingTokenFails | src/modes/auto-fix.ts:52-63 | Without a token the result does not depend on what the provider would answer: nothing is sent. |
| AutoFix.RunAutoFix | src/modes/auto-fix.ts:35-71 | A dry run is ok and carries the prompt of the deduplicated findings. Otherwise an empty token fails with httpCode 0, the model and "Missing token env: <name>", and a token gives the provider's answer to the base URL, token, model and that prompt, unchanged. |
| AutoFix.NormalizedEvent | src/modes/auto-fix.ts:40-41 | The event with only its findings replaced: an order-preserving subsequence of them, with pairwise distinct signatures and every signature kept. |
| AutoFix.EnvValue | src/modes/auto-fix.ts:53 | `process.env[name] ?? ""`: empty exactly when the variable is absent or empty, its value otherwise. |
| AutoFix.RunIgnoresRepeatedNormalization | src/modes/auto-fix.ts:40-42 | Findings already deduplicated give the same run. |
| ServerApp.ToAutoFixEvent | src/server/app.ts:24-41 | An event exactly for state "changes_requested" with a non-empty full name and head ref. It has source greptile, that repository and branch, one placeholder finding, and issueRef "PR-" followed by the pull request's number, or "unknown" when it has none. |
| ServerApp.IssueRefIdentifiesPullRequest | src/server/app.ts:33 | `PR-<number or "unknown">` tells pull-request numbers apart. |
| ServerApp.NumberIsNotUnknown | src/server/app.ts:33 | No number renders as "unknown". |
| ServerApp.HealthCheck | src/server/app.ts:46 | `GET /health` answers 200 with ok true. |
| ServerApp.IgnoredBeforeModeCheck | src/server/app.ts:48-54 | A payload that is no event gets 202 "Event ignored", whether or not auto-fix is enabled. |
| ServerApp.HandleWebhook | src/server/app.ts:48-62 | A payload that gives no event is answered 202 with `ok` and "Event ignored"; an event while auto-fix is off, 202 with `ok` and "autoFix mode is disabled". The status is 202 exactly when nothing ran, 200 exactly when the run was ok and 502 exactly when it failed, and a run's outcome is the body; no other status is answered. |
| ServerApp.ReviewWithoutTokenFails | src/server/app.ts:56-61 | Without the provider token an enabled review event is answered 502 with "Missing token env: <name>". |
| BugHunt.BugHuntCommandUnique | src/modes/bug-hunt.ts:10-30 | The command's shape determines it. |
| BugHunt.FlagsPresentWhenGiven | src/modes/bug-hunt.ts:20-26 | `--session-root` is at its place exactly when a session root is given. `--gate-cmd` follows it exactly when a gate command is given. |
| BugHunt.BuildBugHuntCommand | src/modes/bug-hunt.ts:10-30 | Built by pushes: `[script, --base, branch, --profile, profile]`, the optional pairs in order, then `--commit-prefixes` and the prefixes joined by ","; length 7 + 2·[root] + 2·[gate]. |
| BugHunt.RunBugHunt | src/modes/bug-hunt.ts:32-59 | A dry run is ok with "Dry-run only. No processes started.". Otherwise it is ok exactly when the exit code is 0, with the start or failure message. The command is always the command joined by spaces. |
| Text.Lower | src/core/dedupe.ts:5 | ASCII lowercasing, character by character. |
| Text.LowerIdempotent | src/core/dedupe.ts:5 | Lowercasing twice is lowercasing once. |
| Text.Trim | src/github/findings.ts:16 | `trim`: the result has no whitespace at either end, and an unpadded text is its own trim. |
| Text.TrimInfix | src/github/findings.ts:16 | `trim` removes only whitespace, at the two ends: the result is the infix of the text that follows its leading whitespace, with only whitespace after it. |
| Text.TrimPadded | src/github/findings.ts:16 | Leading blanks before an unpadded text are removed by `trim`. |
| Text.Split | src/github/findings.ts:15 | `split` on one character: the pieces hold no separator. |
| Text.JoinSplit | src/github/findings.ts:15 | Joining the pieces with the separator restores the text. |
| Text.SplitJoin | src/modes/auto-fix.ts:15-33 | Splitting separator-free pieces joined by the separator gives them back. |
| Text.ParseNatToString | src/modes/auto-fix.ts:9 | Decimal rendering of a natural number reads back to it. |
| Text.IntToString | src/modes/auto-fix.ts:9 | Integer rendering: digits with a leading '-' exactly for negative numbers. |
| Text.IntToStringInjective | src/server/app.ts:33 | Different integers render differently. |

## Left out

- Networking is not modelled: HTTP, `fetch`, the GitHub and Sentry clients and the provider's `dispatchOpenClaw`. Answers arrive as pages, `Option` values or function values, and transport failures are not modelled beyond what they change. A failed comment post in the dispatch script is caught and only logged, so the model just makes no post. A post to an issue number the tracker does not have is a no-op.
- Cryptography: HMAC-SHA256 and the RSA-SHA256 signer are function parameters. `timingSafeEqual` is byte equality; its constant-time property cannot be stated.
- Dates and floating point: timestamps are integer milliseconds, and parsing `created_at` and `lastSeen` strings is a function parameter (`seenAt`). The elapsed-hours division is compared in integers, and `MsComparisonIsHours` relates that to the division over the reals, not to IEEE doubles.
- One clock reading per run: the reconciler reads `Date.now()` once per issue, but the model uses one `now` for the whole run.
- `Number.parseInt` of the cooldown and the `--max` flags is not modelled. They arrive as integers, or as `None` for NaN. `Math.max(NaN, 0)` selects nothing. A NaN cooldown never holds an issue back, because every comparison with NaN is false, and the requeue comment then reads "after NaNh cooldown".
- The order of GitHub's issue listing is not in the script: the request asks for no sort. The model takes the API's default, newest created first, so `Snapshot` lists the tracker's issues in reverse creation order, and `find` matches the newest tracked issue that carries the token.
- Number formatting: numbers are rendered as JavaScript prints integers. Fractional or non-finite line numbers are not modelled.
- `toLowerCase` and `toUpperCase` act on ASCII letters only.
- `Promise.all` in the fetcher is a sequential map. Concurrency and the interleaving of requests are not modelled.
- JSON files, `JSON.parse`, `Bun.file`/`Bun.write`, `process.argv`/`env`/`exit` and console output are not modelled. The scripts' inputs and outputs are parameters and results. The dispatcher's exit code is a result.
- loadConfig in the dispatch script is not modelled. It happens after the empty-contexts check, so an empty list loads nothing; the model takes the loaded provider settings as the `Runner`.
- Bug-hunt: `path.resolve` is left out (the script path is a parameter) and so is the spawned process (its exit code is a parameter, `None` for a signal).
- The review's user login in `src/server/app.ts` is never read by the route, and the model does not carry it. The route checks no signature, event header or action.
- ReviewFindings.Truncate: counts characters, not UTF-16 code units as `slice` does. For text outside the Basic Multilingual Plane the source keeps fewer characters than the model and may cut a surrogate pair in half.
- ReviewFindings.SummarizeCommentBody: its bound of 240 is in characters, not in UTF-16 code units, for the same reason.
- SentryFetch.SortByLastSeen: states newest-first order and permutation, but not the stability of `Array.prototype.sort` among equally recent issues.
- NormalizesEscapedKey: requires plain text around the single backslash-n pair, and `a` not ending in a backslash. `NormalizePrivateKey`'s own contract and `EscapedKeyIsReplaced` cover every key, but the exact replacement result is stated only for this shape.
- SentryFetch.ValueBlock: the line-by-line reading (also in `StackTraceLines`) is stated only for exceptions whose texts hold no line break and whose type does not start with whitespace. A line break inside a message splits it over several lines, and a leading blank in the type is trimmed away.
- Dedupe.SignatureSeparatesLines: stated for file names without ':'. A ':' inside a file name can make two findings with different files or lines share a signature.
- Dedupe: the test that three findings become two is stated generically (`DedupeFindings` gives one finding per distinct signature), not for the test's literal strings.
- The Sentry issue body can contain the dispatch marker when Sentry's own text does. Only comments are read back, so the model proves the absence of the marker for the reopen and requeue comments only; for the issue body it proves only that it starts with the track marker.
- `Buffer.from(hex)` decodes the leading valid pairs and ignores the rest. So `verifyGitHubWebhookSignature` accepts a signature of 64 hex digits followed by text that does not begin a hex pair, and upper-case digits. The check is not string equality with the expected hex. `AcceptsUpperCaseAndTrailingText` states this.
- Configuration schema, templates, the CLI, the logger and the deploy checks are not part of this model.
