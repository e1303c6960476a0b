/** scripts/sentry-dispatch-contexts.ts: every selected context goes through
    auto-fix (never as a dry run), and the outcome is recorded as a comment
    carrying the dispatch marker on the context's GitHub issue. Those
    comments are the ledger the reconciler reads its cooldown from. */
module SentryDispatch {
  import opened Wrappers
  import opened Text
  import opened Seqs
  import opened Types
  import opened SentryTypes
  import opened IssueTracker
  import opened SentrySync
  import opened SentryBuildContexts
  import opened AutoFix
  import opened AppAuth

  /** How a context's event is run: `runAutoFix` with the loaded
      configuration's provider settings, the environment and the provider's
      answer to a request fixed, as `AutoFixRunner` builds it. */
  datatype Runner = Runner(run: AutoFixEvent -> AutoFixOutcome)

  /** `runAutoFix(config, event, false)`: never a dry run. Without the
      provider's token every run fails with the missing-token message;
      with it, every run reports the provider's answer to the prompt of the
      deduplicated findings. */
  function AutoFixRunner(provider: ProviderConfig, env: map<string, string>,
                         dispatch: ProviderRequest -> DispatchResult): (r: Runner)
    ensures forall e :: r.run(e).Dispatched?
    ensures EnvValue(env, provider.tokenEnv) == "" ==>
              forall e :: !r.run(e).Ok() && r.run(e).Message() == "Missing token env: " + provider.tokenEnv
    ensures EnvValue(env, provider.tokenEnv) != "" ==>
              forall e :: r.run(e).result
                          == dispatch(ProviderRequest(provider.baseUrl, EnvValue(env, provider.tokenEnv), provider.model,
                                                      BuildAutoFixPrompt(NormalizedEvent(e))))
  {
    Runner(e => RunAutoFix(provider, e, false, env, dispatch))
  }

  /** The run of one context's event. */
  function Outcome(runner: Runner, c: DispatchContext): AutoFixOutcome {
    runner.run(c.event)
  }

  // ---------------------------------------------------------------------
  // The comment

  function ResultWord(ok: bool): string {
    if ok then "ok" else "failed"
  }

  lemma MarkerOnOneLine()
    ensures '\n' !in DispatchMarker
  {
  }

  lemma StateNameOnOneLine(s: TrackingState)
    ensures '\n' !in TrackingStateName(s)
  {
  }

  /** The comment's six lines: the marker, a blank line, the context, the
      tracking state, the result word, and a `Reason:` line exactly when the
      run failed (blank after a success). No line holds a line break when
      the context's names and the message hold none. */
  function CommentLines(c: DispatchContext, o: AutoFixOutcome): (r: seq<string>)
    ensures |r| == 6 && r[0] == DispatchMarker && r[1] == ""
    ensures r[4] == "Dispatch result: " + (if o.Ok() then "ok" else "failed")
    ensures StartsWith(r[5], "Reason: ") <==> !o.Ok()
    ensures '\n' !in c.shortId && '\n' !in c.project && '\n' !in o.Message() ==>
              forall k :: 0 <= k < |r| ==> '\n' !in r[k]
  {
    var reason := if o.Ok() then "" else "Reason: " + o.Message();
    assert !o.Ok() ==> reason[..8] == "Reason: ";
    MarkerOnOneLine();
    StateNameOnOneLine(c.trackingState);
    [ DispatchMarker,
      "",
      "Sentry context: " + c.shortId + " (" + c.project + ")",
      "Tracking state: " + TrackingStateName(c.trackingState),
      "Dispatch result: " + ResultWord(o.Ok()),
      reason ]
  }

  /** Every comment the script writes opens with the dispatch marker, so the
      reconciler counts it as a dispatch, whenever it was written; read line
      by line it is its six lines when the context's names and the message
      hold no line break. */
  function CommentBody(c: DispatchContext, o: AutoFixOutcome): (r: string)
    ensures StartsWith(r, DispatchMarker) && Contains(r, DispatchMarker)
    ensures '\n' !in c.shortId && '\n' !in c.project && '\n' !in o.Message() ==>
              Split(r, '\n') == CommentLines(c, o)
  {
    var lines := CommentLines(c, o);
    var rest := "\n" + Join(lines[1..], "\n");
    assert Join(lines, "\n") == DispatchMarker + rest;
    ContainsPrefix(DispatchMarker, rest);
    assert (DispatchMarker + rest)[..|DispatchMarker|] == DispatchMarker;
    if '\n' !in c.shortId && '\n' !in c.project && '\n' !in o.Message() then
      SplitJoin(lines, '\n');
      Join(lines, "\n")
    else
      Join(lines, "\n")
  }

  // ---------------------------------------------------------------------
  // The run, as functions of the contexts

  /** The outcome of each context's run, in order. */
  function Outcomes(runner: Runner, contexts: seq<DispatchContext>): (r: seq<AutoFixOutcome>)
    ensures |r| == |contexts|
    decreases |contexts|
  {
    if contexts == [] then []
    else Outcomes(runner, contexts[..|contexts| - 1]) + [Outcome(runner, contexts[|contexts| - 1])]
  }

  lemma {:induction false} OutcomesSnoc(runner: Runner, contexts: seq<DispatchContext>, c: DispatchContext)
    ensures Outcomes(runner, contexts + [c]) == Outcomes(runner, contexts) + [Outcome(runner, c)]
  {
    assert (contexts + [c])[..|contexts|] == contexts;
  }

  /** The k-th outcome is the run of the k-th context. */
  lemma {:induction false} OutcomesAt(runner: Runner, contexts: seq<DispatchContext>, k: nat)
    requires k < |contexts|
    ensures Outcomes(runner, contexts)[k] == Outcome(runner, contexts[k])
    decreases |contexts|
  {
    var m := |contexts| - 1;
    if k < m {
      OutcomesAt(runner, contexts[..m], k);
    }
  }

  /** The number of failed runs. */
  function FailureCount(outcomes: seq<AutoFixOutcome>): (r: nat)
    ensures r <= |outcomes|
    ensures r == 0 <==> forall k :: 0 <= k < |outcomes| ==> outcomes[k].Ok()
    decreases |outcomes|
  {
    if outcomes == [] then 0
    else
      var earlier := outcomes[..|outcomes| - 1];
      assert forall k :: 0 <= k < |earlier| ==> earlier[k] == outcomes[k];
      FailureCount(earlier) + if outcomes[|outcomes| - 1].Ok() then 0 else 1
  }

  /** A comment to post: the issue's number and the body. */
  datatype Posting = Posting(number: int, body: string)

  /** The comment each context's run leaves, in order. */
  function Postings(contexts: seq<DispatchContext>, outcomes: seq<AutoFixOutcome>): (r: seq<Posting>)
    requires |outcomes| == |contexts|
    ensures |r| == |contexts|
  {
    seq(|contexts|, k requires 0 <= k < |contexts| => Posting(contexts[k].ghIssueNumber, CommentBody(contexts[k], outcomes[k])))
  }

  /** The issues after each comment is posted, in order. */
  function PostAll(issues: seq<Issue>, postings: seq<Posting>, now: int): (r: seq<Issue>)
    ensures |r| == |issues|
    decreases |postings|
  {
    if postings == [] then issues
    else
      var p := postings[|postings| - 1];
      WithComment(PostAll(issues, postings[..|postings| - 1], now), p.number, Comment(Some(p.body), now))
  }

  lemma {:induction false} FailureCountSnoc(outcomes: seq<AutoFixOutcome>, o: AutoFixOutcome)
    ensures FailureCount(outcomes + [o]) == FailureCount(outcomes) + if o.Ok() then 0 else 1
  {
    assert (outcomes + [o])[..|outcomes|] == outcomes;
  }

  lemma {:induction false} PostingsSnoc(contexts: seq<DispatchContext>, outcomes: seq<AutoFixOutcome>,
                                        c: DispatchContext, o: AutoFixOutcome)
    requires |outcomes| == |contexts|
    ensures Postings(contexts + [c], outcomes + [o])
         == Postings(contexts, outcomes) + [Posting(c.ghIssueNumber, CommentBody(c, o))]
  {
    var a := Postings(contexts + [c], outcomes + [o]);
    var b := Postings(contexts, outcomes) + [Posting(c.ghIssueNumber, CommentBody(c, o))];
    forall k | 0 <= k < |a|
      ensures a[k] == b[k]
    {
      if k < |contexts| {
        assert (contexts + [c])[k] == contexts[k] && (outcomes + [o])[k] == outcomes[k];
      }
    }
  }

  lemma {:induction false} PostAllSnoc(issues: seq<Issue>, postings: seq<Posting>, p: Posting, now: int)
    ensures PostAll(issues, postings + [p], now) == WithComment(PostAll(issues, postings, now), p.number, Comment(Some(p.body), now))
  {
    assert (postings + [p])[..|postings|] == postings;
  }

  /** Whether `ghComment` writes a comment: it returns at once without a
      token or a repository, and it posts to `repos/<owner>/<repo>` from
      the first two '/'-parts of the name. A name without two non-empty
      parts ("foo", "foo/") gives a path the API does not serve; that
      request fails, and the script only logs the error. */
  predicate Posts(githubToken: string, repository: string) {
    githubToken != "" && repository != "" && ParseRepository(repository).Success?
  }

  // ---------------------------------------------------------------------
  // The run

  /** One turn of `main`'s loop: the run, then its comment. */
  method DispatchOne(tracker: Tracker, c: DispatchContext, runner: Runner,
                     githubToken: string, repository: string, now: int)
    returns (result: AutoFixOutcome)
    requires tracker.Valid()
    modifies tracker
    ensures tracker.Valid() && tracker.nextNumber == old(tracker.nextNumber)
    ensures result == Outcome(runner, c)
    ensures Posts(githubToken, repository) ==> tracker.issues == PostAll(old(tracker.issues), Postings([c], [result]), now)
    ensures !Posts(githubToken, repository) ==> tracker.issues == old(tracker.issues)
  {
    result := Outcome(runner, c);
    var body := CommentBody(c, result);
    PostingsSnoc([], [], c, result);
    PostAllSnoc(tracker.issues, [], Posting(c.ghIssueNumber, body), now);
    if Posts(githubToken, repository) {
      var posted := tracker.AddComment(c.ghIssueNumber, body, now);
    }
  }

  /** What one turn of the loop adds to the outcomes, the postings and the
      failure count. */
  lemma {:induction false} DispatchStep(start: seq<Issue>, contexts: seq<DispatchContext>, outcomes: seq<AutoFixOutcome>,
                                        runner: Runner, i: nat, result: AutoFixOutcome, now: int)
    requires i < |contexts| && outcomes == Outcomes(runner, contexts[..i]) && result == Outcome(runner, contexts[i])
    ensures outcomes + [result] == Outcomes(runner, contexts[..i + 1])
    ensures PostAll(start, Postings(contexts[..i + 1], outcomes + [result]), now)
         == PostAll(PostAll(start, Postings(contexts[..i], outcomes), now), Postings([contexts[i]], [result]), now)
    ensures FailureCount(outcomes + [result]) == FailureCount(outcomes) + if result.Ok() then 0 else 1
  {
    var p := Posting(contexts[i].ghIssueNumber, CommentBody(contexts[i], result));
    var mid := PostAll(start, Postings(contexts[..i], outcomes), now);
    TakeOneMore(contexts, i);
    OutcomesSnoc(runner, contexts[..i], contexts[i]);
    PostingsSnoc(contexts[..i], outcomes, contexts[i], result);
    PostingsSnoc([], [], contexts[i], result);
    PostAllSnoc(start, Postings(contexts[..i], outcomes), p, now);
    PostAllSnoc(mid, [], p, now);
    FailureCountSnoc(outcomes, result);
  }

  /** `main`'s loop: each context is run in order, its comment posted (a
      failed post is only reported) and its outcome listed. */
  method DispatchAll(tracker: Tracker, contexts: seq<DispatchContext>, runner: Runner,
                     githubToken: string, repository: string, now: int)
    returns (outcomes: seq<AutoFixOutcome>, failures: nat)
    requires tracker.Valid()
    modifies tracker
    ensures tracker.Valid() && tracker.nextNumber == old(tracker.nextNumber)
    ensures outcomes == Outcomes(runner, contexts)
    ensures Posts(githubToken, repository) ==> tracker.issues == PostAll(old(tracker.issues), Postings(contexts, outcomes), now)
    ensures !Posts(githubToken, repository) ==> tracker.issues == old(tracker.issues)
    ensures failures == FailureCount(outcomes)
  {
    outcomes := [];
    failures := 0;
    ghost var start := tracker.issues;
    for i := 0 to |contexts|
      invariant tracker.Valid() && tracker.nextNumber == old(tracker.nextNumber)
      invariant outcomes == Outcomes(runner, contexts[..i])
      invariant Posts(githubToken, repository) ==> tracker.issues == PostAll(start, Postings(contexts[..i], outcomes), now)
      invariant !Posts(githubToken, repository) ==> tracker.issues == start
      invariant failures == FailureCount(outcomes)
    {
      var result := DispatchOne(tracker, contexts[i], runner, githubToken, repository, now);
      if !result.Ok() {
        failures := failures + 1;
      }
      DispatchStep(start, contexts, outcomes, runner, i, result, now);
      outcomes := outcomes + [result];
    }
    assert contexts[..|contexts|] == contexts;
  }

  /** `main`: no contexts, no work; otherwise every context is run through
      `runAutoFix` with the loaded provider settings and `dryRun` false, and
      its comment posted. The exit code is 1 exactly when some run failed;
      without the provider's token that is every run. */
  method DispatchContexts(tracker: Tracker, contexts: seq<DispatchContext>, provider: ProviderConfig,
                          env: map<string, string>, dispatch: ProviderRequest -> DispatchResult,
                          githubToken: string, repository: string, now: int)
    returns (outcomes: seq<AutoFixOutcome>, failures: nat, exitCode: int)
    requires tracker.Valid()
    modifies tracker
    ensures tracker.Valid() && tracker.nextNumber == old(tracker.nextNumber)
    ensures outcomes == Outcomes(AutoFixRunner(provider, env, dispatch), contexts)
    ensures forall k :: 0 <= k < |outcomes| ==> outcomes[k].Dispatched?
    ensures Posts(githubToken, repository) ==> tracker.issues == PostAll(old(tracker.issues), Postings(contexts, outcomes), now)
    ensures !Posts(githubToken, repository) ==> tracker.issues == old(tracker.issues)
    ensures failures == FailureCount(outcomes)
    ensures EnvValue(env, provider.tokenEnv) == "" ==> failures == |contexts|
    ensures exitCode == if failures > 0 then 1 else 0
  {
    var runner := AutoFixRunner(provider, env, dispatch);
    if |contexts| == 0 {
      return [], 0, 0;
    }
    outcomes, failures := DispatchAll(tracker, contexts, runner, githubToken, repository, now);
    OutcomesOfRunner(provider, env, dispatch, contexts);
    exitCode := if failures > 0 then 1 else 0;
  }

  /** Under `AutoFixRunner` no outcome is a dry run, and without the
      provider's token every outcome is a failure. */
  lemma OutcomesOfRunner(provider: ProviderConfig, env: map<string, string>,
                         dispatch: ProviderRequest -> DispatchResult, contexts: seq<DispatchContext>)
    ensures var outcomes := Outcomes(AutoFixRunner(provider, env, dispatch), contexts);
            (forall k :: 0 <= k < |outcomes| ==> outcomes[k].Dispatched?)
            && (EnvValue(env, provider.tokenEnv) == "" ==> FailureCount(outcomes) == |contexts|)
  {
    var runner := AutoFixRunner(provider, env, dispatch);
    var outcomes := Outcomes(runner, contexts);
    forall k | 0 <= k < |outcomes| ensures outcomes[k] == runner.run(contexts[k].event) {
      OutcomesAt(runner, contexts, k);
    }
    if EnvValue(env, provider.tokenEnv) == "" {
      AllFailed(outcomes);
    }
  }

  /** When every run failed, the failure count is the number of runs. */
  lemma {:induction false} AllFailed(outcomes: seq<AutoFixOutcome>)
    requires forall k :: 0 <= k < |outcomes| ==> !outcomes[k].Ok()
    ensures FailureCount(outcomes) == |outcomes|
    decreases |outcomes|
  {
    if outcomes != [] {
      var earlier := outcomes[..|outcomes| - 1];
      assert forall k :: 0 <= k < |earlier| ==> earlier[k] == outcomes[k];
      AllFailed(earlier);
    }
  }

  // ---------------------------------------------------------------------
  // The ledger after a run

  /** Every posting of a run carries the dispatch marker. */
  predicate AllDispatchRecords(postings: seq<Posting>)
    decreases |postings|
  {
    postings == [] || (AllDispatchRecords(postings[..|postings| - 1]) && Contains(postings[|postings| - 1].body, DispatchMarker))
  }

  lemma {:induction false} PostingsPrefix(contexts: seq<DispatchContext>, outcomes: seq<AutoFixOutcome>, m: nat)
    requires |outcomes| == |contexts| && m <= |contexts|
    ensures Postings(contexts, outcomes)[..m] == Postings(contexts[..m], outcomes[..m])
  {
    var a := Postings(contexts, outcomes)[..m];
    var b := Postings(contexts[..m], outcomes[..m]);
    forall k | 0 <= k < m
      ensures a[k] == b[k]
    {
      assert contexts[..m][k] == contexts[k] && outcomes[..m][k] == outcomes[k];
    }
  }

  /** A run's postings go to the contexts' issues and are all dispatch
      records. */
  lemma {:induction false} PostingsAreDispatchRecords(contexts: seq<DispatchContext>, outcomes: seq<AutoFixOutcome>)
    requires |outcomes| == |contexts|
    ensures AllDispatchRecords(Postings(contexts, outcomes))
    ensures forall k :: 0 <= k < |contexts| ==> Postings(contexts, outcomes)[k].number == contexts[k].ghIssueNumber
    decreases |contexts|
  {
    if contexts != [] {
      var m := |contexts| - 1;
      PostingsAreDispatchRecords(contexts[..m], outcomes[..m]);
      PostingsPrefix(contexts, outcomes, m);
    }
  }

  /** Posting keeps each issue's number in its place. */
  lemma {:induction false} PostAllKeepsNumbers(issues: seq<Issue>, postings: seq<Posting>, now: int)
    ensures forall i :: 0 <= i < |issues| ==> PostAll(issues, postings, now)[i].number == issues[i].number
    decreases |postings|
  {
    if postings != [] {
      var mid := PostAll(issues, postings[..|postings| - 1], now);
      PostAllKeepsNumbers(issues, postings[..|postings| - 1], now);
      var p := postings[|postings| - 1];
      assert forall i :: 0 <= i < |mid| ==> WithComment(mid, p.number, Comment(Some(p.body), now))[i].number == mid[i].number;
    }
  }

  lemma {:induction false} SameNumbersKeepIssues(a: seq<Issue>, b: seq<Issue>, n: int)
    requires |a| == |b| && forall i :: 0 <= i < |a| ==> a[i].number == b[i].number
    ensures DistinctNumbers(a) ==> DistinctNumbers(b)
    ensures HasIssue(a, n) == HasIssue(b, n)
  {
    IndexOfSameNumbers(a, b);
  }

  /** Posting keeps the numbers, so it keeps them distinct and keeps which
      issues exist. */
  lemma PostAllKeepsIssues(issues: seq<Issue>, postings: seq<Posting>, now: int, n: int)
    ensures DistinctNumbers(issues) ==> DistinctNumbers(PostAll(issues, postings, now))
    ensures HasIssue(PostAll(issues, postings, now), n) == HasIssue(issues, n)
  {
    PostAllKeepsNumbers(issues, postings, now);
    SameNumbersKeepIssues(issues, PostAll(issues, postings, now), n);
  }

  ghost predicate CommentsNoLaterThan(issues: seq<Issue>, n: int, now: int) {
    forall k :: 0 <= k < |CommentsOf(issues, n)| ==> CommentsOf(issues, n)[k].createdAt <= now
  }

  /** Posting changes the comments only of the postings' issues. */
  lemma {:induction false} PostAllLeavesOthers(issues: seq<Issue>, postings: seq<Posting>, now: int, n: int)
    requires DistinctNumbers(issues)
    requires forall k :: 0 <= k < |postings| ==> postings[k].number != n
    ensures CommentsOf(PostAll(issues, postings, now), n) == CommentsOf(issues, n)
    decreases |postings|
  {
    if postings != [] {
      var m := |postings| - 1;
      var mid := PostAll(issues, postings[..m], now);
      PostAllLeavesOthers(issues, postings[..m], now, n);
      PostAllKeepsIssues(issues, postings[..m], now, n);
      CommentsOfWithComment(mid, postings[m].number, Comment(Some(postings[m].body), now), n);
    }
  }

  /** Posting adds no comment dated later than `now`. */
  lemma {:induction false} PostAllNoLaterThan(issues: seq<Issue>, postings: seq<Posting>, now: int, n: int)
    requires DistinctNumbers(issues) && CommentsNoLaterThan(issues, n, now)
    ensures CommentsNoLaterThan(PostAll(issues, postings, now), n, now)
    decreases |postings|
  {
    if postings != [] {
      var m := |postings| - 1;
      var mid := PostAll(issues, postings[..m], now);
      var posted := Comment(Some(postings[m].body), now);
      PostAllNoLaterThan(issues, postings[..m], now, n);
      PostAllKeepsIssues(issues, postings[..m], now, n);
      CommentsOfWithComment(mid, postings[m].number, posted, n);
      var before := CommentsOf(mid, n);
      var after := CommentsOf(WithComment(mid, postings[m].number, posted), n);
      assert after == before || after == before + [posted];
      assert forall k :: 0 <= k < |after| ==> after[k].createdAt <= now;
    }
  }

  lemma {:induction false} DispatchesNoLaterThan(comments: seq<ListedComment>, now: int)
    requires forall k :: 0 <= k < |comments| ==> comments[k].createdAt <= now
    ensures ParseLastDispatchTimestamp(comments).Some? ==> ParseLastDispatchTimestamp(comments).value <= now
  {
    var before := ParseLastDispatchTimestamp(comments);
    if before.Some? {
      var i :| 0 <= i < |comments| && IsDispatchComment(comments[i]) && comments[i].createdAt == before.value;
    }
  }

  lemma {:induction false} LastDispatchOfSnoc(comments: seq<ListedComment>, c: ListedComment)
    requires IsDispatchComment(c)
    ensures var before := ParseLastDispatchTimestamp(comments);
            ParseLastDispatchTimestamp(comments + [c])
            == if before.Some? && before.value >= c.createdAt then before else Some(c.createdAt)
  {
    var all := comments + [c];
    assert all[..|all| - 1] == comments;
    assert all[|all| - 1] == c;
  }

  /** A dispatch comment at `now` after comments no later than `now` makes
      `now` the last dispatch. */
  lemma {:induction false} LatestDispatch(comments: seq<ListedComment>, c: ListedComment, now: int)
    requires forall k :: 0 <= k < |comments| ==> comments[k].createdAt <= now
    requires IsDispatchComment(c) && c.createdAt == now
    ensures ParseLastDispatchTimestamp(comments + [c]) == Some(now)
  {
    DispatchesNoLaterThan(comments, now);
    LastDispatchOfSnoc(comments, c);
  }

  /** Posting one dispatch record at `now` to an issue whose comments are no
      later than `now` makes `now` its last dispatch. */
  lemma {:induction false} PostedDispatchIsLast(issues: seq<Issue>, p: Posting, now: int)
    requires DistinctNumbers(issues) && HasIssue(issues, p.number)
    requires CommentsNoLaterThan(issues, p.number, now)
    requires Contains(p.body, DispatchMarker)
    ensures ParseLastDispatchTimestamp(ListedBodies(CommentsOf(WithComment(issues, p.number, Comment(Some(p.body), now)), p.number)))
         == Some(now)
  {
    var posted := Comment(Some(p.body), now);
    CommentsOfWithComment(issues, p.number, posted, p.number);
    ListedBodiesSnoc(CommentsOf(issues, p.number), posted);
    var before := ListedBodies(CommentsOf(issues, p.number));
    assert forall j :: 0 <= j < |before| ==> before[j].createdAt <= now;
    LatestDispatch(before, ListedComment1(posted), now);
  }

  /** An issue that some dispatch record of the run goes to has its last
      dispatch at `now` afterwards (given no comment of it is dated later). */
  lemma {:induction false} PostAllMarksNow(issues: seq<Issue>, postings: seq<Posting>, now: int, k: nat)
    requires DistinctNumbers(issues) && k < |postings| && HasIssue(issues, postings[k].number)
    requires CommentsNoLaterThan(issues, postings[k].number, now)
    requires AllDispatchRecords(postings)
    ensures ParseLastDispatchTimestamp(ListedBodies(CommentsOf(PostAll(issues, postings, now), postings[k].number)))
         == Some(now)
    decreases |postings|
  {
    var n := postings[k].number;
    var m := |postings| - 1;
    var mid := PostAll(issues, postings[..m], now);
    PostAllKeepsIssues(issues, postings[..m], now, n);
    if postings[m].number == n {
      PostAllNoLaterThan(issues, postings[..m], now, n);
      PostedDispatchIsLast(mid, postings[m], now);
    } else {
      CommentsOfWithComment(mid, postings[m].number, Comment(Some(postings[m].body), now), n);
      assert k < m;
      assert postings[..m][k] == postings[k];
      PostAllMarksNow(issues, postings[..m], now, k);
    }
  }

  /** After a dispatch run every context's issue has its last dispatch at
      `now` (given no comment of it is dated later), so the reconciler
      counts its cooldown from this run. */
  lemma DispatchStartsCooldown(issues: seq<Issue>, contexts: seq<DispatchContext>, outcomes: seq<AutoFixOutcome>,
                               now: int, k: nat, openedAt: int)
    requires |outcomes| == |contexts|
    requires DistinctNumbers(issues) && k < |contexts| && HasIssue(issues, contexts[k].ghIssueNumber)
    requires CommentsNoLaterThan(issues, contexts[k].ghIssueNumber, now)
    ensures LastAttemptAt(CommentsOf(PostAll(issues, Postings(contexts, outcomes), now), contexts[k].ghIssueNumber), openedAt) == now
  {
    PostingsAreDispatchRecords(contexts, outcomes);
    PostAllMarksNow(issues, Postings(contexts, outcomes), now, k);
  }

  /** A dispatch run leaves the comments of every issue no context names
      as they were. */
  lemma DispatchLeavesOtherIssues(issues: seq<Issue>, contexts: seq<DispatchContext>, outcomes: seq<AutoFixOutcome>,
                                  now: int, n: int)
    requires |outcomes| == |contexts| && DistinctNumbers(issues)
    requires forall k :: 0 <= k < |contexts| ==> contexts[k].ghIssueNumber != n
    ensures CommentsOf(PostAll(issues, Postings(contexts, outcomes), now), n) == CommentsOf(issues, n)
  {
    PostingsAreDispatchRecords(contexts, outcomes);
    PostAllLeavesOthers(issues, Postings(contexts, outcomes), now, n);
  }
}
