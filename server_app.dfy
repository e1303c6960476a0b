/** The webhook server (src/server/app.ts): a pull-request review that asks
    for changes becomes an auto-fix event, and the route's answer is an HTTP
    status with a body. The route checks no signature, event header or
    action; every absent JSON field is `None`. */
module ServerApp {
  import opened Wrappers
  import opened Text
  import opened Types
  import opened AutoFix

  datatype Review = Review(state: Option<string>, login: Option<string>)
  datatype RepositoryRef = RepositoryRef(fullName: Option<string>)
  datatype Head = Head(ref: Option<string>)
  datatype PullRequest = PullRequest(number: Option<int>, head: Option<Head>)

  /** The fields of a review webhook the server reads. */
  datatype ReviewWebhook = ReviewWebhook(review: Option<Review>, repository: Option<RepositoryRef>,
                                         pullRequest: Option<PullRequest>)

  /** `payload.review?.state` */
  function ReviewState(p: ReviewWebhook): Option<string> {
    if p.review.Some? then p.review.value.state else None
  }

  /** `payload.repository?.full_name`, absent read as "" (both are falsy). */
  function FullName(p: ReviewWebhook): string {
    if p.repository.Some? then p.repository.value.fullName.GetOr("") else ""
  }

  /** `payload.pull_request?.head?.ref`, absent read as "". */
  function HeadRef(p: ReviewWebhook): string {
    if p.pullRequest.Some? && p.pullRequest.value.head.Some? then p.pullRequest.value.head.value.ref.GetOr("") else ""
  }

  /** `payload.pull_request.number ?? "unknown"` */
  function PrNumberText(p: ReviewWebhook): string {
    if p.pullRequest.Some? && p.pullRequest.value.number.Some? then IntToString(p.pullRequest.value.number.value)
    else "unknown"
  }

  const ChangesRequested := "changes_requested"
  const PlaceholderSummary := "Review requested changes. Attach finding parser for inline comments."

  /** The one finding a review event carries. */
  const PlaceholderFinding := Finding("unknown", None, PlaceholderSummary)

  /** `toAutoFixEvent`: an event only for a review requesting changes on a
      pull request whose repository name and head branch are given and
      non-empty. */
  function ToAutoFixEvent(p: ReviewWebhook): (r: Option<AutoFixEvent>)
    ensures r.Some? <==> ReviewState(p) == Some(ChangesRequested) && FullName(p) != "" && HeadRef(p) != ""
    ensures r.Some? ==> r.value.source == Greptile && r.value.repository == FullName(p)
                        && r.value.targetBranch == HeadRef(p) && r.value.findings == [PlaceholderFinding]
    ensures r.Some? ==> StartsWith(r.value.issueRef, "PR-")
    ensures r.Some? ==> r.value.issueRef
                        == "PR-" + (if p.pullRequest.value.number.Some? then IntToString(p.pullRequest.value.number.value)
                                    else "unknown")
  {
    if ReviewState(p) != Some(ChangesRequested) then None
    else if FullName(p) == "" then None
    else if HeadRef(p) == "" then None
    else
      var issueRef := "PR-" + PrNumberText(p);
      assert issueRef[..3] == "PR-";
      Some(AutoFixEvent(Greptile, FullName(p), HeadRef(p), issueRef, [PlaceholderFinding]))
  }

  /** The issue reference tells pull requests apart: different numbers give
      different references, and none of them reads as a missing number. */
  lemma IssueRefIdentifiesPullRequest(p: ReviewWebhook, q: ReviewWebhook)
    requires ToAutoFixEvent(p).Some? && ToAutoFixEvent(q).Some?
    requires p.pullRequest.Some? && q.pullRequest.Some?
    ensures ToAutoFixEvent(p).value.issueRef == ToAutoFixEvent(q).value.issueRef
            <==> p.pullRequest.value.number == q.pullRequest.value.number
  {
    var a := p.pullRequest.value.number;
    var b := q.pullRequest.value.number;
    var ra := ToAutoFixEvent(p).value.issueRef;
    var rb := ToAutoFixEvent(q).value.issueRef;
    assert ra == "PR-" + PrNumberText(p) && rb == "PR-" + PrNumberText(q);
    if ra == rb {
      assert PrNumberText(p) == ra[3..] == PrNumberText(q);
      if a.Some? && b.Some? {
        IntToStringInjective(a.value, b.value);
      } else if a.Some? && b.None? {
        NumberIsNotUnknown(a.value);
      } else if a.None? && b.Some? {
        NumberIsNotUnknown(b.value);
      }
    }
  }

  lemma NumberIsNotUnknown(n: int)
    ensures IntToString(n) != "unknown"
  {
    var s := IntToString(n);
    assert IsDigit(s[0]) || s[0] == '-';
  }

  // ---------------------------------------------------------------------
  // The routes

  datatype ResponseBody =
    | Health(ok: bool)
    | Ack(message: string)
    | RunResult(outcome: AutoFixOutcome)
  {
    predicate Ok() {
      match this
      case Health(ok) => ok
      case Ack(_) => true
      case RunResult(outcome) => outcome.Ok()
    }
  }

  datatype Response = Response(status: int, body: ResponseBody)

  /** `config.modes.autoFix.enabled` and the provider settings. */
  datatype ServerConfig = ServerConfig(autoFixEnabled: bool, provider: ProviderConfig)

  const EventIgnored := "Event ignored"
  const AutoFixDisabled := "autoFix mode is disabled"

  /** `GET /health` */
  function HealthCheck(): (r: Response)
    ensures r.status == 200 && r.body.Ok()
  {
    Response(200, Health(true))
  }

  /** `POST /webhooks/github`; the run is never a dry run. The status tells
      the outcome: 202 when nothing ran, with "Event ignored" for a payload
      that is no event and "autoFix mode is disabled" when the mode is off;
      200 exactly when a run succeeded and 502 exactly when one failed; a
      run's outcome is the body. */
  function HandleWebhook(config: ServerConfig, p: ReviewWebhook, env: map<string, string>,
                         dispatch: ProviderRequest -> DispatchResult): (r: Response)
    ensures var ran := ToAutoFixEvent(p).Some? && config.autoFixEnabled;
            && (r.status == 202 <==> !ran)
            && (r.status == 200 <==> ran && RunAutoFix(config.provider, ToAutoFixEvent(p).value, false, env, dispatch).Ok())
            && (r.status == 502 <==> ran && !RunAutoFix(config.provider, ToAutoFixEvent(p).value, false, env, dispatch).Ok())
            && (ran ==> r.body == RunResult(RunAutoFix(config.provider, ToAutoFixEvent(p).value, false, env, dispatch)))
            && (!ran ==> r.body.Ack? && r.body.Ok())
    ensures ToAutoFixEvent(p).None? ==> r == Response(202, Ack(EventIgnored))
    ensures ToAutoFixEvent(p).Some? && !config.autoFixEnabled ==> r == Response(202, Ack(AutoFixDisabled))
    ensures r.status == 200 || r.status == 202 || r.status == 502
  {
    var event := ToAutoFixEvent(p);
    if event.None? then Response(202, Ack(EventIgnored))
    else if !config.autoFixEnabled then Response(202, Ack(AutoFixDisabled))
    else
      var result := RunAutoFix(config.provider, event.value, false, env, dispatch);
      Response(if result.Ok() then 200 else 502, RunResult(result))
  }

  /** A payload that is no event is acknowledged and ignored, whether or not
      auto-fix is enabled. */
  lemma IgnoredBeforeModeCheck(config: ServerConfig, p: ReviewWebhook, env: map<string, string>,
                               dispatch: ProviderRequest -> DispatchResult)
    requires ToAutoFixEvent(p).None?
    ensures HandleWebhook(config, p, env, dispatch) == Response(202, Ack(EventIgnored))
    ensures HandleWebhook(config.(autoFixEnabled := !config.autoFixEnabled), p, env, dispatch)
         == HandleWebhook(config, p, env, dispatch)
  {
  }

  /** A review event with auto-fix enabled the route dispatches when the
      provider token is set; without it the answer is 502 and nothing is
      sent. */
  lemma ReviewWithoutTokenFails(config: ServerConfig, p: ReviewWebhook, env: map<string, string>,
                                dispatch: ProviderRequest -> DispatchResult)
    requires ToAutoFixEvent(p).Some? && config.autoFixEnabled
    requires EnvValue(env, config.provider.tokenEnv) == ""
    ensures HandleWebhook(config, p, env, dispatch).status == 502
    ensures HandleWebhook(config, p, env, dispatch).body.RunResult?
    ensures HandleWebhook(config, p, env, dispatch).body.outcome.Message() == "Missing token env: " + config.provider.tokenEnv
  {
    MissingTokenFails(config.provider, ToAutoFixEvent(p).value, env, dispatch, dispatch);
  }
}
