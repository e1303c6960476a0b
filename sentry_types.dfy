/** The records the Sentry scripts pass to each other as JSON files: the
    fetcher's issues, and the reconciler's issues to fix. */
module SentryTypes {
  import opened Wrappers

  /** An unresolved Sentry issue with the stack trace of its latest event. */
  datatype SentryIssue = SentryIssue(id: string, project: string, shortId: string, title: string,
                                     culprit: string, count: string, level: string,
                                     firstSeen: string, lastSeen: string, stackTrace: string,
                                     tags: Option<map<string, string>>)

  datatype TrackingState = Created | Reopened | Requeued

  /** A Sentry issue, the GitHub issue that tracks it and why it is to be fixed. */
  datatype TrackedIssue = TrackedIssue(issue: SentryIssue, ghIssueNumber: int, trackingState: TrackingState)

  /** The text a tracking state is written as. */
  function TrackingStateName(s: TrackingState): string {
    match s
    case Created => "created"
    case Reopened => "reopened"
    case Requeued => "requeued"
  }

  /** The markers the scripts put in the GitHub comments they write. */
  const TrackMarker := "<!-- agentfix-sentry-track -->"
  const DispatchMarker := "<!-- agentfix-sentry-dispatch -->"
}
