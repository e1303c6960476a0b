/** The records shared by the pipeline stages. */
module Types {
  import opened Wrappers

  /** One actionable code issue; `line` is optional. */
  datatype Finding = Finding(file: string, line: Option<int>, summary: string)

  datatype EventSource = Greptile | Sentry | Manual

  /** A remediation request handed to the dispatcher. */
  datatype AutoFixEvent = AutoFixEvent(
    source: EventSource,
    repository: string,
    targetBranch: string,
    issueRef: string,
    findings: seq<Finding>)

  /** What the remediation provider reports back; its provider is always
      "openclaw", so that field is not represented. */
  datatype DispatchResult = DispatchResult(
    ok: bool,
    model: string,
    httpCode: int,
    dispatchId: Option<string>,
    message: string)
}
