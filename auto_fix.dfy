/** Auto-fix mode (src/modes/auto-fix.ts): the prompt written for a
    remediation request, and the decision between a dry run, a missing
    provider token and a dispatch to the provider. The environment is a map
    of variables; the provider's HTTP call is a parameter, any function from
    a request to a result. */
module AutoFix {
  import opened Wrappers
  import opened Text
  import opened Seqs
  import opened Types
  import opened Dedupe

  // ---------------------------------------------------------------------
  // The prompt

  /** `:<line>` when the finding has a line number, 0 included. */
  function LinePart(f: Finding): string {
    if f.line.Some? then ":" + IntToString(f.line.value) else ""
  }

  /** The finding at 0-based position `index`: `<index + 1>. <file>[:<line>] -> <summary>`.
      It shows `:<line>` exactly when the finding has a line number, provided
      its file and summary hold no colon, and it is one line when they hold
      no line break. */
  function FindingLine(index: nat, f: Finding): (r: string)
    ensures ':' !in f.file && ':' !in f.summary ==> (':' in r <==> f.line.Some?)
    ensures FindingOnOneLine(f) ==> '\n' !in r
  {
    var pre := IntToString(index + 1) + ". " + f.file;
    var r := pre + LinePart(f) + " -> " + f.summary;
    NumberHasNoNewlineOrColon(index + 1);
    if f.line.Some? then
      NumberHasNoNewlineOrColon(f.line.value);
      assert r[|pre|] == ':';
      r
    else r
  }

  function FindingLines(findings: seq<Finding>): (r: seq<string>)
    ensures |r| == |findings|
    ensures forall k :: 0 <= k < |r| ==> r[k] == FindingLine(k, findings[k])
  {
    seq(|findings|, k requires 0 <= k < |findings| => FindingLine(k, findings[k]))
  }

  /** `renderFindings`: one line per finding, in order, when no finding
      holds a line break; no finding renders as the empty text. */
  function RenderFindings(event: AutoFixEvent): (r: string)
    ensures event.findings == [] ==> r == ""
    ensures event.findings != [] && (forall k :: 0 <= k < |event.findings| ==> FindingOnOneLine(event.findings[k]))
            ==> Split(r, '\n') == FindingLines(event.findings)
  {
    FindingLinesSplit(event.findings);
    Join(FindingLines(event.findings), "\n")
  }

  lemma FindingLinesSplit(findings: seq<Finding>)
    ensures findings != [] && (forall k :: 0 <= k < |findings| ==> FindingOnOneLine(findings[k]))
            ==> Split(Join(FindingLines(findings), "\n"), '\n') == FindingLines(findings)
  {
    if findings != [] && forall k :: 0 <= k < |findings| ==> FindingOnOneLine(findings[k]) {
      FindingLinesOnOneLine(findings);
      SplitJoin(FindingLines(findings), '\n');
    }
  }

  // The texts below are written in pieces, so that the facts about their
  // characters are checked piece by piece.
  const Intro := "You are AgentFix running automated " + "remediation for repository "
  const Closing := "Do not broaden scope " + "beyond listed findings " + "unless required for safety."

  /** The fixed part of the prompt's head: the workflow the agent follows. */
  const Workflow: seq<string> :=
    [ "",
      "Required workflow:",
      "1) Sync latest branch state.",
      "2) Reproduce the issue " + "with a test first.",
      "3) Implement minimal " + "root-cause fix.",
      "4) Run project tests " + "and type checks.",
      "5) Commit with scoped message " + "and open draft PR.",
      "",
      "Findings:" ]

  /** The prompt's lines before the findings. */
  function PromptHead(event: AutoFixEvent): (r: seq<string>)
    ensures |r| == 12
  {
    [ Intro + event.repository + ".",
      "Target branch: " + event.targetBranch,
      "Issue reference: " + event.issueRef ]
    + Workflow
  }

  /** `buildAutoFixPrompt`: the head, the finding lines (or one blank line
      when there is none), a blank line and the closing line, joined by line
      breaks. Read line by line it gives back these parts, in order, as long
      as no field holds a line break. */
  function BuildAutoFixPrompt(event: AutoFixEvent): (r: string)
    ensures r == Join(PromptHead(event) + (if event.findings == [] then [""] else FindingLines(event.findings)) + ["", Closing], "\n")
    ensures '\n' !in event.repository && '\n' !in event.targetBranch && '\n' !in event.issueRef
            && (forall k :: 0 <= k < |event.findings| ==> FindingOnOneLine(event.findings[k]))
            ==> Split(r, '\n') == PromptHead(event) + (if event.findings == [] then [""] else FindingLines(event.findings)) + ["", Closing]
  {
    PromptParts(event);
    PromptLines(event);
    Join(PromptHead(event) + [RenderFindings(event), "", Closing], "\n")
  }

  /** The characters of a number's rendering. */
  lemma NumberHasNoNewlineOrColon(n: int)
    ensures '\n' !in IntToString(n) && ':' !in IntToString(n)
  {
    if '\n' in IntToString(n) {
      IntToStringChars(n, '\n');
    }
    if ':' in IntToString(n) {
      IntToStringChars(n, ':');
    }
  }

  predicate FindingOnOneLine(f: Finding) {
    '\n' !in f.file && '\n' !in f.summary
  }

  lemma WorkflowLine0OnOneLine()
    ensures '\n' !in Workflow[0]
  {
  }

  lemma WorkflowLine1OnOneLine()
    ensures '\n' !in Workflow[1]
  {
  }

  lemma WorkflowLine2OnOneLine()
    ensures '\n' !in Workflow[2]
  {
  }

  lemma WorkflowLine3OnOneLine()
    ensures '\n' !in Workflow[3]
  {
  }

  lemma WorkflowLine4OnOneLine()
    ensures '\n' !in Workflow[4]
  {
  }

  lemma WorkflowLine5OnOneLine()
    ensures '\n' !in Workflow[5]
  {
  }

  lemma WorkflowLine6OnOneLine()
    ensures '\n' !in Workflow[6]
  {
  }

  lemma WorkflowLine7OnOneLine()
    ensures '\n' !in Workflow[7]
  {
  }

  lemma WorkflowLine8OnOneLine()
    ensures '\n' !in Workflow[8]
  {
  }

  lemma ClosingOnOneLine()
    ensures '\n' !in Closing
  {
  }

  lemma WorkflowOnOneLine()
    ensures forall k :: 0 <= k < |Workflow| ==> '\n' !in Workflow[k]
  {
    WorkflowLine0OnOneLine();
    WorkflowLine1OnOneLine();
    WorkflowLine2OnOneLine();
    WorkflowLine3OnOneLine();
    WorkflowLine4OnOneLine();
    WorkflowLine5OnOneLine();
    WorkflowLine6OnOneLine();
    WorkflowLine7OnOneLine();
    WorkflowLine8OnOneLine();
  }

  lemma PromptHeadOnOneLine(event: AutoFixEvent)
    requires '\n' !in event.repository && '\n' !in event.targetBranch && '\n' !in event.issueRef
    ensures forall k :: 0 <= k < 12 ==> '\n' !in PromptHead(event)[k]
  {
    var h := PromptHead(event);
    assert '\n' !in h[0] by {
      IntroOnOneLine();
    }
    assert '\n' !in h[1] && '\n' !in h[2] by {
      LabelsOnOneLine();
    }
    assert forall k :: 3 <= k < 12 ==> '\n' !in h[k] by {
      WorkflowOnOneLine();
      assert forall k :: 3 <= k < 12 ==> h[k] == Workflow[k - 3];
    }
  }

  lemma IntroOnOneLine()
    ensures '\n' !in Intro
  {
  }

  lemma LabelsOnOneLine()
    ensures '\n' !in "Target branch: " && '\n' !in "Issue reference: "
  {
  }

  lemma FindingLinesOnOneLine(findings: seq<Finding>)
    requires forall k :: 0 <= k < |findings| ==> FindingOnOneLine(findings[k])
    ensures forall k :: 0 <= k < |findings| ==> '\n' !in FindingLines(findings)[k]
  {
  }

  /** The prompt is the head, the finding lines (or one blank line) and the
      tail, joined by line breaks. */
  lemma PromptParts(event: AutoFixEvent)
    ensures Join(PromptHead(event) + [RenderFindings(event), "", Closing], "\n")
         == Join(PromptHead(event) + (if event.findings == [] then [""] else FindingLines(event.findings)) + ["", Closing], "\n")
  {
    var head := PromptHead(event);
    var lines := FindingLines(event.findings);
    assert head + [RenderFindings(event), "", Closing] == head + [Join(lines, "\n")] + ["", Closing];
    if lines != [] {
      JoinFlatten(head, lines, ["", Closing], "\n");
    }
  }

  /** Read line by line, the prompt is the fixed head, one line per finding
      in order (a blank line when there is none), a blank line and the
      closing instruction, as long as no field holds a line break. */
  lemma PromptLines(event: AutoFixEvent)
    ensures '\n' !in event.repository && '\n' !in event.targetBranch && '\n' !in event.issueRef
            && (forall k :: 0 <= k < |event.findings| ==> FindingOnOneLine(event.findings[k]))
            ==> (Split(Join(PromptHead(event) + [RenderFindings(event), "", Closing], "\n"), '\n')
                 == PromptHead(event) + (if event.findings == [] then [""] else FindingLines(event.findings)) + ["", Closing])
  {
    if '\n' !in event.repository && '\n' !in event.targetBranch && '\n' !in event.issueRef
       && (forall k :: 0 <= k < |event.findings| ==> FindingOnOneLine(event.findings[k])) {
      PromptLinesOnOneLine(event);
    }
  }

  lemma PromptLinesOnOneLine(event: AutoFixEvent)
    requires '\n' !in event.repository && '\n' !in event.targetBranch && '\n' !in event.issueRef
    requires forall k :: 0 <= k < |event.findings| ==> FindingOnOneLine(event.findings[k])
    ensures Split(Join(PromptHead(event) + [RenderFindings(event), "", Closing], "\n"), '\n')
         == PromptHead(event) + (if event.findings == [] then [""] else FindingLines(event.findings)) + ["", Closing]
  {
    var head := PromptHead(event);
    var mid := if event.findings == [] then [""] else FindingLines(event.findings);
    var tail := ["", Closing];
    var parts := head + mid + tail;
    assert Join(PromptHead(event) + [RenderFindings(event), "", Closing], "\n") == Join(parts, "\n") by {
      PromptParts(event);
    }
    assert forall k :: 0 <= k < 12 ==> '\n' !in head[k] by {
      PromptHeadOnOneLine(event);
    }
    assert forall k :: 0 <= k < |mid| ==> '\n' !in mid[k] by {
      FindingLinesOnOneLine(event.findings);
    }
    assert forall k :: 0 <= k < |tail| ==> '\n' !in tail[k] by {
      ClosingOnOneLine();
    }
    PartsOnOneLine(head, mid, tail);
    SplitJoin(parts, '\n');
  }

  lemma PartsOnOneLine(head: seq<string>, mid: seq<string>, tail: seq<string>)
    requires forall k :: 0 <= k < |head| ==> '\n' !in head[k]
    requires forall k :: 0 <= k < |mid| ==> '\n' !in mid[k]
    requires forall k :: 0 <= k < |tail| ==> '\n' !in tail[k]
    ensures forall k :: 0 <= k < |head + mid + tail| ==> '\n' !in (head + mid + tail)[k]
  {
    var parts := head + mid + tail;
    forall k | 0 <= k < |parts|
      ensures '\n' !in parts[k]
    {
      if k < |head| {
        assert parts[k] == head[k];
      } else if k < |head| + |mid| {
        assert parts[k] == mid[k - |head|];
      } else {
        assert parts[k] == tail[k - |head| - |mid|];
      }
    }
  }

  // ---------------------------------------------------------------------
  // Running the mode

  /** `config.providers.openclaw` */
  datatype ProviderConfig = ProviderConfig(baseUrl: string, tokenEnv: string, model: string)

  /** What is sent to the provider. */
  datatype ProviderRequest = ProviderRequest(baseUrl: string, token: string, model: string, prompt: string)

  /** A dry run reports the prompt instead of dispatching it. */
  datatype AutoFixOutcome =
    | DryRun(message: string, prompt: string)
    | Dispatched(result: DispatchResult)
  {
    predicate Ok() {
      DryRun? || result.ok
    }

    function Message(): string {
      if DryRun? then message else result.message
    }
  }

  const DryRunMessage := "Dry-run only. Dispatch skipped."

  /** The event as sent: its findings deduplicated. */
  function NormalizedEvent(event: AutoFixEvent): (r: AutoFixEvent)
    ensures r == event.(findings := r.findings)
    ensures IsSubseq(r.findings, event.findings) && KeysDistinct(r.findings, FindingSignature)
    ensures Keys(r.findings, FindingSignature) == Keys(event.findings, FindingSignature)
  {
    DedupeIsSubseq(event.findings, FindingSignature);
    DedupeKeysDistinct(event.findings, FindingSignature);
    DedupeKeys(event.findings, FindingSignature);
    event.(findings := DedupeBy(event.findings, FindingSignature))
  }

  /** `process.env[tokenEnv] ?? ""` */
  function EnvValue(env: map<string, string>, name: string): (r: string)
    ensures r == "" <==> name !in env || env[name] == ""
    ensures r != "" ==> r == env[name]
  {
    if name in env then env[name] else ""
  }

  /** `runAutoFix`. A dry run succeeds with the prompt of the deduplicated
      findings. Without a token the run fails at once, with code 0 and the
      variable's name. With a token the provider's answer is returned
      unchanged; it is sent the token and the prompt of the deduplicated
      findings. */
  function RunAutoFix(provider: ProviderConfig, event: AutoFixEvent, dryRun: bool,
                      env: map<string, string>, dispatch: ProviderRequest -> DispatchResult): (r: AutoFixOutcome)
    ensures dryRun ==> r.DryRun? && r.Ok() && r.prompt == BuildAutoFixPrompt(NormalizedEvent(event))
    ensures !dryRun && EnvValue(env, provider.tokenEnv) == "" ==>
              r.Dispatched? && !r.result.ok && r.result.httpCode == 0 && r.result.model == provider.model
              && r.Message() == "Missing token env: " + provider.tokenEnv
    ensures !dryRun && EnvValue(env, provider.tokenEnv) != "" ==>
              r == Dispatched(dispatch(ProviderRequest(provider.baseUrl, env[provider.tokenEnv], provider.model,
                                                       BuildAutoFixPrompt(NormalizedEvent(event)))))
  {
    var prompt := BuildAutoFixPrompt(NormalizedEvent(event));
    if dryRun then DryRun(DryRunMessage, prompt)
    else
      var token := EnvValue(env, provider.tokenEnv);
      if token == "" then
        Dispatched(DispatchResult(false, provider.model, 0, None, "Missing token env: " + provider.tokenEnv))
      else Dispatched(dispatch(ProviderRequest(provider.baseUrl, token, provider.model, prompt)))
  }

  /** A dry run is the same whatever the environment and the provider. */
  lemma DryRunDispatchesNothing(provider: ProviderConfig, event: AutoFixEvent,
                                env: map<string, string>, dispatch: ProviderRequest -> DispatchResult,
                                env': map<string, string>, dispatch': ProviderRequest -> DispatchResult)
    ensures RunAutoFix(provider, event, true, env, dispatch) == RunAutoFix(provider, event, true, env', dispatch')
  {
  }

  /** Without a token the run fails the same whatever the provider would
      have answered. */
  lemma MissingTokenFails(provider: ProviderConfig, event: AutoFixEvent, env: map<string, string>,
                          dispatch: ProviderRequest -> DispatchResult, dispatch': ProviderRequest -> DispatchResult)
    requires EnvValue(env, provider.tokenEnv) == ""
    ensures RunAutoFix(provider, event, false, env, dispatch) == RunAutoFix(provider, event, false, env, dispatch')
  {
  }

  /** Findings already free of repetitions give the same run: the
      deduplication before prompting is idempotent. */
  lemma RunIgnoresRepeatedNormalization(provider: ProviderConfig, event: AutoFixEvent, dryRun: bool,
                                        env: map<string, string>, dispatch: ProviderRequest -> DispatchResult)
    ensures RunAutoFix(provider, NormalizedEvent(event), dryRun, env, dispatch)
         == RunAutoFix(provider, event, dryRun, env, dispatch)
  {
    DedupeIdempotent(event.findings, FindingSignature);
    assert NormalizedEvent(NormalizedEvent(event)) == NormalizedEvent(event);
  }
}
