/** Bug-hunt mode (src/modes/bug-hunt.ts): the command line that starts the
    bug-hunt orchestrator script, and the run's report. The script's
    resolved path is a parameter; how the started process ends is given as
    its exit code (`None` when it was ended by a signal). */
module BugHunt {
  import opened Wrappers
  import opened Text

  datatype Profile = Focused | Full

  function ProfileName(p: Profile): string {
    match p
    case Focused => "focused"
    case Full => "full"
  }

  /** `config.modes.bugHunt`; an absent gate command is "". */
  datatype BugHuntConfig = BugHuntConfig(baseBranch: string, profile: Profile, gateCommand: string,
                                         commitPrefixes: seq<string>)

  /** The run's options; an absent session root is "". */
  datatype BugHuntOptions = BugHuntOptions(sessionRoot: string, dryRun: bool)

  /** 1 when `s` is given, else 0. */
  function Given(s: string): nat {
    if s != "" then 1 else 0
  }

  /** The shape of the command: the fixed start, the session root and the
      gate command each as a flag and its value when given, in that order,
      and the commit prefixes joined by commas last. */
  predicate IsBugHuntCommand(args: seq<string>, script: string, config: BugHuntConfig, options: BugHuntOptions) {
    var g := 5 + 2 * Given(options.sessionRoot);
    && |args| == 7 + 2 * Given(options.sessionRoot) + 2 * Given(config.gateCommand)
    && args[..5] == [script, "--base", config.baseBranch, "--profile", ProfileName(config.profile)]
    && (options.sessionRoot != "" ==> args[5..7] == ["--session-root", options.sessionRoot])
    && (config.gateCommand != "" ==> args[g..g + 2] == ["--gate-cmd", config.gateCommand])
    && args[|args| - 2..] == ["--commit-prefixes", Join(config.commitPrefixes, ",")]
  }

  /** The shape leaves no choice: one command has it. */
  lemma BugHuntCommandUnique(a: seq<string>, b: seq<string>, script: string, config: BugHuntConfig, options: BugHuntOptions)
    requires IsBugHuntCommand(a, script, config, options) && IsBugHuntCommand(b, script, config, options)
    ensures a == b
  {
    var g := 5 + 2 * Given(options.sessionRoot);
    forall k | 0 <= k < |a|
      ensures a[k] == b[k]
    {
      if k < 5 {
        assert a[k] == a[..5][k] && b[k] == b[..5][k];
      } else if k < g {
        assert a[k] == a[5..7][k - 5] && b[k] == b[5..7][k - 5];
      } else if k < |a| - 2 {
        assert a[k] == a[g..g + 2][k - g] && b[k] == b[g..g + 2][k - g];
      } else {
        assert a[k] == a[|a| - 2..][k - (|a| - 2)] && b[k] == b[|b| - 2..][k - (|b| - 2)];
      }
    }
  }

  /** A flag at the place it would take is there exactly when its value is
      given. */
  lemma FlagsPresentWhenGiven(args: seq<string>, script: string, config: BugHuntConfig, options: BugHuntOptions)
    requires IsBugHuntCommand(args, script, config, options)
    ensures args[5] == "--session-root" <==> options.sessionRoot != ""
    ensures args[5 + 2 * Given(options.sessionRoot)] == "--gate-cmd" <==> config.gateCommand != ""
  {
    var g := 5 + 2 * Given(options.sessionRoot);
    if options.sessionRoot != "" {
      assert args[5] == args[5..7][0];
    } else if config.gateCommand != "" {
      assert args[5] == args[5..7][0];
    } else {
      assert args[5] == args[|args| - 2..][0];
    }
    if config.gateCommand != "" {
      assert args[g] == args[g..g + 2][0];
    } else {
      assert args[g] == args[|args| - 2..][0];
    }
  }

  /** `buildBugHuntCommand`, building the list by pushes. */
  method BuildBugHuntCommand(script: string, config: BugHuntConfig, options: BugHuntOptions) returns (args: seq<string>)
    ensures IsBugHuntCommand(args, script, config, options)
  {
    args := [script, "--base", config.baseBranch, "--profile", ProfileName(config.profile)];
    if options.sessionRoot != "" {
      args := args + ["--session-root", options.sessionRoot];
    }
    if config.gateCommand != "" {
      args := args + ["--gate-cmd", config.gateCommand];
    }
    args := args + ["--commit-prefixes", Join(config.commitPrefixes, ",")];
  }

  datatype BugHuntReport = BugHuntReport(ok: bool, message: string, command: string)

  const DryRunMessage := "Dry-run only. No processes started."
  const StartedMessage := "Bug-hunt orchestrator started."

  /** How `${code}` renders an exit code. */
  function CodeText(code: Option<int>): string {
    if code.Some? then IntToString(code.value) else "null"
  }

  /** `runBugHunt`: a dry run reports the printable command and starts
      nothing; otherwise the process's exit code decides success. */
  method RunBugHunt(script: string, config: BugHuntConfig, options: BugHuntOptions, closeCode: Option<int>)
    returns (report: BugHuntReport)
    ensures options.dryRun ==> report.ok && report.message == DryRunMessage
    ensures !options.dryRun ==> (report.ok <==> closeCode == Some(0))
    ensures !options.dryRun && closeCode != Some(0) ==> report.message == "Bug-hunt start failed with code " + CodeText(closeCode)
    ensures !options.dryRun && closeCode == Some(0) ==> report.message == StartedMessage
    ensures exists cmd :: IsBugHuntCommand(cmd, script, config, options) && report.command == Join(cmd, " ")
  {
    var cmd := BuildBugHuntCommand(script, config, options);
    var printable := Join(cmd, " ");
    if options.dryRun {
      return BugHuntReport(true, DryRunMessage, printable);
    }
    var ok := closeCode == Some(0);
    report := BugHuntReport(ok, if ok then StartedMessage else "Bug-hunt start failed with code " + CodeText(closeCode), printable);
  }
}
