/**
 * What `execute_borg`, the two composite commands and `execute_command` do, as functions
 * of the merged engine state and of what the outside world answers. The methods of
 * `Helper.BorgHelper` compute the same values step by step and are proved equal to these.
 *
 * The outside world is given, not performed: the inherited environment, the user's answer
 * to each confirmation prompt and the exit code of each subprocess (`replies(k)` for the
 * k-th dispatch of one command), and the already parsed output of the enumeration and
 * diff calls.
 */
module Commands {
  import opened Wrappers
  import opened Text
  import opened Aliases
  import opened Config

  /** The user's answer to the prompt and the exit code of the subprocess, for one dispatch. */
  datatype Reply = Reply(answer: string, returnCode: int)

  /** One record of `borg diff --json-lines`: the path and the type of each of its changes. */
  datatype DiffRecord = DiffRecord(path: string, changes: seq<string>)

  datatype World = World(
    environ: map<string, string>,      // the inherited process environment
    replies: nat -> Reply,              // per dispatch, numbered from 0 within one command
    archiveLines: seq<string>,          // stdout lines of `list --short`
    lastArchives: seq<string>,          // archive names in the JSON of `list --last 2 --json`
    diffRecords: seq<DiffRecord>)       // the records of `diff --json-lines`

  /** What the `list-removed-items` argument parser makes of the arguments after the command. */
  datatype RemovedItemsOptions = RemovedItemsOptions(fail: bool, color: bool, path: Option<string>)

  /** A subprocess that ran: the shell command line, its environment and its exit code. */
  datatype CompletedProcess = CompletedProcess(commandLine: string, env: map<string, string>, returnCode: int)

  /** The exceptions that leave a command: an unknown repository, or a non-zero exit of a
      dispatch made with `check=True`. */
  datatype Failure = ConfigError(repository: string) | CalledProcessError(returnCode: int, commandLine: string)

  /** The result of one top-level command: its exit code or exception, the argument lists it
      handed to `execute_borg` in order, and the report lines it printed. */
  datatype CommandRun = CommandRun(exit: Result<int, Failure>, calls: seq<seq<string>>, report: seq<string>)

  /** The prompt's answer counts as "no" when, lower-cased, it starts with `n`. */
  predicate Declines(answer: string) {
    |answer| > 0 && (answer[0] == 'n' || answer[0] == 'N')
  }

  function SshCommand(sshKey: string): string {
    "ssh -i '" + sshKey + "'"
  }

  /** The environment variables a profile sets. */
  function OverlaidVariables(config: RepoConfig): set<string> {
    (if config.repository.Some? then {"BORG_REPO"} else {}) +
    (if config.passphrase.Some? then {"BORG_PASSPHRASE"} else {}) +
    (if config.sshKey.Some? then {"BORG_RSH"} else {})
  }

  /** The subprocess environment: the inherited one with the profile's variables laid over it. */
  function BorgEnvironment(inherited: map<string, string>, config: RepoConfig): map<string, string> {
    var withRepo := if config.repository.Some? then inherited["BORG_REPO" := config.repository.value] else inherited;
    var withPassphrase := if config.passphrase.Some? then withRepo["BORG_PASSPHRASE" := config.passphrase.value] else withRepo;
    if config.sshKey.Some? then withPassphrase["BORG_RSH" := SshCommand(config.sshKey.value)] else withPassphrase
  }

  /** The subprocess sees every inherited variable, plus `BORG_REPO`, `BORG_PASSPHRASE` and
      `BORG_RSH` for the fields the profile sets; inherited values of those are replaced, and
      nothing else changes. */
  lemma BorgEnvironmentOverlay(inherited: map<string, string>, config: RepoConfig)
    ensures BorgEnvironment(inherited, config).Keys == inherited.Keys + OverlaidVariables(config)
    ensures config.repository.Some? ==> BorgEnvironment(inherited, config)["BORG_REPO"] == config.repository.value
    ensures config.passphrase.Some? ==> BorgEnvironment(inherited, config)["BORG_PASSPHRASE"] == config.passphrase.value
    ensures config.sshKey.Some? ==> BorgEnvironment(inherited, config)["BORG_RSH"] == SshCommand(config.sshKey.value)
    ensures forall name :: name in inherited && name !in OverlaidVariables(config) ==>
      BorgEnvironment(inherited, config)[name] == inherited[name]
  {
  }

  /** The profile's own alias table, empty when it has none. */
  function RepoAliases(config: RepoConfig): AliasTable {
    config.aliases.GetOr(map[])
  }

  /** The binary and the arguments joined with single spaces. */
  function CommandLine(binary: string, arguments: seq<string>): string {
    Join([binary] + arguments, ' ')
  }

  /** The command line is the binary alone, or the binary, one space and the arguments
      joined by single spaces. */
  lemma CommandLineShape(binary: string, arguments: seq<string>)
    ensures arguments == [] ==> CommandLine(binary, arguments) == binary
    ensures arguments != [] ==> CommandLine(binary, arguments) == binary + " " + Join(arguments, ' ')
  {
    assert arguments != [] ==> ([binary] + arguments)[1..] == arguments;
  }

  /** When neither the binary nor any argument holds a space, the words of the command line
      are exactly the binary and the arguments. */
  lemma CommandLineWords(binary: string, arguments: seq<string>)
    requires ' ' !in binary
    requires forall i :: 0 <= i < |arguments| ==> ' ' !in arguments[i]
    ensures Split(CommandLine(binary, arguments), ' ') == [binary] + arguments
  {
    var words := [binary] + arguments;
    assert forall i :: 0 <= i < |words| ==> ' ' !in words[i] by {
      forall i | 0 <= i < |words| ensures ' ' !in words[i] {
        if i > 0 { assert words[i] == arguments[i - 1]; }
      }
    }
    SplitJoin(words, ' ');
  }

  /** `execute_borg`: look the profile up, build the environment and the command line, ask
      if asked to, and run. `None` is the aborted dispatch. */
  function Dispatch(s: EngineState, ask: bool, name: string, arguments: seq<string>,
                    environ: map<string, string>, reply: Reply, check: bool): Result<Option<CompletedProcess>, Failure>
  {
    if name !in s.repositories then Failure(ConfigError(name))
    else
      var config := s.repositories[name];
      var line := CommandLine(s.borgBinary, ResolveTwoTier(arguments, RepoAliases(config), s.aliases));
      if ask && Declines(reply.answer) then Success(None)
      else if check && reply.returnCode != 0 then Failure(CalledProcessError(reply.returnCode, line))
      else Success(Some(CompletedProcess(line, BorgEnvironment(environ, config), reply.returnCode)))
  }

  /** The outcomes of one dispatch: `ConfigError` exactly for an unknown repository; aborted
      exactly when the repository is known, the prompt is on and the answer declines; a known,
      accepted dispatch raises `CalledProcessError` for a checked non-zero exit and runs
      otherwise, and a run is the resolved command line in the profile's environment, exiting
      with the world's code. */
  lemma DispatchCases(s: EngineState, ask: bool, name: string, arguments: seq<string>,
                      environ: map<string, string>, reply: Reply, check: bool)
    ensures var r := Dispatch(s, ask, name, arguments, environ, reply, check);
      && (r.Failure? && r.error.ConfigError? <==> name !in s.repositories)
      && (r.Failure? && r.error.ConfigError? ==> r.error == ConfigError(name))
      && (r == Success(None) <==> name in s.repositories && ask && Declines(reply.answer))
      && (name in s.repositories && !(ask && Declines(reply.answer)) ==>
            if check && reply.returnCode != 0 then
              r == Failure(CalledProcessError(reply.returnCode,
                     CommandLine(s.borgBinary, ResolveTwoTier(arguments, RepoAliases(s.repositories[name]), s.aliases))))
            else r.Success? && r.value.Some?)
      && (r.Failure? && r.error.CalledProcessError? ==> check && reply.returnCode != 0 && r.error.returnCode == reply.returnCode)
      && (r.Success? && r.value.Some? ==>
            && name in s.repositories
            && r.value.value.commandLine == CommandLine(s.borgBinary, ResolveTwoTier(arguments, RepoAliases(s.repositories[name]), s.aliases))
            && r.value.value.env == BorgEnvironment(environ, s.repositories[name])
            && r.value.value.returnCode == reply.returnCode
            && (check ==> reply.returnCode == 0))
  {
  }

  /** The exit code of a dispatch that ran, `None` for one that did not. */
  function ExitCodeOf(r: Result<Option<CompletedProcess>, Failure>): Option<int> {
    if r.Success? && r.value.Some? then Some(r.value.value.returnCode) else None
  }

  /** The largest exit code among the calls that ran, starting from 0. */
  function HighestExitCode(outcomes: seq<Option<int>>): (h: int)
    ensures h >= 0
    ensures forall i :: 0 <= i < |outcomes| && outcomes[i].Some? ==> outcomes[i].value <= h
    ensures h == 0 || exists i :: 0 <= i < |outcomes| && outcomes[i] == Some(h)
  {
    if outcomes == [] then 0
    else
      var before := HighestExitCode(outcomes[..|outcomes| - 1]);
      match outcomes[|outcomes| - 1]
      case None => before
      case Some(code) => if code > before then code else before
  }

  const ListShortArgs: seq<string> := ["list", "--short"]

  /** The per-archive call of `list-archives`. */
  function ArchiveListArgs(archive: string, extra: seq<string>): seq<string> {
    ["list", "::" + archive] + extra
  }

  /** One per-archive call per archive line, in order. */
  function ArchiveCalls(archives: seq<string>, extra: seq<string>): (calls: seq<seq<string>>)
    ensures |calls| == |archives|
    ensures forall i :: 0 <= i < |archives| ==> calls[i] == ArchiveListArgs(archives[i], extra)
  {
    if archives == [] then []
    else ArchiveCalls(archives[..|archives| - 1], extra) + [ArchiveListArgs(archives[|archives| - 1], extra)]
  }

  /** One more outcome: the running maximum takes it into account if the call ran. */
  lemma HighestExitCodeStep(outcomes: seq<Option<int>>, i: nat)
    requires i < |outcomes|
    ensures HighestExitCode(outcomes[..i + 1]) ==
      match outcomes[i]
      case None => HighestExitCode(outcomes[..i])
      case Some(code) => if code > HighestExitCode(outcomes[..i]) then code else HighestExitCode(outcomes[..i])
  {
    assert outcomes[..i + 1][..i] == outcomes[..i];
  }

  /** One more archive line: one more call at the end. */
  lemma ArchiveCallsStep(archives: seq<string>, extra: seq<string>, i: nat)
    requires i < |archives|
    ensures ArchiveCalls(archives[..i + 1], extra) == ArchiveCalls(archives[..i], extra) + [ArchiveListArgs(archives[i], extra)]
  {
    assert archives[..i + 1][..i] == archives[..i];
  }

  /** The exit code of each per-archive call (`None` where it was aborted). */
  function ArchiveOutcomes(s: EngineState, ask: bool, name: string, extra: seq<string>, w: World): seq<Option<int>> {
    seq(|w.archiveLines|, i requires 0 <= i < |w.archiveLines| =>
      ExitCodeOf(Dispatch(s, ask, name, ArchiveListArgs(w.archiveLines[i], extra), w.environ, w.replies(i + 1), false)))
  }

  /** `list-archives`: enumerate the archives, then list each one with the extra arguments. */
  function ListArchivesRun(s: EngineState, ask: bool, name: string, extra: seq<string>, w: World): CommandRun {
    match Dispatch(s, ask, name, ListShortArgs, w.environ, w.replies(0), true)
    case Failure(e) => CommandRun(Failure(e), [ListShortArgs], [])
    case Success(None) => CommandRun(Success(1), [ListShortArgs], [])
    case Success(Some(_)) =>
      CommandRun(Success(HighestExitCode(ArchiveOutcomes(s, ask, name, extra, w))),
                 [ListShortArgs] + ArchiveCalls(w.archiveLines, extra), [])
  }

  const LastTwoArgs: seq<string> := ["list", "--last", "2", "--json"]

  /** The diff between the older and the newer archive, limited to a non-empty path if given. */
  function DiffArgs(previous: string, current: string, path: Option<string>): seq<string> {
    ["diff", "--json-lines", "::" + previous, current] + (if path.Some? && path.value != "" then [path.value] else [])
  }

  predicate IsRemoval(changeType: string) {
    changeType == "removed" || changeType == "removed directory"
  }

  /** The line printed for a removal. */
  function ReportLine(path: string, changeType: string): string {
    if changeType == "removed" then "Removed file: " + path else "Removed directory: " + path
  }

  /** The report lines for one record's changes, in order. */
  function ChangesReport(path: string, changes: seq<string>): (report: seq<string>)
    ensures report != [] <==> exists j :: 0 <= j < |changes| && IsRemoval(changes[j])
  {
    if changes == [] then []
    else
      var last := changes[|changes| - 1];
      ChangesReport(path, changes[..|changes| - 1]) + (if IsRemoval(last) then [ReportLine(path, last)] else [])
  }

  /** The report lines for all records, in order. */
  function RemovalReport(records: seq<DiffRecord>): seq<string> {
    if records == [] then []
    else
      var last := records[|records| - 1];
      RemovalReport(records[..|records| - 1]) + ChangesReport(last.path, last.changes)
  }

  /** Some change of some record is a removed file or a removed directory. */
  ghost predicate HasRemoval(records: seq<DiffRecord>) {
    exists i, j :: 0 <= i < |records| && 0 <= j < |records[i].changes| && IsRemoval(records[i].changes[j])
  }

  /** The report is empty exactly when no change is a removal. */
  lemma {:induction false} RemovalReportEmpty(records: seq<DiffRecord>)
    ensures RemovalReport(records) != [] <==> HasRemoval(records)
  {
    if records != [] {
      var prefix := records[..|records| - 1];
      var last := records[|records| - 1];
      RemovalReportEmpty(prefix);
      if HasRemoval(records) {
        var i, j :| 0 <= i < |records| && 0 <= j < |records[i].changes| && IsRemoval(records[i].changes[j]);
        if i < |records| - 1 {
          assert records[i] == prefix[i];
          assert HasRemoval(prefix);
        } else {
          assert ChangesReport(last.path, last.changes) != [];
        }
      }
      if RemovalReport(records) != [] {
        if RemovalReport(prefix) != [] {
          var i, j :| 0 <= i < |prefix| && 0 <= j < |prefix[i].changes| && IsRemoval(prefix[i].changes[j]);
          assert records[i] == prefix[i];
        } else {
          var j :| 0 <= j < |last.changes| && IsRemoval(last.changes[j]);
          assert records[|records| - 1] == last;
        }
      }
    }
  }

  /** One change prints `Removed file: <path>` if it is `removed`, `Removed directory: <path>` if
      it is `removed directory`, and nothing otherwise. */
  lemma ChangesReportSingle(path: string, change: string)
    ensures ChangesReport(path, [change]) ==
      if change == "removed" then ["Removed file: " + path]
      else if change == "removed directory" then ["Removed directory: " + path]
      else []
  {
    assert [change][..0] == [];
  }

  /** The changes are reported one after the other: the lines of two runs of changes are the
      lines of the first followed by those of the second. */
  lemma {:induction false} ChangesReportAppend(path: string, a: seq<string>, b: seq<string>)
    ensures ChangesReport(path, a + b) == ChangesReport(path, a) + ChangesReport(path, b)
    decreases |b|
  {
    if b == [] {
      assert a + b == a;
    } else {
      var init := b[..|b| - 1];
      assert (a + b)[..|a + b| - 1] == a + init;
      ChangesReportAppend(path, a, init);
    }
  }

  /** A removed file, a modification and a removed directory give two lines, in that order. */
  lemma ChangesReportExample(path: string)
    ensures ChangesReport(path, ["removed", "modified", "removed directory"]) ==
      ["Removed file: " + path, "Removed directory: " + path]
  {
    ChangesReportSingle(path, "removed");
    ChangesReportSingle(path, "modified");
    ChangesReportSingle(path, "removed directory");
    ChangesReportAppend(path, ["removed"], ["modified"]);
    assert ["removed"] + ["modified"] == ["removed", "modified"];
    ChangesReportAppend(path, ["removed", "modified"], ["removed directory"]);
    assert ["removed", "modified"] + ["removed directory"] == ["removed", "modified", "removed directory"];
  }

  /** A single record reports its own changes under its own path. */
  lemma RemovalReportSingle(record: DiffRecord)
    ensures RemovalReport([record]) == ChangesReport(record.path, record.changes)
  {
    assert [record][..0] == [];
  }

  /** The records are reported one after the other. */
  lemma {:induction false} RemovalReportAppend(a: seq<DiffRecord>, b: seq<DiffRecord>)
    ensures RemovalReport(a + b) == RemovalReport(a) + RemovalReport(b)
    decreases |b|
  {
    if b == [] {
      assert a + b == a;
    } else {
      var init := b[..|b| - 1];
      assert (a + b)[..|a + b| - 1] == a + init;
      RemovalReportAppend(a, init);
    }
  }

  /** `list-removed-items`: find the last two archives, diff them, report the removals. */
  function ListRemovedItemsRun(s: EngineState, ask: bool, name: string, options: RemovedItemsOptions, w: World): CommandRun {
    match Dispatch(s, ask, name, LastTwoArgs, w.environ, w.replies(0), true)
    case Failure(e) => CommandRun(Failure(e), [LastTwoArgs], [])
    case Success(None) => CommandRun(Success(1), [LastTwoArgs], [])
    case Success(Some(_)) =>
      if |w.lastArchives| < 2 then CommandRun(Success(0), [LastTwoArgs], [])
      else
        var diffArgs := DiffArgs(w.lastArchives[0], w.lastArchives[1], options.path);
        var calls := [LastTwoArgs, diffArgs];
        match Dispatch(s, ask, name, diffArgs, w.environ, w.replies(1), true)
        case Failure(e) => CommandRun(Failure(e), calls, [])
        case Success(None) => CommandRun(Success(1), calls, [])
        case Success(Some(_)) =>
          var report := RemovalReport(w.diffRecords);
          CommandRun(Success(if options.fail && report != [] then 1 else 0), calls, report)
  }

  /** `execute_custom_borg_command`: `None` when the first argument names no composite command. */
  function CustomCommandRun(s: EngineState, ask: bool, name: string, arguments: seq<string>,
                            parse: seq<string> -> RemovedItemsOptions, w: World): Option<CommandRun> {
    if arguments == [] then None
    else if arguments[0] == "list-archives" then Some(ListArchivesRun(s, ask, name, arguments[1..], w))
    else if arguments[0] == "list-removed-items" then Some(ListRemovedItemsRun(s, ask, name, parse(arguments[1..]), w))
    else None
  }

  /** `execute_command`: a composite command's result as it is, otherwise a pass-through
      dispatch whose exit code is returned, or 1 when it was aborted. */
  function CommandRunFor(s: EngineState, ask: bool, name: string, arguments: seq<string>,
                         parse: seq<string> -> RemovedItemsOptions, w: World): CommandRun {
    match CustomCommandRun(s, ask, name, arguments, parse, w)
    case Some(run) => run
    case None =>
      match Dispatch(s, ask, name, arguments, w.environ, w.replies(0), false)
      case Failure(e) => CommandRun(Failure(e), [arguments], [])
      case Success(None) => CommandRun(Success(1), [arguments], [])
      case Success(Some(p)) => CommandRun(Success(p.returnCode), [arguments], [])
  }

  // ---- Properties of the commands ----

  /** An unknown repository fails every command with `ConfigError`, after one attempted
      dispatch that never reached a subprocess. */
  lemma UnknownRepositoryFails(s: EngineState, ask: bool, name: string, arguments: seq<string>,
                               parse: seq<string> -> RemovedItemsOptions, w: World)
    requires name !in s.repositories
    ensures CommandRunFor(s, ask, name, arguments, parse, w).exit == Failure(ConfigError(name))
    ensures |CommandRunFor(s, ask, name, arguments, parse, w).calls| == 1
    ensures CommandRunFor(s, ask, name, arguments, parse, w).report == []
  {
  }

  /** A per-archive call that was not declined ran, with the exit code the world gave it;
      a declined one is skipped. */
  lemma ArchiveOutcomesAt(s: EngineState, ask: bool, name: string, extra: seq<string>, w: World, i: nat)
    requires name in s.repositories && i < |w.archiveLines|
    ensures ArchiveOutcomes(s, ask, name, extra, w)[i] ==
      if ask && Declines(w.replies(i + 1).answer) then None else Some(w.replies(i + 1).returnCode)
  {
  }

  /** `list-archives` after a completed enumeration: the enumeration, then one
      `list ::<archive>` call per output line in order with the extra arguments (the contract
      of `ArchiveCalls`); the result is the largest exit code of the calls that ran, 0 when
      none did (the contract of `HighestExitCode`). */
  lemma ListArchivesFanOut(s: EngineState, ask: bool, name: string, extra: seq<string>, w: World)
    requires name in s.repositories
    requires !(ask && Declines(w.replies(0).answer)) && w.replies(0).returnCode == 0
    ensures ListArchivesRun(s, ask, name, extra, w).calls == [ListShortArgs] + ArchiveCalls(w.archiveLines, extra)
    ensures ListArchivesRun(s, ask, name, extra, w).exit == Success(HighestExitCode(ArchiveOutcomes(s, ask, name, extra, w)))
    ensures ListArchivesRun(s, ask, name, extra, w).report == []
  {
    var listing := Dispatch(s, ask, name, ListShortArgs, w.environ, w.replies(0), true);
    assert listing.Success? && listing.value.Some?;
  }

  /** An aborted enumeration ends `list-archives` with exit code 1 and no per-archive call. */
  lemma ListArchivesAborted(s: EngineState, ask: bool, name: string, extra: seq<string>, w: World)
    requires name in s.repositories && ask && Declines(w.replies(0).answer)
    ensures ListArchivesRun(s, ask, name, extra, w) == CommandRun(Success(1), [ListShortArgs], [])
  {
  }

  /** No archives: exit code 0 after exactly one dispatch, the enumeration. */
  lemma ListArchivesNoArchives(s: EngineState, ask: bool, name: string, extra: seq<string>, w: World)
    requires name in s.repositories
    requires !(ask && Declines(w.replies(0).answer)) && w.replies(0).returnCode == 0
    requires w.archiveLines == []
    ensures ListArchivesRun(s, ask, name, extra, w) == CommandRun(Success(0), [ListShortArgs], [])
  {
    assert ArchiveOutcomes(s, ask, name, extra, w) == [];
  }

  /** Per-archive exit codes 0, 2, 1: all three calls are made and the result is 2. */
  lemma ListArchivesHighest(s: EngineState, name: string, extra: seq<string>, w: World)
    requires name in s.repositories
    requires w.replies(0).returnCode == 0 && |w.archiveLines| == 3
    requires w.replies(1).returnCode == 0 && w.replies(2).returnCode == 2 && w.replies(3).returnCode == 1
    ensures ListArchivesRun(s, false, name, extra, w).exit == Success(2)
    ensures |ListArchivesRun(s, false, name, extra, w).calls| == 4
  {
    var outcomes := ArchiveOutcomes(s, false, name, extra, w);
    assert outcomes == [Some(0), Some(2), Some(1)];
    assert outcomes[..2] == [Some(0), Some(2)];
    assert outcomes[..1] == [Some(0)];
    assert outcomes[..2][..1] == outcomes[..1];
    assert outcomes[..1][..0] == [];
    assert HighestExitCode(outcomes[..1]) == 0;
    assert HighestExitCode(outcomes[..2]) == 2;
    assert HighestExitCode(outcomes) == 2;
  }

  /** A declined call ends `list-removed-items` with exit code 1 and nothing printed: a
      declined listing before any diff, and a declined diff after the listing. */
  lemma ListRemovedItemsAborted(s: EngineState, ask: bool, name: string, options: RemovedItemsOptions, w: World)
    requires name in s.repositories && ask
    ensures Declines(w.replies(0).answer) ==>
      ListRemovedItemsRun(s, ask, name, options, w) == CommandRun(Success(1), [LastTwoArgs], [])
    ensures !Declines(w.replies(0).answer) && w.replies(0).returnCode == 0 && |w.lastArchives| >= 2
            && Declines(w.replies(1).answer) ==>
      ListRemovedItemsRun(s, ask, name, options, w) ==
        CommandRun(Success(1), [LastTwoArgs, DiffArgs(w.lastArchives[0], w.lastArchives[1], options.path)], [])
  {
  }

  /** Fewer than two archives: exit code 0 and no diff dispatch. */
  lemma ListRemovedItemsTooFewArchives(s: EngineState, ask: bool, name: string, options: RemovedItemsOptions, w: World)
    requires name in s.repositories
    requires !(ask && Declines(w.replies(0).answer)) && w.replies(0).returnCode == 0
    requires |w.lastArchives| < 2
    ensures ListRemovedItemsRun(s, ask, name, options, w) == CommandRun(Success(0), [LastTwoArgs], [])
  {
  }

  /** After a completed diff of `archives[0]` against `archives[1]`: the exit code is 1 exactly
      when `--fail` is set and some change is a removal, and one line is printed per removal. */
  lemma ListRemovedItemsExitCode(s: EngineState, ask: bool, name: string, options: RemovedItemsOptions, w: World)
    requires name in s.repositories && |w.lastArchives| >= 2
    requires !(ask && Declines(w.replies(0).answer)) && w.replies(0).returnCode == 0
    requires !(ask && Declines(w.replies(1).answer)) && w.replies(1).returnCode == 0
    ensures var run := ListRemovedItemsRun(s, ask, name, options, w);
      && run.calls == [LastTwoArgs, DiffArgs(w.lastArchives[0], w.lastArchives[1], options.path)]
      && run.report == RemovalReport(w.diffRecords)
      && run.exit == Success(if options.fail && HasRemoval(w.diffRecords) then 1 else 0)
  {
    RemovalReportEmpty(w.diffRecords);
  }

  /** One `removed` change: one report line; exit code 0 without `--fail` and 1 with it. */
  lemma ListRemovedItemsOneRemoval(s: EngineState, ask: bool, name: string, options: RemovedItemsOptions, w: World, path: string)
    requires name in s.repositories && |w.lastArchives| >= 2
    requires !(ask && Declines(w.replies(0).answer)) && w.replies(0).returnCode == 0
    requires !(ask && Declines(w.replies(1).answer)) && w.replies(1).returnCode == 0
    requires w.diffRecords == [DiffRecord(path, ["removed"])]
    ensures ListRemovedItemsRun(s, ask, name, options, w).report == ["Removed file: " + path]
    ensures ListRemovedItemsRun(s, ask, name, options, w).exit == Success(if options.fail then 1 else 0)
  {
    var records := w.diffRecords;
    assert records[..0] == [];
    var changes := ["removed"];
    assert changes[..0] == [];
    assert ChangesReport(path, changes) == [ReportLine(path, "removed")];
    assert RemovalReport(records) == RemovalReport(records[..0]) + ChangesReport(path, changes);
    assert ReportLine(path, "removed") == "Removed file: " + path;
  }

  /** The composite commands: `list-archives` passes the arguments after its name on to every
      per-archive call, and `list-removed-items` runs with what the parser makes of them. */
  lemma CompositeCommands(s: EngineState, ask: bool, name: string, rest: seq<string>,
                          parse: seq<string> -> RemovedItemsOptions, w: World)
    ensures CommandRunFor(s, ask, name, ["list-archives"] + rest, parse, w) == ListArchivesRun(s, ask, name, rest, w)
    ensures CommandRunFor(s, ask, name, ["list-removed-items"] + rest, parse, w) ==
      ListRemovedItemsRun(s, ask, name, parse(rest), w)
  {
    assert (["list-archives"] + rest)[1..] == rest;
    assert (["list-removed-items"] + rest)[1..] == rest;
  }

  /** A pass-through command (no composite name first) is one dispatch of the arguments as
      given; the result is its exit code, or 1 when it was aborted. */
  lemma PassThrough(s: EngineState, ask: bool, name: string, arguments: seq<string>,
                    parse: seq<string> -> RemovedItemsOptions, w: World)
    requires name in s.repositories
    requires arguments == [] || (arguments[0] != "list-archives" && arguments[0] != "list-removed-items")
    ensures var run := CommandRunFor(s, ask, name, arguments, parse, w);
      && run.calls == [arguments]
      && run.exit == Success(if ask && Declines(w.replies(0).answer) then 1 else w.replies(0).returnCode)
  {
  }
}
