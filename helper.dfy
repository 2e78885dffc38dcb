/**
 * The `BorgHelper` object: its fields, the config loading that updates them in place, and
 * the dispatching methods, each proved to compute what `Config` and `Commands` specify.
 */
module Helper {
  import opened Wrappers
  import opened Aliases
  import opened Config
  import opened Commands

  /** The built-in search path, lowest precedence first: next to the script, system-wide,
      per user, and the working directory. */
  function DefaultConfigPaths(scriptDir: string): seq<string> {
    [scriptDir + "/borg-helper.json", "/etc/borg-helper.json", "~/.config/borg-helper.json", "borg-helper.json"]
  }

  /** The parsed documents of the paths that exist, in path order; `files` maps each existing
      path to its parsed content. */
  function FoundConfigs(paths: seq<string>, files: map<string, ConfigDoc>): seq<ConfigDoc> {
    if paths == [] then []
    else
      var p := paths[|paths| - 1];
      FoundConfigs(paths[..|paths| - 1], files) + (if p in files then [files[p]] else [])
  }

  class BorgHelper {
    var configPaths: seq<string>
    var askBeforeExecute: bool
    var borgBinary: string
    var repositories: map<string, RepoConfig>
    var commandAliases: AliasTable

    /** The merged configuration the fields hold. */
    function State(): EngineState
      reads this
    {
      EngineState(borgBinary, commandAliases, repositories)
    }

    /** Default paths with the extra ones appended; binary `borg`, nothing configured yet. */
    constructor (scriptDir: string, extraConfigPaths: seq<string>)
      ensures configPaths == DefaultConfigPaths(scriptDir) + extraConfigPaths
      ensures !askBeforeExecute
      ensures State() == InitialState
    {
      configPaths := DefaultConfigPaths(scriptDir) + extraConfigPaths;
      askBeforeExecute := false;
      borgBinary := DefaultBinary;
      repositories := map[];
      commandAliases := map[];
    }

    /** Loads every config path in order; paths that are not in `files` do not exist. */
    method LoadConfigs(files: map<string, ConfigDoc>)
      modifies this
      ensures State() == ApplyConfigs(old(State()), FoundConfigs(configPaths, files))
      ensures configPaths == old(configPaths) && askBeforeExecute == old(askBeforeExecute)
    {
      var paths := configPaths;
      for i := 0 to |paths|
        invariant configPaths == paths && askBeforeExecute == old(askBeforeExecute)
        invariant State() == ApplyConfigs(old(State()), FoundConfigs(paths[..i], files))
      {
        ghost var before := State();
        LoadConfig(paths[i], files);
        assert paths[..i + 1][..i] == paths[..i];
        ghost var docs := FoundConfigs(paths[..i], files);
        if paths[i] in files {
          assert FoundConfigs(paths[..i + 1], files) == docs + [files[paths[i]]];
          assert (docs + [files[paths[i]]])[..|docs|] == docs;
        } else {
          assert FoundConfigs(paths[..i + 1], files) == docs + [];
          assert docs + [] == docs;
        }
      }
      assert paths[..|paths|] == paths;
    }

    /** Folds one config file into the fields; a missing file changes nothing. */
    method LoadConfig(path: string, files: map<string, ConfigDoc>)
      modifies this
      ensures path in files ==> State() == ApplyConfig(old(State()), files[path])
      ensures path !in files ==> State() == old(State())
      ensures configPaths == old(configPaths) && askBeforeExecute == old(askBeforeExecute)
    {
      if path !in files {
        return;
      }
      var config := files[path];
      if config.borgBinary.Some? {
        borgBinary := config.borgBinary.value;
      }
      var aliases := config.aliases;
      for i := 0 to |aliases|
        invariant commandAliases == PutAll(old(commandAliases), aliases[..i])
        invariant borgBinary == (if config.borgBinary.Some? then config.borgBinary.value else old(borgBinary))
        invariant repositories == old(repositories)
        invariant configPaths == old(configPaths) && askBeforeExecute == old(askBeforeExecute)
      {
        AddAlias(aliases[i].0, aliases[i].1);
        assert aliases[..i + 1][..i] == aliases[..i];
      }
      assert aliases[..|aliases|] == aliases;
      var entries := config.repositories;
      for i := 0 to |entries|
        invariant repositories == UpdateAll(old(repositories), entries[..i])
        invariant commandAliases == PutAll(old(commandAliases), aliases)
        invariant borgBinary == (if config.borgBinary.Some? then config.borgBinary.value else old(borgBinary))
        invariant configPaths == old(configPaths) && askBeforeExecute == old(askBeforeExecute)
      {
        AddRepository(entries[i].0, entries[i].1);
        assert entries[..i + 1][..i] == entries[..i];
      }
      assert entries[..|entries|] == entries;
    }

    /** Sets one global alias; every other alias and field is kept. */
    method AddAlias(name: string, value: string)
      modifies this
      ensures commandAliases == old(commandAliases)[name := value]
      ensures borgBinary == old(borgBinary) && repositories == old(repositories)
      ensures configPaths == old(configPaths) && askBeforeExecute == old(askBeforeExecute)
    {
      commandAliases := commandAliases[name := value];
    }

    /** Creates the profile empty if it is new, then updates it with the fields `config` has;
      other profiles and fields are kept. */
    method AddRepository(name: string, config: RepoConfig)
      modifies this
      ensures repositories == WithRepository(old(repositories), name, config)
      ensures name in repositories && repositories[name] == UpdateRepo(Base(old(repositories), name), config)
      ensures borgBinary == old(borgBinary) && commandAliases == old(commandAliases)
      ensures configPaths == old(configPaths) && askBeforeExecute == old(askBeforeExecute)
    {
      if name !in repositories {
        repositories := repositories[name := EmptyRepo];
      }
      repositories := repositories[name := UpdateRepo(repositories[name], config)];
    }

    /** The profile of a configured repository, `None` for an unknown name. */
    function GetRepository(name: string): (r: Option<RepoConfig>)
      reads this
      ensures r.Some? <==> name in repositories
      ensures r.Some? ==> r.value == repositories[name]
    {
      if name in repositories then Some(repositories[name]) else None
    }

    /** `execute_borg`: fails on an unknown repository, otherwise overlays the profile's
        variables on the inherited environment, resolves aliases (repository table, then global
        table), joins the command line, and returns `None` if the user declines. */
    method ExecuteBorg(name: string, arguments: seq<string>, environ: map<string, string>, reply: Reply, check: bool)
      returns (r: Result<Option<CompletedProcess>, Failure>)
      ensures r == Dispatch(State(), askBeforeExecute, name, arguments, environ, reply, check)
    {
      var env := environ;
      var config := GetRepository(name);
      if config.None? {
        return Failure(ConfigError(name));
      }
      var repo := config.value;
      if repo.repository.Some? {
        env := env["BORG_REPO" := repo.repository.value];
      }
      if repo.passphrase.Some? {
        env := env["BORG_PASSPHRASE" := repo.passphrase.value];
      }
      if repo.sshKey.Some? {
        env := env["BORG_RSH" := SshCommand(repo.sshKey.value)];
      }
      var args := arguments;
      if |args| > 0 {
        args := ResolveAlias(args, RepoAliases(repo));
        args := ResolveAlias(args, commandAliases);
      }
      var commandLine := CommandLine(borgBinary, args);
      if askBeforeExecute && Declines(reply.answer) {
        return Success(None);
      }
      if check && reply.returnCode != 0 {
        return Failure(CalledProcessError(reply.returnCode, commandLine));
      }
      return Success(Some(CompletedProcess(commandLine, env, reply.returnCode)));
    }

    /** `list-archives`: the enumeration, then one call per archive line, keeping the largest
        exit code of the calls that ran. */
    method ListArchives(name: string, extra: seq<string>, w: World) returns (run: CommandRun)
      ensures run == ListArchivesRun(State(), askBeforeExecute, name, extra, w)
    {
      var listing := ExecuteBorg(name, ListShortArgs, w.environ, w.replies(0), true);
      var calls := [ListShortArgs];
      if listing.Failure? {
        return CommandRun(Failure(listing.error), calls, []);
      }
      if listing.value.None? {
        return CommandRun(Success(1), calls, []);
      }
      var highestExitCode, archiveCalls := ListEachArchive(name, extra, w);
      calls := calls + archiveCalls;
      return CommandRun(Success(highestExitCode), calls, []);
    }

    /** The loop of `list-archives`: one unchecked call per archive line, keeping the largest
        exit code of the calls that ran; declined calls and failures do not count. */
    method ListEachArchive(name: string, extra: seq<string>, w: World)
      returns (highestExitCode: int, calls: seq<seq<string>>)
      ensures highestExitCode == HighestExitCode(ArchiveOutcomes(State(), askBeforeExecute, name, extra, w))
      ensures calls == ArchiveCalls(w.archiveLines, extra)
    {
      highestExitCode := 0;
      calls := [];
      var archives := w.archiveLines;
      ghost var outcomes := ArchiveOutcomes(State(), askBeforeExecute, name, extra, w);
      for i := 0 to |archives|
        invariant highestExitCode == HighestExitCode(outcomes[..i])
        invariant calls == ArchiveCalls(archives[..i], extra)
      {
        var process := ExecuteBorg(name, ArchiveListArgs(archives[i], extra), w.environ, w.replies(i + 1), false);
        ArchiveCallsStep(archives, extra, i);
        calls := calls + [ArchiveListArgs(archives[i], extra)];
        HighestExitCodeStep(outcomes, i);
        assert outcomes[i] == ExitCodeOf(process);
        if process.Success? && process.value.Some? {
          var code := process.value.value.returnCode;
          if code > highestExitCode {
            highestExitCode := code;
          }
        }
      }
      assert archives[..|archives|] == archives;
      assert outcomes[..|archives|] == outcomes;
    }

    /** `list-removed-items`: the last two archives, their diff, and one report line per removed
        file or directory; with `--fail` any removal makes the exit code 1 for good. */
    method ListRemovedItems(name: string, options: RemovedItemsOptions, w: World) returns (run: CommandRun)
      ensures run == ListRemovedItemsRun(State(), askBeforeExecute, name, options, w)
    {
      var listing := ExecuteBorg(name, LastTwoArgs, w.environ, w.replies(0), true);
      var calls := [LastTwoArgs];
      if listing.Failure? {
        return CommandRun(Failure(listing.error), calls, []);
      }
      if listing.value.None? {
        return CommandRun(Success(1), calls, []);
      }
      var archives := w.lastArchives;
      if |archives| < 2 {
        return CommandRun(Success(0), calls, []);
      }
      var previousBackup := archives[0];
      var currentBackup := archives[1];
      var diffCommand := ["diff", "--json-lines", "::" + previousBackup, currentBackup];
      if options.path.Some? && options.path.value != "" {
        diffCommand := diffCommand + [options.path.value];
      }
      assert diffCommand == DiffArgs(previousBackup, currentBackup, options.path);
      var diff := ExecuteBorg(name, diffCommand, w.environ, w.replies(1), true);
      calls := calls + [diffCommand];
      if diff.Failure? {
        return CommandRun(Failure(diff.error), calls, []);
      }
      if diff.value.None? {
        return CommandRun(Success(1), calls, []);
      }
      var report, exitCode := ReportRemovals(w.diffRecords, options.fail);
      return CommandRun(Success(exitCode), calls, report);
    }

    /** The loop over the diff records: the report of every removal, and exit code 1 if `fail`
        is set and there was one, 0 otherwise. */
    method ReportRemovals(records: seq<DiffRecord>, fail: bool) returns (report: seq<string>, exitCode: int)
      ensures report == RemovalReport(records)
      ensures exitCode == if fail && report != [] then 1 else 0
    {
      exitCode := 0;
      report := [];
      for i := 0 to |records|
        invariant report == RemovalReport(records[..i])
        invariant exitCode == if fail && report != [] then 1 else 0
      {
        var lines, removed := ReportChanges(records[i].path, records[i].changes);
        report := report + lines;
        if fail && removed {
          exitCode := 1;
        }
        assert records[..i + 1][..i] == records[..i];
      }
      assert records[..|records|] == records;
    }

    /** The report lines for one diff record: one per removed file or directory, in order,
        and whether there was any. */
    method ReportChanges(path: string, changes: seq<string>) returns (report: seq<string>, removed: bool)
      ensures report == ChangesReport(path, changes)
      ensures removed <==> report != []
    {
      report := [];
      removed := false;
      for j := 0 to |changes|
        invariant report == ChangesReport(path, changes[..j])
        invariant removed <==> report != []
      {
        var changeType := changes[j];
        if changeType == "removed" {
          report := report + ["Removed file: " + path];
          removed := true;
        } else if changeType == "removed directory" {
          report := report + ["Removed directory: " + path];
          removed := true;
        }
        assert changes[..j + 1][..j] == changes[..j];
      }
      assert changes[..|changes|] == changes;
    }

    /** `execute_custom_borg_command`: runs `list-archives` or `list-removed-items` when the
        first argument names one, and returns `None` otherwise. */
    method ExecuteCustomBorgCommand(name: string, arguments: seq<string>, parse: seq<string> -> RemovedItemsOptions, w: World)
      returns (run: Option<CommandRun>)
      ensures run == CustomCommandRun(State(), askBeforeExecute, name, arguments, parse, w)
    {
      if |arguments| == 0 {
        return None;
      }
      var customCommand := arguments[0];
      if customCommand == "list-archives" {
        var r := ListArchives(name, arguments[1..], w);
        return Some(r);
      } else if customCommand == "list-removed-items" {
        var r := ListRemovedItems(name, parse(arguments[1..]), w);
        return Some(r);
      }
      return None;
    }

    /** `execute_command`: a composite command's result, or a pass-through dispatch. */
    method ExecuteCommand(name: string, arguments: seq<string>, parse: seq<string> -> RemovedItemsOptions, w: World)
      returns (run: CommandRun)
      ensures run == CommandRunFor(State(), askBeforeExecute, name, arguments, parse, w)
    {
      var custom := ExecuteCustomBorgCommand(name, arguments, parse, w);
      if custom.Some? {
        return custom.value;
      }
      var process := ExecuteBorg(name, arguments, w.environ, w.replies(0), false);
      if process.Failure? {
        return CommandRun(Failure(process.error), [arguments], []);
      }
      if process.value.None? {
        return CommandRun(Success(1), [arguments], []);
      }
      return CommandRun(Success(process.value.value.returnCode), [arguments], []);
    }
  }
}
