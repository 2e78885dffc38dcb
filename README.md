# borg-helper in Dafny

`borg-helper.py` is a small wrapper around the BorgBackup command-line tool. It loads
repository profiles and command aliases from a chain of JSON config files, later files
overriding earlier ones. It turns `borg-helper <repository> <arguments>` into one or more
`borg` invocations. For each one it puts the profile's repository, passphrase and SSH key
into the environment and resolves the first argument through the profile's alias table,
then the global one. It can ask before each call. It also offers two composite commands:
`list-archives` lists every archive, and `list-removed-items` reports what the newest
backup removed compared with the one before it.

This project models that core:

- `Wrappers`: `Option` and `Result`.
- `Text`: Python's `str.split(sep)`, `sep.join(parts)` and `str.strip(chars)` on `seq<char>`.
  It proves the split/join round trips.
- `Aliases`: `resolve_alias` and the two-tier resolution `execute_borg` applies.
- `Config`: parsed config documents and the merge `load_config` performs, stated as folds.
  Lemmas prove later-wins, per-field profile updates and order independence of disjoint files.
- `Commands`: the specification of `execute_borg`, `list-archives`, `list-removed-items`,
  `execute_custom_borg_command` and `execute_command`, as functions over the merged
  configuration and a `World`. The `World` supplies the inherited environment, each call's
  prompt answer and exit code, and the parsed `borg` output.
- `Helper`: the `BorgHelper` class. Its fields are updated in place by `LoadConfigs`,
  `LoadConfig`, `AddAlias` and `AddRepository`, and its loops appear as `for` loops. Every
  method is proved to compute exactly what the `Config` or `Commands` function specifies.
- `Cli`: `parse_arguments` as a loop with an early exit, and the split of
  `BORG_HELPER_CONFIGS` in `main`.

The outside world is passed in as values. A config file system is a map from path to parsed
document, where a missing path means `FileNotFoundError`. A subprocess result is a `Reply`
(answer to the prompt, exit code), taken from `World.replies(k)` for the k-th dispatch of a
command. `borg`'s stdout arrives already parsed: archive lines, the last two archive names,
and diff records. A non-zero exit of a `check=True` call is the `CalledProcessError`
failure, and an unknown repository is the `ConfigError` failure.

Two edge cases follow the code. A lone `--` is an option token whose stripped form is empty,
so it adds no letters and parsing goes on. Every line of the archive listing issues a
`list ::<line>` call, an empty line included, because `splitlines()` is not filtered; a
description of the calls as one per non-empty archive name would differ there.

## Model

| member | source | states |
|---|---|---|
| Text.Split | borg-helper.py:215 | `str.split(" ")` yields at least one piece and no piece contains the separator |
| Text.JoinSplit | borg-helper.py:215 | joining the pieces of a split with the separator gives the original string back |
| Text.SplitJoin | borg-helper.py:215 | splitting a join of separator-free pieces gives the pieces back |
| Text.JoinAppend | borg-helper.py:106-107 | joining two non-empty lists is joining each with one separator between |
| Text.SplitWithoutSeparator | borg-helper.py:215 | a string without the separator splits into itself alone |
| Text.SplitAfterPiece | borg-helper.py:215 | splitting `a + sep + b` yields `a` followed by the pieces of `b` |
| Text.TrimStart | borg-helper.py:225 | the result is a suffix, every dropped character is strippable, and the first kept one is not |
| Text.TrimEnd | borg-helper.py:257 | the result is a prefix, every dropped character is strippable, and the last kept one is not |
| Text.Strip | borg-helper.py:257 | neither end of the result is a strippable character and the result is no longer than the input |
| Text.StripAddsNothing | borg-helper.py:257 | stripping never introduces a character the string did not hold |
| Text.StripUntrimmed | borg-helper.py:257 | a string with no strippable character at either end is unchanged |
| Text.StripIdempotent | borg-helper.py:257 | stripping twice is stripping once |
| Aliases.ResolveAlias | borg-helper.py:206-215 | empty in, empty out; an unknown first word leaves the list unchanged; a known one is replaced by its expansion split on single spaces, followed by the rest |
| Aliases.ResolveKeepsRest | borg-helper.py:215 | the arguments after the first are kept, in order, at the end |
| Aliases.ResolveIsOneLevel | borg-helper.py:215 | the expansion is not resolved again, even if its first word is an alias |
| Aliases.ResolveAsText | borg-helper.py:215 | on the joined line the alias's expansion string takes the alias's place textually |
| Aliases.RepositoryAliasShadowsGlobal | borg-helper.py:100-104 | a repository alias takes precedence over a global alias of the same name |
| Aliases.RepositoryAliasFeedsGlobal | borg-helper.py:100-104 | a repository expansion starting with a global alias name is expanded once more by the global table |
| Aliases.ResolveExamples | borg-helper.py:206-215 | `backup` as `create --stats`, with and without trailing arguments, and an unknown command |
| Config.WithRepository | borg-helper.py:70-76 | adding a profile makes its name present and leaves every other profile untouched |
| Config.LastValue | borg-helper.py:52-53 | an entry name has a value iff it occurs, and the value is that of its last occurrence |
| Config.LatestIsLastSetting | borg-helper.py:45-46 | the last setting wins: with no setting the initial value stays, otherwise the result is a setting no later one follows |
| Config.PutAllAt | borg-helper.py:52-53 | after adding alias entries, a name is present iff it was before or is among them, with the last entry's value if any |
| Config.PutAllAppend | borg-helper.py:34-36 | adding two runs of aliases one after the other is adding their concatenation |
| Config.UpdateAllKeys | borg-helper.py:58-59 | the profile names after loading are the earlier ones plus the loaded ones |
| Config.UpdateAllAt | borg-helper.py:58-59 | each profile is its earlier value, or an empty one, updated by every entry of its name in order |
| Config.UpdateRepoAllSnoc | borg-helper.py:76 | one more update of a profile is applied last |
| Config.ConfigsForUnnamed | borg-helper.py:58-59 | a profile not named in the entries receives no update |
| Config.UpdateAllAppend | borg-helper.py:34-36 | loading two runs of profile entries in sequence is loading their concatenation |
| Config.UpdateRepoAllFields | borg-helper.py:73-76 | each profile field is the last value any loaded entry gave it, else the earlier value (`dict.update` per key) |
| Config.ApplyConfigsMerged | borg-helper.py:34-63 | loading a chain of files is adding all their aliases and profiles in file order, with the last `borg_binary` winning |
| Config.LaterAliasWins | borg-helper.py:34-36 | an alias defined in several files has the value of the last file's definition |
| Config.PutAllDisjointCommutes | borg-helper.py:52-53 | alias runs with no name in common can be added in either order |
| Config.UpdateAllDisjointCommutesAt | borg-helper.py:58-59 | with no profile name in common, each profile ends up the same in either load order |
| Config.UpdateAllDisjointCommutes | borg-helper.py:58-59 | profile runs with no name in common can be loaded in either order |
| Config.ApplyConfigDisjointCommutes | borg-helper.py:38-63 | two files sharing no alias or profile names, and not both setting the binary, load to the same state in either order |
| Commands.BorgEnvironmentOverlay | borg-helper.py:85-98 | the environment is the inherited one plus `BORG_REPO`, `BORG_PASSPHRASE` and `BORG_RSH=ssh -i '<key>'` for the fields the profile sets; every other variable is inherited |
| Commands.CommandLineShape | borg-helper.py:106-107 | the command line is the binary alone, or the binary, a space, and the arguments joined by spaces |
| Commands.CommandLineWords | borg-helper.py:106-107 | when no word holds a space, the words of the command line are the binary and the arguments |
| Commands.DispatchCases | borg-helper.py:84-115 | `ConfigError` iff the repository is unknown; aborted iff known, asking and the answer starts with `n`; a known, accepted dispatch raises `CalledProcessError` with the resolved line for a checked non-zero exit and runs otherwise; a run is the two-tier-resolved line in the profile's environment with the world's exit code |
| Commands.HighestExitCode | borg-helper.py:127-136 | the maximum over the calls that ran, starting at 0; every such code is at most it, and it is 0 or one of them |
| Commands.ArchiveCalls | borg-helper.py:129-130 | one `list ::<archive>` call per archive line, in order, with the extra arguments |
| Commands.ChangesReport | borg-helper.py:180-189 | a record prints something iff one of its changes is `removed` or `removed directory` |
| Commands.ChangesReportSingle | borg-helper.py:180-189 | one change prints `Removed file: <path>` if `removed`, `Removed directory: <path>` if `removed directory`, and nothing otherwise |
| Commands.ChangesReportAppend | borg-helper.py:180 | the changes are reported one after the other: the lines of two runs are the first run's followed by the second's |
| Commands.ChangesReportExample | borg-helper.py:180-189 | `removed`, `modified`, `removed directory` give the file line then the directory line |
| Commands.RemovalReportSingle | borg-helper.py:175-180 | one record reports its own changes under its own path |
| Commands.RemovalReportAppend | borg-helper.py:175 | the records are reported one after the other, in order |
| Commands.RemovalReportEmpty | borg-helper.py:173-191 | the report is empty iff no change of any record is a removal |
| Commands.UnknownRepositoryFails | borg-helper.py:88-89 | an unknown repository fails every command with `ConfigError` after one dispatch and no report |
| Commands.CompositeCommands | borg-helper.py:121-143 | `list-archives` passes the arguments after its name to the per-archive calls; `list-removed-items` runs with the parse of the arguments after its name |
| Commands.ArchiveOutcomesAt | borg-helper.py:130-134 | a per-archive call counts with the world's exit code unless it was declined |
| Commands.ListArchivesFanOut | borg-helper.py:122-136 | after a completed enumeration, the calls are the enumeration then one per archive line, nothing is printed, and the result is the largest exit code of the calls that ran |
| Commands.HighestExitCodeStep | borg-helper.py:131-134 | the running maximum takes one more outcome into account only when that call ran |
| Commands.ArchiveCallsStep | borg-helper.py:130 | one more archive line adds its call at the end |
| Commands.ListArchivesAborted | borg-helper.py:123-125 | a declined enumeration returns 1 with no per-archive call |
| Commands.ListRemovedItemsAborted | borg-helper.py:151-171 | a declined listing returns 1 before any diff; a declined diff returns 1 after the listing and the diff call; nothing is printed |
| Commands.ListArchivesNoArchives | borg-helper.py:127-136 | with no archives the result is 0 after the enumeration alone |
| Commands.ListArchivesHighest | borg-helper.py:127-136 | per-archive exit codes 0, 2, 1 give 2, and all four calls are made |
| Commands.ListRemovedItemsTooFewArchives | borg-helper.py:157-159 | fewer than two archives returns 0 without a diff |
| Commands.ListRemovedItemsExitCode | borg-helper.py:151-191 | after a completed diff of archive 0 against archive 1 (path appended when given and non-empty), the report is one line per removal and the exit code is 1 iff `--fail` is set and some change is a removal |
| Commands.ListRemovedItemsOneRemoval | borg-helper.py:182-185 | one `removed` change prints `Removed file: <path>` and gives 1 with `--fail`, 0 without |
| Commands.PassThrough | borg-helper.py:195-204 | a non-composite command is one dispatch of the arguments as given; the result is its exit code, or 1 if aborted |
| Helper.BorgHelper.constructor | borg-helper.py:18-32 | the four default paths followed by the extra ones; no prompt; binary `borg`; no aliases or profiles |
| Helper.BorgHelper.LoadConfigs | borg-helper.py:34-36 | the new state is every existing config file applied in path order; paths and the prompt flag unchanged |
| Helper.BorgHelper.LoadConfig | borg-helper.py:38-63 | an existing file is applied (binary, then aliases, then profiles); a missing one changes nothing |
| Helper.BorgHelper.AddAlias | borg-helper.py:65-68 | the alias table gains or overwrites one entry; nothing else changes |
| Helper.BorgHelper.AddRepository | borg-helper.py:70-76 | the profile, created empty if new, is updated field by field; other profiles and fields unchanged |
| Helper.BorgHelper.GetRepository | borg-helper.py:81-82 | a profile is returned iff the name is configured, and it is that profile |
| Helper.BorgHelper.ExecuteBorg | borg-helper.py:84-115 | the step-by-step environment, alias resolution and abort gate give exactly `Dispatch` |
| Helper.BorgHelper.ListArchives | borg-helper.py:122-136 | the method's exit code, calls and report are exactly `ListArchivesRun` |
| Helper.BorgHelper.ListEachArchive | borg-helper.py:127-136 | the loop's running maximum is `HighestExitCode` of the per-archive outcomes, and its calls are `ArchiveCalls` |
| Helper.BorgHelper.ListRemovedItems | borg-helper.py:137-191 | the method's exit code, calls and report are exactly `ListRemovedItemsRun` |
| Helper.BorgHelper.ReportRemovals | borg-helper.py:173-191 | the loop prints `RemovalReport` of the records, and the exit code is 1 iff `--fail` and something was printed |
| Helper.BorgHelper.ReportChanges | borg-helper.py:180-189 | one record's lines are `ChangesReport`, and the flag says whether there were any |
| Helper.BorgHelper.ExecuteCustomBorgCommand | borg-helper.py:117-193 | runs a composite command when the first argument names one, and returns `None` otherwise |
| Helper.BorgHelper.ExecuteCommand | borg-helper.py:195-204 | a composite command's result, or the pass-through dispatch's exit code, 1 if aborted |
| Cli.LeadingOptionCount | borg-helper.py:222-231 | every token before the count is an option token, and the token at it, if any, is not |
| Cli.LeadingOptionCountUnique | borg-helper.py:222-231 | any such position is the count: the option run is exactly the leading option tokens |
| Cli.CharsOfMembership | borg-helper.py:225-226 | a character is among a string's characters iff it occurs in it |
| Cli.OptionCharsSnoc | borg-helper.py:224-225 | one more option token adds its dash-stripped characters |
| Cli.OptionCharsMembership | borg-helper.py:224-225 | a letter is an option iff some leading option token holds it once its dashes are stripped |
| Cli.AddOptionLetters | borg-helper.py:225-226 | the inner loop adds exactly the characters of the dash-stripped token |
| Cli.ParseArguments | borg-helper.py:218-233 | the arguments are the tokens from the first non-option token on, verbatim; the options are the letters of the leading option tokens |
| Cli.ParseOptionsThenArguments | borg-helper.py:222-231 | option tokens placed before a list that starts with a non-option token leave that list intact as the arguments |
| Cli.ParseExamples | borg-helper.py:222-231 | `-di repo list` gives options `d`, `i`; a late `-d` is passed on; a lone `-` is an argument |
| Cli.CleanPaths | borg-helper.py:257 | every kept path is non-empty and has no surrounding whitespace |
| Cli.CleanPathsWithout | borg-helper.py:257 | a character none of the parts holds is in no kept path |
| Cli.CleanPathsSingle | borg-helper.py:257 | one part is kept, stripped, when its strip is non-empty, and dropped otherwise |
| Cli.CleanPathsAppend | borg-helper.py:257 | cleaning is done part by part: the paths of two runs of parts are the first run's followed by the second's |
| Cli.CleanPathsDropsBlank | borg-helper.py:257 | of three parts with a blank middle one, the outer two are kept, stripped, in order |
| Cli.ConfigPathsExample | borg-helper.py:257 | `" a : :b"` gives the paths `a` and `b` |
| Cli.CleanPathsKeepsClean | borg-helper.py:257 | parts already clean are all kept, in order |
| Cli.ConfigPathsFromEnvironment | borg-helper.py:257 | every extra path is non-empty, free of `:` and of surrounding whitespace |
| Cli.NoExtraConfigPaths | borg-helper.py:257 | an unset or empty `BORG_HELPER_CONFIGS` gives no extra paths |
| Cli.ConfigPathsRoundTrip | borg-helper.py:257 | clean paths joined with `:` are read back exactly |

## Left out

- Running `borg`: `subprocess.run` with `shell=True`, the shell's interpretation of the joined
  line, and `os.environ` are modelled as a `World` value. The exit code, prompt answer and
  parsed output of every call are inputs.
- Reading files, JSON decoding and `Path.expanduser`: a config set is a map from path
  (unexpanded) to parsed document. A malformed file raises an uncaught JSON error in the
  source and is not modelled. Config values of other JSON types, and profile keys other than
  `repository`, `passphrase`, `ssh_key` and `aliases`, are not modelled.
- Helper.BorgHelper.constructor: `Path(__file__).parent` is a `scriptDir` parameter.
- `borg` output parsing: `splitlines()`, `json.loads` of the archive list and of each diff
  line, and `.get` defaults on missing keys. The model takes archive lines, the last two
  archive names and `(path, changes)` records directly.
- The argument parser of `list-removed-items` (`argparse`, usage and help text): it is a
  `parse` parameter applied to the arguments after the command name. `argparse`'s own exit
  on `-h` or an unknown argument, which happens before the first dispatch, is not modelled.
- All printing: the echoed command line, colour codes, report lines written to the terminal
  (modelled as the `report` sequence) and logging.
- The interactive prompt is an answer string in the `World`. End of input on `input()` is not
  modelled.
- `main()` (usage text, `-h`/`-d`/`-i` handling, logging set-up, the `list` command's
  repository listing and the `ConfigError` catch) is not part of this model, apart from the
  `BORG_HELPER_CONFIGS` split. `get_repositories` is only used there and is left out with it.
