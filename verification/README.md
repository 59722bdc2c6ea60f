# taskmaster supervisor — a Dafny model

taskmaster is a job-control daemon. It reads a YAML configuration describing
programs, keeps them in a map from name to `Process` record, starts them on
request, watches them exit, decides from the exit status and the configured
policy whether to start them again, and reloads the configuration on demand.

This project models the decision rules and data-structure updates at the core
of that daemon:

- `Supervision` (src/Supervisor.cpp):
  - the restart loop `_start` and the exit verdict `_monitor`;
  - the per-entry reconciliation of `loadConfig`, with its helpers
    `GetYAMLNode`, `GetUniqueName` and `AddMultipleProcessesToList`;
  - `killAllProcesses` and the alive check of `startProcess`.
- `Processes` (src/Process.cpp): the `Process` record as a class, with its
  default and copy constructors, setters, `appendCommandArgument`, `stop` and
  the `operator<<` status line.
- `Utils` (src/Utils.cpp, src/Utils.hpp): `SplitString`,
  `ContainerToConstChar` (an argv builder) and `JoinStrings`.
- `StringUtils` (src/StringUtils.cpp, src/StringUtils.hpp): the older
  `SplitString`, which drops the trailing remainder, and the argv-building
  `JoinStrings`.
- `StringSearch` and `Decimal`: the parts of `std::string` (`find`, `substr`,
  `erase`) and of `std::to_string` that the core relies on.
- `Wrappers`: the `Option` type.

State that the source changes in place is modelled imperatively:
- `Process` and `Supervisor` are classes.
- Their methods carry `modifies` clauses.
- Each method states its new state through a pure function: the
  `Snapshot` of a record, or the key set `KeysAfter` of the process map.
- The loops of the source (`_start`, `loadConfig`,
  `AddMultipleProcessesToList`, `killAllProcesses`, both `SplitString`s,
  `JoinStrings`, the argv builders) are `while` loops with invariants.

Interactions with the operating system become inputs:
- A `Cycle` bundles one launch outcome (pid and exec time, or `strerror`),
  one `waitpid` status and the clock reading taken after the wait.
- `_start` is run against a finite sequence of such cycles.
- YAML entries arrive already parsed, as `ConfigEntry` values whose fields
  are `Option`s: `None` means the node is absent.
- A configuration file that fails to load is `BadFile`.
- Times are whole seconds.

Where the source code and its written description differ, the model follows
the code:
- `number_of_restarts` bounds the number of start/monitor cycles, not the
  number of restarts after the first start.
- On reload, `stop` and `_start` run on the freshly built record. The record
  it replaces is never stopped.
- `stop` does nothing and returns 0.

## Model

| member | source | states |
|---|---|---|
| Decimal.NatToString | src/Supervisor.cpp:77-80 | the decimal text of a natural number (as `std::to_string` writes it, used to name replicas) is non-empty, all digits, and one character long exactly below 10 |
| Decimal.IntToString | src/Supervisor.cpp:77-80 | the text of an integer is non-empty and starts with `-` exactly when the number is negative |
| Decimal.NatToStringRoundTrip | src/Supervisor.cpp:77-80 | reading the digits back gives the number: decimal text is an encoding |
| Decimal.NatToStringInjective | src/Supervisor.cpp:77-80 | different naturals have different texts |
| Decimal.IntToStringInjective | src/Supervisor.cpp:77-80 | different integers have different texts, so replica numbers give distinct names |
| StringSearch.FindIsLeftmost | src/Utils.cpp:26 | `find` answers the leftmost occurrence of the separator, and none when the separator does not occur |
| StringSearch.EmptySeparatorMakesNoProgress | src/Utils.cpp:26-30 | with an empty separator `find` answers 0 and erasing `0 + 0` characters leaves the source as it was, so the splitting loops never end; both variants therefore require a non-empty separator |
| StringSearch.CutFirstPiece | src/Utils.cpp:28-29 | one iteration (push `substr(0, pos)`, `erase(0, pos + len)`) emits the first piece of the split and strictly shortens the source |
| StringSearch.TokensReassemble | src/Utils.cpp:26-34 | the pieces emitted by the loop, each followed by the separator, plus what is left over, rebuild the source |
| StringSearch.TokensAvoidSeparator | src/Utils.cpp:26-30 | no piece emitted by the loop contains the separator |
| StringSearch.RemainderAvoidsSeparator | src/Utils.cpp:26-31 | the loop stops only when the separator no longer occurs in what is left |
| StringSearch.TokensCount | src/StringUtils.cpp:10-14 | the loop emits one piece per leftmost non-overlapping occurrence of the separator |
| StringSearch.LeadingSeparator | src/Utils.cpp:28-30 | a separator at the front yields an empty first piece |
| Utils.SplitString | src/Utils.cpp:19-36 | the loop over `find`/`substr`/`erase` computes `Split`: the pieces before each separator, then the remainder when it is non-empty |
| Utils.SplitEdgeCases | src/Utils.cpp:26-35 | the empty source gives no pieces; a non-empty source without the separator gives `[source]` |
| Utils.SplitAvoidsSeparator | src/Utils.cpp:24-34 | no piece contains the separator |
| Utils.SplitCount | src/Utils.cpp:26-34 | the number of pieces is the number of occurrences, plus one when the remainder is non-empty |
| Utils.SplitLeadingSeparator | src/Utils.cpp:28-33 | a leading separator gives a leading empty piece |
| Utils.SplitKeepsEmptyPieces | src/Utils.cpp:28-33 | consecutive separators give empty pieces that are kept |
| Utils.SplitJoinRoundTrip | src/Utils.cpp:28-34 | joining the pieces with the separator rebuilds the source, except that exactly one trailing separator is lost when the remainder is empty |
| Utils.Argv | src/Utils.hpp:27-35 | the argv vector has two more entries than `source`: the name, the arguments in order, then NULL |
| Utils.ContainerToConstChar | src/Utils.hpp:22-36 | the iterator loop builds exactly `Argv(name, source)` |
| Utils.JoinSnoc | src/Utils.hpp:45-52 | appending one more element adds the separator and that element at the end |
| Utils.JoinStrings | src/Utils.hpp:39-54 | for a non-empty source (the first element is read unconditionally) the loop builds `s0 + sep + s1 + … + s(n-1)` |
| Utils.JoinLength | src/Utils.hpp:44-53 | the joined length is the sum of the lengths plus `(n - 1)` separators |
| Utils.JoinSingle | src/Utils.hpp:45-52 | joining one element gives that element |
| StringUtils.SplitString | src/StringUtils.cpp:3-16 | the older loop returns only the pieces before each separator occurrence and never the remainder |
| StringUtils.PiecesFormPrefix | src/StringUtils.cpp:10-15 | each piece followed by the separator, concatenated, is a prefix of the source; what follows is the dropped remainder, which holds no separator; a source without the separator gives no pieces |
| StringUtils.JoinStrings | src/StringUtils.hpp:6-23 | the result is the same argv vector as `Utils.ContainerToConstChar` builds, whatever separator and terminator are passed |
| Processes.AfterLaunch | src/Supervisor.cpp:288-295 | the launch `_start` relies on (pid, exec time and `strerror` read back at lines 293 and 330): a launch attempt marks the record alive exactly when it succeeds, and changes no field other than alive, pid, exec time and `strerror` |
| Processes.IsExpectedReturnValue | src/Supervisor.cpp:355 | whether a return value is in the expected list, checked element by element |
| Processes.IsExpectedReturnValueMeansMember | src/Supervisor.cpp:355 | a return value is expected exactly when it is in the expected-return list |
| Processes.Process.constructor | src/Process.cpp:12-26 | a new record is not alive, has standard streams, has empty name, path, working directory, environment and redirect path, no arguments, and zero expected return, restarts and start time |
| Processes.Process.Init | src/Process.cpp:28-55 | the full constructor stores each of its arguments in its field and gives the other fields their defaults |
| Processes.Process.Copy | src/Supervisor.cpp:110 | the copy constructor gives a fresh record with every field equal to the original's |
| Processes.Process.Start | src/Supervisor.cpp:288-295 | starting a process changes the record as `AfterLaunch` describes for the given outcome |
| Processes.Process.Stop | src/Process.cpp:106-113 | `stop` returns 0 and changes no field, alive or not |
| Processes.Process.AppendCommandArgument | src/Process.cpp:255-258 | the argument is added at the end of the argument list, and nothing else changes |
| Processes.Process.SetIsAlive | src/Process.cpp:135-138 | the alive flag then reads the value set, and no other field changes |
| Processes.Process.SetRestartOnError | src/Process.cpp:145-148 | the field then reads the value set, and no other field changes |
| Processes.Process.SetExecOnStartup | src/Process.cpp:155-158 | the field then reads the value set, and no other field changes |
| Processes.Process.SetHasStandardStreams | src/Process.cpp:165-168 | the field then reads the value set, and no other field changes |
| Processes.Process.SetExpectedReturn | src/Process.cpp:175-178 | the field then reads the value set, and no other field changes |
| Processes.Process.SetNumberOfRestarts | src/Process.cpp:185-188 | the field then reads the value set, and no other field changes |
| Processes.Process.SetStartTime | src/Process.cpp:195-198 | the field then reads the value set, and no other field changes |
| Processes.Process.SetFullPath | src/Process.cpp:205-208 | the field then reads the value set, and no other field changes |
| Processes.Process.SetProcessName | src/Process.cpp:215-218 | the field then reads the value set, and no other field changes |
| Processes.Process.SetWorkingDir | src/Process.cpp:225-228 | the field then reads the value set, and no other field changes |
| Processes.Process.SetAdditionalEnv | src/Process.cpp:235-238 | the field then reads the value set, and no other field changes |
| Processes.Process.SetOutputRedirectPath | src/Process.cpp:245-248 | the field then reads the value set, and no other field changes |
| Processes.Process.SetReturnValue | src/Supervisor.cpp:334 | the return value then reads the value set, and no other field changes |
| Processes.Process.SetExpectedReturns | src/Supervisor.cpp:568-580 | the expected list then reads the list set, no other field changes, and the answer is whether the list differs from the previous one |
| Processes.Process.SetShouldRestart | src/Supervisor.cpp:597 | the policy then reads the value set, and no other field changes |
| Processes.Process.SetKillSignal | src/Supervisor.cpp:599 | the kill signal then reads the value set, and no other field changes |
| Processes.Process.SetUmask | src/Supervisor.cpp:600 | the umask then reads the value set, and no other field changes |
| Processes.Process.SetForceQuitWaitTime | src/Supervisor.cpp:601 | the wait time then reads the value set, and no other field changes |
| Processes.Process.SetRedirectStreams | src/Supervisor.cpp:593 | the flag then reads the value set, and no other field changes |
| Processes.Describe | src/Process.cpp:115-128 | the status line is `Process:{ name: N, isAlive: 1/0, full_path: P, start_command: [A] }` and a newline, where A is the arguments joined by `", "` and is empty when there are none |
| Supervision.MonitorVerdict | src/Supervisor.cpp:325-378 | the verdict is 0 or 1, and 1 exactly when the process returned before `exec_time + start_time` (with `start_time` set) or the observed return value is not expected |
| Supervision.SignalRechecksPreviousValue | src/Supervisor.cpp:333-342 | after a signal the return value is not updated, so the verdict checks the previous value instead of a fresh exit code |
| Supervision.WaitFailureReadsAsExitZero | src/Supervisor.cpp:327-335 | a failed `waitpid` leaves the status word 0, which reads as a normal exit with code 0 |
| Supervision.PrematureExitIsError | src/Supervisor.cpp:346-353 | returning before `exec_time + start_time` is an error whatever the exit status |
| Supervision.VerdictWithoutStartTime | src/Supervisor.cpp:346-362 | without a start time, a normal exit succeeds exactly when its code is expected |
| Supervision.ObservedReturn | src/Supervisor.cpp:330-342 | the return value `_monitor` checks: the exit code after a normal exit, 0 after a failed wait, the previous value after a signal |
| Supervision.AfterWait | src/Supervisor.cpp:331-335 | the record after the wait: not alive, with the observed return value |
| Supervision.ReturnedTooEarly | src/Supervisor.cpp:346-347 | a start time is set and the clock is still before `exec_time + start_time` |
| Supervision.Verdicts | src/Supervisor.cpp:289-299 | the environment run gives one monitor verdict per cycle |
| Supervision.Ceiling | src/Supervisor.cpp:280-282 | the loop bound: `number_of_restarts`, except 1 for policy Never |
| Supervision.CyclesRun | src/Supervisor.cpp:278-322 | the number of cycles `_start` runs from counter 0 under the ceiling; its values are stated by the policy lemmas below |
| Supervision.CyclesFrom | src/Supervisor.cpp:285-321 | the number of further cycles `_start` runs from counter `i` never exceeds the cycles the environment offers |
| Supervision.NeverRunsOneCycle | src/Supervisor.cpp:280-282 | with policy Never the ceiling is forced to 1 and exactly one start/monitor cycle runs |
| Supervision.InvalidPolicyAtMostOne | src/Supervisor.cpp:314-319 | an unrecognised policy runs at most one cycle, and one exactly when its ceiling is positive |
| Supervision.NonPositiveCeilingRunsNothing | src/Supervisor.cpp:280-285 | a policy other than Never with `number_of_restarts <= 0` runs no cycle |
| Supervision.AlwaysRunsEveryCycle | src/Supervisor.cpp:304-305 | Always never advances the counter, so once entered it keeps going as long as the environment provides cycles |
| Supervision.UnexpectedExitStopsAtFirstSuccess | src/Supervisor.cpp:306-313 | UnexpectedExit runs at most `number_of_restarts` cycles, every cycle but the last one failed, and it ends early only at the first cycle whose verdict is 0 |
| Supervision.GetYAMLNode | src/Supervisor.cpp:38-60 | a present node gives its value, sets the valid flag, and sets the changed flag only if the value differs from the initial value; an absent node gives the default and leaves both flags alone; neither flag is ever cleared |
| Supervision.ReadNode | src/Supervisor.cpp:65-75 | the short form gives the node's value or the zero of its type and only raises the valid flag |
| Supervision.GetUniqueName | src/Supervisor.cpp:77-80 | a replica name: the base name, `_`, and the decimal number; its properties are the lemmas below |
| Supervision.UniqueNameRoundTrip | src/Supervisor.cpp:77-80 | a replica name is the base name, `_` and the decimal number, and the number can be read back from it |
| Supervision.UniqueNamesDistinct | src/Supervisor.cpp:77-80 | replica names differ from the base name and from each other |
| Supervision.UniqueNamesCount | src/Supervisor.cpp:77-80 | `name_1`..`name_n` are n names, none of them the base name |
| Supervision.UniqueNamesOnly | src/Supervisor.cpp:105-113 | every replica name comes from a number in `1..n` |
| Supervision.ReplicaMapKeys | src/Supervisor.cpp:105-113 | the replica entries have exactly the keys `name_1`..`name_n` |
| Supervision.ReplicaMapAt | src/Supervisor.cpp:105-113 | key `name_i` holds the i-th clone |
| Supervision.MergedReplicas | src/Supervisor.cpp:101-115 | after expansion the map holds the base name bound to the original, each `name_i` bound to its clone, and every other key unchanged |
| Supervision.AddReplica | src/Supervisor.cpp:109-112 | one iteration binds `name_i` to a fresh copy of the record renamed to `name_i` |
| Supervision.AddMultipleProcessesToList | src/Supervisor.cpp:101-115 | the map afterwards is the old map with the base name bound to the record and `name_1`..`name_n` bound to fresh copies that equal the record except for their names |
| Supervision.ReadExpectedReturns | src/Supervisor.cpp:568-584 | a scalar gives a one-element list, a sequence gives its items, and any other node keeps the list of the record compared against |
| Supervision.Replicas | src/Supervisor.cpp:616-626 | replicas are made exactly when `number_of_processes` is present and greater than 1 |
| Supervision.PlanEntry | src/Supervisor.cpp:529-626 | the per-entry decision with the validity and change flags threaded through the reads as the source threads them; `SkipIff` and `PlanRegisters` state what it decides |
| Supervision.SkipIff | src/Supervisor.cpp:529-591 | an entry is skipped exactly when its name is missing, its name is listed and `override_existing` is false, or `expected_return` is missing; the checks of the valid flag at lines 551, 558 and 585 never fire |
| Supervision.PlanRegisters | src/Supervisor.cpp:529-632 | an entry that is not skipped registers the configured record, with the restart flag and replica count the rules give |
| Supervision.OnlyRestartFieldsCompared | src/Supervisor.cpp:544-591 | only `full_path`, `number_of_restarts` and the expected returns of the record compared against matter to the outcome |
| Supervision.PlainOptionsNeverRestart | src/Supervisor.cpp:593-601 | changes to `working_directory`, `kill_signal`, `umask` or `force_quit_wait_time` never set the restart flag |
| Supervision.RegisteredDefaults | src/Supervisor.cpp:529-607 | absent nodes give the defaults: restarts 0, empty strings, SIGTERM as the kill signal, umask -1, no wait time, and an empty working directory (the compared record's directory is only the initial value of a change flag that is never read) |
| Supervision.NewEntryWithPathRestarts | src/Supervisor.cpp:544-555 | on reload, a new name is compared with a default record, so a non-empty `full_path` sets the restart flag |
| Supervision.NewScalarEntryRestarts | src/Supervisor.cpp:544-591 | on reload, a new name with a scalar `expected_return` always restarts: it is compared with the new record, whose expected list is still empty |
| Supervision.UnchangedEntryKeepsRunning | src/Supervisor.cpp:550-591 | on reload, an entry that repeats the restart-relevant fields of its listed record does not restart it |
| Supervision.KeysAfterEntry | src/Supervisor.cpp:529-626 | the keys after one entry keep the old ones and add only the entry's name and replica names |
| Supervision.KeysAfter | src/Supervisor.cpp:523-632 | the keys after all entries, one after the other |
| Supervision.KeysAfterKeeps | src/Supervisor.cpp:523-632 | reconciliation never removes a key |
| Supervision.CompleteEntryListed | src/Supervisor.cpp:529-626 | every entry with a name and an expected return is listed afterwards |
| Supervision.KeysAfterOnly | src/Supervisor.cpp:616-626 | every key afterwards was there before, or is the name or a replica name of a registered entry |
| Supervision.ListedMapStaysValid | src/Supervisor.cpp:634 | a non-empty map stays non-empty, so a valid configuration stays valid after a reload |
| Supervision.Subscript | src/Supervisor.cpp:227 | the REPL's `mProcessMap[name]` adds a null entry for an unknown name and keeps all others |
| Supervision.OldProcessAsWritten | src/Supervisor.cpp:544-546 | as written, the record compared against is null only when the name is listed with a null entry |
| Supervision.PlaceholderReachesReload | src/Supervisor.cpp:544-550 | after `status web` for an unknown `web`, a reload whose configuration adds `web` gets a null record to compare against |
| Supervision.ComparedProcess | src/Supervisor.cpp:544-546 | the corrected choice is never null: it is the listed record, or the new one when the name is absent or bound to null |
| Supervision.ComparedProcessAgrees | src/Supervisor.cpp:544-546 | without null entries the corrected choice is the one the source makes |
| Supervision.ReplayKeepsSettings | src/Supervisor.cpp:285-321 | start/monitor cycles never change the policy, ceiling, expected list or name |
| Supervision.VerdictsPrefix | src/Supervisor.cpp:286-299 | the verdicts of the first cycles do not depend on later cycles: each monitor call sees only what happened so far |
| Supervision.ReadFullPath | src/Supervisor.cpp:550-555 | the validity flag afterwards is the one before or the presence of `full_path`; `full_path` is stored (empty when absent) and the restart flag is set exactly when overriding and the path differs from the compared record's |
| Supervision.ReadNumberOfRestarts | src/Supervisor.cpp:557-562 | the validity flag afterwards is the one before or the presence of the node; `number_of_restarts` is stored (0 when absent, 1 when the flag stays clear) and the flag is raised exactly when overriding and the value differs |
| Supervision.ApplyExpectedReturn | src/Supervisor.cpp:568-588 | the expected list is stored as `ReadExpectedReturns` gives it; the entry goes on only when the validity flag is set, and then the restart flag is raised exactly when overriding and the list changed |
| Supervision.ApplyPlainOptions | src/Supervisor.cpp:592-601 | the nine unchecked options are stored with their defaults |
| Supervision.ApplyFlagOptions | src/Supervisor.cpp:592-597 | `start_time`, `redirect_streams`, `output_redirect_path`, `exec_on_startup` and `should_restart` are stored, zero when absent |
| Supervision.AppendStartCommand | src/Supervisor.cpp:604-607 | the `start_command` items are appended in order |
| Supervision.ConfigureRecord | src/Supervisor.cpp:548-607 | given the validity flag the name read left, reading an entry into a fresh record proceeds exactly when the flag is set or `full_path` is present, and `expected_return` is present; since the name read sets the flag, the checks at lines 551, 558 and 585 never skip an entry; it then leaves the record in the configured state with the restart flag the rules give |
| Supervision.Supervisor.constructor | src/Supervisor.cpp:123-137 | the supervisor starts from an empty map and loads its configuration without overriding |
| Supervision.Supervisor.StartProcess | src/Supervisor.cpp:251-260 | `startProcess` returns 0 and launches only a process that is not alive |
| Supervision.Supervisor.Monitor | src/Supervisor.cpp:325-378 | `_monitor` marks the process not alive, records the exit code only on a normal exit, and returns `MonitorVerdict` |
| Supervision.Supervisor.RunCycle | src/Supervisor.cpp:289-299 | one start followed by one monitor, with the verdict of the monitor |
| Supervision.Supervisor.Start | src/Supervisor.cpp:278-322 | `_start` runs exactly `CyclesRun` cycles for the policy and ceiling, and leaves the process as those cycles left it |
| Supervision.Supervisor.RegisterRecord | src/Supervisor.cpp:616-626 | the record is bound under its name, with its replicas when `number_of_processes` is greater than 1 |
| Supervision.Supervisor.Enlist | src/Supervisor.cpp:616-632 | the record and its replicas are listed, and then it is stopped and started when the restart flag is set |
| Supervision.Supervisor.LoadEntry | src/Supervisor.cpp:523-632 | one configuration entry, compared with the record `ComparedProcess` picks (the corrected choice of the finding below, which differs from the source only when the name is bound to null): a skipped entry leaves the map alone; a registered one is bound to a fresh record in the configured state (then started when it must restart) with its replicas; the keys become `KeysAfterEntry` |
| Supervision.Supervisor.LoadConfig | src/Supervisor.cpp:504-636 | with the corrected comparison of `LoadEntry`: a bad file or a missing process list returns 1, makes the configuration invalid and leaves the map alone; otherwise the keys become `KeysAfter` over all entries, the result is 0, and the configuration is valid exactly when the map is non-empty |
| Supervision.AliveKeys | src/Supervisor.cpp:646 | the keys bound to a non-null record that is alive |
| Supervision.Supervisor.KillAllProcesses | src/Supervisor.cpp:641-654 | exactly the non-null, alive entries are killed, and their number is returned |

## Left out

- Process start-up itself (pipe, fork, `execv`, `waitpid` in src/Process.cpp and `_monitor`): OS process control. Its outcome is an input, a `LaunchOutcome` and a `WaitStatus`.
- `Process::kill` and the kill/sleep escalation of `stopProcess`: OS signals; `KillAllProcesses` returns the names it would kill instead of sending signals.
- `restartProcess` and `stopProcess`: they compose `startProcess` with OS signals and sleeps.
- The thread spawned and detached by `startProcess`: concurrency. Only the "already alive, do nothing" check is kept.
- The REPL, `history`, `printHelp`, `getProcessStatus` and `listProcesses`: readline and console output. Only the effect of the REPL's `mProcessMap[name]` on the map is kept (`Subscript`).
- The SIGHUP handler wiring: it runs in async-signal context.
- `YAML::LoadFile` and node typing: a foreign library. Entries come already parsed.
- `SetProcessEnvironment` and `additional_env`: they walk a raw `char**` environment through `addAdditionalEnvValue`, which is not part of this model.
- Logging and `PrintError`/`PrintSuccess`: output only. This includes the `_monitor` error line, which reads `.front()` of a possibly empty expected list.
- Floating-point `start_time` and `force_quit_wait_time`, and `std::time`: times are whole seconds, and the clock reading is part of each `Cycle`.
- Supervision.Supervisor.Start: `_start` under Always loops without bound. The model runs it over a finite environment run, so it stops when the cycles run out. `AlwaysRunsEveryCycle` states that it consumes all of them.
- Supervision.Supervisor.LoadConfig: its contract states the key set and validity, not the value bound to each key. The values are stated entry by entry in `LoadEntry`.
- `Process::start` as written in src/Process.cpp (lines 59-104) is not what is modelled: it blocks in `waitpid`, clears alive after a normal exit, returns 1 on a pipe or fork failure with alive unchanged, and has no pid, exec time or `strerror`. The model follows the non-blocking launch that `_start` and `_monitor` assume (src/Supervisor.cpp:288-295, 330), from a later revision.
- The defaults of `DefaultState`: the fields only the later revision has (`expectedReturns`, `returnValue`, `shouldRestart`, `pid`, `execTime`, `strerror`, `killSignal`, `umask`, `forceQuitWaitTime`, `redirectStreams`) start as 0, empty or false. The constructor shown initializes none of them. A vector member starts empty, but an `int` member without an initializer is indeterminate in C++. Two results rest on these defaults: `SignalRechecksPreviousValue` on a first cycle reads this `returnValue`, and `NewScalarEntryRestarts` rests on the empty expected list.
- The policy constants `Never`, `UnexpectedExit` and `Always`: the numbering 0, 1, 2 of the `ShouldRestart` policies is assumed; the enum is not part of this model's sources, and only the test `!= 0` at src/Supervisor.cpp:280 fixes Never as 0.
- Processes.IsExpectedReturnValue and Processes.Process.SetExpectedReturns: `isExpectedReturnValue` and `setExpectedReturns` are not declared in the sources of this model. Their meanings (membership in the list; "the list changed") are assumed from how src/Supervisor.cpp uses them at lines 355 and 573-580.
- Supervision.AddMultipleProcessesToList: integers are unbounded. The loop `for (int i = 1; i <= n_processes; ++i)` at src/Supervisor.cpp:108 overflows when `number_of_processes` is the largest `int`, and the model does not capture that.
- src/Process.hpp and src/Supervisor.hpp: declarations only, from an older revision than the .cpp files.
- src/main.cpp: a wrapper that calls a nonexistent `start()`.

## Findings

| source | as written | input that shows it | evidently intended | confidence | as-written member | corrected member |
|---|---|---|---|---|---|---|
| src/Supervisor.cpp:544-550 | `old_process` is the map's entry whenever the name is a key, and the REPL's `mProcessMap[name]` (line 227) inserts null entries for unknown names; line 550 then calls `old_process->getFullPath()` on null | the REPL command `status web` when no `web` is listed, then a reload whose configuration lists `web` | a name bound to null is treated as not listed, so the new record is compared against itself | not executed | Supervision.PlaceholderReachesReload | Supervision.ComparedProcess |
