/**
 * src/Supervisor.cpp: the decision rules of the supervisor.
 *
 *  - the exit verdict of `_monitor` and the restart loop of `_start`;
 *  - the reconciliation of the process map with a configuration file in
 *    `loadConfig`, with its helpers `GetYAMLNode`, `GetUniqueName` and
 *    `AddMultipleProcessesToList`;
 *  - `killAllProcesses` and the alive check of `startProcess`.
 *
 * Operating-system events (the outcome of a launch, the status `waitpid`
 * reports, the clock) are inputs. The YAML document arrives already parsed:
 * each field of an entry is an `Option`.
 */
module Supervision {
  import opened Wrappers
  import Decimal
  import opened Processes

  // --- The exit verdict (`_monitor`) ---

  type ExitCode = c: int | 0 <= c < 256

  /**
   * What `waitpid` leaves in the status word. A failed `waitpid` leaves it
   * at its initial 0, which the status macros read as a normal exit with
   * code 0.
   */
  datatype WaitStatus = Exited(code: ExitCode) | Signaled(signal: int) | WaitFailed

  /** The return value the record holds after the wait: only a normal exit updates it. */
  function ObservedReturn(previous: int, status: WaitStatus): int {
    match status
    case Exited(code) => code
    case Signaled(_) => previous
    case WaitFailed => 0
  }

  /** The record after the wait: marked not alive, return value as observed. */
  function AfterWait(s: ProcessState, status: WaitStatus): ProcessState {
    s.(isAlive := false, returnValue := ObservedReturn(s.returnValue, status))
  }

  /** A configured start time that had not yet elapsed when the process ended. */
  predicate ReturnedTooEarly(s: ProcessState, now: int) {
    s.startTime != 0 && now < s.execTime + s.startTime
  }

  /**
   * The 0/1 error verdict of `_monitor` for a process in state `s` whose wait
   * ends with `status` at time `now`.
   */
  function MonitorVerdict(s: ProcessState, status: WaitStatus, now: int): (r: int)
    ensures r == 0 || r == 1
    ensures r == 1 <==> ReturnedTooEarly(s, now) || ObservedReturn(s.returnValue, status) !in s.expectedReturns
  {
    var after := AfterWait(s, status);
    IsExpectedReturnValueMeansMember(after.returnValue, after.expectedReturns);
    if ReturnedTooEarly(after, now) || !IsExpectedReturnValue(after.returnValue, after.expectedReturns) then 1 else 0
  }

  /** After a kill by signal, the verdict checks the return value of the previous run. */
  lemma SignalRechecksPreviousValue(s: ProcessState, signal: int, now: int)
    requires !ReturnedTooEarly(s, now)
    ensures MonitorVerdict(s, Signaled(signal), now) == MonitorVerdict(s, Exited(0), now) <==> (s.returnValue in s.expectedReturns <==> 0 in s.expectedReturns)
  {
  }

  /** A failed wait is indistinguishable from a clean exit with code 0. */
  lemma WaitFailureReadsAsExitZero(s: ProcessState, now: int)
    ensures MonitorVerdict(s, WaitFailed, now) == MonitorVerdict(s, Exited(0), now)
    ensures AfterWait(s, WaitFailed) == AfterWait(s, Exited(0))
  {
  }

  /** A process that ended before its start time is always an error, whatever it returned. */
  lemma PrematureExitIsError(s: ProcessState, status: WaitStatus, now: int)
    requires s.startTime != 0 && now < s.execTime + s.startTime
    ensures MonitorVerdict(s, status, now) == 1
  {
  }

  /** Without a start time, the verdict depends only on whether the code is expected. */
  lemma VerdictWithoutStartTime(s: ProcessState, code: ExitCode, now: int)
    requires s.startTime == 0
    ensures MonitorVerdict(s, Exited(code), now) == 0 <==> code in s.expectedReturns
  {
  }

  // --- The restart loop (`_start`) ---

  /** The `should_restart` policies; any other value is invalid. */
  const Never := 0
  const UnexpectedExit := 1
  const Always := 2

  /** One launch-and-wait cycle as the operating system plays it out. */
  datatype Cycle = Cycle(launch: LaunchOutcome, status: WaitStatus, now: int)

  /** The record after one cycle: launched, then waited for. */
  function Step(s: ProcessState, c: Cycle): ProcessState {
    AfterWait(AfterLaunch(s, c.launch), c.status)
  }

  /** The record after the cycles of `run`, in order. */
  function Replay(s: ProcessState, run: seq<Cycle>): ProcessState
    decreases |run|
  {
    if |run| == 0 then s else Step(Replay(s, run[..|run| - 1]), run[|run| - 1])
  }

  /** The verdict `_monitor` gives at each cycle of `run`, started from `s`. */
  function Verdicts(s: ProcessState, run: seq<Cycle>): (v: seq<int>)
    ensures |v| == |run|
  {
    seq(|run|, k requires 0 <= k < |run| =>
      MonitorVerdict(AfterLaunch(Replay(s, run[..k]), run[k].launch), run[k].status, run[k].now))
  }

  /** The loop bound: the number of restarts, except that policy Never forces one cycle. */
  function Ceiling(policy: int, numberOfRestarts: int): int {
    if policy != Never then numberOfRestarts else 1
  }

  /**
   * How many cycles the loop runs from counter `i` when the monitor yields
   * `verdicts` in turn. The environment supplies finitely many cycles, so
   * the count also stops when `verdicts` runs out.
   */
  function CyclesFrom(policy: int, ceiling: int, i: int, verdicts: seq<int>): (n: nat)
    ensures n <= |verdicts|
    decreases |verdicts|
  {
    if ceiling <= i || |verdicts| == 0 then 0
    else if policy == Always then 1 + CyclesFrom(policy, ceiling, i, verdicts[1..])
    else if policy == UnexpectedExit && verdicts[0] != 0 then 1 + CyclesFrom(policy, ceiling, i + 1, verdicts[1..])
    else 1
  }

  /** The number of cycles `_start` runs. */
  function CyclesRun(policy: int, numberOfRestarts: int, verdicts: seq<int>): nat {
    CyclesFrom(policy, Ceiling(policy, numberOfRestarts), 0, verdicts)
  }

  /** Policy Never runs exactly one cycle, whatever the number of restarts. */
  lemma NeverRunsOneCycle(numberOfRestarts: int, verdicts: seq<int>)
    requires |verdicts| > 0
    ensures CyclesRun(Never, numberOfRestarts, verdicts) == 1
  {
  }

  /** An invalid policy runs at most one cycle, and exactly one when the ceiling allows it. */
  lemma InvalidPolicyAtMostOne(policy: int, numberOfRestarts: int, verdicts: seq<int>)
    requires policy != Never && policy != UnexpectedExit && policy != Always
    ensures CyclesRun(policy, numberOfRestarts, verdicts) <= 1
    ensures CyclesRun(policy, numberOfRestarts, verdicts) == 1 <==> 0 < numberOfRestarts && |verdicts| > 0
  {
  }

  /** A restarting policy with no positive number of restarts runs nothing. */
  lemma NonPositiveCeilingRunsNothing(policy: int, numberOfRestarts: int, verdicts: seq<int>)
    requires policy != Never && numberOfRestarts <= 0
    ensures CyclesRun(policy, numberOfRestarts, verdicts) == 0
  {
  }

  lemma {:induction false} AlwaysFrom(ceiling: int, i: int, verdicts: seq<int>)
    requires i < ceiling
    ensures CyclesFrom(Always, ceiling, i, verdicts) == |verdicts|
    decreases |verdicts|
  {
    if |verdicts| > 0 {
      AlwaysFrom(ceiling, i, verdicts[1..]);
    }
  }

  /**
   * Policy Always never advances the counter: once entered, the loop runs
   * every cycle the environment supplies, however many that is.
   */
  lemma AlwaysRunsEveryCycle(numberOfRestarts: int, verdicts: seq<int>)
    requires 0 < numberOfRestarts
    ensures CyclesRun(Always, numberOfRestarts, verdicts) == |verdicts|
  {
    AlwaysFrom(numberOfRestarts, 0, verdicts);
  }

  lemma {:induction false} UnexpectedExitFrom(ceiling: int, i: int, verdicts: seq<int>)
    requires i <= ceiling
    ensures CyclesFrom(UnexpectedExit, ceiling, i, verdicts) <= ceiling - i
    ensures forall k :: 0 <= k < CyclesFrom(UnexpectedExit, ceiling, i, verdicts) - 1 ==> verdicts[k] != 0
    ensures var n := CyclesFrom(UnexpectedExit, ceiling, i, verdicts);
      n == 0 <==> i == ceiling || |verdicts| == 0
    ensures var n := CyclesFrom(UnexpectedExit, ceiling, i, verdicts);
      0 < n < ceiling - i && n < |verdicts| ==> verdicts[n - 1] == 0
    decreases |verdicts|
  {
    if i < ceiling && |verdicts| > 0 && verdicts[0] != 0 {
      UnexpectedExitFrom(ceiling, i + 1, verdicts[1..]);
    }
  }

  /**
   * Policy UnexpectedExit runs at most `number_of_restarts` cycles; every
   * cycle but the last ended in error, and when it stops before the ceiling
   * and before the environment runs out, the last cycle succeeded.
   */
  lemma UnexpectedExitStopsAtFirstSuccess(numberOfRestarts: int, verdicts: seq<int>)
    requires 0 <= numberOfRestarts
    ensures CyclesRun(UnexpectedExit, numberOfRestarts, verdicts) <= numberOfRestarts
    ensures forall k :: 0 <= k < CyclesRun(UnexpectedExit, numberOfRestarts, verdicts) - 1 ==> verdicts[k] != 0
    ensures var n := CyclesRun(UnexpectedExit, numberOfRestarts, verdicts);
      0 < n < numberOfRestarts && n < |verdicts| ==> verdicts[n - 1] == 0
    ensures CyclesRun(UnexpectedExit, numberOfRestarts, verdicts) == 0 <==> numberOfRestarts == 0 || |verdicts| == 0
  {
    UnexpectedExitFrom(numberOfRestarts, 0, verdicts);
  }

  // --- Reading configuration nodes (`GetYAMLNode`) ---

  /** What a node read yields: the value and the two caller-owned flags. */
  datatype NodeRead<T> = NodeRead(value: T, isNodeValid: bool, valueChanged: bool)

  /**
   * A present node yields its value, marks the read valid and marks a change
   * when the value differs from `initialValue`; a missing node yields
   * `defaultValue` and leaves the flags as they were. Neither flag is ever
   * cleared.
   */
  function GetYAMLNode<T(==)>(node: Option<T>, initialValue: T, isNodeValid: bool, valueChanged: bool, defaultValue: T): (r: NodeRead<T>)
    ensures r.value == node.GetOr(defaultValue)
    ensures r.isNodeValid <==> isNodeValid || node.Some?
    ensures r.valueChanged <==> valueChanged || (node.Some? && node.value != initialValue)
  {
    match node
    case Some(v) => NodeRead(v, true, valueChanged || v != initialValue)
    case None => NodeRead(defaultValue, isNodeValid, valueChanged)
  }

  /** The overload that discards the change flag: the value (or `zero`) and the validity flag. */
  function ReadNode<T(==)>(node: Option<T>, isNodeValid: bool, zero: T): (r: (T, bool))
    ensures r.0 == node.GetOr(zero)
    ensures r.1 <==> isNodeValid || node.Some?
  {
    var read := GetYAMLNode(node, zero, isNodeValid, false, zero);
    (read.value, read.isNodeValid)
  }

  // --- Replica names (`GetUniqueName`) ---

  /** `base + "_" + std::to_string(number)`. */
  function GetUniqueName(base: string, number: int): string {
    base + "_" + Decimal.IntToString(number)
  }

  /**
   * The name is the base name and an underscore followed by the number, which
   * can be read back: a sign for negatives, otherwise its decimal digits.
   */
  lemma UniqueNameRoundTrip(base: string, number: int)
    ensures var r := GetUniqueName(base, number);
      |r| > |base| + 1 && r[..|base| + 1] == base + "_" &&
      (r[|base| + 1] == '-' <==> number < 0) &&
      (0 <= number ==>
        (forall k :: |base| + 1 <= k < |r| ==> Decimal.IsDigit(r[k])) && Decimal.DecimalValue(r[|base| + 1..]) == number)
  {
    var r := GetUniqueName(base, number);
    assert r[..|base| + 1] == base + "_";
    assert r[|base| + 1..] == Decimal.IntToString(number);
    if 0 <= number {
      Decimal.NatToStringRoundTrip(number);
    }
  }

  /** Distinct numbers give distinct names, none equal to the base name. */
  lemma UniqueNamesDistinct(base: string, i: int, j: int)
    ensures GetUniqueName(base, i) != base
    ensures GetUniqueName(base, i) == GetUniqueName(base, j) <==> i == j
  {
    var a, b := GetUniqueName(base, i), GetUniqueName(base, j);
    assert a[|base| + 1..] == Decimal.IntToString(i);
    assert b[|base| + 1..] == Decimal.IntToString(j);
    if a == b {
      Decimal.IntToStringInjective(i, j);
    }
  }

  /** The names `base_1` .. `base_n`. */
  function UniqueNames(base: string, n: int): set<string>
    decreases n
  {
    if n <= 0 then {} else UniqueNames(base, n - 1) + {GetUniqueName(base, n)}
  }

  /** Every `base_i` with 1 <= i <= n is among the names. */
  lemma {:induction false} UniqueNamesContain(base: string, n: int, i: int)
    requires 1 <= i <= n
    ensures GetUniqueName(base, i) in UniqueNames(base, n)
    decreases n
  {
    if i < n {
      UniqueNamesContain(base, n - 1, i);
    }
  }

  /** Only names `base_i` with 1 <= i <= n are among the names. */
  lemma {:induction false} UniqueNamesOnly(base: string, n: int, name: string)
    requires name in UniqueNames(base, n)
    ensures exists i :: 1 <= i <= n && name == GetUniqueName(base, i)
    decreases n
  {
    if name != GetUniqueName(base, n) {
      UniqueNamesOnly(base, n - 1, name);
      var i :| 1 <= i <= n - 1 && name == GetUniqueName(base, i);
      assert 1 <= i <= n && name == GetUniqueName(base, i);
    }
  }

  /** A name numbered above `m` is not among the first `m`. */
  lemma {:induction false} LaterNameIsNew(base: string, n: int, m: int)
    requires m < n
    ensures GetUniqueName(base, n) !in UniqueNames(base, m)
    decreases m
  {
    if 0 < m {
      LaterNameIsNew(base, n, m - 1);
      UniqueNamesDistinct(base, n, m);
    }
  }

  /** There are exactly `n` replica names, and none is the base name. */
  lemma {:induction false} UniqueNamesCount(base: string, n: int)
    ensures base !in UniqueNames(base, n)
    ensures |UniqueNames(base, n)| == if n <= 0 then 0 else n
    decreases n
  {
    if 0 < n {
      UniqueNamesCount(base, n - 1);
      UniqueNamesDistinct(base, n, n);
      LaterNameIsNew(base, n, n - 1);
    }
  }

  /** The replicas bound under their names: `clones[j]` under `base_(j+1)`. */
  function ReplicaMap(base: string, clones: seq<Process>): (m: map<string, Process?>)
    decreases |clones|
  {
    if |clones| == 0 then map[]
    else ReplicaMap(base, clones[..|clones| - 1])[GetUniqueName(base, |clones|) := clones[|clones| - 1]]
  }

  /** The replica map binds exactly the replica names. */
  lemma {:induction false} ReplicaMapKeys(base: string, clones: seq<Process>)
    ensures ReplicaMap(base, clones).Keys == UniqueNames(base, |clones|)
    decreases |clones|
  {
    if |clones| > 0 {
      var prefix := clones[..|clones| - 1];
      ReplicaMapKeys(base, prefix);
      assert ReplicaMap(base, clones).Keys == ReplicaMap(base, prefix).Keys + {GetUniqueName(base, |clones|)};
    }
  }

  /** `base_i` is bound to the i-th clone. */
  lemma {:induction false} ReplicaMapAt(base: string, clones: seq<Process>, i: int)
    requires 1 <= i <= |clones|
    ensures GetUniqueName(base, i) in ReplicaMap(base, clones)
    ensures ReplicaMap(base, clones)[GetUniqueName(base, i)] == clones[i - 1]
    decreases |clones|
  {
    if i < |clones| {
      var prefix := clones[..|clones| - 1];
      ReplicaMapAt(base, prefix, i);
      UniqueNamesDistinct(base, i, |clones|);
      assert prefix[i - 1] == clones[i - 1];
    }
  }

  /**
   * The map once every replica is bound: the base name, the replicas under
   * their names, and every other key as it was.
   */
  lemma {:induction false} MergedReplicas(processMap: map<string, Process?>, base: string, newProcess: Process, clones: seq<Process>)
    ensures var result := processMap[base := newProcess] + ReplicaMap(base, clones);
      && result.Keys == processMap.Keys + {base} + UniqueNames(base, |clones|)
      && result[base] == newProcess
      && (forall i :: 1 <= i <= |clones| ==> GetUniqueName(base, i) in result && result[GetUniqueName(base, i)] == clones[i - 1])
      && (forall k :: k in processMap && k != base && k !in UniqueNames(base, |clones|) ==> result[k] == processMap[k])
  {
    ReplicaMapKeys(base, clones);
    UniqueNamesCount(base, |clones|);
    forall i | 1 <= i <= |clones|
      ensures GetUniqueName(base, i) in UniqueNames(base, |clones|)
      ensures GetUniqueName(base, i) in ReplicaMap(base, clones) && ReplicaMap(base, clones)[GetUniqueName(base, i)] == clones[i - 1]
    {
      UniqueNamesContain(base, |clones|, i);
      ReplicaMapAt(base, clones, i);
    }
  }

  /** Binding the next replica name extends the replica map by one clone. */
  lemma BindNextReplica(m: map<string, Process?>, base: string, clones: seq<Process>, copy: Process)
    ensures (m + ReplicaMap(base, clones))[GetUniqueName(base, |clones| + 1) := copy] == m + ReplicaMap(base, clones + [copy])
  {
    assert (clones + [copy])[..|clones|] == clones;
  }

  /**
   * One turn of the replica loop: a copy of `newProcess`, renamed `base_i`,
   * bound under that name. The clones made before are left as they were.
   */
  method AddReplica(result: map<string, Process?>, newProcess: Process, base: string, i: int, ghost clones: seq<Process>)
    returns (next: map<string, Process?>, copy: Process)
    requires forall k :: 1 <= k <= |clones| ==> clones[k - 1].Snapshot() == newProcess.Snapshot().(processName := GetUniqueName(base, k))
    ensures fresh(copy)
    ensures copy.Snapshot() == newProcess.Snapshot().(processName := GetUniqueName(base, i))
    ensures next == result[GetUniqueName(base, i) := copy]
    ensures forall k :: 1 <= k <= |clones| ==> clones[k - 1].Snapshot() == newProcess.Snapshot().(processName := GetUniqueName(base, k))
  {
    var name := GetUniqueName(base, i);
    copy := new Process.Copy(newProcess);
    copy.SetProcessName(name);
    next := result[name := copy];
  }

  /** The clones, each a renamed copy of `original`, extended by one more. */
  lemma AppendCopy(clones: seq<Process>, copy: Process, original: ProcessState, base: string)
    requires forall k :: 1 <= k <= |clones| ==> clones[k - 1].Snapshot() == original.(processName := GetUniqueName(base, k))
    requires copy.Snapshot() == original.(processName := GetUniqueName(base, |clones| + 1))
    ensures forall k :: 1 <= k <= |clones| + 1 ==> (clones + [copy])[k - 1].Snapshot() == original.(processName := GetUniqueName(base, k))
  {
    forall k | 1 <= k <= |clones| + 1
      ensures (clones + [copy])[k - 1].Snapshot() == original.(processName := GetUniqueName(base, k))
    {
      if k <= |clones| {
        assert (clones + [copy])[k - 1] == clones[k - 1];
      }
    }
  }

  /**
   * `AddMultipleProcessesToList`: the base name is bound to `newProcess` and
   * each `base_i`, for i = 1..n, to a fresh copy of it renamed `base_i`
   * (`clones[i - 1]`); `MergedReplicas` spells out the resulting keys.
   */
  method AddMultipleProcessesToList(n: int, processMap: map<string, Process?>, newProcess: Process)
    returns (result: map<string, Process?>, ghost clones: seq<Process>)
    ensures |clones| == if n < 1 then 0 else n
    ensures result == processMap[newProcess.processName := newProcess] + ReplicaMap(newProcess.processName, clones)
    ensures forall c :: c in clones ==> fresh(c)
    ensures forall k :: 1 <= k <= |clones| ==>
      clones[k - 1].Snapshot() == newProcess.Snapshot().(processName := GetUniqueName(newProcess.processName, k))
  {
    var initialName := newProcess.processName;
    ghost var original := newProcess.Snapshot();
    clones := [];
    result := processMap[initialName := newProcess];
    var i := 1;
    while i <= n
      invariant 1 <= i <= if n < 1 then 1 else n + 1
      invariant |clones| == i - 1
      invariant result == processMap[initialName := newProcess] + ReplicaMap(initialName, clones)
      invariant forall c :: c in clones ==> fresh(c)
      invariant forall k :: 1 <= k <= |clones| ==> clones[k - 1].Snapshot() == original.(processName := GetUniqueName(initialName, k))
    {
      var copy;
      result, copy := AddReplica(result, newProcess, initialName, i, clones);
      AppendCopy(clones, copy, original, initialName);
      BindNextReplica(processMap[initialName := newProcess], initialName, clones, copy);
      clones := clones + [copy];
      i := i + 1;
    }
  }

  // --- Reconciling the map with a configuration (`loadConfig`) ---

  /** The `expected_return` node: one value, a list of values, or a node of another kind. */
  datatype ExpectedReturnNode = ScalarReturn(value: int) | SequenceReturn(values: seq<int>) | OtherReturn

  /**
   * One entry of `supervisor-processes`, already parsed: each optional node
   * is `None` when absent. Times are whole seconds. A missing
   * `start_command` is an empty list.
   */
  datatype ConfigEntry = ConfigEntry(
    name: Option<string>,
    fullPath: Option<string>,
    numberOfRestarts: Option<int>,
    expectedReturn: Option<ExpectedReturnNode>,
    startTime: Option<int>,
    redirectStreams: Option<bool>,
    outputRedirectPath: Option<string>,
    execOnStartup: Option<bool>,
    shouldRestart: Option<int>,
    workingDirectory: Option<string>,
    killSignal: Option<int>,
    umask: Option<int>,
    forceQuitWaitTime: Option<int>,
    startCommand: seq<string>,
    numberOfProcesses: Option<int>)

  /** The loaded file: unreadable, or read with or without a `supervisor-processes` node. */
  datatype ConfigFile = BadFile | Loaded(processes: Option<seq<ConfigEntry>>)

  /** Why an entry is passed over. The last three are checks that the flags never let fire. */
  datatype SkipReason = MissingName | AlreadyListed | MissingExpectedReturn | InvalidFullPath | InvalidExpectedReturn

  /** What one entry does to the map: nothing, or registers a record (and replicas), restarted or not. */
  datatype EntryPlan = Skip(reason: SkipReason) | Register(state: ProcessState, restart: bool, replicas: int)

  /** The expected returns an entry yields: the node's values, or `previous` for a node of another kind. */
  function ReadExpectedReturns(node: ExpectedReturnNode, previous: seq<int>): (r: seq<int>)
    ensures node.ScalarReturn? ==> r == [node.value]
    ensures node.SequenceReturn? ==> r == node.values
    ensures node.OtherReturn? ==> r == previous
  {
    match node
    case ScalarReturn(v) => [v]
    case SequenceReturn(vs) => vs
    case OtherReturn => previous
  }

  /** The number of replicas: `number_of_processes` when present and above 1, otherwise none. */
  function Replicas(node: Option<int>): (n: int)
    ensures n == 0 || n > 1
    ensures n > 1 <==> node.Some? && node.value > 1
  {
    var (count, valid) := ReadNode(node, false, 0);
    if valid && count > 1 then count else 0
  }

  /**
   * The options read without any check: missing ones take the zero of their
   * type, except `kill_signal` (SIGTERM), `umask` (-1) and
   * `force_quit_wait_time` (0). `comparedWorkingDir` is what the change flag
   * of `working_directory` compares with; that flag is never read again.
   */
  function PlainOptions(e: ConfigEntry, comparedWorkingDir: string, s: ProcessState): ProcessState {
    s.(startTime := ReadNode(e.startTime, true, 0).0,
       redirectStreams := ReadNode(e.redirectStreams, true, false).0,
       outputRedirectPath := ReadNode(e.outputRedirectPath, true, "").0,
       execOnStartup := ReadNode(e.execOnStartup, true, false).0,
       shouldRestart := ReadNode(e.shouldRestart, true, 0).0,
       workingDir := GetYAMLNode(e.workingDirectory, comparedWorkingDir, true, false, "").value,
       killSignal := GetYAMLNode(e.killSignal, 0, true, false, SIGTERM).value,
       umask := GetYAMLNode(e.umask, 0, true, false, -1).value,
       forceQuitWaitTime := GetYAMLNode(e.forceQuitWaitTime, 0, true, false, 0).value)
  }

  /**
   * The per-entry logic of `loadConfig`, with the validity and change flags
   * threaded through the reads as the source threads them. `listed` says
   * whether the name is already a key; `compared` is the record the
   * restart-relevant options are compared with: the listed record, or the
   * new default record when there is none.
   */
  function PlanEntry(e: ConfigEntry, listed: bool, compared: ProcessState, overrideExisting: bool): EntryPlan {
    var (name, nameValid) := ReadNode(e.name, false, "");
    if !nameValid then Skip(MissingName)
    else if listed && !overrideExisting then Skip(AlreadyListed)
    else
      var path := GetYAMLNode(e.fullPath, compared.fullPath, nameValid, false, "");
      if !path.isNodeValid then Skip(InvalidFullPath)
      else
        var restartAfterPath := overrideExisting && path.valueChanged;
        var restarts := GetYAMLNode(e.numberOfRestarts, compared.numberOfRestarts, path.isNodeValid, false, 0);
        var numberOfRestarts := if !restarts.isNodeValid then 1 else restarts.value;
        var restartAfterRestarts :=
          if restarts.isNodeValid && overrideExisting && restarts.valueChanged && !restartAfterPath then true
          else restartAfterPath;
        if e.expectedReturn.None? then Skip(MissingExpectedReturn)
        else
          var values := ReadExpectedReturns(e.expectedReturn.value, compared.expectedReturns);
          var returnsChanged := !e.expectedReturn.value.OtherReturn? && values != compared.expectedReturns;
          if !restarts.isNodeValid then Skip(InvalidExpectedReturn)
          else
            var restart := if overrideExisting && returnsChanged then true else restartAfterRestarts;
            var configured := DefaultState.(processName := name, fullPath := path.value,
              numberOfRestarts := numberOfRestarts, expectedReturns := values);
            Register(PlainOptions(e, compared.workingDir, configured).(commandArguments := e.startCommand),
              restart, Replicas(e.numberOfProcesses))
  }

  /**
   * An entry is skipped exactly when its name is missing, when the name is
   * listed and the load does not override, or when `expected_return` is
   * missing; the other validity checks never fire.
   */
  lemma SkipIff(e: ConfigEntry, listed: bool, compared: ProcessState, overrideExisting: bool)
    ensures var plan := PlanEntry(e, listed, compared, overrideExisting);
      plan.Skip? <==> e.name.None? || (listed && !overrideExisting) || e.expectedReturn.None?
    ensures var plan := PlanEntry(e, listed, compared, overrideExisting);
      plan.Skip? ==> plan.reason != InvalidFullPath && plan.reason != InvalidExpectedReturn
    ensures var plan := PlanEntry(e, listed, compared, overrideExisting);
      plan.Register? ==> plan.replicas == Replicas(e.numberOfProcesses) && plan.state.processName == e.name.value
  {
  }

  /**
   * The restart decision without the flags: the load overrides, and the
   * entry's `full_path` or `number_of_restarts` is present and differs from
   * the compared record's, or the expected returns it yields differ.
   */
  predicate RestartFlag(e: ConfigEntry, compared: ProcessState, overrideExisting: bool)
    requires e.expectedReturn.Some?
  {
    overrideExisting &&
    ((e.fullPath.Some? && e.fullPath.value != compared.fullPath) ||
     (e.numberOfRestarts.Some? && e.numberOfRestarts.value != compared.numberOfRestarts) ||
     ReadExpectedReturns(e.expectedReturn.value, compared.expectedReturns) != compared.expectedReturns)
  }

  /** The record an entry with a name and an `expected_return` configures, before any restart. */
  function ConfiguredState(e: ConfigEntry, compared: ProcessState): ProcessState
    requires e.name.Some? && e.expectedReturn.Some?
  {
    var configured := DefaultState.(processName := e.name.value, fullPath := e.fullPath.GetOr(""),
      numberOfRestarts := e.numberOfRestarts.GetOr(0),
      expectedReturns := ReadExpectedReturns(e.expectedReturn.value, compared.expectedReturns));
    PlainOptions(e, compared.workingDir, configured).(commandArguments := e.startCommand)
  }

  /**
   * Threading the validity and change flags as the source does registers
   * exactly `ConfiguredState`, restarted exactly when `RestartFlag` holds.
   */
  lemma PlanRegisters(e: ConfigEntry, listed: bool, compared: ProcessState, overrideExisting: bool)
    requires e.name.Some? && e.expectedReturn.Some? && (listed ==> overrideExisting)
    ensures PlanEntry(e, listed, compared, overrideExisting) ==
      Register(ConfiguredState(e, compared), RestartFlag(e, compared, overrideExisting), Replicas(e.numberOfProcesses))
  {
  }

  /**
   * The compared record matters only through its path, number of restarts
   * and expected returns: records that agree on those give the same plan.
   */
  lemma OnlyRestartFieldsCompared(e: ConfigEntry, listed: bool, compared: ProcessState, other: ProcessState, overrideExisting: bool)
    requires other.fullPath == compared.fullPath && other.numberOfRestarts == compared.numberOfRestarts
    requires other.expectedReturns == compared.expectedReturns
    ensures PlanEntry(e, listed, other, overrideExisting) == PlanEntry(e, listed, compared, overrideExisting)
  {
  }

  /**
   * `working_directory`, `kill_signal`, `umask` and `force_quit_wait_time`
   * never decide a skip or a restart: entries that differ only there plan
   * the same outcome for the map and the same restart flag.
   */
  lemma PlainOptionsNeverRestart(e: ConfigEntry, other: ConfigEntry, listed: bool, compared: ProcessState, overrideExisting: bool)
    requires other.(workingDirectory := e.workingDirectory, killSignal := e.killSignal,
      umask := e.umask, forceQuitWaitTime := e.forceQuitWaitTime) == e
    ensures PlanEntry(e, listed, compared, overrideExisting).Register? == PlanEntry(other, listed, compared, overrideExisting).Register?
    ensures PlanEntry(e, listed, compared, overrideExisting).Register? ==>
      PlanEntry(e, listed, compared, overrideExisting).restart == PlanEntry(other, listed, compared, overrideExisting).restart
  {
  }

  /**
   * The registered record takes every present option as given, and for
   * missing ones: path "", no restarts, start time 0, policy 0, kill signal
   * SIGTERM, umask -1, force-quit wait 0; it is not alive.
   */
  lemma RegisteredDefaults(e: ConfigEntry, compared: ProcessState)
    requires e.name.Some? && e.expectedReturn.Some?
    ensures var s := ConfiguredState(e, compared);
      && !s.isAlive
      && s.processName == e.name.value
      && s.fullPath == e.fullPath.GetOr("")
      && s.numberOfRestarts == e.numberOfRestarts.GetOr(0)
      && s.startTime == e.startTime.GetOr(0)
      && s.shouldRestart == e.shouldRestart.GetOr(0)
      && s.workingDir == e.workingDirectory.GetOr("")
      && s.killSignal == e.killSignal.GetOr(SIGTERM)
      && s.umask == e.umask.GetOr(-1)
      && s.forceQuitWaitTime == e.forceQuitWaitTime.GetOr(0)
      && s.commandArguments == e.startCommand
  {
  }

  /**
   * On a reload, an entry whose name is not listed is compared with a
   * default record, so a non-empty `full_path` restarts it.
   */
  lemma NewEntryWithPathRestarts(e: ConfigEntry)
    requires e.name.Some? && e.expectedReturn.Some? && e.fullPath.Some? && e.fullPath.value != ""
    ensures PlanEntry(e, false, DefaultState.(processName := e.name.value), true).Register?
    ensures PlanEntry(e, false, DefaultState.(processName := e.name.value), true).restart
  {
  }

  /** Reloading an entry identical to the listed record restarts nothing. */
  lemma UnchangedEntryKeepsRunning(e: ConfigEntry, compared: ProcessState)
    requires e.name.Some? && e.expectedReturn.Some?
    requires e.fullPath == Some(compared.fullPath) && e.numberOfRestarts == Some(compared.numberOfRestarts)
    requires ReadExpectedReturns(e.expectedReturn.value, compared.expectedReturns) == compared.expectedReturns
    ensures PlanEntry(e, true, compared, true) == Register(PlanEntry(e, true, compared, true).state, false, Replicas(e.numberOfProcesses))
  {
  }

  /**
   * On reload a name that is not listed is compared with the new record,
   * whose expected list is still empty, so any scalar `expected_return`
   * counts as a change and the new entry is started at once.
   */
  lemma NewScalarEntryRestarts(e: ConfigEntry, v: int)
    requires e.name.Some? && e.expectedReturn == Some(ScalarReturn(v))
    ensures PlanEntry(e, false, DefaultState.(processName := e.name.value), true).Register?
    ensures PlanEntry(e, false, DefaultState.(processName := e.name.value), true).restart
  {
  }

  /** The keys after one entry: unchanged when it is skipped, else the name and its replica names added. */
  function KeysAfterEntry(keys: set<string>, e: ConfigEntry, overrideExisting: bool): (r: set<string>)
    ensures keys <= r
    ensures forall k :: k in r && k !in keys ==>
      e.name.Some? && (k == e.name.value || k in UniqueNames(e.name.value, Replicas(e.numberOfProcesses)))
  {
    if e.name.None? || (e.name.value in keys && !overrideExisting) || e.expectedReturn.None? then keys
    else keys + {e.name.value} + UniqueNames(e.name.value, Replicas(e.numberOfProcesses))
  }

  /** The keys after the entries, in order. */
  function KeysAfter(keys: set<string>, entries: seq<ConfigEntry>, overrideExisting: bool): set<string>
    decreases |entries|
  {
    if |entries| == 0 then keys
    else KeysAfterEntry(KeysAfter(keys, entries[..|entries| - 1], overrideExisting), entries[|entries| - 1], overrideExisting)
  }

  /** A load never removes a key. */
  lemma {:induction false} KeysAfterKeeps(keys: set<string>, entries: seq<ConfigEntry>, overrideExisting: bool)
    ensures keys <= KeysAfter(keys, entries, overrideExisting)
    decreases |entries|
  {
    if |entries| > 0 {
      KeysAfterKeeps(keys, entries[..|entries| - 1], overrideExisting);
    }
  }

  /** Every entry with a name and an `expected_return` ends up listed under its name. */
  lemma {:induction false} CompleteEntryListed(keys: set<string>, entries: seq<ConfigEntry>, overrideExisting: bool, i: int)
    requires 0 <= i < |entries| && entries[i].name.Some? && entries[i].expectedReturn.Some?
    ensures entries[i].name.value in KeysAfter(keys, entries, overrideExisting)
    decreases |entries|
  {
    var prefix := entries[..|entries| - 1];
    if i < |entries| - 1 {
      assert prefix[i] == entries[i];
      CompleteEntryListed(keys, prefix, overrideExisting, i);
    }
  }

  /**
   * A key is listed after a load only if it was listed before, or it is the
   * name or a replica name of one of the entries.
   */
  lemma {:induction false} KeysAfterOnly(keys: set<string>, entries: seq<ConfigEntry>, overrideExisting: bool, k: string)
    requires k in KeysAfter(keys, entries, overrideExisting)
    ensures k in keys ||
      exists i :: 0 <= i < |entries| && entries[i].name.Some? &&
        (k == entries[i].name.value || k in UniqueNames(entries[i].name.value, Replicas(entries[i].numberOfProcesses)))
    decreases |entries|
  {
    if |entries| > 0 {
      var prefix := entries[..|entries| - 1];
      if k in KeysAfter(keys, prefix, overrideExisting) {
        KeysAfterOnly(keys, prefix, overrideExisting, k);
        if k !in keys {
          var i :| 0 <= i < |prefix| && prefix[i].name.Some? &&
            (k == prefix[i].name.value || k in UniqueNames(prefix[i].name.value, Replicas(prefix[i].numberOfProcesses)));
          assert entries[i] == prefix[i];
        }
      }
    }
  }

  /** A map that lists anything still lists something after any load, so the configuration stays valid. */
  lemma ListedMapStaysValid(keys: set<string>, entries: seq<ConfigEntry>, overrideExisting: bool)
    requires keys != {}
    ensures KeysAfter(keys, entries, overrideExisting) != {}
  {
    KeysAfterKeeps(keys, entries, overrideExisting);
  }

  // --- The record a reload compares with ---

  /**
   * `mProcessMap[key]`, as the command loop and the hang-up handler use it:
   * an unknown key is inserted bound to null.
   */
  function Subscript(m: map<string, Process?>, key: string): (r: map<string, Process?>)
    ensures r.Keys == m.Keys + {key}
    ensures key !in m ==> r[key] == null
    ensures forall k :: k in m ==> r[k] == m[k]
  {
    if key in m then m else m[key := null]
  }

  /** `old_process` as the source picks it: the listed value, even a null one, or the new record. */
  function OldProcessAsWritten(m: map<string, Process?>, name: string, newProcess: Process): (r: Process?)
    ensures r == null ==> name in m
  {
    if name in m then m[name] else newProcess
  }

  /**
   * `status web` for a program `web` that is not listed leaves a null
   * placeholder under `web`; a reload whose configuration then adds `web`
   * compares with a null record and reads its `full_path` through it.
   */
  lemma PlaceholderReachesReload(m: map<string, Process?>, newProcess: Process)
    requires "web" !in m
    ensures var afterStatus := Subscript(m, "web");
      "web" in afterStatus && OldProcessAsWritten(afterStatus, "web", newProcess) == null
  {
  }

  /** The record a reload compares with: a listed record, or the new one when the name is absent or a placeholder. */
  function ComparedProcess(m: map<string, Process?>, name: string, newProcess: Process): (r: Process)
    ensures r == newProcess || (name in m && m[name] == r)
  {
    if name in m && m[name] != null then m[name] else newProcess
  }

  /** Where the map holds no placeholder for the name, the corrected choice is the source's. */
  lemma ComparedProcessAgrees(m: map<string, Process?>, name: string, newProcess: Process)
    requires name in m ==> m[name] != null
    ensures ComparedProcess(m, name, newProcess) == OldProcessAsWritten(m, name, newProcess)
  {
  }

  /** The fields of the compared record: those of a listed record, or of a default record carrying the name. */
  function ComparedState(m: map<string, Process?>, name: string): ProcessState
    reads m.Values
  {
    if name in m && m[name] != null then m[name].Snapshot() else DefaultState.(processName := name)
  }

  /** The plan for entry `e` against map `m`. */
  function Plan(m: map<string, Process?>, e: ConfigEntry, overrideExisting: bool): EntryPlan
    reads m.Values
  {
    PlanEntry(e, e.name.GetOr("") in m, ComparedState(m, e.name.GetOr("")), overrideExisting)
  }

  /** The record after a restart: the cycles `_start` runs, replayed. */
  function Started(s: ProcessState, run: seq<Cycle>): ProcessState {
    Replay(s, run[..CyclesRun(s.shouldRestart, s.numberOfRestarts, Verdicts(s, run))])
  }

  /** A cycle changes only the liveness, pid, exec time, error text and return value. */
  lemma {:induction false} ReplayKeepsSettings(s: ProcessState, run: seq<Cycle>)
    ensures Replay(s, run).shouldRestart == s.shouldRestart
    ensures Replay(s, run).numberOfRestarts == s.numberOfRestarts
    ensures Replay(s, run).expectedReturns == s.expectedReturns
    ensures Replay(s, run).processName == s.processName
    decreases |run|
  {
    if |run| > 0 {
      ReplayKeepsSettings(s, run[..|run| - 1]);
    }
  }

  /** One more cycle replayed, and the verdict the monitor gives in it. */
  lemma ReplayStep(s: ProcessState, run: seq<Cycle>, c: int)
    requires 0 <= c < |run|
    ensures Replay(s, run[..c + 1]) == Step(Replay(s, run[..c]), run[c])
    ensures Verdicts(s, run)[c] == MonitorVerdict(AfterLaunch(Replay(s, run[..c]), run[c].launch), run[c].status, run[c].now)
  {
    assert run[..c + 1][..c] == run[..c];
  }

  /**
   * The verdicts of the first `c` cycles do not depend on the cycles that
   * come later: the monitor only looks at what has already happened.
   */
  lemma VerdictsPrefix(s: ProcessState, run: seq<Cycle>, c: int)
    requires 0 <= c <= |run|
    ensures Verdicts(s, run[..c]) == Verdicts(s, run)[..c]
  {
    forall k | 0 <= k < c
      ensures Verdicts(s, run[..c])[k] == Verdicts(s, run)[k]
    {
      assert run[..c][..k] == run[..k];
    }
  }

  /*
   * The options that may call for a restart (src/Supervisor.cpp, lines
   * 550-591), one method each. Each compares with the record `compared`,
   * which is `p` itself for a name that is not listed. `isNodeValid` is the
   * validity flag as the previous read left it, and `valid` is the flag
   * afterwards; the caller skips the entry when a check on it fails.
   */

  /** `full_path`: set, and a restart when overriding and the path differs. */
  method ReadFullPath(p: Process, compared: Process, e: ConfigEntry, overrideExisting: bool, isNodeValid: bool)
    returns (restart: bool, valid: bool)
    modifies p
    ensures valid <==> isNodeValid || e.fullPath.Some?
    ensures p.Snapshot() == old(p.Snapshot()).(fullPath := e.fullPath.GetOr(""))
    ensures restart <==> overrideExisting && e.fullPath.Some? && e.fullPath.value != old(compared.fullPath)
  {
    var read := GetYAMLNode(e.fullPath, compared.fullPath, isNodeValid, false, "");
    p.SetFullPath(read.value);
    valid := read.isNodeValid;
    restart := false;
    if !valid {
      return;
    } else if overrideExisting && read.valueChanged {
      restart := true;
    }
  }

  /**
   * `number_of_restarts`: set (0 when missing, 1 when the flag is still
   * clear), and a restart when overriding and it differs.
   */
  method ReadNumberOfRestarts(p: Process, compared: Process, e: ConfigEntry, overrideExisting: bool, restartBefore: bool,
                              isNodeValid: bool)
    returns (restart: bool, valid: bool)
    modifies p
    ensures valid <==> isNodeValid || e.numberOfRestarts.Some?
    ensures p.Snapshot() == old(p.Snapshot()).(numberOfRestarts := if valid then e.numberOfRestarts.GetOr(0) else 1)
    ensures restart <==> (restartBefore ||
      (overrideExisting && e.numberOfRestarts.Some? && e.numberOfRestarts.value != old(compared.numberOfRestarts)))
  {
    restart := restartBefore;
    var read := GetYAMLNode(e.numberOfRestarts, compared.numberOfRestarts, isNodeValid, false, 0);
    p.SetNumberOfRestarts(read.value);
    valid := read.isNodeValid;
    if !valid {
      p.SetNumberOfRestarts(1);
    } else if overrideExisting && read.valueChanged && !restart {
      restart := true;
    }
  }

  /**
   * `expected_return`: first the compared record's list is copied, then a
   * scalar or a sequence replaces it; the entry is skipped when the flag is
   * clear, and otherwise restarts when overriding and the list differs from
   * the compared one.
   */
  method ApplyExpectedReturn(p: Process, compared: Process, node: ExpectedReturnNode, overrideExisting: bool,
                             restartBefore: bool, isNodeValid: bool)
    returns (restart: bool, valid: bool)
    modifies p
    ensures valid == isNodeValid
    ensures p.Snapshot() == old(p.Snapshot()).(expectedReturns := ReadExpectedReturns(node, old(compared.expectedReturns)))
    ensures restart <==> (restartBefore || (valid &&
      overrideExisting && ReadExpectedReturns(node, old(compared.expectedReturns)) != old(compared.expectedReturns)))
  {
    var valueChanged := false;
    restart, valid := restartBefore, isNodeValid;
    var _ := p.SetExpectedReturns(compared.expectedReturns);
    match node {
      case ScalarReturn(v) => valueChanged := p.SetExpectedReturns([v]);
      case SequenceReturn(vs) => valueChanged := p.SetExpectedReturns(vs);
      case OtherReturn =>
    }
    if !valid {
      return;
    } else if overrideExisting && valueChanged {
      restart := true;
    }
  }

  /** The options that are read without checks, set one by one (src/Supervisor.cpp, lines 589-597). */
  method ApplyPlainOptions(p: Process, comparedWorkingDir: string, e: ConfigEntry)
    modifies p
    ensures p.Snapshot() == PlainOptions(e, comparedWorkingDir, old(p.Snapshot()))
  {
    ApplyFlagOptions(p, e);
    p.SetWorkingDir(GetYAMLNode(e.workingDirectory, comparedWorkingDir, true, false, "").value);
    p.SetKillSignal(GetYAMLNode(e.killSignal, 0, true, false, SIGTERM).value);
    p.SetUmask(GetYAMLNode(e.umask, 0, true, false, -1).value);
    p.SetForceQuitWaitTime(GetYAMLNode(e.forceQuitWaitTime, 0, true, false, 0).value);
  }

  /** The first five unchecked options (lines 589-593); a missing one is zero, false or empty. */
  method ApplyFlagOptions(p: Process, e: ConfigEntry)
    modifies p
    ensures p.Snapshot() == old(p.Snapshot()).(startTime := ReadNode(e.startTime, true, 0).0,
      redirectStreams := ReadNode(e.redirectStreams, true, false).0,
      outputRedirectPath := ReadNode(e.outputRedirectPath, true, "").0,
      execOnStartup := ReadNode(e.execOnStartup, true, false).0,
      shouldRestart := ReadNode(e.shouldRestart, true, 0).0)
  {
    p.SetStartTime(ReadNode(e.startTime, true, 0).0);
    p.SetRedirectStreams(ReadNode(e.redirectStreams, true, false).0);
    p.SetOutputRedirectPath(ReadNode(e.outputRedirectPath, true, "").0);
    p.SetExecOnStartup(ReadNode(e.execOnStartup, true, false).0);
    p.SetShouldRestart(ReadNode(e.shouldRestart, true, 0).0);
  }

  /** Appends each `start_command` element in order. */
  method AppendStartCommand(p: Process, args: seq<string>)
    modifies p
    ensures p.Snapshot() == old(p.Snapshot()).(commandArguments := old(p.commandArguments) + args)
  {
    var k := 0;
    while k < |args|
      invariant 0 <= k <= |args|
      invariant p.Snapshot() == old(p.Snapshot()).(commandArguments := old(p.commandArguments) + args[..k])
    {
      p.AppendCommandArgument(args[k]);
      assert args[..k + 1] == args[..k] + [args[k]];
      k := k + 1;
    }
  }

  /**
   * Lines 550-607 for a named entry, starting from the new record `p` and
   * the validity flag `isNodeValid` the name read left: the options that may
   * call for a restart, then (unless a check on the flag fails or
   * `expected_return` is missing) the other options and the start command.
   */
  method ConfigureRecord(p: Process, compared: Process, e: ConfigEntry, overrideExisting: bool, isNodeValid: bool)
    returns (restart: bool, proceed: bool)
    requires e.name.Some? && p.Snapshot() == DefaultState.(processName := e.name.value)
    modifies p
    ensures proceed <==> (isNodeValid || e.fullPath.Some?) && e.expectedReturn.Some?
    ensures proceed ==> restart == RestartFlag(e, old(compared.Snapshot()), overrideExisting)
    ensures proceed ==> p.Snapshot() == ConfiguredState(e, old(compared.Snapshot()))
  {
    ghost var c := compared.Snapshot();
    var valid;
    restart, valid := ReadFullPath(p, compared, e, overrideExisting, isNodeValid);
    if !valid {
      return restart, false;
    }
    assert compared.numberOfRestarts == c.numberOfRestarts && compared.expectedReturns == c.expectedReturns;
    restart, valid := ReadNumberOfRestarts(p, compared, e, overrideExisting, restart, valid);
    assert compared.expectedReturns == c.expectedReturns;
    if e.expectedReturn.None? {
      return restart, false;
    }
    restart, proceed := ApplyExpectedReturn(p, compared, e.expectedReturn.value, overrideExisting, restart, valid);
    if proceed {
      assert compared.workingDir == c.workingDir;
      ApplyPlainOptions(p, compared.workingDir, e);
      AppendStartCommand(p, e.startCommand);
    }
  }

  /** The environment's cycles for the i-th entry; none when not given. */
  function RunFor(runs: seq<seq<Cycle>>, i: int): seq<Cycle> {
    if 0 <= i < |runs| then runs[i] else []
  }

  /** The names of the records that are listed, not null and alive. */
  function AliveKeys(m: map<string, Process?>): set<string>
    reads m.Values
  {
    set k | k in m && m[k] != null && m[k].isAlive
  }

  /** The supervisor: the map from program name to record, and the validity of the last load. */
  class Supervisor {
    var processMap: map<string, Process?>
    var isConfigValid: bool

    /** The constructor: an empty map, invalid, then a first load that does not override. */
    constructor (config: ConfigFile, runs: seq<seq<Cycle>>)
      ensures config.Loaded? && config.processes.Some? ==>
        processMap.Keys == KeysAfter({}, config.processes.value, false) &&
        (isConfigValid <==> processMap.Keys != {})
      ensures !(config.Loaded? && config.processes.Some?) ==> processMap == map[] && !isConfigValid
    {
      processMap := map[];
      isConfigValid := false;
      new;
      assert processMap.Keys == {};
      var _ := LoadConfig(config, false, runs);
    }

    /** `startProcess`: a record that is alive is left alone; otherwise `_start` is spawned on a thread. It returns 0. */
    method StartProcess(process: Process) returns (r: int, spawned: bool)
      ensures r == 0
      ensures spawned <==> !process.isAlive
    {
      if process.isAlive {
        return 0, false;
      }
      return 0, true;
    }

    /** `_monitor`: marks the record not alive, records a normal exit's code and gives the 0/1 verdict. */
    method Monitor(process: Process, status: WaitStatus, now: int) returns (hasError: int)
      modifies process
      ensures process.Snapshot() == AfterWait(old(process.Snapshot()), status)
      ensures hasError == MonitorVerdict(old(process.Snapshot()), status, now)
    {
      process.SetIsAlive(false);
      match status {
        case Exited(code) => process.SetReturnValue(code);
        case Signaled(_) =>
        case WaitFailed => process.SetReturnValue(0);
      }
      var error := false;
      if process.startTime != 0 && now < process.execTime + process.startTime {
        error := true;
      }
      if !IsExpectedReturnValue(process.returnValue, process.expectedReturns) {
        error := true;
      }
      hasError := if error then 1 else 0;
    }

    /** One turn of `_start`: launch the record, then monitor it. */
    method RunCycle(process: Process, cycle: Cycle) returns (ret: int)
      modifies process
      ensures process.Snapshot() == Step(old(process.Snapshot()), cycle)
      ensures process.shouldRestart == old(process.shouldRestart)
      ensures ret == MonitorVerdict(AfterLaunch(old(process.Snapshot()), cycle.launch), cycle.status, cycle.now)
    {
      process.Start(cycle.launch);
      ret := Monitor(process, cycle.status, cycle.now);
    }

    /**
     * `_start`: launch, monitor and decide, while the counter is below the
     * ceiling and the environment supplies cycles. It returns how many
     * cycles ran; the record has gone through exactly those.
     */
    method Start(process: Process, run: seq<Cycle>) returns (cycles: nat)
      modifies process
      ensures cycles == CyclesRun(old(process.shouldRestart), old(process.numberOfRestarts), Verdicts(old(process.Snapshot()), run))
      ensures process.Snapshot() == Replay(old(process.Snapshot()), run[..cycles])
    {
      ghost var initial := process.Snapshot();
      ghost var rest := Verdicts(initial, run);
      ghost var total := CyclesRun(process.shouldRestart, process.numberOfRestarts, rest);
      ghost var policy := process.shouldRestart;
      var numberOfRestarts := if process.shouldRestart != Never then process.numberOfRestarts else 1;
      var i := 0;
      cycles := 0;
      while i < numberOfRestarts && cycles < |run|
        invariant 0 <= cycles <= |run|
        invariant |rest| == |run| - cycles
        invariant process.shouldRestart == policy
        invariant process.Snapshot() == Replay(initial, run[..cycles])
        invariant rest == Verdicts(initial, run)[cycles..]
        invariant total == cycles + CyclesFrom(policy, numberOfRestarts, i, rest)
        decreases |rest|
      {
        ReplayStep(initial, run, cycles);
        var ret := RunCycle(process, run[cycles]);
        assert ret == rest[0];
        rest := rest[1..];
        cycles := cycles + 1;
        if process.shouldRestart == Never {
          break;
        } else if process.shouldRestart == Always {
        } else if process.shouldRestart == UnexpectedExit {
          if ret == 0 {
            break;
          }
          i := i + 1;
        } else {
          break;
        }
      }
    }

    /**
     * Binds the configured record under its name, with `number_of_processes`
     * replicas when that is above 1 (src/Supervisor.cpp, lines 618-626).
     */
    method RegisterRecord(p: Process, numberOfProcesses: Option<int>) returns (ghost clones: seq<Process>)
      modifies this
      ensures isConfigValid == old(isConfigValid)
      ensures processMap == old(processMap)[p.processName := p] + ReplicaMap(p.processName, clones)
      ensures processMap.Keys == old(processMap).Keys + {p.processName} + UniqueNames(p.processName, Replicas(numberOfProcesses))
      ensures |clones| == Replicas(numberOfProcesses)
      ensures forall c :: c in clones ==> fresh(c)
      ensures forall k :: 1 <= k <= |clones| ==>
        clones[k - 1].Snapshot() == p.Snapshot().(processName := GetUniqueName(p.processName, k))
    {
      var (count, valid) := ReadNode(numberOfProcesses, false, 0);
      if valid && count > 1 {
        processMap, clones := AddMultipleProcessesToList(count, processMap, p);
      } else {
        processMap := processMap[p.processName := p];
        clones := [];
        assert ReplicaMap(p.processName, clones) == map[];
      }
      MergedReplicas(old(processMap), p.processName, p, clones);
    }

    /**
     * Lines 618-632: the configured record is registered (with its replicas)
     * and, when a restart is called for, stopped (a no-op) and run through
     * `_start` with the cycles `run`; the replicas are copies taken before.
     */
    method Enlist(p: Process, numberOfProcesses: Option<int>, restart: bool, run: seq<Cycle>) returns (ghost clones: seq<Process>)
      modifies this, p
      ensures isConfigValid == old(isConfigValid)
      ensures processMap == old(processMap)[old(p.processName) := p] + ReplicaMap(old(p.processName), clones)
      ensures processMap.Keys == old(processMap).Keys + {old(p.processName)} + UniqueNames(old(p.processName), Replicas(numberOfProcesses))
      ensures |clones| == Replicas(numberOfProcesses)
      ensures forall c :: c in clones ==> fresh(c)
      ensures forall k :: 1 <= k <= |clones| ==>
        clones[k - 1].Snapshot() == old(p.Snapshot()).(processName := GetUniqueName(old(p.processName), k))
      ensures p.Snapshot() == if restart then Started(old(p.Snapshot()), run) else old(p.Snapshot())
    {
      clones := RegisterRecord(p, numberOfProcesses);
      if restart {
        ghost var configured := p.Snapshot();
        var _ := p.Stop();
        var cycles := Start(p, run);
        assert cycles == CyclesRun(configured.shouldRestart, configured.numberOfRestarts, Verdicts(configured, run));
      }
    }

    /**
     * The body of the `loadConfig` loop for one entry: build a new record
     * from the entry, compare the restart-relevant options with the listed
     * record, register it (with its replicas) and, when a restart is called
     * for, stop it (a no-op) and run `_start` on it with the cycles `run`.
     */
    method LoadEntry(e: ConfigEntry, overrideExisting: bool, run: seq<Cycle>)
      returns (ghost entered: Option<Process>, ghost clones: seq<Process>)
      modifies this
      ensures isConfigValid == old(isConfigValid)
      ensures processMap.Keys == KeysAfterEntry(old(processMap).Keys, e, overrideExisting)
      ensures old(Plan(processMap, e, overrideExisting)).Skip? ==> processMap == old(processMap) && entered == None
      ensures var plan := old(Plan(processMap, e, overrideExisting));
        plan.Register? ==>
          && entered.Some? && fresh(entered.value)
          && processMap == old(processMap)[plan.state.processName := entered.value] + ReplicaMap(plan.state.processName, clones)
          && |clones| == plan.replicas
          && (forall c :: c in clones ==> fresh(c))
          && (forall k :: 1 <= k <= |clones| ==>
                clones[k - 1].Snapshot() == plan.state.(processName := GetUniqueName(plan.state.processName, k)))
          && entered.value.Snapshot() == (if plan.restart then Started(plan.state, run) else plan.state)
    {
      ghost var before := processMap;
      ghost var plan := Plan(processMap, e, overrideExisting);
      SkipIff(e, e.name.GetOr("") in processMap, ComparedState(processMap, e.name.GetOr("")), overrideExisting);
      entered, clones := None, [];
      var p := new Process();
      var nameRead := ReadNode(e.name, false, "");
      p.SetProcessName(nameRead.0);
      if !nameRead.1 {
        return;
      }
      var name := p.processName;
      if name in processMap && !overrideExisting {
        return;
      }
      var oldProcess := ComparedProcess(processMap, name, p);
      ghost var compared := ComparedState(processMap, name);
      assert oldProcess.Snapshot() == compared;

      var restart, proceed := ConfigureRecord(p, oldProcess, e, overrideExisting, nameRead.1);
      if !proceed {
        return;
      }
      PlanRegisters(e, name in processMap, compared, overrideExisting);
      assert p.Snapshot() == plan.state && restart == plan.restart;

      clones := Enlist(p, e.numberOfProcesses, restart, run);
      entered := Some(p);
    }

    /**
     * `loadConfig`: a file that cannot be read, or has no
     * `supervisor-processes` node, makes the configuration invalid and
     * returns 1 with the map untouched. Otherwise each entry is applied in
     * order (the i-th with the cycles `runs[i]` should it restart), and the
     * configuration is valid exactly when the map is not empty.
     */
    method LoadConfig(config: ConfigFile, overrideExisting: bool, runs: seq<seq<Cycle>>) returns (r: int)
      modifies this
      ensures !(config.Loaded? && config.processes.Some?) ==> r == 1 && !isConfigValid && processMap == old(processMap)
      ensures config.Loaded? && config.processes.Some? ==>
        && r == 0
        && processMap.Keys == KeysAfter(old(processMap).Keys, config.processes.value, overrideExisting)
        && (isConfigValid <==> processMap.Keys != {})
    {
      if config.BadFile? || config.processes.None? {
        isConfigValid := false;
        return 1;
      }
      var entries := config.processes.value;
      var i := 0;
      while i < |entries|
        invariant 0 <= i <= |entries|
        invariant processMap.Keys == KeysAfter(old(processMap).Keys, entries[..i], overrideExisting)
      {
        ghost var entered: Option<Process>, clones: seq<Process>;
        entered, clones := LoadEntry(entries[i], overrideExisting, RunFor(runs, i));
        assert entries[..i + 1][..i] == entries[..i];
        i := i + 1;
      }
      assert entries[..i] == entries;
      isConfigValid := |processMap| > 0;
      return 0;
    }

    /**
     * `killAllProcesses`: every listed, non-null, alive record is killed
     * (`killed` names them; the kill itself is not modelled) and their
     * number is returned.
     */
    method KillAllProcesses() returns (n: int, killed: set<string>)
      ensures killed == AliveKeys(processMap)
      ensures n == |killed|
    {
      n, killed := 0, {};
      var remaining := processMap.Keys;
      while remaining != {}
        invariant remaining <= processMap.Keys
        invariant killed == set k | k in processMap && k !in remaining && processMap[k] != null && processMap[k].isAlive
        invariant n == |killed|
        decreases |remaining|
      {
        var key :| key in remaining;
        var process := processMap[key];
        if process != null && process.isAlive {
          killed := killed + {key};
          n := n + 1;
        }
        remaining := remaining - {key};
      }
    }
  }
}
