/**
 * src/Process.cpp: the record of one supervised program. Its fields are
 * updated in place by setters, so it is a class; `Snapshot` gives the
 * value of all its fields at once, which is what the contracts talk about.
 *
 * The fields after `commandArguments` are the ones src/Supervisor.cpp reads
 * and writes through members that a later revision of the record adds
 * (`getPid`, `getShouldRestart`, `setReturnValue`, ...); here they are plain
 * fields with the same meaning.
 */
module Processes {
  import Utils

  /** The default signal for a graceful stop. */
  const SIGTERM: int := 15

  datatype ProcessState = ProcessState(
    isAlive: bool,
    restartOnError: bool,
    execOnStartup: bool,
    hasStandardStreams: bool,
    expectedReturn: int,
    numberOfRestarts: int,
    startTime: int,
    fullPath: string,
    processName: string,
    workingDir: string,
    additionalEnv: string,
    outputRedirectPath: string,
    commandArguments: seq<string>,
    expectedReturns: seq<int>,
    returnValue: int,
    shouldRestart: int,
    pid: int,
    strerror: string,
    execTime: int,
    killSignal: int,
    umask: int,
    forceQuitWaitTime: int,
    redirectStreams: bool)

  /**
   * The default-constructed record: not alive, empty strings, no arguments,
   * expected return 0, no restarts, start time 0, standard streams kept.
   * The later-revision fields start at zero, empty or false.
   */
  const DefaultState: ProcessState := ProcessState(
    isAlive := false,
    restartOnError := false,
    execOnStartup := false,
    hasStandardStreams := true,
    expectedReturn := 0,
    numberOfRestarts := 0,
    startTime := 0,
    fullPath := "",
    processName := "",
    workingDir := "",
    additionalEnv := "",
    outputRedirectPath := "",
    commandArguments := [],
    expectedReturns := [],
    returnValue := 0,
    shouldRestart := 0,
    pid := 0,
    strerror := "",
    execTime := 0,
    killSignal := 0,
    umask := 0,
    forceQuitWaitTime := 0,
    redirectStreams := false)

  /** How a launch attempt ended: the child was exec'd, or it reports an error. */
  datatype LaunchOutcome = Launched(pid: int, execTime: int) | LaunchFailed(strerror: string)

  /** The record after a launch attempt: alive with pid and exec time, or not alive with the error text. */
  function AfterLaunch(s: ProcessState, outcome: LaunchOutcome): (r: ProcessState)
    ensures r.isAlive == outcome.Launched?
    ensures r.(isAlive := s.isAlive, pid := s.pid, execTime := s.execTime, strerror := s.strerror) == s
  {
    match outcome
    case Launched(pid, execTime) => s.(isAlive := true, pid := pid, execTime := execTime)
    case LaunchFailed(err) => s.(isAlive := false, strerror := err)
  }

  /** Membership of a return value in the expected list, scanned element by element. */
  predicate IsExpectedReturnValue(value: int, expected: seq<int>)
    decreases |expected|
  {
    expected != [] && (expected[0] == value || IsExpectedReturnValue(value, expected[1..]))
  }

  lemma {:induction false} IsExpectedReturnValueMeansMember(value: int, expected: seq<int>)
    ensures IsExpectedReturnValue(value, expected) <==> value in expected
    decreases |expected|
  {
    if expected != [] {
      IsExpectedReturnValueMeansMember(value, expected[1..]);
      assert expected == [expected[0]] + expected[1..];
    }
  }

  class Process {
    var isAlive: bool
    var restartOnError: bool
    var execOnStartup: bool
    var hasStandardStreams: bool
    var expectedReturn: int
    var numberOfRestarts: int
    var startTime: int
    var fullPath: string
    var processName: string
    var workingDir: string
    var additionalEnv: string
    var outputRedirectPath: string
    var commandArguments: seq<string>
    var expectedReturns: seq<int>
    var returnValue: int
    var shouldRestart: int
    var pid: int
    var strerror: string
    var execTime: int
    var killSignal: int
    var umask: int
    var forceQuitWaitTime: int
    var redirectStreams: bool

    /** All fields as one value. */
    function Snapshot(): ProcessState
      reads this
    {
      ProcessState(
        isAlive, restartOnError, execOnStartup, hasStandardStreams, expectedReturn,
        numberOfRestarts, startTime, fullPath, processName, workingDir, additionalEnv,
        outputRedirectPath, commandArguments, expectedReturns, returnValue, shouldRestart,
        pid, strerror, execTime, killSignal, umask, forceQuitWaitTime, redirectStreams)
    }

    constructor ()
      ensures Snapshot() == DefaultState
    {
      isAlive, restartOnError, execOnStartup, hasStandardStreams := false, false, false, true;
      expectedReturn, numberOfRestarts, startTime := 0, 0, 0;
      fullPath, processName, workingDir, additionalEnv, outputRedirectPath := "", "", "", "", "";
      commandArguments := [];
      expectedReturns, returnValue, shouldRestart, pid, strerror := [], 0, 0, 0, "";
      execTime, killSignal, umask, forceQuitWaitTime, redirectStreams := 0, 0, 0, 0, false;
    }

    /** The member-wise constructor: the first thirteen fields from the arguments, the rest as by default. */
    constructor Init(isAlive: bool, restartOnError: bool, execOnStartup: bool, hasStandardStreams: bool,
                     expectedReturn: int, numberOfRestarts: int, startTime: int, fullPath: string,
                     name: string, workingDir: string, additionalEnv: string, outputRedirectPath: string,
                     commandArgs: seq<string>)
      ensures Snapshot() == DefaultState.(isAlive := isAlive, restartOnError := restartOnError,
        execOnStartup := execOnStartup, hasStandardStreams := hasStandardStreams,
        expectedReturn := expectedReturn, numberOfRestarts := numberOfRestarts, startTime := startTime,
        fullPath := fullPath, processName := name, workingDir := workingDir, additionalEnv := additionalEnv,
        outputRedirectPath := outputRedirectPath, commandArguments := commandArgs)
    {
      this.isAlive, this.restartOnError, this.execOnStartup, this.hasStandardStreams := isAlive, restartOnError, execOnStartup, hasStandardStreams;
      this.expectedReturn, this.numberOfRestarts, this.startTime := expectedReturn, numberOfRestarts, startTime;
      this.fullPath, this.processName, this.workingDir := fullPath, name, workingDir;
      this.additionalEnv, this.outputRedirectPath, this.commandArguments := additionalEnv, outputRedirectPath, commandArgs;
      expectedReturns, returnValue, shouldRestart, pid, strerror := [], 0, 0, 0, "";
      execTime, killSignal, umask, forceQuitWaitTime, redirectStreams := 0, 0, 0, 0, false;
    }

    /** The implicit copy constructor: a new record with every field of `other`. */
    constructor Copy(other: Process)
      ensures Snapshot() == other.Snapshot()
    {
      var s := other.Snapshot();
      isAlive, restartOnError, execOnStartup, hasStandardStreams := s.isAlive, s.restartOnError, s.execOnStartup, s.hasStandardStreams;
      expectedReturn, numberOfRestarts, startTime := s.expectedReturn, s.numberOfRestarts, s.startTime;
      fullPath, processName, workingDir := s.fullPath, s.processName, s.workingDir;
      additionalEnv, outputRedirectPath, commandArguments := s.additionalEnv, s.outputRedirectPath, s.commandArguments;
      expectedReturns, returnValue, shouldRestart, pid, strerror := s.expectedReturns, s.returnValue, s.shouldRestart, s.pid, s.strerror;
      execTime, killSignal, umask, forceQuitWaitTime, redirectStreams := s.execTime, s.killSignal, s.umask, s.forceQuitWaitTime, s.redirectStreams;
    }

    /**
     * `Process::start`: the fork/exec itself is not modelled; the outcome of
     * the attempt is given.
     */
    method Start(outcome: LaunchOutcome)
      modifies this
      ensures Snapshot() == AfterLaunch(old(Snapshot()), outcome)
    {
      match outcome
      case Launched(newPid, newExecTime) =>
        isAlive := true;
        pid := newPid;
        execTime := newExecTime;
      case LaunchFailed(err) =>
        isAlive := false;
        strerror := err;
    }

    /** `Process::stop`: returns 0 whether or not the process is alive, and changes nothing. */
    method Stop() returns (r: int)
      ensures r == 0
    {
      if !isAlive {
        return 0;
      }
      return 0;
    }

    method AppendCommandArgument(argument: string)
      modifies this
      ensures commandArguments == old(commandArguments) + [argument]
      ensures Snapshot() == old(Snapshot()).(commandArguments := old(commandArguments) + [argument])
    {
      commandArguments := commandArguments + [argument];
    }

    method SetIsAlive(v: bool)
      modifies this
      ensures Snapshot() == old(Snapshot()).(isAlive := v)
    {
      isAlive := v;
    }

    method SetRestartOnError(v: bool)
      modifies this
      ensures Snapshot() == old(Snapshot()).(restartOnError := v)
    {
      restartOnError := v;
    }

    method SetExecOnStartup(v: bool)
      modifies this
      ensures Snapshot() == old(Snapshot()).(execOnStartup := v)
    {
      execOnStartup := v;
    }

    method SetHasStandardStreams(v: bool)
      modifies this
      ensures Snapshot() == old(Snapshot()).(hasStandardStreams := v)
    {
      hasStandardStreams := v;
    }

    method SetExpectedReturn(v: int)
      modifies this
      ensures Snapshot() == old(Snapshot()).(expectedReturn := v)
    {
      expectedReturn := v;
    }

    method SetNumberOfRestarts(v: int)
      modifies this
      ensures Snapshot() == old(Snapshot()).(numberOfRestarts := v)
    {
      numberOfRestarts := v;
    }

    method SetStartTime(v: int)
      modifies this
      ensures Snapshot() == old(Snapshot()).(startTime := v)
    {
      startTime := v;
    }

    method SetFullPath(v: string)
      modifies this
      ensures Snapshot() == old(Snapshot()).(fullPath := v)
    {
      fullPath := v;
    }

    method SetProcessName(v: string)
      modifies this
      ensures Snapshot() == old(Snapshot()).(processName := v)
    {
      processName := v;
    }

    method SetWorkingDir(v: string)
      modifies this
      ensures Snapshot() == old(Snapshot()).(workingDir := v)
    {
      workingDir := v;
    }

    method SetAdditionalEnv(v: string)
      modifies this
      ensures Snapshot() == old(Snapshot()).(additionalEnv := v)
    {
      additionalEnv := v;
    }

    method SetOutputRedirectPath(v: string)
      modifies this
      ensures Snapshot() == old(Snapshot()).(outputRedirectPath := v)
    {
      outputRedirectPath := v;
    }

    method SetReturnValue(v: int)
      modifies this
      ensures Snapshot() == old(Snapshot()).(returnValue := v)
    {
      returnValue := v;
    }

    /** Replaces the expected return values and reports whether they differ from the previous ones. */
    method SetExpectedReturns(v: seq<int>) returns (changed: bool)
      modifies this
      ensures changed == (v != old(expectedReturns))
      ensures Snapshot() == old(Snapshot()).(expectedReturns := v)
    {
      changed := v != expectedReturns;
      expectedReturns := v;
    }

    method SetShouldRestart(v: int)
      modifies this
      ensures Snapshot() == old(Snapshot()).(shouldRestart := v)
    {
      shouldRestart := v;
    }

    method SetKillSignal(v: int)
      modifies this
      ensures Snapshot() == old(Snapshot()).(killSignal := v)
    {
      killSignal := v;
    }

    method SetUmask(v: int)
      modifies this
      ensures Snapshot() == old(Snapshot()).(umask := v)
    {
      umask := v;
    }

    method SetForceQuitWaitTime(v: int)
      modifies this
      ensures Snapshot() == old(Snapshot()).(forceQuitWaitTime := v)
    {
      forceQuitWaitTime := v;
    }

    method SetRedirectStreams(v: bool)
      modifies this
      ensures Snapshot() == old(Snapshot()).(redirectStreams := v)
    {
      redirectStreams := v;
    }
  }

  /** The bracketed argument list of the status line: empty, or the arguments joined by ", ". */
  function ArgumentList(args: seq<string>): string {
    if |args| == 0 then "" else Utils.Join(args, ", ")
  }

  /** A stream prints a `bool` as 1 or 0. */
  function BoolText(b: bool): string {
    if b then "1" else "0"
  }

  /** `operator<<`: the text written to the stream for one process. */
  method Describe(p: Process) returns (text: string)
    ensures text == "Process:{ name: " + p.processName + ", isAlive: " + BoolText(p.isAlive)
      + ", full_path: " + p.fullPath + ", start_command: [" + ArgumentList(p.commandArguments) + "] }\n"
  {
    var out := "";
    if |p.commandArguments| != 0 {
      out := Utils.JoinStrings(p.commandArguments, ", ");
    }
    text := "Process:{ name: " + p.processName;
    text := text + ", isAlive: " + (if p.isAlive then "1" else "0");
    text := text + ", full_path: " + p.fullPath;
    text := text + ", start_command: [" + out;
    text := text + "] }\n";
  }
}
