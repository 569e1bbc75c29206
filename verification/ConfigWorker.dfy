/**
 The bounded OpenCode config write: a caller that waits for a worker up to a deadline, a channel of one
 message, and a cancel flag. Every step below is one atomic action of one of the two threads.
 */
module ConfigWorker {
  import opened JsonValues

  /** The files of a session, the variables that announce two of them, and what an earlier launch may have left. */
  const TUI_FILE := "ccpanes-tui.json"
  const INSTRUCTIONS_FILE := "instructions.md"
  const MAIN_FILE := "opencode.json"
  const OLD_TUI := "tui.json"
  const OLD_BACKUP := "opencode.json.tui-migration.bak"
  const TUI_VARIABLE := "OPENCODE_TUI_CONFIG"
  const MAIN_VARIABLE := "OPENCODE_CONFIG"

  type Env = map<string, string>

  datatype WorkerResult = Written(env: Env) | WriteError

  datatype Failure = CouldNotStart | CouldNotWrite | TimedOut | WorkerStopped

  /** What `write_session_configs_bounded` returns, and by which way it got there. */
  datatype Verdict = Launch(env: Env) | Refuse(why: Failure)

  datatype Way = NotSpawned | Received | Timeout | Disconnected

  datatype Caller = Spawning | Waiting | Cancelling | Returned(verdict: Verdict, way: Way)

  datatype Worker =
    | NotStarted
    | WritingTui
    | Clearing(env: Env, file: string)
    | WritingInstructions(env: Env)
    | WritingMain(env: Env, prompted: bool)
    | Done(result: WorkerResult)
    | Sending(result: WorkerResult)
    | Deleting
    | Finished
    | Panicked

  /** `dir` holds the files of the session directory; the last three fields record what the worker did. */
  datatype State = State(
    managed: bool, caller: Caller, worker: Worker, cancelled: bool, mailbox: Option<WorkerResult>,
    dir: set<string>, wrote: set<string>, produced: Option<WorkerResult>, deleted: bool)

  /** The outcome of one of the three file writes: nothing to write, the file, or an error. */
  datatype FileWrite = Nothing | Wrote | Error

  datatype Step =
    | SpawnFails
    | Spawn
    | WriteTui(w: FileWrite)
    | RemoveOld(file: string, ok: bool)
    | WriteInstructions(w: FileWrite)
    | WriteMain(w: FileWrite)
    | Panic
    | LoadFlag
    | DeleteDir(left: set<string>)
    | Send
    | Receive
    | Expire
    | StoreFlag
    | SeeDisconnected

  predicate Writing(w: Worker) { w.WritingTui? || w.Clearing? || w.WritingInstructions? || w.WritingMain? }

  predicate Running(w: Worker) { Writing(w) || w.Done? || w.Sending? || w.Deleting? }

  predicate Enabled(s: State, step: Step) {
    match step
    case SpawnFails => s.caller.Spawning?
    case Spawn => s.caller.Spawning?
    case WriteTui(_) => s.worker.WritingTui?
    case RemoveOld(file, ok) => s.worker.Clearing? && s.worker.file == file && (!ok ==> file in s.dir)
    case WriteInstructions(_) => s.worker.WritingInstructions?
    case WriteMain(w) => s.worker.WritingMain? && (w.Nothing? ==> !s.worker.prompted)
    case Panic => Writing(s.worker)
    case LoadFlag => s.worker.Done?
    case DeleteDir(_) => s.worker.Deleting?
    case Send => s.worker.Sending?
    case Receive => s.caller.Waiting? && s.mailbox.Some?
    case Expire => s.caller.Waiting? && s.mailbox.None?
    case StoreFlag => s.caller.Cancelling?
    case SeeDisconnected => s.caller.Waiting? && s.mailbox.None? && !Running(s.worker)
  }

  /** What happens without a configuration: a managed provider must not launch on the native one. */
  function Fallback(s: State, why: Failure): Verdict {
    if s.managed then Refuse(why) else Launch(map[])
  }

  /** The state after a write that did not fail. */
  function Stored(s: State, w: FileWrite, file: string): State {
    if w.Wrote? then s.(dir := s.dir + {file}, wrote := s.wrote + {file}) else s
  }

  function Extended(env: Env, w: FileWrite, variable: string, file: string): Env {
    if w.Wrote? then env[variable := file] else env
  }

  function Produces(s: State, result: WorkerResult): State { s.(worker := Done(result), produced := Some(result)) }

  function Without(dir: set<string>, file: string): set<string> { set f | f in dir && f != file }

  function Among(dir: set<string>, left: set<string>): set<string> { set f | f in dir && f in left }

  /** The first write; an error here ends the writing. */
  function AfterTui(s: State, w: FileWrite): State {
    if w.Error? then Produces(s, WriteError)
    else Stored(s, w, TUI_FILE).(worker := Clearing(Extended(map[], w, TUI_VARIABLE, TUI_FILE), OLD_TUI))
  }

  /** The two old files go one after the other; a file that is there and stays is an error. */
  function AfterRemoval(s: State, file: string, ok: bool): State
    requires s.worker.Clearing?
  {
    if !ok then Produces(s, WriteError)
    else s.(dir := Without(s.dir, file),
            worker := if file == OLD_TUI then Clearing(s.worker.env, OLD_BACKUP) else WritingInstructions(s.worker.env))
  }

  function AfterInstructions(s: State, w: FileWrite): State
    requires s.worker.WritingInstructions?
  {
    if w.Error? then Produces(s, WriteError)
    else Stored(s, w, INSTRUCTIONS_FILE).(worker := WritingMain(s.worker.env, w.Wrote?))
  }

  function AfterMain(s: State, w: FileWrite): State
    requires s.worker.WritingMain?
  {
    if w.Error? then Produces(s, WriteError)
    else Produces(Stored(s, w, MAIN_FILE), Written(Extended(s.worker.env, w, MAIN_VARIABLE, MAIN_FILE)))
  }

  function Apply(s: State, step: Step): State
    requires Enabled(s, step)
  {
    match step
    case SpawnFails => s.(caller := Returned(Fallback(s, CouldNotStart), NotSpawned))
    case Spawn => s.(caller := Waiting, worker := WritingTui)
    case WriteTui(w) => AfterTui(s, w)
    case RemoveOld(file, ok) => AfterRemoval(s, file, ok)
    case WriteInstructions(w) => AfterInstructions(s, w)
    case WriteMain(w) => AfterMain(s, w)
    case Panic => s.(worker := Panicked)
    case LoadFlag => s.(worker := if s.cancelled then Deleting else Sending(s.worker.result))
    case DeleteDir(left) => s.(worker := Finished, dir := Among(s.dir, left), deleted := true)
    case Send => s.(worker := Finished, mailbox := if s.caller.Returned? then s.mailbox else Some(s.worker.result))
    case Receive =>
      var verdict := match s.mailbox.value
                     case Written(env) => Launch(env)
                     case WriteError => Fallback(s, CouldNotWrite);
      s.(caller := Returned(verdict, Received), mailbox := None)
    case Expire => s.(caller := Cancelling)
    case StoreFlag => s.(cancelled := true, caller := Returned(Fallback(s, TimedOut), Timeout))
    case SeeDisconnected => s.(caller := Returned(Fallback(s, WorkerStopped), Disconnected))
  }

  /** A new call for a session, whose directory may hold files of an earlier launch. */
  predicate Initial(s: State) {
    && s.caller.Spawning? && s.worker.NotStarted? && !s.cancelled && s.mailbox.None?
    && s.wrote == {} && s.produced.None? && !s.deleted
  }

  /** The steps can be taken one after the other from `s`. */
  predicate Possible(s: State, steps: seq<Step>)
    decreases |steps|
  {
    steps == [] || (Enabled(s, steps[0]) && Possible(Apply(s, steps[0]), steps[1..]))
  }

  function Run(s: State, steps: seq<Step>): State
    requires Possible(s, steps)
    decreases |steps|
  {
    if steps == [] then s else Run(Apply(s, steps[0]), steps[1..])
  }

  lemma RunNil(s: State)
    ensures Possible(s, []) && Run(s, []) == s
  {}

  lemma RunCons(s: State, step: Step, steps: seq<Step>)
    requires Enabled(s, step) && Possible(Apply(s, step), steps)
    ensures Possible(s, [step] + steps) && Run(s, [step] + steps) == Run(Apply(s, step), steps)
  {
    assert ([step] + steps)[1..] == steps;
  }

  // -------------------------------------------------------------------- invariant

  predicate OnDisk(env: Env, dir: set<string>) {
    forall variable :: variable in env ==> env[variable] in dir
  }

  predicate OnlyTui(env: Env) { forall variable :: variable in env ==> env[variable] == TUI_FILE }

  /** The result the worker carries is the one it produced, and its files are in the directory. */
  predicate Backed(s: State, result: WorkerResult) {
    s.produced == Some(result) && (result.Written? ==> OnDisk(result.env, s.dir))
  }

  predicate Safe(s: State) {
    && (s.caller.Spawning? ==> s.worker.NotStarted?)
    && (s.cancelled ==> s.caller.Returned? && s.caller.way == Timeout)
    && (s.worker.Deleting? || s.deleted ==> s.cancelled)
    && (s.worker.Clearing? ==> s.worker.file == OLD_TUI || s.worker.file == OLD_BACKUP)
    && (s.worker.Clearing? || s.worker.WritingInstructions? || s.worker.WritingMain? ==>
          OnDisk(s.worker.env, s.dir) && OnlyTui(s.worker.env))
    && (s.worker.Done? || s.worker.Sending? ==> Backed(s, s.worker.result))
    && (s.mailbox.Some? ==> s.worker.Finished? && Backed(s, s.mailbox.value))
    && (s.caller.Returned? && s.caller.way == Received ==> s.worker.Finished? && s.mailbox.None? && ReceivedWell(s))
    && (s.caller.Returned? && s.caller.way != Received ==> s.caller.verdict == Launch(map[]) || s.caller.verdict.Refuse?)
    && (s.caller.Returned? && s.caller.way != Received && s.managed ==> s.caller.verdict.Refuse?)
    && (s.caller.Returned? && !s.managed ==> s.caller.verdict.Launch?)
  }

  /** What the caller returned is what the worker produced, and the files it names are still there. */
  predicate ReceivedWell(s: State)
    requires s.caller.Returned?
  {
    match s.produced
    case Some(Written(env)) => s.caller.verdict == Launch(env) && OnDisk(env, s.dir)
    case Some(WriteError) => if s.managed then s.caller.verdict.Refuse? else s.caller.verdict == Launch(map[])
    case None => false
  }

  lemma MoreFiles(env: Env, dir: set<string>, variable: string, file: string)
    requires OnDisk(env, dir)
    ensures OnDisk(env, dir + {file}) && OnDisk(env[variable := file], dir + {file})
  {}

  lemma FewerFiles(env: Env, dir: set<string>, file: string)
    requires OnDisk(env, dir) && OnlyTui(env) && (file == OLD_TUI || file == OLD_BACKUP)
    ensures OnDisk(env, Without(dir, file))
  {
    assert TUI_FILE[0] == 'c' && OLD_TUI[0] == 't' && OLD_BACKUP[0] == 'o';
  }

  lemma StepIsSafe(s: State, step: Step)
    requires Safe(s) && Enabled(s, step)
    ensures Safe(Apply(s, step))
  {
    hide OnDisk, OnlyTui;
    match step {
      case WriteTui(w) =>
        NoVariables(s.dir);
        if w.Wrote? { MoreFiles(map[], s.dir, TUI_VARIABLE, TUI_FILE); }
      case RemoveOld(file, _) => FewerFiles(s.worker.env, s.dir, file);
      case WriteInstructions(w) =>
        if w.Wrote? { MoreFiles(s.worker.env, s.dir, TUI_VARIABLE, INSTRUCTIONS_FILE); }
      case WriteMain(w) =>
        if w.Wrote? { MoreFiles(s.worker.env, s.dir, MAIN_VARIABLE, MAIN_FILE); }
      case _ =>
    }
  }

  lemma NoVariables(dir: set<string>)
    ensures OnDisk(map[], dir) && OnlyTui(map[]) && OnlyTui(map[TUI_VARIABLE := TUI_FILE])
  {}

  lemma {:induction false} RunIsSafe(s: State, steps: seq<Step>)
    requires Safe(s) && Possible(s, steps)
    ensures Safe(Run(s, steps))
    decreases |steps|
  {
    hide Safe, Apply, Enabled;
    if steps != [] {
      StepIsSafe(s, steps[0]);
      RunIsSafe(Apply(s, steps[0]), steps[1..]);
    }
  }

  // --------------------------------------------------------------- what it promises

  lemma InitialIsSafe(s: State)
    requires Initial(s)
    ensures Safe(s)
  {}

  /** The files the write steps of a run produce. */
  function FilesOf(steps: seq<Step>): set<string> {
    (if WriteTui(Wrote) in steps then {TUI_FILE} else {})
    + (if WriteInstructions(Wrote) in steps then {INSTRUCTIONS_FILE} else {})
    + (if WriteMain(Wrote) in steps then {MAIN_FILE} else {})
  }

  /** The environment that announces the configurations among these files, and nothing else. */
  function Announcing(files: set<string>): Env {
    (if TUI_FILE in files then map[TUI_VARIABLE := TUI_FILE] else map[])
    + (if MAIN_FILE in files then map[MAIN_VARIABLE := MAIN_FILE] else map[])
  }

  /** The worker's environment announces exactly what it has written so far. */
  predicate Announces(s: State) {
    && (s.worker.NotStarted? || s.worker.WritingTui? ==> s.wrote == {})
    && (s.worker.Clearing? || s.worker.WritingInstructions? || s.worker.WritingMain? ==>
          MAIN_FILE !in s.wrote && s.worker.env == Announcing(s.wrote))
    && (s.worker.NotStarted? || Writing(s.worker) ==> s.produced.None?)
    && (s.caller.Spawning? ==> s.worker.NotStarted?)
    && (s.produced.Some? && s.produced.value.Written? ==> s.produced.value.env == Announcing(s.wrote))
  }

  predicate IsWrite(step: Step) { step.WriteTui? || step.RemoveOld? || step.WriteInstructions? || step.WriteMain? }

  lemma AnnouncesStep(s: State, step: Step)
    requires Announces(s) && Enabled(s, step)
    ensures Announces(Apply(s, step))
  {
    hide Announces, Apply, Enabled;
    if IsWrite(step) { AnnouncesWrite(s, step); } else { AnnouncesOther(s, step); }
  }

  lemma AnnouncesWrite(s: State, step: Step)
    requires Announces(s) && Enabled(s, step) && IsWrite(step)
    ensures Announces(Apply(s, step))
  {
    AnnounceMore(s.wrote);
    hide Announcing, Without;
  }

  lemma AnnouncesOther(s: State, step: Step)
    requires Announces(s) && Enabled(s, step) && !IsWrite(step)
    ensures Announces(Apply(s, step))
  {
    hide Announcing, AfterTui, AfterRemoval, AfterInstructions, AfterMain;
  }

  lemma AnnounceMore(files: set<string>)
    ensures MAIN_FILE != TUI_FILE && MAIN_FILE != INSTRUCTIONS_FILE
    ensures Announcing({}) == map[] && Announcing({} + {TUI_FILE}) == map[TUI_VARIABLE := TUI_FILE]
    ensures Announcing(files + {INSTRUCTIONS_FILE}) == Announcing(files)
    ensures MAIN_FILE !in files ==> Announcing(files + {MAIN_FILE}) == Announcing(files)[MAIN_VARIABLE := MAIN_FILE]
  {
    assert TUI_FILE[0] == 'c' && INSTRUCTIONS_FILE[0] == 'i' && MAIN_FILE[0] == 'o';
  }

  lemma WroteStep(s: State, step: Step)
    requires Enabled(s, step)
    ensures Apply(s, step).wrote == s.wrote + FilesOf([step])
  {}

  lemma FilesOfFirst(steps: seq<Step>)
    requires steps != []
    ensures FilesOf(steps) == FilesOf([steps[0]]) + FilesOf(steps[1..])
  {
    assert steps == [steps[0]] + steps[1..];
  }

  lemma {:induction false} WroteExactly(s: State, steps: seq<Step>)
    requires Announces(s) && Possible(s, steps)
    ensures Announces(Run(s, steps)) && Run(s, steps).wrote == s.wrote + FilesOf(steps)
    decreases |steps|
  {
    hide Announces, Apply, Enabled, FilesOf;
    if steps == [] {
      NoFiles();
    } else {
      AnnouncesStep(s, steps[0]);
      WroteStep(s, steps[0]);
      FilesOfFirst(steps);
      WroteExactly(Apply(s, steps[0]), steps[1..]);
    }
  }

  lemma NoFiles()
    ensures FilesOf([]) == {}
  {}

  /**
   With a managed provider, a launch carries the environment the caller received from the worker, and that
   announces exactly the files written: the main configuration if and only if its write produced a file.
   */
  lemma ManagedLaunchExactly(s: State, steps: seq<Step>)
    requires Initial(s) && Possible(s, steps) && s.managed
    ensures var t := Run(s, steps);
            t.caller.Returned? && t.caller.verdict.Launch? ==>
              && t.caller.way == Received && t.produced == Some(Written(t.caller.verdict.env))
              && t.caller.verdict.env == Announcing(FilesOf(steps))
              && (MAIN_VARIABLE in t.caller.verdict.env <==> WriteMain(Wrote) in steps)
              && (t.caller.verdict == Launch(map[]) <==> WriteMain(Wrote) !in steps && WriteTui(Wrote) !in steps)
  {
    hide Apply, Enabled, OnDisk, FilesOf, Announcing;
    InitialIsSafe(s);
    RunIsSafe(s, steps);
    ManagedStays(s, steps);
    WroteExactly(s, steps);
    assert {} + FilesOf(steps) == FilesOf(steps);
    AnnouncedFiles(steps);
  }

  lemma AnnouncedFiles(steps: seq<Step>)
    ensures var env := Announcing(FilesOf(steps));
            && (MAIN_VARIABLE in env <==> WriteMain(Wrote) in steps)
            && (env == map[] <==> WriteMain(Wrote) !in steps && WriteTui(Wrote) !in steps)
  {
    AnnounceMore({});
    assert TUI_FILE[0] == 'c' && INSTRUCTIONS_FILE[0] == 'i';
    assert TUI_VARIABLE[9] == 'T' && MAIN_VARIABLE[9] == 'C';
    var files, env := FilesOf(steps), Announcing(FilesOf(steps));
    assert MAIN_FILE in files <==> WriteMain(Wrote) in steps;
    assert TUI_FILE in files <==> WriteTui(Wrote) in steps;
    assert WriteTui(Wrote) in steps ==> TUI_VARIABLE in env;
  }

  lemma {:induction false} ManagedStays(s: State, steps: seq<Step>)
    requires Possible(s, steps)
    ensures Run(s, steps).managed == s.managed
    decreases |steps|
  {
    if steps != [] { ManagedStays(Apply(s, steps[0]), steps[1..]); }
  }

  /** Without one, the launch always goes ahead, on the native config if need be. */
  lemma UnmanagedAlwaysLaunches(s: State, steps: seq<Step>)
    requires Initial(s) && Possible(s, steps) && !s.managed
    ensures var t := Run(s, steps); t.caller.Returned? ==> t.caller.verdict.Launch?
  {
    hide Apply, Enabled, OnDisk;
    InitialIsSafe(s);
    RunIsSafe(s, steps);
    ManagedStays(s, steps);
  }

  /** The worker deletes the session directory only if the caller took the timeout branch. */
  lemma DeletesOnlyAfterTimeout(s: State, steps: seq<Step>)
    requires Initial(s) && Possible(s, steps)
    ensures var t := Run(s, steps);
            t.deleted ==> t.caller.Returned? && t.caller.way == Timeout
                          && t.caller.verdict == (if t.managed then Refuse(TimedOut) else Launch(map[]))
  {
    hide Apply, Enabled, OnDisk;
    InitialIsSafe(s);
    RunIsSafe(s, steps);
    TimeoutVerdict(s, steps);
  }

  lemma {:induction false} TimeoutVerdict(s: State, steps: seq<Step>)
    requires Possible(s, steps)
    requires s.caller.Returned? && s.caller.way == Timeout ==> s.caller.verdict == Fallback(s, TimedOut)
    ensures var t := Run(s, steps);
            t.caller.Returned? && t.caller.way == Timeout ==> t.caller.verdict == Fallback(t, TimedOut)
    decreases |steps|
  {
    if steps != [] { TimeoutVerdict(Apply(s, steps[0]), steps[1..]); }
  }

  /** Every file named by a returned environment exists when the call returns and in every later state. */
  lemma ReturnedFilesStay(s: State, steps: seq<Step>)
    requires Initial(s) && Possible(s, steps)
    ensures var t := Run(s, steps);
            t.caller.Returned? && t.caller.verdict.Launch? ==> OnDisk(t.caller.verdict.env, t.dir)
  {
    hide Apply, Enabled, OnDisk;
    InitialIsSafe(s);
    RunIsSafe(s, steps);
    NoVariables(Run(s, steps).dir);
  }

  // ------------------------------------------------------------------- termination

  function CallerRank(c: Caller): nat {
    match c
    case Spawning => 10
    case Waiting => 2
    case Cancelling => 1
    case Returned(_, _) => 0
  }

  function WorkerRank(w: Worker): nat {
    match w
    case NotStarted => 0
    case WritingTui => 7
    case Clearing(_, file) => if file == OLD_TUI then 6 else 5
    case WritingInstructions(_) => 4
    case WritingMain(_, _) => 3
    case Done(_) => 2
    case Sending(_) => 1
    case Deleting => 1
    case Finished => 0
    case Panicked => 0
  }

  /** Every interleaving is finite: at most ten steps. */
  lemma {:induction false} AtMostTenSteps(s: State, steps: seq<Step>)
    requires Possible(s, steps) && (s.caller.Spawning? ==> s.worker.NotStarted?)
    ensures |steps| <= CallerRank(s.caller) + WorkerRank(s.worker)
    decreases |steps|
  {
    hide Apply, Enabled, CallerRank, WorkerRank;
    if steps != [] {
      StepDescends(s, steps[0]);
      AtMostTenSteps(Apply(s, steps[0]), steps[1..]);
    }
  }

  lemma StepDescends(s: State, step: Step)
    requires Enabled(s, step) && (s.caller.Spawning? ==> s.worker.NotStarted?)
    ensures var t := Apply(s, step);
            && CallerRank(t.caller) + WorkerRank(t.worker) < CallerRank(s.caller) + WorkerRank(s.worker)
            && (t.caller.Spawning? ==> t.worker.NotStarted?)
  {}

  /** The caller is never stuck: until it has returned, one of its own steps can be taken. */
  lemma CallerNeverStuck(s: State)
    requires Safe(s) && !s.caller.Returned?
    ensures exists step :: Enabled(s, step) && (step.Spawn? || step.Receive? || step.Expire? || step.StoreFlag?)
  {
    hide OnDisk, Safe;
    assert s.caller.Spawning? ==> Enabled(s, Spawn);
    assert s.caller.Cancelling? ==> Enabled(s, StoreFlag);
    assert s.caller.Waiting? ==> Enabled(s, Receive) || Enabled(s, Expire);
  }
}
