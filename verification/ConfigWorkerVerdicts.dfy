/** Why a call of the bounded config write returned what it did, said of the steps of the run. */
module ConfigWorkerVerdicts {
  import opened JsonValues
  import opened ConfigWorker

  // -------------------------------------------------------------------- which way

  /** The step by which a call returns on each way. */
  function ReturnStep(way: Way): Step {
    match way
    case NotSpawned => SpawnFails
    case Received => Receive
    case Timeout => StoreFlag
    case Disconnected => SeeDisconnected
  }

  predicate CameBy(s: State, way: Way) { s.caller.Returned? && s.caller.way == way }

  lemma WayStep(s: State, step: Step, way: Way)
    requires Enabled(s, step)
    ensures CameBy(Apply(s, step), way) <==> CameBy(s, way) || step == ReturnStep(way)
    ensures Apply(s, step).managed == s.managed
  {}

  lemma {:induction false} WayFrom(s: State, steps: seq<Step>, way: Way)
    requires Possible(s, steps)
    ensures CameBy(Run(s, steps), way) <==> CameBy(s, way) || ReturnStep(way) in steps
    ensures Run(s, steps).managed == s.managed
    decreases |steps|
  {
    hide Apply, Enabled, CameBy, ReturnStep;
    if steps != [] {
      WayStep(s, steps[0], way);
      WayFrom(Apply(s, steps[0]), steps[1..], way);
      assert steps == [steps[0]] + steps[1..];
    }
  }

  // ------------------------------------------------------------------- which verdict

  /** The verdict is the one due for the way, and a worker that left no result has panicked. */
  predicate Due(s: State) {
    && (s.caller.Waiting? || s.caller.Cancelling? ==> !s.worker.NotStarted?)
    && (s.caller.Waiting? && s.worker.Finished? ==> s.mailbox.Some?)
    && (s.caller.Returned? ==>
          match s.caller.way
          case NotSpawned => s.caller.verdict == (if s.managed then Refuse(CouldNotStart) else Launch(map[]))
          case Timeout => s.caller.verdict == (if s.managed then Refuse(TimedOut) else Launch(map[]))
          case Disconnected => s.caller.verdict == (if s.managed then Refuse(WorkerStopped) else Launch(map[])) && s.worker.Panicked?
          case Received =>
            && s.produced.Some? && s.worker.Finished?
            && s.caller.verdict == (match s.produced.value
                                    case Written(env) => Launch(env)
                                    case WriteError => (if s.managed then Refuse(CouldNotWrite) else Launch(map[]))))
  }

  lemma DueStep(s: State, step: Step)
    requires Safe(s) && Due(s) && Enabled(s, step)
    ensures Due(Apply(s, step))
  {
    hide OnDisk, OnlyTui, Extended, Without, Among;
  }

  lemma {:induction false} DueFrom(s: State, steps: seq<Step>)
    requires Safe(s) && Due(s) && Possible(s, steps)
    ensures Due(Run(s, steps))
    decreases |steps|
  {
    hide Apply, Enabled, Safe, Due;
    if steps != [] {
      StepIsSafe(s, steps[0]);
      DueStep(s, steps[0]);
      DueFrom(Apply(s, steps[0]), steps[1..]);
    }
  }

  // -------------------------------------------------------------------- which result

  /** A write failed, or an old file that is there could not be removed. */
  predicate IsError(step: Step) {
    step == WriteTui(Error) || step == WriteInstructions(Error) || step == WriteMain(Error) || (step.RemoveOld? && !step.ok)
  }

  lemma ResultStep(s: State, step: Step)
    requires Announces(s) && Enabled(s, step)
    ensures var t := Apply(s, step);
            && (t.produced == Some(WriteError) <==> s.produced == Some(WriteError) || IsError(step))
            && (t.produced.Some? <==> s.produced.Some? || IsError(step) || step.WriteMain?)
  {
    hide Announcing, Extended, Without, Among;
  }

  lemma {:induction false} ResultFrom(s: State, steps: seq<Step>)
    requires Announces(s) && Possible(s, steps)
    ensures var t := Run(s, steps);
            && (t.produced == Some(WriteError) <==> s.produced == Some(WriteError) || exists step :: step in steps && IsError(step))
            && (t.produced.Some? <==>
                  s.produced.Some? || exists step :: step in steps && (IsError(step) || step.WriteMain?))
    decreases |steps|
  {
    hide Apply, Enabled, Announces, IsError;
    if steps != [] {
      AnnouncesStep(s, steps[0]);
      ResultStep(s, steps[0]);
      ResultFrom(Apply(s, steps[0]), steps[1..]);
      assert steps == [steps[0]] + steps[1..];
      assert steps[0] in steps;
    }
  }

  /** In every run: the worker's result is an error if and only if one of its writes or removals failed. */
  lemma ErrorExactly(s: State, steps: seq<Step>)
    requires Initial(s) && Possible(s, steps)
    ensures var t := Run(s, steps);
            && (t.produced == Some(WriteError) <==>
                  || WriteTui(Error) in steps || WriteInstructions(Error) in steps || WriteMain(Error) in steps
                  || exists file :: RemoveOld(file, false) in steps)
            && (t.produced.Some? && t.produced.value.Written? ==> WriteMain(Wrote) in steps || WriteMain(Nothing) in steps)
  {
    hide Apply, Enabled, Announces;
    assert Announces(s) by { StartAnnounces(s); }
    ResultFrom(s, steps);
    var t := Run(s, steps);
    if step :| step in steps && IsError(step) {
      if step.RemoveOld? { assert RemoveOld(step.file, false) in steps; }
    }
    if file :| RemoveOld(file, false) in steps { assert IsError(RemoveOld(file, false)); }
    assert IsError(WriteTui(Error)) && IsError(WriteInstructions(Error)) && IsError(WriteMain(Error));
    if t.produced.Some? && t.produced.value.Written? {
      var step :| step in steps && (IsError(step) || step.WriteMain?);
      assert !IsError(step);
      assert step == WriteMain(step.w) && step.w != Error;
    }
  }

  lemma StartAnnounces(s: State)
    requires Initial(s)
    ensures Announces(s)
  {}

  /**
   In every run, managed or not, the verdict follows from the step the call returned by: the worker could not be
   started, the deadline passed, the worker panicked, or its result was received; and the call has returned if and only if
   one of these steps was taken.
   */
  lemma VerdictExactly(s: State, steps: seq<Step>)
    requires Initial(s) && Possible(s, steps)
    ensures var t := Run(s, steps); var native: Verdict := Launch(map[]);
            && (t.caller.Returned? <==>
                  SpawnFails in steps || StoreFlag in steps || SeeDisconnected in steps || Receive in steps)
            && (SpawnFails in steps ==> t.caller.verdict == if s.managed then Refuse(CouldNotStart) else native)
            && (StoreFlag in steps ==> t.caller.verdict == if s.managed then Refuse(TimedOut) else native)
            && (SeeDisconnected in steps ==>
                  t.worker.Panicked? && t.caller.verdict == if s.managed then Refuse(WorkerStopped) else native)
            && (Receive in steps ==>
                  && t.produced.Some?
                  && t.caller.verdict == match t.produced.value
                                         case Written(env) => Launch(env)
                                         case WriteError => if s.managed then Refuse(CouldNotWrite) else native)
  {
    hide Apply, Enabled, Safe;
    InitialIsSafe(s);
    DueFrom(s, steps);
    WayFrom(s, steps, NotSpawned);
    WayFrom(s, steps, Received);
    WayFrom(s, steps, Timeout);
    WayFrom(s, steps, Disconnected);
  }

  /** In every run, the environment the worker hands over names the two configurations that it wrote, where it wrote them. */
  lemma EnvironmentExactly(s: State, steps: seq<Step>, variable: string)
    requires Initial(s) && Possible(s, steps)
    ensures var t := Run(s, steps);
            t.produced.Some? && t.produced.value.Written? ==>
              var env := t.produced.value.env;
              && (variable in env <==>
                    || (variable == "OPENCODE_CONFIG" && WriteMain(Wrote) in steps)
                    || (variable == "OPENCODE_TUI_CONFIG" && WriteTui(Wrote) in steps))
              && (variable in env ==>
                    env[variable] == if variable == "OPENCODE_CONFIG" then "opencode.json" else "ccpanes-tui.json")
  {
    hide *;
    StartAnnounces(s);
    NothingWritten(s);
    WroteExactly(s, steps);
    assert {} + FilesOf(steps) == FilesOf(steps);
    AnnouncedEnv(Run(s, steps));
    AnnouncingReads(steps, variable);
  }

  lemma NothingWritten(s: State)
    requires Initial(s)
    ensures s.wrote == {}
  {}

  lemma AnnouncedEnv(s: State)
    requires Announces(s)
    ensures s.produced.Some? && s.produced.value.Written? ==> s.produced.value.env == Announcing(s.wrote)
  {
    hide Announcing;
  }

  lemma AnnouncingReads(steps: seq<Step>, variable: string)
    ensures var env := Announcing(FilesOf(steps));
            && (variable in env <==>
                  || (variable == "OPENCODE_CONFIG" && WriteMain(Wrote) in steps)
                  || (variable == "OPENCODE_TUI_CONFIG" && WriteTui(Wrote) in steps))
            && (variable in env ==>
                  env[variable] == if variable == "OPENCODE_CONFIG" then "opencode.json" else "ccpanes-tui.json")
  {
    var files := FilesOf(steps);
    assert TUI_FILE[0] == 'c' && INSTRUCTIONS_FILE[0] == 'i' && MAIN_FILE[0] == 'o';
    assert TUI_VARIABLE[9] == 'T' && MAIN_VARIABLE[9] == 'C';
    assert MAIN_FILE in files <==> WriteMain(Wrote) in steps;
    assert TUI_FILE in files <==> WriteTui(Wrote) in steps;
    hide FilesOf;
  }
}
