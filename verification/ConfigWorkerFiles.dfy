/** What a run of the bounded config write leaves in the session directory, and runs that show how. */
module ConfigWorkerFiles {
  import opened JsonValues
  import opened ConfigWorker

  // -------------------------------------------------------------- looking at the flag

  /** The worker looked at the flag after the caller had set it. */
  ghost predicate LoadsAfterStore(steps: seq<Step>) {
    exists i, j :: 0 <= i < j < |steps| && steps[i] == StoreFlag && steps[j] == LoadFlag
  }

  /** The same, looking forward: `up` says whether the flag is set already. */
  predicate SeesFlag(steps: seq<Step>, up: bool)
    decreases |steps|
  {
    steps != [] && ((up && steps[0].LoadFlag?) || SeesFlag(steps[1..], up || steps[0].StoreFlag?))
  }

  lemma {:induction false} SeesFlagMeans(steps: seq<Step>, up: bool)
    ensures SeesFlag(steps, up) <==> (up && LoadFlag in steps) || LoadsAfterStore(steps)
    decreases |steps|
  {
    hide LoadsAfterStore;
    if steps == [] {
      NoLoads();
    } else {
      SeesFlagMeans(steps[1..], up || steps[0].StoreFlag?);
      LoadsFirst(steps);
      assert steps == [steps[0]] + steps[1..];
    }
  }

  lemma NoLoads()
    ensures !LoadsAfterStore([])
  {}

  lemma LoadsFirst(steps: seq<Step>)
    requires steps != []
    ensures LoadsAfterStore(steps) <==> (steps[0].StoreFlag? && LoadFlag in steps[1..]) || LoadsAfterStore(steps[1..])
  {
    var rest := steps[1..];
    if LoadsAfterStore(rest) {
      var i, j :| 0 <= i < j < |rest| && rest[i] == StoreFlag && rest[j] == LoadFlag;
      assert steps[i + 1] == StoreFlag && steps[j + 1] == LoadFlag;
    }
    if steps[0].StoreFlag? && LoadFlag in rest {
      var j :| 0 <= j < |rest| && rest[j] == LoadFlag;
      assert steps[0] == StoreFlag && steps[j + 1] == LoadFlag;
    }
    if LoadsAfterStore(steps) {
      var i, j :| 0 <= i < j < |steps| && steps[i] == StoreFlag && steps[j] == LoadFlag;
      assert rest[j - 1] == LoadFlag && (i > 0 ==> rest[i - 1] == StoreFlag);
    }
  }

  // ------------------------------------------------------------------ the directory

  /** The old files that removal steps take away. */
  function Removed(steps: seq<Step>): set<string> {
    (if RemoveOld(OLD_TUI, true) in steps then {OLD_TUI} else {})
    + (if RemoveOld(OLD_BACKUP, true) in steps then {OLD_BACKUP} else {})
  }

  /** What the writing leaves: what was there, without the old files it removes, and the files it writes. */
  function Kept(dir: set<string>, steps: seq<Step>): set<string> {
    (set f | f in dir && f !in Removed(steps)) + FilesOf(steps)
  }

  /** What the removal of the whole directory does not get rid of. */
  function Left(steps: seq<Step>): set<string>
    decreases |steps|
  {
    if steps == [] then {} else if steps[0].DeleteDir? then steps[0].left else Left(steps[1..])
  }

  lemma Names()
    ensures OLD_TUI != OLD_BACKUP && {OLD_TUI, OLD_BACKUP} !! {TUI_FILE, INSTRUCTIONS_FILE, MAIN_FILE}
  {
    assert OLD_TUI[0] == 't' && OLD_BACKUP[0] == 'o' && TUI_FILE[0] == 'c' && INSTRUCTIONS_FILE[0] == 'i';
    assert |OLD_BACKUP| != |MAIN_FILE|;
    assert OLD_TUI[0] != MAIN_FILE[0];
  }

  lemma KeptFirst(dir: set<string>, steps: seq<Step>)
    requires steps != []
    ensures Kept(dir, steps) == Kept(Kept(dir, [steps[0]]), steps[1..])
  {
    hide FilesOf, Removed;
    Names();
    FilesOfFirst(steps);
    RemovedFirst(steps);
    NewFilesOnly([steps[0]]);
    OldFilesOnly(steps[1..]);
    var once := Kept(dir, [steps[0]]);
    forall f ensures f in Kept(dir, steps) <==> f in Kept(once, steps[1..]) {}
  }

  lemma RemovedFirst(steps: seq<Step>)
    requires steps != []
    ensures Removed(steps) == Removed([steps[0]]) + Removed(steps[1..])
  {
    assert steps == [steps[0]] + steps[1..];
  }

  lemma NewFilesOnly(steps: seq<Step>)
    ensures FilesOf(steps) <= {TUI_FILE, INSTRUCTIONS_FILE, MAIN_FILE}
  {}

  lemma OldFilesOnly(steps: seq<Step>)
    ensures Removed(steps) <= {OLD_TUI, OLD_BACKUP}
  {}

  lemma NothingKept(dir: set<string>)
    ensures Kept(dir, []) == dir
  {
    NoFiles();
    assert Removed([]) == {};
  }

  predicate Cleans(s: State) { s.deleted || s.worker.Deleting? }

  /** The worker that removed the directory has ended, and one that has ended does nothing more. */
  predicate Settled(s: State) {
    && (s.deleted ==> s.worker.Finished?) && (s.caller.Spawning? ==> s.worker.NotStarted?)
    && (s.worker.Clearing? ==> s.worker.file == OLD_TUI || s.worker.file == OLD_BACKUP)
  }

  lemma SettledStep(s: State, step: Step)
    requires Settled(s) && Enabled(s, step)
    ensures var t := Apply(s, step);
            && Settled(t) && (t.cancelled <==> s.cancelled || step.StoreFlag?)
            && (Cleans(t) <==> Cleans(s) || (s.cancelled && step.LoadFlag?))
            && (t.deleted <==> s.deleted || step.DeleteDir?)
  {
    hide Without, Among;
  }

  /** What one step does to the directory. */
  lemma DirStep(s: State, step: Step)
    requires Settled(s) && Enabled(s, step)
    ensures Apply(s, step).dir == if step.DeleteDir? then Among(s.dir, step.left) else Kept(s.dir, [step])
  {
    Names();
  }

  /** A worker that has ended writes and removes nothing more. */
  lemma {:induction false} NoMoreWork(s: State, steps: seq<Step>)
    requires Settled(s) && s.worker.Finished? && Possible(s, steps)
    ensures FilesOf(steps) == {} && Removed(steps) == {} && Run(s, steps).dir == s.dir
    decreases |steps|
  {
    hide Settled, FilesOf, Removed, Apply, Enabled, IsWrite;
    if steps == [] {
      NothingKept({});
      NoneOf([]);
    } else {
      SettledStep(s, steps[0]);
      FinishedStays(s, steps[0]);
      NoneOf([steps[0]]);
      FilesOfFirst(steps);
      RemovedFirst(steps);
      NoMoreWork(Apply(s, steps[0]), steps[1..]);
    }
  }

  lemma FinishedStays(s: State, step: Step)
    requires Settled(s) && s.worker.Finished? && Enabled(s, step)
    ensures !IsWrite(step) && Apply(s, step).worker.Finished? && Apply(s, step).dir == s.dir
  {}

  lemma NoneOf(steps: seq<Step>)
    requires forall step :: step in steps ==> !IsWrite(step)
    ensures FilesOf(steps) == {} && Removed(steps) == {}
  {}

  lemma {:induction false} LeavesExactly(s: State, steps: seq<Step>)
    requires Settled(s) && !s.deleted && Possible(s, steps)
    ensures var t := Run(s, steps);
            t.dir == if t.deleted then Among(Kept(s.dir, steps), Left(steps)) else Kept(s.dir, steps)
    decreases |steps|
  {
    hide Settled, Apply, Enabled, FilesOf, Kept, Among, Removed, IsWrite;
    if steps == [] {
      NothingKept(s.dir);
    } else {
      var first, rest := Apply(s, steps[0]), steps[1..];
      SettledStep(s, steps[0]);
      DirStep(s, steps[0]);
      KeptFirst(s.dir, steps);
      if steps[0].DeleteDir? {
        DeletedEnds(s, steps[0]);
        NoMoreWork(first, rest);
        DeletedStays(first, rest);
        NothingMore(s.dir, steps);
      } else {
        LeavesExactly(first, rest);
      }
    }
  }

  lemma DeletedEnds(s: State, step: Step)
    requires Enabled(s, step) && step.DeleteDir?
    ensures Apply(s, step).worker.Finished? && !IsWrite(step)
  {}

  lemma NothingMore(dir: set<string>, steps: seq<Step>)
    requires steps != [] && steps[0].DeleteDir? && FilesOf(steps[1..]) == {} && Removed(steps[1..]) == {}
    ensures Kept(dir, steps) == dir
  {
    NoneOf([steps[0]]);
    FilesOfFirst(steps);
    RemovedFirst(steps);
    hide FilesOf, Removed;
  }

  lemma {:induction false} DeletedStays(s: State, steps: seq<Step>)
    requires Settled(s) && s.deleted && Possible(s, steps)
    ensures Run(s, steps).deleted
    decreases |steps|
  {
    hide Settled, Apply, Enabled;
    if steps != [] {
      SettledStep(s, steps[0]);
      DeletedStays(Apply(s, steps[0]), steps[1..]);
    }
  }

  lemma {:induction false} CleansExactly(s: State, steps: seq<Step>)
    requires Settled(s) && Possible(s, steps)
    ensures Cleans(Run(s, steps)) <==> Cleans(s) || SeesFlag(steps, s.cancelled)
    decreases |steps|
  {
    hide Settled, Cleans, Apply, Enabled;
    if steps != [] {
      SettledStep(s, steps[0]);
      CleansExactly(Apply(s, steps[0]), steps[1..]);
    }
  }

  /**
   In every run, once the worker has stopped: it has removed the session directory if and only if it looked at the
   flag after the caller had set it, and then only what this removal failed to take is left. Otherwise the directory
   holds what it held before, without the old files that were removed, and exactly the files written.
   */
  lemma TimeoutLeavesExactly(s: State, steps: seq<Step>)
    requires Initial(s) && Possible(s, steps)
    requires Run(s, steps).worker.Finished? || Run(s, steps).worker.Panicked?
    ensures var t := Run(s, steps);
            && (t.deleted <==> LoadsAfterStore(steps))
            && t.dir == if LoadsAfterStore(steps) then Among(Kept(s.dir, steps), Left(steps)) else Kept(s.dir, steps)
  {
    hide Apply, Enabled, FilesOf, Kept, Among;
    CleansExactly(s, steps);
    LeavesExactly(s, steps);
    SeesFlagMeans(steps, false);
  }

  lemma {:induction false} NoMoreDelete(s: State, steps: seq<Step>, left: set<string>)
    requires Settled(s) && s.worker.Finished? && Possible(s, steps)
    ensures DeleteDir(left) !in steps
    decreases |steps|
  {
    hide Settled, Apply, IsWrite;
    if steps != [] {
      SettledStep(s, steps[0]);
      FinishedStays(s, steps[0]);
      NoMoreDelete(Apply(s, steps[0]), steps[1..], left);
      assert steps == [steps[0]] + steps[1..];
    }
  }

  /** The directory is removed at most once. */
  lemma {:induction false} DeletedOnce(s: State, steps: seq<Step>, left: set<string>)
    requires Settled(s) && Possible(s, steps) && DeleteDir(left) in steps
    ensures Left(steps) == left
    decreases |steps|
  {
    hide Settled, Apply, Enabled;
    assert steps == [steps[0]] + steps[1..];
    SettledStep(s, steps[0]);
    if steps[0].DeleteDir? {
      DeletedEnds(s, steps[0]);
      if steps[0] != DeleteDir(left) { NoMoreDelete(Apply(s, steps[0]), steps[1..], left); }
    } else {
      DeletedOnce(Apply(s, steps[0]), steps[1..], left);
    }
  }

  lemma KeptExactly(dir: set<string>, steps: seq<Step>, file: string)
    ensures file in Kept(dir, steps) <==>
              || (file == "ccpanes-tui.json" && WriteTui(Wrote) in steps)
              || (file == "instructions.md" && WriteInstructions(Wrote) in steps)
              || (file == "opencode.json" && WriteMain(Wrote) in steps)
              || (&& file in dir
                  && !(file == "tui.json" && RemoveOld("tui.json", true) in steps)
                  && !(file == "opencode.json.tui-migration.bak"
                       && RemoveOld("opencode.json.tui-migration.bak", true) in steps))
  {}

  /**
   The same file by file, once the worker has stopped: a file is there exactly when it was written, or was there and
   was not one of the old files removed; and, if the directory was removed, when that removal failed on it.
   */
  lemma FileLeftExactly(s: State, steps: seq<Step>, file: string)
    requires Initial(s) && Possible(s, steps)
    requires Run(s, steps).worker.Finished? || Run(s, steps).worker.Panicked?
    ensures file in Run(s, steps).dir <==>
              && (forall left :: DeleteDir(left) in steps ==> file in left)
              && (|| (file == "ccpanes-tui.json" && WriteTui(Wrote) in steps)
                  || (file == "instructions.md" && WriteInstructions(Wrote) in steps)
                  || (file == "opencode.json" && WriteMain(Wrote) in steps)
                  || (&& file in s.dir
                      && !(file == "tui.json" && RemoveOld("tui.json", true) in steps)
                      && !(file == "opencode.json.tui-migration.bak"
                           && RemoveOld("opencode.json.tui-migration.bak", true) in steps)))
  {
    hide *;
    StartSettled(s);
    LeavesExactly(s, steps);
    KeptExactly(s.dir, steps, file);
    DeletedByStep(s, steps);
    AmongMeans(Kept(s.dir, steps), Left(steps), file);
    forall left | DeleteDir(left) in steps ensures Left(steps) == left { DeletedOnce(s, steps, left); }
  }

  lemma StartSettled(s: State)
    requires Initial(s)
    ensures Settled(s) && !s.deleted
  {}

  lemma AmongMeans(dir: set<string>, left: set<string>, file: string)
    ensures file in Among(dir, left) <==> file in dir && file in left
  {}

  /** The directory has been removed exactly when a step of the run did so. */
  lemma {:induction false} DeletedByStep(s: State, steps: seq<Step>)
    requires Settled(s) && Possible(s, steps)
    ensures Run(s, steps).deleted <==> s.deleted || exists left :: DeleteDir(left) in steps
    decreases |steps|
  {
    hide Settled, Apply, Enabled;
    if steps != [] {
      SettledStep(s, steps[0]);
      DeletedByStep(Apply(s, steps[0]), steps[1..]);
      assert steps == [steps[0]] + steps[1..];
      if steps[0].DeleteDir? { assert DeleteDir(steps[0].left) in steps; }
    }
  }

  // ------------------------------------------------------------------------- relaunch

  /** How far the old files are gone. */
  predicate OldGone(s: State) {
    && (s.worker.Clearing? ==> s.worker.file == OLD_TUI || (s.worker.file == OLD_BACKUP && OLD_TUI !in s.dir))
    && (s.worker.WritingInstructions? || s.worker.WritingMain? ==> OLD_TUI !in s.dir && OLD_BACKUP !in s.dir)
    && (s.produced.Some? && s.produced.value.Written? ==> OLD_TUI !in s.dir && OLD_BACKUP !in s.dir)
    && (s.worker.NotStarted? || Writing(s.worker) ==> s.produced.None?)
    && (s.caller.Spawning? ==> s.worker.NotStarted?)
  }

  lemma OldGoneStep(s: State, step: Step)
    requires OldGone(s) && Enabled(s, step)
    ensures OldGone(Apply(s, step))
  {
    Names();
  }

  /** Whatever an earlier launch left: when the worker succeeds, neither of the old files is there. */
  lemma SuccessClearsOld(s: State, steps: seq<Step>)
    requires Initial(s) && Possible(s, steps)
    ensures var t := Run(s, steps);
            t.produced.Some? && t.produced.value.Written? ==> OLD_TUI !in t.dir && OLD_BACKUP !in t.dir
  {
    hide Possible, Run;
    OldGoneFrom(s, steps);
  }

  lemma {:induction false} OldGoneFrom(s: State, steps: seq<Step>)
    requires OldGone(s) && Possible(s, steps)
    ensures var t := Run(s, steps);
            t.produced.Some? && t.produced.value.Written? ==> OLD_TUI !in t.dir && OLD_BACKUP !in t.dir
    decreases |steps|
  {
    hide Apply, Enabled;
    if steps != [] {
      OldGoneStep(s, steps[0]);
      hide OldGone;
      OldGoneFrom(Apply(s, steps[0]), steps[1..]);
    }
  }

  /** A relaunch over the files of an earlier one: both configurations anew, the old files gone, the rest as it was. */
  lemma RelaunchClearsOld(other: string)
    requires other !in {TUI_FILE, INSTRUCTIONS_FILE, MAIN_FILE, OLD_TUI, OLD_BACKUP}
    ensures var s := Fresh(true, {TUI_FILE, MAIN_FILE, OLD_TUI, OLD_BACKUP, other});
            var steps := WritingSteps(Wrote, Wrote) + [LoadFlag, Send, Receive];
            && Possible(s, steps) && Run(s, steps).dir == {TUI_FILE, MAIN_FILE, other}
            && Run(s, steps).caller == Returned(Launch(Announcing({TUI_FILE, MAIN_FILE})), Received)
  {
    hide Possible, Run, Announcing, WritingSteps;
    Names();
    var dir := {TUI_FILE, MAIN_FILE, OLD_TUI, OLD_BACKUP, other};
    WorkerWrites(true, dir, Wrote, Wrote);
    var mid := Run(Fresh(true, dir), WritingSteps(Wrote, Wrote));
    ResultIsReceived(mid, mid.worker.result.env);
    RunOver(Fresh(true, dir), WritingSteps(Wrote, Wrote), [LoadFlag, Send, Receive]);
    assert Files(Wrote, Wrote) == {TUI_FILE, MAIN_FILE};
    assert mid.dir == {TUI_FILE, MAIN_FILE, other};
  }

  // ---------------------------------------------------------------------------- runs

  function Fresh(managed: bool, dir: set<string>): State {
    State(managed, Spawning, NotStarted, false, None, dir, {}, None, false)
  }

  lemma {:induction false} RunOver(s: State, a: seq<Step>, b: seq<Step>)
    requires Possible(s, a) && Possible(Run(s, a), b)
    ensures Possible(s, a + b) && Run(s, a + b) == Run(Run(s, a), b)
    decreases |a|
  {
    hide Apply, Enabled;
    if a == [] {
      assert a + b == b;
    } else {
      assert (a + b)[1..] == a[1..] + b;
      RunOver(Apply(s, a[0]), a[1..], b);
    }
  }

  /** The worker's part up to its result, without instructions and without an error. */
  function WritingSteps(tui: FileWrite, main: FileWrite): seq<Step> {
    [Spawn, WriteTui(tui), RemoveOld(OLD_TUI, true), RemoveOld(OLD_BACKUP, true), WriteInstructions(Nothing), WriteMain(main)]
  }

  function Files(tui: FileWrite, main: FileWrite): set<string> {
    (if tui.Wrote? then {TUI_FILE} else {}) + (if main.Wrote? then {MAIN_FILE} else {})
  }

  lemma WorkerWrites(managed: bool, dir: set<string>, tui: FileWrite, main: FileWrite)
    requires !tui.Error? && !main.Error?
    ensures var s, steps := Fresh(managed, dir), WritingSteps(tui, main);
            && Possible(s, steps)
            && var t := Run(s, steps);
               && t.managed == managed && t.caller.Waiting? && !t.cancelled && t.mailbox.None? && !t.deleted
               && t.worker == Done(Written(Announcing(Files(tui, main))))
               && t.dir == (set f | f in dir && f != OLD_TUI && f != OLD_BACKUP) + Files(tui, main)
  {
    hide *;
    var s := Fresh(managed, dir);
    var start, end := [Spawn, WriteTui(tui), RemoveOld(OLD_TUI, true), RemoveOld(OLD_BACKUP, true)],
                      [WriteInstructions(Nothing), WriteMain(main)];
    WorkerStarts(managed, dir, tui);
    WorkerEnds(Run(s, start), main);
    RunOver(s, start, end);
    FilesAnnounced(tui, main);
    StepsJoined(tui, main);
    WrittenDir(dir, tui, main);
  }

  lemma StepsJoined(tui: FileWrite, main: FileWrite)
    ensures [Spawn, WriteTui(tui), RemoveOld(OLD_TUI, true), RemoveOld(OLD_BACKUP, true)]
            + [WriteInstructions(Nothing), WriteMain(main)] == WritingSteps(tui, main)
  {}

  function TuiFile(tui: FileWrite): set<string> { if tui.Wrote? then {TUI_FILE} else {} }

  function MainFile(main: FileWrite): set<string> { if main.Wrote? then {MAIN_FILE} else {} }

  lemma FilesAnnounced(tui: FileWrite, main: FileWrite)
    ensures Extended(Announcing(TuiFile(tui)), main, MAIN_VARIABLE, MAIN_FILE) == Announcing(Files(tui, main))
  {
    AnnounceMore(TuiFile(tui));
    assert TuiFile(tui) + MainFile(main) == Files(tui, main);
    hide Announcing;
  }

  lemma WrittenDir(dir: set<string>, tui: FileWrite, main: FileWrite)
    ensures Without(Without(dir + TuiFile(tui), OLD_TUI), OLD_BACKUP) + MainFile(main)
            == (set f | f in dir && f != OLD_TUI && f != OLD_BACKUP) + Files(tui, main)
  {
    Names();
  }

  lemma WorkerStarts(managed: bool, dir: set<string>, tui: FileWrite)
    requires !tui.Error?
    ensures var s, steps := Fresh(managed, dir), [Spawn, WriteTui(tui), RemoveOld(OLD_TUI, true), RemoveOld(OLD_BACKUP, true)];
            && Possible(s, steps)
            && var t := Run(s, steps);
               && t.managed == managed && t.caller.Waiting? && !t.cancelled && t.mailbox.None? && !t.deleted
               && t.worker == WritingInstructions(Announcing(TuiFile(tui)))
               && t.dir == Without(Without(dir + TuiFile(tui), OLD_TUI), OLD_BACKUP)
  {
    hide Possible, Run, Without;
    Names();
    var s := Fresh(managed, dir);
    var s1 := Apply(s, Spawn);
    var s2 := Apply(s1, WriteTui(tui));
    var s3 := Apply(s2, RemoveOld(OLD_TUI, true));
    var s4 := Apply(s3, RemoveOld(OLD_BACKUP, true));
    AnnounceMore({});
    assert dir + {} == dir;
    RunNil(s4);
    RunCons(s3, RemoveOld(OLD_BACKUP, true), []);
    RunCons(s2, RemoveOld(OLD_TUI, true), [RemoveOld(OLD_BACKUP, true)] + []);
    RunCons(s1, WriteTui(tui), [RemoveOld(OLD_TUI, true)] + ([RemoveOld(OLD_BACKUP, true)] + []));
    RunCons(s, Spawn, [WriteTui(tui)] + ([RemoveOld(OLD_TUI, true)] + ([RemoveOld(OLD_BACKUP, true)] + [])));
    assert [Spawn] + ([WriteTui(tui)] + ([RemoveOld(OLD_TUI, true)] + ([RemoveOld(OLD_BACKUP, true)] + [])))
        == [Spawn, WriteTui(tui), RemoveOld(OLD_TUI, true), RemoveOld(OLD_BACKUP, true)];
    hide Announcing, Apply, Enabled;
  }

  lemma WorkerEnds(s: State, main: FileWrite)
    requires s.worker.WritingInstructions? && !main.Error?
    ensures var steps := [WriteInstructions(Nothing), WriteMain(main)];
            && Possible(s, steps)
            && var t := Run(s, steps);
               && t.managed == s.managed && t.caller == s.caller && t.cancelled == s.cancelled && t.mailbox == s.mailbox
               && t.deleted == s.deleted && t.dir == s.dir + MainFile(main)
               && t.worker == Done(Written(Extended(s.worker.env, main, MAIN_VARIABLE, MAIN_FILE)))
  {
    hide Possible, Run;
    var s1 := Apply(s, WriteInstructions(Nothing));
    var s2 := Apply(s1, WriteMain(main));
    assert s.dir + {} == s.dir;
    RunNil(s2);
    RunCons(s1, WriteMain(main), []);
    RunCons(s, WriteInstructions(Nothing), [WriteMain(main)] + []);
    assert [WriteInstructions(Nothing)] + ([WriteMain(main)] + []) == [WriteInstructions(Nothing), WriteMain(main)];
  }

  /** A managed provider does launch on the native configuration when there is nothing to write. */
  lemma ManagedCanLaunchNative(dir: set<string>)
    ensures var s, steps := Fresh(true, dir), WritingSteps(Nothing, Nothing) + [LoadFlag, Send, Receive];
            Initial(s) && Possible(s, steps) && Run(s, steps).caller == Returned(Launch(map[]), Received)
  {
    hide Possible, Run, WritingSteps;
    WorkerWrites(true, dir, Nothing, Nothing);
    var mid := Run(Fresh(true, dir), WritingSteps(Nothing, Nothing));
    AnnounceMore({});
    ResultIsReceived(mid, map[]);
    RunOver(Fresh(true, dir), WritingSteps(Nothing, Nothing), [LoadFlag, Send, Receive]);
  }

  lemma ResultIsReceived(s: State, env: Env)
    requires s.caller.Waiting? && s.worker == Done(Written(env)) && !s.cancelled && s.mailbox.None?
    ensures var steps := [LoadFlag, Send, Receive];
            && Possible(s, steps) && Run(s, steps).caller == Returned(Launch(env), Received) && Run(s, steps).dir == s.dir
  {
    hide Possible, Run;
    var s1 := s.(worker := Sending(Written(env)));
    var s2 := s1.(worker := Finished, mailbox := Some(Written(env)));
    var s3 := s2.(caller := Returned(Launch(env), Received), mailbox := None);
    RunNil(s3);
    RunCons(s2, Receive, []);
    RunCons(s1, Send, [Receive] + []);
    RunCons(s, LoadFlag, [Send] + ([Receive] + []));
    assert [LoadFlag] + ([Send] + ([Receive] + [])) == [LoadFlag, Send, Receive];
  }

  /** A worker that looked at the flag before the deadline leaves its file behind. */
  lemma TimeoutCanLeaveFiles()
    ensures var s, steps := Fresh(true, {}), WritingSteps(Nothing, Wrote) + [LoadFlag, Expire, StoreFlag, Send];
            && Initial(s) && Possible(s, steps)
            && var t := Run(s, steps);
               t.caller.Returned? && t.caller.way == Timeout && t.worker.Finished? && t.dir == {MAIN_FILE}
  {
    hide Possible, Run, WritingSteps;
    WorkerWrites(true, {}, Nothing, Wrote);
    var mid := Run(Fresh(true, {}), WritingSteps(Nothing, Wrote));
    var env := mid.worker.result.env;
    WorkerIsLate(mid, env, mid.(caller := Returned(Refuse(TimedOut), Timeout), worker := Finished, cancelled := true));
    RunOver(Fresh(true, {}), WritingSteps(Nothing, Wrote), [LoadFlag, Expire, StoreFlag, Send]);
    assert Files(Nothing, Wrote) == {MAIN_FILE};
  }

  /** It looks at the flag before the caller gives up, and sends after. */
  lemma WorkerIsLate(s: State, env: Env, last: State)
    requires s.caller.Waiting? && s.worker == Done(Written(env)) && !s.cancelled && s.mailbox.None? && s.managed
    requires last == s.(caller := Returned(Refuse(TimedOut), Timeout), worker := Finished, cancelled := true)
    ensures Possible(s, [LoadFlag, Expire, StoreFlag, Send]) && Run(s, [LoadFlag, Expire, StoreFlag, Send]) == last
  {
    hide Possible, Run;
    var s1 := s.(worker := Sending(Written(env)));
    var s2 := s1.(caller := Cancelling);
    var s3 := s2.(cancelled := true, caller := Returned(Refuse(TimedOut), Timeout));
    RunNil(last);
    RunCons(s3, Send, []);
    RunCons(s2, StoreFlag, [Send] + []);
    RunCons(s1, Expire, [StoreFlag] + ([Send] + []));
    RunCons(s, LoadFlag, [Expire] + ([StoreFlag] + ([Send] + [])));
    assert [LoadFlag] + ([Expire] + ([StoreFlag] + ([Send] + []))) == [LoadFlag, Expire, StoreFlag, Send];
  }
}
