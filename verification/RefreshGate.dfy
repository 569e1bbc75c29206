/**
 The rate-limited re-reading of the machine's executable directories: a cache checked twice around a
 try-lock. Threads interleave at every access to the cache and to the gate; the clock never goes back.
 */
module RefreshGate {
  import opened JsonValues

  type Dirs = seq<string>

  datatype Snapshot = Snapshot(dirs: Dirs, readAt: int)

  /** What a call hands back: nothing, a cached snapshot as seen at a certain time, or its own read. */
  datatype Answer = Nothing | Cached(snapshot: Snapshot, seenAt: int) | OwnRead(dirs: Dirs)

  /** Where a thread stands in `fresh_environment_dirs`. */
  datatype Thread =
    | Idle
    | Missed
    | Holding
    | Reading(index: nat)
    | Storing(index: nat, dirs: Dirs)
    | Leaving(answer: Answer)
    | Answered(answer: Answer)
    | Dead

  datatype Gate = Free | HeldBy(t: nat) | Poisoned

  /** One real read of the environment: when it started, when it was over, when its result was stored. */
  datatype Read = Read(start: int, end: Option<int>, stored: Option<int>)

  datatype State = State(
    interval: int, now: int, cache: Option<Snapshot>, gate: Gate, threads: seq<Thread>, log: seq<Read>)

  datatype Step =
    | Tick(to: int)
    | Call(t: nat)
    | TryLock(t: nat)
    | Recheck(t: nat)
    | ReadReturns(t: nat, dirs: Dirs)
    | ReadPanics(t: nat)
    | Store(t: nat)
    | Release(t: nat)

  /** `cached_environment_dirs`: the snapshot while it is younger than the interval. */
  predicate CacheIsFresh(s: State) {
    s.cache.Some? && s.now - s.cache.value.readAt < s.interval
  }

  function CachedAnswer(s: State): Answer
    requires s.cache.Some?
  {
    Cached(s.cache.value, s.now)
  }

  predicate Enabled(s: State, step: Step) {
    match step
    case Tick(to) => s.now <= to
    case Call(t) => t < |s.threads| && (s.threads[t].Idle? || s.threads[t].Answered?)
    case TryLock(t) => t < |s.threads| && s.threads[t].Missed?
    case Recheck(t) => t < |s.threads| && s.threads[t].Holding?
    case ReadReturns(t, _) => t < |s.threads| && s.threads[t].Reading? && s.threads[t].index < |s.log|
    case ReadPanics(t) => t < |s.threads| && s.threads[t].Reading? && s.threads[t].index < |s.log|
    case Store(t) => t < |s.threads| && s.threads[t].Storing? && s.threads[t].index < |s.log|
    case Release(t) => t < |s.threads| && s.threads[t].Leaving?
  }

  function Apply(s: State, step: Step): State
    requires Enabled(s, step)
  {
    match step
    case Tick(to) => s.(now := to)
    case Call(t) =>
      s.(threads := s.threads[t := if CacheIsFresh(s) then Answered(CachedAnswer(s)) else Missed])
    case TryLock(t) =>
      if s.gate.Free? then s.(gate := HeldBy(t), threads := s.threads[t := Holding])
      else s.(threads := s.threads[t := Answered(Nothing)])
    case Recheck(t) =>
      if CacheIsFresh(s) then s.(threads := s.threads[t := Leaving(CachedAnswer(s))])
      else s.(threads := s.threads[t := Reading(|s.log|)], log := s.log + [Read(s.now, None, None)])
    case ReadReturns(t, dirs) =>
      var i := s.threads[t].index;
      s.(threads := s.threads[t := Storing(i, dirs)], log := s.log[i := s.log[i].(end := Some(s.now))])
    case ReadPanics(t) =>
      var i := s.threads[t].index;
      s.(gate := Poisoned, threads := s.threads[t := Dead], log := s.log[i := s.log[i].(end := Some(s.now))])
    case Store(t) =>
      var i := s.threads[t].index;
      s.(cache := Some(Snapshot(s.threads[t].dirs, s.now)),
         threads := s.threads[t := Leaving(OwnRead(s.threads[t].dirs))],
         log := s.log[i := s.log[i].(stored := Some(s.now))])
    case Release(t) => s.(gate := Free, threads := s.threads[t := Answered(s.threads[t].answer)])
  }

  predicate Initial(s: State) {
    s.interval > 0 && s.cache.None? && s.gate.Free? && s.log == [] && forall t :: 0 <= t < |s.threads| ==> s.threads[t].Idle?
  }

  // -------------------------------------------------------------------- invariant

  predicate InGate(thread: Thread) { thread.Holding? || thread.Reading? || thread.Storing? || thread.Leaving? }

  /** Only the thread that holds the gate is between the lock and its release. */
  predicate GateIsExclusive(s: State) {
    && (forall t :: 0 <= t < |s.threads| && InGate(s.threads[t]) ==> s.gate == HeldBy(t))
    && (s.gate.HeldBy? ==> s.gate.t < |s.threads| && InGate(s.threads[s.gate.t]))
  }

  /** Reads are over before now, the last one possibly excepted, which then belongs to the gate holder. */
  predicate ReadsAreDone(s: State) {
    && (forall i :: 0 <= i < |s.log| ==> s.log[i].start <= s.now)
    && (forall i :: 0 <= i < |s.log| && s.log[i].end.Some? ==> s.log[i].end.value <= s.now)
    && (forall i :: 0 <= i < |s.log| && s.log[i].end.None? ==>
          i == |s.log| - 1 && s.gate.HeldBy? && s.gate.t < |s.threads| && s.threads[s.gate.t] == Reading(i))
    && (forall t :: 0 <= t < |s.threads| && s.threads[t].Reading? ==> s.threads[t].index == |s.log| - 1 && |s.log| > 0)
    && (forall t :: 0 <= t < |s.threads| && s.threads[t].Storing? ==> s.threads[t].index == |s.log| - 1 && |s.log| > 0)
  }

  /** The cache holds the latest stored read; what is being read started an interval after it. */
  predicate CacheIsLatest(s: State) {
    && (forall i :: 0 <= i < |s.log| && s.log[i].stored.Some? ==>
          s.cache.Some? && s.log[i].stored.value <= s.cache.value.readAt)
    && (s.cache.Some? ==> s.cache.value.readAt <= s.now)
    && (forall t :: 0 <= t < |s.threads| && (s.threads[t].Reading? || s.threads[t].Storing?) && |s.log| > 0 ==>
          s.log[|s.log| - 1].stored.None?)
    && (forall t :: 0 <= t < |s.threads| && (s.threads[t].Reading? || s.threads[t].Storing?) && |s.log| > 0
                    && s.cache.Some? ==>
          s.log[|s.log| - 1].start >= s.cache.value.readAt + s.interval)
  }

  /** Any two reads: the earlier one was over, and a stored one was at least an interval old. */
  predicate Spaced(interval: int, log: seq<Read>) {
    forall i, j :: 0 <= i < j < |log| ==>
      && log[i].end.Some? && log[i].end.value <= log[j].start
      && (log[i].stored.Some? ==> log[j].start >= log[i].stored.value + interval)
  }

  /** A cached answer was younger than the interval when it was taken. */
  predicate AnswersAreFresh(s: State) {
    forall t :: 0 <= t < |s.threads| && (s.threads[t].Leaving? || s.threads[t].Answered?) && s.threads[t].answer.Cached? ==>
      s.threads[t].answer.seenAt - s.threads[t].answer.snapshot.readAt < s.interval
  }

  predicate Safe(s: State) {
    GateIsExclusive(s) && ReadsAreDone(s) && CacheIsLatest(s) && Spaced(s.interval, s.log) && AnswersAreFresh(s)
  }

  lemma GateStep(s: State, step: Step)
    requires Safe(s) && Enabled(s, step)
    ensures GateIsExclusive(Apply(s, step)) && AnswersAreFresh(Apply(s, step))
  {
    hide ReadsAreDone, CacheIsLatest, Spaced;
  }

  lemma ReadsStep(s: State, step: Step)
    requires Safe(s) && Enabled(s, step)
    ensures ReadsAreDone(Apply(s, step))
  {
    hide CacheIsLatest, Spaced, AnswersAreFresh;
  }

  lemma CacheStep(s: State, step: Step)
    requires Safe(s) && Enabled(s, step)
    ensures CacheIsLatest(Apply(s, step))
  {
    hide Spaced, AnswersAreFresh;
  }

  lemma SpacedStep(s: State, step: Step)
    requires Safe(s) && Enabled(s, step)
    ensures Spaced(s.interval, Apply(s, step).log) && Apply(s, step).interval == s.interval
  {
    hide AnswersAreFresh;
  }

  lemma StepIsSafe(s: State, step: Step)
    requires Safe(s) && Enabled(s, step)
    ensures Safe(Apply(s, step))
  {
    hide Apply, Enabled, GateIsExclusive, ReadsAreDone, CacheIsLatest, Spaced, AnswersAreFresh;
    GateStep(s, step);
    ReadsStep(s, step);
    CacheStep(s, step);
    SpacedStep(s, step);
  }

  // ------------------------------------------------------------------ whole runs

  predicate Possible(s: State, steps: seq<Step>)
    decreases |steps|
  {
    steps == [] || (Enabled(s, steps[0]) && Possible(Apply(s, steps[0]), steps[1..]))
  }

  function Run(s: State, steps: seq<Step>): State
    requires Possible(s, steps)
    decreases |steps|
  {
    if steps == [] then s else Run(Apply(s, steps[0]), steps[1..])
  }

  lemma {:induction false} RunIsSafe(s: State, steps: seq<Step>)
    requires Safe(s) && Possible(s, steps)
    ensures Safe(Run(s, steps)) && Run(s, steps).interval == s.interval
    decreases |steps|
  {
    hide Safe, Apply, Enabled;
    if steps != [] {
      StepIsSafe(s, steps[0]);
      SpacedStep(s, steps[0]);
      RunIsSafe(Apply(s, steps[0]), steps[1..]);
    }
  }

  /**
   Over every interleaving: real reads never overlap, and each starts at least the interval after any
   earlier snapshot was stored.
   */
  lemma ReadsAreSpaced(s: State, steps: seq<Step>)
    requires Initial(s) && Possible(s, steps)
    ensures Spaced(s.interval, Run(s, steps).log)
  {
    hide Apply, Enabled;
    assert Safe(s);
    RunIsSafe(s, steps);
  }

  /** At most one thread is reading at any time. */
  lemma AtMostOneReader(s: State, steps: seq<Step>, t: nat, u: nat)
    requires Initial(s) && Possible(s, steps) && t < |Run(s, steps).threads| && u < |Run(s, steps).threads|
    requires Run(s, steps).threads[t].Reading? && Run(s, steps).threads[u].Reading?
    ensures t == u
  {
    hide Apply, Enabled, ReadsAreDone, CacheIsLatest, Spaced;
    assert Safe(s) by { InitialIsSafe(s); }
    RunIsSafe(s, steps);
  }

  lemma InitialIsSafe(s: State)
    requires Initial(s)
    ensures Safe(s)
  {}

  /** A cached answer is never as old as the interval. */
  lemma CachedAnswersAreYoung(s: State, steps: seq<Step>, t: nat)
    requires Initial(s) && Possible(s, steps) && t < |Run(s, steps).threads|
    ensures var a := Run(s, steps).threads[t];
            a.Answered? && a.answer.Cached? ==> a.answer.seenAt - a.answer.snapshot.readAt < s.interval
  {
    hide Apply, Enabled, GateIsExclusive, ReadsAreDone, CacheIsLatest, Spaced;
    InitialIsSafe(s);
    RunIsSafe(s, steps);
  }

  /** In every run the gate ends poisoned if and only if some read panicked. */
  lemma PoisonedExactly(s: State, steps: seq<Step>)
    requires Initial(s) && Possible(s, steps)
    ensures Run(s, steps).gate.Poisoned? <==> exists i :: 0 <= i < |steps| && steps[i].ReadPanics?
  {
    InitialIsSafe(s);
    PoisonedFrom(s, steps);
  }

  lemma {:induction false} PoisonedFrom(s: State, steps: seq<Step>)
    requires Safe(s) && Possible(s, steps)
    ensures Run(s, steps).gate.Poisoned? <==> s.gate.Poisoned? || exists i :: 0 <= i < |steps| && steps[i].ReadPanics?
    decreases |steps|
  {
    hide Safe, Apply, Enabled;
    if steps != [] {
      var rest := steps[1..];
      StepIsSafe(s, steps[0]);
      PoisonStep(s, steps[0]);
      PoisonedFrom(Apply(s, steps[0]), rest);
      assert forall i :: 0 <= i < |rest| ==> rest[i] == steps[i + 1];
      if exists i :: 0 <= i < |steps| && steps[i].ReadPanics? {
        var i :| 0 <= i < |steps| && steps[i].ReadPanics?;
        assert i > 0 ==> rest[i - 1].ReadPanics?;
      }
    }
  }

  lemma PoisonStep(s: State, step: Step)
    requires Safe(s) && Enabled(s, step)
    ensures Apply(s, step).gate.Poisoned? <==> s.gate.Poisoned? || step.ReadPanics?
  {
    hide ReadsAreDone, CacheIsLatest, Spaced, AnswersAreFresh;
  }

  /** And then no read ever starts again. */
  lemma {:induction false} PanicEndsReading(s: State, steps: seq<Step>)
    requires Safe(s) && s.gate.Poisoned? && Possible(s, steps)
    ensures Run(s, steps).gate.Poisoned? && Run(s, steps).log == s.log
    decreases |steps|
  {
    hide ReadsAreDone, CacheIsLatest, Spaced, AnswersAreFresh;
    if steps != [] {
      PoisonedStep(s, steps[0]);
      StepIsSafe(s, steps[0]);
      PanicEndsReading(Apply(s, steps[0]), steps[1..]);
    }
  }

  lemma PoisonedStep(s: State, step: Step)
    requires GateIsExclusive(s) && s.gate.Poisoned? && Enabled(s, step)
    ensures Apply(s, step).gate.Poisoned? && Apply(s, step).log == s.log
  {}

  // ------------------------------------------------------------------ what is answered

  /** Some thread's read has returned these directories. */
  ghost predicate WasRead(past: seq<Step>, dirs: Dirs) { exists u :: ReadReturns(u, dirs) in past }

  /** What thread `t` answers: its own read, or directories that some read returned. */
  ghost predicate AnswerIsRead(past: seq<Step>, t: nat, answer: Answer) {
    && (answer.Cached? ==> WasRead(past, answer.snapshot.dirs))
    && (answer.OwnRead? ==> ReadReturns(t, answer.dirs) in past)
  }

  ghost predicate AllWasRead(s: State, past: seq<Step>) {
    && (s.cache.Some? ==> WasRead(past, s.cache.value.dirs))
    && (forall t: nat :: t < |s.threads| && s.threads[t].Storing? ==> ReadReturns(t, s.threads[t].dirs) in past)
    && (forall t: nat :: t < |s.threads| && (s.threads[t].Leaving? || s.threads[t].Answered?) ==>
          AnswerIsRead(past, t, s.threads[t].answer))
  }

  lemma StaysRead(past: seq<Step>, step: Step)
    ensures forall dirs :: WasRead(past, dirs) ==> WasRead(past + [step], dirs)
    ensures forall t: nat, dirs :: ReadReturns(t, dirs) in past ==> ReadReturns(t, dirs) in past + [step]
    ensures forall t: nat, answer :: AnswerIsRead(past, t, answer) ==> AnswerIsRead(past + [step], t, answer)
    ensures step in past + [step]
  {
    assert (past + [step])[|past|] == step;
    forall dirs | WasRead(past, dirs) ensures WasRead(past + [step], dirs) {
      var u :| ReadReturns(u, dirs) in past;
      assert ReadReturns(u, dirs) in past + [step];
    }
  }

  lemma ReadStep(s: State, step: Step, past: seq<Step>)
    requires AllWasRead(s, past) && Enabled(s, step)
    ensures AllWasRead(Apply(s, step), past + [step])
  {
    StaysRead(past, step);
    if step.Store? { assert ReadReturns(step.t, s.threads[step.t].dirs) in past + [step]; }
    hide CacheIsFresh;
  }

  lemma {:induction false} ReadFrom(s: State, steps: seq<Step>, past: seq<Step>)
    requires AllWasRead(s, past) && Possible(s, steps)
    ensures AllWasRead(Run(s, steps), past + steps)
    decreases |steps|
  {
    hide Apply, Enabled, AllWasRead;
    if steps == [] {
      assert past + steps == past;
    } else {
      ReadStep(s, steps[0], past);
      ReadFrom(Apply(s, steps[0]), steps[1..], past + [steps[0]]);
      assert past + [steps[0]] + steps[1..] == past + steps;
    }
  }

  /** In every run, whatever is answered or cached are directories that a read of the run has returned. */
  lemma AnswersWereRead(s: State, steps: seq<Step>, t: nat)
    requires Initial(s) && Possible(s, steps) && t < |Run(s, steps).threads|
    ensures var a := Run(s, steps).threads[t];
            && (a.Answered? && a.answer.Cached? ==> WasRead(steps, a.answer.snapshot.dirs))
            && (a.Answered? && a.answer.OwnRead? ==> ReadReturns(t, a.answer.dirs) in steps)
  {
    hide Apply, Enabled;
    ReadFrom(s, steps, []);
    assert [] + steps == steps;
  }

  /** The steps can be taken, and leave the thread with this answer. */
  predicate Ends(s: State, steps: seq<Step>, t: nat, answer: Answer) {
    Possible(s, steps) && t < |Run(s, steps).threads| && Run(s, steps).threads[t] == Answered(answer)
  }

  /** The steps of a call that finds the gate free and reads. */
  function ReadingCall(t: nat, dirs: Dirs): seq<Step> {
    [Call(t), TryLock(t), Recheck(t), ReadReturns(t, dirs), Store(t), Release(t)]
  }

  /**
   A call that is not disturbed: a snapshot that is young enough is answered at once; otherwise nothing is when the gate
   is held or poisoned, and when it is free the directories are read, stored and answered, and the gate is free again.
   */
  lemma CallAnswers(s: State, t: nat, dirs: Dirs)
    requires t < |s.threads| && (s.threads[t].Idle? || s.threads[t].Answered?)
    ensures var young := s.cache.Some? && s.now - s.cache.value.readAt < s.interval;
            && (young ==> Ends(s, [Call(t)], t, Cached(s.cache.value, s.now)))
            && (!young && !s.gate.Free? ==> Ends(s, [Call(t), TryLock(t)], t, Nothing))
            && (!young && s.gate.Free? ==>
                  && Ends(s, ReadingCall(t, dirs), t, OwnRead(dirs))
                  && var end := Run(s, ReadingCall(t, dirs)); end.gate.Free? && end.cache == Some(Snapshot(dirs, s.now)))
  {
    hide Possible, Run;
    var s1 := Apply(s, Call(t));
    RunNil(s1);
    RunCons(s, Call(t), []);
    assert [Call(t)] + [] == [Call(t)];
    if !CacheIsFresh(s) {
      var s2 := Apply(s1, TryLock(t));
      if s.gate.Free? {
        ReadsThrough(s2, t, dirs);
        RunCons(s1, TryLock(t), [Recheck(t), ReadReturns(t, dirs), Store(t), Release(t)]);
        RunCons(s, Call(t), [TryLock(t)] + [Recheck(t), ReadReturns(t, dirs), Store(t), Release(t)]);
        assert [Call(t)] + ([TryLock(t)] + [Recheck(t), ReadReturns(t, dirs), Store(t), Release(t)]) == ReadingCall(t, dirs);
      } else {
        RunNil(s2);
        RunCons(s1, TryLock(t), []);
        RunCons(s, Call(t), [TryLock(t)] + []);
        assert [Call(t)] + ([TryLock(t)] + []) == [Call(t), TryLock(t)];
      }
    }
  }

  lemma ReadsThrough(s: State, t: nat, dirs: Dirs)
    requires t < |s.threads| && s.threads[t].Holding? && !CacheIsFresh(s)
    ensures var steps := [Recheck(t), ReadReturns(t, dirs), Store(t), Release(t)];
            && Possible(s, steps)
            && var end := Run(s, steps);
               && |end.threads| == |s.threads| && end.threads[t] == Answered(OwnRead(dirs)) && end.gate.Free?
               && end.cache == Some(Snapshot(dirs, s.now))
  {
    hide Possible, Run;
    var s1 := Apply(s, Recheck(t));
    var s2 := Apply(s1, ReadReturns(t, dirs));
    var s3 := Apply(s2, Store(t));
    var s4 := Apply(s3, Release(t));
    RunNil(s4);
    RunCons(s3, Release(t), []);
    RunCons(s2, Store(t), [Release(t)] + []);
    RunCons(s1, ReadReturns(t, dirs), [Store(t)] + ([Release(t)] + []));
    RunCons(s, Recheck(t), [ReadReturns(t, dirs)] + ([Store(t)] + ([Release(t)] + [])));
    assert [Recheck(t)] + ([ReadReturns(t, dirs)] + ([Store(t)] + ([Release(t)] + [])))
        == [Recheck(t), ReadReturns(t, dirs), Store(t), Release(t)];
  }

  lemma RunNil(s: State)
    ensures Possible(s, []) && Run(s, []) == s
  {}

  lemma RunCons(s: State, step: Step, steps: seq<Step>)
    requires Enabled(s, step) && Possible(Apply(s, step), steps)
    ensures Possible(s, [step] + steps) && Run(s, [step] + steps) == Run(Apply(s, step), steps)
  {
    hide Apply, Enabled;
    assert ([step] + steps)[1..] == steps;
  }
}
