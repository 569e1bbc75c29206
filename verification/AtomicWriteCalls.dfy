/** The file-writing calls themselves, system call by system call: each one is a run of the writers' machine. */
module AtomicWriteCalls {
  import opened AtomicWrite

  lemma {:induction false} RunAppend(s: State, steps: seq<Step>, step: Step)
    requires Possible(s, steps) && Enabled(Run(s, steps), step)
    ensures Possible(s, steps + [step]) && Run(s, steps + [step]) == Apply(Run(s, steps), step)
    decreases |steps|
  {
    hide Enabled, Apply;
    if steps == [] {
      assert [step][1..] == [];
    } else {
      assert (steps + [step])[1..] == steps[1..] + [step];
      RunAppend(Apply(s, steps[0]), steps[1..], step);
    }
  }

  /** Writer `w` is in the phase given, and its temporary file fits it. */
  ghost predicate Stands(s: State, w: nat, phase: Phase) {
    Safe(s) && w < |s.writers| && s.writers[w].phase == phase
  }

  lemma Next(s: State, w: nat, step: Step)
    requires Safe(s) && Enabled(s, step) && !step.UserSaves? && step.w == w
    ensures Safe(Apply(s, step)) && |Apply(s, step).writers| == |s.writers|
    ensures Apply(s, step).writers[w] == s.writers[w].(phase := Apply(s, step).writers[w].phase)
    ensures match step
            case Create(_, ok) => Stands(Apply(s, step), w, if ok then Writing(0) else Cleaning(Failed))
            case WriteSome(_, more) => Stands(Apply(s, step), w, Writing(s.writers[w].phase.count + more))
            case WriteFails(_) => Stands(Apply(s, step), w, Cleaning(Failed))
            case Sync(_, ok) => Stands(Apply(s, step), w, if ok then Synced(0) else Cleaning(Failed))
            case Rename(_, ok) =>
              Stands(Apply(s, step), w,
                     if ok then Finished(Installed)
                     else if s.writers[w].phase.attempt + 1 < RENAME_RETRIES then Synced(s.writers[w].phase.attempt + 1)
                     else Cleaning(Failed))
            case HardLink(_, ok) =>
              Stands(Apply(s, step), w,
                     Cleaning(if !ok then Failed else if s.target in s.files then AlreadyThere else Installed))
            case RemoveTemp(_, _) => Stands(Apply(s, step), w, Finished(s.writers[w].phase.result))
            case UserSaves(_) => true
  {
    hide Safe;
    StepIsSafe(s, step);
  }

  /** A writer between its steps can take the next one. */
  lemma CanStep(s: State, w: nat)
    requires Safe(s) && w < |s.writers|
    ensures var p := s.writers[w];
      match p.phase
      case Start => forall ok :: Enabled(s, Create(w, ok))
      case Writing(count) =>
        count <= |p.content| && Enabled(s, WriteFails(w))
        && (forall more: nat :: count + more <= |p.content| ==> Enabled(s, WriteSome(w, more)))
        && (count == |p.content| ==> forall ok :: Enabled(s, Sync(w, ok)))
      case Synced(attempt) =>
        attempt < RENAME_RETRIES && forall ok :: if p.kind.Replace? then Enabled(s, Rename(w, ok)) else Enabled(s, HardLink(w, ok))
      case Cleaning(_) => forall ok :: Enabled(s, RemoveTemp(w, ok))
      case Finished(_) => true
  {
    assert TempFits(s, s.writers[w]);
  }

  /** Nothing but the writer's phase and its temporary file, which is not the target, has changed. */
  ghost predicate Keeps(a: State, b: State, w: nat) {
    && w < |a.writers| && w < |b.writers| && a.target == b.target && a.writers[w].temp != a.target
    && a.writers[w].kind == b.writers[w].kind && a.writers[w].content == b.writers[w].content
    && a.writers[w].temp == b.writers[w].temp
    && forall p :: p != a.writers[w].temp ==> SameAt(a.files, b.files, p)
  }

  /** The target holds the writer's content, and nothing else has changed but its phase and its temporary file. */
  ghost predicate Installs(a: State, b: State, w: nat) {
    && w < |a.writers| && a.target in b.files && b.files[a.target] == Node(a.writers[w].content, true)
    && forall p :: p != a.writers[w].temp && p != a.target ==> SameAt(a.files, b.files, p)
  }

  lemma KeepsBasics(a: State, b: State, w: nat)
    requires Keeps(a, b, w)
    ensures w < |a.writers| && w < |b.writers|
    ensures a.writers[w].kind == b.writers[w].kind && a.writers[w].content == b.writers[w].content
    ensures a.writers[w].temp == b.writers[w].temp
    ensures a.target == b.target && SameAt(a.files, b.files, a.target)
  {}

  lemma KeepsAll(a: State, w: nat)
    requires Safe(a) && w < |a.writers|
    ensures Keeps(a, a, w)
  {}

  lemma KeepsBoth(a: State, b: State, c: State, w: nat)
    requires Keeps(a, b, w) && Keeps(b, c, w)
    ensures Keeps(a, c, w)
  {
    forall p | p != a.writers[w].temp ensures SameAt(a.files, c.files, p) {
      assert SameAt(a.files, b.files, p) && SameAt(b.files, c.files, p);
    }
  }

  lemma KeepsThenInstalls(a: State, b: State, c: State, w: nat)
    requires Keeps(a, b, w)
    ensures Installs(b, c, w) ==> Installs(a, c, w)
  {
    if Installs(b, c, w) {
      forall p | p != a.writers[w].temp && p != a.target ensures SameAt(a.files, c.files, p) {
        assert SameAt(a.files, b.files, p) && SameAt(b.files, c.files, p);
      }
    }
  }

  lemma InstallsThenKeeps(a: State, b: State, c: State, w: nat)
    requires w < |a.writers| && w < |b.writers| && a.target == b.target && a.writers[w].temp == b.writers[w].temp
    requires Installs(a, b, w) && Keeps(b, c, w)
    ensures Installs(a, c, w)
  {
    forall p | p != a.writers[w].temp && p != a.target ensures SameAt(a.files, c.files, p) {
      assert SameAt(a.files, b.files, p) && SameAt(b.files, c.files, p);
    }
    assert SameAt(b.files, c.files, a.target);
  }

  /** Every call but a rename and a link leaves everything but the temporary file. */
  lemma TempOnly(s: State, w: nat, step: Step)
    requires Safe(s) && Enabled(s, step) && !step.UserSaves? && step.w == w
    ensures w < |s.writers| && w < |Apply(s, step).writers|
    ensures Apply(s, step).target == s.target && Apply(s, step).writers[w].temp == s.writers[w].temp
    ensures (match step case Rename(_, ok) => !ok case HardLink(_, ok) => !ok || s.target in s.files case _ => true) ==>
              Keeps(s, Apply(s, step), w)
    ensures (match step case Rename(_, ok) => ok case HardLink(_, ok) => ok && s.target !in s.files case _ => false) ==>
              Installs(s, Apply(s, step), w)
    ensures (match step case Rename(_, ok) => ok case RemoveTemp(_, ok) => ok case _ => false) ==>
              s.writers[w].temp !in Apply(s, step).files
  {
    AtomicWrite.SameTarget(s, step);
    Next(s, w, step);
    TempIsPrivate(s, w);
    forall p { StepExactly(s, step, p); }
    hide Safe, Enabled, Apply;
  }

  lemma TempIsPrivate(s: State, w: nat)
    requires Safe(s) && w < |s.writers|
    ensures s.writers[w].temp != s.target
  {}

  /** What the system does with one call: it fails, or works, a write taking at most one byte more than `most`. */
  datatype Fate = Fails | Works(most: nat)

  predicate Agrees(step: Step, outcome: Fate) {
    match step
    case Create(_, ok) => ok == outcome.Works?
    case WriteSome(_, more) => outcome.Works?
    case WriteFails(_) => outcome.Fails?
    case Sync(_, ok) => ok == outcome.Works?
    case Rename(_, ok) => ok == outcome.Works?
    case HardLink(_, ok) => ok == outcome.Works?
    case RemoveTemp(_, ok) => ok == outcome.Works?
    case UserSaves(_) => false
  }

  ghost predicate AllWork(fate: nat -> Fate, from: nat, to: nat) {
    forall k: nat :: from <= k < to ==> fate(k).Works?
  }

  ghost predicate AllFail(fate: nat -> Fate, from: nat, to: nat) {
    forall k: nat :: from <= k < to ==> fate(k).Fails?
  }

  /** Writing worked up to its last call, which failed. */
  ghost predicate WriteFailed(fate: nat -> Fate, from: nat, to: nat) {
    from < to && AllWork(fate, from, to - 1) && fate(to - 1).Fails?
  }

  /** Writing worked, and then every one of the renames failed. */
  ghost predicate RenamesFailed(fate: nat -> Fate, from: nat, to: nat) {
    from + RENAME_RETRIES <= to && AllWork(fate, from, to - RENAME_RETRIES) && AllFail(fate, to - RENAME_RETRIES, to)
  }

  /** Writing worked, and so did one of the renames, the first not to fail. */
  ghost predicate RenameWorked(fate: nat -> Fate, from: nat, to: nat) {
    exists written: nat :: from <= written < to <= written + RENAME_RETRIES
      && AllWork(fate, from, written) && AllFail(fate, written, to - 1) && fate(to - 1).Works?
  }

  /** The directory as one writer works on it: what the system will do with each call, and the calls made so far. */
  class Disk {
    const start: State
    const fate: nat -> Fate
    var now: State
    var calls: nat
    ghost var trace: seq<Step>

    ghost predicate Valid()
      reads this
    {
      && Safe(now) && |now.writers| == |start.writers| && Possible(start, trace) && now == Run(start, trace)
      && calls == |trace| && forall i :: 0 <= i < |trace| ==> Agrees(trace[i], fate(i))
    }

    constructor (start: State, fate: nat -> Fate)
      requires Safe(start)
      ensures Valid() && now == this.start == start && this.fate == fate && calls == 0
    {
      this.start, this.fate, now, calls, trace := start, fate, start, 0, [];
    }

    /** One system call of writer `w`, with the outcome the system gives it. */
    method Call(ghost w: nat, step: Step)
      requires Valid() && Enabled(now, step) && Agrees(step, fate(calls)) && step.w == w
      modifies this
      ensures Valid() && calls == old(calls) + 1 && now == Apply(old(now), step)
    {
      hide Safe, Enabled, Apply, Possible, Run;
      Next(now, w, step);
      RunAppend(start, trace, step);
      now := Apply(now, step);
      trace := trace + [step];
      calls := calls + 1;
    }

    /** `File::create`. */
    method CreateTemp(w: nat) returns (ok: bool)
      requires Valid() && Stands(now, w, Start)
      modifies this
      ensures Valid() && calls == old(calls) + 1 && ok == fate(old(calls)).Works?
      ensures Stands(now, w, if ok then Writing(0) else Cleaning(Failed)) && Keeps(old(now), now, w)
    {
      hide Safe, Enabled, Apply, Possible, Run, Keeps;
      ok := fate(calls).Works?;
      CanStep(now, w);
      Next(now, w, Create(w, ok));
      TempOnly(now, w, Create(w, ok));
      Call(w, Create(w, ok));
    }

    /** One write to the temporary file: some of what is left, at least one byte, or nothing on failure. */
    method WriteTemp(w: nat, count: nat) returns (more: nat)
      requires Valid() && Stands(now, w, Writing(count)) && count < |now.writers[w].content|
      modifies this
      ensures Valid() && calls == old(calls) + 1 && (more > 0 <==> fate(old(calls)).Works?)
      ensures count + more <= |old(now).writers[w].content|
      ensures Stands(now, w, if more > 0 then Writing(count + more) else Cleaning(Failed)) && Keeps(old(now), now, w)
    {
      hide Safe, Enabled, Apply, Possible, Run, Keeps;
      CanStep(now, w);
      var left := |now.writers[w].content| - count;
      match fate(calls) {
        case Fails =>
          more := 0;
          Next(now, w, WriteFails(w));
          TempOnly(now, w, WriteFails(w));
          Call(w, WriteFails(w));
        case Works(most) =>
          more := if most < left then most + 1 else left;
          Next(now, w, WriteSome(w, more));
          TempOnly(now, w, WriteSome(w, more));
          Call(w, WriteSome(w, more));
      }
    }

    /** `sync_all`. */
    method SyncTemp(w: nat) returns (ok: bool)
      requires Valid() && w < |now.writers| && Stands(now, w, Writing(|now.writers[w].content|))
      modifies this
      ensures Valid() && calls == old(calls) + 1 && ok == fate(old(calls)).Works?
      ensures Stands(now, w, if ok then Synced(0) else Cleaning(Failed)) && Keeps(old(now), now, w)
    {
      hide Safe, Enabled, Apply, Possible, Run, Keeps;
      ok := fate(calls).Works?;
      CanStep(now, w);
      Next(now, w, Sync(w, ok));
      TempOnly(now, w, Sync(w, ok));
      Call(w, Sync(w, ok));
    }

    /** `fs::rename`. */
    method RenameTemp(w: nat, attempt: nat) returns (ok: bool)
      requires Valid() && Stands(now, w, Synced(attempt)) && now.writers[w].kind.Replace?
      modifies this
      ensures Valid() && calls == old(calls) + 1 && ok == fate(old(calls)).Works?
      ensures Stands(now, w, if ok then Finished(Installed)
                             else if attempt + 1 < RENAME_RETRIES then Synced(attempt + 1) else Cleaning(Failed))
      ensures if ok then Installs(old(now), now, w) && old(now).writers[w].temp !in now.files else Keeps(old(now), now, w)
      ensures now.writers[w].kind.Replace?
    {
      hide Safe, Enabled, Apply, Possible, Run, Keeps, Installs;
      ok := fate(calls).Works?;
      CanStep(now, w);
      Next(now, w, Rename(w, ok));
      TempOnly(now, w, Rename(w, ok));
      Call(w, Rename(w, ok));
    }

    /** `fs::hard_link`, which finds the target there or not when it works. */
    method LinkTemp(w: nat) returns (result: Result)
      requires Valid() && Stands(now, w, Synced(0)) && now.writers[w].kind.IfAbsent?
      modifies this
      ensures Valid() && calls == old(calls) + 1 && Stands(now, w, Cleaning(result))
      ensures result == if fate(old(calls)).Fails? then Failed
                        else if old(now).target in old(now).files then AlreadyThere else Installed
      ensures if result == Installed then Installs(old(now), now, w) else Keeps(old(now), now, w)
      ensures w < |now.writers| && now.target == old(now).target && now.writers[w].temp == old(now).writers[w].temp
    {
      hide Safe, Enabled, Apply, Possible, Run, Keeps, Installs;
      var ok := fate(calls).Works?;
      result := if !ok then Failed else if now.target in now.files then AlreadyThere else Installed;
      CanStep(now, w);
      Next(now, w, HardLink(w, ok));
      TempOnly(now, w, HardLink(w, ok));
      Call(w, HardLink(w, ok));
    }

    /** `fs::remove_file` on the temporary file: it may fail, and nobody looks. */
    method RemoveTempFile(w: nat, ghost result: Result)
      requires Valid() && Stands(now, w, Cleaning(result))
      modifies this
      ensures Valid() && calls == old(calls) + 1 && Stands(now, w, Finished(result)) && Keeps(old(now), now, w)
      ensures fate(old(calls)).Works? ==> old(now).writers[w].temp !in now.files
    {
      hide Safe, Enabled, Apply, Possible, Run, Keeps;
      var ok := fate(calls).Works?;
      CanStep(now, w);
      Next(now, w, RemoveTemp(w, ok));
      TempOnly(now, w, RemoveTemp(w, ok));
      Call(w, RemoveTemp(w, ok));
    }

    /** `write_and_sync`: it succeeds exactly when every call it makes works, and stops at the first that fails. */
    method WriteAndSync(w: nat) returns (ok: bool)
      requires Valid() && Stands(now, w, Start)
      modifies this
      ensures Valid() && Stands(now, w, if ok then Synced(0) else Cleaning(Failed)) && Keeps(old(now), now, w)
      ensures if ok then old(calls) < calls && AllWork(fate, old(calls), calls) else WriteFailed(fate, old(calls), calls)
    {
      hide Safe, Enabled, Apply, Possible, Run, Keeps;
      KeepsAll(now, w);
      ok := CreateTemp(w);
      if !ok { return; }
      KeepsBasics(old(now), now, w);
      var content := now.writers[w].content;
      var count := 0;
      while count < |content|
        invariant Valid() && count <= |content| && Stands(now, w, Writing(count))
        invariant now.writers[w].content == content && Keeps(old(now), now, w)
        invariant old(calls) < calls && AllWork(fate, old(calls), calls)
      {
        ghost var before := now;
        var more := WriteTemp(w, count);
        KeepsBoth(old(now), before, now, w);
        KeepsBasics(before, now, w);
        if more == 0 { return false; }
        count := count + more;
      }
      ghost var before := now;
      ok := SyncTemp(w);
      KeepsBoth(old(now), before, now, w);
    }

    /** `rename_with_retry` away from Windows: the first of five renames to work is the last one made. */
    method RenameWithRetry(w: nat) returns (ok: bool)
      requires Valid() && Stands(now, w, Synced(0)) && now.writers[w].kind.Replace?
      modifies this
      ensures Valid() && Stands(now, w, if ok then Finished(Installed) else Cleaning(Failed))
      ensures old(calls) < calls <= old(calls) + 5
      ensures if ok then AllFail(fate, old(calls), calls - 1) && fate(calls - 1).Works?
              else calls == old(calls) + 5 && AllFail(fate, old(calls), calls)
      ensures if ok then Installs(old(now), now, w) && old(now).writers[w].temp !in now.files else Keeps(old(now), now, w)
    {
      hide Safe, Enabled, Apply, Possible, Run, Keeps, Installs;
      KeepsAll(now, w);
      var attempt := 0;
      while attempt < RENAME_RETRIES
        invariant Valid() && attempt <= RENAME_RETRIES && w < |now.writers| && now.writers[w].kind.Replace?
        invariant Stands(now, w, if attempt < RENAME_RETRIES then Synced(attempt) else Cleaning(Failed))
        invariant calls == old(calls) + attempt && AllFail(fate, old(calls), calls) && Keeps(old(now), now, w)
      {
        ghost var before := now;
        KeepsBasics(old(now), before, w);
        ok := RenameTemp(w, attempt);
        if ok {
          KeepsThenInstalls(old(now), before, now, w);
          return;
        }
        KeepsBoth(old(now), before, now, w);
        attempt := attempt + 1;
      }
      ok := false;
    }

    /**
     `write_atomic`: it fails only when a call of the writing does, or all renames do, and reports just that. When it
     works the target holds the content and the temporary file is gone; when not, the target is as it was.
     */
    method WriteAtomic(w: nat) returns (ok: bool)
      requires Valid() && Stands(now, w, Start) && now.writers[w].kind.Replace?
      modifies this
      ensures Valid() && Stands(now, w, Finished(if ok then Installed else Failed))
      ensures if ok then RenameWorked(fate, old(calls), calls)
              else calls > 0 && (WriteFailed(fate, old(calls), calls - 1) || RenamesFailed(fate, old(calls), calls - 1))
      ensures var target, temp := old(now).target, old(now).writers[w].temp;
              && (ok ==> target in now.files && now.files[target] == Node(old(now).writers[w].content, true))
              && (ok || fate(calls - 1).Works? ==> temp !in now.files)
              && forall p :: p != temp && (p != target || !ok) ==> SameAt(old(now).files, now.files, p)
    {
      hide Safe, Enabled, Apply, Possible, Run, Keeps, Installs;
      ok := WriteAndSync(w);
      KeepsBasics(old(now), now, w);
      ghost var written, before := calls, now;
      if ok {
        ok := RenameWithRetry(w);
        if ok {
          KeepsThenInstalls(old(now), before, now, w);
        } else {
          KeepsBoth(old(now), before, now, w);
        }
      }
      if !ok {
        before := now;
        KeepsBasics(old(now), now, w);
        RemoveTempFile(w, Failed);
        KeepsBoth(old(now), before, now, w);
        KeepsFiles(old(now), now, w);
      } else {
        InstallsFiles(old(now), now, w);
      }
      assert ok ==> old(calls) <= written < calls <= written + RENAME_RETRIES && AllWork(fate, old(calls), written);
    }

    /**
     `write_atomic_if_absent`: it fails only when a call does; otherwise it tells whether the target was there. An
     existing target is as it was, one that was missing holds the content if it works.
     */
    method WriteAtomicIfAbsent(w: nat) returns (result: Result)
      requires Valid() && Stands(now, w, Start) && now.writers[w].kind.IfAbsent?
      modifies this
      ensures Valid() && Stands(now, w, Finished(result)) && calls > 0
      ensures if result == Failed then WriteFailed(fate, old(calls), calls - 1) else AllWork(fate, old(calls), calls - 1)
      ensures result == AlreadyThere ==> old(now).target in old(now).files
      ensures result == Installed ==> old(now).target !in old(now).files
      ensures var target, temp := old(now).target, old(now).writers[w].temp;
              && (result == Installed ==> target in now.files && now.files[target] == Node(old(now).writers[w].content, true))
              && (fate(calls - 1).Works? ==> temp !in now.files)
              && forall p :: p != temp && (p != target || result != Installed) ==> SameAt(old(now).files, now.files, p)
    {
      hide Safe, Enabled, Apply, Possible, Run, Keeps, Installs;
      var written := WriteAndSync(w);
      KeepsBasics(old(now), now, w);
      result := Failed;
      ghost var before := now;
      if written {
        result := LinkTemp(w);
        if result == Installed {
          KeepsThenInstalls(old(now), before, now, w);
        } else {
          KeepsBoth(old(now), before, now, w);
        }
      }
      before := now;
      RemoveTempFile(w, result);
      if result == Installed {
        InstallsThenKeeps(old(now), before, now, w);
        InstallsFiles(old(now), now, w);
      } else {
        KeepsBoth(old(now), before, now, w);
        KeepsFiles(old(now), now, w);
      }
    }
  }

  lemma KeepsFiles(a: State, b: State, w: nat)
    requires Keeps(a, b, w)
    ensures w < |a.writers| && forall p :: p != a.writers[w].temp ==> SameAt(a.files, b.files, p)
  {}

  lemma InstallsFiles(a: State, b: State, w: nat)
    requires Installs(a, b, w)
    ensures w < |a.writers| && a.target in b.files && b.files[a.target] == Node(a.writers[w].content, true)
    ensures forall p :: p != a.writers[w].temp && p != a.target ==> SameAt(a.files, b.files, p)
  {}
}
