/**
 Crash-atomic file replacement: temp file, sync, rename with retries; and installation by hard link, which
 never replaces. Any number of writers of one target interleave, at every system call, with the user.
 */
module AtomicWrite {
  type Path = string

  const RENAME_RETRIES := 5

  /** A file: its bytes, and whether they are known to be on disk. */
  datatype Node = Node(data: string, synced: bool)

  /** `write_atomic` replaces the target, `write_atomic_if_absent` installs only where there is none. */
  datatype Kind = Replace | IfAbsent

  datatype Result = Installed | AlreadyThere | Failed

  datatype Phase =
    | Start
    | Writing(count: nat)
    | Synced(attempt: nat)
    | Cleaning(result: Result)
    | Finished(result: Result)

  datatype Writer = Writer(kind: Kind, content: string, temp: Path, phase: Phase)

  /** `whole` collects every complete content the target may legitimately show. */
  datatype State = State(files: map<Path, Node>, target: Path, writers: seq<Writer>, whole: set<string>)

  /** One system call of writer `w`; `ok` says whether it succeeds. */
  datatype Step =
    | Create(w: nat, ok: bool)
    | WriteSome(w: nat, more: nat)
    | WriteFails(w: nat)
    | Sync(w: nat, ok: bool)
    | Rename(w: nat, ok: bool)
    | HardLink(w: nat, ok: bool)
    | RemoveTemp(w: nat, ok: bool)
    | UserSaves(content: string)

  predicate Enabled(s: State, step: Step) {
    if step.UserSaves? then true
    else
      step.w < |s.writers| &&
      var p := s.writers[step.w];
      match step
      case Create(_, _) => p.phase.Start?
      case WriteSome(_, more) => p.phase.Writing? && p.phase.count + more <= |p.content| && p.temp in s.files
      case WriteFails(_) => p.phase.Writing?
      case Sync(_, _) => p.phase.Writing? && p.phase.count == |p.content| && p.temp in s.files
      case Rename(_, _) => p.kind.Replace? && p.phase.Synced? && p.temp in s.files
      case HardLink(_, _) => p.kind.IfAbsent? && p.phase.Synced? && p.temp in s.files
      case RemoveTemp(_, _) => p.phase.Cleaning?
      case UserSaves(_) => true
  }

  function Moves(s: State, w: nat, phase: Phase): State
    requires w < |s.writers|
  {
    s.(writers := s.writers[w := s.writers[w].(phase := phase)])
  }

  function Without(files: map<Path, Node>, path: Path): map<Path, Node> {
    map p | p in files && p != path :: files[p]
  }

  function Apply(s: State, step: Step): State
    requires Enabled(s, step)
  {
    if step.UserSaves? then
      s.(files := s.files[s.target := Node(step.content, true)], whole := s.whole + {step.content})
    else
      var p := s.writers[step.w];
      match step
      case Create(w, ok) =>
        if ok then Moves(s.(files := s.files[p.temp := Node("", false)]), w, Writing(0))
        else Moves(s, w, Cleaning(Failed))
      case WriteSome(w, more) =>
        var count := p.phase.count + more;
        Moves(s.(files := s.files[p.temp := Node(p.content[..count], false)]), w, Writing(count))
      case WriteFails(w) => Moves(s, w, Cleaning(Failed))
      case Sync(w, ok) =>
        if ok then Moves(s.(files := s.files[p.temp := Node(p.content, true)]), w, Synced(0))
        else Moves(s, w, Cleaning(Failed))
      case Rename(w, ok) =>
        if ok then Moves(s.(files := Without(s.files, p.temp)[s.target := s.files[p.temp]]), w, Finished(Installed))
        else if p.phase.attempt + 1 < RENAME_RETRIES then Moves(s, w, Synced(p.phase.attempt + 1))
        else Moves(s, w, Cleaning(Failed))
      case HardLink(w, ok) =>
        if !ok then Moves(s, w, Cleaning(Failed))
        else if s.target in s.files then Moves(s, w, Cleaning(AlreadyThere))
        else Moves(s.(files := s.files[s.target := s.files[p.temp]]), w, Cleaning(Installed))
      case RemoveTemp(w, ok) =>
        Moves(if ok then s.(files := Without(s.files, p.temp)) else s, w, Finished(p.phase.result))
      case UserSaves(_) => s
  }

  /** Nobody has started; temporary names differ from each other and from the target. */
  predicate Initial(s: State) {
    && (s.target in s.files ==> s.files[s.target].synced && s.files[s.target].data in s.whole)
    && (forall w :: 0 <= w < |s.writers| ==>
          s.writers[w].phase.Start? && s.writers[w].temp != s.target && s.writers[w].content in s.whole)
    && PrivateTemps(s)
  }

  predicate PrivateTemps(s: State) {
    && (forall w :: 0 <= w < |s.writers| ==> s.writers[w].temp != s.target)
    && (forall v, w :: 0 <= v < w < |s.writers| ==> s.writers[v].temp != s.writers[w].temp)
  }

  // -------------------------------------------------------------------- invariant

  /** The target, if there, is one complete content and on disk. */
  predicate TargetIsWhole(s: State) {
    s.target in s.files ==> s.files[s.target].synced && s.files[s.target].data in s.whole
  }

  /** What a writer's temporary file holds in each phase. */
  predicate TempFits(s: State, p: Writer) {
    match p.phase
    case Writing(count) => p.temp in s.files && count <= |p.content| && s.files[p.temp] == Node(p.content[..count], false)
    case Synced(attempt) => p.temp in s.files && s.files[p.temp] == Node(p.content, true) && attempt < RENAME_RETRIES
    case _ => true
  }

  predicate Safe(s: State) {
    && PrivateTemps(s) && TargetIsWhole(s)
    && (forall w :: 0 <= w < |s.writers| ==> s.writers[w].content in s.whole && TempFits(s, s.writers[w]))
  }

  lemma InitialIsSafe(s: State)
    requires Initial(s)
    ensures Safe(s)
  {}

  /** Who writes what where never changes. */
  lemma StepKeepsNames(s: State, step: Step)
    requires PrivateTemps(s) && Enabled(s, step)
    ensures PrivateTemps(Apply(s, step)) && |Apply(s, step).writers| == |s.writers|
  {
    NamesStay(s, step);
    hide Apply, Enabled;
  }

  lemma NamesStay(s: State, step: Step)
    requires Enabled(s, step)
    ensures var t := Apply(s, step); t.target == s.target && |t.writers| == |s.writers|
    ensures forall w :: 0 <= w < |s.writers| ==> Apply(s, step).writers[w].temp == s.writers[w].temp
  {
  }

  lemma StepKeepsTarget(s: State, step: Step)
    requires Safe(s) && Enabled(s, step)
    ensures TargetIsWhole(Apply(s, step))
  {
    if !step.UserSaves? {
      var p := s.writers[step.w];
      assert p.temp != s.target && TempFits(s, p) && p.content in s.whole;
    }
    hide PrivateTemps, Safe;
  }

  /** The step of one writer leaves the temporary files of the others alone. */
  lemma StepKeepsTemps(s: State, step: Step, w: nat)
    requires Safe(s) && Enabled(s, step) && w < |s.writers|
    ensures var t := Apply(s, step); w < |t.writers| && t.writers[w].content in t.whole && TempFits(t, t.writers[w])
  {
    if !step.UserSaves? {
      var v := step.w;
      assert v < w ==> s.writers[v].temp != s.writers[w].temp;
      assert w < v ==> s.writers[w].temp != s.writers[v].temp;
      if step.Sync? { assert s.writers[v].content[..|s.writers[v].content|] == s.writers[v].content; }
    }
  }

  lemma StepIsSafe(s: State, step: Step)
    requires Safe(s) && Enabled(s, step)
    ensures Safe(Apply(s, step))
  {
    hide TempFits, PrivateTemps, TargetIsWhole;
    StepKeepsTarget(s, step);
    StepKeepsNames(s, step);
    forall w | 0 <= w < |s.writers| { StepKeepsTemps(s, step, w); }
  }

  // ------------------------------------------------------------------ whole runs

  predicate Possible(s: State, steps: seq<Step>)
    decreases |steps|
  {
    steps == [] || (Enabled(s, steps[0]) && Possible(Apply(s, steps[0]), steps[1..]))
  }

  function Run(s: State, steps: seq<Step>): State
    requires Possible(s, steps)
    decreases |steps|
  {
    if steps == [] then s else Run(Apply(s, steps[0]), steps[1..])
  }

  lemma {:induction false} RunIsSafe(s: State, steps: seq<Step>)
    requires Safe(s) && Possible(s, steps)
    ensures Safe(Run(s, steps)) && Run(s, steps).target == s.target
    decreases |steps|
  {
    hide Safe, Enabled;
    if steps != [] {
      StepIsSafe(s, steps[0]);
      RunIsSafe(Apply(s, steps[0]), steps[1..]);
    }
  }

  /** After a crash, a file that was not synced may hold any prefix of its bytes; synced files are intact. */
  predicate CrashOf(s: State, disk: map<Path, Node>) {
    && disk.Keys == s.files.Keys
    && forall p :: p in disk ==>
         if s.files[p].synced then disk[p].data == s.files[p].data else disk[p].data <= s.files[p].data
  }

  /**
   At every crash point of every interleaving the target holds a complete content: the old one, one the user
   saved, or the whole content of one of the writers; and it is there whenever it was there before the crash.
   A directory update that had not reached the disk is a crash at an earlier point, which is covered as well.
   */
  lemma CrashLeavesWholeTarget(s: State, steps: seq<Step>, disk: map<Path, Node>)
    requires Initial(s) && Possible(s, steps) && CrashOf(Run(s, steps), disk)
    ensures s.target in disk <==> s.target in Run(s, steps).files
    ensures s.target in disk ==> disk[s.target].data in Run(s, steps).whole
  {
    hide Apply, Enabled;
    InitialIsSafe(s);
    RunIsSafe(s, steps);
  }

  /** The contents that count as complete are the initial ones and those the user saved. */
  lemma {:induction false} WholeGrowsBySavesOnly(s: State, steps: seq<Step>, content: string)
    requires Possible(s, steps)
    ensures content in Run(s, steps).whole <==> content in s.whole || exists i :: 0 <= i < |steps| && steps[i] == UserSaves(content)
    decreases |steps|
  {
    if steps != [] {
      WholeGrowsBySavesOnly(Apply(s, steps[0]), steps[1..], content);
      assert steps == [steps[0]] + steps[1..];
      if i :| 0 <= i < |steps[1..]| && steps[1..][i] == UserSaves(content) {
        assert steps[i + 1] == UserSaves(content);
      }
      if i :| 0 <= i < |steps| && steps[i] == UserSaves(content) {
        assert i > 0 ==> steps[1..][i - 1] == UserSaves(content);
      }
    }
  }

  /** The old content of the target, if there is one, and the contents to be written. */
  function OldAndNew(s: State): set<string> {
    (if s.target in s.files then {s.files[s.target].data} else {})
    + set w | 0 <= w < |s.writers| :: s.writers[w].content
  }

  /** Without a save by the user, a crash leaves the old content or the complete content of one writer. */
  lemma CrashLeavesOldOrNew(s: State, steps: seq<Step>, disk: map<Path, Node>)
    requires Initial(s) && s.whole == OldAndNew(s) && Possible(s, steps) && CrashOf(Run(s, steps), disk)
    requires forall i :: 0 <= i < |steps| ==> !steps[i].UserSaves?
    ensures s.target in disk ==>
              || (s.target in s.files && disk[s.target].data == s.files[s.target].data)
              || exists w :: 0 <= w < |s.writers| && disk[s.target].data == s.writers[w].content
    ensures s.target in s.files ==> s.target in disk
  {
    hide Enabled, Apply, CrashOf, Possible, Run, Initial;
    CrashLeavesWholeTarget(s, steps, disk);
    if s.target in disk { WholeGrowsBySavesOnly(s, steps, disk[s.target].data); }
    if s.target in s.files {
      InitialIsSafe(s);
      TargetStays(s, steps);
    }
  }

  /** A target that is there is never taken away. */
  lemma {:induction false} TargetStays(s: State, steps: seq<Step>)
    requires Safe(s) && Possible(s, steps) && s.target in s.files
    ensures s.target in Run(s, steps).files
    decreases |steps|
  {
    hide TempFits, TargetIsWhole;
    if steps != [] {
      StepIsSafe(s, steps[0]);
      TargetStays(Apply(s, steps[0]), steps[1..]);
    }
  }

  /** Only a successful rename or link, or the user, changes the target; and then it shows exactly that content. */
  lemma OnlyInstallingChangesTarget(s: State, step: Step)
    requires Safe(s) && Enabled(s, step)
    ensures var t := Apply(s, step);
            var same := (s.target in t.files <==> s.target in s.files)
                        && (s.target in s.files ==> t.files[s.target] == s.files[s.target]);
            match step
            case UserSaves(content) => s.target in t.files && t.files[s.target] == Node(content, true)
            case Rename(w, true) => s.target in t.files && t.files[s.target] == Node(s.writers[w].content, true)
            case HardLink(w, true) =>
              if s.target in s.files then same
              else s.target in t.files && t.files[s.target] == Node(s.writers[w].content, true)
            case _ => same
  {
    if !step.UserSaves? {
      assert TempFits(s, s.writers[step.w]);
    }
  }

  predicate SameAt(a: map<Path, Node>, b: map<Path, Node>, p: Path) {
    (p in a <==> p in b) && (p in a ==> a[p] == b[p])
  }

  /**
   What each step does to each file: writing touches the writer's temporary file, a rename moves that over the target,
   a link gives it the target's name if that is free, a removal takes it away, and no step touches any other file.
   */
  lemma StepExactly(s: State, step: Step, p: Path)
    requires Safe(s) && Enabled(s, step)
    ensures var before, after := s.files, Apply(s, step).files;
            match step
            case Create(w, true) =>
              if p == s.writers[w].temp then p in after && after[p] == Node("", false) else SameAt(before, after, p)
            case WriteSome(w, more) =>
              if p == s.writers[w].temp
              then p in after && after[p] == Node(s.writers[w].content[..s.writers[w].phase.count + more], false)
              else SameAt(before, after, p)
            case Sync(w, true) =>
              if p == s.writers[w].temp then p in after && after[p] == Node(s.writers[w].content, true)
              else SameAt(before, after, p)
            case Rename(w, true) =>
              if p == s.target then p in after && after[p] == Node(s.writers[w].content, true)
              else if p == s.writers[w].temp then p !in after else SameAt(before, after, p)
            case HardLink(w, true) =>
              if p == s.target && p !in before then p in after && after[p] == Node(s.writers[w].content, true)
              else SameAt(before, after, p)
            case RemoveTemp(w, true) => if p == s.writers[w].temp then p !in after else SameAt(before, after, p)
            case UserSaves(content) =>
              if p == s.target then p in after && after[p] == Node(content, true) else SameAt(before, after, p)
            case _ => SameAt(before, after, p)
  {
    if !step.UserSaves? {
      assert TempFits(s, s.writers[step.w]) && s.writers[step.w].temp != s.target;
    }
    hide PrivateTemps, Safe, TempFits;
  }

  // ------------------------------------------------- installing without replacing

  predicate OnlyIfAbsent(s: State) {
    forall w :: 0 <= w < |s.writers| ==> s.writers[w].kind.IfAbsent?
  }

  /** The writer has installed its content: it returned true, or will once its temp file is gone. */
  predicate Won(p: Writer) {
    (p.phase.Cleaning? || p.phase.Finished?) && p.phase.result == Installed
  }

  lemma LinkersStay(s: State, step: Step)
    requires OnlyIfAbsent(s) && Enabled(s, step)
    ensures OnlyIfAbsent(Apply(s, step)) && |Apply(s, step).writers| == |s.writers|
  {}

  lemma LinkersNeverReplace(s: State, step: Step)
    requires Safe(s) && OnlyIfAbsent(s) && Enabled(s, step) && !step.UserSaves? && s.target in s.files
    ensures var t := Apply(s, step);
            && s.target in t.files && t.files[s.target] == s.files[s.target]
            && (forall w :: 0 <= w < |s.writers| ==> (Won(t.writers[w]) <==> Won(s.writers[w])))
  {}

  /** Any number of `write_atomic_if_absent` calls never replace an existing target. */
  lemma {:induction false} ExistingTargetIsKept(s: State, steps: seq<Step>)
    requires Safe(s) && OnlyIfAbsent(s) && Possible(s, steps) && s.target in s.files
    requires forall i :: 0 <= i < |steps| ==> !steps[i].UserSaves?
    ensures var t := Run(s, steps);
            && s.target in t.files && t.files[s.target] == s.files[s.target] && |t.writers| == |s.writers|
            && (forall w :: 0 <= w < |s.writers| ==> (Won(t.writers[w]) <==> Won(s.writers[w])))
    decreases |steps|
  {
    hide Safe, Apply, Enabled, Won, OnlyIfAbsent;
    if steps != [] {
      assert !steps[0].UserSaves?;
      LinkersNeverReplace(s, steps[0]);
      LinkersStay(s, steps[0]);
      StepIsSafe(s, steps[0]);
      SameTarget(s, steps[0]);
      ExistingTargetIsKept(Apply(s, steps[0]), steps[1..]);
    }
  }

  lemma SameTarget(s: State, step: Step)
    requires Enabled(s, step)
    ensures Apply(s, step).target == s.target
  {}

  /** Two different writers have both installed. */
  predicate TwoWon(s: State) {
    exists v, w :: 0 <= v < w < |s.writers| && Won(s.writers[v]) && Won(s.writers[w])
  }

  /** While nothing has the target's name, nobody has installed. */
  predicate NoneWonWithoutTarget(s: State) {
    s.target !in s.files ==> forall w :: 0 <= w < |s.writers| ==> !Won(s.writers[w])
  }

  lemma LinkStep(s: State, step: Step)
    requires Safe(s) && OnlyIfAbsent(s) && Enabled(s, step) && NoneWonWithoutTarget(s) && !TwoWon(s)
    ensures NoneWonWithoutTarget(Apply(s, step)) && !TwoWon(Apply(s, step))
  {
    var t := Apply(s, step);
    if s.target in s.files {
      if !step.UserSaves? { LinkersNeverReplace(s, step); }
      forall w | 0 <= w < |s.writers| ensures Won(t.writers[w]) <==> Won(s.writers[w]) {
        if step.UserSaves? { assert t.writers[w] == s.writers[w]; }
      }
    } else {
      forall w | 0 <= w < |s.writers| && (step.UserSaves? || w != step.w) ensures !Won(t.writers[w]) {
        assert t.writers[w] == s.writers[w];
      }
    }
  }

  /** Of any number of concurrent `write_atomic_if_absent` calls, at most one returns true. */
  lemma {:induction false} AtMostOneInstalls(s: State, steps: seq<Step>)
    requires Safe(s) && OnlyIfAbsent(s) && Possible(s, steps) && NoneWonWithoutTarget(s) && !TwoWon(s)
    ensures !TwoWon(Run(s, steps))
    decreases |steps|
  {
    hide Safe, Apply, Enabled, OnlyIfAbsent, NoneWonWithoutTarget, TwoWon;
    if steps != [] {
      LinkStep(s, steps[0]);
      LinkersStay(s, steps[0]);
      StepIsSafe(s, steps[0]);
      AtMostOneInstalls(Apply(s, steps[0]), steps[1..]);
    }
  }

  /** From the start, with nothing installed yet, that is so for every interleaving. */
  lemma AtMostOneReturnsTrue(s: State, steps: seq<Step>, v: nat, w: nat)
    requires Initial(s) && OnlyIfAbsent(s) && Possible(s, steps)
    requires v < w < |Run(s, steps).writers|
    ensures Run(s, steps).writers[v].phase == Finished(Installed) ==> Run(s, steps).writers[w].phase != Finished(Installed)
  {
    hide Apply, Enabled;
    InitialIsSafe(s);
    AtMostOneInstalls(s, steps);
  }
}
