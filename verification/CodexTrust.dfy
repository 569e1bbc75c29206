/**
 Trust entries in the Codex configuration: CC-Panes grants trust to projects the user has not decided about, marks
 what it wrote where TOML allows a comment, and takes back exactly what is marked.
 */
module CodexTrust {
  import opened JsonValues
  import opened ManagedUrl
  import opened SetIteration

  const TRUST_LEVEL := "trust_level"
  const CCPANES := "ccpanes"

  /** `marked`: the value's trailing comment holds the ownership marker. */
  datatype Field = Field(value: string, marked: bool)

  datatype Project = NotTable(raw: string) | Table(inline: bool, fields: map<string, Field>)

  type Entries = map<string, Project>

  function Lookup(entries: Entries, key: string): Option<Project> {
    if key in entries then Some(entries[key]) else None
  }

  lemma SameEntries(a: Entries, b: Entries)
    requires forall key :: Lookup(a, key) == Lookup(b, key)
    ensures a == b
  {
    forall key ensures (key in a <==> key in b) && (key in a ==> a[key] == b[key]) {
      assert Lookup(a, key) == Lookup(b, key);
    }
  }

  predicate Decided(project: Project) { project.Table? && TRUST_LEVEL in project.fields }

  predicate Marked(project: Project) { Decided(project) && project.fields[TRUST_LEVEL].marked }

  // -------------------------------------------------------------- granting trust

  /** `trusted_value`: inline tables cannot hold a comment. */
  function TrustedValue(inline: bool): Field { Field("trusted", !inline) }

  function NewTrustedProject(inline: bool): Project { Table(inline, map[TRUST_LEVEL := TrustedValue(inline)]) }

  /** A targeted project afterwards; `inline` says whether `projects` itself is an inline table. */
  function Granted(project: Option<Project>, inline: bool): Option<Project> {
    match project
    case None => Some(NewTrustedProject(inline))
    case Some(NotTable(_)) => project
    case Some(Table(own, fields)) =>
      if TRUST_LEVEL in fields then project else Some(Table(own, fields[TRUST_LEVEL := TrustedValue(own)]))
  }

  function Merged(entries: Entries, inline: bool, keys: set<string>): Entries {
    map key | key in entries.Keys + keys :: if key in keys then Granted(Lookup(entries, key), inline).value else entries[key]
  }

  lemma MergedAt(entries: Entries, inline: bool, keys: set<string>, key: string)
    ensures Lookup(Merged(entries, inline, keys), key)
         == if key in keys then Granted(Lookup(entries, key), inline) else Lookup(entries, key)
  {
  }

  /** A targeted entry that is no table stops the whole merge. */
  predicate Refused(entries: Entries, keys: set<string>) {
    exists key :: key in keys && key in entries && entries[key].NotTable?
  }

  lemma MergeOneMore(entries: Entries, inline: bool, done: set<string>, key: string, merged: Entries)
    requires merged == Merged(entries, inline, done) && key !in done
    ensures Lookup(merged, key) == Lookup(entries, key)
    ensures merged[key := Granted(Lookup(entries, key), inline).value] == Merged(entries, inline, done + {key})
    ensures key in merged && Decided(merged[key]) ==> merged == Merged(entries, inline, done + {key})
  {
    hide Granted, Decided;
    GrantChanges(Lookup(entries, key), inline);
    MergedAt(entries, inline, done, key);
    var next := Merged(entries, inline, done + {key});
    forall k ensures Lookup(merged[key := Granted(Lookup(entries, key), inline).value], k) == Lookup(next, k) {
      MergedAt(entries, inline, done, k);
      MergedAt(entries, inline, done + {key}, k);
    }
    SameEntries(merged[key := Granted(Lookup(entries, key), inline).value], next);
    if key in merged && Decided(merged[key]) { assert merged[key := merged[key]] == merged; }
  }

  lemma GrantChanges(project: Option<Project>, inline: bool)
    ensures Granted(project, inline).Some?
    ensures Granted(project, inline) == project <==> project.Some? && (project.value.NotTable? || Decided(project.value))
  {
  }

  /** The loop over the targeted projects; `changed` is what decides whether the file is written. */
  method MergeTrustedProjects(entries: Entries, inline: bool, keys: set<string>)
    returns (ok: bool, merged: Entries, changed: bool)
    ensures ok <==> !Refused(entries, keys)
    ensures ok ==> merged == Merged(entries, inline, keys) && (changed <==> merged != entries)
  {
    hide Merged, Refused, Lookup;
    RefusedFor(entries, keys);
    merged, changed := entries, false;
    MergedNone(entries, inline);
    var todo, done: set<string> := keys, {};
    while todo != {}
      invariant Split(keys, done, todo)
      invariant merged == Merged(entries, inline, done)
      invariant changed <==> merged != entries
      invariant forall key :: key in done && key in entries ==> entries[key].Table?
      decreases todo
    {
      var key :| key in todo;
      TakeOne(keys, done, todo, key);
      MergeOneMore(entries, inline, done, key, merged);
      EntryAt(merged, entries, key);
      GrantChanges(Lookup(entries, key), inline);
      if key in merged {
        if merged[key].NotTable? { return false, entries, false; }
        if TRUST_LEVEL !in merged[key].fields {
          StillDifferent(entries, inline, done, key);
          merged := merged[key := merged[key].(fields := merged[key].fields[TRUST_LEVEL := TrustedValue(merged[key].inline)])];
          changed := true;
        }
      } else {
        StillDifferent(entries, inline, done, key);
        merged := merged[key := NewTrustedProject(inline)];
        changed := true;
      }
      todo, done := todo - {key}, done + {key};
    }
    AllDone(keys, done);
    ok := true;
  }

  lemma RefusedFor(entries: Entries, keys: set<string>)
    ensures Refused(entries, keys) <==> exists key :: key in keys && key in entries && entries[key].NotTable?
  {
  }

  lemma MergedNone(entries: Entries, inline: bool)
    ensures Merged(entries, inline, {}) == entries
  {
    SameEntries(Merged(entries, inline, {}), entries);
  }

  lemma EntryAt(a: Entries, b: Entries, key: string)
    ensures Lookup(a, key) == Lookup(b, key) ==> (key in a <==> key in b) && (key in a ==> a[key] == b[key])
    ensures Lookup(b, key) == if key in b then Some(b[key]) else None
  {
  }

  /** Once an undecided project is granted trust, the map differs from the original. */
  lemma StillDifferent(entries: Entries, inline: bool, done: set<string>, key: string)
    requires key !in entries || (entries[key].Table? && !Decided(entries[key]))
    ensures Merged(entries, inline, done + {key}) != entries
  {
    GrantChanges(Lookup(entries, key), inline);
    MergedAt(entries, inline, done + {key}, key);
  }

  /** Granting again changes nothing, so a repeated prewrite does not write. */
  lemma PrewriteTwice(entries: Entries, inline: bool, keys: set<string>)
    ensures Merged(Merged(entries, inline, keys), inline, keys) == Merged(entries, inline, keys)
    ensures Refused(Merged(entries, inline, keys), keys) <==> Refused(entries, keys)
  {
    hide Merged, Lookup, Granted;
    var once := Merged(entries, inline, keys);
    forall key ensures Lookup(Merged(once, inline, keys), key) == Lookup(once, key) {
      MergedAt(entries, inline, keys, key);
      MergedAt(once, inline, keys, key);
      GrantTwice(Lookup(entries, key), inline);
    }
    SameEntries(Merged(once, inline, keys), once);
    RefusedAfterMerge(entries, inline, keys, keys);
  }

  lemma GrantTwice(project: Option<Project>, inline: bool)
    ensures Granted(Granted(project, inline), inline) == Granted(project, inline)
  {
  }

  /**
   The entries after a prewrite, one by one: a target without a trust level gets one that says trusted, marked unless it
   stands in an inline table; a missing target gets an entry with that alone; nothing else changes.
   */
  lemma GrantedExactly(entries: Entries, inline: bool, keys: set<string>, key: string)
    ensures var after := Merged(entries, inline, keys);
      && (key in after <==> key in entries || key in keys)
      && (key in keys && key !in entries ==> after[key] == Table(inline, map["trust_level" := Field("trusted", !inline)]))
      && (key in entries && (key !in keys || entries[key].NotTable? || "trust_level" in entries[key].fields) ==>
            after[key] == entries[key])
      && (key in entries && key in keys && entries[key].Table? && "trust_level" !in entries[key].fields ==>
            && after[key].Table? && after[key].inline == entries[key].inline
            && forall f :: if f == "trust_level" then f in after[key].fields
                                && after[key].fields[f] == Field("trusted", !entries[key].inline)
                           else (f in after[key].fields <==> f in entries[key].fields)
                                && (f in entries[key].fields ==> after[key].fields[f] == entries[key].fields[f]))
  {
    hide Merged;
    MergedAt(entries, inline, keys, key);
  }

  lemma AllDecided(entries: Entries, inline: bool, keys: set<string>)
    requires !Refused(entries, keys)
    ensures forall key :: key in keys ==>
      var after := Merged(entries, inline, keys);
      key in after && after[key].Table? && "trust_level" in after[key].fields
  {
    hide Merged;
    forall key | key in keys
      ensures var after := Merged(entries, inline, keys);
        key in after && after[key].Table? && "trust_level" in after[key].fields
    {
      GrantedExactly(entries, inline, keys, key);
    }
  }

  predicate SameOtherwise(a: map<string, Field>, b: map<string, Field>) {
    && (forall f :: f in a && f != TRUST_LEVEL ==> f in b && a[f] == b[f])
    && (forall f :: f in b && f != TRUST_LEVEL ==> f in a)
  }

  /** A decision the user has taken, trusted or not, is never touched; nor is any other field. */
  lemma DecisionsAreKept(entries: Entries, inline: bool, keys: set<string>, key: string)
    requires key in entries
    ensures var after := Merged(entries, inline, keys);
      && key in after
      && (Decided(entries[key]) || key !in keys ==> after[key] == entries[key])
      && after[key].Table? == entries[key].Table?
      && (entries[key].Table? ==> after[key].inline == entries[key].inline && SameOtherwise(after[key].fields, entries[key].fields))
  {
    hide Merged;
    MergedAt(entries, inline, keys, key);
  }

  // -------------------------------------------------------------- taking it back

  function Without(fields: map<string, Field>): map<string, Field> {
    map f | f in fields && f != TRUST_LEVEL :: fields[f]
  }

  /** A project after cleanup: a marked trust level goes, and the project with it when nothing else is left. */
  function Cleared(project: Option<Project>): Option<Project> {
    if project.Some? && Marked(project.value) then
      var left := Without(project.value.fields);
      if left == map[] then None else Some(project.value.(fields := left))
    else project
  }

  function CleanedIn(entries: Entries, done: set<string>): Entries {
    map key | key in entries && (key in done ==> Cleared(Some(entries[key])).Some?)
      :: if key in done then Cleared(Some(entries[key])).value else entries[key]
  }

  function Cleaned(entries: Entries): Entries { CleanedIn(entries, entries.Keys) }

  lemma CleanedInAt(entries: Entries, done: set<string>, key: string)
    ensures Lookup(CleanedIn(entries, done), key)
         == if key in done then Cleared(Lookup(entries, key)) else Lookup(entries, key)
  {
    hide Marked, Without;
  }

  lemma CleanedAt(entries: Entries, key: string)
    ensures Lookup(Cleaned(entries), key) == Cleared(Lookup(entries, key))
  {
    CleanedInAt(entries, entries.Keys, key);
  }

  function Replaced(entries: Entries, key: string, project: Option<Project>): Entries {
    map k | k in entries.Keys + {key} && (k == key ==> project.Some?) :: if k == key then project.value else entries[k]
  }

  lemma CleanOneMore(entries: Entries, done: set<string>, key: string)
    requires key !in done
    ensures CleanedIn(entries, done + {key}) == Replaced(CleanedIn(entries, done), key, Cleared(Lookup(entries, key)))
  {
    hide CleanedIn, Cleared, Lookup, Replaced;
    var l, r := CleanedIn(entries, done + {key}), Replaced(CleanedIn(entries, done), key, Cleared(Lookup(entries, key)));
    forall k ensures Lookup(l, k) == Lookup(r, k) {
      CleanedInAt(entries, done, k);
      CleanedInAt(entries, done + {key}, k);
      ReplacedAt(CleanedIn(entries, done), key, Cleared(Lookup(entries, key)), k);
    }
    SameEntries(l, r);
  }

  lemma ReplacedAt(entries: Entries, key: string, project: Option<Project>, k: string)
    ensures Lookup(Replaced(entries, key, project), k) == if k == key then project else Lookup(entries, k)
  {
  }

  lemma ReplacedBySame(entries: Entries, key: string)
    ensures Replaced(entries, key, Lookup(entries, key)) == entries
  {
    SameEntries(Replaced(entries, key, Lookup(entries, key)), entries);
  }

  lemma CleanedNone(entries: Entries)
    ensures CleanedIn(entries, {}) == entries
  {
    SameEntries(CleanedIn(entries, {}), entries);
  }

  lemma ClearChanges(project: Option<Project>)
    ensures Cleared(project) != project <==> project.Some? && Marked(project.value)
  {
  }

  lemma CleaningShows(entries: Entries, done: set<string>, key: string)
    requires key in entries && Marked(entries[key])
    ensures CleanedIn(entries, done + {key}) != entries
  {
    CleanedInAt(entries, done + {key}, key);
    ClearChanges(Lookup(entries, key));
  }

  /** The loop over the keys present at the start. */
  method RemoveMarked(entries: Entries) returns (cleaned: Entries, changed: bool)
    ensures cleaned == Cleaned(entries)
    ensures changed <==> cleaned != entries
  {
    hide CleanedIn, Lookup, Marked, Without, Replaced;
    CleanedNone(entries);
    cleaned, changed := entries, false;
    var todo, done: set<string> := entries.Keys, {};
    while todo != {}
      invariant Split(entries.Keys, done, todo)
      invariant cleaned == CleanedIn(entries, done)
      invariant changed <==> cleaned != entries
      decreases todo
    {
      var key :| key in todo;
      TakeOne(entries.Keys, done, todo, key);
      CleanedInAt(entries, done, key);
      EntryAt(cleaned, entries, key);
      CleanOneMore(entries, done, key);
      ReplacedBySame(cleaned, key);
      ClearChanges(Lookup(entries, key));
      var project := cleaned[key];
      if Marked(project) {
        CleaningShows(entries, done, key);
        MarkedIsTable(project);
        var fields := Without(project.fields);
        changed := true;
        cleaned := Replaced(cleaned, key, if fields == map[] then None else Some(project.(fields := fields)));
      }
      todo, done := todo - {key}, done + {key};
    }
    AllDone(entries.Keys, done);
  }

  /** Exactly the marked trust levels go; a project goes only when a marked trust level was all it held. */
  lemma CleanupExactly(entries: Entries, key: string)
    ensures key in Cleaned(entries) <==> key in entries && !(Marked(entries[key]) && entries[key].fields.Keys == {TRUST_LEVEL})
    ensures key in Cleaned(entries) ==>
      if Marked(entries[key])
      then Cleaned(entries)[key] == Table(entries[key].inline, Without(entries[key].fields))
      else Cleaned(entries)[key] == entries[key]
  {
    hide Cleaned;
    CleanedAt(entries, key);
    if key in entries && Marked(entries[key]) { OnlyTrust(entries[key].fields); }
  }

  lemma OnlyTrust(fields: map<string, Field>)
    requires TRUST_LEVEL in fields
    ensures Without(fields) == map[] <==> fields.Keys == {TRUST_LEVEL}
  {
    if fields.Keys != {TRUST_LEVEL} {
      var f :| f in fields && f != TRUST_LEVEL;
      assert f in Without(fields);
    }
  }

  lemma NothingMarkedLeft(entries: Entries, key: string)
    ensures key in Cleaned(entries) ==> !Marked(Cleaned(entries)[key])
    ensures Cleaned(Cleaned(entries)) == Cleaned(entries)
  {
    hide Cleaned, Cleared, Lookup;
    var once := Cleaned(entries);
    forall k ensures Lookup(Cleaned(once), k) == Lookup(once, k) {
      CleanedAt(entries, k);
      CleanedAt(once, k);
      ClearTwice(Lookup(entries, k));
    }
    SameEntries(Cleaned(once), once);
    CleanedAt(entries, key);
    ClearTwice(Lookup(entries, key));
    ClearChanges(Lookup(once, key));
    EntryAt(once, once, key);
  }

  lemma ClearTwice(project: Option<Project>)
    ensures Cleared(Cleared(project)) == Cleared(project)
  {
  }

  // ----------------------------------------------- runs of launches and cleanups

  datatype Step = Grant(keys: set<string>) | CleanUp

  function Apply(entries: Entries, inline: bool, step: Step): Entries {
    match step
    case Grant(keys) => if Refused(entries, keys) then entries else Merged(entries, inline, keys)
    case CleanUp => Cleaned(entries)
  }

  function After(entries: Entries, inline: bool, steps: seq<Step>): Entries
    decreases |steps|
  {
    if steps == [] then entries else After(Apply(entries, inline, steps[0]), inline, steps[1..])
  }

  /** The keys of all prewrites that are not refused; refusal depends on the original entries alone. */
  function KeysGranted(entries: Entries, steps: seq<Step>): set<string>
    decreases |steps|
  {
    if steps == [] then {}
    else
      (if steps[0].Grant? && !Refused(entries, steps[0].keys) then steps[0].keys else {})
      + KeysGranted(entries, steps[1..])
  }

  lemma RefusedAfterMerge(entries: Entries, inline: bool, keys: set<string>, others: set<string>)
    ensures Refused(Merged(entries, inline, keys), others) <==> Refused(entries, others)
  {
    hide Merged;
    var after := Merged(entries, inline, keys);
    forall key ensures key in after && after[key].NotTable? <==> key in entries && entries[key].NotTable? {
      MergedAt(entries, inline, keys, key);
    }
  }

  /** No step turns an entry into a table or out of one. */
  lemma RefusalIsStable(entries: Entries, inline: bool, step: Step, keys: set<string>)
    ensures Refused(Apply(entries, inline, step), keys) <==> Refused(entries, keys)
  {
    hide Merged, Cleaned, Marked;
    match step
    case Grant(granted) => RefusedAfterMerge(entries, inline, granted, keys);
    case CleanUp =>
      var after := Cleaned(entries);
      forall key ensures key in after && after[key].NotTable? <==> key in entries && entries[key].NotTable? {
        CleanedAt(entries, key);
        if key in entries { MarkedIsTable(entries[key]); }
      }
  }

  lemma MarkedIsTable(project: Project)
    ensures Marked(project) ==> project.Table?
  {
  }

  lemma {:induction false} KeysStable(entries: Entries, inline: bool, step: Step, steps: seq<Step>)
    ensures KeysGranted(Apply(entries, inline, step), steps) == KeysGranted(entries, steps)
    decreases |steps|
  {
    hide Refused, Apply;
    if steps != [] {
      if steps[0].Grant? { RefusalIsStable(entries, inline, step, steps[0].keys); }
      KeysStable(entries, inline, step, steps[1..]);
    }
  }

  /** TOML allows comments in standard tables only, and standard tables in standard tables only. */
  predicate WellFormedAt(project: Option<Project>, inline: bool) {
    project.Some? && project.value.Table? ==>
      (inline ==> project.value.inline) && (project.value.inline ==> !Marked(project.value))
  }

  ghost predicate WellFormed(entries: Entries, inline: bool) {
    forall key :: WellFormedAt(Lookup(entries, key), inline)
  }

  lemma StaysWellFormed(project: Option<Project>, inline: bool)
    requires WellFormedAt(project, inline)
    ensures WellFormedAt(Granted(project, inline), inline) && WellFormedAt(Cleared(project), inline)
  {
  }

  lemma WithoutTrust(fields: map<string, Field>)
    requires TRUST_LEVEL in fields
    ensures Without(fields[TRUST_LEVEL := TrustedValue(false)]) == Without(fields)
    ensures Without(Without(fields)[TRUST_LEVEL := TrustedValue(false)]) == Without(fields)
  {
  }

  /** Whether cleaned up in between or not, one more grant and cleanup lead to the same project. */
  lemma ClearBetween(project: Option<Project>, inline: bool)
    requires WellFormedAt(project, inline)
    ensures Cleared(Granted(Cleared(project), inline)) == Cleared(Granted(project, inline))
  {
    if project.Some? && Marked(project.value) {
      var fields := project.value.fields;
      WithoutTrust(fields);
      assert Without(map[TRUST_LEVEL := TrustedValue(false)]) == map[];
    }
  }

  function ApplyAt(project: Option<Project>, inline: bool, granted: bool, cleaned: bool): Option<Project> {
    if granted then Granted(project, inline) else if cleaned then Cleared(project) else project
  }

  lemma ApplyMeans(entries: Entries, inline: bool, step: Step, key: string)
    ensures Lookup(Apply(entries, inline, step), key)
         == ApplyAt(Lookup(entries, key), inline, key in KeysGranted(entries, [step]), step.CleanUp?)
  {
    hide Merged, Cleaned, Granted, Cleared, Refused;
    assert [step][1..] == [];
    match step
    case Grant(keys) => MergedAt(entries, inline, keys, key);
    case CleanUp => CleanedAt(entries, key);
  }

  /** After any run, cleanup leaves of a project what it would leave of it after one grant, or none. */
  lemma {:induction false} RunAt(entries: Entries, inline: bool, steps: seq<Step>, key: string)
    requires WellFormedAt(Lookup(entries, key), inline)
    ensures Cleared(Lookup(After(entries, inline, steps), key))
         == Cleared(if key in KeysGranted(entries, steps) then Granted(Lookup(entries, key), inline) else Lookup(entries, key))
    decreases |steps|
  {
    hide Apply, Granted, Cleared, Lookup, WellFormedAt, Refused;
    if steps != [] {
      var project, next := Lookup(entries, key), Apply(entries, inline, steps[0]);
      assert [steps[0]][1..] == [];
      ApplyMeans(entries, inline, steps[0], key);
      StaysWellFormed(project, inline);
      KeysStable(entries, inline, steps[0], steps[1..]);
      RunAt(next, inline, steps[1..], key);
      GrantTwice(project, inline);
      ClearTwice(project);
      ClearBetween(project, inline);
    }
  }

  /** What makes cleanup an exact undo of granting trust to `keys`. */
  predicate Reversible(entries: Entries, inline: bool, keys: set<string>) {
    && (forall key :: key in entries ==> !Marked(entries[key]))
    && (forall key :: key in keys && key !in entries ==> !inline)
    && (forall key ::
          key in keys && key in entries && entries[key].Table? && !Decided(entries[key])
          ==> !entries[key].inline && entries[key].fields != map[])
  }

  predicate ReversibleAt(project: Option<Project>, inline: bool, granted: bool) {
    match project
    case None => granted ==> !inline
    case Some(NotTable(_)) => true
    case Some(Table(own, fields)) =>
      if TRUST_LEVEL in fields then !fields[TRUST_LEVEL].marked else granted ==> !own && fields != map[]
  }

  lemma UndoneAt(project: Option<Project>, inline: bool, granted: bool)
    ensures Cleared(if granted then Granted(project, inline) else project) == project <==> ReversibleAt(project, inline, granted)
  {
    if project.Some? && project.value.Table? && TRUST_LEVEL !in project.value.fields {
      var fields := project.value.fields;
      assert Without(fields[TRUST_LEVEL := TrustedValue(false)]) == fields;
      assert TRUST_LEVEL in fields[TRUST_LEVEL := TrustedValue(true)];
    }
    assert Without(map[TRUST_LEVEL := TrustedValue(false)]) == map[];
  }

  lemma ReversibleEverywhere(entries: Entries, inline: bool, keys: set<string>)
    ensures Reversible(entries, inline, keys) <==> forall key :: ReversibleAt(Lookup(entries, key), inline, key in keys)
  {
    forall key ensures ReversibleAt(Lookup(entries, key), inline, key in keys) <==>
      && (key in entries ==> !Marked(entries[key]))
      && (key in keys && key !in entries ==> !inline)
      && (key in keys && key in entries && entries[key].Table? && !Decided(entries[key])
          ==> !entries[key].inline && entries[key].fields != map[])
    {
    }
  }

  /**
   A cleanup after any run of launches and earlier cleanups restores the user's entries exactly when none carries
   the marker of its own, no missing project is granted trust in an inline table, and every granted project without
   a decision is a standard table that holds something.
   */
  lemma CleanupUndoesRunExactly(entries: Entries, inline: bool, steps: seq<Step>)
    requires WellFormed(entries, inline)
    ensures Cleaned(After(entries, inline, steps)) == entries
       <==> Reversible(entries, inline, KeysGranted(entries, steps))
  {
    hide After, Cleaned, KeysGranted, Cleared, Granted, Reversible, ReversibleAt, WellFormedAt;
    var keys, end := KeysGranted(entries, steps), Cleaned(After(entries, inline, steps));
    ReversibleEverywhere(entries, inline, keys);
    forall key ensures Lookup(end, key) == Lookup(entries, key) <==> ReversibleAt(Lookup(entries, key), inline, key in keys) {
      CleanedAt(After(entries, inline, steps), key);
      assert WellFormedAt(Lookup(entries, key), inline);
      RunAt(entries, inline, steps, key);
      UndoneAt(Lookup(entries, key), inline, key in keys);
    }
    if forall key :: Lookup(end, key) == Lookup(entries, key) { SameEntries(end, entries); }
  }

  /** An empty project that is granted trust is gone after the cleanup. */
  lemma EmptyProjectIsLost(key: string)
    ensures var entries := map[key := Table(false, map[])];
            WellFormed(entries, false) && Cleaned(After(entries, false, [Grant({key})])) == map[]
  {
    var entries: Entries := map[key := Table(false, map[])];
    var granted := GrantedOnce(entries, false, key);
    CleanedAt(granted, key);
    assert Without(map[TRUST_LEVEL := TrustedValue(false)]) == map[];
    forall k ensures Lookup(Cleaned(granted), k) == None {
      CleanedAt(granted, k);
      MergedAt(entries, false, {key}, k);
    }
    SameEntries(Cleaned(granted), map[]);
  }

  /** Trust granted to a project in an inline table cannot be marked, and stays. */
  lemma InlineTrustStays(key: string)
    ensures var entries := map[key := Table(true, map[])];
            && WellFormed(entries, true)
            && Cleaned(After(entries, true, [Grant({key})])) == map[key := Table(true, map[TRUST_LEVEL := TrustedValue(true)])]
  {
    var entries: Entries := map[key := Table(true, map[])];
    var granted := GrantedOnce(entries, true, key);
    var trusted: Entries := map[key := Table(true, map[TRUST_LEVEL := TrustedValue(true)])];
    forall k ensures Lookup(Cleaned(granted), k) == Lookup(trusted, k) {
      CleanedAt(granted, k);
      MergedAt(entries, true, {key}, k);
    }
    SameEntries(Cleaned(granted), trusted);
  }

  lemma GrantedOnce(entries: Entries, inline: bool, key: string) returns (granted: Entries)
    requires key in entries && entries[key].Table?
    ensures granted == After(entries, inline, [Grant({key})]) == Merged(entries, inline, {key})
  {
    granted := Merged(entries, inline, {key});
    assert [Grant({key})][1..] == [];
    hide Merged;
    assert After(granted, inline, []) == granted;
  }

  /** One launch and one cleanup, without any assumption on the document. */
  lemma CleanupUndoesPrewriteExactly(entries: Entries, inline: bool, keys: set<string>)
    ensures Cleaned(Merged(entries, inline, keys)) == entries <==> Reversible(entries, inline, keys)
  {
    hide Cleaned, Merged, Cleared, Granted, Reversible, ReversibleAt;
    var end := Cleaned(Merged(entries, inline, keys));
    ReversibleEverywhere(entries, inline, keys);
    forall key ensures Lookup(end, key) == Lookup(entries, key) <==> ReversibleAt(Lookup(entries, key), inline, key in keys) {
      CleanedAt(Merged(entries, inline, keys), key);
      MergedAt(entries, inline, keys, key);
      UndoneAt(Lookup(entries, key), inline, key in keys);
    }
    if forall key :: Lookup(end, key) == Lookup(entries, key) { SameEntries(end, entries); }
  }

  /** Through any run, an entry that is no table or holds an unmarked decision stays as the user left it. */
  lemma {:induction false} DecisionSurvives(entries: Entries, inline: bool, steps: seq<Step>, key: string)
    requires key in entries && (entries[key].NotTable? || (Decided(entries[key]) && !Marked(entries[key])))
    ensures Lookup(After(entries, inline, steps), key) == Some(entries[key])
    decreases |steps|
  {
    hide Apply, Marked, Decided, KeysGranted;
    if steps != [] {
      ApplyMeans(entries, inline, steps[0], key);
      GrantChanges(Lookup(entries, key), inline);
      ClearChanges(Lookup(entries, key));
      MarkedIsTable(entries[key]);
      DecisionSurvives(Apply(entries, inline, steps[0]), inline, steps[1..], key);
    }
  }

  // -------------------------------------------------------------------- the file

  /** The two keys the cleanup looks at, where they are strings, and the rest of the section. */
  datatype Server = Server(url: Option<string>, bearerVariable: Option<string>, rest: string)

  /** `is_stale_global_ccpanes_mcp_config`: the signature of the global section that old versions wrote. */
  predicate IsStale(server: Server) {
    (server.url.Some? && IsManagedUrl(server.url.value)) || server.bearerVariable == Some("CC_PANES_API_TOKEN")
  }

  /** Whatever URL the program printed into the section, for any port, token and launch id, marks it as stale. */
  lemma PrintedSectionIsStale(port: nat, token: string, launchId: Option<string>, bearer: Option<string>, rest: string)
    ensures IsStale(Server(Some(PrintedUrl(port, token, launchId)), bearer, rest))
  {
    hide IsManagedUrl, PrintedUrl;
    PrintedIsManaged(port, token, launchId);
  }

  datatype Item = Absent | NoTable(raw: string) | Listing(inline: bool, entries: Entries)

  datatype Document = Document(projects: Item, servers: map<string, Server>, others: string)

  datatype Content = NoFile | Blank | Malformed(text: string) | Parsed(doc: Document)

  datatype TrustError = NotToml | ProjectsNotTable | ProjectNotTable | WriteFailed

  const EMPTY := Document(Absent, map[], "")

  function DocumentIn(content: Content): Document { if content.Parsed? then content.doc else EMPTY }

  function EntriesIn(doc: Document): Entries { if doc.projects.Listing? then doc.projects.entries else map[] }

  predicate InlineIn(doc: Document) { doc.projects.Listing? && doc.projects.inline }

  predicate StaleSection(doc: Document) { CCPANES in doc.servers && IsStale(doc.servers[CCPANES]) }

  function ServersLeft(doc: Document): map<string, Server> {
    if StaleSection(doc) then map name | name in doc.servers && name != CCPANES :: doc.servers[name] else doc.servers
  }

  function CleanDocument(doc: Document): Document {
    Document(if doc.projects.Listing? then Listing(doc.projects.inline, Cleaned(doc.projects.entries)) else doc.projects,
             ServersLeft(doc), doc.others)
  }

  function Refusal(content: Content, keys: set<string>): Option<TrustError> {
    if content.Malformed? then Some(NotToml)
    else if DocumentIn(content).projects.NoTable? then Some(ProjectsNotTable)
    else if Refused(EntriesIn(DocumentIn(content)), keys) then Some(ProjectNotTable)
    else None
  }

  /** The user's `config.toml`. */
  class CodexConfig {
    var content: Content

    constructor (content: Content)
      ensures this.content == content
    {
      this.content := content;
    }

    /** `prewrite_trusted_projects_at`: without yolo mode, a key, or a change, nothing is written. */
    method Prewrite(trustKeys: seq<string>, yolo: bool, writeFails: bool) returns (r: Result<bool, TrustError>)
      modifies this
      ensures var keys := set key | key in trustKeys && key != "";
        var doc := DocumentIn(old(content));
        var merged := Merged(EntriesIn(doc), InlineIn(doc), keys);
        if !yolo || keys == {} then r == Success(false) && content == old(content)
        else if Refusal(old(content), keys).Some? then r == Failure(Refusal(old(content), keys).value) && content == old(content)
        else if merged == EntriesIn(doc) then r == Success(false) && content == old(content)
        else if writeFails then r == Failure(WriteFailed) && content == old(content)
        else r == Success(true) && content == Parsed(doc.(projects := Listing(InlineIn(doc), merged)))
      ensures r.Failure? ==> content == old(content) && yolo && exists key :: key in trustKeys && key != ""
      ensures r == Failure(NotToml) ==> old(content).Malformed?
      ensures r == Failure(ProjectsNotTable) ==> old(content).Parsed? && old(content).doc.projects.NoTable?
      ensures r == Failure(ProjectNotTable) ==>
        && old(content).Parsed? && old(content).doc.projects.Listing?
        && (exists key :: key in trustKeys && key != "" && key in old(content).doc.projects.entries
              && old(content).doc.projects.entries[key].NotTable?)
      ensures r.Success? && yolo ==>
        forall key :: key in trustKeys && key != "" ==>
          && content.Parsed? && content.doc.projects.Listing? && key in content.doc.projects.entries
          && content.doc.projects.entries[key].Table? && "trust_level" in content.doc.projects.entries[key].fields
    {
      hide Merged, Refused;
      if !yolo { return Success(false); }
      var keys := set key | key in trustKeys && key != "";
      assert forall key :: key in trustKeys && key != "" ==> key in keys;
      if keys == {} { return Success(false); }
      if content.Malformed? { return Failure(NotToml); }
      var doc := DocumentIn(content);
      if doc.projects.NoTable? { return Failure(ProjectsNotTable); }
      var ok, merged, changed := MergeTrustedProjects(EntriesIn(doc), InlineIn(doc), keys);
      RefusedFor(EntriesIn(doc), keys);
      if !ok { return Failure(ProjectNotTable); }
      AllDecided(EntriesIn(doc), InlineIn(doc), keys);
      if !changed { return Success(false); }
      if writeFails { return Failure(WriteFailed); }
      content := Parsed(doc.(projects := Listing(InlineIn(doc), merged)));
      r := Success(true);
    }

    /** `remove_ccpanes_injections_at`. */
    method Cleanup(writeFails: bool) returns (r: Result<bool, TrustError>)
      modifies this
      ensures var doc := DocumentIn(old(content));
        if old(content).Malformed? then r == Failure(NotToml) && content == old(content)
        else if CleanDocument(doc) == doc then r == Success(false) && content == old(content)
        else if writeFails then r == Failure(WriteFailed) && content == old(content)
        else r == Success(true) && content == Parsed(CleanDocument(doc))
      ensures r.Success? && old(content).Parsed? ==>
        && content.Parsed? && content.doc.others == old(content).doc.others
        && (forall name :: name != "ccpanes" && name in old(content).doc.servers ==>
              name in content.doc.servers && content.doc.servers[name] == old(content).doc.servers[name])
        && (forall name :: name in content.doc.servers ==> name in old(content).doc.servers)
        && ("ccpanes" in old(content).doc.servers ==>
              var server := old(content).doc.servers["ccpanes"];
              if (server.url.Some? && IsManagedUrl(server.url.value)) || server.bearerVariable == Some("CC_PANES_API_TOKEN")
              then "ccpanes" !in content.doc.servers
              else "ccpanes" in content.doc.servers && content.doc.servers["ccpanes"] == server)
      ensures r.Success? && old(content).Parsed? ==>
        if old(content).doc.projects.Listing?
        then && content.doc.projects.Listing? && content.doc.projects.inline == old(content).doc.projects.inline
             && content.doc.projects.entries == Cleaned(old(content).doc.projects.entries)
        else content.doc.projects == old(content).doc.projects
    {
      hide Cleaned, IsManagedUrl;
      if content.NoFile? { return Success(false); }
      if content.Malformed? { return Failure(NotToml); }
      var doc := DocumentIn(content);
      var changed := false;
      var projects := doc.projects;
      if projects.Listing? {
        var cleaned, removed := RemoveMarked(projects.entries);
        changed := removed;
        projects := Listing(projects.inline, cleaned);
      }
      var servers := doc.servers;
      if StaleSection(doc) {
        servers := ServersLeft(doc);
        assert CCPANES in doc.servers && CCPANES !in servers;
        changed := true;
      }
      if !changed { return Success(false); }
      if writeFails { return Failure(WriteFailed); }
      content := Parsed(Document(projects, servers, doc.others));
      r := Success(true);
    }
  }
}
