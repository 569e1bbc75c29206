/** Syncing the CC-Panes hooks into a Claude settings file that the user edits too, and cleaning them out again. */
module HookSync {
  import opened JsonValues
  import opened HookCommand
  import opened HookTable
  import opened SetIteration

  /** Which hooks the user wants: a hook that is not mentioned is enabled. */
  type Wishes = map<string, bool>

  predicate Enabled(def: HookDef, wishes: Wishes) {
    def.name in wishes ==> wishes[def.name]
  }

  predicate AnyMatches(entry: Json, defs: seq<HookDef>) {
    exists d :: d in defs && MatchesDef(entry, d)
  }

  /** The entries none of the definitions claims: `retain`, once per definition. */
  function Keep(items: seq<Json>, defs: seq<HookDef>): seq<Json> {
    if items == [] then []
    else (if AnyMatches(items[0], defs) then [] else [items[0]]) + Keep(items[1..], defs)
  }

  /** The entries written for the enabled definitions, in table order. */
  function Written(defs: seq<HookDef>, wishes: Wishes, binary: string, shell: HookShell): seq<Json> {
    if defs == [] then []
    else Written(defs[..|defs| - 1], wishes, binary, shell)
         + (if Enabled(defs[|defs| - 1], wishes) then [EntryFor(defs[|defs| - 1], binary, shell)] else [])
  }

  /** The definitions of one event. */
  function DefsOf(defs: seq<HookDef>, event: string): seq<HookDef> {
    if defs == [] then []
    else DefsOf(defs[..|defs| - 1], event) + (if defs[|defs| - 1].event == event then [defs[|defs| - 1]] else [])
  }

  type Hooks = map<string, Json>

  function Lookup(hooks: Hooks, event: string): Option<Json> {
    if event in hooks then Some(hooks[event]) else None
  }

  /** The array of one event after `defs` have been merged into it; other values are left alone. */
  function Merged(before: Option<Json>, defs: seq<HookDef>, wishes: Wishes, binary: string, shell: HookShell)
    : Option<Json>
  {
    match before
    case Some(JArray(items)) => Some(JArray(Keep(items, defs) + Written(defs, wishes, binary, shell)))
    case Some(_) => before
    case None =>
      var written := Written(defs, wishes, binary, shell);
      if written == [] then None else Some(JArray(written))
  }

  function DropEmpty(value: Option<Json>): Option<Json> {
    if value == Some(JArray([])) then None else value
  }

  // --------------------------------------------------------------- one merge step

  lemma {:induction false} KeepOver(a: seq<Json>, b: seq<Json>, defs: seq<HookDef>)
    ensures Keep(a + b, defs) == Keep(a, defs) + Keep(b, defs)
  {
    hide AnyMatches;
    if a == [] {
      assert a + b == b;
    } else {
      assert (a + b)[1..] == a[1..] + b;
      KeepOver(a[1..], b, defs);
    }
  }

  lemma AnyMatchesOneMore(entry: Json, defs: seq<HookDef>, def: HookDef)
    ensures AnyMatches(entry, defs + [def]) <==> AnyMatches(entry, defs) || MatchesDef(entry, def)
    ensures AnyMatches(entry, [def]) <==> MatchesDef(entry, def)
  {
    hide MatchesDef;
    assert def in defs + [def] && def in [def];
  }

  lemma {:induction false} KeepOneMore(items: seq<Json>, defs: seq<HookDef>, def: HookDef)
    ensures Keep(Keep(items, defs), [def]) == Keep(items, defs + [def])
  {
    hide AnyMatches;
    if items != [] {
      AnyMatchesOneMore(items[0], defs, def);
      KeepOneMore(items[1..], defs, def);
      var more := Keep(items[1..], defs);
      assert ([items[0]] + more)[1..] == more && [] + more == more;
      assert [] + Keep(more, [def]) == Keep(more, [def]);
    }
  }

  lemma {:induction false} WrittenKept(defs: seq<HookDef>, def: HookDef, wishes: Wishes, binary: string, shell: HookShell)
    requires forall d :: d in defs ==> !MatcherFits(d.matcher, def)
    ensures Keep(Written(defs, wishes, binary, shell), [def]) == Written(defs, wishes, binary, shell)
  {
    hide AnyMatches, EntryFor, MatcherFits;
    if defs != [] {
      var before, last := defs[..|defs| - 1], defs[|defs| - 1];
      assert forall d :: d in before ==> d in defs;
      WrittenKept(before, def, wishes, binary, shell);
      if Enabled(last, wishes) {
        var entry := EntryFor(last, binary, shell);
        KeepOver(Written(before, wishes, binary, shell), [entry], [def]);
        NotClaimed(last, def, binary, shell);
        KeepOne(entry, [def]);
      } else {
        assert Written(before, wishes, binary, shell) + [] == Written(before, wishes, binary, shell);
      }
    }
  }

  lemma KeepOne(entry: Json, defs: seq<HookDef>)
    ensures Keep([entry], defs) == if AnyMatches(entry, defs) then [] else [entry]
  {
    hide AnyMatches;
    assert [entry][1..] == [];
  }

  lemma NotClaimed(def: HookDef, other: HookDef, binary: string, shell: HookShell)
    requires !MatcherFits(def.matcher, other)
    ensures !AnyMatches(EntryFor(def, binary, shell), [other])
  {
    hide IsOurs, EntryFor;
    EntryIsOurs(def, binary, shell);
    AnyMatchesOneMore(EntryFor(def, binary, shell), [], other);
  }

  lemma WrittenOneMore(defs: seq<HookDef>, def: HookDef, wishes: Wishes, binary: string, shell: HookShell)
    ensures Written(defs + [def], wishes, binary, shell)
         == Written(defs, wishes, binary, shell) + (if Enabled(def, wishes) then [EntryFor(def, binary, shell)] else [])
  {
    hide EntryFor;
    assert (defs + [def])[..|defs|] == defs;
  }

  /** Merging one more definition: drop what it claims, then add its entry if it is enabled. */
  lemma MergeOneMore(before: Option<Json>, defs: seq<HookDef>, def: HookDef, wishes: Wishes, binary: string, shell: HookShell)
    requires forall d :: d in defs ==> !MatcherFits(d.matcher, def)
    ensures Merged(before, defs + [def], wishes, binary, shell)
         == MergeStep(Merged(before, defs, wishes, binary, shell), def, wishes, binary, shell)
  {
    hide EntryFor, AnyMatches, MatcherFits, Keep, Written;
    WrittenOneMore(defs, def, wishes, binary, shell);
    WrittenKept(defs, def, wishes, binary, shell);
    match before {
      case Some(JArray(items)) =>
        KeepOver(Keep(items, defs), Written(defs, wishes, binary, shell), [def]);
        KeepOneMore(items, defs, def);
        var kept, written := Keep(items, defs + [def]), Written(defs, wishes, binary, shell);
        assert written + [] == written;
        assert kept + (written + [EntryFor(def, binary, shell)]) == kept + written + [EntryFor(def, binary, shell)];
      case Some(_) =>
      case None =>
        KeepEmpty([def]);
        assert Written(defs, wishes, binary, shell) + [] == Written(defs, wishes, binary, shell);
        assert [] + [EntryFor(def, binary, shell)] == [EntryFor(def, binary, shell)];
    }
  }

  lemma KeepEmpty(defs: seq<HookDef>)
    ensures Keep([], defs) == []
  {}

  /** `merge_ccpanes_hook_entry` for an enabled hook, `unregister_ccpanes_hook_entries_for_def` otherwise. */
  function MergeStep(value: Option<Json>, def: HookDef, wishes: Wishes, binary: string, shell: HookShell): Option<Json> {
    if Enabled(def, wishes) then
      (match value
       case None => Some(JArray(Keep([], [def]) + [EntryFor(def, binary, shell)]))
       case Some(JArray(items)) => Some(JArray(Keep(items, [def]) + [EntryFor(def, binary, shell)]))
       case Some(_) => value)
    else
      (match value
       case Some(JArray(items)) => Some(JArray(Keep(items, [def])))
       case _ => value)
  }

  // ------------------------------------------------------------------ the table loop

  lemma DefsOfOneMore(defs: seq<HookDef>, k: nat, event: string)
    requires k < |defs|
    ensures DefsOf(defs[..k + 1], event)
         == if defs[k].event == event then DefsOf(defs[..k], event) + [defs[k]] else DefsOf(defs[..k], event)
  {
    assert defs[..k + 1][..k] == defs[..k];
  }

  lemma {:induction false} DefsOfAreEarlier(defs: seq<HookDef>, k: nat, event: string)
    requires k <= |defs|
    ensures forall d :: d in DefsOf(defs[..k], event) ==> d.event == event && exists i :: 0 <= i < k && defs[i] == d
  {
    if k > 0 {
      DefsOfOneMore(defs, k - 1, event);
      DefsOfAreEarlier(defs, k - 1, event);
    }
  }

  /** In a separated table, a definition does not claim what the earlier ones of its event wrote. */
  lemma EarlierNotClaimed(defs: seq<HookDef>, k: nat)
    requires Separated(defs) && k < |defs|
    ensures forall d :: d in DefsOf(defs[..k], defs[k].event) ==> !MatcherFits(d.matcher, defs[k])
  {
    hide MatcherFits;
    DefsOfAreEarlier(defs, k, defs[k].event);
  }

  /** The hook map after the first `k` definitions of the table have been merged. */
  ghost predicate MergedUpTo(before: Hooks, now: Hooks, defs: seq<HookDef>, wishes: Wishes, binary: string, shell: HookShell)
  {
    forall e :: Lookup(now, e) == Merged(Lookup(before, e), DefsOf(defs, e), wishes, binary, shell)
  }

  lemma MergedNothing(before: Hooks, wishes: Wishes, binary: string, shell: HookShell)
    ensures MergedUpTo(before, before, [], wishes, binary, shell)
  {
    forall e ensures Lookup(before, e) == Merged(Lookup(before, e), DefsOf([], e), wishes, binary, shell) {
      match Lookup(before, e) {
        case Some(JArray(items)) =>
          KeepAll(items);
          assert items + [] == items;
        case _ =>
      }
    }
  }

  lemma {:induction false} KeepAll(items: seq<Json>)
    ensures Keep(items, []) == items
  {
    if items != [] { KeepAll(items[1..]); }
  }

  lemma MergedNext(before: Hooks, now: Hooks, after: Hooks, defs: seq<HookDef>, k: nat, wishes: Wishes, binary: string, shell: HookShell)
    requires Separated(defs) && k < |defs|
    requires MergedUpTo(before, now, defs[..k], wishes, binary, shell)
    requires forall e :: Lookup(after, e)
                      == if e == defs[k].event then MergeStep(Lookup(now, e), defs[k], wishes, binary, shell) else Lookup(now, e)
    ensures MergedUpTo(before, after, defs[..k + 1], wishes, binary, shell)
  {
    hide Merged, MergeStep, Separated, Lookup, DefsOf, MatcherFits;
    forall e ensures Lookup(after, e) == Merged(Lookup(before, e), DefsOf(defs[..k + 1], e), wishes, binary, shell) {
      DefsOfOneMore(defs, k, e);
      if e == defs[k].event {
        EarlierNotClaimed(defs, k);
        MergeOneMore(Lookup(before, e), DefsOf(defs[..k], e), defs[k], wishes, binary, shell);
      }
    }
  }

  /** `Vec::retain` with the entries of one definition as the ones to drop. */
  method Retain(items: seq<Json>, def: HookDef) returns (kept: seq<Json>)
    ensures kept == Keep(items, [def])
  {
    kept := [];
    var i := 0;
    assert items[0..] == items;
    while i < |items|
      invariant i <= |items| && kept + Keep(items[i..], [def]) == Keep(items, [def])
    {
      hide MatchesDef, Keep;
      KeepNext(items, i, def, kept);
      if !MatchesDef(items[i], def) { kept := kept + [items[i]]; }
      i := i + 1;
    }
  }

  lemma KeepNext(items: seq<Json>, i: nat, def: HookDef, kept: seq<Json>)
    requires i < |items|
    ensures kept + Keep(items[i..], [def])
         == (if MatchesDef(items[i], def) then kept else kept + [items[i]]) + Keep(items[i + 1..], [def])
  {
    hide MatchesDef, AnyMatches;
    AnyMatchesOneMore(items[i], [], def);
    assert items[i..][1..] == items[i + 1..];
    var more := Keep(items[i + 1..], [def]);
    assert [] + more == more && kept + ([items[i]] + more) == kept + [items[i]] + more;
  }

  /** One turn of the table loop on the hook map. */
  method Merge(hooks: Hooks, def: HookDef, wishes: Wishes, binary: string, shell: HookShell) returns (merged: Hooks)
    ensures forall e :: Lookup(merged, e)
                     == if e == def.event then MergeStep(Lookup(hooks, e), def, wishes, binary, shell) else Lookup(hooks, e)
  {
    hide EntryFor, Keep;
    merged := hooks;
    if Enabled(def, wishes) {
      if def.event !in merged { merged := merged[def.event := JArray([])]; }
      if merged[def.event].JArray? {
        var kept := Retain(merged[def.event].items, def);
        merged := merged[def.event := JArray(kept + [EntryFor(def, binary, shell)])];
      }
    } else if def.event in merged && merged[def.event].JArray? {
      var kept := Retain(merged[def.event].items, def);
      merged := merged[def.event := JArray(kept)];
    }
  }

  /** What a sync leaves under one event. */
  function SyncedEvent(before: Option<Json>, event: string, wishes: Wishes, binary: string, shell: HookShell): Option<Json> {
    DropEmpty(Merged(before, DefsOf(HOOK_DEFS, event), wishes, binary, shell))
  }

  ghost predicate IsSynced(before: Hooks, after: Hooks, wishes: Wishes, binary: string, shell: HookShell) {
    forall e :: Lookup(after, e) == SyncedEvent(Lookup(before, e), e, wishes, binary, shell)
  }

  /** The loop over `HOOK_DEFS`, and the final removal of events left empty. */
  method SyncHooks(before: Hooks, wishes: Wishes, binary: string, shell: HookShell) returns (after: Hooks)
    ensures IsSynced(before, after, wishes, binary, shell)
  {
    hide HOOK_DEFS, Merged, MergeStep, Separated, Lookup, DefsOf, MatcherFits;
    var now := before;
    TableIsSeparated();
    MergedNothing(before, wishes, binary, shell);
    var k := 0;
    assert HOOK_DEFS[..0] == [];
    while k < |HOOK_DEFS|
      invariant k <= |HOOK_DEFS| && MergedUpTo(before, now, HOOK_DEFS[..k], wishes, binary, shell)
    {
      var next := Merge(now, HOOK_DEFS[k], wishes, binary, shell);
      MergedNext(before, now, next, HOOK_DEFS, k, wishes, binary, shell);
      now, k := next, k + 1;
    }
    assert HOOK_DEFS[..k] == HOOK_DEFS;
    after := WithoutEmpty(now);
    forall e ensures Lookup(after, e) == SyncedEvent(Lookup(before, e), e, wishes, binary, shell) {
      EmptyDropped(now, e);
    }
  }

  /** `hooks_obj.retain`: an event whose array is empty goes. */
  function WithoutEmpty(hooks: Hooks): Hooks {
    map e | e in hooks && hooks[e] != JArray([]) :: hooks[e]
  }

  lemma EmptyDropped(hooks: Hooks, event: string)
    ensures Lookup(WithoutEmpty(hooks), event) == DropEmpty(Lookup(hooks, event))
  {}

  // --------------------------------------------------------------------- cleanup

  /** The entries that are not CC-Panes' own. */
  function Users(items: seq<Json>): seq<Json> {
    if items == [] then [] else (if IsOurs(items[0]) then [] else [items[0]]) + Users(items[1..])
  }

  /** What a cleanup leaves under one event. */
  function CleanedEvent(before: Option<Json>): Option<Json> {
    match before
    case Some(JArray(items)) => DropEmpty(Some(JArray(Users(items))))
    case _ => before
  }

  ghost predicate IsCleaned(before: Hooks, after: Hooks) {
    forall e :: Lookup(after, e) == CleanedEvent(Lookup(before, e))
  }

  predicate HoldsOurs(hooks: Hooks, event: string) {
    event in hooks && hooks[event].JArray? && exists entry :: entry in hooks[event].items && IsOurs(entry)
  }

  /** `Vec::retain` with every CC-Panes entry as one to drop. */
  method RetainUsers(items: seq<Json>) returns (kept: seq<Json>)
    ensures kept == Users(items)
  {
    hide IsOurs;
    kept := [];
    var i := 0;
    assert items[0..] == items;
    while i < |items|
      invariant i <= |items| && kept + Users(items[i..]) == Users(items)
    {
      assert items[i..][1..] == items[i + 1..];
      if !IsOurs(items[i]) { kept := kept + [items[i]]; }
      i := i + 1;
    }
  }

  /** An event loses entries exactly when it holds some of ours. */
  lemma {:induction false} UsersShrink(items: seq<Json>)
    ensures |Users(items)| <= |items|
    ensures |Users(items)| == |items| <==> Users(items) == items
    ensures |Users(items)| == |items| <==> forall entry :: entry in items ==> !IsOurs(entry)
  {
    hide IsOurs;
    if items != [] {
      UsersShrink(items[1..]);
      assert items == [items[0]] + items[1..];
    }
  }

  /** The loop over the events, in any order, with the `changed` flag. */
  method CleanHooks(before: Hooks) returns (after: Hooks, changed: bool)
    ensures IsCleaned(before, after)
    ensures changed <==> exists e :: HoldsOurs(before, e)
  {
    hide IsOurs, Users;
    var now, events := before, before.Keys;
    var todo := events;
    ghost var done: set<string> := {};
    changed := false;
    while todo != {}
      invariant Split(events, done, todo)
      invariant forall e :: e !in done ==> Lookup(now, e) == Lookup(before, e)
      invariant forall e :: e in done ==> Lookup(now, e) == Trimmed(Lookup(before, e))
      invariant changed <==> exists e :: e in done && HoldsOurs(before, e)
      decreases todo
    {
      var event :| event in todo;
      TakeOne(events, done, todo, event);
      todo, done := todo - {event}, done + {event};
      if now[event].JArray? {
        var items := now[event].items;
        assert Lookup(now, event) == Lookup(before, event) && items == before[event].items;
        UsersShrink(items);
        var kept := RetainUsers(items);
        if |kept| != |items| {
          changed := true;
          assert HoldsOurs(before, event);
        }
        now := now[event := JArray(kept)];
      }
    }
    after := WithoutEmpty(now);
    forall e ensures Lookup(after, e) == CleanedEvent(Lookup(before, e)) {
      EmptyDropped(now, e);
    }
  }

  function Trimmed(value: Option<Json>): Option<Json> {
    match value
    case Some(JArray(items)) => Some(JArray(Users(items)))
    case _ => value
  }
}
