/**
 The user's hooks one by one. An entry may hold several hooks, and sync and cleanup remove entries whole, so a hook
 of the user's can go with one of CC-Panes that stands beside it.
 */
module HookUsers {
  import opened JsonValues
  import opened HookCommand
  import opened HookTable
  import opened HookSync
  import opened HookLaws

  /** The command of this hook names a hook binary. */
  predicate IsOurHook(hook: Json) {
    hook.GetString("command").Some? && NamesHook(CommandOf(hook))
  }

  /** The hooks of one entry that are the user's, in order. */
  function UserHooksIn(hooks: seq<Json>): seq<Json> {
    if hooks == [] then [] else (if IsOurHook(hooks[0]) then [] else [hooks[0]]) + UserHooksIn(hooks[1..])
  }

  /** The user's hooks of one event, in order. */
  function UserHooks(items: seq<Json>): seq<Json> {
    if items == [] then [] else UserHooksIn(HooksOf(items[0])) + UserHooks(items[1..])
  }

  /** The entry holds a hook of CC-Panes and one of the user's. */
  predicate Mixed(entry: Json) {
    && (exists hook :: hook in HooksOf(entry) && IsOurHook(hook))
    && (exists hook :: hook in HooksOf(entry) && !IsOurHook(hook))
  }

  lemma {:induction false} UserHooksInNone(hooks: seq<Json>)
    ensures UserHooksIn(hooks) == [] <==> forall hook :: hook in hooks ==> IsOurHook(hook)
  {
    hide IsOurHook;
    if hooks != [] {
      UserHooksInNone(hooks[1..]);
      assert hooks == [hooks[0]] + hooks[1..];
    }
  }

  /** An entry of CC-Panes is mixed exactly when dropping it loses a hook of the user's. */
  lemma MixedExactly(entry: Json)
    ensures IsOurs(entry) <==> exists hook :: hook in HooksOf(entry) && IsOurHook(hook)
    ensures Mixed(entry) <==> IsOurs(entry) && UserHooksIn(HooksOf(entry)) != []
  {
    hide HooksOf, NamesHook, CommandOf;
    UserHooksInNone(HooksOf(entry));
  }

  lemma {:induction false} UserHooksOver(a: seq<Json>, b: seq<Json>)
    ensures UserHooks(a + b) == UserHooks(a) + UserHooks(b)
  {
    hide UserHooksIn, HooksOf;
    if a == [] {
      assert a + b == b;
    } else {
      assert (a + b)[1..] == a[1..] + b;
      UserHooksOver(a[1..], b);
    }
  }

  lemma UserHooksOne(entry: Json)
    ensures UserHooks([entry]) == UserHooksIn(HooksOf(entry))
  {
    hide UserHooksIn, HooksOf;
    assert [entry][1..] == [];
  }

  /** Cleanup keeps the user's hooks, all and in order, if and only if no entry is mixed. */
  lemma {:induction false} CleanupKeepsHooksExactly(items: seq<Json>)
    ensures |UserHooks(Users(items))| <= |UserHooks(items)|
    ensures UserHooks(Users(items)) == UserHooks(items) <==> forall entry :: entry in items ==> !Mixed(entry)
  {
    hide IsOurs, Mixed, UserHooksIn, HooksOf;
    if items != [] {
      var first, rest := items[0], items[1..];
      assert items == [first] + rest;
      CleanupKeepsHooksExactly(rest);
      MixedExactly(first);
      UserHooksOver([first], Users(rest));
      assert [] + Users(rest) == Users(rest);
      UserHooksOne(first);
      SameTail(UserHooksIn(HooksOf(first)), UserHooks(Users(rest)), UserHooks(rest));
    }
  }

  lemma SameTail<T>(a: seq<T>, b: seq<T>, c: seq<T>)
    ensures a + b == a + c <==> b == c
    ensures |b| <= |c| && a != [] ==> b != a + c
    ensures a == [] ==> a + c == c
  {
    if a + b == a + c {
      assert b == (a + b)[|a|..] && c == (a + c)[|a|..];
    }
  }

  /** And so does dropping what a list of definitions claims, if and only if it claims no mixed entry. */
  lemma {:induction false} KeepKeepsHooksExactly(items: seq<Json>, defs: seq<HookDef>)
    ensures |UserHooks(Keep(items, defs))| <= |UserHooks(items)|
    ensures UserHooks(Keep(items, defs)) == UserHooks(items)
            <==> forall entry :: entry in items && AnyMatches(entry, defs) ==> !Mixed(entry)
  {
    hide IsOurs, Mixed, UserHooksIn, HooksOf, AnyMatches;
    if items != [] {
      var first, rest := items[0], items[1..];
      assert items == [first] + rest;
      KeepKeepsHooksExactly(rest, defs);
      MixedExactly(first);
      ClaimedIsOurs(first, defs);
      UserHooksOver([first], Keep(rest, defs));
      assert [] + Keep(rest, defs) == Keep(rest, defs);
      UserHooksOne(first);
      SameTail(UserHooksIn(HooksOf(first)), UserHooks(Keep(rest, defs)), UserHooks(rest));
    }
  }

  lemma ClaimedIsOurs(entry: Json, defs: seq<HookDef>)
    ensures AnyMatches(entry, defs) ==> IsOurs(entry)
  {
    hide IsOurs, MatcherFits, FirstCommand, Has;
  }

  /** What a sync writes under a path that names the hook holds no hook of the user's. */
  lemma {:induction false} WrittenHoldsNone(defs: seq<HookDef>, wishes: Wishes, binary: string, shell: HookShell)
    requires NamesHook(binary)
    ensures UserHooks(Written(defs, wishes, binary, shell)) == []
  {
    hide EntryFor, NamesHook, UserHooksIn, HooksOf;
    if defs != [] {
      var before, last := defs[..|defs| - 1], defs[|defs| - 1];
      WrittenHoldsNone(before, wishes, binary, shell);
      var own := if Enabled(last, wishes) then [EntryFor(last, binary, shell)] else [];
      UserHooksOver(Written(before, wishes, binary, shell), own);
      PathNamesHook(binary, last.subcommand, shell);
      EntryHoldsNone(last, binary, shell);
      UserHooksOne(EntryFor(last, binary, shell));
    }
  }

  lemma EntryHoldsNone(def: HookDef, binary: string, shell: HookShell)
    requires NamesHook(GuardedCommand(binary, def.subcommand, shell))
    ensures UserHooksIn(HooksOf(EntryFor(def, binary, shell))) == []
  {
    hide NamesHook, GuardedCommand;
    UserHooksInNone(HooksOf(EntryFor(def, binary, shell)));
  }

  /**
   A sync keeps the user's hooks of an event, all and in order, if and only if none of the definitions of that
   event claims a mixed entry.
   */
  lemma SyncKeepsHooksExactly(before: Option<Json>, event: string, wishes: Wishes, binary: string, shell: HookShell)
    requires Syncable(before) && NamesHook(binary)
    ensures UserHooks(ItemsOf(SyncedEvent(before, event, wishes, binary, shell))) == UserHooks(ItemsOf(before))
            <==> forall entry :: entry in ItemsOf(before) && AnyMatches(entry, DefsOf(HOOK_DEFS, event)) ==> !Mixed(entry)
  {
    hide *;
    var defs, items := DefsOf(HOOK_DEFS, event), ItemsOf(before);
    SyncedItems(before, event, wishes, binary, shell);
    UserHooksOver(Keep(items, defs), Written(defs, wishes, binary, shell));
    WrittenHoldsNone(defs, wishes, binary, shell);
    KeepKeepsHooksExactly(items, defs);
    assert UserHooks(Keep(items, defs)) + [] == UserHooks(Keep(items, defs));
  }

  /** Sync and cleanup together keep them if and only if no entry of the event is mixed. */
  lemma RoundTripKeepsHooksExactly(before: Option<Json>, event: string, wishes: Wishes, binary: string, shell: HookShell)
    requires Syncable(before) && NamesHook(binary)
    ensures UserHooks(ItemsOf(CleanedEvent(SyncedEvent(before, event, wishes, binary, shell)))) == UserHooks(ItemsOf(before))
            <==> forall entry :: entry in ItemsOf(before) ==> !Mixed(entry)
  {
    hide *;
    EventRoundTrip(before, event, wishes, binary, shell);
    CleanedItems(before);
    CleanupKeepsHooksExactly(ItemsOf(before));
  }

  lemma {:induction false} UsersMembers(items: seq<Json>, entry: Json)
    ensures entry in Users(items) <==> entry in items && !IsOurs(entry)
  {
    hide IsOurs;
    if items != [] {
      UsersMembers(items[1..], entry);
      assert items == [items[0]] + items[1..];
    }
  }

  /** For one hook of the user's: its entry outlives sync and cleanup if and only if no hook in it is CC-Panes' own. */
  lemma HookSurvivesExactly(before: Option<Json>, event: string, wishes: Wishes, binary: string, shell: HookShell,
                            entry: Json, hook: Json)
    requires Syncable(before) && NamesHook(binary) && entry in ItemsOf(before)
    requires hook in HooksOf(entry) && !IsOurHook(hook)
    ensures entry in ItemsOf(CleanedEvent(SyncedEvent(before, event, wishes, binary, shell)))
            <==> forall other :: other in HooksOf(entry) ==> !IsOurHook(other)
  {
    hide *;
    EventRoundTrip(before, event, wishes, binary, shell);
    CleanedItems(before);
    UsersMembers(ItemsOf(before), entry);
    MixedExactly(entry);
  }

  function CommandHook(command: string): Json { JObject(map["type" := JString("command"), "command" := JString(command)]) }

  function MixedEntry(user: string): Json {
    JObject(map["matcher" := JString("startup"),
                "hooks" := JArray([CommandHook("cc-panes-cli-hook session-init"), CommandHook(user)])])
  }

  /** An entry that both a sync of its event and a cleanup remove, with the user's hook in it. */
  lemma MixedEntryLosesHook(user: string)
    requires !NamesHook(user)
    ensures UserHooks([MixedEntry(user)]) == [CommandHook(user)]
    ensures Users([MixedEntry(user)]) == [] && Keep([MixedEntry(user)], [HOOK_DEFS[0]]) == []
  {
    hide *;
    var entry := MixedEntry(user);
    MixedHooks(user);
    MixedIsClaimed(user);
    UserHooksOne(entry);
    UsersOne(entry);
  }

  lemma MixedHooks(user: string)
    requires !NamesHook(user)
    ensures UserHooksIn(HooksOf(MixedEntry(user))) == [CommandHook(user)]
  {
    hide NamesHook;
    var ours, theirs := CommandHook("cc-panes-cli-hook session-init"), CommandHook(user);
    CommandHas();
    assert HooksOf(MixedEntry(user)) == [ours, theirs];
    assert [theirs][1..] == [] && [ours, theirs][1..] == [theirs];
    assert UserHooksIn([theirs]) == [theirs];
  }

  lemma MixedIsClaimed(user: string)
    ensures IsOurs(MixedEntry(user)) && Keep([MixedEntry(user)], [HOOK_DEFS[0]]) == []
  {
    hide NamesHook, Has, EntryFor;
    CommandHas();
    var entry, ours := MixedEntry(user), CommandHook("cc-panes-cli-hook session-init");
    assert HooksOf(entry)[0] == ours && ours in HooksOf(entry);
    assert MatchesDef(entry, HOOK_DEFS[0]) && HOOK_DEFS[0] in [HOOK_DEFS[0]];
    KeepOne(entry, [HOOK_DEFS[0]]);
  }

  lemma CommandHas()
    ensures NamesHook("cc-panes-cli-hook session-init") && Has("cc-panes-cli-hook session-init", "session-init")
  {
    hide Has;
    HasInside("", "cc-panes-cli-hook", " session-init");
    assert "" + "cc-panes-cli-hook" + " session-init" == "cc-panes-cli-hook session-init";
    HasInside("cc-panes-cli-hook ", "session-init", "");
    assert "cc-panes-cli-hook " + "session-init" + "" == "cc-panes-cli-hook session-init";
  }
}
