/** Sync and cleanup as an edit / un-edit pair on the user's hook entries. */
module HookLaws {
  import opened JsonValues
  import opened HookCommand
  import opened HookTable
  import opened HookSync

  function CountMatching(items: seq<Json>, def: HookDef): nat {
    if items == [] then 0 else (if MatchesDef(items[0], def) then 1 else 0) + CountMatching(items[1..], def)
  }

  lemma {:induction false} CountOver(a: seq<Json>, b: seq<Json>, def: HookDef)
    ensures CountMatching(a + b, def) == CountMatching(a, def) + CountMatching(b, def)
  {
    hide MatchesDef;
    if a == [] {
      assert a + b == b;
    } else {
      assert (a + b)[1..] == a[1..] + b;
      CountOver(a[1..], b, def);
    }
  }

  lemma CountOne(entry: Json, def: HookDef)
    ensures CountMatching([entry], def) == if MatchesDef(entry, def) then 1 else 0
  {
    hide MatchesDef;
    assert [entry][1..] == [];
  }

  lemma {:induction false} KeptMatchNone(items: seq<Json>, defs: seq<HookDef>, def: HookDef)
    requires def in defs
    ensures CountMatching(Keep(items, defs), def) == 0
  {
    hide MatchesDef;
    if items != [] {
      KeptMatchNone(items[1..], defs, def);
      var more := Keep(items[1..], defs);
      CountOver(if AnyMatches(items[0], defs) then [] else [items[0]], more, def);
      CountOne(items[0], def);
    }
  }

  /** Definitions of one event, pairwise apart: each written entry matches its own definition only. */
  ghost predicate Apart(defs: seq<HookDef>) {
    forall i, j :: 0 <= i < |defs| && 0 <= j < |defs| && i != j ==> !MatcherFits(defs[i].matcher, defs[j])
  }

  /** A written entry matches its own definition exactly when its command names a hook binary, and no other one. */
  lemma WrittenEntryMatches(def: HookDef, other: HookDef, binary: string, shell: HookShell)
    ensures MatchesDef(EntryFor(def, binary, shell), def) <==> NamesHook(GuardedCommand(binary, def.subcommand, shell))
    ensures !MatcherFits(def.matcher, other) ==> !MatchesDef(EntryFor(def, binary, shell), other)
  {
    hide EntryFor, NamesHook, GuardedCommand, IsOurs, MatcherFits, FirstCommand, Has, LegacySubcommands;
    EntryIsOurs(def, binary, shell);
    if NamesHook(GuardedCommand(binary, def.subcommand, shell)) {
      EntryMatchesOnly(def, other, binary, shell);
    }
  }

  lemma {:induction false} WrittenMatchOnce(defs: seq<HookDef>, k: nat, wishes: Wishes, binary: string, shell: HookShell)
    requires Apart(defs) && k < |defs|
    ensures CountMatching(Written(defs, wishes, binary, shell), defs[k])
         == if Enabled(defs[k], wishes) && NamesHook(GuardedCommand(binary, defs[k].subcommand, shell)) then 1 else 0
  {
    hide MatchesDef, EntryFor, MatcherFits, NamesHook, GuardedCommand;
    var before, last := defs[..|defs| - 1], defs[|defs| - 1];
    var own := if Enabled(last, wishes) then [EntryFor(last, binary, shell)] else [];
    CountOver(Written(before, wishes, binary, shell), own, defs[k]);
    WrittenEntryMatches(last, defs[k], binary, shell);
    CountOne(EntryFor(last, binary, shell), defs[k]);
    assert Apart(before) by {
      forall i, j | 0 <= i < |before| && 0 <= j < |before| && i != j ensures !MatcherFits(before[i].matcher, before[j]) {
        assert before[i] == defs[i] && before[j] == defs[j];
      }
    }
    if k < |before| {
      WrittenMatchOnce(before, k, wishes, binary, shell);
      assert CountMatching(own, defs[k]) == 0;
    } else {
      WrittenMatchNone(before, last, wishes, binary, shell);
    }
  }

  lemma {:induction false} WrittenMatchNone(defs: seq<HookDef>, def: HookDef, wishes: Wishes, binary: string, shell: HookShell)
    requires forall d :: d in defs ==> !MatcherFits(d.matcher, def)
    ensures CountMatching(Written(defs, wishes, binary, shell), def) == 0
  {
    hide MatchesDef, EntryFor, MatcherFits, NamesHook, GuardedCommand;
    if defs != [] {
      var before, last := defs[..|defs| - 1], defs[|defs| - 1];
      assert forall d :: d in before ==> d in defs;
      WrittenMatchNone(before, def, wishes, binary, shell);
      var own := if Enabled(last, wishes) then [EntryFor(last, binary, shell)] else [];
      CountOver(Written(before, wishes, binary, shell), own, def);
      WrittenEntryMatches(last, def, binary, shell);
      CountOne(EntryFor(last, binary, shell), def);
    }
  }

  lemma {:induction false} DefsApart(defs: seq<HookDef>, n: nat, event: string)
    requires Separated(defs) && n <= |defs|
    ensures Apart(DefsOf(defs[..n], event))
  {
    hide MatcherFits, Apart, DefsOf;
    if n == 0 {
      NoneApart(defs, event);
    } else {
      DefsApart(defs, n - 1, event);
      DefsOfOneMore(defs, n - 1, event);
      DefsOfAreEarlier(defs, n - 1, event);
      if defs[n - 1].event == event { OneMoreApart(DefsOf(defs[..n - 1], event), defs[n - 1]); }
    }
  }

  lemma NoneApart(defs: seq<HookDef>, event: string)
    ensures Apart(DefsOf(defs[..0], event))
  {}

  lemma OneMoreApart(defs: seq<HookDef>, last: HookDef)
    requires Apart(defs) && forall d :: d in defs ==> !MatcherFits(d.matcher, last) && !MatcherFits(last.matcher, d)
    ensures Apart(defs + [last])
  {
    hide MatcherFits;
  }

  lemma {:induction false} DefListed(defs: seq<HookDef>, i: nat, n: nat)
    requires i < n <= |defs|
    ensures defs[i] in DefsOf(defs[..n], defs[i].event)
  {
    hide DefsOf;
    DefsOfOneMore(defs, n - 1, defs[i].event);
    if i < n - 1 { DefListed(defs, i, n - 1); }
  }

  function ItemsOf(value: Option<Json>): seq<Json> {
    match value
    case Some(JArray(items)) => items
    case _ => []
  }

  /** The hooks of an event can be synced: there are none yet, or they form an array. */
  predicate Syncable(value: Option<Json>) { value.Some? ==> value.value.JArray? }

  lemma SyncedItems(before: Option<Json>, event: string, wishes: Wishes, binary: string, shell: HookShell)
    requires Syncable(before)
    ensures var defs := DefsOf(HOOK_DEFS, event);
            var after := SyncedEvent(before, event, wishes, binary, shell);
            && Syncable(after) && after != Some(JArray([]))
            && ItemsOf(after) == Keep(ItemsOf(before), defs) + Written(defs, wishes, binary, shell)
  {
    hide HOOK_DEFS, Keep, Written, DefsOf;
    var defs := DefsOf(HOOK_DEFS, event);
    KeepEmpty(defs);
    assert [] + Written(defs, wishes, binary, shell) == Written(defs, wishes, binary, shell);
  }

  /**
   After a sync, whatever entries, current or legacy, were there before: a disabled hook of the table has no matching
   entry, and an enabled one has exactly one if and only if its command names a hook binary, none otherwise.
   */
  lemma ExactlyOneEntry(i: nat, before: Option<Json>, wishes: Wishes, binary: string, shell: HookShell)
    requires i < |HOOK_DEFS| && Syncable(before)
    ensures var def := HOOK_DEFS[i];
            CountMatching(ItemsOf(SyncedEvent(before, def.event, wishes, binary, shell)), def)
            == if Enabled(def, wishes) && NamesHook(GuardedCommand(binary, def.subcommand, shell)) then 1 else 0
  {
    hide HOOK_DEFS, Keep, Written, DefsOf, SyncedEvent, NamesHook, GuardedCommand, CountMatching, MatchesDef, Apart, Separated;
    var def := HOOK_DEFS[i];
    var defs := DefsOf(HOOK_DEFS, def.event);
    assert HOOK_DEFS[..|HOOK_DEFS|] == HOOK_DEFS;
    TableIsSeparated();
    DefsApart(HOOK_DEFS, |HOOK_DEFS|, def.event);
    DefListed(HOOK_DEFS, i, |HOOK_DEFS|);
    SyncedItems(before, def.event, wishes, binary, shell);
    CountOver(Keep(ItemsOf(before), defs), Written(defs, wishes, binary, shell), def);
    KeptMatchNone(ItemsOf(before), defs, def);
    var k: nat :| k < |defs| && defs[k] == def;
    WrittenMatchOnce(defs, k, wishes, binary, shell);
  }

  /** An entry with this matcher and one hook: a command with a time limit, run asynchronously or not. */
  predicate Asks(entry: Json, matcher: string, command: string, timeout: nat, asynchronous: bool) {
    && entry.JObject? && entry.fields.Keys == {"matcher", "hooks"} && entry.fields["matcher"] == JString(matcher)
    && entry.fields["hooks"].JArray? && |entry.fields["hooks"].items| == 1
    && var hook := entry.fields["hooks"].items[0];
       && hook.JObject? && hook.fields.Keys == {"type", "command", "timeout", "async"}
       && hook.fields["type"] == JString("command") && hook.fields["command"] == JString(command)
       && hook.fields["timeout"] == JNumber(timeout) && hook.fields["async"] == JBool(asynchronous)
  }

  lemma EntryAsks(def: HookDef, binary: string, shell: HookShell)
    ensures Asks(EntryFor(def, binary, shell), def.matcher, GuardedCommand(binary, def.subcommand, shell), def.timeout,
                 def.event != "PermissionRequest")
  {
    hide GuardedCommand;
  }

  lemma {:induction false} WrittenHolds(defs: seq<HookDef>, def: HookDef, wishes: Wishes, binary: string, shell: HookShell)
    requires def in defs && Enabled(def, wishes)
    ensures EntryFor(def, binary, shell) in Written(defs, wishes, binary, shell)
  {
    hide EntryFor;
    var before, last := defs[..|defs| - 1], defs[|defs| - 1];
    if def != last {
      assert defs == before + [last];
      WrittenHolds(before, def, wishes, binary, shell);
    }
  }

  /** After a sync, an enabled definition has its entry: this matcher, this command, this time limit. */
  lemma EntryIsWritten(i: nat, before: Option<Json>, wishes: Wishes, binary: string, shell: HookShell)
    requires i < |HOOK_DEFS| && Syncable(before) && Enabled(HOOK_DEFS[i], wishes)
    ensures var def := HOOK_DEFS[i];
            exists entry :: entry in ItemsOf(SyncedEvent(before, def.event, wishes, binary, shell))
              && Asks(entry, def.matcher, GuardedCommand(binary, def.subcommand, shell), def.timeout,
                      def.event != "PermissionRequest")
  {
    hide HOOK_DEFS, Keep, Written, DefsOf, SyncedEvent, GuardedCommand, EntryFor, Asks, Enabled;
    var def := HOOK_DEFS[i];
    var defs := DefsOf(HOOK_DEFS, def.event);
    assert HOOK_DEFS[..|HOOK_DEFS|] == HOOK_DEFS;
    DefListed(HOOK_DEFS, i, |HOOK_DEFS|);
    SyncedItems(before, def.event, wishes, binary, shell);
    WrittenHolds(defs, def, wishes, binary, shell);
    EntryAsks(def, binary, shell);
    assert EntryFor(def, binary, shell) in ItemsOf(SyncedEvent(before, def.event, wishes, binary, shell));
  }

  // -------------------------------------------------------------- the user's entries

  lemma {:induction false} UsersOver(a: seq<Json>, b: seq<Json>)
    ensures Users(a + b) == Users(a) + Users(b)
  {
    hide IsOurs;
    if a == [] {
      assert a + b == b;
    } else {
      assert (a + b)[1..] == a[1..] + b;
      UsersOver(a[1..], b);
    }
  }

  lemma UsersOne(entry: Json)
    ensures Users([entry]) == if IsOurs(entry) then [] else [entry]
  {
    hide IsOurs;
    assert [entry][1..] == [];
  }

  lemma {:induction false} KeepTakesOnlyOurs(items: seq<Json>, defs: seq<HookDef>)
    ensures Users(Keep(items, defs)) == Users(items)
  {
    hide IsOurs, MatcherFits, FirstCommand, Has;
    if items != [] {
      KeepTakesOnlyOurs(items[1..], defs);
      var more := Keep(items[1..], defs);
      UsersOver(if AnyMatches(items[0], defs) then [] else [items[0]], more);
      UsersOne(items[0]);
    }
  }

  /** The entries written for enabled hooks whose command does not name a hook binary. */
  function Foreign(defs: seq<HookDef>, wishes: Wishes, binary: string, shell: HookShell): seq<Json> {
    if defs == [] then []
    else
      var last := defs[|defs| - 1];
      Foreign(defs[..|defs| - 1], wishes, binary, shell)
      + (if Enabled(last, wishes) && !NamesHook(GuardedCommand(binary, last.subcommand, shell))
         then [EntryFor(last, binary, shell)] else [])
  }

  /** All the commands a sync would write name the hook binary: what a caller can check beforehand. */
  ghost predicate AllNamed(defs: seq<HookDef>, wishes: Wishes, binary: string, shell: HookShell) {
    forall d :: d in defs && Enabled(d, wishes) ==> NamesHook(GuardedCommand(binary, d.subcommand, shell))
  }

  lemma {:induction false} NamedHasNoForeign(defs: seq<HookDef>, wishes: Wishes, binary: string, shell: HookShell)
    ensures AllNamed(defs, wishes, binary, shell) <==> Foreign(defs, wishes, binary, shell) == []
  {
    hide EntryFor, NamesHook, GuardedCommand;
    if defs != [] {
      var before, last := defs[..|defs| - 1], defs[|defs| - 1];
      assert defs == before + [last];
      NamedHasNoForeign(before, wishes, binary, shell);
    }
  }

  lemma {:induction false} UsersOfWritten(defs: seq<HookDef>, wishes: Wishes, binary: string, shell: HookShell)
    ensures Users(Written(defs, wishes, binary, shell)) == Foreign(defs, wishes, binary, shell)
  {
    hide EntryFor, NamesHook, GuardedCommand, IsOurs;
    if defs != [] {
      var before, last := defs[..|defs| - 1], defs[|defs| - 1];
      UsersOfWritten(before, wishes, binary, shell);
      var own := if Enabled(last, wishes) then [EntryFor(last, binary, shell)] else [];
      UsersOver(Written(before, wishes, binary, shell), own);
      EntryIsOurs(last, binary, shell);
      UsersOne(EntryFor(last, binary, shell));
    }
  }

  /** A written entry is dropped by the next sync exactly when its command names the hook binary. */
  lemma WrittenDropped(def: HookDef, defs: seq<HookDef>, binary: string, shell: HookShell)
    requires def in defs
    ensures AnyMatches(EntryFor(def, binary, shell), defs) <==> NamesHook(GuardedCommand(binary, def.subcommand, shell))
  {
    hide EntryFor, NamesHook, GuardedCommand, IsOurs, MatcherFits, Has;
    EntryIsOurs(def, binary, shell);
    if NamesHook(GuardedCommand(binary, def.subcommand, shell)) {
      EntryMatchesOnly(def, def, binary, shell);
    }
  }

  lemma {:induction false} KeepOfWritten(defs: seq<HookDef>, all: seq<HookDef>, wishes: Wishes, binary: string, shell: HookShell)
    requires forall d :: d in defs ==> d in all
    ensures Keep(Written(defs, wishes, binary, shell), all) == Foreign(defs, wishes, binary, shell)
  {
    hide EntryFor, NamesHook, GuardedCommand, AnyMatches;
    if defs != [] {
      var before, last := defs[..|defs| - 1], defs[|defs| - 1];
      assert forall d :: d in before ==> d in defs;
      KeepOfWritten(before, all, wishes, binary, shell);
      var own := if Enabled(last, wishes) then [EntryFor(last, binary, shell)] else [];
      KeepOver(Written(before, wishes, binary, shell), own, all);
      WrittenDropped(last, all, binary, shell);
      KeepOne(EntryFor(last, binary, shell), all);
    }
  }

  lemma {:induction false} KeepTwice(items: seq<Json>, defs: seq<HookDef>)
    ensures Keep(Keep(items, defs), defs) == Keep(items, defs)
  {
    hide AnyMatches;
    if items != [] {
      KeepTwice(items[1..], defs);
      var more := Keep(items[1..], defs);
      assert ([items[0]] + more)[1..] == more && [] + more == more;
    }
  }

  /** The user's entries keep their order exactly when every command written names the hook binary. */
  lemma UsersKeepOrder(before: Option<Json>, event: string, wishes: Wishes, binary: string, shell: HookShell)
    requires Syncable(before)
    ensures Users(ItemsOf(SyncedEvent(before, event, wishes, binary, shell))) == Users(ItemsOf(before))
            <==> AllNamed(DefsOf(HOOK_DEFS, event), wishes, binary, shell)
  {
    hide HOOK_DEFS, Keep, Written, DefsOf, SyncedEvent, Users, Foreign, AllNamed;
    var defs := DefsOf(HOOK_DEFS, event);
    var items := ItemsOf(before);
    SyncedItems(before, event, wishes, binary, shell);
    UsersOver(Keep(items, defs), Written(defs, wishes, binary, shell));
    KeepTakesOnlyOurs(items, defs);
    UsersOfWritten(defs, wishes, binary, shell);
    NamedHasNoForeign(defs, wishes, binary, shell);
    Appended(Users(items), Foreign(defs, wishes, binary, shell));
  }

  lemma Appended<T>(a: seq<T>, b: seq<T>)
    ensures a + b == a <==> b == []
  {
    if b != [] { assert |a + b| > |a|; }
  }

  /** A second sync changes an event exactly when some command written does not name the hook binary. */
  lemma SecondSyncExactly(before: Option<Json>, event: string, wishes: Wishes, binary: string, shell: HookShell)
    requires Syncable(before)
    ensures var once := SyncedEvent(before, event, wishes, binary, shell);
            SyncedEvent(once, event, wishes, binary, shell) == once
            <==> AllNamed(DefsOf(HOOK_DEFS, event), wishes, binary, shell)
  {
    hide HOOK_DEFS, Keep, Written, DefsOf, SyncedEvent, Foreign, AllNamed;
    var defs := DefsOf(HOOK_DEFS, event);
    var once := SyncedEvent(before, event, wishes, binary, shell);
    var kept, written := Keep(ItemsOf(before), defs), Written(defs, wishes, binary, shell);
    SyncedItems(before, event, wishes, binary, shell);
    SyncedItems(once, event, wishes, binary, shell);
    KeepOver(kept, written, defs);
    KeepTwice(ItemsOf(before), defs);
    KeepOfWritten(defs, defs, wishes, binary, shell);
    NamedHasNoForeign(defs, wishes, binary, shell);
    var foreign := Foreign(defs, wishes, binary, shell);
    assert |kept + foreign + written| == |kept + written| + |foreign|;
    assert foreign == [] ==> kept + foreign + written == kept + written;
    SameItems(SyncedEvent(once, event, wishes, binary, shell), once);
  }

  lemma SameItems(a: Option<Json>, b: Option<Json>)
    requires Syncable(a) && Syncable(b) && a != Some(JArray([])) && b != Some(JArray([]))
    ensures a == b <==> ItemsOf(a) == ItemsOf(b)
  {}

  /** Cleanup undoes sync: what is left is the user's part of the original, with empty events dropped. */
  lemma CleanupAfterSync(before: Option<Json>, event: string, wishes: Wishes, binary: string, shell: HookShell)
    requires Syncable(before)
    ensures CleanedEvent(SyncedEvent(before, event, wishes, binary, shell)) == CleanedEvent(before)
            <==> AllNamed(DefsOf(HOOK_DEFS, event), wishes, binary, shell)
  {
    hide HOOK_DEFS, Keep, Written, DefsOf, SyncedEvent, Users, Foreign, AllNamed;
    UsersKeepOrder(before, event, wishes, binary, shell);
    SyncedItems(before, event, wishes, binary, shell);
    var once := SyncedEvent(before, event, wishes, binary, shell);
    CleanedItems(once);
    CleanedItems(before);
    SameItems(CleanedEvent(once), CleanedEvent(before));
  }

  lemma CleanedItems(value: Option<Json>)
    requires Syncable(value)
    ensures Syncable(CleanedEvent(value)) && CleanedEvent(value) != Some(JArray([]))
    ensures ItemsOf(CleanedEvent(value)) == Users(ItemsOf(value))
  {
    hide IsOurs;
  }

  /** A path that contains a hook binary name satisfies the condition for every event and every wish. */
  lemma NamedPathSuffices(defs: seq<HookDef>, wishes: Wishes, binary: string, shell: HookShell)
    requires NamesHook(binary)
    ensures AllNamed(defs, wishes, binary, shell)
  {
    hide NamesHook, GuardedCommand;
    forall d | d in defs && Enabled(d, wishes) ensures NamesHook(GuardedCommand(binary, d.subcommand, shell)) {
      PathNamesHook(binary, d.subcommand, shell);
    }
  }

  // -------------------------------------------------------------- whole hook maps

  /** A binary at `/opt/h`: neither name occurs in the command, so a second sync changes `Stop`, and cleanup leaves it. */
  lemma UnnamedPathPilesUp(before: Option<Json>)
    requires Syncable(before)
    ensures var once := SyncedEvent(before, "Stop", map[], "/opt/h", Posix);
            && SyncedEvent(once, "Stop", map[], "/opt/h", Posix) != once
            && CleanedEvent(once) != CleanedEvent(before)
  {
    hide Keep, Written, SyncedEvent, CleanedEvent, NamesHook, GuardedCommand, DefsOf;
    var def := HOOK_DEFS[5];
    assert HOOK_DEFS[..|HOOK_DEFS|] == HOOK_DEFS;
    DefListed(HOOK_DEFS, 5, |HOOK_DEFS|);
    UnnamedCommand();
    assert def.event == "Stop" && def.subcommand == "turn-end" && Enabled(def, map[]);
    assert !AllNamed(DefsOf(HOOK_DEFS, "Stop"), map[], "/opt/h", Posix);
    SecondSyncExactly(before, "Stop", map[], "/opt/h", Posix);
    CleanupAfterSync(before, "Stop", map[], "/opt/h", Posix);
  }

  lemma UnnamedCommand()
    ensures !NamesHook(GuardedCommand("/opt/h", "turn-end", Posix))
  {
    hide Has, HOOK_BINARY, LEGACY_HOOK_BINARY, GuardedCommand;
    var command := GuardedCommand("/opt/h", "turn-end", Posix);
    WithoutK();
    BinariesHaveK();
    if Has(command, HOOK_BINARY) { HasChars(command, HOOK_BINARY, 'k'); }
    if Has(command, LEGACY_HOOK_BINARY) { HasChars(command, LEGACY_HOOK_BINARY, 'k'); }
  }

  lemma BinariesHaveK()
    ensures 'k' in HOOK_BINARY && 'k' in LEGACY_HOOK_BINARY
  {
    assert HOOK_BINARY[16] == 'k' && LEGACY_HOOK_BINARY[12] == 'k';
  }

  lemma WithoutK()
    ensures 'k' !in GuardedCommand("/opt/h", "turn-end", Posix)
  {
    NoQuotes("/opt/h");
    PiecesWithoutK();
    hide EscapeQuotes;
    var q := Quoted("/opt/h");
    var test := "if [ -x " + q;
    NotInSum("'", "/opt/h");
    NotInSum("'" + "/opt/h", "'");
    NotInSum("if [ -x ", q);
    NotInSum(test, " ]; then ");
    NotInSum(test + " ]; then ", q);
    NotInSum(test + " ]; then " + q, " ");
    NotInSum(test + " ]; then " + q + " ", "turn-end");
    NotInSum(test + " ]; then " + q + " " + "turn-end", "; fi");
  }

  lemma PiecesWithoutK()
    ensures 'k' !in "'" && 'k' !in "/opt/h" && 'k' !in "if [ -x " && 'k' !in " ]; then "
    ensures 'k' !in " " && 'k' !in "turn-end" && 'k' !in "; fi"
  {}

  lemma NotInSum(a: string, b: string)
    requires 'k' !in a && 'k' !in b
    ensures 'k' !in a + b
  {}

  lemma {:induction false} NoQuotes(path: string)
    requires '\'' !in path
    ensures EscapeQuotes(path) == path
  {
    if path != [] {
      NoQuotes(path[1..]);
      assert [path[0]] + path[1..] == path;
    }
  }

  lemma {:induction false} HasChars(s: string, t: string, c: char)
    requires Has(s, t) && c in t
    ensures c in s
  {
    if t <= s {
      assert s == t + s[|t|..];
    } else {
      HasChars(s[1..], t, c);
      assert s == [s[0]] + s[1..];
    }
  }

  lemma SameMap(a: Hooks, b: Hooks)
    requires forall e :: Lookup(a, e) == Lookup(b, e)
    ensures a == b
  {
    forall e ensures (e in a <==> e in b) && (e in a ==> a[e] == b[e]) {
      assert Lookup(a, e) == Lookup(b, e);
    }
  }

  lemma EventRoundTrip(v: Option<Json>, event: string, wishes: Wishes, binary: string, shell: HookShell)
    requires NamesHook(binary)
    ensures CleanedEvent(SyncedEvent(v, event, wishes, binary, shell)) == CleanedEvent(v)
    ensures var once := SyncedEvent(v, event, wishes, binary, shell);
            SyncedEvent(once, event, wishes, binary, shell) == once
  {
    hide SyncedEvent, CleanedEvent, NamesHook, AllNamed, Syncable;
    NamedPathSuffices(DefsOf(HOOK_DEFS, event), wishes, binary, shell);
    if Syncable(v) {
      CleanupAfterSync(v, event, wishes, binary, shell);
      SecondSyncExactly(v, event, wishes, binary, shell);
    } else {
      LeftAlone(v, event, wishes, binary, shell);
    }
  }

  /** On whole hook maps, with a binary path that names the hook: a second sync changes nothing. */
  lemma SyncTwiceIsOnce(before: Hooks, once: Hooks, twice: Hooks, wishes: Wishes, binary: string, shell: HookShell)
    requires NamesHook(binary)
    requires IsSynced(before, once, wishes, binary, shell) && IsSynced(once, twice, wishes, binary, shell)
    ensures twice == once
  {
    hide SyncedEvent, CleanedEvent, NamesHook, Lookup;
    forall e ensures Lookup(twice, e) == Lookup(once, e) {
      EventRoundTrip(Lookup(before, e), e, wishes, binary, shell);
    }
    SameMap(twice, once);
  }

  /** And a cleanup leaves what it would have left without the sync: the user's entries, empty events dropped. */
  lemma CleanupUndoesSync(before: Hooks, once: Hooks, cleaned: Hooks, users: Hooks,
                          wishes: Wishes, binary: string, shell: HookShell)
    requires NamesHook(binary) && IsSynced(before, once, wishes, binary, shell)
    requires IsCleaned(once, cleaned) && IsCleaned(before, users)
    ensures cleaned == users
  {
    hide SyncedEvent, CleanedEvent, NamesHook, Lookup;
    forall e ensures Lookup(cleaned, e) == Lookup(users, e) {
      EventRoundTrip(Lookup(before, e), e, wishes, binary, shell);
    }
    SameMap(cleaned, users);
  }

  /** A value that is not an array is never touched. */
  lemma LeftAlone(v: Option<Json>, event: string, wishes: Wishes, binary: string, shell: HookShell)
    requires !Syncable(v)
    ensures SyncedEvent(v, event, wishes, binary, shell) == v && CleanedEvent(v) == v
  {
    hide HOOK_DEFS, DefsOf;
  }
}
