/** The table of CC-Panes hooks, and which entries of a Claude settings file belong to it. */
module HookTable {
  import opened JsonValues
  import opened HookCommand

  const HOOK_BINARY := "cc-panes-cli-hook"
  const LEGACY_HOOK_BINARY := "cc-panes-hook"

  datatype HookDef = HookDef(name: string, subcommand: string, event: string, matcher: string, timeout: nat)

  const HOOK_DEFS: seq<HookDef> := [
    HookDef("session-inject", "session-init", "SessionStart", "startup", 10),
    HookDef("session-resume-inject", "session-resume", "SessionStart", "resume|compact|clear", 10),
    HookDef("plan-archive", "tool-after", "PostToolUse", "", 5),
    HookDef("state-prompt-before", "prompt-before", "UserPromptSubmit", "", 10),
    HookDef("state-tool-before", "tool-before", "PreToolUse", "", 60),
    HookDef("state-turn-end", "turn-end", "Stop", "", 10),
    HookDef("state-before-compact", "before-compact", "PreCompact", "manual|auto", 15),
    HookDef("state-waiting-input", "waiting-input", "Notification", "permission_prompt|elicitation_dialog", 5),
    HookDef("state-error", "error", "StopFailure", "", 5),
    HookDef("state-session-end", "session-end", "SessionEnd", "", 5),
    HookDef("task-queue-permission-request", "permission-request", "PermissionRequest", "", 5)
  ]

  function LegacySubcommands(def: HookDef): seq<string> {
    if def.name == "session-inject" then ["session-start"]
    else if def.name == "plan-archive" then ["plan-archive"]
    else []
  }

  function LegacyMatchers(def: HookDef): seq<string> {
    if def.name == "session-inject" then ["startup|resume"]
    else if def.name == "session-resume-inject" then ["resume|compact"]
    else if def.name == "state-waiting-input" then
      ["permission_prompt|elicitation_dialog|elicitation_complete|elicitation_response|idle_prompt"]
    else []
  }

  /** `str::contains`. */
  predicate Has(s: string, t: string) {
    t <= s || (s != [] && Has(s[1..], t))
  }

  lemma {:induction false} HasInside(a: string, t: string, b: string)
    ensures Has(a + t + b, t)
  {
    if a == [] {
      assert a + t + b == t + b;
    } else {
      assert (a + t + b)[1..] == a[1..] + t + b;
      HasInside(a[1..], t, b);
    }
  }

  // ------------------------------------------------------------------- recognition

  function HooksOf(entry: Json): seq<Json> {
    match entry.Get("hooks")
    case Some(JArray(items)) => items
    case _ => []
  }

  function CommandOf(hook: Json): string {
    match hook.GetString("command")
    case Some(command) => command
    case None => ""
  }

  predicate NamesHook(command: string) {
    Has(command, HOOK_BINARY) || Has(command, LEGACY_HOOK_BINARY)
  }

  /** `is_ccpanes_hook_entry`. */
  predicate IsOurs(entry: Json) {
    exists hook :: hook in HooksOf(entry) && hook.GetString("command").Some? && NamesHook(CommandOf(hook))
  }

  predicate StandsAt(s: string, t: string, i: nat) { i + |t| <= |s| && s[i..i + |t|] == t }

  /** `t` is contained in `s` exactly when it stands somewhere in it. */
  lemma {:induction false} HasExactly(s: string, t: string)
    ensures Has(s, t) <==> exists i: nat :: StandsAt(s, t, i)
  {
    if t <= s {
      assert StandsAt(s, t, 0);
    } else {
      assert !StandsAt(s, t, 0);
      if s != [] {
        HasExactly(s[1..], t);
        forall i: nat | StandsAt(s[1..], t, i) ensures StandsAt(s, t, i + 1) {
          assert s[1..][i..i + |t|] == s[i + 1..i + 1 + |t|];
        }
        forall i: nat | StandsAt(s, t, i) && i > 0 ensures StandsAt(s[1..], t, i - 1) {
          assert s[1..][i - 1..i - 1 + |t|] == s[i..i + |t|];
        }
      }
    }
  }

  /** The hook runs a command in which the name of a hook binary, old or new, stands at `i`. */
  predicate NameAt(hook: Json, i: nat) {
    && hook.JObject? && "command" in hook.fields && hook.fields["command"].JString?
    && (StandsAt(hook.fields["command"].text, "cc-panes-cli-hook", i) || StandsAt(hook.fields["command"].text, "cc-panes-hook", i))
  }

  lemma NamesExactly(hook: Json)
    ensures hook.GetString("command").Some? && NamesHook(CommandOf(hook)) <==> exists i: nat :: NameAt(hook, i)
  {
    hide Has, StandsAt;
    HasExactly(CommandOf(hook), "cc-panes-cli-hook");
    HasExactly(CommandOf(hook), "cc-panes-hook");
    forall i: nat | hook.GetString("command").Some? && StandsAt(CommandOf(hook), "cc-panes-cli-hook", i) ensures NameAt(hook, i) {}
    forall i: nat | hook.GetString("command").Some? && StandsAt(CommandOf(hook), "cc-panes-hook", i) ensures NameAt(hook, i) {}
  }

  /** An entry is CC-Panes' own exactly when the command of one of its hooks holds the name of a hook binary. */
  lemma OursExactly(entry: Json)
    ensures IsOurs(entry) <==>
              && entry.JObject? && "hooks" in entry.fields && entry.fields["hooks"].JArray?
              && exists hook, i: nat :: hook in entry.fields["hooks"].items && NameAt(hook, i)
  {
    hide Has, NamesHook, CommandOf, NameAt;
    if IsOurs(entry) {
      var hook :| hook in HooksOf(entry) && hook.GetString("command").Some? && NamesHook(CommandOf(hook));
      NamesExactly(hook);
      var i: nat :| NameAt(hook, i);
      assert hook in entry.fields["hooks"].items && NameAt(hook, i);
    }
    forall hook: Json, i: nat | hook in HooksOf(entry) && NameAt(hook, i) ensures IsOurs(entry) {
      NamesExactly(hook);
    }
  }

  function MatcherOf(entry: Json): string {
    match entry.GetString("matcher")
    case Some(matcher) => matcher
    case None => ""
  }

  function FirstCommand(entry: Json): string {
    var hooks := HooksOf(entry);
    if hooks == [] then "" else CommandOf(hooks[0])
  }

  predicate MatcherFits(matcher: string, def: HookDef) {
    matcher == def.matcher || matcher in LegacyMatchers(def)
  }

  /** `ccpanes_hook_entry_matches_def`. */
  predicate MatchesDef(entry: Json, def: HookDef) {
    && IsOurs(entry)
    && MatcherFits(MatcherOf(entry), def)
    && (Has(FirstCommand(entry), def.subcommand)
        || exists sub :: sub in LegacySubcommands(def) && Has(FirstCommand(entry), sub))
  }

  /** The entry a sync writes for an enabled hook. */
  function EntryFor(def: HookDef, binary: string, shell: HookShell): Json {
    JObject(map[
      "matcher" := JString(def.matcher),
      "hooks" := JArray([JObject(map[
        "type" := JString("command"),
        "command" := JString(GuardedCommand(binary, def.subcommand, shell)),
        "timeout" := JNumber(def.timeout),
        "async" := JBool(def.event != "PermissionRequest")])])])
  }

  /** The written entry is recognised as ours exactly when its command names the hook binary. */
  lemma EntryIsOurs(def: HookDef, binary: string, shell: HookShell)
    ensures IsOurs(EntryFor(def, binary, shell)) <==> NamesHook(GuardedCommand(binary, def.subcommand, shell))
    ensures MatcherOf(EntryFor(def, binary, shell)) == def.matcher
    ensures FirstCommand(EntryFor(def, binary, shell)) == GuardedCommand(binary, def.subcommand, shell)
  {
    hide Has, GuardedCommand;
    var entry := EntryFor(def, binary, shell);
    var hook := HooksOf(entry)[0];
    assert HooksOf(entry) == [hook] && hook in HooksOf(entry);
    assert forall h :: h in HooksOf(entry) ==> h == hook;
  }

  lemma CommandHasSubcommand(binary: string, subcommand: string, shell: HookShell)
    ensures Has(GuardedCommand(binary, subcommand, shell), subcommand)
  {
    match shell {
      case Posix =>
        HasInside("if [ -x " + Quoted(binary) + " ]; then " + Quoted(binary) + " ", subcommand, "; fi");
      case Windows =>
        var front := "if exist \"" + binary + "\" \"" + binary + "\" ";
        HasInside(front, subcommand, "");
        assert front + subcommand + "" == front + subcommand;
    }
  }

  /** A written entry matches its own definition, and no other one of the same event. */
  lemma EntryMatchesOnly(def: HookDef, other: HookDef, binary: string, shell: HookShell)
    requires NamesHook(GuardedCommand(binary, def.subcommand, shell))
    ensures MatchesDef(EntryFor(def, binary, shell), def)
    ensures !MatcherFits(def.matcher, other) ==> !MatchesDef(EntryFor(def, binary, shell), other)
  {
    hide EntryFor, IsOurs, MatcherOf, FirstCommand, Has, NamesHook;
    EntryIsOurs(def, binary, shell);
    CommandHasSubcommand(binary, def.subcommand, shell);
  }

  /**
   Which entries of CC-Panes a definition claims, by their matcher and the command of their first hook, the forms that
   earlier versions wrote included: three definitions have an older matcher, two an older subcommand.
   */
  lemma ClaimedForms(entry: Json, i: nat, matcher: string, hooks: seq<Json>, command: string)
    requires i < |HOOK_DEFS| && entry.Get("hooks") == Some(JArray(hooks)) && hooks != []
    requires entry.GetString("matcher") == Some(matcher) || (entry.GetString("matcher").None? && matcher == "")
    requires hooks[0].GetString("command") == Some(command) || (hooks[0].GetString("command").None? && command == "")
    ensures var def := HOOK_DEFS[i];
            MatchesDef(entry, def) <==>
              && IsOurs(entry)
              && (|| matcher == def.matcher
                  || (i == 0 && matcher == "startup|resume")
                  || (i == 1 && matcher == "resume|compact")
                  || (i == 7 && matcher
                      == "permission_prompt|elicitation_dialog|elicitation_complete|elicitation_response|idle_prompt"))
              && (|| Has(command, def.subcommand)
                  || (i == 0 && Has(command, "session-start"))
                  || (i == 2 && Has(command, "plan-archive")))
  {
    hide IsOurs, Has, HOOK_DEFS, MatchesDef, LegacyMatchers, LegacySubcommands;
    assert MatcherOf(entry) == matcher && FirstCommand(entry) == command;
    hide MatcherOf, FirstCommand;
    OlderMatchers(i, matcher);
    OlderSubcommands(i);
    ClaimedBy(entry, HOOK_DEFS[i]);
  }

  lemma OlderMatchers(i: nat, matcher: string)
    requires i < |HOOK_DEFS|
    ensures matcher in LegacyMatchers(HOOK_DEFS[i]) <==>
              || (i == 0 && matcher == "startup|resume")
              || (i == 1 && matcher == "resume|compact")
              || (i == 7 && matcher
                  == "permission_prompt|elicitation_dialog|elicitation_complete|elicitation_response|idle_prompt")
  {
    NamesDiffer(i);
    hide HOOK_DEFS;
  }

  lemma OlderSubcommands(i: nat)
    requires i < |HOOK_DEFS|
    ensures LegacySubcommands(HOOK_DEFS[i]) == if i == 0 then ["session-start"] else if i == 2 then ["plan-archive"] else []
  {
    NamesDiffer(i);
    hide HOOK_DEFS;
  }

  lemma NamesDiffer(i: nat)
    requires i < |HOOK_DEFS|
    ensures HOOK_DEFS[i].name == "session-inject" <==> i == 0
    ensures HOOK_DEFS[i].name == "session-resume-inject" <==> i == 1
    ensures HOOK_DEFS[i].name == "plan-archive" <==> i == 2
    ensures HOOK_DEFS[i].name == "state-waiting-input" <==> i == 7
  {}

  lemma ClaimedBy(entry: Json, def: HookDef)
    ensures MatchesDef(entry, def) <==>
              && IsOurs(entry)
              && (MatcherOf(entry) == def.matcher || MatcherOf(entry) in LegacyMatchers(def))
              && (Has(FirstCommand(entry), def.subcommand)
                  || exists sub :: sub in LegacySubcommands(def) && Has(FirstCommand(entry), sub))
  {
    hide IsOurs, MatcherOf, FirstCommand, Has, LegacyMatchers, LegacySubcommands;
  }

  // ------------------------------------------- a binary path that names the hook binary

  predicate QuoteFree(t: string) { forall c :: c in t ==> c != '\'' }

  lemma {:induction false} EscapeKeepsPrefix(path: string, t: string)
    requires QuoteFree(t) && t <= path
    ensures t <= EscapeQuotes(path)
  {
    if t != [] {
      var more := path[|t|..];
      assert path == t + more;
      assert t[0] in t && path[0] == t[0] && path[1..] == t[1..] + more;
      assert forall c :: c in t[1..] ==> c in t;
      EscapeKeepsPrefix(path[1..], t[1..]);
      var e := EscapeQuotes(path);
      assert e == [t[0]] + EscapeQuotes(path[1..]);
      assert t == [t[0]] + t[1..];
    }
  }

  lemma {:induction false} HasAfter(a: string, s: string, b: string, t: string)
    requires Has(s, t)
    ensures Has(a + s + b, t)
    decreases |s|
  {
    if t <= s {
      var rest := s[|t|..] + b;
      assert a + s + b == a + t + rest by { assert s == t + s[|t|..]; }
      HasInside(a, t, rest);
    } else {
      assert s == [s[0]] + s[1..];
      assert a + s + b == (a + [s[0]]) + s[1..] + b;
      HasAfter(a + [s[0]], s[1..], b, t);
    }
  }

  lemma {:induction false} EscapeKeepsSubstring(path: string, t: string)
    requires QuoteFree(t) && Has(path, t)
    ensures Has(EscapeQuotes(path), t)
  {
    if t <= path {
      EscapeKeepsPrefix(path, t);
    } else {
      EscapeKeepsSubstring(path[1..], t);
      var first := if path[0] == '\'' then "'\\''" else [path[0]];
      HasAfter(first, EscapeQuotes(path[1..]), "", t);
      assert first + EscapeQuotes(path[1..]) + "" == EscapeQuotes(path);
    }
  }

  /** If the binary path contains one of the hook binary names, so does every command built from it. */
  lemma PathNamesHook(binary: string, subcommand: string, shell: HookShell)
    requires NamesHook(binary)
    ensures NamesHook(GuardedCommand(binary, subcommand, shell))
  {
    hide Has;
    var t := if Has(binary, HOOK_BINARY) then HOOK_BINARY else LEGACY_HOOK_BINARY;
    assert QuoteFree(HOOK_BINARY) && QuoteFree(LEGACY_HOOK_BINARY);
    match shell {
      case Posix =>
        var tail := "' ]; then " + Quoted(binary) + " " + subcommand + "; fi";
        EscapeKeepsSubstring(binary, t);
        HasAfter("if [ -x '", EscapeQuotes(binary), tail, t);
        PosixShape(binary, subcommand);
      case Windows =>
        var tail := "\" \"" + binary + "\" " + subcommand;
        HasAfter("if exist \"", binary, tail, t);
        assert "if exist \"" + binary + tail == GuardedCommand(binary, subcommand, shell);
    }
  }

  lemma PosixShape(binary: string, subcommand: string)
    ensures "if [ -x '" + EscapeQuotes(binary) + ("' ]; then " + Quoted(binary) + " " + subcommand + "; fi")
         == GuardedCommand(binary, subcommand, Posix)
  {
    var e, q := EscapeQuotes(binary), Quoted(binary);
    assert "if [ -x '" + e + ("' ]; then " + q + " " + subcommand + "; fi")
        == "if [ -x " + ("'" + e + "'") + " ]; then " + q + " " + subcommand + "; fi";
  }

  // ------------------------------------------------------------------- the table

  /** Every subcommand of the table is a plain word, so a shell reads each of the commands as intended. */
  lemma TableCommandsRoundTrip(path: string, i: nat)
    requires i < |HOOK_DEFS|
    ensures Lex(GuardedCommand(path, HOOK_DEFS[i].subcommand, Posix), false, None)
         == Some(GuardTokens(path, HOOK_DEFS[i].subcommand))
  {
    hide Lex, GuardedCommand, GuardTokens;
    SubcommandsAreWords(i);
    GuardedCommandRoundTrips(path, HOOK_DEFS[i].subcommand);
  }

  lemma SubcommandsAreWords(i: nat)
    requires i < |HOOK_DEFS|
    ensures IsWord(HOOK_DEFS[i].subcommand)
  {
    hide Lettered, IsWord;
    FirstLettered();
    LastLettered();
    var def := HOOK_DEFS[i];
    LetteredIsWord(def.subcommand);
  }

  predicate Lettered(s: string) {
    s != [] && forall i :: 0 <= i < |s| ==> 'a' <= s[i] <= 'z' || s[i] == '-'
  }

  lemma FirstLettered()
    ensures Lettered("session-init") && Lettered("session-resume") && Lettered("tool-after") && Lettered("prompt-before")
    ensures Lettered("tool-before") && Lettered("turn-end")
  {}

  lemma LastLettered()
    ensures Lettered("before-compact") && Lettered("waiting-input") && Lettered("error") && Lettered("session-end")
    ensures Lettered("permission-request")
  {}

  lemma LetteredIsWord(s: string)
    requires Lettered(s)
    ensures IsWord(s)
  {}

  /** Definitions of one event never claim each other's entries. */
  predicate Separated(defs: seq<HookDef>) {
    forall i, j :: 0 <= i < |defs| && 0 <= j < |defs| && i != j && defs[i].event == defs[j].event ==>
      !MatcherFits(defs[i].matcher, defs[j])
  }

  lemma EventsDiffer(i: nat, j: nat)
    requires i < j < |HOOK_DEFS| && HOOK_DEFS[i].event == HOOK_DEFS[j].event
    ensures i == 0 && j == 1
  {}

  lemma TableIsSeparated()
    ensures Separated(HOOK_DEFS)
  {
    forall i, j | 0 <= i < |HOOK_DEFS| && 0 <= j < |HOOK_DEFS| && i != j && HOOK_DEFS[i].event == HOOK_DEFS[j].event
      ensures !MatcherFits(HOOK_DEFS[i].matcher, HOOK_DEFS[j])
    {
      if i < j { EventsDiffer(i, j); } else { EventsDiffer(j, i); }
      SessionStartPair();
    }
  }

  lemma SessionStartPair()
    ensures !MatcherFits(HOOK_DEFS[0].matcher, HOOK_DEFS[1]) && !MatcherFits(HOOK_DEFS[1].matcher, HOOK_DEFS[0])
  {}
}
