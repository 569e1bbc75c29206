/** What repeated, interrupted and edited-in-between syncs promise about the shared file. */
module McpInjectionRuns {
  import opened JsonValues
  import opened OwnedOverlay
  import opened McpFileInjection

  /** An uninterrupted sync puts the overlay in place and owns exactly what it injected. */
  lemma SyncGivesOverlay(s: FileState, desired: Servers)
    requires Editable(s.target)
    ensures var t := Synced(s, desired, NoFault);
            && Editable(t.target)
            && ServersOf(t.target) == Overlay(UserView(s), desired)
            && t.owned == Injected(UserView(s), desired)
            && OtherKeys(t.target) == OtherKeys(s.target)
            && (t.target.NoFile? <==> s.target.NoFile? && desired == map[])
  {
    assert desired == map[] && UserView(s) == map[] ==> Overlay(UserView(s), desired) == map[];
  }

  /** An absent file, or an object whose server map is absent or an object too. */
  predicate HasRoomForServers(target: TargetFile) {
    || target.NoFile?
    || (target.Parsed? && target.value.JObject?
        && ("mcpServers" in target.value.fields ==> target.value.fields["mcpServers"].JObject?))
  }

  /** The entry of that name is in the file, and it is not one that CC-Panes wrote. */
  predicate UserHas(target: TargetFile, owned: set<string>, name: string) {
    InFile(target, name) && name !in owned
  }

  predicate InFile(target: TargetFile, name: string) {
    && target.Parsed? && target.value.JObject? && "mcpServers" in target.value.fields
    && target.value.fields["mcpServers"].JObject? && name in target.value.fields["mcpServers"].fields
  }

  /** The names that were not there, or not in this form, and are not the user's. */
  function ToWrite(s: FileState, desired: Servers): set<string> {
    set n | n in desired && !UserHas(s.target, s.owned, n)
            && !(InFile(s.target, n) && s.target.value.fields["mcpServers"].fields[n] == desired[n])
  }

  function ToDrop(s: FileState, desired: Servers): set<string> {
    set n | n in s.owned && n !in desired && InFile(s.target, n)
  }

  lemma FileShape(target: TargetFile)
    ensures HasRoomForServers(target) <==> Editable(target)
    ensures forall n :: n in ServersOf(target) <==> InFile(target, n)
    ensures forall n :: InFile(target, n) ==> ServersOf(target)[n] == target.value.fields["mcpServers"].fields[n]
  {}

  /**
   What an uninterrupted sync leaves, member by member: without a file and a wish no file; otherwise an object in which
   the user's entries and every other key are as before, the names wished for hold what was wished unless the user has
   an entry there, and no other name is left.
   */
  lemma SyncedExactly(s: FileState, desired: Servers)
    requires HasRoomForServers(s.target)
    ensures var t := Synced(s, desired, NoFault);
            && HasRoomForServers(t.target)
            && (t.target.NoFile? <==> s.target.NoFile? && desired == map[])
            && (t.target.Parsed? ==> "mcpServers" in t.target.value.fields)
            && (forall k :: k != "mcpServers" && t.target.Parsed? ==>
                  (k in t.target.value.fields <==> s.target.Parsed? && k in s.target.value.fields))
            && (forall k :: k != "mcpServers" && s.target.Parsed? && k in s.target.value.fields ==>
                  t.target.Parsed? && k in t.target.value.fields && t.target.value.fields[k] == s.target.value.fields[k])
            && (forall n :: InFile(t.target, n) <==> n in desired || UserHas(s.target, s.owned, n))
            && (forall n :: InFile(t.target, n) ==>
                  t.target.value.fields["mcpServers"].fields[n]
                  == if UserHas(s.target, s.owned, n) then s.target.value.fields["mcpServers"].fields[n] else desired[n])
            && (forall n :: n in t.owned <==> n in desired && !UserHas(s.target, s.owned, n))
  {
    FileShape(s.target);
    var t := Synced(s, desired, NoFault);
    FileShape(t.target);
    SyncGivesOverlay(s, desired);
  }

  /** What an uninterrupted sync reports: whether it wrote, how many names it wrote and dropped, and the names it met. */
  lemma ReportedExactly(s: FileState, desired: Servers)
    requires HasRoomForServers(s.target)
    ensures var t, r := Synced(s, desired, NoFault), Reported(s, desired, NoFault);
            && r.Returned? && r.result.Success?
            && (r.result.value.written <==> t != s && !(s.target.NoFile? && desired == map[]))
            && r.result.value.injected == |ToWrite(s, desired)|
            && r.result.value.removed == |ToDrop(s, desired)|
            && (forall n :: n in r.result.value.collisions <==> n in desired && UserHas(s.target, s.owned, n))
  {
    hide ToWrite, ToDrop, Counts, Overlay, UserHas;
    FileShape(s.target);
    CountsExactly(s, desired);
  }

  lemma CountsExactly(s: FileState, desired: Servers)
    requires HasRoomForServers(s.target)
    ensures var o := Counts(s, desired);
            && !o.written && o.injected == |ToWrite(s, desired)| && o.removed == |ToDrop(s, desired)|
            && (forall n :: n in o.collisions <==> n in desired && UserHas(s.target, s.owned, n))
    ensures s.target.NoFile? && s.owned == {} && desired == map[] ==> Counts(s, desired) == NOTHING
  {
    FileShape(s.target);
    var servers := ServersOf(s.target);
    assert ToWrite(s, desired) == Refreshed(servers, desired, s.owned) + Fresh(servers, s.owned, desired.Keys);
    assert ToDrop(s, desired) == Dropped(servers, desired, s.owned);
  }

  /** Cut short at the receipt, the target is written and the receipt is not; at the target, nothing is. */
  lemma FaultsExactly(s: FileState, desired: Servers)
    ensures var t, r := Synced(s, desired, NoFault), Reported(s, desired, NoFault);
            && Synced(s, desired, AtReceipt) == FileState(t.target, s.owned)
            && Reported(s, desired, AtReceipt) == (if t == s then r else Returned(Failure(ReceiptWriteFailed)))
            && (s.target.NoFile? && desired == map[] ==>
                  Synced(s, desired, AtTarget) == t && Reported(s, desired, AtTarget) == r)
            && (!(s.target.NoFile? && desired == map[]) ==>
                  && Synced(s, desired, AtTarget) == s
                  && Reported(s, desired, AtTarget) == if t == s then r else Returned(Failure(TargetWriteFailed)))
  {}

  /** What a receipt file owns: the strings of the list called `servers` of an object, and else nothing. */
  lemma ReceiptExactly(file: ReceiptFile, name: string)
    ensures name in ReadReceipt(file) <==>
            && file.Receipt? && file.value.JObject? && "servers" in file.value.fields
            && file.value.fields["servers"].JArray? && JString(name) in file.value.fields["servers"].items
  {}

  /** Taking the injected names away again leaves the user's entries. */
  lemma OverlayKeepsUser<V>(user: map<string, V>, desired: map<string, V>)
    ensures Foreign(Overlay(user, desired), Injected(user, desired)) == user
  {}

  /** The user's entries and every other top-level key survive a sync, even an interrupted one. */
  lemma SyncKeepsUser(s: FileState, desired: Servers, fault: Fault)
    ensures var t := Synced(s, desired, fault);
            && OtherKeys(t.target) == OtherKeys(s.target)
            && (forall n :: n in UserView(s) ==> n in UserView(t) && UserView(t)[n] == UserView(s)[n])
            && (fault != AtReceipt ==> UserView(t) == UserView(s))
  {
    if Editable(s.target) {
      SyncGivesOverlay(s, desired);
      OverlayKeepsUser(UserView(s), desired);
    }
  }

  /** A repeated sync writes nothing and reports nothing injected or removed. */
  lemma SecondSyncIsIdle(s: FileState, desired: Servers)
    requires Editable(s.target)
    ensures var t := Synced(s, desired, NoFault);
            && Planned(t, desired).Leave?
            && Planned(t, desired).outcome.injected == 0
            && Planned(t, desired).outcome.removed == 0
            && Synced(t, desired, NoFault) == t
  {
    var t := Synced(s, desired, NoFault);
    SyncGivesOverlay(s, desired);
    SyncKeepsUser(s, desired, NoFault);
    var servers := ServersOf(t.target);
    assert Refreshed(servers, desired, t.owned) == {};
    assert Fresh(servers, t.owned, desired.Keys) == {};
    assert Dropped(servers, desired, t.owned) == {};
    if !(t.target.NoFile? && desired == map[]) {
      assert Fields(t.target)[SERVERS_KEY := JObject(servers)] == Fields(t.target);
    }
  }

  /** Consecutive uninterrupted syncs. */
  function Run(s: FileState, wishes: seq<Servers>): FileState {
    if wishes == [] then s else Synced(Run(s, wishes[..|wishes| - 1]), wishes[|wishes| - 1], NoFault)
  }

  /** Only the last desired set matters; the file exists as soon as one wish was not empty. */
  lemma {:induction false} OnlyLastWishMatters(s: FileState, wishes: seq<Servers>)
    requires Editable(s.target) && wishes != []
    ensures var t, last := Run(s, wishes), wishes[|wishes| - 1];
            && Editable(t.target)
            && ServersOf(t.target) == Overlay(UserView(s), last)
            && t.owned == Injected(UserView(s), last)
            && UserView(t) == UserView(s)
            && OtherKeys(t.target) == OtherKeys(s.target)
            && (t.target.NoFile? <==> s.target.NoFile? && forall i :: 0 <= i < |wishes| ==> wishes[i] == map[])
  {
    var before, last := wishes[..|wishes| - 1], wishes[|wishes| - 1];
    var mid := Run(s, before);
    if before != [] {
      OnlyLastWishMatters(s, before);
    }
    SyncGivesOverlay(mid, last);
    SyncKeepsUser(mid, last, NoFault);
    assert forall i :: 0 <= i < |before| ==> before[i] == wishes[i];
  }

  /** Two histories ending in the same wish leave the same file, once a file exists. */
  lemma HistoryIndependent(s: FileState, first: seq<Servers>, second: seq<Servers>)
    requires s.target.Parsed? && Editable(s.target)
    requires first != [] && second != [] && first[|first| - 1] == second[|second| - 1]
    ensures Run(s, first) == Run(s, second)
  {
    OnlyLastWishMatters(s, first);
    OnlyLastWishMatters(s, second);
    var a, b := Run(s, first).target, Run(s, second).target;
    RunIsParsed(s, first);
    RunIsParsed(s, second);
    SameDocument(a, b);
  }

  lemma {:induction false} RunIsParsed(s: FileState, wishes: seq<Servers>)
    requires s.target.Parsed? && Editable(s.target) && wishes != []
    ensures var t := Run(s, wishes).target;
            t.Parsed? && t.value.JObject? && SERVERS_KEY in t.value.fields && t.value.fields[SERVERS_KEY].JObject?
  {
    OnlyLastWishMatters(s, wishes);
    var before, last := wishes[..|wishes| - 1], wishes[|wishes| - 1];
    if before != [] {
      OnlyLastWishMatters(s, before);
    }
    SyncGivesOverlay(Run(s, before), last);
  }

  lemma SameDocument(a: TargetFile, b: TargetFile)
    requires a.Parsed? && a.value.JObject? && SERVERS_KEY in a.value.fields && a.value.fields[SERVERS_KEY].JObject?
    requires b.Parsed? && b.value.JObject? && SERVERS_KEY in b.value.fields && b.value.fields[SERVERS_KEY].JObject?
    requires ServersOf(a) == ServersOf(b) && OtherKeys(a) == OtherKeys(b)
    ensures a == b
  {
    var x, y := a.value.fields, b.value.fields;
    forall k ensures (k in x <==> k in y) && (k in x ==> x[k] == y[k]) {
      if k != SERVERS_KEY {
        assert k in x <==> k in OtherKeys(a);
        assert k in y <==> k in OtherKeys(b);
        assert k in x ==> x[k] == OtherKeys(a)[k];
      }
    }
    assert x == y;
  }

  /** After any run, a sync with nothing desired leaves exactly the user's entries. */
  lemma ClearRestoresUser(s: FileState, wishes: seq<Servers>)
    requires Editable(s.target)
    ensures var t := Run(s, wishes + [map[]]);
            ServersOf(t.target) == UserView(s) && t.owned == {} && OtherKeys(t.target) == OtherKeys(s.target)
  {
    OnlyLastWishMatters(s, wishes + [map[]]);
    assert Overlay(UserView(s), map[]) == UserView(s);
  }

  // ------------------------------------------------------------------ interruption

  /** Cut short between the two writes, a re-run reaches the same map but owns only what it owned before. */
  lemma RerunAfterInterruption(s: FileState, desired: Servers)
    requires Editable(s.target) && Planned(s, desired).Rewrite?
    ensures var cut := Synced(s, desired, AtReceipt);
            var again := Synced(cut, desired, NoFault);
            && ServersOf(again.target) == ServersOf(Synced(s, desired, NoFault).target)
            && again.owned == s.owned * desired.Keys
            && OtherKeys(again.target) == OtherKeys(s.target)
  {
    var cut := Synced(s, desired, AtReceipt);
    SyncGivesOverlay(s, desired);
    SyncGivesOverlay(cut, desired);
    assert ServersOf(cut.target) == Overlay(UserView(s), desired);
    var u, v := UserView(s), UserView(cut);
    assert Overlay(v, desired) == Overlay(u, desired);
    assert Injected(v, desired) == s.owned * desired.Keys;
  }

  /**
   An interrupted sync can be undone by a clearing sync exactly when it was introducing no new name;
   otherwise the names it introduced count as the user's from then on.
   */
  lemma ClearAfterInterruption(s: FileState, desired: Servers)
    requires Editable(s.target) && Planned(s, desired).Rewrite?
    ensures var cleared := Synced(Synced(s, desired, AtReceipt), map[], NoFault);
            ServersOf(cleared.target) == UserView(s) <==> Injected(UserView(s), desired) <= s.owned
  {
    var cut := Synced(s, desired, AtReceipt);
    SyncGivesOverlay(s, desired);
    SyncGivesOverlay(cut, map[]);
    var u, v := UserView(s), UserView(cut);
    assert Overlay(v, map[]) == v;
    assert v == Foreign(Overlay(u, desired), s.owned);
    if Injected(u, desired) <= s.owned {
      assert v == u;
    } else {
      var n :| n in Injected(u, desired) && n !in s.owned;
      assert n in v && n !in u;
    }
  }

  /** A first injection into an empty object, cut short there: the entry outlives every clearing sync. */
  lemma InterruptionLeavesEntry(name: string, entry: Json)
    ensures var s := FileState(Parsed(JObject(map[])), {});
            var cleared := Synced(Synced(s, map[name := entry], AtReceipt), map[], NoFault);
            && UserView(s) == map[] && ServersOf(cleared.target) == map[name := entry] && cleared.owned == {}
  {
    var s, desired := FileState(Parsed(JObject(map[])), {}), map[name := entry];
    var cut := Synced(s, desired, AtReceipt);
    SyncGivesOverlay(s, desired);
    assert UserView(s) == map[];
    assert Overlay(UserView(s), desired) == desired;
    assert name in Injected(UserView(s), desired);
    assert Planned(s, desired).Rewrite?;
    SyncGivesOverlay(cut, map[]);
    assert UserView(cut) == desired;
    assert Overlay(desired, map[]) == desired;
  }

  // ------------------------------------------------- runs with user edits and faults

  /** Anything that can happen to the pair of files. */
  datatype Event =
    | Sync(desired: Servers, fault: Fault)
    | UserEdit(target: TargetFile)
    | ReceiptLost

  function Apply(s: FileState, event: Event): FileState {
    match event
    case Sync(desired, fault) => Synced(s, desired, fault)
    case UserEdit(target) => s.(target := target)
    case ReceiptLost => s.(owned := ReadReceipt(NoReceipt))
  }

  function After(s: FileState, events: seq<Event>): FileState {
    if events == [] then s else Apply(After(s, events[..|events| - 1]), events[|events| - 1])
  }

  /** Every name a run of events asked for. */
  function Asked(events: seq<Event>): set<string> {
    if events == [] then {} else
    Asked(events[..|events| - 1])
    + (if events[|events| - 1].Sync? then events[|events| - 1].desired.Keys else {})
  }

  /** A name becomes CC-Panes' own only because some sync asked for it. */
  lemma {:induction false} OwnershipHasCause(s: FileState, events: seq<Event>)
    ensures forall n :: n in After(s, events).owned ==> n in s.owned || n in Asked(events)
  {
    if events != [] {
      var before, last := events[..|events| - 1], events[|events| - 1];
      OwnershipHasCause(s, before);
      var mid := After(s, before);
      if last.Sync? && Editable(mid.target) {
        SyncGivesOverlay(mid, last.desired);
      }
    }
  }

  /**
   Over every run of syncs, interruptions, lost receipts and user edits, an entry that is not ours
   stays as the user left it: only an edit that touches it can change it, and no sync ever claims it.
   */
  lemma {:induction false} UserEntrySurvives(s: FileState, events: seq<Event>, name: string, entry: Json)
    requires name in UserView(s) && UserView(s)[name] == entry
    requires forall e :: e in events && e.UserEdit? ==> name in ServersOf(e.target) && ServersOf(e.target)[name] == entry
    ensures name in UserView(After(s, events)) && UserView(After(s, events))[name] == entry
  {
    if events != [] {
      var before, last := events[..|events| - 1], events[|events| - 1];
      assert forall e :: e in before ==> e in events;
      UserEntrySurvives(s, before, name, entry);
      if last.Sync? {
        SyncKeepsUser(After(s, before), last.desired, last.fault);
      }
    }
  }
}
