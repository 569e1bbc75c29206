/** Keeping CC-Panes' entry in a user-level MCP server map: the Cursor and Grok config files. */
module ManagedServers {
  import opened JsonValues
  import opened SetIteration
  import opened Characters
  import opened ManagedUrl

  const CCPANES := "ccpanes"

  /** Cursor replaces an entry by its URL; Grok sets two keys of a table and keeps the others. */
  datatype Dialect = Cursor | Grok

  type Servers = map<string, Json>

  /** An entry whose URL carries the CC-Panes signature. */
  predicate Managed(entry: Json) {
    match entry.GetString("url")
    case Some(url) => IsManagedUrl(url)
    case None => false
  }

  function Entry(dialect: Dialect, before: Option<Json>, url: string): Json {
    match dialect
    case Cursor => JObject(map["url" := JString(url)])
    case Grok =>
      var fields := if before.Some? && before.value.JObject? then before.value.fields else map[];
      JObject(fields["url" := JString(url)]["enabled" := JBool(true)])
  }

  predicate IsForeign(before: Option<Json>) {
    before.Some? && !Managed(before.value)
  }

  /** One name: a foreign entry stays, an own or absent one gets the URL. */
  function Upserted(dialect: Dialect, before: Option<Json>, url: string): Option<Json> {
    if IsForeign(before) then before else Some(Entry(dialect, before, url))
  }

  function Lookup(servers: Servers, name: string): Option<Json> {
    if name in servers then Some(servers[name]) else None
  }

  /** What a name holds once the own entry has been upserted. */
  function OwnFirst(dialect: Dialect, servers: Servers, url: string, name: string): Option<Json> {
    if name == CCPANES then Upserted(dialect, Lookup(servers, name), url) else Lookup(servers, name)
  }

  /** What a sync leaves under one name. */
  function SyncedEntry(dialect: Dialect, servers: Servers, url: string, shared: map<string, string>, name: string)
    : Option<Json>
  {
    var own := OwnFirst(dialect, servers, url, name);
    if name in shared then Upserted(dialect, own, shared[name]) else own
  }

  /** Some step of the sync replaced an entry by a different one: Cursor's `changed` flag. */
  ghost predicate Touches(dialect: Dialect, servers: Servers, url: string, shared: map<string, string>) {
    || Upserted(dialect, Lookup(servers, CCPANES), url) != Lookup(servers, CCPANES)
    || exists name :: name in shared && TouchesShared(dialect, servers, url, shared, name)
  }

  predicate TouchesShared(dialect: Dialect, servers: Servers, url: string, shared: map<string, string>, name: string)
    requires name in shared
  {
    SyncedEntry(dialect, servers, url, shared, name) != OwnFirst(dialect, servers, url, name)
  }

  ghost predicate IsSynced(dialect: Dialect, servers: Servers, url: string, shared: map<string, string>, after: Servers) {
    forall name :: Lookup(after, name) == SyncedEntry(dialect, servers, url, shared, name)
  }

  /** The in-memory part of `sync_mcp_at`: the own entry, then the shared servers in any order. */
  method SyncServers(dialect: Dialect, servers: Servers, url: string, shared: map<string, string>)
    returns (after: Servers, changed: bool)
    ensures IsSynced(dialect, servers, url, shared, after)
    ensures changed <==> Touches(dialect, servers, url, shared)
  {
    hide Managed, Entry;
    after, changed := servers, false;
    if !IsForeign(Lookup(after, CCPANES)) {
      var entry := Entry(dialect, Lookup(after, CCPANES), url);
      if Lookup(after, CCPANES) != Some(entry) {
        after, changed := after[CCPANES := entry], true;
      }
    }
    ghost var first := changed;
    hide OwnFirst;
    var names := shared.Keys;
    var todo := names;
    ghost var done: set<string> := {};
    while todo != {}
      invariant Split(names, done, todo)
      invariant forall name :: name !in done ==> Lookup(after, name) == OwnFirst(dialect, servers, url, name)
      invariant forall name :: name in done ==> Lookup(after, name) == SyncedEntry(dialect, servers, url, shared, name)
      invariant changed <==> first || exists name :: name in done && TouchesShared(dialect, servers, url, shared, name)
      decreases todo
    {
      var name :| name in todo;
      TakeOne(names, done, todo, name);
      todo, done := todo - {name}, done + {name};
      if IsForeign(Lookup(after, name)) { continue; }
      var entry := Entry(dialect, Lookup(after, name), shared[name]);
      if Lookup(after, name) != Some(entry) {
        assert TouchesShared(dialect, servers, url, shared, name);
        after, changed := after[name := entry], true;
      }
    }
    AllDone(names, done);
  }

  // ------------------------------------------------------------------------ laws

  lemma SyncedIsManaged(dialect: Dialect, before: Option<Json>, url: string)
    ensures Entry(dialect, before, url).GetString("url") == Some(url)
    ensures Managed(Entry(dialect, before, url)) <==> IsManagedUrl(url)
    ensures Entry(dialect, Some(Entry(dialect, before, url)), url) == Entry(dialect, before, url)
  {
    hide IsManagedUrl;
    match dialect {
      case Cursor =>
      case Grok =>
        var f := if before.Some? && before.value.JObject? then before.value.fields else map[];
        var g := f["url" := JString(url)]["enabled" := JBool(true)];
        assert g["url" := JString(url)]["enabled" := JBool(true)] == g;
    }
  }

  /**
   What is written for an own entry: Cursor gets the URL alone; Grok the URL and the switch, and every other field stays.
   */
  lemma EntryExactly(dialect: Dialect, before: Option<Json>, url: string, field: string)
    ensures var after := Entry(dialect, before, url);
            && after.JObject?
            && (field == "url" ==> field in after.fields && after.fields[field] == JString(url))
            && (dialect.Cursor? && field != "url" ==> field !in after.fields)
            && (dialect.Grok? && field == "enabled" ==> field in after.fields && after.fields[field] == JBool(true))
            && (dialect.Grok? && field != "url" && field != "enabled" ==>
                  && (field in after.fields <==> before.Some? && before.value.JObject? && field in before.value.fields)
                  && (field in after.fields ==> after.fields[field] == before.value.fields[field]))
  {}

  /** An entry that is not ours, without a URL or with one that is not recognised, survives a sync, whatever its name. */
  lemma ForeignSurvives(dialect: Dialect, servers: Servers, url: string, shared: map<string, string>, name: string)
    requires name in servers
    requires forall own :: servers[name].GetString("url") == Some(own) ==> !IsManagedUrl(own)
    ensures SyncedEntry(dialect, servers, url, shared, name) == Some(servers[name])
  {
    hide IsManagedUrl;
  }

  /** A new URL replaces the old own entry, and is introduced where there was none. */
  lemma OwnEntryFollows(dialect: Dialect, servers: Servers, url: string, shared: map<string, string>)
    requires !IsForeign(Lookup(servers, CCPANES)) && CCPANES !in shared
    ensures var after := SyncedEntry(dialect, servers, url, shared, CCPANES);
            after.Some? && after.value.GetString("url") == Some(url)
  {
    hide Managed, Entry;
    SyncedIsManaged(dialect, Lookup(servers, CCPANES), url);
  }

  /** Upserting the same URL twice is upserting it once. */
  lemma UpsertTwice(dialect: Dialect, before: Option<Json>, url: string)
    ensures var once := Upserted(dialect, before, url); Upserted(dialect, once, url) == once
  {
    hide Managed, Entry;
    SyncedIsManaged(dialect, before, url);
  }

  /** The shared servers contain one called `ccpanes` that takes our entry over and keeps being overwritten. */
  predicate Contested(servers: Servers, url: string, shared: map<string, string>) {
    && CCPANES in shared && shared[CCPANES] != url && IsManagedUrl(shared[CCPANES])
    && !IsForeign(Lookup(servers, CCPANES))
  }

  lemma ContestedEntry(dialect: Dialect, before: Option<Json>, url: string, other: string)
    requires IsManagedUrl(url) && !IsForeign(before)
    ensures var once := Upserted(dialect, Upserted(dialect, before, url), other);
            && once.Some? && once.value.GetString("url") == Some(other)
            && (IsManagedUrl(other) ==> Upserted(dialect, once, url).value.GetString("url") == Some(url))
            && (!IsManagedUrl(other) ==> Upserted(dialect, once, url) == once)
  {
    hide IsManagedUrl, Entry;
    SyncedIsManaged(dialect, before, url);
    SyncedIsManaged(dialect, Upserted(dialect, before, url), other);
    SyncedIsManaged(dialect, Upserted(dialect, Upserted(dialect, before, url), other), url);
  }

  /** With the URL CC-Panes prints, a repeated sync reports a change exactly when the name `ccpanes` is contested. */
  lemma RepeatReportsChangeExactly(dialect: Dialect, servers: Servers, url: string, shared: map<string, string>, after: Servers)
    requires IsManagedUrl(url) && IsSynced(dialect, servers, url, shared, after)
    ensures Touches(dialect, after, url, shared) <==> Contested(servers, url, shared)
  {
    hide IsManagedUrl, Entry, Managed, Upserted, IsForeign, Lookup;
    OwnSettled(dialect, servers, url, shared, after);
    forall name | name in shared && name != CCPANES ensures !TouchesShared(dialect, after, url, shared, name) {
      assert Lookup(after, name) == Upserted(dialect, Lookup(servers, name), shared[name]);
      UpsertTwice(dialect, Lookup(servers, name), shared[name]);
    }
  }

  /** What the second sync does to the name `ccpanes`. */
  lemma OwnSettled(dialect: Dialect, servers: Servers, url: string, shared: map<string, string>, after: Servers)
    requires IsManagedUrl(url) && IsSynced(dialect, servers, url, shared, after)
    ensures Upserted(dialect, Lookup(after, CCPANES), url) != Lookup(after, CCPANES) <==> Contested(servers, url, shared)
    ensures CCPANES in shared && TouchesShared(dialect, after, url, shared, CCPANES) ==> Contested(servers, url, shared)
  {
    hide IsManagedUrl, Entry, Managed, Lookup;
    var before := Lookup(servers, CCPANES);
    assert Lookup(after, CCPANES) == SyncedEntry(dialect, servers, url, shared, CCPANES);
    if !IsForeign(before) {
      UpsertTwice(dialect, before, url);
      if CCPANES in shared {
        ContestedEntry(dialect, before, url, shared[CCPANES]);
        UpsertTwice(dialect, Upserted(dialect, before, url), shared[CCPANES]);
      }
    }
  }

  /** A later URL of a shared server takes effect exactly when it is the same or the earlier one was recognised. */
  lemma SharedUpdateExactly(dialect: Dialect, name: string, first: string, second: string)
    ensures var once := Upserted(dialect, None, first);
            var twice := Upserted(dialect, once, second);
            twice.Some? && (twice.value.GetString("url") == Some(second) <==> first == second || IsManagedUrl(first))
  {
    hide IsManagedUrl, Entry;
    SyncedIsManaged(dialect, None, first);
    SyncedIsManaged(dialect, Upserted(dialect, None, first), second);
  }

  // ---------------------------------------------------------------------- removal

  /** `remove_ccpanes_entry_at` on the server map: only an own entry called `ccpanes` goes. */
  function Removed(servers: Servers): Servers {
    if Lookup(servers, CCPANES).Some? && Managed(servers[CCPANES])
    then map name | name in servers && name != CCPANES :: servers[name]
    else servers
  }

  /** A shared server's entry is there already, and is a user's or what the sync would write. */
  predicate Unmoved(dialect: Dialect, servers: Servers, name: string, url: string) {
    name in servers && (IsForeign(Lookup(servers, name)) || servers[name] == Entry(dialect, Lookup(servers, name), url))
  }

  /** Exactly then a sync leaves it as it was. */
  lemma UnmovedExactly(dialect: Dialect, servers: Servers, name: string, url: string)
    ensures Unmoved(dialect, servers, name, url) <==> Upserted(dialect, Lookup(servers, name), url) == Lookup(servers, name)
  {
    hide Managed, Entry;
  }

  /** No own entry was there before, and no shared server leaves one under the name that removal would not take. */
  predicate OwnReturns(servers: Servers, shared: map<string, string>) {
    || IsForeign(Lookup(servers, CCPANES))
    || (CCPANES !in servers && (CCPANES in shared ==> IsManagedUrl(shared[CCPANES])))
  }

  /**
   Removal after a sync restores the map if and only if it held no own entry before, a shared server called
   `ccpanes` does not leave a foreign one, and every other shared server was there and left as it was.
   */
  lemma RemoveUndoesSync(dialect: Dialect, servers: Servers, url: string, shared: map<string, string>, after: Servers)
    requires IsManagedUrl(url) && IsSynced(dialect, servers, url, shared, after)
    ensures Removed(after) == servers <==>
            && OwnReturns(servers, shared)
            && forall name :: name in shared && name != CCPANES ==> Unmoved(dialect, servers, name, shared[name])
  {
    hide IsManagedUrl, Entry, Managed, Upserted, Unmoved, OwnReturns, IsSynced;
    forall name ensures Lookup(Removed(after), name) == Lookup(servers, name) <==>
      if name == CCPANES then OwnReturns(servers, shared)
      else name in shared ==> Unmoved(dialect, servers, name, shared[name])
    {
      if name == CCPANES { OwnGone(dialect, servers, url, shared, after); }
      else { OtherKept(dialect, servers, url, shared, after, name); }
    }
    if forall name :: Lookup(Removed(after), name) == Lookup(servers, name) { SameServers(Removed(after), servers); }
  }

  lemma SameServers(a: Servers, b: Servers)
    requires forall name :: Lookup(a, name) == Lookup(b, name)
    ensures a == b
  {
    forall name ensures (name in a <==> name in b) && (name in a ==> a[name] == b[name]) {
      assert Lookup(a, name) == Lookup(b, name);
    }
  }

  lemma OtherKept(dialect: Dialect, servers: Servers, url: string, shared: map<string, string>, after: Servers, name: string)
    requires IsSynced(dialect, servers, url, shared, after) && name != CCPANES
    ensures Lookup(Removed(after), name) == Lookup(servers, name)
            <==> (name in shared ==> Unmoved(dialect, servers, name, shared[name]))
  {
    hide Managed, Entry, Upserted, Unmoved;
    assert Lookup(after, name) == SyncedEntry(dialect, servers, url, shared, name);
    if name in shared { UnmovedExactly(dialect, servers, name, shared[name]); }
  }

  lemma OwnGone(dialect: Dialect, servers: Servers, url: string, shared: map<string, string>, after: Servers)
    requires IsManagedUrl(url) && IsSynced(dialect, servers, url, shared, after)
    ensures Lookup(Removed(after), CCPANES) == Lookup(servers, CCPANES) <==> OwnReturns(servers, shared)
  {
    hide Managed, Entry, IsManagedUrl;
    var before := Lookup(servers, CCPANES);
    var own := Upserted(dialect, before, url);
    assert Lookup(after, CCPANES) == SyncedEntry(dialect, servers, url, shared, CCPANES);
    SyncedIsManaged(dialect, before, url);
    if CCPANES in shared { SyncedIsManaged(dialect, own, shared[CCPANES]); }
  }

  // ----------------------------------------------- the shared servers of the program

  /** The URL under which the program hands a running shared server over. */
  function SharedUrl(port: nat): string { "http://127.0.0.1:" + Decimal(port) + "/mcp" }

  /** It carries no token, so it is never recognised. */
  lemma SharedUrlIsForeign(port: nat)
    ensures !IsManagedUrl(SharedUrl(port))
  {
    hide Before, HostOf, Lower, IsLoopback, Decimal;
    var d := Decimal(port);
    var url, after := SharedUrl(port), "127.0.0.1:" + d + "/mcp";
    SchemeOff(after);
    assert url == "http://" + after;
    assert forall c :: c in d ==> c != '?';
    assert '?' !in after;
    var authority := Before(after, EndsAuthority);
    assert |authority| <= |after| by { BeforeIsShorter(after, EndsAuthority); }
    assert forall c :: c in after[|authority|..] ==> c in after;
    BeforeNothing(One('&'));
  }

  lemma {:induction false} BeforeIsShorter(s: string, stop: char -> bool)
    ensures |Before(s, stop)| <= |s|
  {
    if s != [] && !stop(s[0]) { BeforeIsShorter(s[1..], stop); }
  }

  lemma BeforeNothing(stop: char -> bool)
    ensures Before("", stop) == ""
  {}

  /** Hence the port of a shared server that once entered the map never follows, from the second sync on. */
  lemma SharedPortNeverFollows(dialect: Dialect, first: nat, second: nat)
    requires first != second
    ensures var once := Upserted(dialect, None, SharedUrl(first));
            && Upserted(dialect, once, SharedUrl(second)) == once
            && once.value.GetString("url") == Some(SharedUrl(first)) && SharedUrl(first) != SharedUrl(second)
  {
    hide IsManagedUrl, Entry, SharedUrl;
    SharedUrlIsForeign(first);
    SyncedIsManaged(dialect, None, SharedUrl(first));
    SharedUrlsDiffer(first, second);
  }

  lemma SharedUrlsDiffer(first: nat, second: nat)
    requires first != second
    ensures SharedUrl(first) != SharedUrl(second)
  {
    hide Decimal;
    var a, b, n := SharedUrl(first), SharedUrl(second), |"http://127.0.0.1:"|;
    DecimalRoundTrip(first);
    DecimalRoundTrip(second);
    assert a[n..|a| - 4] == Decimal(first) && b[n..|b| - 4] == Decimal(second);
  }

  /** The shared servers are all of the program's own form. */
  ghost predicate FromProgram(shared: map<string, string>) {
    forall name :: name in shared ==> exists port: nat :: shared[name] == SharedUrl(port)
  }

  /** With them a repeated sync never reports a change. */
  lemma ProgramNeverContests(dialect: Dialect, servers: Servers, url: string, shared: map<string, string>, after: Servers)
    requires IsManagedUrl(url) && IsSynced(dialect, servers, url, shared, after) && FromProgram(shared)
    ensures !Touches(dialect, after, url, shared)
  {
    hide IsManagedUrl, IsSynced, Touches, SharedUrl;
    RepeatReportsChangeExactly(dialect, servers, url, shared, after);
    if CCPANES in shared {
      var port: nat :| shared[CCPANES] == SharedUrl(port);
      SharedUrlIsForeign(port);
    }
  }

  /** But one called `ccpanes` takes the program's entry for good: no later URL of the program enters the map. */
  lemma SharedCcpanesTakesOver(dialect: Dialect, url: string, later: string, port: nat, after: Servers, last: Servers)
    requires IsManagedUrl(url) && IsSynced(dialect, map[], url, map[CCPANES := SharedUrl(port)], after)
    requires IsSynced(dialect, after, later, map[], last)
    ensures CCPANES in last && last[CCPANES].GetString("url") == Some(SharedUrl(port))
  {
    hide IsManagedUrl, Entry, SharedUrl, Managed;
    var shared := map[CCPANES := SharedUrl(port)];
    SharedUrlIsForeign(port);
    var own := Upserted(dialect, None, url);
    SyncedIsManaged(dialect, None, url);
    SyncedIsManaged(dialect, own, SharedUrl(port));
    assert Lookup(after, CCPANES) == SyncedEntry(dialect, map[], url, shared, CCPANES);
    assert Lookup(last, CCPANES) == SyncedEntry(dialect, after, later, map[], CCPANES);
  }

  // ------------------------------------------------------------------- the file

  datatype ConfigDoc = NoFile | Blank | Malformed(text: string) | Parsed(value: Json)

  datatype ConfigError = NotJson | RootNotObject | ServersNotObject | WriteFailed

  function Root(doc: ConfigDoc): map<string, Json> {
    if doc.Parsed? && doc.value.JObject? then doc.value.fields else map[]
  }

  function ServersIn(doc: ConfigDoc): Servers {
    if "mcpServers" in Root(doc) && Root(doc)["mcpServers"].JObject? then Root(doc)["mcpServers"].fields else map[]
  }

  function WithServers(doc: ConfigDoc, servers: Servers): ConfigDoc {
    Parsed(JObject(Root(doc)["mcpServers" := JObject(servers)]))
  }

  /** An object that holds a server map, and under every other key what the document held there before, or nothing. */
  ghost predicate OnlyServersDiffer(before: ConfigDoc, after: ConfigDoc) {
    && after.Parsed? && after.value.JObject?
    && "mcpServers" in after.value.fields && after.value.fields["mcpServers"].JObject?
    && (forall key :: key != "mcpServers" ==>
          (key in after.value.fields <==> before.Parsed? && before.value.JObject? && key in before.value.fields))
    && (forall key :: key != "mcpServers" && before.Parsed? && before.value.JObject? && key in before.value.fields ==>
          key in after.value.fields && after.value.fields[key] == before.value.fields[key])
  }

  function Refusal(doc: ConfigDoc): Option<ConfigError> {
    if doc.Malformed? then Some(NotJson)
    else if doc.Parsed? && !doc.value.JObject? then Some(RootNotObject)
    else if "mcpServers" in Root(doc) && !Root(doc)["mcpServers"].JObject? then Some(ServersNotObject)
    else None
  }

  /** `~/.cursor/mcp.json`. */
  class CursorConfig {
    var doc: ConfigDoc

    constructor (doc: ConfigDoc)
      ensures this.doc == doc
    {
      this.doc := doc;
    }

    /** `sync_mcp_at`: reports whether it wrote; without a change the file is not written. */
    method Sync(url: string, shared: map<string, string>, writeFails: bool) returns (r: Result<bool, ConfigError>)
      modifies this
      ensures Refusal(old(doc)).Some? ==> r == Failure(Refusal(old(doc)).value)
      ensures Refusal(old(doc)).None? ==>
                if !Touches(Cursor, ServersIn(old(doc)), url, shared) then r == Success(false)
                else r == (if writeFails then Failure(WriteFailed) else Success(true))
      ensures r != Success(true) ==> doc == old(doc)
      ensures r == Success(true) ==>
                && doc == WithServers(old(doc), ServersIn(doc))
                && IsSynced(Cursor, ServersIn(old(doc)), url, shared, ServersIn(doc))
      ensures r == Success(true) ==> OnlyServersDiffer(old(doc), doc)
      ensures old(doc).Malformed? <==> r == Failure(NotJson)
      ensures (old(doc).Parsed? && !old(doc).value.JObject?) <==> r == Failure(RootNotObject)
      ensures (old(doc).Parsed? && old(doc).value.JObject? && "mcpServers" in old(doc).value.fields
               && !old(doc).value.fields["mcpServers"].JObject?) <==> r == Failure(ServersNotObject)
    {
      hide IsSynced, Touches;
      if doc.Malformed? { return Failure(NotJson); }
      if doc.Parsed? && !doc.value.JObject? { return Failure(RootNotObject); }
      var root := Root(doc);
      if "mcpServers" !in root { root := root["mcpServers" := JObject(map[])]; }
      if !root["mcpServers"].JObject? { return Failure(ServersNotObject); }
      var synced, changed := SyncServers(Cursor, root["mcpServers"].fields, url, shared);
      if !changed { return Success(false); }
      if writeFails { return Failure(WriteFailed); }
      assert root["mcpServers" := JObject(synced)] == Root(doc)["mcpServers" := JObject(synced)];
      doc := Parsed(JObject(root["mcpServers" := JObject(synced)]));
      return Success(true);
    }

    /** `remove_ccpanes_entry_at`: an existing blank file does not parse. */
    method Remove(writeFails: bool) returns (r: Result<bool, ConfigError>)
      modifies this
      ensures old(doc).Blank? || old(doc).Malformed? ==> r == Failure(NotJson)
      ensures !old(doc).Blank? && !old(doc).Malformed? ==>
                if Removed(ServersIn(old(doc))) == ServersIn(old(doc)) then r == Success(false)
                else r == (if writeFails then Failure(WriteFailed) else Success(true))
      ensures !old(doc).Blank? && !old(doc).Malformed? ==>
                (r == Success(false) <==>
                   "ccpanes" in ServersIn(old(doc)) ==>
                     forall own :: ServersIn(old(doc))["ccpanes"].GetString("url") == Some(own) ==> !IsManagedUrl(own))
      ensures doc == if r == Success(true) then WithServers(old(doc), Removed(ServersIn(old(doc)))) else old(doc)
      ensures r == Success(true) ==> OnlyServersDiffer(old(doc), doc)
      ensures r == Success(true) ==>
                forall name :: Lookup(ServersIn(doc), name)
                            == if name == "ccpanes" then None else Lookup(ServersIn(old(doc)), name)
    {
      hide IsManagedUrl;
      if doc.Blank? || doc.Malformed? { return Failure(NotJson); }
      var servers := ServersIn(doc);
      if !(CCPANES in servers && Managed(servers[CCPANES])) { return Success(false); }
      assert CCPANES !in Removed(servers);
      if writeFails { return Failure(WriteFailed); }
      doc := WithServers(doc, Removed(servers));
      return Success(true);
    }
  }
}
