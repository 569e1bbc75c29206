/** Publishing, retiring and collecting the per-session MCP config files of Claude sessions. */
module ConfigLifecycle {
  import opened SetIteration

  const NANOS_PER_SECOND := 1_000_000_000
  const RETENTION := 7 * 24 * 60 * 60 * NANOS_PER_SECOND
  const MAGIC := "cc-panes-claude-retired-v1\n"
  const RETIRED := ".retired"

  /** What a name in the data directory stands for. */
  datatype Node = File(data: string, modified: int) | LinkToFile | OtherNode

  type Dir = map<string, Node>

  // ------------------------------------------------------------------------ names

  predicate IsHexDigit(c: char) {
    '0' <= c <= '9' || 'a' <= c <= 'f' || 'A' <= c <= 'F'
  }

  /** The shape of a UUID: 36 characters, dashes at 8, 13, 18 and 23, hex digits elsewhere. */
  predicate IsSessionId(id: string) {
    && |id| == 36
    && forall i :: 0 <= i < |id| ==> if i in {8, 13, 18, 23} then id[i] == '-' else IsHexDigit(id[i])
  }

  function ConfigName(prefix: string, id: string): string {
    prefix + id + ".json"
  }

  /** `is_claude_config`; the longer prefix is tried first, and only one prefix is ever stripped. */
  predicate IsClaudeConfig(name: string) {
    var rest := if "wsl-claude-mcp-" <= name then name[|"wsl-claude-mcp-"|..]
                else if "mcp-" <= name then name[|"mcp-"|..] else "";
    |rest| == 41 && rest[36..] == ".json" && IsSessionId(rest[..36])
  }

  function MarkerName(config: string): string {
    config + RETIRED
  }

  /** The names the program gives its configs are recognised exactly when the session id is a UUID. */
  lemma PublishedNamesRecognised(id: string)
    ensures IsClaudeConfig(ConfigName("mcp-", id)) <==> IsSessionId(id)
    ensures IsClaudeConfig(ConfigName("wsl-claude-mcp-", id)) <==> IsSessionId(id)
  {
    var plain, wsl := ConfigName("mcp-", id), ConfigName("wsl-claude-mcp-", id);
    assert plain[0] == 'm';
    assert plain[|"mcp-"|..] == id + ".json";
    assert wsl[|"wsl-claude-mcp-"|..] == id + ".json";
    if |id| == 36 {
      assert (id + ".json")[..36] == id && (id + ".json")[36..] == ".json";
    }
  }

  /** And no other name is: 36 characters of hexadecimal digits and dashes, in the two forms. */
  lemma RecognisedExactly(name: string)
    ensures IsClaudeConfig(name) <==>
              exists id :: (name == "mcp-" + id + ".json" || name == "wsl-claude-mcp-" + id + ".json") && |id| == 36
                && forall i: nat :: i < 36 ==>
                     if i == 8 || i == 13 || i == 18 || i == 23 then id[i] == '-'
                     else '0' <= id[i] <= '9' || 'a' <= id[i] <= 'f' || 'A' <= id[i] <= 'F'
  {
    hide IsClaudeConfig;
    forall id: string | name == "mcp-" + id + ".json" || name == "wsl-claude-mcp-" + id + ".json"
      ensures IsClaudeConfig(name) <==> IsSessionId(id)
    {
      PublishedNamesRecognised(id);
    }
    if IsClaudeConfig(name) { var id := RecognisedHasId(name); }
  }

  lemma RecognisedHasId(name: string) returns (id: string)
    requires IsClaudeConfig(name)
    ensures IsSessionId(id) && (name == "mcp-" + id + ".json" || name == "wsl-claude-mcp-" + id + ".json")
  {
    hide IsSessionId;
    var prefix := if "wsl-claude-mcp-" <= name then "wsl-claude-mcp-" else "mcp-";
    var rest := name[|prefix|..];
    id := rest[..36];
    assert rest == id + ".json" by { assert rest == rest[..36] + rest[36..]; }
    assert name == prefix + rest == prefix + id + ".json";
  }

  /** A marker is never itself taken for a config, and belongs to one config only. */
  lemma MarkersAreNotConfigs(config: string, other: string)
    ensures !IsClaudeConfig(MarkerName(config))
    ensures MarkerName(config) == MarkerName(other) ==> config == other
  {
    var marker := MarkerName(config);
    assert marker[|marker| - 1] == 'd';
    if MarkerName(config) == MarkerName(other) {
      assert config == MarkerName(config)[..|config|];
      assert other == MarkerName(other)[..|other|];
    }
  }

  // ------------------------------------------------------- what the operations do

  /** The names that cannot be removed, written to the end, or opened at all, during one operation. */
  datatype Faults = Faults(remove: set<string>, write: set<string>, open: set<string>)

  datatype Status = Done | Failed

  function Without(dir: Dir, name: string): Dir {
    map k | k in dir && k != name :: dir[k]
  }

  /** The marker creation may succeed while its content is only partly written. */
  function RetiredDir(dir: Dir, config: string, now: int, faults: Faults, kept: nat): Dir {
    var marker := MarkerName(config);
    if !IsClaudeConfig(config) || config !in dir || dir[config].OtherNode? || marker in dir then dir
    else if marker in faults.open then dir
    else if marker in faults.write then dir[marker := File(if kept < |MAGIC| then MAGIC[..kept] else "", now)]
    else dir[marker := File(MAGIC, now)]
  }

  /** `fs::remove_file` takes the name away. */
  predicate Removable(dir: Dir, name: string, faults: Faults) {
    name in dir && !dir[name].OtherNode? && name !in faults.remove
  }

  function PreparedDir(dir: Dir, config: string, faults: Faults): Dir {
    var marker := MarkerName(config);
    if Removable(dir, marker, faults) then Without(dir, marker) else dir
  }

  function PrepareStatus(dir: Dir, config: string, faults: Faults): Status {
    var marker := MarkerName(config);
    if marker in dir && (dir[marker].OtherNode? || marker in faults.remove) then Failed else Done
  }

  function WrittenDir(dir: Dir, config: string, data: string, now: int, faults: Faults, kept: nat): Dir {
    if (config in dir && !dir[config].File?) || config in faults.open then dir
    else if config in faults.write then dir[config := File(if kept < |data| then data[..kept] else data, now)]
    else dir[config := File(data, now)]
  }

  function WriteStatus(dir: Dir, config: string, faults: Faults): Status {
    if (config in dir && dir[config].OtherNode?) || config in faults.open || config in faults.write then Failed else Done
  }

  /** The marker of `config` gives leave to collect it at time `now`. */
  predicate Expired(dir: Dir, config: string, now: int) {
    var marker := MarkerName(config);
    && marker in dir && dir[marker].File? && dir[marker].data == MAGIC
    && now - dir[marker].modified > RETENTION
  }

  /** The tests the scan makes before it removes a config. */
  predicate Passes(dir: Dir, current: string, now: int, faults: Faults, config: string) {
    && config != current && IsClaudeConfig(config)
    && config in dir && dir[config].File?
    && Expired(dir, config, now) && MarkerName(config) !in faults.open
  }

  /** The scan removes this config. */
  predicate Reaps(dir: Dir, current: string, now: int, faults: Faults, config: string) {
    Passes(dir, current, now, faults, config) && config !in faults.remove
  }

  /** The scan removes this name: a reaped config, or the marker of one. */
  predicate Clears(dir: Dir, current: string, now: int, faults: Faults, done: set<string>, name: string) {
    || (name in done && Reaps(dir, current, now, faults, name))
    || (|RETIRED| <= |name| && name == MarkerName(Stem(name)) && Stem(name) in done
        && Reaps(dir, current, now, faults, Stem(name)) && name !in faults.remove)
  }

  function Stem(marker: string): string
    requires |RETIRED| <= |marker|
  {
    marker[..|marker| - |RETIRED|]
  }

  /** The directory once the scan has visited the names in `done`. */
  function CollectedDir(dir: Dir, current: string, now: int, faults: Faults, done: set<string>): Dir {
    map k | k in dir && !Clears(dir, current, now, faults, done, k) :: dir[k]
  }

  /** Visiting one more name removes that config and its marker, or nothing. */
  lemma VisitOne(dir: Dir, current: string, now: int, faults: Faults, done: set<string>, name: string)
    requires name !in done
    ensures var before, after := CollectedDir(dir, current, now, faults, done),
                                 CollectedDir(dir, current, now, faults, done + {name});
            && (Reaps(dir, current, now, faults, name) ==>
                  after == if MarkerName(name) in faults.remove then Without(before, name)
                           else Without(Without(before, name), MarkerName(name)))
            && (!Reaps(dir, current, now, faults, name) ==> after == before)
            && (name in before <==> name in dir && !Clears(dir, current, now, faults, done, name))
            && (IsClaudeConfig(name) ==> (name in before <==> name in dir))
            && (IsClaudeConfig(name) ==> (MarkerName(name) in before <==> MarkerName(name) in dir))
            && (forall k :: k in before ==> before[k] == dir[k])
  {
    MarkersAreNotConfigs(name, name);
    assert Stem(MarkerName(name)) == name;
    forall k | k in dir
      ensures Clears(dir, current, now, faults, done + {name}, k) <==>
              || Clears(dir, current, now, faults, done, k)
              || (Reaps(dir, current, now, faults, name) && (k == name || (k == MarkerName(name) && k !in faults.remove)))
    {
      if |RETIRED| <= |k| && k == MarkerName(Stem(k)) {
        MarkersAreNotConfigs(Stem(k), name);
      }
    }
    if IsClaudeConfig(name) {
      if |RETIRED| <= |name| && name == MarkerName(Stem(name)) {
        MarkersAreNotConfigs(Stem(name), name);
      }
    }
  }

  /**
   What a scan takes, name by name: a config of another session with a marker of its own that is older than seven
   days; and the marker of each config taken.
   */
  lemma CollectedExactly(dir: Dir, current: string, now: int, faults: Faults, name: string)
    requires name in dir
    ensures var after := CollectedDir(dir, current, now, faults, dir.Keys);
            && (name in after ==> after[name] == dir[name])
            && (IsClaudeConfig(name) ==>
                  (name !in after <==>
                     && name != current && dir[name].File? && name !in faults.remove
                     && (name + ".retired") in dir && (name + ".retired") !in faults.open
                     && dir[name + ".retired"].File? && dir[name + ".retired"].data == "cc-panes-claude-retired-v1\n"
                     && now - dir[name + ".retired"].modified > 604_800_000_000_000))
            && (!IsClaudeConfig(name) ==>
                  (name !in after <==>
                     && name !in faults.remove && |name| >= 8 && name[|name| - 8..] == ".retired"
                     && IsClaudeConfig(name[..|name| - 8]) && name[..|name| - 8] in dir && name[..|name| - 8] !in after))
  {
    hide IsClaudeConfig, IsSessionId;
    if |name| >= 8 {
      assert name[..|name| - 8] + name[|name| - 8..] == name;
      MarkersAreNotConfigs(Stem(name), Stem(name));
      if name == MarkerName(Stem(name)) { assert name[|name| - 8..] == ".retired"; }
    }
    MarkersAreNotConfigs(name, name);
    if |name| >= 8 { StemNotCleared(dir, current, now, faults, name); }
  }

  /** A recognised config is no marker, so the scan takes it only for itself. */
  lemma StemNotCleared(dir: Dir, current: string, now: int, faults: Faults, name: string)
    requires |name| >= 8
    ensures IsClaudeConfig(Stem(name)) ==>
              (Clears(dir, current, now, faults, dir.Keys, Stem(name)) <==> Reaps(dir, current, now, faults, Stem(name)))
  {
    hide IsClaudeConfig, IsSessionId;
    var stem := Stem(name);
    if |stem| >= 8 { MarkersAreNotConfigs(Stem(stem), Stem(stem)); }
  }

  /** The config of a session whose id is no UUID is never retired nor collected. */
  lemma OtherIdsAreMissed(dir: Dir, id: string, now: int, faults: Faults, kept: nat)
    requires !IsSessionId(id)
    ensures forall prefix :: prefix == "mcp-" || prefix == "wsl-claude-mcp-" ==>
              var config := ConfigName(prefix, id);
              && RetiredDir(dir, config, now, faults, kept) == dir
              && forall current, at, f :: !Reaps(dir, current, at, f, config)
  {
    hide IsSessionId, IsClaudeConfig;
    PublishedNamesRecognised(id);
  }

  /** The scan before a publication takes neither the config, unless it is a plain file, nor its marker. */
  lemma CollectKeeps(dir: Dir, config: string, now: int, faults: Faults)
    ensures var after := CollectedDir(dir, config, now, faults, dir.Keys);
            && (config in dir && !dir[config].File? ==> config in after && after[config] == dir[config])
            && (config in after ==> config in dir && after[config] == dir[config])
            && (config + ".retired" in dir <==> config + ".retired" in after)
            && (config + ".retired" in dir ==> after[config + ".retired"] == dir[config + ".retired"])
  {
    hide IsClaudeConfig;
    MarkersAreNotConfigs(config, config);
    assert Stem(MarkerName(config)) == config;
    if |config| >= 8 && config == MarkerName(Stem(config)) { MarkersAreNotConfigs(Stem(config), config); }
  }

  // ---------------------------------------------------------------- the operations

  class DataDir {
    var nodes: Dir

    constructor (nodes: Dir)
      ensures this.nodes == nodes
    {
      this.nodes := nodes;
    }

    /** `retire_config`: the marker is created once and never rewritten. */
    method Retire(config: string, now: int, faults: Faults, kept: nat) returns (status: Status)
      modifies this
      ensures nodes == RetiredDir(old(nodes), config, now, faults, kept)
      ensures status == Done <==>
                || !IsClaudeConfig(config) || config !in old(nodes) || old(nodes)[config].OtherNode?
                || MarkerName(config) in old(nodes)
                || (MarkerName(config) !in faults.open && MarkerName(config) !in faults.write)
      ensures forall name :: name != config + ".retired" || name in old(nodes) ==>
                (name in nodes <==> name in old(nodes)) && (name in nodes ==> nodes[name] == old(nodes)[name])
      ensures status == Done && IsClaudeConfig(config) && config in old(nodes) && !old(nodes)[config].OtherNode?
              && (config + ".retired") !in old(nodes) ==>
                (config + ".retired") in nodes && nodes[config + ".retired"] == File("cc-panes-claude-retired-v1\n", now)
    {
      if !IsClaudeConfig(config) || config !in nodes || nodes[config].OtherNode? { return Done; }
      var marker := MarkerName(config);
      if marker in nodes { return Done; }
      if marker in faults.open { return Failed; }
      nodes := nodes[marker := File("", now)];
      if marker in faults.write {
        nodes := nodes[marker := File(if kept < |MAGIC| then MAGIC[..kept] else "", now)];
        return Failed;
      }
      nodes := nodes[marker := File(MAGIC, now)];
      return Done;
    }

    /** `prepare_config`: an absent marker is fine, one that cannot be removed is an error. */
    method Prepare(config: string, faults: Faults) returns (status: Status)
      modifies this
      ensures nodes == PreparedDir(old(nodes), config, faults)
      ensures status == PrepareStatus(old(nodes), config, faults)
      ensures status == Done ==> (config + ".retired") !in nodes
      ensures status == Failed <==>
                && (config + ".retired") in old(nodes)
                && (old(nodes)[config + ".retired"].OtherNode? || (config + ".retired") in faults.remove)
      ensures forall name :: name != config + ".retired" || status == Failed ==>
                (name in nodes <==> name in old(nodes)) && (name in nodes ==> nodes[name] == old(nodes)[name])
    {
      var marker := MarkerName(config);
      if marker !in nodes { return Done; }
      if nodes[marker].OtherNode? || marker in faults.remove { return Failed; }
      nodes := Without(nodes, marker);
      return Done;
    }

    /** `collect_at`: the directory scan, in whatever order the directory lists its names. */
    method Collect(current: string, now: int, faults: Faults)
      modifies this
      ensures nodes == CollectedDir(old(nodes), current, now, faults, old(nodes).Keys)
    {
      ghost var start, done: set<string> := nodes, {};
      var listed := nodes.Keys;
      var todo := listed;
      assert CollectedDir(start, current, now, faults, {}) == start;
      while todo != {}
        invariant Split(listed, done, todo)
        invariant nodes == CollectedDir(start, current, now, faults, done)
        decreases todo
      {
        var name :| name in todo;
        TakeOne(listed, done, todo, name);
        VisitOne(start, current, now, faults, done, name);
        todo, done := todo - {name}, done + {name};
        if name == current || !IsClaudeConfig(name) { continue; }
        var marker := MarkerName(name);
        if name !in nodes || !nodes[name].File? { continue; }
        if marker in faults.open || !Expired(nodes, name, now) { continue; }
        if name !in faults.remove {
          nodes := Without(nodes, name);
          if marker !in faults.remove { nodes := Without(nodes, marker); }
        }
      }
      AllDone(listed, done);
    }

    /** The publish sequence: collect the others, clear the marker, then write the new config. */
    method Publish(config: string, data: string, now: int, faults: Faults, kept: nat) returns (status: Status)
      modifies this
      ensures var collected := CollectedDir(old(nodes), config, now, faults, old(nodes).Keys);
              var prepared := PreparedDir(collected, config, faults);
              if PrepareStatus(collected, config, faults) == Failed then nodes == prepared && status == Failed
              else nodes == WrittenDir(prepared, config, data, now, faults, kept)
                   && status == WriteStatus(prepared, config, faults)
      ensures status == Done ==> config in nodes && (config + ".retired") !in nodes
      ensures status == Done ==>
                nodes[config] == if config in old(nodes) && old(nodes)[config].LinkToFile? then LinkToFile else File(data, now)
      ensures status == Done <==>
                && ((config + ".retired") in old(nodes) ==>
                      !old(nodes)[config + ".retired"].OtherNode? && (config + ".retired") !in faults.remove)
                && (config in old(nodes) ==> !old(nodes)[config].OtherNode?)
                && config !in faults.open && config !in faults.write
      ensures var collected := CollectedDir(old(nodes), config, now, faults, old(nodes).Keys);
              forall name :: name != config && name != config + ".retired" ==>
                (name in nodes <==> name in collected) && (name in nodes ==> nodes[name] == collected[name])
    {
      hide IsClaudeConfig;
      CollectKeeps(nodes, config, now, faults);
      Collect(config, now, faults);
      status := Prepare(config, faults);
      if status == Failed { return; }
      if config in faults.open || (config in nodes && nodes[config].OtherNode?) { return Failed; }
      if config in nodes && nodes[config].LinkToFile? {
        return if config in faults.write then Failed else Done;
      }
      if config in faults.write {
        nodes := nodes[config := File(if kept < |data| then data[..kept] else data, now)];
        return Failed;
      }
      nodes := nodes[config := File(data, now)];
    }
  }
}
