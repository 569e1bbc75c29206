/**
 Safety of the publish / retire / collect life cycle over every run, with any number of sessions and any clock.
 A scan tests a config, removes it and removes its marker in three steps; other sessions act in between.
 */
module ConfigRuns {
  import opened ConfigLifecycle

  /**
   One file-level step. Publishing a config is a scan, a `Prepare` that succeeds and a `Write`; `now` is whatever
   the clock says, also backwards. `scan` names the session that scans.
   */
  datatype Event =
    | Prepare(config: string, faults: Faults)
    | Write(prefix: string, id: string, data: string, now: int, faults: Faults, kept: nat)
    | Retire(config: string, now: int, faults: Faults, kept: nat)
    | Test(scan: nat, current: string, now: int, config: string, faults: Faults)
    | RemoveConfig(scan: nat, faults: Faults)
    | RemoveMarker(scan: nat, faults: Faults)

  /** What a scanning session has decided, and at which step; `half` once the config itself is removed. */
  datatype Decision = Decision(config: string, at: nat, half: bool)

  /** The directory, the decisions the scanning sessions hold, and the number of steps so far. */
  datatype World = World(dir: Dir, held: map<nat, Decision>, time: nat)

  function Dropping(held: map<nat, Decision>, scan: nat): map<nat, Decision> {
    map s | s in held && s != scan :: held[s]
  }

  /** The scan is about to remove this config. */
  predicate Targets(w: World, scan: nat, config: string) {
    scan in w.held && !w.held[scan].half && w.held[scan].config == config
  }

  function DirAfter(w: World, event: Event): Dir {
    match event
    case Prepare(config, faults) => PreparedDir(w.dir, config, faults)
    case Write(prefix, id, data, now, faults, kept) => WrittenDir(w.dir, ConfigName(prefix, id), data, now, faults, kept)
    case Retire(config, now, faults, kept) => RetiredDir(w.dir, config, now, faults, kept)
    case Test(_, _, _, _, _) => w.dir
    case RemoveConfig(scan, faults) =>
      if scan in w.held && !w.held[scan].half && Removable(w.dir, w.held[scan].config, faults)
      then Without(w.dir, w.held[scan].config) else w.dir
    case RemoveMarker(scan, faults) =>
      if scan in w.held && w.held[scan].half && Removable(w.dir, MarkerName(w.held[scan].config), faults)
      then Without(w.dir, MarkerName(w.held[scan].config)) else w.dir
  }

  function HeldAfter(w: World, event: Event): map<nat, Decision> {
    match event
    case Test(scan, current, now, config, faults) =>
      if scan !in w.held && Passes(w.dir, current, now, faults, config)
      then w.held[scan := Decision(config, w.time, false)] else w.held
    case RemoveConfig(scan, faults) =>
      if scan in w.held && !w.held[scan].half
      then if Removable(w.dir, w.held[scan].config, faults) then w.held[scan := w.held[scan].(half := true)]
           else Dropping(w.held, scan)
      else w.held
    case RemoveMarker(scan, _) => if scan in w.held && w.held[scan].half then Dropping(w.held, scan) else w.held
    case _ => w.held
  }

  function Apply(w: World, event: Event): World {
    World(DirAfter(w, event), HeldAfter(w, event), w.time + 1)
  }

  /** Nobody is scanning at the start. */
  function After(dir: Dir, events: seq<Event>): World {
    if events == [] then World(dir, map[], 0) else Apply(After(dir, events[..|events| - 1]), events[|events| - 1])
  }

  lemma AfterNext(dir: Dir, events: seq<Event>, k: nat)
    requires k < |events|
    ensures After(dir, events[..k + 1]) == Apply(After(dir, events[..k]), events[k])
  {
    assert events[..k + 1][..k] == events[..k];
  }

  lemma AfterLast(dir: Dir, events: seq<Event>, last: Event)
    ensures After(dir, events + [last]) == Apply(After(dir, events), last)
  {
    assert (events + [last])[..|events|] == events;
  }

  /** Undisturbed, the three steps do to one name what a visit of the scan does. */
  lemma VisitInSteps(w: World, scan: nat, current: string, now: int, config: string, faults: Faults)
    requires scan !in w.held
    ensures var test, config', marker := Test(scan, current, now, config, faults), RemoveConfig(scan, faults), RemoveMarker(scan, faults);
            var end := Apply(Apply(Apply(w, test), config'), marker);
            && end.dir == (if !Reaps(w.dir, current, now, faults, config) then w.dir
                           else if Removable(w.dir, MarkerName(config), faults)
                           then Without(Without(w.dir, config), MarkerName(config))
                           else Without(w.dir, config))
            && end.held == w.held
  {
    MarkersAreNotConfigs(config, config);
  }

  /**
   What each step does to each name. A preparation takes the marker away, a write leaves the data under the config's
   name, a retire leaves the marker, a removal takes what was decided; every other name stands for what it stood for.
   */
  lemma StepExactly(w: World, event: Event, name: string)
    ensures var after := Apply(w, event).dir;
            if TakesAway(w, event, name) then name !in after
            else if event.Write? && name == event.prefix + event.id + ".json"
                    && (name in w.dir ==> w.dir[name].File?) && name !in event.faults.open
            then && name in after && after[name].File? && after[name].modified == event.now && after[name].data <= event.data
                 && (name !in event.faults.write ==> after[name].data == event.data)
            else if && event.Retire? && name == event.config + ".retired" && name !in w.dir && name !in event.faults.open
                    && IsClaudeConfig(event.config) && event.config in w.dir && !w.dir[event.config].OtherNode?
            then && name in after && after[name].File? && after[name].modified == event.now
                 && (name !in event.faults.write ==> after[name].data == "cc-panes-claude-retired-v1\n")
            else (name in w.dir <==> name in after) && (name in w.dir ==> after[name] == w.dir[name])
  {
    hide IsClaudeConfig, IsSessionId;
  }

  /** The step aims at this name to take it away, the name is a file or a link, and the removal does not fail. */
  predicate TakesAway(w: World, event: Event, name: string) {
    && name in w.dir && !w.dir[name].OtherNode?
    && (|| (event.Prepare? && name == event.config + ".retired")
        || (event.RemoveConfig? && Held(w, event.scan, false) && name == w.held[event.scan].config)
        || (event.RemoveMarker? && Held(w, event.scan, true) && name == w.held[event.scan].config + ".retired"))
    && name !in event.faults.remove
  }

  predicate Held(w: World, scan: nat, half: bool) { scan in w.held && w.held[scan].half == half }

  // ------------------------------------------------------------------------ markers

  /** The step that created the marker a config carries now. */
  ghost function Birth(dir: Dir, events: seq<Event>, config: string): (j: nat)
    requires MarkerName(config) !in dir && MarkerName(config) in After(dir, events).dir
    ensures j < |events|
  {
    var before := events[..|events| - 1];
    if MarkerName(config) in After(dir, before).dir then Birth(dir, before, config) else |before|
  }

  /** What one step can do to a marker: only a retire of its config creates it, and nothing rewrites it. */
  lemma StepOnMarker(w: World, event: Event, config: string)
    ensures var marker, after := MarkerName(config), Apply(w, event).dir;
            && (marker in w.dir && marker in after ==> after[marker] == w.dir[marker])
            && (marker !in w.dir && marker in after ==>
                  && event.Retire? && event.config == config && IsClaudeConfig(config) && config in w.dir
                  && after[marker].File? && after[marker].modified == event.now)
            && (event.Prepare? && event.config == config && PrepareStatus(w.dir, config, event.faults) == Done ==>
                  marker !in after)
  {
    var marker := MarkerName(config);
    MarkersAreNotConfigs(config, config);
    match event {
      case Prepare(other, _) => MarkersAreNotConfigs(config, other);
      case Retire(other, _, _, _) => MarkersAreNotConfigs(config, other);
      case Write(prefix, id, _, _, _, _) =>
        var written := ConfigName(prefix, id);
        assert written[|written| - 1] == 'n' && marker[|marker| - 1] == 'd';
      case _ =>
    }
  }

  /** The marker a config carries was put there by a retire of that config that found none. */
  lemma {:induction false} MarkerBirth(dir: Dir, events: seq<Event>, config: string)
    requires MarkerName(config) !in dir && MarkerName(config) in After(dir, events).dir
    ensures var marker, j := MarkerName(config), Birth(dir, events, config);
            && events[j].Retire? && events[j].config == config
            && config in After(dir, events[..j]).dir && marker !in After(dir, events[..j]).dir
            && After(dir, events).dir[marker].File? && After(dir, events).dir[marker].modified == events[j].now
  {
    hide Apply, IsClaudeConfig;
    var before := events[..|events| - 1];
    StepOnMarker(After(dir, before), events[|events| - 1], config);
    if MarkerName(config) in After(dir, before).dir {
      MarkerBirth(dir, before, config);
      assert before[..Birth(dir, before, config)] == events[..Birth(dir, before, config)];
    }
  }

  /** From its birth on the marker stays in place and is never touched. */
  lemma {:induction false} MarkerPersists(dir: Dir, events: seq<Event>, config: string, k: nat)
    requires MarkerName(config) !in dir && MarkerName(config) in After(dir, events).dir
    requires Birth(dir, events, config) < k <= |events|
    ensures MarkerName(config) in After(dir, events[..k]).dir
    ensures After(dir, events[..k]).dir[MarkerName(config)] == After(dir, events).dir[MarkerName(config)]
  {
    hide Apply, IsClaudeConfig;
    var before := events[..|events| - 1];
    if k < |events| {
      StepOnMarker(After(dir, before), events[|events| - 1], config);
      MarkerPersists(dir, before, config, k);
      assert before[..k] == events[..k];
    } else {
      assert events[..k] == events;
    }
  }

  /** Since the marker was born, no attempt to clear it has succeeded. */
  lemma NothingCleared(dir: Dir, events: seq<Event>, config: string, k: nat)
    requires MarkerName(config) !in dir && MarkerName(config) in After(dir, events).dir
    requires Birth(dir, events, config) < k < |events| && events[k].Prepare? && events[k].config == config
    ensures PrepareStatus(After(dir, events[..k]).dir, config, events[k].faults) == Failed
  {
    hide Apply, IsClaudeConfig;
    MarkerPersists(dir, events, config, k + 1);
    AfterNext(dir, events, k);
    StepOnMarker(After(dir, events[..k]), events[k], config);
  }

  // ---------------------------------------------------------------------- decisions

  /** What one step does to the decisions: only a passed test makes one. */
  lemma StepOnDecision(w: World, event: Event, scan: nat)
    ensures var after := Apply(w, event).held;
            scan in after ==>
              || (scan in w.held && after[scan].at == w.held[scan].at && after[scan].config == w.held[scan].config
                  && (w.held[scan].half ==> after[scan].half))
              || (event.Test? && event.scan == scan && after[scan] == Decision(event.config, w.time, false)
                  && Passes(w.dir, event.current, event.now, event.faults, event.config))
  {
    hide Passes, Removable;
  }

  lemma {:induction false} TimeIsLength(dir: Dir, events: seq<Event>)
    ensures After(dir, events).time == |events|
  {
    hide DirAfter, HeldAfter;
    if events != [] { TimeIsLength(dir, events[..|events| - 1]); }
  }

  /** The decision a session holds was made by a test of its own that the config passed. */
  lemma {:induction false} DecisionHasTest(dir: Dir, events: seq<Event>, scan: nat)
    requires scan in After(dir, events).held
    ensures var d := After(dir, events).held[scan];
            && d.at < |events| && events[d.at].Test? && events[d.at].scan == scan && events[d.at].config == d.config
            && Passes(After(dir, events[..d.at]).dir, events[d.at].current, events[d.at].now, events[d.at].faults, d.config)
  {
    hide Apply, Passes;
    if events != [] {
      var before := events[..|events| - 1];
      StepOnDecision(After(dir, before), events[|events| - 1], scan);
      TimeIsLength(dir, before);
      if scan in After(dir, before).held {
        DecisionHasTest(dir, before, scan);
        var at := After(dir, before).held[scan].at;
        assert before[..at] == events[..at];
      }
    }
  }

  /** And from that test on the session has held it. */
  lemma {:induction false} DecisionIsHeld(dir: Dir, events: seq<Event>, scan: nat, k: nat)
    requires scan in After(dir, events).held && After(dir, events).held[scan].at < k <= |events|
    ensures var past, now := After(dir, events[..k]).held, After(dir, events).held[scan];
            scan in past && past[scan].config == now.config && past[scan].at == now.at
  {
    hide Apply, Passes;
    if k == |events| {
      assert events[..k] == events;
    } else {
      var before := events[..|events| - 1];
      StepOnDecision(After(dir, before), events[|events| - 1], scan);
      TimeIsLength(dir, before);
      DecisionIsHeld(dir, before, scan, k);
      assert before[..k] == events[..k];
    }
  }

  // ----------------------------------------------------------------------- deletion

  /** A config disappears in a step exactly when a session that decided to removes it. */
  lemma DeletedExactly(w: World, event: Event, config: string)
    requires IsClaudeConfig(config) && config in w.dir
    ensures config !in Apply(w, event).dir <==>
            event.RemoveConfig? && Targets(w, event.scan, config) && Removable(w.dir, config, event.faults)
  {
    hide IsClaudeConfig;
    match event {
      case Prepare(other, _) => MarkersAreNotConfigs(other, other);
      case RemoveMarker(scan, _) =>
        if scan in w.held { MarkersAreNotConfigs(w.held[scan].config, config); }
      case _ =>
    }
  }

  /**
   In every run, whatever the clock does and whichever removals fail: a config is deleted only by a session that
   found it expired, on behalf of another one; and at that test more than the retention period had passed since the retire
   that started its retirement, which nothing had cleared.
   */
  lemma DeletionIsJustified(dir: Dir, events: seq<Event>, last: Event, config: string)
    requires IsClaudeConfig(config) && MarkerName(config) !in dir
    requires config in After(dir, events).dir && config !in After(dir, events + [last]).dir
    ensures last.RemoveConfig? && Targets(After(dir, events), last.scan, config)
    ensures var m := After(dir, events).held[last.scan].at;
            && m < |events| && events[m].Test? && events[m].scan == last.scan && events[m].config == config
            && events[m].current != config && MarkerName(config) in After(dir, events[..m]).dir
            && var j := Birth(dir, events[..m], config);
            && events[j].Retire? && events[j].config == config
            && config in After(dir, events[..j]).dir && MarkerName(config) !in After(dir, events[..j]).dir
            && events[m].now - events[j].now > 604_800_000_000_000
            && (forall k :: j < k < m && events[k].Prepare? && events[k].config == config ==>
                  PrepareStatus(After(dir, events[..k]).dir, config, events[k].faults) == Failed)
  {
    hide Apply, IsClaudeConfig, After;
    AfterLast(dir, events, last);
    DeletedExactly(After(dir, events), last, config);
    DecisionHasTest(dir, events, last.scan);
    var m := After(dir, events).held[last.scan].at;
    MarkerBirth(dir, events[..m], config);
    var j := Birth(dir, events[..m], config);
    assert events[..m][..j] == events[..j];
    forall k | j < k < m && events[k].Prepare? && events[k].config == config
      ensures PrepareStatus(After(dir, events[..k]).dir, config, events[k].faults) == Failed
    {
      NothingCleared(dir, events[..m], config, k);
      assert events[..m][..k] == events[..k];
    }
  }

  /** The `j`-th step prepared the config, and nothing has retired it since. */
  ghost predicate PreparedSince(dir: Dir, events: seq<Event>, config: string, j: nat) {
    && j < |events| && events[j].Prepare? && events[j].config == config
    && PrepareStatus(After(dir, events[..j]).dir, config, events[j].faults) == Done
    && forall k :: j < k < |events| ==> !(events[k].Retire? && events[k].config == config)
  }

  /** Such a config carries no marker. */
  lemma {:induction false} UnretiredHasNoMarker(dir: Dir, events: seq<Event>, config: string, j: nat)
    requires PreparedSince(dir, events, config, j)
    ensures MarkerName(config) !in After(dir, events).dir
  {
    hide Apply, IsClaudeConfig;
    var before := events[..|events| - 1];
    StepOnMarker(After(dir, before), events[|events| - 1], config);
    if j < |before| {
      assert before[..j] == events[..j];
      UnretiredHasNoMarker(dir, before, config, j);
    }
  }

  /**
   A config that was prepared and not retired since is deleted by a step if and only if that step is the removal
   of a session that found the config expired before the preparation.
   */
  lemma UnretiredDeletedExactly(dir: Dir, events: seq<Event>, last: Event, config: string, j: nat)
    requires IsClaudeConfig(config) && config in After(dir, events).dir && PreparedSince(dir, events, config, j)
    ensures config !in After(dir, events + [last]).dir <==>
            && last.RemoveConfig? && Targets(After(dir, events), last.scan, config)
            && After(dir, events).held[last.scan].at < j
            && Removable(After(dir, events).dir, config, last.faults)
  {
    hide Apply, IsClaudeConfig, After;
    AfterLast(dir, events, last);
    DeletedExactly(After(dir, events), last, config);
    if last.RemoveConfig? && Targets(After(dir, events), last.scan, config) {
      DecisionHasTest(dir, events, last.scan);
      var m := After(dir, events).held[last.scan].at;
      if m > j {
        assert events[..m][..j] == events[..j];
        UnretiredHasNoMarker(dir, events[..m], config, j);
      }
    }
  }

  /** Hence it survives every later step when no session was about to remove it at its preparation. */
  lemma UnretiredSurvives(dir: Dir, events: seq<Event>, last: Event, config: string, j: nat)
    requires IsClaudeConfig(config) && config in After(dir, events).dir && PreparedSince(dir, events, config, j)
    requires forall scan :: scan in After(dir, events[..j]).held ==> After(dir, events[..j]).held[scan].config != config
    ensures config in After(dir, events + [last]).dir
  {
    hide Apply, IsClaudeConfig, After;
    UnretiredDeletedExactly(dir, events, last, config, j);
    if last.RemoveConfig? && Targets(After(dir, events), last.scan, config) && After(dir, events).held[last.scan].at < j {
      DecisionIsHeld(dir, events, last.scan, j);
    }
  }

  /** A scan that tests an expired config, is overtaken by a new publication of it, and deletes that. */
  lemma StaleScanDeletesPublished(id: string, now: int, data: string)
    requires IsSessionId(id)
    ensures var config, no := ConfigName("mcp-", id), Faults({}, {}, {});
            var dir := map[config := File("{}", now - RETENTION - 1)];
            var events := [Retire(config, now - RETENTION - 1, no, 0), Test(0, "other", now, config, no), Prepare(config, no),
                           Write("mcp-", id, data, now, no, 0)];
            && PreparedSince(dir, events, config, 2)
            && config in After(dir, events).dir && After(dir, events).dir[config] == File(data, now)
            && MarkerName(config) !in After(dir, events).dir
            && config !in After(dir, events + [RemoveConfig(0, no)]).dir
  {
    hide *;
    PublishedNamesRecognised(id);
    var config, no := ConfigName("mcp-", id), Faults({}, {}, {});
    var past := now - RETENTION - 1;
    var dir: Dir := map[config := File("{}", past)];
    var retire, test := Retire(config, past, no, 0), Test(0, "other", now, config, no);
    var prepare, write := Prepare(config, no), Write("mcp-", id, data, now, no, 0);
    MarkersAreNotConfigs(config, config);
    NotOther(id);
    AfterNothing(dir);
    RetireAndTest(config, past, now);
    PrepareAndWrite(id, past, now, data);
    AfterLast(dir, [], retire);
    AfterLast(dir, [retire], test);
    AfterLast(dir, [retire, test], prepare);
    AfterLast(dir, [retire, test, prepare], write);
    AfterLast(dir, [retire, test, prepare, write], RemoveConfig(0, no));
    assert [] + [retire] == [retire] && [retire] + [test] == [retire, test];
    assert [retire, test] + [prepare] == [retire, test, prepare];
    assert [retire, test, prepare] + [write] == [retire, test, prepare, write];
    assert [retire, test, prepare, write][..2] == [retire, test];
    PreparedThere(dir, [retire, test, prepare, write], config);
  }

  lemma RetireAndTest(config: string, past: int, now: int)
    requires IsClaudeConfig(config) && config != "other" && now - past > RETENTION
    ensures var no, marker := Faults({}, {}, {}), MarkerName(config);
            var retired := map[config := File("{}", past), marker := File(MAGIC, past)];
            && Apply(World(map[config := File("{}", past)], map[], 0), Retire(config, past, no, 0)) == World(retired, map[], 1)
            && Apply(World(retired, map[], 1), Test(0, "other", now, config, no))
               == World(retired, map[0 := Decision(config, 1, false)], 2)
  {
    hide IsClaudeConfig;
    MarkersAreNotConfigs(config, config);
  }

  lemma PrepareAndWrite(id: string, past: int, now: int, data: string)
    ensures var config, no := ConfigName("mcp-", id), Faults({}, {}, {});
            var retired := map[config := File("{}", past), MarkerName(config) := File(MAGIC, past)];
            var held := map[0 := Decision(config, 1, false)];
            && PrepareStatus(retired, config, no) == Done
            && Apply(World(retired, held, 2), Prepare(config, no)) == World(map[config := File("{}", past)], held, 3)
            && Apply(World(map[config := File("{}", past)], held, 3), Write("mcp-", id, data, now, no, 0))
               == World(map[config := File(data, now)], held, 4)
            && config !in Apply(World(map[config := File(data, now)], held, 4), RemoveConfig(0, no)).dir
            && MarkerName(config) != config
  {
    hide ConfigName;
    var config := ConfigName("mcp-", id);
    assert |MarkerName(config)| > |config|;
    assert Without(map[config := File("{}", past), MarkerName(config) := File(MAGIC, past)], MarkerName(config))
        == map[config := File("{}", past)];
  }

  lemma PreparedThere(dir: Dir, events: seq<Event>, config: string)
    requires |events| == 4 && events[2].Prepare? && events[2].config == config && events[3].Write?
    requires PrepareStatus(After(dir, events[..2]).dir, config, events[2].faults) == Done
    ensures PreparedSince(dir, events, config, 2)
  {}

  lemma AfterNothing(dir: Dir)
    ensures After(dir, []) == World(dir, map[], 0)
  {}

  lemma NotOther(id: string)
    ensures ConfigName("mcp-", id) != "other"
  {
    assert ConfigName("mcp-", id)[0] == 'm';
  }

  /** Collection does happen: a scan past the retention period removes config and marker, absent failures. */
  lemma ExpiredIsCollected(dir: Dir, current: string, now: int, config: string)
    requires IsClaudeConfig(config) && config != current && config in dir && dir[config].File?
    ensures var after := CollectedDir(dir, current, now, Faults({}, {}, {}), dir.Keys);
            && (config in after <==> !Expired(dir, config, now))
            && (Expired(dir, config, now) ==> MarkerName(config) !in after)
  {
    var faults := Faults({}, {}, {});
    MarkersAreNotConfigs(config, config);
    assert Stem(MarkerName(config)) == config;
    if |RETIRED| <= |config| && config == MarkerName(Stem(config)) {
      MarkersAreNotConfigs(Stem(config), config);
    }
  }
}
