/** The JSON-RPC pending table of the stdio bridge: ids, timers and settlements. */
module RpcPending {
  import opened Characters

  /** A request or response id as JavaScript sees it; `Map` keys tell 3 from "3". */
  datatype Key = NumKey(n: int) | TextKey(s: string)

  /** The id member of a message: a number, a string, any other value by its text, or none. */
  datatype MessageId = NoId | NumId(n: int) | TextId(s: string) | OtherId(text: string)

  /**
   A parsed line: not an object, or a message with an id and either an error or a result. A request of the server's
   own names a method and has neither; its result reads as undefined.
   */
  datatype Message = NotAnObject | Message(id: MessageId, isRequest: bool, isError: bool, body: string)

  datatype Outcome = Resolved(result: string) | Rejected(reason: string)

  datatype Settlement = Settlement(id: Key, outcome: Outcome)

  /** The table, its armed timers, and every settlement so far in order. */
  datatype RpcState = RpcState(nextId: int, pending: seq<Key>, armed: set<Key>, settled: seq<Settlement>)

  const START := RpcState(1, [], {}, [])

  // ----------------------------------------------------------------- the steps

  function Without(keys: seq<Key>, id: Key): seq<Key> {
    if keys == [] then [] else if keys[0] == id then keys[1..] else [keys[0]] + Without(keys[1..], id)
  }

  function Disarm(armed: set<Key>, id: Key): set<Key> {
    set k | k in armed && k != id
  }

  /** `request`: a fresh id, a pending entry and a timer. */
  function Requested(s: RpcState): RpcState {
    RpcState(s.nextId + 1, s.pending + [NumKey(s.nextId)], s.armed + {NumKey(s.nextId)}, s.settled)
  }

  /** `settlePending`: nothing for an id that is not pending; otherwise entry and timer go. */
  function Settled(s: RpcState, id: Key, outcome: Outcome): RpcState {
    if id !in s.pending then s
    else RpcState(s.nextId, Without(s.pending, id), Disarm(s.armed, id), s.settled + [Settlement(id, outcome)])
  }

  /** The timer callback: it rejects the promise without asking whether the entry is still there. */
  function Fired(s: RpcState, id: Key): RpcState {
    if id !in s.armed then s
    else RpcState(s.nextId, Without(s.pending, id), Disarm(s.armed, id), s.settled + [Settlement(id, Rejected("timeout"))])
  }

  function RejectedFrom(s: RpcState, keys: seq<Key>, reason: string): RpcState
    decreases |keys|
  {
    if keys == [] then s else RejectedFrom(Settled(s, keys[0], Rejected(reason)), keys[1..], reason)
  }

  /** `rejectAllPending`. */
  function AllRejected(s: RpcState, reason: string): RpcState {
    RejectedFrom(s, s.pending, reason)
  }

  function Direct(id: MessageId): Key {
    match id
    case NumId(n) => NumKey(n)
    case TextId(text) => TextKey(text)
    case OtherId(text) => TextKey(text)
    case NoId => TextKey("")
  }

  /** `String(id)`. */
  function AsText(id: MessageId): Key {
    match id
    case NumId(n) => TextKey(if n < 0 then "-" + Decimal(-n) else Decimal(n))
    case _ => Direct(id)
  }

  /** `handleMessage`; a value that is neither number nor string is never itself a key. */
  function Handled(s: RpcState, m: Message): RpcState {
    if m.NotAnObject? || m.id.NoId? then s
    else
      var hasDirect := !m.id.OtherId? && Direct(m.id) in s.pending;
      if !hasDirect && AsText(m.id) !in s.pending then s
      else Settled(s, if hasDirect then Direct(m.id) else AsText(m.id),
                   if m.isError then Rejected(m.body) else Resolved(m.body))
  }

  // ------------------------------------------------------------------ invariant

  predicate Distinct(keys: seq<Key>) {
    forall i, j :: 0 <= i < j < |keys| ==> keys[i] != keys[j]
  }

  predicate SettledOnce(log: seq<Settlement>) {
    forall i, j :: 0 <= i < j < |log| ==> log[i].id != log[j].id
  }

  predicate IsSettled(log: seq<Settlement>, id: Key) {
    exists i :: 0 <= i < |log| && log[i].id == id
  }

  /** The id was handed out by `request`. */
  predicate Issued(s: RpcState, id: Key) {
    id.NumKey? && 1 <= id.n < s.nextId
  }

  /** Every issued id is pending with an armed timer, or settled exactly once; nothing else is either. */
  ghost predicate Consistent(s: RpcState) {
    && 1 <= s.nextId
    && Distinct(s.pending) && SettledOnce(s.settled)
    && (forall id :: id in s.pending <==> id in s.armed)
    && (forall id :: Issued(s, id) <==> id in s.pending || IsSettled(s.settled, id))
    && (forall id :: id in s.pending ==> !IsSettled(s.settled, id))
  }

  lemma {:induction false} WithoutMembers(keys: seq<Key>, id: Key)
    requires Distinct(keys)
    ensures Distinct(Without(keys, id))
    ensures forall k :: k in Without(keys, id) <==> k in keys && k != id
  {
    if keys != [] {
      var rest := keys[1..];
      assert Distinct(rest);
      WithoutMembers(rest, id);
      assert keys == [keys[0]] + rest;
      assert keys[0] !in rest;
    }
  }

  lemma LogOneMore(log: seq<Settlement>, id: Key, outcome: Outcome)
    ensures var longer := log + [Settlement(id, outcome)];
            && (forall k :: IsSettled(longer, k) <==> IsSettled(log, k) || k == id)
            && (SettledOnce(log) && !IsSettled(log, id) ==> SettledOnce(longer))
  {
    var longer := log + [Settlement(id, outcome)];
    forall k ensures IsSettled(longer, k) <==> IsSettled(log, k) || k == id {
      if IsSettled(log, k) {
        var i :| 0 <= i < |log| && log[i].id == k;
        assert longer[i].id == k;
      }
      if k == id { assert longer[|log|].id == k; }
    }
  }

  lemma RequestKeeps(s: RpcState)
    requires Consistent(s)
    ensures Consistent(Requested(s)) && NumKey(s.nextId) !in s.pending && !IsSettled(s.settled, NumKey(s.nextId))
  {
    hide Distinct, SettledOnce, IsSettled;
    var t, id := Requested(s), NumKey(s.nextId);
    assert !Issued(s, id);
    PendingOneMore(s.pending, id);
  }

  lemma PendingOneMore(keys: seq<Key>, id: Key)
    requires Distinct(keys) && id !in keys
    ensures Distinct(keys + [id])
  {}

  lemma SettleKeeps(s: RpcState, id: Key, outcome: Outcome)
    requires Consistent(s)
    ensures Consistent(Settled(s, id, outcome))
  {
    hide Distinct, SettledOnce, IsSettled;
    if id in s.pending {
      WithoutMembers(s.pending, id);
      LogOneMore(s.settled, id, outcome);
    }
  }

  lemma FireKeeps(s: RpcState, id: Key)
    requires Consistent(s)
    ensures Consistent(Fired(s, id))
  {
    hide Distinct, SettledOnce, IsSettled;
    assert Fired(s, id) == Settled(s, id, Rejected("timeout"));
    SettleKeeps(s, id, Rejected("timeout"));
  }

  lemma {:induction false} RejectKeeps(s: RpcState, keys: seq<Key>, reason: string)
    requires Consistent(s)
    ensures Consistent(RejectedFrom(s, keys, reason)) && RejectedFrom(s, keys, reason).nextId == s.nextId
    ensures forall k :: k in RejectedFrom(s, keys, reason).pending <==> k in s.pending && k !in keys
    decreases |keys|
  {
    hide Consistent, Settled;
    if keys != [] {
      var next := Settled(s, keys[0], Rejected(reason));
      SettleKeeps(s, keys[0], Rejected(reason));
      SettleRemoves(s, keys[0], Rejected(reason));
      RejectKeeps(next, keys[1..], reason);
      assert keys == [keys[0]] + keys[1..];
    }
  }

  lemma SettleRemoves(s: RpcState, id: Key, outcome: Outcome)
    requires Consistent(s)
    ensures forall k :: k in Settled(s, id, outcome).pending <==> k in s.pending && k != id
    ensures Settled(s, id, outcome).nextId == s.nextId
  {
    WithoutMembers(s.pending, id);
  }

  lemma HandleKeeps(s: RpcState, m: Message)
    requires Consistent(s)
    ensures Consistent(Handled(s, m))
  {
    hide Consistent, Settled, AsText, Direct;
    if m.Message? && !m.id.NoId? {
      var outcome := if m.isError then Rejected(m.body) else Resolved(m.body);
      SettleKeeps(s, Direct(m.id), outcome);
      SettleKeeps(s, AsText(m.id), outcome);
    }
  }

  // ---------------------------------------------------------------- whole runs

  /** The client: its table, whether it was closed, and whether its server is known to have exited. */
  datatype Client = Client(rpc: RpcState, closed: bool, exited: bool)

  /** A server that is killed leaves no exit code, so later requests are not refused. */
  datatype Event =
    | Request
    | Receive(m: Message)
    | Timer(id: Key)
    | SpawnFails(reason: string)
    | Exit(killed: bool, reason: string)
    | Close

  function Step(c: Client, event: Event): Client {
    match event
    case Request => if c.exited then c else c.(rpc := Requested(c.rpc))
    case Receive(m) => c.(rpc := Handled(c.rpc, m))
    case Timer(id) => c.(rpc := Fired(c.rpc, id))
    case SpawnFails(reason) => c.(rpc := AllRejected(c.rpc, reason))
    case Exit(killed, reason) =>
      Client(if c.closed then c.rpc else AllRejected(c.rpc, reason), c.closed, c.exited || !killed)
    case Close => c.(closed := true)
  }

  function ClientAfter(events: seq<Event>): Client {
    if events == [] then Client(START, false, false)
    else Step(ClientAfter(events[..|events| - 1]), events[|events| - 1])
  }

  function After(events: seq<Event>): RpcState { ClientAfter(events).rpc }

  lemma StepKeeps(c: Client, event: Event)
    requires Consistent(c.rpc)
    ensures Consistent(Step(c, event).rpc)
  {
    hide Consistent, Requested, Handled, Fired;
    var s := c.rpc;
    match event {
      case Request => RequestKeeps(s);
      case Receive(m) => HandleKeeps(s, m);
      case Timer(id) => FireKeeps(s, id);
      case SpawnFails(reason) => RejectKeeps(s, s.pending, reason);
      case Exit(_, reason) => RejectKeeps(s, s.pending, reason);
      case Close =>
    }
  }

  /** In every run, every issued id is either pending with its timer armed or settled exactly once. */
  lemma {:induction false} RunsAreConsistent(events: seq<Event>)
    ensures Consistent(After(events))
  {
    hide Step;
    if events == [] {
    } else {
      RunsAreConsistent(events[..|events| - 1]);
      StepKeeps(ClientAfter(events[..|events| - 1]), events[|events| - 1]);
    }
  }

  /** A settlement is final: later steps only append, and never settle the same id again. */
  lemma {:induction false} SettlementsAreFinal(events: seq<Event>, more: seq<Event>)
    ensures After(events).settled <= After(events + more).settled
    ensures After(events).nextId <= After(events + more).nextId
  {
    hide Step;
    if more == [] {
      assert events + more == events;
    } else {
      var before := events + more[..|more| - 1];
      assert (events + more)[..|events + more| - 1] == before;
      SettlementsAreFinal(events, more[..|more| - 1]);
      RunsAreConsistent(before);
      StepAppends(ClientAfter(before), more[|more| - 1]);
    }
  }

  lemma {:induction false} RejectAppends(s: RpcState, keys: seq<Key>, reason: string)
    ensures s.settled <= RejectedFrom(s, keys, reason).settled && RejectedFrom(s, keys, reason).nextId == s.nextId
    decreases |keys|
  {
    if keys != [] { RejectAppends(Settled(s, keys[0], Rejected(reason)), keys[1..], reason); }
  }

  lemma StepAppends(c: Client, event: Event)
    ensures c.rpc.settled <= Step(c, event).rpc.settled && c.rpc.nextId <= Step(c, event).rpc.nextId
  {
    match event {
      case Exit(_, reason) => RejectAppends(c.rpc, c.rpc.pending, reason);
      case SpawnFails(reason) => RejectAppends(c.rpc, c.rpc.pending, reason);
      case _ =>
    }
  }

  /** A step settles at most the one id it speaks for; responses settle the id they carry, with their own content. */
  lemma NeverCrossed(s: RpcState, m: Message)
    requires Consistent(s)
    ensures var t := Handled(s, m);
            || t == s
            || (m.Message? && m.id.NumId? && NumKey(m.id.n) in s.pending
                && t.settled == s.settled + [Settlement(NumKey(m.id.n), if m.isError then Rejected(m.body) else Resolved(m.body))]
                && t.nextId == s.nextId && forall k :: k in t.pending <==> k in s.pending && k != NumKey(m.id.n))
  {
    hide Distinct, SettledOnce, IsSettled, Without;
    assert forall k :: k in s.pending ==> Issued(s, k);
    if m.Message? && m.id.NumId? {
      SettleRemoves(s, NumKey(m.id.n), if m.isError then Rejected(m.body) else Resolved(m.body));
    }
  }

  /** A timer rejects the request it belongs to, if that is still pending, and touches no other. */
  lemma TimerRejectsOwn(s: RpcState, id: Key)
    requires Consistent(s)
    ensures var t := Fired(s, id);
            if id !in s.pending then t == s
            else && t.settled == s.settled + [Settlement(id, Rejected("timeout"))] && t.nextId == s.nextId
                 && forall k :: k in t.pending <==> k in s.pending && k != id
  {
    hide Distinct, SettledOnce, IsSettled, Without;
    SettleRemoves(s, id, Rejected("timeout"));
  }

  lemma {:induction false} RejectsInOrder(s: RpcState, keys: seq<Key>, reason: string)
    requires Consistent(s) && Distinct(keys) && forall k :: k in keys ==> k in s.pending
    ensures var log := RejectedFrom(s, keys, reason).settled;
            && |log| == |s.settled| + |keys| && log[..|s.settled|] == s.settled
            && forall i :: 0 <= i < |keys| ==> log[|s.settled| + i] == Settlement(keys[i], Rejected(reason))
    decreases |keys|
  {
    hide Consistent;
    if keys != [] {
      var next, rest := Settled(s, keys[0], Rejected(reason)), keys[1..];
      SettleKeeps(s, keys[0], Rejected(reason));
      SettleRemoves(s, keys[0], Rejected(reason));
      assert keys == [keys[0]] + rest;
      RejectsInOrder(next, rest, reason);
      var log := RejectedFrom(next, rest, reason).settled;
      assert log[..|s.settled|] == log[..|next.settled|][..|s.settled|];
      assert log[|s.settled|] == log[..|next.settled|][|s.settled|];
      forall i | 0 <= i < |keys| ensures log[|s.settled| + i] == Settlement(keys[i], Rejected(reason)) {
        if i > 0 { assert log[|next.settled| + (i - 1)] == Settlement(rest[i - 1], Rejected(reason)); }
      }
    }
  }

  /** Rejecting all settles the pending requests with that reason, each once and oldest first. */
  lemma AllAreRejected(s: RpcState, reason: string)
    requires Consistent(s)
    ensures var t := AllRejected(s, reason);
            && t.pending == [] && t.nextId == s.nextId
            && |t.settled| == |s.settled| + |s.pending| && t.settled[..|s.settled|] == s.settled
            && forall i :: 0 <= i < |s.pending| ==> t.settled[|s.settled| + i] == Settlement(s.pending[i], Rejected(reason))
  {
    hide Distinct, SettledOnce, IsSettled, RejectedFrom;
    RejectsInOrder(s, s.pending, reason);
    RejectKeeps(s, s.pending, reason);
    FirstIsMember(AllRejected(s, reason).pending);
  }

  /** A response is taken exactly when its id is a number that is pending: a string id never matches. */
  lemma TakenExactly(s: RpcState, m: Message)
    requires Consistent(s)
    ensures Handled(s, m) != s <==> m.Message? && m.id.NumId? && NumKey(m.id.n) in s.pending
  {
    hide Distinct, SettledOnce, IsSettled, Without;
    assert forall k :: k in s.pending ==> Issued(s, k);
    if m.Message? && m.id.NumId? && NumKey(m.id.n) in s.pending {
      assert |Handled(s, m).settled| > |s.settled|;
    }
  }

  // -------------------------------------------------- requests of the server's own

  /** Some request of the server's own has settled a request of the client's. */
  ghost predicate RequestSettles(events: seq<Event>) {
    exists k :: 0 <= k < |events| && events[k].Receive? && events[k].m.Message? && events[k].m.isRequest
      && After(events[..k + 1]) != After(events[..k])
  }

  /** A request of the server's own bears the number of a request that was issued and has not been settled. */
  ghost predicate RequestCollides(events: seq<Event>) {
    exists k :: 0 <= k < |events| && events[k].Receive? && events[k].m.Message? && events[k].m.isRequest
      && Outstanding(After(events[..k]), events[k].m.id)
  }

  ghost predicate Outstanding(s: RpcState, id: MessageId) {
    id.NumId? && 1 <= id.n < s.nextId && !IsSettled(s.settled, NumKey(id.n))
  }

  lemma AfterNext(events: seq<Event>, k: nat)
    requires k < |events|
    ensures ClientAfter(events[..k + 1]) == Step(ClientAfter(events[..k]), events[k])
  {
    assert events[..k + 1][..k] == events[..k];
  }

  lemma RequestTaken(events: seq<Event>, k: nat)
    requires k < |events| && events[k].Receive? && events[k].m.Message?
    ensures After(events[..k + 1]) != After(events[..k]) <==> Outstanding(After(events[..k]), events[k].m.id)
  {
    hide Handled, IsSettled, Distinct, SettledOnce;
    AfterNext(events, k);
    RunsAreConsistent(events[..k]);
    var s, id := After(events[..k]), events[k].m.id;
    TakenExactly(s, events[k].m);
    if id.NumId? { assert Issued(s, NumKey(id.n)) <==> 1 <= id.n < s.nextId; }
  }

  /** In every run, only responses, timers and exits settle if and only if no request of the server's collides. */
  lemma OnlyResponsesSettleExactly(events: seq<Event>)
    ensures RequestSettles(events) <==> RequestCollides(events)
  {
    hide After, Outstanding;
    if RequestSettles(events) {
      var k :| 0 <= k < |events| && events[k].Receive? && events[k].m.Message? && events[k].m.isRequest
        && After(events[..k + 1]) != After(events[..k]);
      RequestTaken(events, k);
    }
    if RequestCollides(events) {
      var k :| 0 <= k < |events| && events[k].Receive? && events[k].m.Message? && events[k].m.isRequest
        && Outstanding(After(events[..k]), events[k].m.id);
      RequestTaken(events, k);
    }
  }

  /** A ping of the server's, numbered like the client's first request, resolves that request. */
  lemma PingSettlesRequest()
    ensures var ping := Message(NumId(1), true, false, "undefined");
            After([Request, Receive(ping)]).settled == [Settlement(NumKey(1), Resolved("undefined"))]
  {
    var ping := Message(NumId(1), true, false, "undefined");
    assert [Request, Receive(ping)][..1] == [Request] && [Request][..0] == [];
    assert After([Request]) == RpcState(2, [NumKey(1)], {NumKey(1)}, []);
  }

  // ---------------------------------------------------------------- the end of the server

  lemma FirstIsMember(keys: seq<Key>)
    ensures keys != [] ==> exists k :: k in keys
  {
    if keys != [] { assert keys[0] in keys; }
  }

  /** With nothing pending, no timer is armed, and every issued id has been settled. */
  lemma NothingPending(s: RpcState)
    requires Consistent(s) && s.pending == []
    ensures (forall id :: id !in s.armed) && (forall id :: Issued(s, id) ==> IsSettled(s.settled, id))
  {
    hide Distinct, SettledOnce, IsSettled;
  }

  lemma AfterLast(events: seq<Event>, last: Event)
    ensures ClientAfter(events + [last]) == Step(ClientAfter(events), last)
  {
    assert (events + [last])[..|events|] == events;
  }

  /** When the server exits, everything is settled if and only if the client is not closed or nothing was pending. */
  lemma ExitSettlesExactly(events: seq<Event>, killed: bool, reason: string)
    ensures var c, t := ClientAfter(events), After(events + [Exit(killed, reason)]);
            && (t.pending == [] <==> !c.closed || c.rpc.pending == [])
            && (t.pending == [] ==> (forall id :: id !in t.armed) && (forall id :: Issued(t, id) ==> IsSettled(t.settled, id)))
  {
    hide *;
    var t := After(events + [Exit(killed, reason)]);
    AfterLast(events, Exit(killed, reason));
    AfterIs(events);
    AfterIs(events + [Exit(killed, reason)]);
    RunsAreConsistent(events);
    RunsAreConsistent(events + [Exit(killed, reason)]);
    ExitRejects(ClientAfter(events), killed, reason);
    if t.pending == [] { NothingPending(t); }
  }

  lemma AfterIs(events: seq<Event>)
    ensures After(events) == ClientAfter(events).rpc
  {}

  lemma ExitRejects(c: Client, killed: bool, reason: string)
    requires Consistent(c.rpc)
    ensures Step(c, Exit(killed, reason)).rpc.pending == [] <==> !c.closed || c.rpc.pending == []
  {
    hide Consistent, AllRejected;
    AllAreRejected(c.rpc, reason);
  }

  /** Nothing is pending. */
  predicate Quiet(c: Client) { c.rpc.pending == [] }

  lemma StaysQuiet(c: Client, event: Event)
    requires Consistent(c.rpc) && Quiet(c) && (c.exited || !event.Request?)
    ensures Quiet(Step(c, event)) && (c.exited ==> Step(c, event).exited)
  {
    hide Distinct, SettledOnce, IsSettled;
    match event {
      case Timer(id) => assert id !in c.rpc.armed;
      case Receive(m) => TakenExactly(c.rpc, m);
      case _ =>
    }
  }

  lemma {:induction false} RemainsQuiet(events: seq<Event>, more: seq<Event>)
    requires Quiet(ClientAfter(events))
    requires ClientAfter(events).exited || forall i :: 0 <= i < |more| ==> !more[i].Request?
    ensures Quiet(ClientAfter(events + more)) && (ClientAfter(events).exited ==> ClientAfter(events + more).exited)
  {
    hide Step, Quiet;
    if more == [] {
      assert events + more == events;
    } else {
      var before, last := more[..|more| - 1], more[|more| - 1];
      RemainsQuiet(events, before);
      RunsAreConsistent(events + before);
      AfterLast(events + before, last);
      StaysQuiet(ClientAfter(events + before), last);
      assert events + more == events + before + [last];
    }
  }

  /** An open client whose server exits with a code has nothing pending from then on, whatever follows. */
  lemma NothingPendsAfterExit(events: seq<Event>, reason: string, more: seq<Event>)
    requires !ClientAfter(events).closed
    ensures After(events + [Exit(false, reason)] + more).pending == []
  {
    hide Step, ClientAfter;
    ExitSettlesExactly(events, false, reason);
    ExitIsKnown(events, reason);
    RemainsQuiet(events + [Exit(false, reason)], more);
  }

  lemma ExitIsKnown(events: seq<Event>, reason: string)
    ensures ClientAfter(events + [Exit(false, reason)]).exited
  {
    AfterLast(events, Exit(false, reason));
  }

  /** After a server is killed, a request is still issued, and nothing but its timer settles it. */
  lemma KilledServerLeavesPending(reason: string)
    ensures After([Exit(true, reason), Request]).pending == [NumKey(1)]
  {
    AfterLast([], Exit(true, reason));
    AfterLast([Exit(true, reason)], Request);
    assert [] + [Exit(true, reason)] == [Exit(true, reason)];
    assert [Exit(true, reason)] + [Request] == [Exit(true, reason), Request];
  }

  /**
   The bridge closes a client when the handshake fails: then its one request has been settled, so nothing is pending
   at the close or after it, although the exit that follows rejects nothing.
   */
  lemma HandshakeCloseIsClean(events: seq<Event>, more: seq<Event>)
    requires After(events).nextId == 1 || (After(events).nextId == 2 && IsSettled(After(events).settled, NumKey(1)))
    requires forall i :: 0 <= i < |more| ==> !more[i].Request?
    ensures After(events + [Close] + more).pending == []
  {
    hide Distinct, SettledOnce, IsSettled;
    var s := After(events);
    RunsAreConsistent(events);
    FirstIsMember(s.pending);
    assert forall k :: k in s.pending ==> Issued(s, k) && k != NumKey(1);
    AfterLast(events, Close);
    RemainsQuiet(events + [Close], more);
  }
}
