/** The stdio MCP client of the pi bridge: newline framing in front of the pending table. */
module StdioBridge {
  import opened JsonValues
  import opened Characters
  import opened RpcPending

  // -------------------------------------------------------------------- framing

  /** White space and line terminators as `String.prototype.trim` sees them (ECMA-262, section 22.1.3.32). */
  predicate IsTrimmed(c: char) {
    (IsWhitespace(c) && c != '\U{85}') || c == '\U{FEFF}'
  }

  function TrimLeft(s: string): string {
    if s != [] && IsTrimmed(s[0]) then TrimLeft(s[1..]) else s
  }

  function TrimRight(s: string): string {
    if s != [] && IsTrimmed(s[|s| - 1]) then TrimRight(s[..|s| - 1]) else s
  }

  function Trim(s: string): string { TrimRight(TrimLeft(s)) }

  function NewlineAt(text: string): (n: nat)
    ensures n <= |text|
  {
    if text == [] || text[0] == '\n' then 0 else 1 + NewlineAt(text[1..])
  }

  /** The non-blank trimmed lines of a text, in order. */
  function Lines(text: string): seq<string>
    decreases |text|
  {
    var n := NewlineAt(text);
    if n == |text| then []
    else (if Trim(text[..n]) == "" then [] else [Trim(text[..n])]) + Lines(text[n + 1..])
  }

  /** What follows the last newline. */
  function Rest(text: string): string
    decreases |text|
  {
    var n := NewlineAt(text);
    if n == |text| then text else Rest(text[n + 1..])
  }

  lemma {:induction false} NewlineInFront(a: string, b: string)
    ensures NewlineAt(a) < |a| ==> NewlineAt(a + b) == NewlineAt(a)
  {
    if a != [] && a[0] != '\n' {
      assert (a + b)[1..] == a[1..] + b;
      NewlineInFront(a[1..], b);
    }
  }

  lemma LinesOnce(text: string, n: nat)
    requires n == NewlineAt(text)
    ensures n == |text| ==> Lines(text) == []
    ensures n < |text| ==>
              Lines(text) == (if Trim(text[..n]) == "" then [] else [Trim(text[..n])]) + Lines(text[n + 1..])
  {
    hide Trim, NewlineAt;
  }

  lemma RestOnce(text: string, n: nat)
    requires n == NewlineAt(text)
    ensures n == |text| ==> Rest(text) == text
    ensures n < |text| ==> Rest(text) == Rest(text[n + 1..])
  {
    hide NewlineAt;
  }

  /** One line off the front, or none left. */
  lemma FirstLine(text: string)
    ensures var n := NewlineAt(text);
            if n == |text| then Lines(text) == [] && Rest(text) == text
            else Lines(text) == (if Trim(text[..n]) == "" then [] else [Trim(text[..n])]) + Lines(text[n + 1..])
                 && Rest(text) == Rest(text[n + 1..])
  {
    hide *;
    LinesOnce(text, NewlineAt(text));
    RestOnce(text, NewlineAt(text));
  }

  /** Cutting a text anywhere and carrying the rest over yields the same lines and the same rest. */
  lemma {:induction false} CutAnywhere(a: string, b: string)
    ensures Lines(a + b) == Lines(a) + Lines(Rest(a) + b)
    ensures Rest(a + b) == Rest(Rest(a) + b)
    decreases |a|
  {
    hide *;
    var n := NewlineAt(a);
    FirstLine(a);
    FirstLine(a + b);
    NewlineInFront(a, b);
    if n == |a| {
      assert [] + Lines(a + b) == Lines(a + b);
    } else {
      CutAnywhere(a[n + 1..], b);
      assert (a + b)[..n] == a[..n] && (a + b)[n + 1..] == a[n + 1..] + b;
      var first := if Trim(a[..n]) == "" then [] else [Trim(a[..n])];
      assert first + (Lines(a[n + 1..]) + Lines(Rest(a) + b)) == first + Lines(a[n + 1..]) + Lines(Rest(a) + b);
    }
  }

  /** The rest never holds a newline. */
  lemma {:induction false} RestHasNoNewline(text: string)
    ensures '\n' !in Rest(text)
    decreases |text|
  {
    var n := NewlineAt(text);
    if n == |text| { NoNewline(text); } else { RestHasNoNewline(text[n + 1..]); }
  }

  lemma {:induction false} NoNewline(text: string)
    requires NewlineAt(text) == |text|
    ensures '\n' !in text
  {
    if text != [] { NoNewline(text[1..]); assert text == [text[0]] + text[1..]; }
  }

  function Concat(chunks: seq<string>): string {
    if chunks == [] then "" else Concat(chunks[..|chunks| - 1]) + chunks[|chunks| - 1]
  }

  /** The lines a client dispatches for a series of chunks, starting with an empty buffer. */
  function Dispatched(chunks: seq<string>): seq<string> {
    if chunks == [] then []
    else Dispatched(chunks[..|chunks| - 1]) + Lines(Buffered(chunks[..|chunks| - 1]) + chunks[|chunks| - 1])
  }

  function Buffered(chunks: seq<string>): string {
    if chunks == [] then "" else Rest(Buffered(chunks[..|chunks| - 1]) + chunks[|chunks| - 1])
  }

  /** However the stream is cut, the lines of the whole stream are dispatched, once each and in order. */
  lemma {:induction false} ChunkingIsInvisible(chunks: seq<string>)
    ensures Dispatched(chunks) == Lines(Concat(chunks)) && Buffered(chunks) == Rest(Concat(chunks))
  {
    hide Lines, Rest;
    if chunks == [] {
      EmptyText();
    } else {
      var before, last := chunks[..|chunks| - 1], chunks[|chunks| - 1];
      ChunkingIsInvisible(before);
      CutAnywhere(Concat(before), last);
    }
  }

  lemma EmptyText()
    ensures Lines("") == [] && Rest("") == ""
  {}

  // ---------------------------------------------------------- dispatch to the table

  /** `JSON.parse`: nothing for a line that is not JSON. */
  type Parser = string -> Option<Message>

  function Dispatch(s: RpcState, lines: seq<string>, parse: Parser): RpcState {
    if lines == [] then s
    else
      var before := Dispatch(s, lines[..|lines| - 1], parse);
      match parse(lines[|lines| - 1])
      case Some(m) => Handled(before, m)
      case None => before
  }

  lemma {:induction false} DispatchOver(s: RpcState, a: seq<string>, b: seq<string>, parse: Parser)
    ensures Dispatch(s, a + b, parse) == Dispatch(Dispatch(s, a, parse), b, parse)
    decreases |b|
  {
    hide Handled;
    if b == [] {
      assert a + b == a;
    } else {
      assert (a + b)[..|a + b| - 1] == a + b[..|b| - 1];
      DispatchOver(s, a, b[..|b| - 1], parse);
    }
  }

  lemma DispatchNone(s: RpcState, parse: Parser)
    ensures Dispatch(s, [], parse) == s
  {}

  lemma DispatchNext(s: RpcState, lines: seq<string>, line: string, parse: Parser)
    ensures Dispatch(s, lines + [line], parse)
         == match parse(line) case Some(m) => Handled(Dispatch(s, lines, parse), m) case None => Dispatch(s, lines, parse)
  {
    hide Handled;
    assert (lines + [line])[..|lines|] == lines;
  }

  class Rpc {
    var nextId: int
    var pending: seq<Key>
    var armed: set<Key>
    var settled: seq<Settlement>

    constructor ()
      ensures State() == START
    {
      nextId, pending, armed, settled := 1, [], {}, [];
    }

    function State(): RpcState
      reads this
    {
      RpcState(nextId, pending, armed, settled)
    }

    /** The synchronous part of `request`, once the server is known to run. */
    method TrackRequest() returns (id: int)
      modifies this
      ensures State() == Requested(old(State())) && id == old(nextId)
    {
      id := nextId;
      nextId := nextId + 1;
      armed := armed + {NumKey(id)};
      pending := pending + [NumKey(id)];
    }

    method SettlePending(id: Key, outcome: Outcome)
      modifies this
      ensures State() == Settled(old(State()), id, outcome)
    {
      if id !in pending { return; }
      pending := Without(pending, id);
      armed := Disarm(armed, id);
      settled := settled + [Settlement(id, outcome)];
    }

    method TimerFires(id: Key)
      modifies this
      ensures State() == Fired(old(State()), id)
    {
      if id !in armed { return; }
      armed := Disarm(armed, id);
      pending := Without(pending, id);
      settled := settled + [Settlement(id, Rejected("timeout"))];
    }

    method RejectAllPending(reason: string)
      modifies this
      ensures State() == AllRejected(old(State()), reason)
    {
      hide Settled;
      var keys := pending;
      var i := 0;
      assert keys[0..] == keys;
      while i < |keys|
        invariant i <= |keys|
        invariant RejectedFrom(State(), keys[i..], reason) == AllRejected(old(State()), reason)
      {
        assert keys[i..][1..] == keys[i + 1..];
        SettlePending(keys[i], Rejected(reason));
        i := i + 1;
      }
    }

    method HandleMessage(m: Message)
      modifies this
      ensures State() == Handled(old(State()), m)
    {
      if m.NotAnObject? || m.id.NoId? { return; }
      var hasDirect := !m.id.OtherId? && Direct(m.id) in pending;
      if !hasDirect && AsText(m.id) !in pending { return; }
      var key := if hasDirect then Direct(m.id) else AsText(m.id);
      if m.isError { SettlePending(key, Rejected(m.body)); } else { SettlePending(key, Resolved(m.body)); }
    }
  }

  class StdioClient {
    const rpc: Rpc
    var buffer: string
    var closed: bool

    constructor (rpc: Rpc)
      ensures this.rpc == rpc && buffer == "" && !closed
    {
      this.rpc, buffer, closed := rpc, "", false;
    }

    /** The exit handler: a closed client rejects nothing. */
    method OnExit(killed: bool, reason: string)
      modifies rpc
      ensures rpc.State() == Step(Client(old(rpc.State()), closed, false), Exit(killed, reason)).rpc
    {
      if !closed { rpc.RejectAllPending(reason); }
    }

    /** `close`, apart from killing the server. */
    method Shut()
      modifies this
      ensures closed && buffer == old(buffer)
    {
      closed := true;
    }

    /** `#onStdout`: the while loop that eats complete lines off the buffer. */
    method OnStdout(chunk: string, parse: Parser)
      modifies this, rpc
      ensures buffer == Rest(old(buffer) + chunk)
      ensures rpc.State() == Dispatch(old(rpc.State()), Lines(old(buffer) + chunk), parse)
    {
      hide Trim, Handled, Lines, Rest, Dispatch, NewlineAt;
      buffer := buffer + chunk;
      ghost var text, start := buffer, rpc.State();
      ghost var seen: seq<string> := [];
      DispatchNone(start, parse);
      while NewlineAt(buffer) < |buffer|
        invariant seen + Lines(buffer) == Lines(text) && Rest(buffer) == Rest(text)
        invariant rpc.State() == Dispatch(start, seen, parse)
        decreases |buffer|
      {
        var newline := NewlineAt(buffer);
        var line := Trim(buffer[..newline]);
        ghost var more := Lines(buffer[newline + 1..]);
        FirstLine(buffer);
        buffer := buffer[newline + 1..];
        if line == "" {
          assert [] + more == more;
          continue;
        }
        assert seen + ([line] + more) == seen + [line] + more;
        DispatchNext(start, seen, line, parse);
        match parse(line) {
          case Some(m) => rpc.HandleMessage(m);
          case None =>
        }
        seen := seen + [line];
      }
      FirstLine(buffer);
      assert seen + [] == seen;
    }
  }

  /** The pending table after a stream depends only on the stream, not on how its chunks were cut. */
  lemma {:induction false} TableIgnoresChunking(s: RpcState, chunks: seq<string>, parse: Parser)
    ensures TableAfter(s, chunks, parse) == Dispatch(s, Lines(Concat(chunks)), parse)
  {
    hide Lines, Rest, Concat, Dispatch;
    TableFollows(s, chunks, parse);
    ChunkingIsInvisible(chunks);
  }

  /** The table after feeding the chunks one by one, as `OnStdout` does. */
  function TableAfter(s: RpcState, chunks: seq<string>, parse: Parser): RpcState {
    if chunks == [] then s
    else
      var before := chunks[..|chunks| - 1];
      Dispatch(TableAfter(s, before, parse), Lines(Buffered(before) + chunks[|chunks| - 1]), parse)
  }

  lemma {:induction false} TableFollows(s: RpcState, chunks: seq<string>, parse: Parser)
    ensures TableAfter(s, chunks, parse) == Dispatch(s, Dispatched(chunks), parse)
  {
    hide Lines, Rest, Handled;
    if chunks != [] {
      var before := chunks[..|chunks| - 1];
      TableFollows(s, before, parse);
      DispatchOver(s, Dispatched(before), Lines(Buffered(before) + chunks[|chunks| - 1]), parse);
    }
  }
}
