/** Which lines a stream dispatches and which messages they are, said of the stream itself, position by position. */
module StdioLines {
  import opened JsonValues
  import opened RpcPending
  import opened StdioBridge

  // ----------------------------------------------------------------------- trimming

  /** The white space and the line terminators of ECMAScript, by code point (ECMA-262, sections 12.2 and 12.3). */
  predicate IsSpace(c: char) {
    || c == '\U{9}' || c == '\U{A}' || c == '\U{B}' || c == '\U{C}' || c == '\U{D}' || c == '\U{20}' || c == '\U{A0}'
    || c == '\U{1680}' || '\U{2000}' <= c <= '\U{200A}' || c == '\U{2028}' || c == '\U{2029}' || c == '\U{202F}'
    || c == '\U{205F}' || c == '\U{3000}' || c == '\U{FEFF}'
  }

  predicate AllSpace(s: string) { forall k :: 0 <= k < |s| ==> IsSpace(s[k]) }

  /** `t` is the part of `s` between two positions: around them white space only, at them none. */
  ghost predicate TrimmedTo(s: string, t: string) {
    exists i: nat, j: nat :: i <= j <= |s| && t == s[i..j] && AllSpace(s[..i]) && AllSpace(s[j..])
      && (i < j ==> !IsSpace(s[i]) && !IsSpace(s[j - 1]))
  }

  lemma SpaceIsTrimmed(c: char)
    ensures IsTrimmed(c) <==> IsSpace(c)
  {}

  lemma {:induction false} LeftCut(s: string) returns (i: nat)
    ensures i <= |s| && TrimLeft(s) == s[i..] && AllSpace(s[..i]) && (i < |s| ==> !IsSpace(s[i]))
  {
    hide IsTrimmed, IsSpace;
    if s != [] { SpaceIsTrimmed(s[0]); }
    if s != [] && IsTrimmed(s[0]) {
      var n := LeftCut(s[1..]);
      assert s[1..][n..] == s[n + 1..];
      assert s[..n + 1] == [s[0]] + s[1..][..n];
      i := n + 1;
    } else {
      assert s[0..] == s;
      i := 0;
    }
  }

  lemma {:induction false} RightCut(s: string) returns (j: nat)
    ensures j <= |s| && TrimRight(s) == s[..j] && AllSpace(s[j..]) && (j > 0 ==> !IsSpace(s[j - 1]))
  {
    hide IsTrimmed, IsSpace;
    if s != [] { SpaceIsTrimmed(s[|s| - 1]); }
    if s != [] && IsTrimmed(s[|s| - 1]) {
      j := RightCut(s[..|s| - 1]);
      assert s[..|s| - 1][..j] == s[..j];
      assert s[j..] == s[..|s| - 1][j..] + [s[|s| - 1]];
    } else {
      assert s[..|s|] == s;
      j := |s|;
    }
  }

  lemma TrimExactly(s: string)
    ensures TrimmedTo(s, Trim(s))
  {
    hide IsSpace, AllSpace, TrimLeft, TrimRight;
    var i := LeftCut(s);
    var n := RightCut(s[i..]);
    assert s[i..][..n] == s[i..i + n] && s[i..][n..] == s[i + n..];
    if n > 0 { assert s[i..][n - 1] == s[i + n - 1]; }
    assert TrimmedTo(s, s[i..i + n]);
  }

  /** Nothing is left exactly of white space. */
  lemma BlankExactly(s: string)
    ensures Trim(s) == "" <==> AllSpace(s)
  {
    hide IsSpace, Trim;
    TrimExactly(s);
    var i: nat, j: nat :| i <= j <= |s| && Trim(s) == s[i..j] && AllSpace(s[..i]) && AllSpace(s[j..])
      && (i < j ==> !IsSpace(s[i]) && !IsSpace(s[j - 1]));
    if i == j { assert s == s[..i] + s[j..]; }
  }

  // -------------------------------------------------------------------------- lines

  /** The first newline, or the end. */
  lemma {:induction false} FirstNewline(text: string, n: nat)
    requires n <= |text| && (forall k :: 0 <= k < n ==> text[k] != '\n') && (n < |text| ==> text[n] == '\n')
    ensures NewlineAt(text) == n
  {
    if n > 0 {
      assert forall k :: 0 <= k < n - 1 ==> text[1..][k] == text[k + 1];
      FirstNewline(text[1..], n - 1);
    }
  }

  predicate IsLine(s: string) { forall k :: 0 <= k < |s| ==> s[k] != '\n' }

  predicate AreLines(lines: seq<string>) { forall i :: 0 <= i < |lines| ==> IsLine(lines[i]) }

  /** Every line with a newline after it. */
  function Ended(lines: seq<string>): string {
    if lines == [] then "" else lines[0] + "\n" + Ended(lines[1..])
  }

  /** Every text is a number of ended lines, and a rest without a newline. */
  lemma {:induction false} EveryTextIsLines(text: string) returns (lines: seq<string>, rest: string)
    ensures AreLines(lines) && IsLine(rest) && text == Ended(lines) + rest
    decreases |text|
  {
    if n: nat :| n < |text| && text[n] == '\n' && forall k :: 0 <= k < n ==> text[k] != '\n' {
      var more;
      more, rest := EveryTextIsLines(text[n + 1..]);
      lines := [text[..n]] + more;
      assert lines[1..] == more;
      assert text == text[..n] + "\n" + text[n + 1..];
      assert text == text[..n] + "\n" + (Ended(more) + rest);
    } else {
      NoNewlineIn(text, |text|);
      lines, rest := [], text;
    }
  }

  lemma {:induction false} NoNewlineIn(text: string, n: nat)
    requires n <= |text|
    requires !exists k: nat :: k < |text| && text[k] == '\n' && forall i :: 0 <= i < k ==> text[i] != '\n'
    ensures forall k :: 0 <= k < n ==> text[k] != '\n'
  {
    if n > 0 { NoNewlineIn(text, n - 1); }
  }

  predicate Increasing(at: seq<nat>, bound: nat) {
    && (forall k :: 0 <= k < |at| ==> at[k] < bound)
    && (forall k, l :: 0 <= k < l < |at| ==> at[k] < at[l])
  }

  /** `out` is what is left of the lines at the positions `at`, in order; from `from` on the others are white space. */
  ghost predicate Shows(out: seq<string>, lines: seq<string>, at: seq<nat>, from: nat) {
    && Increasing(at, |lines|) && |out| == |at|
    && (forall k :: 0 <= k < |at| ==> from <= at[k] && out[k] != "" && TrimmedTo(lines[at[k]], out[k]))
    && (forall i :: from <= i < |lines| && i !in at ==> AllSpace(lines[i]))
  }

  lemma OneLineOff(line: string, more: string)
    requires IsLine(line)
    ensures var text := line + "\n" + more;
            && Lines(text) == (if Trim(line) == "" then [] else [Trim(line)]) + Lines(more)
            && Rest(text) == Rest(more)
  {
    hide Lines, Rest, Trim;
    var text := line + "\n" + more;
    FirstNewline(text, |line|);
    FirstLine(text);
    assert text[..|line|] == line && text[|line| + 1..] == more;
  }

  lemma NoLine(rest: string)
    requires IsLine(rest)
    ensures Lines(rest) == [] && Rest(rest) == rest
  {
    hide Lines, Rest;
    FirstNewline(rest, |rest|);
    FirstLine(rest);
  }

  lemma ShowsOneMore(out: seq<string>, lines: seq<string>, at: seq<nat>, from: nat)
    requires from < |lines| && Shows(out, lines, at, from + 1)
    ensures if AllSpace(lines[from]) then Shows(out, lines, at, from)
            else Shows([Trim(lines[from])] + out, lines, [from] + at, from)
  {
    hide Trim, TrimmedTo, AllSpace;
    var line, all, shown := lines[from], [from] + at, [Trim(lines[from])] + out;
    TrimExactly(line);
    BlankExactly(line);
    forall k | 0 <= k < |all|
      ensures from <= all[k] < |lines|
      ensures AllSpace(line) || (shown[k] != "" && TrimmedTo(lines[all[k]], shown[k]))
    {
      if k > 0 { assert all[k] == at[k - 1] && shown[k] == out[k - 1]; }
    }
    forall k, l | 0 <= k < l < |all| ensures all[k] < all[l] {
      assert all[l] == at[l - 1];
      if k > 0 { assert all[k] == at[k - 1]; }
    }
    InFront(from, at);
  }

  lemma InFront(first: nat, at: seq<nat>)
    ensures forall i :: i in [first] + at <==> i == first || i in at
  {}

  lemma {:induction false} LinesFrom(lines: seq<string>, rest: string, from: nat) returns (at: seq<nat>)
    requires AreLines(lines) && IsLine(rest) && from <= |lines|
    ensures Shows(Lines(Ended(lines[from..]) + rest), lines, at, from) && Rest(Ended(lines[from..]) + rest) == rest
    decreases |lines| - from
  {
    hide Lines, Rest, Trim, Shows, AllSpace;
    if from == |lines| {
      assert Ended(lines[from..]) + rest == rest;
      NoLine(rest);
      NothingShown(lines);
      at := [];
    } else {
      var line := lines[from];
      at := LinesFrom(lines, rest, from + 1);
      var text := Ended(lines[from + 1..]) + rest;
      assert lines[from..][1..] == lines[from + 1..];
      assert Ended(lines[from..]) + rest == line + "\n" + text;
      OneLineOff(line, text);
      ShowsOneMore(Lines(text), lines, at, from);
      BlankExactly(line);
      assert [] + Lines(text) == Lines(text);
      at := if AllSpace(line) then at else [from] + at;
    }
  }

  lemma NothingShown(lines: seq<string>)
    ensures Shows([], lines, [], |lines|)
  {}

  /** The lines dispatched of a text are what trimming leaves of its ended lines, blank ones omitted, in order. */
  lemma LinesExactly(lines: seq<string>, rest: string) returns (at: seq<nat>)
    requires AreLines(lines) && IsLine(rest)
    ensures Shows(Lines(Ended(lines) + rest), lines, at, 0) && Rest(Ended(lines) + rest) == rest
  {
    hide Lines, Rest;
    at := LinesFrom(lines, rest, 0);
    assert lines[0..] == lines;
  }

  /** However a stream is cut into chunks, exactly these lines of it are dispatched, and its rest is kept. */
  lemma DispatchedExactly(chunks: seq<string>, lines: seq<string>, rest: string) returns (at: seq<nat>)
    requires AreLines(lines) && IsLine(rest) && Concat(chunks) == Ended(lines) + rest
    ensures Shows(Dispatched(chunks), lines, at, 0) && Buffered(chunks) == rest
  {
    hide *;
    ChunkingIsInvisible(chunks);
    at := LinesExactly(lines, rest);
  }

  // ----------------------------------------------------------------------- messages

  /** The messages among the lines: those at the positions `at` parse, the others do not. */
  ghost predicate Holds(lines: seq<string>, parse: Parser, at: seq<nat>, events: seq<Event>) {
    && Increasing(at, |lines|) && |events| == |at|
    && (forall k :: 0 <= k < |at| ==> parse(lines[at[k]]).Some? && events[k] == Receive(parse(lines[at[k]]).value))
    && (forall i :: 0 <= i < |lines| && i !in at ==> parse(lines[i]).None?)
  }

  lemma HoldsOneMore(lines: seq<string>, parse: Parser, at: seq<nat>, events: seq<Event>, line: string)
    requires Holds(lines, parse, at, events)
    ensures parse(line).None? ==> Holds(lines + [line], parse, at, events)
    ensures parse(line).Some? ==> Holds(lines + [line], parse, at + [|lines|], events + [Receive(parse(line).value)])
  {
    var all := lines + [line];
    forall i | 0 <= i < |all| && i !in at + [|lines|] ensures parse(all[i]).None? {
      assert (at + [|lines|])[|at|] == |lines|;
      assert forall k :: 0 <= k < |at| ==> (at + [|lines|])[k] == at[k];
    }
  }

  /** Handling lines one by one is receiving the messages among them. */
  lemma {:induction false} DispatchIsRun(before: seq<Event>, lines: seq<string>, parse: Parser)
    returns (at: seq<nat>, events: seq<Event>)
    ensures Holds(lines, parse, at, events) && Dispatch(After(before), lines, parse) == After(before + events)
    decreases |lines|
  {
    hide Handled, Holds;
    if lines == [] {
      NothingHeld(parse);
      assert before + [] == before;
      at, events := [], [];
    } else {
      var front, line := lines[..|lines| - 1], lines[|lines| - 1];
      at, events := DispatchIsRun(before, front, parse);
      HoldsOneMore(front, parse, at, events, line);
      assert lines == front + [line];
      if parse(line).Some? {
        var last := Receive(parse(line).value);
        AfterLast(before + events, last);
        assert before + events + [last] == before + (events + [last]);
        at, events := at + [|front|], events + [last];
      }
    }
  }

  lemma NothingHeld(parse: Parser)
    ensures Holds([], parse, [], [])
  {}

  /** After a stream, in whatever chunks, the table is that of the run that received the messages in its lines. */
  lemma StreamIsRun(before: seq<Event>, chunks: seq<string>, parse: Parser) returns (at: seq<nat>, events: seq<Event>)
    ensures Holds(Dispatched(chunks), parse, at, events)
    ensures TableAfter(After(before), chunks, parse) == After(before + events)
  {
    hide *;
    TableFollows(After(before), chunks, parse);
    at, events := DispatchIsRun(before, Dispatched(chunks), parse);
  }
}
