/** Masking twice: when the second pass changes nothing. */
module LogMaskTwice {
  import opened JsonValues
  import opened Characters
  import opened LogMask
  import opened LogMaskLaws

  /** Some bearer value was cut at a comma: the guard a caller can test before masking twice. */
  predicate CutAtComma(text: string, needle: string, cursor: nat)
    requires IsNeedle(needle) && cursor <= |text|
    decreases |text| - cursor
  {
    match FindFrom(text, needle, cursor)
    case None => false
    case Some(p) =>
      var start := p + |needle|;
      var v := ValueSpan(text, start, needle);
      var next := start + v.lead + v.len;
      (BearerAt(text, start, needle) && next < |text| && text[next] == ',') || CutAtComma(text, needle, next)
  }

  /** `len` characters of `s` from `i` on stand in `t` from `j` on. */
  predicate SameStretch(s: string, i: nat, t: string, j: nat, len: nat) {
    i + len <= |s| && j + len <= |t| && s[i..i + len] == t[j..j + len]
  }

  /** A copied stretch holds the same occurrences wherever it stands. */
  lemma OccursAgain(s: string, i: nat, t: string, j: nat, len: nat, needle: string, k: nat)
    requires SameStretch(s, i, t, j, len) && k + |needle| <= len
    ensures OccursFolded(s, needle, i + k) <==> OccursFolded(t, needle, j + k)
  {
    SubSlice(s, i, i + len, k, k + |needle|);
    SubSlice(t, j, j + len, k, k + |needle|);
    OccursInWindow(s, i + k, t, j + k, needle);
  }

  /** Hence the search finds the same place. */
  lemma FoundAgain(s: string, i: nat, t: string, j: nat, len: nat, needle: string, k: nat)
    requires SameStretch(s, i, t, j, len) && k + |needle| <= len
    requires FindFrom(s, needle, i) == Some(i + k)
    ensures FindFrom(t, needle, j) == Some(j + k)
  {
    hide *;
    FindsOccurrence(s, needle, i);
    OccursAgain(s, i, t, j, len, needle, k);
    FindsNoLater(t, needle, j, j + k);
    FindsOccurrence(t, needle, j);
    var other := FindFrom(t, needle, j).value - j;
    OccursAgain(s, i, t, j, len, needle, other);
    FindsNoLater(s, needle, i, i + other);
  }

  /** Nothing left to find is found nowhere else either. */
  lemma NotFoundAgain(s: string, i: nat, t: string, j: nat, needle: string)
    requires i <= |s| && |s| - i == |t| - j && SameStretch(s, i, t, j, |s| - i)
    requires FindFrom(s, needle, i).None?
    ensures FindFrom(t, needle, j).None?
  {
    hide *;
    if FindFrom(t, needle, j).Some? {
      FindsOccurrence(t, needle, j);
      var k := FindFrom(t, needle, j).value - j;
      OccursAgain(s, i, t, j, |s| - i, needle, k);
      FindsNoLater(s, needle, i, i + k);
    }
  }

  /** The value that ends at `next` in `text` is followed by the same character, or the end, in `out`. */
  predicate SameFollower(text: string, next: nat, out: string, next': nat) {
    || (next == |text| && next' == |out|)
    || (next < |text| && next' < |out| && out[next'] == text[next])
  }

  /** `out` shows at `start'` the masked form of the value `v` that stands in `text` at `start`. */
  predicate ShowsValue(text: string, start: nat, v: Span, out: string, start': nat) {
    && start + v.lead + v.len <= |text| && start' + v.lead + |Hide(v.len)| <= |out|
    && (v.lead == 1 ==> start < |text| && out[start'] == text[start])
    && (v.len > 0 ==> out[start' + v.lead] == out[start' + v.lead + 1] == out[start' + v.lead + 2] == '*')
    && SameFollower(text, start + v.lead + v.len, out, start' + v.lead + |Hide(v.len)|)
  }

  predicate CommaAfter(text: string, start: nat, v: Span, needle: string) {
    BearerAt(text, start, needle) && start + v.lead + v.len < |text| && text[start + v.lead + v.len] == ','
  }

  /** Stars do not stop a value, and they do not spell a bearer prefix. */
  lemma StarsAreValue(quote: char)
    requires IsQuote(quote)
    ensures !EndsBare('*') && !Is(quote)('*') && EndsBare(quote) && Fold('*') != 'b' && Fold(quote) != 'b'
    ensures Fold('&') != 'b' && forall c :: IsWhitespace(c) ==> Fold(c) != 'b' && !IsQuote(c)
    ensures !EndsBare(',')
  {}

  lemma BearerBegins(s: string, at: nat, needle: string)
    ensures BearerAt(s, at, needle) ==> at < |s| && Fold(s[at]) == 'b'
  {
    if OccursFolded(s, "bearer ", at) { OccursAt(s, "bearer ", at, at); }
  }

  /** A masked value is read again as the same stars, unless it was a bearer cut at a comma. */
  lemma SpanAgain(text: string, start: nat, needle: string, v: Span, out: string, start': nat)
    requires start <= |text| && v == ValueSpan(text, start, needle) && ShowsValue(text, start, v, out, start')
    requires !CommaAfter(text, start, v, needle)
    ensures ValueSpan(out, start', needle) == Span(v.lead, |Hide(v.len)|)
  {
    hide IsWhitespace;
    SpanEnds(text, start, needle);
    StarsAreValue('"');
    var next' := start' + v.lead + |Hide(v.len)|;
    BearerBegins(out, start', needle);
    if v.lead == 1 {
      StarsAreValue(text[start]);
      StopsAt(out, start' + 1, Is(out[start']), next');
    } else {
      if BearerAt(text, start, needle) { Newlines(); }
      StopsAt(out, start', EndsBare, next');
    }
  }

  /** A bearer value cut at a comma is read again past the comma. */
  lemma SpanPastComma(text: string, start: nat, needle: string, v: Span, out: string, start': nat)
    requires start <= |text| && v == ValueSpan(text, start, needle) && ShowsValue(text, start, v, out, start')
    requires CommaAfter(text, start, v, needle)
    ensures v.lead == 0 && |Hide(v.len)| == 3 && start' + 3 < |out| && out[start' + 3] == ','
    ensures var again := ValueSpan(out, start', needle); var end := start' + again.len;
            again.lead == 0 && again.len > 3 && (end == |out| || out[end] != ',')
  {
    hide IsWhitespace;
    BearerLength(text, start);
    StarsAreValue('"');
    BearerBegins(out, start', needle);
    assert forall k :: start' <= k <= start' + 3 ==> !EndsBare(out[k]);
  }

  lemma Parts(out: string, base: nat, head: string, stars: string, rest: string)
    requires base <= |out| && out[base..] == head + stars + rest
    ensures |out| == base + |head| + |stars| + |rest|
    ensures out[base..base + |head|] == head && out[base + |head| + |stars|..] == rest
    ensures forall k :: 0 <= k < |stars| ==> stars[k] == out[base + |head| + k]
  {
    var tail := out[base..];
    assert |tail| == |head| + |stars| + |rest|;
    SubSlice(out, base, |out|, 0, |head|);
    assert tail[0..|head|] == head && out[base..|out|] == tail;
    SubSlice(out, base, |out|, |head| + |stars|, |tail|);
    assert tail[|head| + |stars|..|tail|] == rest;
    forall k | 0 <= k < |stars| ensures stars[k] == out[base + |head| + k] {
      assert tail[|head| + k] == stars[k];
    }
  }

  lemma TurnFacts(text: string, needle: string, cursor: nat, start: nat, v: Span, head: string, rest: string)
    requires Turn(text, needle, cursor, start, v, head, rest)
    ensures start <= |text| && start + v.lead + v.len <= |text| && cursor + |needle| <= start && IsNeedle(needle)
    ensures v == ValueSpan(text, start, needle) && head == text[cursor..start + v.lead]
    ensures rest == Mask(text, needle, start + v.lead + v.len)
  {
    hide ValueSpan, IsNeedle, Mask;
  }

  /** The masked value stands where the copied text ends. */
  lemma ShownThere(text: string, needle: string, cursor: nat, start: nat, v: Span, head: string, rest: string,
                   out: string, base: nat)
    requires Turn(text, needle, cursor, start, v, head, rest)
    requires |out| == base + |head| + |Hide(v.len)| + |rest|
    requires out[base..base + |head|] == head && out[base + |head| + |Hide(v.len)|..] == rest
    requires forall k :: 0 <= k < |Hide(v.len)| ==> Hide(v.len)[k] == out[base + |head| + k]
    ensures ShowsValue(text, start, v, out, base + (start - cursor))
  {
    hide Turn, ValueSpan, IsNeedle, FindFrom, Mask, IsWhitespace;
    TurnFacts(text, needle, cursor, start, v, head, rest);
    SpanEnds(text, start, needle);
    FirstKept(text, needle, start + v.lead + v.len);
    if v.lead == 1 {
      assert out[base..base + |head|][|head| - 1] == out[base + (|head| - 1)];
      assert head[|head| - 1] == text[start];
    }
    if v.len > 0 {
      assert Hide(v.len)[0] == Hide(v.len)[1] == Hide(v.len)[2] == '*';
    }
    assert rest != [] ==> rest[0] == out[base + |head| + |Hide(v.len)|];
  }

  /** Where the parts of one masked turn stand in a text that ends with it. */
  lemma Layout(text: string, needle: string, cursor: nat, start: nat, v: Span, head: string, rest: string,
               out: string, base: nat)
    requires Turn(text, needle, cursor, start, v, head, rest)
    requires base <= |out| && out[base..] == head + Hide(v.len) + rest
    ensures var start', next' := base + (start - cursor), base + |head| + |Hide(v.len)|;
            && cursor + |needle| <= start && |head| == start - cursor + v.lead
            && SameStretch(text, cursor, out, base, |head|)
            && ShowsValue(text, start, v, out, start')
            && next' <= |out| && out[next'..] == rest && out[base..base + |head|] == head
            && next' == start' + v.lead + |Hide(v.len)|
  {
    hide Turn, ValueSpan, IsNeedle, FindFrom, Mask, Hide, ShowsValue;
    TurnFacts(text, needle, cursor, start, v, head, rest);
    Parts(out, base, head, Hide(v.len), rest);
    ShownThere(text, needle, cursor, start, v, head, rest, out, base);
  }

  lemma SameHead(head: string, stars: string, a: string, b: string)
    ensures head + stars + a == head + stars + b <==> a == b
  {
    if head + stars + a == head + stars + b {
      assert a == (head + stars + a)[|head + stars|..];
      assert b == (head + stars + b)[|head + stars|..];
    }
  }

  /** The turn of the second pass over a value that reads back as itself. */
  lemma SecondTurn(text: string, needle: string, cursor: nat, start: nat, v: Span, head: string, rest: string,
                   out: string, base: nat)
    requires Turn(text, needle, cursor, start, v, head, rest)
    requires base <= |out| && out[base..] == head + Hide(v.len) + rest
    requires !CommaAfter(text, start, v, needle)
    ensures var next' := base + |head| + |Hide(v.len)|;
            && next' <= |out| && out[next'..] == rest
            && Mask(out, needle, base) == head + Hide(v.len) + Mask(out, needle, next')
  {
    hide ValueSpan, IsNeedle, FindFrom, Mask, ShowsValue, CommaAfter, SameStretch;
    TurnMasks(text, needle, cursor, start, v, head, rest);
    Layout(text, needle, cursor, start, v, head, rest, out, base);
    FoundAgain(text, cursor, out, base, |head|, needle, start - |needle| - cursor);
    SpanAgain(text, start, needle, v, out, base + (start - cursor));
    var next' := base + |head| + |Hide(v.len)|;
    TurnMasks(out, needle, base, base + (start - cursor), Span(v.lead, |Hide(v.len)|), head, Mask(out, needle, next'));
  }

  /** The turn of the second pass over a bearer value cut at a comma: the output changes there. */
  lemma CommaTurn(text: string, needle: string, cursor: nat, start: nat, v: Span, head: string, rest: string,
                  out: string, base: nat)
    requires Turn(text, needle, cursor, start, v, head, rest)
    requires base <= |out| && out[base..] == head + Hide(v.len) + rest
    requires CommaAfter(text, start, v, needle)
    ensures Mask(out, needle, base) != out[base..]
  {
    hide ValueSpan, IsNeedle, FindFrom, Mask, ShowsValue, CommaAfter, SameStretch;
    TurnMasks(text, needle, cursor, start, v, head, rest);
    Layout(text, needle, cursor, start, v, head, rest, out, base);
    FoundAgain(text, cursor, out, base, |head|, needle, start - |needle| - cursor);
    var start' := base + (start - cursor);
    SpanPastComma(text, start, needle, v, out, start');
    var again := ValueSpan(out, start', needle);
    var end := start' + again.len;
    var more := Mask(out, needle, end);
    TurnMasks(out, needle, base, start', again, head, more);
    FirstKept(out, needle, end);
    var k := |head| + 3;
    assert out[base..][k] == out[start' + 3] == ',';
    assert more != [] ==> (head + STARS + more)[k] == more[0];
  }

  /** A second pass over masked text changes nothing exactly when no bearer value was cut at a comma. */
  lemma {:induction false} MaskTwice(text: string, needle: string, cursor: nat, out: string, base: nat)
    requires IsNeedle(needle) && cursor <= |text|
    requires base <= |out| && out[base..] == Mask(text, needle, cursor)
    ensures Mask(out, needle, base) == out[base..] <==> !CutAtComma(text, needle, cursor)
    decreases |text| - cursor
  {
    hide *;
    CutTurn(text, needle, cursor);
    match FindFrom(text, needle, cursor)
    case None =>
      MaskEnd(text, needle, cursor);
      RestStretch(text, cursor, out, base);
      NotFoundAgain(text, cursor, out, base, needle);
      MaskEnd(out, needle, base);
    case Some(p) =>
      var start := p + |needle|;
      var v := ValueSpan(text, start, needle);
      var next := start + v.lead + v.len;
      var head, rest := text[cursor..start + v.lead], Mask(text, needle, next);
      IsTurn(text, needle, cursor, start, v);
      TurnMasks(text, needle, cursor, start, v, head, rest);
      if CommaAfter(text, start, v, needle) {
        CommaTurn(text, needle, cursor, start, v, head, rest, out, base);
      } else {
        SecondTurn(text, needle, cursor, start, v, head, rest, out, base);
        var next' := base + |head| + |Hide(v.len)|;
        MaskTwice(text, needle, next, out, next');
        SameHead(head, Hide(v.len), Mask(out, needle, next'), rest);
      }
  }

  lemma IsTurn(text: string, needle: string, cursor: nat, start: nat, v: Span)
    requires IsNeedle(needle) && cursor <= |text| && FindFrom(text, needle, cursor).Some?
    requires start == FindFrom(text, needle, cursor).value + |needle| && v == ValueSpan(text, start, needle)
    ensures Turn(text, needle, cursor, start, v, text[cursor..start + v.lead], Mask(text, needle, start + v.lead + v.len))
  {
    hide IsNeedle, ValueSpan, FindFrom, Mask;
  }

  lemma RestStretch(text: string, cursor: nat, out: string, base: nat)
    requires cursor <= |text| && base <= |out| && out[base..] == text[cursor..]
    ensures |text| - cursor == |out| - base && SameStretch(text, cursor, out, base, |text| - cursor)
  {
    assert text[cursor..|text|] == text[cursor..] && out[base..|out|] == out[base..];
    assert |out[base..]| == |text[cursor..]|;
  }

  lemma CutTurn(text: string, needle: string, cursor: nat)
    requires IsNeedle(needle) && cursor <= |text|
    ensures match FindFrom(text, needle, cursor)
            case None => !CutAtComma(text, needle, cursor)
            case Some(p) =>
              var start := p + |needle|;
              var v := ValueSpan(text, start, needle);
              CutAtComma(text, needle, cursor)
              == (CommaAfter(text, start, v, needle) || CutAtComma(text, needle, start + v.lead + v.len))
  {
    hide IsNeedle, ValueSpan, FindFrom, OccursFolded;
  }

  /** `mask_assignment_values` is idempotent on a text exactly when it cuts no bearer value at a comma. */
  lemma IdempotentExactly(text: string, needle: string)
    requires IsNeedle(needle)
    ensures var once := Mask(text, needle, 0);
            Mask(once, needle, 0) == once <==> !CutAtComma(text, needle, 0)
  {
    hide *;
    var once := Mask(text, needle, 0);
    assert once[0..] == once;
    MaskTwice(text, needle, 0, once, 0);
  }

  /** So it always is for the keys without the bearer branch. */
  lemma {:induction false} PlainKeysNeverCut(text: string, needle: string, cursor: nat)
    requires IsNeedle(needle) && !TakesBearer(needle) && cursor <= |text|
    ensures !CutAtComma(text, needle, cursor)
    decreases |text| - cursor
  {
    hide IsNeedle, ValueSpan, FindFrom, OccursFolded;
    if FindFrom(text, needle, cursor).Some? {
      var start := FindFrom(text, needle, cursor).value + |needle|;
      var v := ValueSpan(text, start, needle);
      PlainKeysNeverCut(text, needle, start + v.lead + v.len);
    }
  }

  /** And it can fail for `auth=`: the input `auth=bearer a,b` is one that a second pass changes. */
  lemma AuthCanBeCut()
    ensures IsNeedle("auth=") && CutAtComma("auth=bearer a,b", "auth=", 0)
    ensures var once := Mask("auth=bearer a,b", "auth=", 0); Mask(once, "auth=", 0) != once
  {
    CutThere();
    hide *;
    IdempotentExactly("auth=bearer a,b", "auth=");
  }

  lemma CutThere()
    ensures IsNeedle("auth=") && CutAtComma("auth=bearer a,b", "auth=", 0)
  {
    var text := "auth=bearer a,b";
    BearerStops(text);
    hide StopFrom, IsWhitespace, EndsBare;
    assert OccursFolded(text, "auth=", 0);
    assert ValueSpan(text, 5, "auth=") == Span(0, 8);
  }

  lemma BearerStops(text: string)
    requires text == "auth=bearer a,b"
    ensures BearerAt(text, 5, "auth=") && StopFrom(text, 5, EndsBearer) == 13
  {
    hide IsWhitespace;
    StopsAt(text, 5, EndsBearer, 13);
  }
}
