/** What a masking pass guarantees about the text it lets through. */
module LogMaskLaws {
  import opened JsonValues
  import opened Characters
  import opened LogMask

  // ------------------------------------------------------------ what counts as masked

  /** Three stars, followed by the end of the text or by a character that ends the value. */
  predicate StarsAt(s: string, i: nat, ends: char -> bool) {
    i + 3 <= |s| && s[i] == s[i + 1] == s[i + 2] == '*' && (i + 3 == |s| || ends(s[i + 3]))
  }

  /** The characters that can follow the stars of an unquoted value. */
  predicate EndsValue(c: char, needle: string) {
    EndsBare(c) || (TakesBearer(needle) && c == ',')
  }

  function EndsFor(needle: string): char -> bool { c => EndsValue(c, needle) }

  /** Nothing secret follows position `at`: no value, an empty quotation, or stars. */
  predicate Masked(s: string, at: nat, needle: string) {
    || at >= |s| || s[at] == '&' || IsWhitespace(s[at])
    || (IsQuote(s[at]) && (at + 1 == |s| || s[at + 1] == s[at] || StarsAt(s, at + 1, Is(s[at]))))
    || StarsAt(s, at, EndsFor(needle))
  }

  // -------------------------------------------------------------------- one value

  /** The turn that starts at `cursor`: `text` up to the value, then stars, then the rest masked. */
  ghost predicate Turn(text: string, needle: string, cursor: nat, start: nat, v: Span, head: string, rest: string) {
    && IsNeedle(needle) && cursor <= |text| && FindFrom(text, needle, cursor).Some?
    && start == FindFrom(text, needle, cursor).value + |needle|
    && v == ValueSpan(text, start, needle)
    && head == text[cursor..start + v.lead]
    && rest == Mask(text, needle, start + v.lead + v.len)
  }

  lemma TurnMasks(text: string, needle: string, cursor: nat, start: nat, v: Span, head: string, rest: string)
    requires Turn(text, needle, cursor, start, v, head, rest)
    ensures Mask(text, needle, cursor) == head + Hide(v.len) + rest
    ensures cursor + |needle| <= start && |head| == start - cursor + v.lead && start + v.lead + v.len <= |text|
  {
    hide ValueSpan, IsNeedle, OccursFolded;
  }

  /** Masking never moves the first character. */
  lemma FirstKept(text: string, needle: string, cursor: nat)
    requires IsNeedle(needle) && cursor <= |text|
    ensures Mask(text, needle, cursor) == [] <==> cursor == |text|
    ensures cursor < |text| ==> Mask(text, needle, cursor)[0] == text[cursor]
  {
    hide ValueSpan, IsNeedle, OccursFolded;
  }

  /** What ends the value, by branch. */
  lemma SpanEnds(text: string, start: nat, needle: string)
    requires start <= |text|
    ensures var v := ValueSpan(text, start, needle); var end := start + v.lead + v.len;
            && (v.lead == 0 || (v.lead == 1 && start < |text| && IsQuote(text[start])))
            && (v.lead == 1 && end < |text| ==> text[end] == text[start])
            && (v.lead == 0 && end < |text| ==> EndsValue(text[end], needle))
            && (v.lead == 0 && v.len == 0 && end < |text| ==> text[end] == '&' || IsWhitespace(text[end]))
  {
    hide IsWhitespace;
    if BearerAt(text, start, needle) {
      BearerLength(text, start);
      Newlines();
    }
  }

  lemma Newlines()
    ensures IsWhitespace('\r') && IsWhitespace('\n')
  {}

  /** In the masked text, what follows the needle is masked. */
  lemma ValueMasked(text: string, needle: string, cursor: nat, start: nat, v: Span, head: string, rest: string)
    requires Turn(text, needle, cursor, start, v, head, rest)
    ensures Masked(head + Hide(v.len) + rest, start - cursor, needle)
  {
    hide IsWhitespace, Mask, IsNeedle, ValueSpan, FindFrom;
    TurnMasks(text, needle, cursor, start, v, head, rest);
    SpanEnds(text, start, needle);
    FirstKept(text, needle, start + v.lead + v.len);
    var out, b := head + Hide(v.len) + rest, start - cursor;
    assert v.lead == 1 ==> out[b] == text[start];
    if rest != [] {
      assert out[|head| + |Hide(v.len)|] == rest[0] == text[start + v.lead + v.len];
    }
  }

  // ------------------------------------------------------ every occurrence is masked

  lemma MaskedShift(front: string, s: string, at: nat, needle: string)
    requires Masked(s, at, needle)
    ensures Masked(front + s, |front| + at, needle)
  {
    hide IsWhitespace;
    var t := front + s;
    assert |t| == |front| + |s|;
    assert forall k :: 0 <= k < |s| ==> t[|front| + k] == s[k];
  }

  lemma Window(text: string, cursor: nat, start: nat, lead: nat, rest: string, i: nat, n: nat)
    requires cursor <= start && start + lead <= |text| && cursor + i + n <= start
    ensures (text[cursor..start + lead] + rest)[i..i + n] == text[cursor + i..cursor + i + n]
  {
    var head := text[cursor..start + lead];
    assert (head + rest)[i..i + n] == head[i..i + n];
    SubSlice(text, cursor, start + lead, i, i + n);
  }

  lemma NeedleChars(needle: string, k: nat)
    requires IsNeedle(needle) && k < |needle|
    ensures needle[k] == '=' <==> k == |needle| - 1
    ensures !IsQuote(needle[k]) && needle[k] != '*'
  {}

  /** Before the value, the needle occurs only where the scan found it. */
  lemma NotEarlier(text: string, needle: string, cursor: nat, start: nat, v: Span, head: string, rest: string, i: nat)
    requires Turn(text, needle, cursor, start, v, head, rest)
    requires OccursFolded(head + (Hide(v.len) + rest), needle, i) && i + |needle| <= start - cursor
    ensures i + |needle| == start - cursor
  {
    hide IsWhitespace, IsNeedle, Mask, ValueSpan, FindFrom, OccursFolded;
    Window(text, cursor, start, v.lead, Hide(v.len) + rest, i, |needle|);
    OccursInWindow(head + (Hide(v.len) + rest), i, text, cursor + i, needle);
    FindsNoLater(text, needle, cursor, cursor + i);
  }

  lemma OccursAt(s: string, needle: string, i: nat, at: nat)
    requires OccursFolded(s, needle, i) && i <= at < i + |needle|
    ensures at < |s| && Fold(s[at]) == needle[at - i]
  {
    assert Fold(s[i + (at - i)]) == needle[at - i];
  }

  /** It does not reach over the equals sign into the value, nor start in the quote or the stars. */
  lemma NotAcross(text: string, needle: string, cursor: nat, start: nat, v: Span, head: string, rest: string, i: nat)
    requires Turn(text, needle, cursor, start, v, head, rest)
    requires OccursFolded(head + (Hide(v.len) + rest), needle, i) && i + |needle| > start - cursor
    ensures |head| + |Hide(v.len)| <= i
  {
    hide IsWhitespace, IsNeedle, Mask, ValueSpan, FindFrom, OccursFolded;
    TurnMasks(text, needle, cursor, start, v, head, rest);
    SpanEnds(text, start, needle);
    FindsOccurrence(text, needle, cursor);
    var out, n, b := head + (Hide(v.len) + rest), |needle|, start - cursor;
    NeedleChars(needle, n - 1);
    OccursAt(text, needle, start - n, start - 1);
    assert out[b - 1] == text[start - 1];
    if i < b {
      NeedleChars(needle, b - 1 - i);
      OccursAt(out, needle, i, b - 1);
    } else if i < |head| + |Hide(v.len)| {
      NeedleChars(needle, 0);
      assert out[i] == if i < |head| then text[start] else '*';
      OccursAt(out, needle, i, i);
    }
  }

  /** An occurrence of the needle in the output of a turn is the one just handled, or lies in the rest. */
  lemma WhereItOccurs(text: string, needle: string, cursor: nat, start: nat, v: Span, head: string, rest: string, i: nat)
    requires Turn(text, needle, cursor, start, v, head, rest)
    requires OccursFolded(head + Hide(v.len) + rest, needle, i)
    ensures i + |needle| == start - cursor || |head| + |Hide(v.len)| <= i
  {
    hide *;
    assert head + Hide(v.len) + rest == head + (Hide(v.len) + rest);
    if i + |needle| <= start - cursor {
      NotEarlier(text, needle, cursor, start, v, head, rest, i);
    } else {
      NotAcross(text, needle, cursor, start, v, head, rest, i);
    }
  }

  /** In the masked text every occurrence of the needle, in any case, has its value masked. */
  lemma {:induction false} EveryOccurrenceMasked(text: string, needle: string, cursor: nat, i: nat)
    requires IsNeedle(needle) && cursor <= |text|
    requires OccursFolded(Mask(text, needle, cursor), needle, i)
    ensures Masked(Mask(text, needle, cursor), i + |needle|, needle)
    decreases |text| - cursor
  {
    hide IsWhitespace, IsNeedle, ValueSpan, OccursFolded, Masked;
    match FindFrom(text, needle, cursor)
    case None =>
      NoOccurrence(text, needle, cursor, i);
    case Some(p) =>
      var start := p + |needle|;
      var v := ValueSpan(text, start, needle);
      var next := start + v.lead + v.len;
      var head, rest := text[cursor..start + v.lead], Mask(text, needle, next);
      TurnMasks(text, needle, cursor, start, v, head, rest);
      WhereItOccurs(text, needle, cursor, start, v, head, rest, i);
      if i + |needle| == start - cursor {
        ValueMasked(text, needle, cursor, start, v, head, rest);
      } else {
        var front := head + Hide(v.len);
        OccursInRest(front, rest, needle, i);
        EveryOccurrenceMasked(text, needle, next, i - |front|);
        MaskedShift(front, rest, i - |front| + |needle|, needle);
      }
  }

  lemma OccursInRest(front: string, rest: string, needle: string, i: nat)
    requires |front| <= i && OccursFolded(front + rest, needle, i)
    ensures OccursFolded(rest, needle, i - |front|)
  {
    assert (front + rest)[i..i + |needle|] == rest[i - |front|..i - |front| + |needle|];
    OccursInWindow(front + rest, i, rest, i - |front|, needle);
  }

  lemma NoOccurrence(text: string, needle: string, cursor: nat, i: nat)
    requires cursor <= |text| && FindFrom(text, needle, cursor).None?
    ensures !OccursFolded(text[cursor..], needle, i)
  {
    if OccursFolded(text[cursor..], needle, i) {
      assert text[cursor..][i..i + |needle|] == text[cursor + i..cursor + i + |needle|];
      OccursInWindow(text[cursor..], i, text, cursor + i, needle);
      FindsNoLater(text, needle, cursor, cursor + i);
    }
  }

  // ------------------------------------------------- everything else is copied through

  /** A stretch of the input: copied to the output, or replaced by stars. */
  datatype Piece = Copied(s: string) | Starred(s: string)

  function Pieces(text: string, needle: string, cursor: nat): seq<Piece>
    requires IsNeedle(needle) && cursor <= |text|
    decreases |text| - cursor
  {
    match FindFrom(text, needle, cursor)
    case None => [Copied(text[cursor..])]
    case Some(p) =>
      var start := p + |needle|;
      var v := ValueSpan(text, start, needle);
      [Copied(text[cursor..start + v.lead]), Starred(text[start + v.lead..start + v.lead + v.len])]
      + Pieces(text, needle, start + v.lead + v.len)
  }

  function Source(pieces: seq<Piece>): string {
    if pieces == [] then [] else pieces[0].s + Source(pieces[1..])
  }

  function Shown(pieces: seq<Piece>): string {
    if pieces == [] then [] else
    (if pieces[0].Copied? then pieces[0].s else if pieces[0].s == [] then [] else STARS) + Shown(pieces[1..])
  }

  /** The input and the output are the same stretches in the same order, except that values read `***`. */
  lemma {:induction false} OnlyValuesChange(text: string, needle: string, cursor: nat)
    requires IsNeedle(needle) && cursor <= |text|
    ensures Source(Pieces(text, needle, cursor)) == text[cursor..]
    ensures Shown(Pieces(text, needle, cursor)) == Mask(text, needle, cursor)
    decreases |text| - cursor
  {
    hide IsNeedle, ValueSpan, FindFrom, OccursFolded, Mask, Pieces, Source, Shown;
    PiecesTurn(text, needle, cursor);
    match FindFrom(text, needle, cursor)
    case None =>
      Ends(Copied(text[cursor..]));
      MaskEnd(text, needle, cursor);
    case Some(p) =>
      var start := p + |needle|;
      var v := ValueSpan(text, start, needle);
      var next := start + v.lead + v.len;
      OnlyValuesChange(text, needle, next);
      TurnMasks(text, needle, cursor, start, v, text[cursor..start + v.lead], Mask(text, needle, next));
      TwoPieces(Copied(text[cursor..start + v.lead]), Starred(text[start + v.lead..next]), Pieces(text, needle, next));
      Join(text, cursor, start + v.lead, next);
      Join(text, cursor, next, |text|);
  }

  lemma PiecesTurn(text: string, needle: string, cursor: nat)
    requires IsNeedle(needle) && cursor <= |text|
    ensures FindFrom(text, needle, cursor).None? ==> Pieces(text, needle, cursor) == [Copied(text[cursor..])]
    ensures FindFrom(text, needle, cursor).Some? ==>
              var start := FindFrom(text, needle, cursor).value + |needle|;
              var v := ValueSpan(text, start, needle);
              Pieces(text, needle, cursor)
              == [Copied(text[cursor..start + v.lead]), Starred(text[start + v.lead..start + v.lead + v.len])]
                 + Pieces(text, needle, start + v.lead + v.len)
  {
    hide IsNeedle, ValueSpan, OccursFolded;
  }

  lemma Ends(piece: Piece)
    ensures piece.Copied? ==> Source([piece]) == Shown([piece]) == piece.s
  {}

  lemma TwoPieces(a: Piece, b: Piece, more: seq<Piece>)
    requires a.Copied? && b.Starred?
    ensures Source([a, b] + more) == a.s + b.s + Source(more)
    ensures Shown([a, b] + more) == a.s + Hide(|b.s|) + Shown(more)
  {
    assert ([a, b] + more)[1..] == [b] + more;
    assert ([b] + more)[1..] == more;
  }
}
