/** The masking the log calls: six passes for keys and one for bearer words, and what all of them together guarantee. */
module LogMaskAll {
  import opened JsonValues
  import opened Characters
  import opened LogMask
  import opened LogMaskLaws
  import opened LogMaskTwice

  const KEYS := ["token=", "api_key=", "apikey=", "authorization=", "auth=", "header="]

  const BEARER := "bearer "

  // -------------------------------------------------------------- the bearer pass

  predicate EndsWord(c: char) { c == '&' || c == ',' || IsQuote(c) || IsWhitespace(c) }

  function WordEnd(text: string, start: nat): (end: nat)
    requires start <= |text|
    ensures start <= end <= |text|
  {
    StopFrom(text, start, EndsWord)
  }

  /** The form of the text from `cursor` on in which every word after `bearer ` reads as stars. */
  function MaskBearer(text: string, cursor: nat): string
    requires cursor <= |text|
    decreases |text| - cursor
  {
    match FindFrom(text, BEARER, cursor)
    case None => text[cursor..]
    case Some(p) =>
      var start := p + |BEARER|;
      text[cursor..start] + Hide(WordEnd(text, start) - start) + MaskBearer(text, WordEnd(text, start))
  }

  /** `mask_bearer_values`. */
  method MaskBearerValues(text: string) returns (out: string)
    ensures out == MaskBearer(text, 0)
  {
    hide *;
    out := "";
    var cursor := 0;
    while true
      invariant cursor <= |text| && out + MaskBearer(text, cursor) == MaskBearer(text, 0)
      decreases |text| - cursor
    {
      var found := FindFrom(text, BEARER, cursor);
      BearerTurn(text, cursor);
      if found.None? { break; }
      var start := found.value + |BEARER|;
      var end := WordEnd(text, start);
      Regrouped(out, text[cursor..start], Hide(end - start), MaskBearer(text, end));
      BearerIsLong();
      out := out + text[cursor..start];
      if end > start { out := out + STARS; }
      HideStars(end - start);
      cursor := end;
    }
    out := out + text[cursor..];
  }

  lemma BearerTurn(text: string, cursor: nat)
    requires cursor <= |text|
    ensures match FindFrom(text, BEARER, cursor)
            case None => MaskBearer(text, cursor) == text[cursor..]
            case Some(p) =>
              var start := p + |BEARER|;
              MaskBearer(text, cursor)
              == text[cursor..start] + Hide(WordEnd(text, start) - start) + MaskBearer(text, WordEnd(text, start))
  {
    hide FindFrom, OccursFolded, WordEnd, Hide, BEARER;
  }

  lemma BearerIsLong()
    ensures |BEARER| == 7
  {}

  lemma HideStars(n: nat)
    ensures Hide(n) == if n > 0 then STARS else ""
  {}

  lemma Regrouped(a: string, b: string, c: string, d: string)
    ensures a + (b + c + d) == a + b + c + d
    ensures c == "" ==> a + (b + c + d) == a + b + d
  {
    if c == "" { assert b + c + d == b + d; }
  }

  // ------------------------------------------------------- what a later pass leaves alone

  /** Every occurrence of the key has its value masked. */
  ghost predicate AllMasked(text: string, needle: string) {
    forall i: nat :: OccursFolded(text, needle, i) ==> Masked(text, i + |needle|, needle)
  }

  predicate IsKeyChar(c: char) { c != '&' && c != ',' && c != '*' && !IsQuote(c) && !IsWhitespace(c) }

  /** A masked value that is copied together with a key character after it stays masked. */
  lemma RegionStays(text: string, p: nat, needle: string, out: string, cursor: nat, m: nat)
    requires Masked(text, p, needle) && cursor <= p <= m < |text| && IsKeyChar(text[m])
    requires m - cursor < |out| && forall k :: p <= k <= m ==> out[k - cursor] == text[k]
    ensures Masked(out, p - cursor, needle)
  {
    hide IsWhitespace;
    StarsAreValue('"');
    assert out[p - cursor] == text[p];
    if m > p { assert out[p + 1 - cursor] == text[p + 1]; }
    if m > p + 1 { assert out[p + 2 - cursor] == text[p + 2]; }
    if m > p + 2 { assert out[p + 3 - cursor] == text[p + 3]; }
    if m > p + 3 { assert out[p + 4 - cursor] == text[p + 4]; }
  }

  lemma KeyChars(needle: string)
    requires IsNeedle(needle)
    ensures forall k :: 0 <= k < |needle| ==> IsKeyChar(needle[k]) && needle[k] != ' '
    ensures forall c :: IsKeyChar(Fold(c)) ==> IsKeyChar(c)
  {}

  /** A key does not reach over a character that is none of its own, or its last. */
  lemma NotOver(out: string, needle: string, i: nat, b: nat, c: char)
    requires IsNeedle(needle) && OccursFolded(out, needle, i) && 0 < b <= |out| && Fold(out[b - 1]) == c
    requires c == '=' || c == ' '
    ensures i < b ==> i + |needle| <= b
  {
    hide IsWhitespace, OccursFolded;
    if i < b < i + |needle| {
      NeedleChars(needle, b - 1 - i);
      KeyChars(needle);
      OccursAt(out, needle, i, b - 1);
    }
  }

  /** Nor does it begin in a quote or in the stars. */
  lemma NotIn(out: string, needle: string, i: nat)
    requires IsNeedle(needle) && i < |out| && (out[i] == '*' || IsQuote(out[i]))
    ensures !OccursFolded(out, needle, i)
  {
    hide IsWhitespace, OccursFolded;
    NeedleChars(needle, 0);
    if OccursFolded(out, needle, i) { OccursAt(out, needle, i, i); }
  }

  /** An occurrence in a copied stretch is one in the text. */
  lemma CopiedOccurs(text: string, cursor: nat, stop: nat, rest: string, needle: string, i: nat)
    requires cursor <= stop <= |text| && i + |needle| <= stop - cursor
    requires OccursFolded(text[cursor..stop] + rest, needle, i)
    ensures OccursFolded(text, needle, cursor + i)
  {
    hide OccursFolded;
    Window(text, cursor, stop, 0, rest, i, |needle|);
    OccursInWindow(text[cursor..stop] + rest, i, text, cursor + i, needle);
  }

  lemma CopiedChars(text: string, cursor: nat, stop: nat, rest: string)
    requires cursor <= stop <= |text|
    ensures forall k :: cursor <= k < stop ==> (text[cursor..stop] + rest)[k - cursor] == text[k]
  {}

  /** What is left of a text keeps what was masked in it. */
  lemma {:induction false} SuffixMasked(text: string, cursor: nat, needle: string)
    requires cursor <= |text| && AllMasked(text, needle)
    ensures AllMasked(text[cursor..], needle)
  {
    hide IsWhitespace, Masked, OccursFolded;
    var s := text[cursor..];
    forall i: nat | OccursFolded(s, needle, i) ensures Masked(s, i + |needle|, needle) {
      assert s == text[cursor..|text|] + "";
      OccursInside(s, needle, i);
      CopiedOccurs(text, cursor, |text|, "", needle, i);
      MaskedInSuffix(text, cursor, cursor + i + |needle|, needle);
    }
  }

  lemma OccursInside(s: string, needle: string, i: nat)
    requires OccursFolded(s, needle, i)
    ensures i + |needle| <= |s|
  {}

  lemma MaskedInSuffix(text: string, cursor: nat, at: nat, needle: string)
    requires cursor <= at && cursor <= |text| && Masked(text, at, needle)
    ensures Masked(text[cursor..], at - cursor, needle)
  {
    hide IsWhitespace;
    var s, from := text[cursor..], at - cursor;
    if at < |text| { assert s[from] == text[at]; }
    if at + 1 < |text| { assert s[from + 1] == text[at + 1]; }
    if at + 2 < |text| { assert s[from + 2] == text[at + 2]; }
    if at + 3 < |text| { assert s[from + 3] == text[at + 3]; }
    if at + 4 < |text| { assert s[from + 4] == text[at + 4]; }
  }

  /** An occurrence in a copied stretch, with a key character of the stretch after it, is still masked. */
  lemma CopiedKeeps(text: string, cursor: nat, stop: nat, tail: string, needle: string, i: nat, m: nat)
    requires cursor <= stop <= |text| && AllMasked(text, needle)
    requires OccursFolded(text[cursor..stop] + tail, needle, i) && cursor + i + |needle| <= m < stop && IsKeyChar(text[m])
    ensures Masked(text[cursor..stop] + tail, i + |needle|, needle)
  {
    hide OccursFolded, Masked, IsKeyChar;
    var out, p := text[cursor..stop] + tail, cursor + i + |needle|;
    CopiedOccurs(text, cursor, stop, tail, needle, i);
    CopiedChars(text, cursor, stop, tail);
    RegionStays(text, p, needle, out, cursor, m);
  }

  lemma RestKeeps(front: string, rest: string, needle: string, i: nat)
    requires AllMasked(rest, needle) && |front| <= i && OccursFolded(front + rest, needle, i)
    ensures Masked(front + rest, i + |needle|, needle)
  {
    hide OccursFolded, Masked;
    OccursInRest(front, rest, needle, i);
    MaskedShift(front, rest, i - |front| + |needle|, needle);
  }

  // ------------------------------------------------------------- a later key's pass

  /** A bare or quoted value ends at a delimiter, and never at a comma. */
  lemma PlainSpanEnds(text: string, start: nat, needle: string)
    requires start <= |text| && !BearerAt(text, start, needle)
    ensures var v := ValueSpan(text, start, needle); var end := start + v.lead + v.len;
            && (v.lead == 0 && end < |text| ==> EndsBare(text[end]))
            && (v.lead == 0 && v.len == 0 && end < |text| ==> text[end] == '&' || IsWhitespace(text[end]))
  {
    hide IsWhitespace;
  }

  /** The value of both keys at once: masking it again leaves it masked for the first. */
  lemma ValueStaysMasked(text: string, other: string, cursor: nat, start: nat, v: Span, head: string, rest: string, needle: string)
    requires Turn(text, other, cursor, start, v, head, rest) && Masked(text, start, needle)
    ensures Masked(head + Hide(v.len) + rest, start - cursor, needle)
  {
    hide IsWhitespace, Mask, IsNeedle, ValueSpan, FindFrom;
    TurnMasks(text, other, cursor, start, v, head, rest);
    BearerBegins(text, start, other);
    StarsAreValue('"');
    StarsAreValue('\'');
    assert !BearerAt(text, start, other);
    SpanEnds(text, start, other);
    PlainSpanEnds(text, start, other);
    FirstKept(text, other, start + v.lead + v.len);
    hide BearerAt, OccursFolded;
    var out, b := head + Hide(v.len) + rest, start - cursor;
    assert v.lead == 1 ==> out[b] == text[start];
    if rest != [] {
      assert out[|head| + |Hide(v.len)|] == rest[0] == text[start + v.lead + v.len];
    }
  }

  /** One turn of another key's pass: an occurrence of the first key in its output is still masked. */
  lemma TurnKeeps(text: string, other: string, cursor: nat, start: nat, v: Span, head: string, rest: string, needle: string, i: nat)
    requires IsNeedle(needle) && AllMasked(text, needle) && Turn(text, other, cursor, start, v, head, rest)
    requires AllMasked(rest, needle) && OccursFolded(head + Hide(v.len) + rest, needle, i)
    ensures Masked(head + Hide(v.len) + rest, i + |needle|, needle)
  {
    hide *;
    var out, b, tail := head + Hide(v.len) + rest, start - cursor, Hide(v.len) + rest;
    assert out == head + tail;
    EqualsBefore(text, other, cursor, start, v, head, rest);
    NotOver(out, needle, i, b, '=');
    if i + |needle| < b {
      EqualsIsKeyChar(text[start - 1]);
      CopiedKeeps(text, cursor, start + v.lead, tail, needle, i, start - 1);
    } else if i + |needle| == b {
      CopiedOccurs(text, cursor, start + v.lead, tail, needle, i);
      MaskedThere(text, needle, cursor + i);
      ValueStaysMasked(text, other, cursor, start, v, head, rest, needle);
    } else {
      InTheRest(text, other, cursor, start, v, head, rest, needle, i);
      RestKeeps(head + Hide(v.len), rest, needle, i);
    }
  }

  lemma MaskedThere(text: string, needle: string, i: nat)
    requires AllMasked(text, needle) && OccursFolded(text, needle, i)
    ensures Masked(text, i + |needle|, needle)
  {}

  lemma EqualsIsKeyChar(c: char)
    requires Fold(c) == '='
    ensures IsKeyChar(c)
  {}

  lemma EqualsBefore(text: string, other: string, cursor: nat, start: nat, v: Span, head: string, rest: string)
    requires Turn(text, other, cursor, start, v, head, rest)
    ensures cursor < start <= start + v.lead <= |text| && head == text[cursor..start + v.lead] && Fold(text[start - 1]) == '='
    ensures var out := head + Hide(v.len) + rest; start - cursor <= |out| && Fold(out[start - cursor - 1]) == '='
  {
    hide IsWhitespace, Mask, ValueSpan, FindFrom, OccursFolded;
    TurnMasks(text, other, cursor, start, v, head, rest);
    FindsOccurrence(text, other, cursor);
    OccursAt(text, other, start - |other|, start - 1);
    var out := head + Hide(v.len) + rest;
    assert out[start - cursor - 1] == head[start - cursor - 1] == text[start - 1];
  }

  lemma InTheRest(text: string, other: string, cursor: nat, start: nat, v: Span, head: string, rest: string, needle: string, i: nat)
    requires IsNeedle(needle) && Turn(text, other, cursor, start, v, head, rest)
    requires OccursFolded(head + Hide(v.len) + rest, needle, i) && start - cursor <= i
    ensures |head + Hide(v.len)| <= i
  {
    hide IsWhitespace, IsNeedle, Mask, ValueSpan, FindFrom, OccursFolded;
    TurnMasks(text, other, cursor, start, v, head, rest);
    SpanEnds(text, start, other);
    var out := head + Hide(v.len) + rest;
    if i < |head + Hide(v.len)| {
      assert out[i] == if i < |head| then text[start] else '*';
      NotIn(out, needle, i);
    }
  }

  /** What one pass has masked, a later pass for any key leaves masked. */
  lemma {:induction false} LaterPassKeeps(text: string, other: string, cursor: nat, needle: string)
    requires IsNeedle(other) && IsNeedle(needle) && cursor <= |text| && AllMasked(text, needle)
    ensures AllMasked(Mask(text, other, cursor), needle)
    decreases |text| - cursor
  {
    hide IsWhitespace, IsNeedle, ValueSpan, OccursFolded, Masked;
    match FindFrom(text, other, cursor)
    case None => SuffixMasked(text, cursor, needle);
    case Some(p) =>
      var start := p + |other|;
      var v := ValueSpan(text, start, other);
      var next := start + v.lead + v.len;
      var head, rest := text[cursor..start + v.lead], Mask(text, other, next);
      TurnMasks(text, other, cursor, start, v, head, rest);
      LaterPassKeeps(text, other, next, needle);
      forall i: nat | OccursFolded(Mask(text, other, cursor), needle, i)
        ensures Masked(Mask(text, other, cursor), i + |needle|, needle)
      {
        TurnKeeps(text, other, cursor, start, v, head, rest, needle, i);
      }
  }

  // ------------------------------------------------------------- the bearer pass

  lemma BearerTurnKeeps(text: string, cursor: nat, start: nat, stars: string, rest: string, needle: string, i: nat)
    requires IsNeedle(needle) && AllMasked(text, needle) && AllMasked(rest, needle)
    requires cursor <= start - 7 && start <= |text| && OccursFolded(text, BEARER, start - 7) && (stars == "***" || stars == "")
    requires OccursFolded(text[cursor..start] + stars + rest, needle, i)
    ensures Masked(text[cursor..start] + stars + rest, i + |needle|, needle)
  {
    hide *;
    var head := text[cursor..start];
    var out, b, front := head + stars + rest, start - cursor, head + stars;
    assert out == head + (stars + rest);
    BearerChars(text, start);
    assert out[b - 1] == head[b - 1] == text[start - 1];
    NotOver(out, needle, i, b, ' ');
    if i + |needle| <= b {
      CopiedOccurs(text, cursor, start, stars + rest, needle, i);
      EndsBeforeWord(text, needle, cursor + i, start);
      CopiedKeeps(text, cursor, start, stars + rest, needle, i, start - 2);
    } else {
      if i < |front| {
        assert out[i] == '*';
        NotIn(out, needle, i);
      }
      RestKeeps(front, rest, needle, i);
    }
  }

  /** A key that ends no later than `bearer ` ends before its last letter: the two end differently. */
  lemma EndsBeforeWord(text: string, needle: string, i: nat, start: nat)
    requires IsNeedle(needle) && OccursFolded(text, needle, i) && i + |needle| <= start <= |text| && 2 <= start
    requires Fold(text[start - 1]) == ' ' && Fold(text[start - 2]) == 'r'
    ensures i + |needle| <= start - 2
  {
    NeedleChars(needle, |needle| - 1);
    OccursAt(text, needle, i, i + |needle| - 1);
    hide OccursFolded, IsNeedle;
  }

  lemma BearerChars(text: string, start: nat)
    requires 7 <= start <= |text| && OccursFolded(text, BEARER, start - 7)
    ensures Fold(text[start - 1]) == ' ' && Fold(text[start - 2]) == 'r' && IsKeyChar(text[start - 2])
  {
    OccursAt(text, BEARER, start - 7, start - 1);
    OccursAt(text, BEARER, start - 7, start - 2);
    hide OccursFolded;
  }

  lemma {:induction false} BearerPassKeeps(text: string, cursor: nat, needle: string)
    requires IsNeedle(needle) && cursor <= |text| && AllMasked(text, needle)
    ensures AllMasked(MaskBearer(text, cursor), needle)
    decreases |text| - cursor
  {
    hide IsNeedle, OccursFolded, Masked, MaskBearer, WordEnd;
    BearerTurn(text, cursor);
    match FindFrom(text, BEARER, cursor)
    case None => SuffixMasked(text, cursor, needle);
    case Some(p) =>
      var start := p + |BEARER|;
      var end := WordEnd(text, start);
      FindsOccurrence(text, BEARER, cursor);
      HideStars(end - start);
      BearerPassKeeps(text, end, needle);
      forall i: nat | OccursFolded(MaskBearer(text, cursor), needle, i)
        ensures Masked(MaskBearer(text, cursor), i + |needle|, needle)
      {
        BearerTurnKeeps(text, cursor, start, Hide(end - start), MaskBearer(text, end), needle, i);
      }
  }

  /** Nothing secret follows `bearer `: no word, or stars. */
  predicate WordHidden(s: string, at: nat) { at >= |s| || EndsWord(s[at]) || StarsAt(s, at, EndsWord) }

  /** In the output of the bearer pass every `bearer `, in any case, has its word hidden. */
  lemma {:induction false} EveryBearerHidden(text: string, cursor: nat, i: nat)
    requires cursor <= |text| && OccursFolded(MaskBearer(text, cursor), BEARER, i)
    ensures WordHidden(MaskBearer(text, cursor), i + 7)
    decreases |text| - cursor
  {
    hide OccursFolded, MaskBearer, WordEnd, WordHidden, Hide;
    BearerTurn(text, cursor);
    match FindFrom(text, BEARER, cursor)
    case None => NoOccurrence(text, BEARER, cursor, i);
    case Some(p) =>
      var start := p + |BEARER|;
      var end := WordEnd(text, start);
      var stars, rest := Hide(end - start), MaskBearer(text, end);
      var front := text[cursor..start] + stars;
      FindsOccurrence(text, BEARER, cursor);
      HideStars(end - start);
      WhereBearerOccurs(text, cursor, start, stars, rest, i);
      if i == p - cursor {
        WordIsHidden(text, cursor, start, end);
      } else {
        OccursInRest(front, rest, BEARER, i);
        EveryBearerHidden(text, end, i - |front|);
        HiddenShift(front, rest, i - |front| + 7);
      }
  }

  lemma HiddenShift(front: string, s: string, at: nat)
    requires WordHidden(s, at)
    ensures WordHidden(front + s, |front| + at)
  {
    hide EndsWord;
    var t := front + s;
    assert forall k :: 0 <= k < |s| ==> t[|front| + k] == s[k];
  }

  lemma WordIsHidden(text: string, cursor: nat, start: nat, end: nat)
    requires cursor <= start <= |text| && end == WordEnd(text, start)
    ensures WordHidden(text[cursor..start] + Hide(end - start) + MaskBearer(text, end), start - cursor)
  {
    hide IsWhitespace, MaskBearer, OccursFolded;
    var head, stars, rest := text[cursor..start], Hide(end - start), MaskBearer(text, end);
    FirstCharStays(text, end);
    var out := head + stars + rest;
    assert |out| == (start - cursor) + |stars| + |rest|;
    if rest != [] { assert out[|head| + |stars|] == rest[0] == text[end]; }
    if stars != "" { assert out[|head|] == out[|head| + 1] == out[|head| + 2] == '*'; }
  }

  lemma FirstCharStays(text: string, cursor: nat)
    requires cursor <= |text|
    ensures MaskBearer(text, cursor) == [] <==> cursor == |text|
    ensures cursor < |text| ==> MaskBearer(text, cursor)[0] == text[cursor]
  {
    hide OccursFolded, StopFrom, IsWhitespace;
    BearerTurn(text, cursor);
  }

  /** It occurs where the scan found it, or in what is left. */
  lemma WhereBearerOccurs(text: string, cursor: nat, start: nat, stars: string, rest: string, i: nat)
    requires cursor <= start - 7 && start <= |text| && FindFrom(text, BEARER, cursor) == Some(start - 7)
    requires (stars == "***" || stars == "") && OccursFolded(text[cursor..start] + stars + rest, BEARER, i)
    ensures i == start - 7 - cursor || |text[cursor..start] + stars| <= i
  {
    hide OccursFolded, FindFrom;
    var head := text[cursor..start];
    var out, b := head + stars + rest, start - cursor;
    assert out == head + (stars + rest);
    FindsOccurrence(text, BEARER, cursor);
    BearerChars(text, start);
    assert out[b - 1] == head[b - 1] == text[start - 1];
    if i + 7 <= b {
      CopiedOccurs(text, cursor, start, stars + rest, BEARER, i);
      FindsNoLater(text, BEARER, cursor, cursor + i);
    } else if i < b {
      OccursAt(out, BEARER, i, b - 1);
    } else if i < |head + stars| {
      assert out[i] == '*';
      OccursAt(out, BEARER, i, i);
    }
  }

  // -------------------------------------------------------------- all passes together

  function MaskKeys(text: string, keys: seq<string>): string
    requires forall k :: 0 <= k < |keys| ==> IsNeedle(keys[k])
  {
    if keys == [] then text else Mask(MaskKeys(text, keys[..|keys| - 1]), keys[|keys| - 1], 0)
  }

  lemma KeysAreNeedles(k: nat)
    requires k < |KEYS|
    ensures IsNeedle(KEYS[k])
  {}

  /** `mask_token_values`. */
  method MaskTokenValues(text: string) returns (masked: string)
    ensures (forall k :: 0 <= k < |KEYS| ==> IsNeedle(KEYS[k])) && masked == MaskBearer(MaskKeys(text, KEYS), 0)
  {
    forall k | 0 <= k < |KEYS| ensures IsNeedle(KEYS[k]) { KeysAreNeedles(k); }
    hide *;
    masked := text;
    KeysNone(text);
    for n := 0 to |KEYS|
      invariant masked == MaskKeys(text, KEYS[..n])
    {
      masked := MaskAssignmentValues(masked, KEYS[n]);
      KeysNext(text, n);
    }
    assert KEYS[..|KEYS|] == KEYS;
    masked := MaskBearerValues(masked);
  }

  lemma KeysNone(text: string)
    ensures MaskKeys(text, KEYS[..0]) == text
  {}

  lemma KeysNext(text: string, n: nat)
    requires n < |KEYS| && forall k :: 0 <= k < |KEYS| ==> IsNeedle(KEYS[k])
    ensures MaskKeys(text, KEYS[..n + 1]) == Mask(MaskKeys(text, KEYS[..n]), KEYS[n], 0)
  {
    hide KEYS, Mask, IsNeedle;
    assert KEYS[..n + 1][..n] == KEYS[..n];
  }

  lemma {:induction false} AfterKeys(text: string, keys: seq<string>, key: string)
    requires (forall k :: 0 <= k < |keys| ==> IsNeedle(keys[k])) && key in keys
    ensures AllMasked(MaskKeys(text, keys), key)
  {
    hide Mask, IsNeedle, AllMasked;
    var before, last := keys[..|keys| - 1], keys[|keys| - 1];
    var so := MaskKeys(text, before);
    if key == last {
      OwnPassMasks(so, key);
    } else {
      assert keys == before + [last];
      AfterKeys(text, before, key);
      LaterPassKeeps(so, last, 0, key);
    }
  }

  lemma OwnPassMasks(text: string, needle: string)
    requires IsNeedle(needle)
    ensures AllMasked(Mask(text, needle, 0), needle)
  {
    hide IsNeedle, Mask, OccursFolded, Masked;
    forall i: nat | OccursFolded(Mask(text, needle, 0), needle, i)
      ensures Masked(Mask(text, needle, 0), i + |needle|, needle)
    {
      EveryOccurrenceMasked(text, needle, 0, i);
    }
  }

  /**
   In the masked text, every occurrence of every key, in any case, has its value masked, and every `bearer ` its word,
   whatever the text was.
   */
  lemma EverythingMasked(text: string, key: string, i: nat)
    requires key in ["token=", "api_key=", "apikey=", "authorization=", "auth=", "header="]
    ensures forall k :: 0 <= k < |KEYS| ==> IsNeedle(KEYS[k])
    ensures var masked := MaskBearer(MaskKeys(text, KEYS), 0);
            && (OccursFolded(masked, key, i) ==> Masked(masked, i + |key|, key))
            && (OccursFolded(masked, "bearer ", i) ==> WordHidden(masked, i + 7))
  {
    forall k | 0 <= k < |KEYS| ensures IsNeedle(KEYS[k]) { KeysAreNeedles(k); }
    hide *;
    SixKeys(key);
    var keyed := MaskKeys(text, KEYS);
    AfterKeys(text, KEYS, key);
    BearerPassKeeps(keyed, 0, key);
    BearerIsLong();
    if OccursFolded(MaskBearer(keyed, 0), key, i) { MaskedThere(MaskBearer(keyed, 0), key, i); }
    if OccursFolded(MaskBearer(keyed, 0), BEARER, i) { EveryBearerHidden(keyed, 0, i); }
  }

  lemma SixKeys(key: string)
    ensures key in ["token=", "api_key=", "apikey=", "authorization=", "auth=", "header="] <==> key in KEYS
    ensures BEARER == "bearer "
  {}

  // ------------------------------------------------------------------- the log line

  const INSTRUCTIONS := "developer_instructions="

  /** `redact_cli_text_for_log`, given the masked text: instructions are replaced, long text is cut, stars included. */
  function LogLine(masked: string): string {
    if INSTRUCTIONS <= masked then INSTRUCTIONS + "<redacted " + Decimal(|masked| - |INSTRUCTIONS|) + " chars>"
    else if |masked| > 120 then masked[..60] + ("\U{2026}<" + Decimal(|masked|) + " chars>")
    else masked
  }

  /**
   What the line tells: the masked text; or its first 60 characters and its length; or, of developer instructions,
   only how long they are.
   */
  lemma LogLineTells(masked: string)
    ensures if "developer_instructions=" <= masked then
              exists count :: DecimalValue(count) == |masked| - 23
                && LogLine(masked) == "developer_instructions=<redacted " + count + " chars>"
            else if |masked| > 120 then
              exists count :: DecimalValue(count) == |masked| && LogLine(masked) == masked[..60] + "\U{2026}<" + count + " chars>"
            else LogLine(masked) == masked
  {
    hide Decimal, DecimalValue;
    var n := if INSTRUCTIONS <= masked then |masked| - |INSTRUCTIONS| else |masked|;
    DecimalRoundTrip(n);
    var count := Decimal(n);
    assert INSTRUCTIONS + "<redacted " + count + " chars>" == "developer_instructions=<redacted " + count + " chars>";
    assert masked[..if |masked| > 120 then 60 else 0] + ("\U{2026}<" + count + " chars>")
        == masked[..if |masked| > 120 then 60 else 0] + "\U{2026}<" + count + " chars>";
  }

  lemma KeyEnds(key: string)
    requires key in KEYS
    ensures |key| >= 2 && key[|key| - 1] == '=' && key[|key| - 2] != 's'
  {}

  lemma NoEquals(n: nat)
    ensures '=' !in "<redacted " + Decimal(n) + " chars>" && '=' !in "\U{2026}<" + Decimal(n) + " chars>"
  {
    assert forall c :: c in Decimal(n) ==> c != '=';
    assert '=' !in "<redacted " && '=' !in " chars>" && '=' !in "\U{2026}<";
  }

  lemma OnlyEqualsFolds(c: char)
    ensures Fold(c) == '=' <==> c == '='
    ensures Fold('s') == 's'
  {}

  /** No key ends where the replaced instructions begin, nor later. */
  lemma NoKeyInInstructions(rest: string, key: string, i: nat)
    requires key in KEYS && '=' !in rest
    ensures !OccursFolded(INSTRUCTIONS + rest, key, i)
  {
    hide OccursFolded, KEYS;
    KeyEnds(key);
    var line, last := INSTRUCTIONS + rest, i + |key| - 1;
    if OccursFolded(line, key, i) {
      OccursAt(line, key, i, last);
      OccursAt(line, key, i, last - 1);
      OnlyEqualsFolds(line[last]);
      AfterInstructions(rest, last);
    }
  }

  lemma AfterInstructions(rest: string, last: nat)
    requires '=' !in rest && last < |INSTRUCTIONS + rest|
    ensures (INSTRUCTIONS + rest)[last] == '=' ==> last == |INSTRUCTIONS| - 1 && (INSTRUCTIONS + rest)[last - 1] == 's'
  {
    var line := INSTRUCTIONS + rest;
    if last >= |INSTRUCTIONS| { assert line[last] == rest[last - |INSTRUCTIONS|]; }
    else { assert line[last] == INSTRUCTIONS[last]; }
  }

  lemma TailHasNone(head: string, tail: string, at: nat)
    requires '=' !in tail && at < |head + tail|
    ensures at >= |head| ==> (head + tail)[at] != '='
  {}

  /** A key in a text with a tail that holds no equals sign stands before the tail. */
  lemma KeyBeforeTail(head: string, tail: string, key: string, i: nat)
    requires key in KEYS && '=' !in tail && OccursFolded(head + tail, key, i)
    ensures i + |key| <= |head| && OccursFolded(head, key, i)
  {
    hide KEYS, OccursFolded;
    KeyEnds(key);
    var line, last := head + tail, i + |key| - 1;
    OccursAt(line, key, i, last);
    OnlyEqualsFolds(line[last]);
    TailHasNone(head, tail, last);
    assert (head + tail)[i..i + |key|] == head[i..i + |key|];
    OccursInWindow(line, i, head, i, key);
  }

  /** A key in the log line stands in the masked text at the same place, where its value is masked. */
  lemma LogLineMasked(text: string, key: string, i: nat)
    requires key in ["token=", "api_key=", "apikey=", "authorization=", "auth=", "header="]
    ensures forall k :: 0 <= k < |KEYS| ==> IsNeedle(KEYS[k])
    ensures var masked := MaskBearer(MaskKeys(text, KEYS), 0); var line := LogLine(masked);
            OccursFolded(line, key, i) ==>
              && i + |key| <= |masked| && i + |key| <= |line| && line[..i + |key|] == masked[..i + |key|]
              && Masked(masked, i + |key|, key)
  {
    hide KEYS, OccursFolded, MaskBearer, MaskKeys, Masked, IsNeedle, Decimal;
    EverythingMasked(text, key, i);
    SixKeys(key);
    var masked := MaskBearer(MaskKeys(text, KEYS), 0);
    var line := LogLine(masked);
    if OccursFolded(line, key, i) {
      OccursInside(line, key, i);
      if INSTRUCTIONS <= masked {
        var n := |masked| - |INSTRUCTIONS|;
        NoEquals(n);
        assert line == INSTRUCTIONS + ("<redacted " + Decimal(n) + " chars>");
        NoKeyInInstructions("<redacted " + Decimal(n) + " chars>", key, i);
      } else if |masked| > 120 {
        var tail := "\U{2026}<" + Decimal(|masked|) + " chars>";
        NoEquals(|masked|);
        KeyBeforeTail(masked[..60], tail, key, i);
        assert masked[..60][i..i + |key|] == masked[i..i + |key|];
        OccursInWindow(masked[..60], i, masked, i, key);
        assert line[..i + |key|] == masked[..i + |key|];
      }
    }
  }
}
