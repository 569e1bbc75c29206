/** Masking the secret values of `key=value` assignments before text reaches the log. */
module LogMask {
  import opened JsonValues
  import opened Characters

  const STARS := "***"

  /** The keys searched for: lower-case letters and underscores, closed by an equals sign. */
  predicate IsNeedle(needle: string): (b: bool)
    ensures b ==> |needle| > 0
  {
    && |needle| > 0 && needle[|needle| - 1] == '='
    && forall k :: 0 <= k < |needle| - 1 ==> 'a' <= needle[k] <= 'z' || needle[k] == '_'
  }

  predicate TakesBearer(needle: string) {
    needle == "authorization=" || needle == "auth="
  }

  predicate IsQuote(c: char) { c == '\'' || c == '"' }

  function Is(quote: char): char -> bool { c => c == quote }

  predicate EndsBare(c: char) { c == '&' || IsQuote(c) || IsWhitespace(c) }

  predicate EndsBearer(c: char) { c == '&' || c == ',' || IsQuote(c) || c == '\r' || c == '\n' }

  /** The value after a needle: `lead` characters kept (an opening quote), then `len` characters hidden. */
  datatype Span = Span(lead: nat, len: nat)

  predicate BearerAt(text: string, at: nat, needle: string) {
    TakesBearer(needle) && OccursFolded(text, "bearer ", at)
  }

  function ValueSpan(text: string, at: nat, needle: string): (v: Span)
    requires at <= |text|
    ensures at + v.lead + v.len <= |text|
  {
    if BearerAt(text, at, needle) then Span(0, StopFrom(text, at, EndsBearer) - at)
    else if at < |text| && IsQuote(text[at]) then Span(1, StopFrom(text, at + 1, Is(text[at])) - (at + 1))
    else Span(0, StopFrom(text, at, EndsBare) - at)
  }

  function Hide(len: nat): string {
    if len > 0 then STARS else ""
  }

  /** The masked form of the text from `cursor` on. */
  function Mask(text: string, needle: string, cursor: nat): string
    requires IsNeedle(needle) && cursor <= |text|
    decreases |text| - cursor
  {
    match FindFrom(text, needle, cursor)
    case None => text[cursor..]
    case Some(p) =>
      var start := p + |needle|;
      var v := ValueSpan(text, start, needle);
      text[cursor..start + v.lead] + Hide(v.len) + Mask(text, needle, start + v.lead + v.len)
  }

  lemma Join(text: string, i: nat, j: nat, k: nat)
    requires i <= j <= k <= |text|
    ensures text[i..j] + text[j..k] == text[i..k]
  {}

  lemma Regroup(a: string, b: string, c: string, d: string, e: string)
    ensures a + ((b + c) + d + e) == (a + b + c + d) + e
  {}

  /** What one turn appends to the output. */
  lemma MaskTurn(text: string, needle: string, cursor: nat, start: nat, v: Span, out: string)
    requires IsNeedle(needle) && cursor <= |text| && FindFrom(text, needle, cursor).Some?
    requires start == FindFrom(text, needle, cursor).value + |needle| && v == ValueSpan(text, start, needle)
    ensures (out + text[cursor..start] + text[start..start + v.lead] + Hide(v.len))
              + Mask(text, needle, start + v.lead + v.len)
         == out + Mask(text, needle, cursor)
  {
    hide ValueSpan, FindFrom, IsNeedle;
    Join(text, cursor, start, start + v.lead);
    Regroup(out, text[cursor..start], text[start..start + v.lead], Hide(v.len),
            Mask(text, needle, start + v.lead + v.len));
  }

  lemma MaskEnd(text: string, needle: string, cursor: nat)
    requires IsNeedle(needle) && cursor <= |text| && FindFrom(text, needle, cursor).None?
    ensures Mask(text, needle, cursor) == text[cursor..]
  {}

  lemma BearerLength(text: string, at: nat)
    requires OccursFolded(text, "bearer ", at)
    ensures StopFrom(text, at, EndsBearer) > at
  {
    assert Fold(text[at + 0]) == "bearer "[0];
  }

  /** `mask_assignment_values`: one forward pass with a cursor. */
  method MaskAssignmentValues(text: string, needle: string) returns (out: string)
    requires IsNeedle(needle)
    ensures out == Mask(text, needle, 0)
  {
    hide *;
    out := "";
    var cursor := 0;
    while true
      invariant cursor <= |text|
      invariant out + Mask(text, needle, cursor) == Mask(text, needle, 0)
      decreases |text| - cursor
    {
      var found := FindFrom(text, needle, cursor);
      if found.None? { break; }
      var valueStart := found.value + |needle|;
      MaskTurn(text, needle, cursor, valueStart, ValueSpan(text, valueStart, needle), out);
      out, cursor := Value(text, needle, out + text[cursor..valueStart], valueStart);
    }
    MaskEnd(text, needle, cursor);
    out := out + text[cursor..];
  }

  /** `bearer ` follows one of the two keys that may carry it, in any case. */
  predicate CarriesBearer(text: string, at: nat, needle: string) {
    (needle == "authorization=" || needle == "auth=") && OccursFolded(text, "bearer ", at)
  }

  /** A bearer value reaches to the first ampersand, comma, quote or line break. */
  lemma BearerReach(text: string, at: nat, needle: string)
    requires at <= |text| && CarriesBearer(text, at, needle)
    ensures var v := ValueSpan(text, at, needle); var end := at + v.lead + v.len;
            && v.lead == 0 && v.len > 0 && (end < |text| ==> text[end] in {'&', ',', '"', '\'', '\r', '\n'})
            && forall k :: at <= k < end ==> text[k] !in {'&', ',', '"', '\'', '\r', '\n'}
  {
    BearerLength(text, at);
    hide OccursFolded;
  }

  /** A quoted value reaches to the same quote. */
  lemma QuotedReach(text: string, at: nat, needle: string)
    requires at < |text| && (text[at] == '"' || text[at] == '\'')
    ensures var v := ValueSpan(text, at, needle); var end := at + v.lead + v.len;
            && v.lead == 1 && (end < |text| ==> text[end] == text[at])
            && forall k :: at < k < end ==> text[k] != text[at]
  {
    hide OccursFolded;
    Reach(text, at, needle);
  }

  /** Any other value reaches to the first ampersand, quote or white space. */
  lemma BareReach(text: string, at: nat, needle: string)
    requires at <= |text| && !CarriesBearer(text, at, needle) && (at < |text| ==> text[at] != '"' && text[at] != '\'')
    ensures var v := ValueSpan(text, at, needle); var end := at + v.lead + v.len;
            && v.lead == 0
            && (end < |text| ==> text[end] == '&' || text[end] == '"' || text[end] == '\'' || IsWhitespace(text[end]))
            && forall k :: at <= k < end ==>
                 text[k] != '&' && text[k] != '"' && text[k] != '\'' && !IsWhitespace(text[k])
  {
    hide OccursFolded, IsWhitespace;
  }

  lemma Reach(text: string, at: nat, needle: string)
    requires at <= |text|
    ensures CarriesBearer(text, at, needle) <==> BearerAt(text, at, needle)
    ensures CarriesBearer(text, at, needle) ==> at < |text| && text[at] != '"' && text[at] != '\''
  {
    if OccursFolded(text, "bearer ", at) { assert Fold(text[at + 0]) == "bearer "[0]; }
    hide OccursFolded;
  }

  /**
   The part of a turn that reads one value: stars stand for a bearer value, for what is between the quotes, and for a
   bare value, the last two unless empty.
   */
  method Value(text: string, needle: string, before: string, valueStart: nat) returns (out: string, cursor: nat)
    requires valueStart <= |text|
    ensures valueStart <= cursor <= |text|
    ensures CarriesBearer(text, valueStart, needle) ==>
              && out == before + "***" && (cursor < |text| ==> text[cursor] in {'&', ',', '"', '\'', '\r', '\n'})
              && forall k :: valueStart <= k < cursor ==> text[k] !in {'&', ',', '"', '\'', '\r', '\n'}
    ensures valueStart < |text| && (text[valueStart] == '"' || text[valueStart] == '\'') ==>
              && out == before + [text[valueStart]] + (if cursor > valueStart + 1 then "***" else "")
              && cursor > valueStart && (cursor < |text| ==> text[cursor] == text[valueStart])
              && forall k :: valueStart < k < cursor ==> text[k] != text[valueStart]
    ensures !CarriesBearer(text, valueStart, needle)
            && (valueStart < |text| ==> text[valueStart] != '"' && text[valueStart] != '\'') ==>
              && out == before + (if cursor > valueStart then "***" else "")
              && (cursor < |text| ==>
                    text[cursor] == '&' || text[cursor] == '"' || text[cursor] == '\'' || IsWhitespace(text[cursor]))
              && forall k :: valueStart <= k < cursor ==>
                   text[k] != '&' && text[k] != '"' && text[k] != '\'' && !IsWhitespace(text[k])
    ensures var v := ValueSpan(text, valueStart, needle);
            && out == before + text[valueStart..valueStart + v.lead] + Hide(v.len)
            && cursor == valueStart + v.lead + v.len
  {
    hide OccursFolded, IsWhitespace;
    Reach(text, valueStart, needle);
    if BearerAt(text, valueStart, needle) {
      BearerLength(text, valueStart);
      return before + STARS, StopFrom(text, valueStart, EndsBearer);
    }
    if valueStart < |text| && IsQuote(text[valueStart]) {
      cursor := StopFrom(text, valueStart + 1, Is(text[valueStart]));
      out := before + [text[valueStart]];
      if cursor > valueStart + 1 { out := out + STARS; }
      assert text[valueStart..valueStart + 1] == [text[valueStart]];
      assert ValueSpan(text, valueStart, needle) == Span(1, cursor - (valueStart + 1));
      return;
    }
    cursor := StopFrom(text, valueStart, EndsBare);
    out := before;
    if cursor > valueStart { out := out + STARS; }
    assert ValueSpan(text, valueStart, needle) == Span(0, cursor - valueStart);
  }
}
