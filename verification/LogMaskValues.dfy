/** How far each masked value reaches, with the keys and the delimiters spelled out. */
module LogMaskValues {
  import opened JsonValues
  import opened Characters
  import opened LogMask
  import opened LogMaskAll

  /** The first occurrence of the key, in any case, from `cursor` on ends at `start`. */
  ghost predicate KeyEndsAt(text: string, key: string, cursor: nat, start: nat) {
    && cursor + |key| <= start <= |text| && OccursFolded(text, key, start - |key|)
    && forall i: nat :: cursor <= i < start - |key| ==> !OccursFolded(text, key, i)
  }

  lemma FoundThere(text: string, key: string, cursor: nat, start: nat)
    requires KeyEndsAt(text, key, cursor, start)
    ensures FindFrom(text, key, cursor) == Some(start - |key|)
  {
    hide OccursFolded;
    FindsNoLater(text, key, cursor, start - |key|);
    FindsOccurrence(text, key, cursor);
  }

  lemma AuthorizationKeys()
    ensures IsNeedle("authorization=") && IsNeedle("auth=")
  {}

  /** One turn of a pass, for a value of any kind. */
  lemma TurnIs(text: string, needle: string, cursor: nat, start: nat, v: Span)
    requires IsNeedle(needle) && KeyEndsAt(text, needle, cursor, start) && v == ValueSpan(text, start, needle)
    ensures start + v.lead + v.len <= |text|
    ensures Mask(text, needle, cursor)
         == text[cursor..start + v.lead] + (if v.len > 0 then "***" else "") + Mask(text, needle, start + v.lead + v.len)
  {
    hide *;
    KeyFits(text, needle, cursor, start);
    FoundThere(text, needle, cursor, start);
    MaskOnce(text, needle, cursor, start, v);
    HideStars(v.len);
    Stars();
  }

  lemma Stars()
    ensures STARS == "***"
  {}

  lemma MaskOnce(text: string, needle: string, cursor: nat, start: nat, v: Span)
    requires IsNeedle(needle) && cursor + |needle| <= start <= |text|
    requires FindFrom(text, needle, cursor) == Some(start - |needle|) && v == ValueSpan(text, start, needle)
    ensures start + v.lead + v.len <= |text|
    ensures Mask(text, needle, cursor)
         == text[cursor..start + v.lead] + Hide(v.len) + Mask(text, needle, start + v.lead + v.len)
  {
    hide ValueSpan, FindFrom, IsNeedle, OccursFolded, Hide;
  }

  /** A bearer value after `authorization=` or `auth=`: stars, and then the masked text from its delimiter on. */
  lemma BearerHidden(text: string, needle: string, cursor: nat, start: nat, n: nat)
    requires needle == "authorization=" || needle == "auth="
    requires KeyEndsAt(text, needle, cursor, start) && OccursFolded(text, "bearer ", start)
    requires start <= n <= |text| && (n < |text| ==> text[n] in {'&', ',', '"', '\'', '\r', '\n'})
    requires forall k :: start <= k < n ==> text[k] !in {'&', ',', '"', '\'', '\r', '\n'}
    ensures IsNeedle(needle)
    ensures Mask(text, needle, cursor) == text[cursor..start] + "***" + Mask(text, needle, n)
  {
    hide *;
    AuthorizationKeys();
    KeyFits(text, needle, cursor, start);
    assert CarriesBearer(text, start, needle) by { Carries(text, start, needle); }
    BearerReach(text, start, needle);
    TurnIs(text, needle, cursor, start, ValueSpan(text, start, needle));
  }

  lemma Carries(text: string, at: nat, needle: string)
    ensures CarriesBearer(text, at, needle) <==>
              (needle == "authorization=" || needle == "auth=") && OccursFolded(text, "bearer ", at)
  {}

  lemma KeyFits(text: string, key: string, cursor: nat, start: nat)
    requires KeyEndsAt(text, key, cursor, start)
    ensures cursor + |key| <= start <= |text|
  {}

  /** A quoted value: the quote, stars for what it encloses, and then the masked text from the closing quote on. */
  lemma QuotedHidden(text: string, needle: string, cursor: nat, start: nat, n: nat)
    requires IsNeedle(needle) && KeyEndsAt(text, needle, cursor, start)
    requires start < n <= |text| && (text[start] == '"' || text[start] == '\'') && (n < |text| ==> text[n] == text[start])
    requires forall k :: start < k < n ==> text[k] != text[start]
    ensures Mask(text, needle, cursor)
         == text[cursor..start + 1] + (if start + 1 < n then "***" else "") + Mask(text, needle, n)
  {
    hide *;
    KeyFits(text, needle, cursor, start);
    QuotedReach(text, start, needle);
    TurnIs(text, needle, cursor, start, ValueSpan(text, start, needle));
  }

  /** A bare value: stars unless it is empty, and then the masked text from its delimiter on. */
  lemma BareHidden(text: string, needle: string, cursor: nat, start: nat, n: nat)
    requires IsNeedle(needle) && KeyEndsAt(text, needle, cursor, start)
    requires !((needle == "authorization=" || needle == "auth=") && OccursFolded(text, "bearer ", start))
    requires start <= n <= |text| && (start < |text| ==> text[start] != '"' && text[start] != '\'')
    requires n < |text| ==> text[n] == '&' || text[n] == '"' || text[n] == '\'' || IsWhitespace(text[n])
    requires forall k :: start <= k < n ==> text[k] != '&' && text[k] != '"' && text[k] != '\'' && !IsWhitespace(text[k])
    ensures Mask(text, needle, cursor) == text[cursor..start] + (if start < n then "***" else "") + Mask(text, needle, n)
  {
    hide *;
    KeyFits(text, needle, cursor, start);
    Carries(text, start, needle);
    BareReach(text, start, needle);
    TurnIs(text, needle, cursor, start, ValueSpan(text, start, needle));
  }

  /** Where the key does not occur any more, the text stays. */
  lemma RestShown(text: string, needle: string, cursor: nat)
    requires IsNeedle(needle) && cursor <= |text| && forall i: nat :: cursor <= i ==> !OccursFolded(text, needle, i)
    ensures Mask(text, needle, cursor) == text[cursor..]
  {
    hide OccursFolded, IsNeedle, ValueSpan;
    if FindFrom(text, needle, cursor).Some? { FindsOccurrence(text, needle, cursor); }
    MaskEnd(text, needle, cursor);
  }

  /** The word after `bearer `: stars unless it is empty, and then the masked text from its delimiter on. */
  lemma BearerWordHidden(text: string, cursor: nat, start: nat, n: nat)
    requires KeyEndsAt(text, "bearer ", cursor, start) && start <= n <= |text|
    requires n < |text| ==> text[n] in {'&', ',', '"', '\''} || IsWhitespace(text[n])
    requires forall k :: start <= k < n ==> text[k] !in {'&', ',', '"', '\''} && !IsWhitespace(text[k])
    ensures MaskBearer(text, cursor) == text[cursor..start] + (if start < n then "***" else "") + MaskBearer(text, n)
  {
    hide *;
    BearerIs();
    KeyFits(text, BEARER, cursor, start);
    FoundThere(text, BEARER, cursor, start);
    BearerTurn(text, cursor);
    WordEndsAt(text, start, n);
    HideStars(n - start);
    Stars();
  }

  lemma BearerIs()
    ensures BEARER == "bearer " && |BEARER| == 7
  {}

  lemma WordEndsAt(text: string, start: nat, n: nat)
    requires start <= n <= |text| && (n < |text| ==> text[n] in {'&', ',', '"', '\''} || IsWhitespace(text[n]))
    requires forall k :: start <= k < n ==> text[k] !in {'&', ',', '"', '\''} && !IsWhitespace(text[k])
    ensures WordEnd(text, start) == n
  {
    hide IsWhitespace, StopFrom;
    StopsAt(text, start, EndsWord, n);
  }

  // ------------------------------------------------------------------ the header of a request

  /** No character of a word is a delimiter of the bearer branch. */
  predicate IsToken(word: string) {
    forall k :: 0 <= k < |word| ==> word[k] !in {'&', ',', '"', '\'', '\r', '\n'}
  }

  /** `Authorization=Bearer` followed by any token leaves nothing of the token. */
  lemma HeaderHidden(word: string)
    requires IsToken(word)
    ensures IsNeedle("authorization=")
    ensures Mask("Authorization=Bearer " + word, "authorization=", 0) == "Authorization=***"
  {
    hide *;
    AuthorizationKeys();
    var text := "Authorization=Bearer " + word;
    HeaderStarts(word);
    HeaderFree(word);
    BearerHidden(text, "authorization=", 0, 14, |text|);
    assert "Authorization=Bearer "[..14] == "Authorization=";
    assert text[0..14] == "Authorization=";
    FindsNothing(text, "authorization=");
    assert "Authorization=" + "***" + [] == "Authorization=***";
  }

  lemma HeaderStarts(word: string)
    ensures KeyEndsAt("Authorization=Bearer " + word, "authorization=", 0, 14)
    ensures OccursFolded("Authorization=Bearer " + word, "bearer ", 14)
  {
    var text := "Authorization=Bearer " + word;
    forall k | 0 <= k < 21 ensures text[k] == "Authorization=Bearer "[k] {}
  }

  lemma HeaderFree(word: string)
    requires IsToken(word)
    ensures IsToken("Authorization=Bearer " + word)
  {
    var head := "Authorization=Bearer ";
    assert IsToken(head);
    forall k | 0 <= k < |head + word| ensures (head + word)[k] !in {'&', ',', '"', '\'', '\r', '\n'} {
      assert (head + word)[k] == if k < |head| then head[k] else word[k - |head|];
    }
  }

  lemma FindsNothing(text: string, needle: string)
    requires IsNeedle(needle)
    ensures Mask(text, needle, |text|) == []
  {
    forall i: nat | |text| <= i ensures !OccursFolded(text, needle, i) {}
    RestShown(text, needle, |text|);
  }
}
