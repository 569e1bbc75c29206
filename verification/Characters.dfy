/** Character classes and searches on strings, as the Rust standard library defines them. */
module Characters {
  import opened JsonValues

  /** `char::to_ascii_lowercase`. */
  function Fold(c: char): char {
    if 'A' <= c <= 'Z' then c - 'A' + 'a' else c
  }

  /** `char::is_whitespace`: the Unicode property White_Space. */
  predicate IsWhitespace(c: char) {
    || '\t' <= c <= '\r' || c == ' ' || c == '\U{85}' || c == '\U{A0}' || c == '\U{1680}'
    || '\U{2000}' <= c <= '\U{200A}' || c == '\U{2028}' || c == '\U{2029}' || c == '\U{202F}'
    || c == '\U{205F}' || c == '\U{3000}'
  }

  /** `needle` (in lower case) occurs in `s` at `i`, whatever the case of `s`. */
  predicate OccursFolded(s: string, needle: string, i: nat) {
    i + |needle| <= |s| && forall k :: 0 <= k < |needle| ==> Fold(s[i + k]) == needle[k]
  }

  lemma SubSlice(s: string, a: nat, b: nat, c: nat, d: nat)
    requires a <= b <= |s| && c <= d <= b - a
    ensures s[a..b][c..d] == s[a + c..a + d]
  {
    var l, r := s[a..b][c..d], s[a + c..a + d];
    forall k | 0 <= k < |l| ensures l[k] == r[k] {
      assert s[a..b][c + k] == s[a + (c + k)];
    }
    assert l == r;
  }

  /** Whether the needle occurs depends on the window alone. */
  lemma OccursInWindow(s: string, i: nat, t: string, j: nat, needle: string)
    requires i + |needle| <= |s| && j + |needle| <= |t| && s[i..i + |needle|] == t[j..j + |needle|]
    ensures OccursFolded(s, needle, i) <==> OccursFolded(t, needle, j)
  {
    forall k | 0 <= k < |needle| ensures Fold(s[i + k]) == needle[k] <==> Fold(t[j + k]) == needle[k] {
      assert s[i..i + |needle|][k] == t[j..j + |needle|][k];
    }
  }

  /** `s.to_ascii_lowercase().find(needle)`, searching from `from` on. */
  function FindFrom(s: string, needle: string, from: nat): (r: Option<nat>)
    ensures r.Some? ==> from <= r.value && r.value + |needle| <= |s|
    decreases |s| - from
  {
    if OccursFolded(s, needle, from) then Some(from)
    else if from >= |s| then None
    else FindFrom(s, needle, from + 1)
  }

  /** The search finds an occurrence, if anything. */
  lemma {:induction false} FindsOccurrence(s: string, needle: string, from: nat)
    requires FindFrom(s, needle, from).Some?
    ensures OccursFolded(s, needle, FindFrom(s, needle, from).value)
    decreases |s| - from
  {
    if !OccursFolded(s, needle, from) {
      FindsOccurrence(s, needle, from + 1);
    }
  }

  /** Whatever occurs is found, or something before it. */
  lemma {:induction false} FindsNoLater(s: string, needle: string, from: nat, i: nat)
    requires from <= i && OccursFolded(s, needle, i)
    ensures FindFrom(s, needle, from).Some? && FindFrom(s, needle, from).value <= i
    decreases |s| - from
  {
    if !OccursFolded(s, needle, from) {
      assert from < |s| by { assert i + |needle| <= |s|; }
      FindsNoLater(s, needle, from + 1, i);
    }
  }

  /** The first position from `from` on whose character satisfies `stop`, or the end of the text. */
  function StopFrom(s: string, from: nat, stop: char -> bool): (n: nat)
    requires from <= |s|
    ensures from <= n <= |s| && (n < |s| ==> stop(s[n]))
    ensures forall k :: from <= k < n ==> !stop(s[k])
    decreases |s| - from
  {
    if from == |s| || stop(s[from]) then from else StopFrom(s, from + 1, stop)
  }

  /** Where the first stop is decides the search. */
  lemma {:induction false} StopsAt(s: string, from: nat, stop: char -> bool, at: nat)
    requires from <= at <= |s| && (at < |s| ==> stop(s[at])) && forall k :: from <= k < at ==> !stop(s[k])
    ensures StopFrom(s, from, stop) == at
    decreases at - from
  {
    if from < at { StopsAt(s, from + 1, stop, at); }
  }

  predicate IsDigits(s: string) { s != [] && forall c :: c in s ==> '0' <= c <= '9' }

  function Decimal(n: nat): (s: string)
    ensures IsDigits(s)
  {
    var digit := '0' + (n % 10) as char;
    if n < 10 then [digit] else Decimal(n / 10) + [digit]
  }

  function Digit(c: char): nat { if '0' <= c <= '9' then (c - '0') as nat else 0 }

  function DecimalValue(s: string): nat {
    if s == [] then 0 else 10 * DecimalValue(s[..|s| - 1]) + Digit(s[|s| - 1])
  }

  lemma {:induction false} DecimalRoundTrip(n: nat)
    ensures DecimalValue(Decimal(n)) == n
  {
    var s := Decimal(n);
    if n >= 10 {
      DecimalRoundTrip(n / 10);
      assert s[..|s| - 1] == Decimal(n / 10);
    } else {
      assert s[..0] == "";
    }
  }
}
