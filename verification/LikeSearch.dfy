/** The substring search of the memory store: LIKE patterns, row filtering and paging. */
module LikeSearch {
  import opened Characters

  // --------------------------------------------------------------------- patterns

  /** `text.replace(c, sub)`. */
  function Replace(s: string, c: char, sub: string): string {
    if s == [] then [] else (if s[0] == c then sub else [s[0]]) + Replace(s[1..], c, sub)
  }

  /** The pattern `search_like` builds. */
  function Pattern(text: string): string {
    "%" + Replace(Replace(text, '%', "\\%"), '_', "\\_") + "%"
  }

  /** SQLite's `s LIKE p ESCAPE '\'`, which folds ASCII letters. */
  predicate Like(p: string, s: string)
    decreases |p| + |s|
  {
    if p == [] then s == []
    else if p[0] == '%' then Like(p[1..], s) || (s != [] && Like(p, s[1..]))
    else if p[0] == '_' then s != [] && Like(p[1..], s[1..])
    else if p[0] == '\\' then |p| > 1 && s != [] && Fold(p[1]) == Fold(s[0]) && Like(p[2..], s[1..])
    else s != [] && Fold(p[0]) == Fold(s[0]) && Like(p[1..], s[1..])
  }

  /** What the search is for: `t` begins `s`, whatever the case. */
  predicate Begins(t: string, s: string) {
    t == [] || (s != [] && Fold(t[0]) == Fold(s[0]) && Begins(t[1..], s[1..]))
  }

  /** And: `t` occurs somewhere in `s`. */
  predicate Contains(s: string, t: string) {
    Begins(t, s) || (s != [] && Contains(s[1..], t))
  }

  /** `Contains` is the substring relation up to ASCII case. */
  lemma {:induction false} BeginsIsPrefix(t: string, s: string)
    ensures Begins(t, s) <==> |t| <= |s| && forall k :: 0 <= k < |t| ==> Fold(t[k]) == Fold(s[k])
  {
    if t != [] && s != [] {
      BeginsIsPrefix(t[1..], s[1..]);
      if |t| <= |s| && forall k :: 0 <= k < |t| ==> Fold(t[k]) == Fold(s[k]) {
        forall k | 0 <= k < |t[1..]| ensures Fold(t[1..][k]) == Fold(s[1..][k]) {
          assert Fold(t[k + 1]) == Fold(s[k + 1]);
        }
      }
      if Begins(t, s) {
        forall k | 0 <= k < |t| ensures Fold(t[k]) == Fold(s[k]) {
          if k > 0 { assert t[k] == t[1..][k - 1] && s[k] == s[1..][k - 1]; }
        }
      }
    }
  }

  lemma {:induction false} ContainsIsSubstring(s: string, t: string)
    ensures Contains(s, t) <==> exists i: nat :: i <= |s| && Begins(t, s[i..])
  {
    assert s[0..] == s;
    if s != [] {
      ContainsIsSubstring(s[1..], t);
      if i: nat :| i <= |s[1..]| && Begins(t, s[1..][i..]) {
        assert s[1..][i..] == s[i + 1..];
      }
      if i: nat :| i <= |s| && Begins(t, s[i..]) {
        if i > 0 { assert s[i..] == s[1..][i - 1..]; }
      }
    }
  }

  /** Both replacements together escape each wildcard once. */
  function Escaped(s: string): string {
    if s == [] then []
    else (if s[0] == '%' || s[0] == '_' then ['\\', s[0]] else [s[0]]) + Escaped(s[1..])
  }

  lemma {:induction false} ReplaceOver(a: string, b: string, c: char, sub: string)
    ensures Replace(a + b, c, sub) == Replace(a, c, sub) + Replace(b, c, sub)
  {
    if a == [] {
      assert a + b == b;
    } else {
      assert (a + b)[1..] == a[1..] + b;
      ReplaceOver(a[1..], b, c, sub);
    }
  }

  lemma {:induction false} PatternEscapes(text: string)
    ensures Pattern(text) == "%" + Escaped(text) + "%"
  {
    EscapedTwice(text);
  }

  lemma {:induction false} EscapedTwice(text: string)
    ensures Replace(Replace(text, '%', "\\%"), '_', "\\_") == Escaped(text)
  {
    if text != [] {
      var first := if text[0] == '%' then "\\%" else [text[0]];
      ReplaceOver(first, Replace(text[1..], '%', "\\%"), '_', "\\_");
      EscapedTwice(text[1..]);
      OneEscaped(text[0]);
    }
  }

  lemma OneEscaped(c: char)
    ensures Replace(if c == '%' then "\\%" else [c], '_', "\\_") == if c == '%' || c == '_' then ['\\', c] else [c]
  {
    if c == '%' {
      assert "\\%"[1..] == "%";
      assert "%"[1..] == [];
    } else {
      assert [c][1..] == [];
    }
  }

  /** A leading percent sign skips any prefix. */
  lemma {:induction false} PercentSkips(p: string, s: string)
    ensures Like("%" + p, s) <==> Like(p, s) || (s != [] && Like("%" + p, s[1..]))
  {
    assert ("%" + p)[1..] == p;
  }

  lemma {:induction false} PercentTakesAll(s: string)
    ensures Like("%", s)
  {
    assert "%"[1..] == [];
    if s != [] { PercentTakesAll(s[1..]); }
  }

  /** Without a backslash in it, the escaped text followed by a percent sign matches what it begins. */
  lemma {:induction false} EscapedMatchesPrefix(t: string, s: string)
    requires '\\' !in t
    ensures Like(Escaped(t) + "%", s) <==> Begins(t, s)
  {
    if t == [] {
      assert Escaped(t) + "%" == "%";
      PercentTakesAll(s);
    } else {
      var p, rest := Escaped(t) + "%", Escaped(t[1..]) + "%";
      assert '\\' !in t[1..] && t[0] in t;
      if t[0] == '%' || t[0] == '_' {
        assert p == ['\\', t[0]] + rest;
        assert p[2..] == rest;
      } else {
        assert p == [t[0]] + rest;
        assert p[1..] == rest;
      }
      if s != [] { EscapedMatchesPrefix(t[1..], s[1..]); }
    }
  }

  /** For a text without a backslash, the pattern matches exactly the strings that contain it. */
  lemma {:induction false} PatternIsSubstring(text: string, s: string)
    requires '\\' !in text
    ensures Like(Pattern(text), s) <==> Contains(s, text)
  {
    PatternEscapes(text);
    var tail := Escaped(text) + "%";
    assert "%" + Escaped(text) + "%" == "%" + tail;
    PercentSkips(tail, s);
    EscapedMatchesPrefix(text, s);
    if s != [] {
      PatternIsSubstring(text, s[1..]);
    }
  }

  // ----------------------------------------------------- the texts with a backslash

  /** A string the pattern accepts although it is not the text: what the backslashes turn the text into. */
  function Misread(t: string): string {
    if t == [] then []
    else if t[0] != '\\' then [t[0]] + Misread(t[1..])
    else if |t| == 1 then "%"
    else if t[1] == '%' then "\\" + Misread(t[2..])
    else if t[1] == '_' then "\\a" + Misread(t[2..])
    else [t[1]] + Misread(t[2..])
  }

  lemma {:induction false} MisreadMatches(t: string)
    ensures Like(Escaped(t) + "%", Misread(t))
  {
    var p, m := Escaped(t) + "%", Misread(t);
    if t == [] {
      assert p == "%";
      PercentTakesAll(m);
    } else if t[0] != '\\' {
      MisreadMatches(t[1..]);
      var rest := Escaped(t[1..]) + "%";
      assert m[1..] == Misread(t[1..]);
      if t[0] == '%' || t[0] == '_' {
        assert p == ['\\', t[0]] + rest && p[2..] == rest;
      } else {
        assert p == [t[0]] + rest && p[1..] == rest;
      }
    } else if |t| == 1 {
      assert t[1..] == [] && p == "\\%" && p[2..] == [] && m[1..] == [];
    } else {
      MisreadMatches(t[2..]);
      MisreadPair(t);
    }
  }

  lemma LikeEscaped(c: char, p: string, x: char, s: string)
    ensures Like(['\\', c] + p, [x] + s) <==> Fold(c) == Fold(x) && Like(p, s)
  {
    assert (['\\', c] + p)[2..] == p && ([x] + s)[1..] == s;
  }

  lemma LikeAnyOne(p: string, x: char, s: string)
    ensures Like(['_'] + p, [x] + s) <==> Like(p, s)
  {
    assert (['_'] + p)[1..] == p && ([x] + s)[1..] == s;
  }

  lemma EscapedPair(t: string)
    requires |t| > 1 && t[0] == '\\'
    ensures Escaped(t) == if t[1] == '%' || t[1] == '_' then ['\\'] + (['\\', t[1]] + Escaped(t[2..]))
                          else ['\\', t[1]] + Escaped(t[2..])
  {
    hide *;
    TailOfTail(t);
    EscapedFirst(t);
    EscapedFirst(t[1..]);
    TwoInFront(t[0], t[1], Escaped(t[2..]));
  }

  lemma TailOfTail(t: string)
    requires |t| > 1
    ensures t[1..][1..] == t[2..] && t[1..][0] == t[1]
  {
  }

  lemma TwoInFront(a: char, b: char, s: string)
    ensures [a] + ([b] + s) == [a, b] + s
  {
  }

  lemma EscapedFirst(t: string)
    requires t != []
    ensures Escaped(t) == (if t[0] == '%' || t[0] == '_' then ['\\', t[0]] else [t[0]]) + Escaped(t[1..])
  {
  }

  lemma MisreadIs(t: string)
    requires |t| > 1 && t[0] == '\\'
    ensures Misread(t) == if t[1] == '%' then ['\\'] + Misread(t[2..])
                          else if t[1] == '_' then ['\\'] + (['a'] + Misread(t[2..]))
                          else [t[1]] + Misread(t[2..])
  {
    assert "\\a" + Misread(t[2..]) == ['\\'] + (['a'] + Misread(t[2..]));
  }

  lemma Assoc(a: string, b: string, c: string)
    ensures a + b + c == a + (b + c)
  {}

  /** One backslash and the character after it. */
  lemma MisreadPair(t: string)
    requires |t| > 1 && t[0] == '\\' && Like(Escaped(t[2..]) + "%", Misread(t[2..]))
    ensures Like(Escaped(t) + "%", Misread(t))
  {
    hide *;
    var e, rest, more := Escaped(t[2..]), Escaped(t[2..]) + "%", Misread(t[2..]);
    EscapedPair(t);
    MisreadIs(t);
    if t[1] == '%' || t[1] == '_' {
      var wild := [t[1]] + rest;
      assert Escaped(t) + "%" == ['\\', '\\'] + wild;
      if t[1] == '%' {
        PercentSkips(rest, more);
        assert wild == "%" + rest;
        LikeEscaped('\\', wild, '\\', more);
      } else {
        LikeAnyOne(rest, 'a', more);
        LikeEscaped('\\', wild, '\\', ['a'] + more);
      }
    } else {
      Assoc(['\\', t[1]], e, "%");
      LikeEscaped(t[1], rest, t[1], more);
    }
  }

  /** The misread string is never longer than the text, and differs from it. */
  lemma {:induction false} MisreadDiffers(t: string)
    ensures |Misread(t)| <= |t|
    ensures '\\' in t ==> !Begins(t, Misread(t))
  {
    var m := Misread(t);
    if t == [] {
    } else if t[0] != '\\' {
      MisreadDiffers(t[1..]);
      assert m[1..] == Misread(t[1..]);
    } else if |t| == 1 {
    } else {
      MisreadDiffers(t[2..]);
      BeginsIsPrefix(t, m);
      if t[1] == '_' && |m| == |t| {
        assert m[1] == 'a';
      }
    }
  }

  lemma {:induction false} TooShort(s: string, t: string)
    requires |s| <= |t| && !Begins(t, s)
    ensures !Contains(s, t)
  {
    if s != [] {
      BeginsIsPrefix(t, s[1..]);
      TooShort(s[1..], t);
    }
  }

  /** The search is a substring search on every string exactly for the texts without a backslash. */
  lemma SubstringSearchExactly(text: string)
    ensures (forall s :: Like(Pattern(text), s) <==> Contains(s, text)) <==> '\\' !in text
  {
    if '\\' !in text {
      forall s ensures Like(Pattern(text), s) <==> Contains(s, text) {
        PatternIsSubstring(text, s);
      }
    } else {
      var m := Misread(text);
      PatternEscapes(text);
      var tail := Escaped(text) + "%";
      assert Pattern(text) == "%" + tail;
      PercentSkips(tail, m);
      MisreadMatches(text);
      MisreadDiffers(text);
      TooShort(m, text);
      assert Like(Pattern(text), m) && !Contains(m, text);
    }
  }

  // --------------------------------------------------------------- rows and pages

  datatype Row = Row(id: int, title: string, content: string, tags: string, deleted: bool)

  datatype Page = Page(items: seq<Row>, total: nat, hasMore: bool)

  /** The WHERE clause: `keep` stands for the optional filters of the query. */
  predicate Selected(row: Row, text: string, keep: Row -> bool) {
    && !row.deleted
    && (Like(Pattern(text), row.title) || Like(Pattern(text), row.content) || Like(Pattern(text), row.tags))
    && keep(row)
  }

  /** The selected rows, in the order the table is sorted in. */
  function Matching(rows: seq<Row>, text: string, keep: Row -> bool): seq<Row> {
    if rows == [] then []
    else (if Selected(rows[0], text, keep) then [rows[0]] else []) + Matching(rows[1..], text, keep)
  }

  function PageOf(matching: seq<Row>, limit: nat, offset: nat): Page {
    var from := if offset <= |matching| then offset else |matching|;
    var to := if from + limit <= |matching| then from + limit else |matching|;
    Page(matching[from..to], |matching|, |matching| > offset + (to - from))
  }

  /** `search_like` over a table in a fixed total order. */
  method SearchLike(rows: seq<Row>, text: string, keep: Row -> bool, limit: nat, offset: nat) returns (page: Page)
    ensures page == PageOf(Matching(rows, text, keep), limit, offset)
    ensures page.total == |Matching(rows, text, keep)| && |page.items| <= limit
    ensures page.hasMore <==> offset + |page.items| < page.total
    ensures |page.items| == limit || offset + |page.items| >= page.total
    ensures forall k :: 0 <= k < |page.items| ==>
              offset + k < page.total && page.items[k] == Matching(rows, text, keep)[offset + k]
  {
    var matching: seq<Row> := [];
    var i := 0;
    assert rows[0..] == rows;
    while i < |rows|
      invariant i <= |rows| && matching + Matching(rows[i..], text, keep) == Matching(rows, text, keep)
    {
      MatchNext(rows, i, text, keep, matching);
      if Selected(rows[i], text, keep) { matching := matching + [rows[i]]; }
      i := i + 1;
    }
    page := TakePage(matching, limit, offset);
  }

  /** LIMIT and OFFSET, and the loop that pushes the rows into the result. */
  method TakePage(matching: seq<Row>, limit: nat, offset: nat) returns (page: Page)
    ensures page == PageOf(matching, limit, offset)
    ensures page.total == |matching| && |page.items| <= limit && (page.hasMore <==> offset + |page.items| < |matching|)
    ensures |page.items| == limit || offset + |page.items| >= |matching|
    ensures forall k :: 0 <= k < |page.items| ==> offset + k < |matching| && page.items[k] == matching[offset + k]
  {
    var items: seq<Row> := [];
    if offset < |matching| {
      var at := offset;
      while at < |matching| && |items| < limit
        invariant offset <= at == offset + |items| <= |matching| && |items| <= limit
        invariant items == matching[offset..at]
      {
        assert matching[offset..at + 1] == matching[offset..at] + [matching[at]];
        items, at := items + [matching[at]], at + 1;
      }
    }
    page := Page(items, |matching|, |matching| > offset + |items|);
  }

  lemma MatchNext(rows: seq<Row>, i: nat, text: string, keep: Row -> bool, found: seq<Row>)
    requires i < |rows|
    ensures found + Matching(rows[i..], text, keep)
         == (if Selected(rows[i], text, keep) then found + [rows[i]] else found) + Matching(rows[i + 1..], text, keep)
  {
    hide Selected;
    assert rows[i..][1..] == rows[i + 1..];
  }

  /** `out` is the table at the positions `at`, in its order; from `from` on exactly these are selected. */
  ghost predicate PicksFrom(rows: seq<Row>, text: string, keep: Row -> bool, from: nat, at: seq<nat>, out: seq<Row>) {
    && |at| == |out|
    && (forall k :: 0 <= k < |at| ==> from <= at[k] < |rows| && rows[at[k]] == out[k])
    && (forall k, l :: 0 <= k < l < |at| ==> at[k] < at[l])
    && (forall i: nat :: from <= i < |rows| ==> (i in at <==> Selected(rows[i], text, keep)))
  }

  lemma PicksOneMore(rows: seq<Row>, text: string, keep: Row -> bool, from: nat, at: seq<nat>, out: seq<Row>)
    requires from < |rows| && PicksFrom(rows, text, keep, from + 1, at, out)
    ensures if Selected(rows[from], text, keep) then PicksFrom(rows, text, keep, from, [from] + at, [rows[from]] + out)
            else PicksFrom(rows, text, keep, from, at, out)
  {
    hide Selected;
    var all, shown := [from] + at, [rows[from]] + out;
    forall k | 0 <= k < |all| ensures from <= all[k] < |rows| && rows[all[k]] == shown[k] {
      if k > 0 { assert all[k] == at[k - 1] && shown[k] == out[k - 1]; }
    }
    forall k, l | 0 <= k < l < |all| ensures all[k] < all[l] {
      assert all[l] == at[l - 1];
      if k > 0 { assert all[k] == at[k - 1]; }
    }
    InFront(from, at);
    AllLater(from, at);
  }

  lemma AllLater(from: nat, at: seq<nat>)
    ensures (forall k :: 0 <= k < |at| ==> from < at[k]) ==> from !in at
  {}

  lemma InFront(first: nat, at: seq<nat>)
    ensures forall i :: i in [first] + at <==> i == first || i in at
  {}

  lemma {:induction false} MatchingFrom(rows: seq<Row>, text: string, keep: Row -> bool, from: nat) returns (at: seq<nat>)
    requires from <= |rows|
    ensures PicksFrom(rows, text, keep, from, at, Matching(rows[from..], text, keep))
    decreases |rows| - from
  {
    hide Selected, PicksFrom, Matching;
    if from == |rows| {
      NonePicked(rows, text, keep);
      at := [];
    } else {
      at := MatchingFrom(rows, text, keep, from + 1);
      PicksOneMore(rows, text, keep, from, at, Matching(rows[from + 1..], text, keep));
      MatchNext(rows, from, text, keep, []);
      var more := Matching(rows[from + 1..], text, keep);
      assert [] + [rows[from]] + more == [rows[from]] + more && [] + more == more;
      assert [] + Matching(rows[from..], text, keep) == Matching(rows[from..], text, keep);
      at := if Selected(rows[from], text, keep) then [from] + at else at;
    }
  }

  lemma NonePicked(rows: seq<Row>, text: string, keep: Row -> bool)
    ensures PicksFrom(rows, text, keep, |rows|, [], Matching(rows[|rows|..], text, keep))
  {}

  /** The rows selected are those of the table at certain positions, in its order and each once, and no others are. */
  lemma MatchingInOrder(rows: seq<Row>, text: string, keep: Row -> bool) returns (at: seq<nat>)
    ensures |at| == |Matching(rows, text, keep)|
    ensures forall k :: 0 <= k < |at| ==> at[k] < |rows| && rows[at[k]] == Matching(rows, text, keep)[k]
    ensures forall k, l :: 0 <= k < l < |at| ==> at[k] < at[l]
    ensures forall i: nat :: i < |rows| ==> (i in at <==> Selected(rows[i], text, keep))
  {
    hide Selected, Matching;
    at := MatchingFrom(rows, text, keep, 0);
    assert rows[0..] == rows;
  }

  /** Following `has_more` by one page size at a time. */
  function Walk(matching: seq<Row>, limit: nat, offset: nat): seq<Row>
    requires limit > 0
    decreases |matching| - offset
  {
    var page := PageOf(matching, limit, offset);
    if page.hasMore then page.items + Walk(matching, limit, offset + limit) else page.items
  }

  /** The walk returns every row from its start on exactly once, in order. */
  lemma {:induction false} WalkIsComplete(matching: seq<Row>, limit: nat, offset: nat)
    requires limit > 0 && offset <= |matching|
    ensures Walk(matching, limit, offset) == matching[offset..]
    decreases |matching| - offset
  {
    if offset + limit < |matching| {
      WalkIsComplete(matching, limit, offset + limit);
      assert matching[offset..offset + limit] + matching[offset + limit..] == matching[offset..];
    } else {
      assert matching[offset..|matching|] == matching[offset..];
    }
  }

  /** A page promises more without making progress exactly when its size is zero and rows are left. */
  lemma StuckExactly(matching: seq<Row>, limit: nat, offset: nat)
    ensures var page := PageOf(matching, limit, offset);
            page.hasMore && page.items == [] <==> limit == 0 && offset < |matching|
  {}

  /** Membership in the walk, for texts without a backslash: undeleted rows that contain the text. */
  lemma {:induction false} MatchingIsSelection(rows: seq<Row>, text: string, keep: Row -> bool, row: Row)
    requires '\\' !in text
    ensures row in Matching(rows, text, keep) <==>
            && row in rows && !row.deleted && keep(row)
            && (Contains(row.title, text) || Contains(row.content, text) || Contains(row.tags, text))
  {
    PatternIsSubstring(text, row.title);
    PatternIsSubstring(text, row.content);
    PatternIsSubstring(text, row.tags);
    if rows != [] {
      MatchingIsSelection(rows[1..], text, keep, row);
    }
  }
}
