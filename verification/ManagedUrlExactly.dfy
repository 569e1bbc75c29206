/** Which URLs are taken for the program's own: the recogniser described by positions in the URL instead of by splitting. */
module ManagedUrlExactly {
  import opened JsonValues
  import opened Characters
  import opened ManagedUrl
  import opened ManagedServers

  // ------------------------------------------------------------------- the shape

  /** `n` is the first position from `from` on with this character, or the end. */
  predicate FirstAt(s: string, from: nat, n: nat, c: char) {
    from <= n <= |s| && (forall k :: from <= k < n ==> s[k] != c) && (n == |s| || s[n] == c)
  }

  /** The authority ends before the first slash, question mark or hash. */
  predicate AuthorityEnd(after: string, n: nat) {
    n <= |after| && (forall k :: 0 <= k < n ==> !EndsAuthority(after[k])) && (n == |after| || EndsAuthority(after[n]))
  }

  /** The host is what follows the last `@`: inside brackets, or up to the first colon. */
  predicate HostAt(authority: string, p: nat, h: nat, g: nat) {
    && p <= |authority| && (p == 0 || authority[p - 1] == '@') && (forall k :: p <= k < |authority| ==> authority[k] != '@')
    && if p < |authority| && authority[p] == '[' then h == p + 1 && FirstAt(authority, h, g, ']')
       else h == p && FirstAt(authority, h, g, ':')
  }

  ghost predicate LoopbackAuthority(authority: string) {
    exists p: nat, h: nat, g: nat :: HostAt(authority, p, h, g) && IsLoopback(Lower(authority[h..g]))
  }

  /** The query begins after the first question mark, even one behind a hash, and ends before the next hash. */
  predicate QueryAt(rest: string, q: nat, e: nat) {
    q < |rest| && FirstAt(rest, 0, q, '?') && FirstAt(rest, q + 1, e, '#')
  }

  /** A key `token` stands at `t`, between ampersands or ends, with a value or without. */
  predicate TokenAt(query: string, t: nat) {
    && t + 5 <= |query| && query[t..t + 5] == "token" && (t == 0 || query[t - 1] == '&')
    && (t + 5 == |query| || query[t + 5] == '=' || query[t + 5] == '&')
  }

  ghost predicate HoldsToken(query: string) { exists t: nat :: TokenAt(query, t) }

  ghost predicate TokenInQuery(rest: string) {
    exists q: nat, e: nat :: QueryAt(rest, q, e) && HoldsToken(rest[q + 1..e])
  }

  predicate Stripped(url: string, after: string) { url == "http://" + after || url == "https://" + after }

  ghost predicate TakenForOwn(url: string) {
    exists after, n: nat :: Stripped(url, after) && n <= |after| && AuthorityEnd(after, n)
      && LoopbackAuthority(after[..n]) && "/mcp" <= after[n..] && TokenInQuery(after[n..])
  }

  // -------------------------------------------------------------- splitting by position

  lemma {:induction false} BeforeIs(s: string, stop: char -> bool, n: nat)
    requires n <= |s| && (forall k :: 0 <= k < n ==> !stop(s[k])) && (n == |s| || stop(s[n]))
    ensures Before(s, stop) == s[..n]
  {
    if n > 0 {
      assert forall k :: 0 <= k < n - 1 ==> s[1..][k] == s[k + 1];
      BeforeIs(s[1..], stop, n - 1);
      assert s[..n] == [s[0]] + s[1..][..n - 1];
    }
  }

  lemma {:induction false} BeforeGives(s: string, stop: char -> bool) returns (n: nat)
    ensures n <= |s| && (forall k :: 0 <= k < n ==> !stop(s[k])) && (n == |s| || stop(s[n]))
    ensures Before(s, stop) == s[..n]
  {
    if s == [] || stop(s[0]) {
      n := 0;
    } else {
      var m := BeforeGives(s[1..], stop);
      n := m + 1;
      forall k | 0 <= k < n ensures !stop(s[k]) { if k > 0 { assert s[k] == s[1..][k - 1]; } }
      assert s[..n] == [s[0]] + s[1..][..m];
    }
  }

  /** The first position of a character from `from` on. */
  lemma FirstGives(s: string, from: nat, c: char) returns (n: nat)
    requires from <= |s|
    ensures FirstAt(s, from, n, c)
    decreases |s| - from
  {
    if from == |s| || s[from] == c { n := from; } else { n := FirstGives(s, from + 1, c); }
  }

  /** What `Before` cuts off a tail, by position in the whole. */
  lemma BeforeInTail(s: string, from: nat, n: nat, c: char)
    requires FirstAt(s, from, n, c)
    ensures Before(s[from..], One(c)) == s[from..n]
  {
    var tail := s[from..];
    forall k | 0 <= k < n - from ensures !One(c)(tail[k]) { assert tail[k] == s[from + k]; }
    BeforeIs(tail, One(c), n - from);
    assert tail[..n - from] == s[from..n];
  }

  lemma {:induction false} AfterFirstIs(s: string, c: char, q: nat)
    requires q < |s| && FirstAt(s, 0, q, c)
    ensures AfterFirst(s, c) == s[q + 1..]
  {
    if q > 0 {
      assert forall k :: 0 <= k < q - 1 ==> s[1..][k] == s[k + 1];
      AfterFirstIs(s[1..], c, q - 1);
      assert s[1..][q..] == s[q + 1..];
    }
  }

  lemma {:induction false} AfterLastGives(s: string, c: char) returns (p: nat)
    ensures p <= |s| && (p == 0 || s[p - 1] == c) && (forall k :: p <= k < |s| ==> s[k] != c)
    ensures AfterLast(s, c) == s[p..] && (c in s ==> p > 0)
  {
    if s == [] {
      p := 0;
    } else if c in s[1..] {
      var m := AfterLastGives(s[1..], c);
      p := m + 1;
      forall k | p <= k < |s| ensures s[k] != c { assert s[k] == s[1..][k - 1]; }
      assert s[1..][m..] == s[p..];
    } else {
      p := if s[0] == c then 1 else 0;
      forall k | p <= k < |s| ensures s[k] != c { if k > 0 { assert s[k] == s[1..][k - 1]; } }
    }
  }

  /** The position after the last `@` is unique. */
  lemma HostIs(authority: string, p: nat, h: nat, g: nat)
    requires HostAt(authority, p, h, g)
    ensures HostOf(authority) == authority[h..g]
  {
    var last := AfterLastGives(authority, '@');
    assert last == p;
    var hostPort := authority[p..];
    assert "[" <= hostPort <==> p < |authority| && authority[p] == '[';
    if p < |authority| && authority[p] == '[' {
      assert hostPort[1..] == authority[h..];
      BeforeInTail(authority, h, g, ']');
    } else {
      BeforeInTail(authority, h, g, ':');
    }
  }

  lemma HostGives(authority: string) returns (p: nat, h: nat, g: nat)
    ensures HostAt(authority, p, h, g)
  {
    p := AfterLastGives(authority, '@');
    if p < |authority| && authority[p] == '[' {
      h := p + 1;
      g := FirstGives(authority, h, ']');
    } else {
      h := p;
      g := FirstGives(authority, h, ':');
    }
  }

  lemma LoopbackExactly(authority: string)
    ensures LoopbackAuthority(authority) <==> IsLoopback(Lower(HostOf(authority)))
  {
    hide HostOf, Lower, IsLoopback, HostAt;
    var p, h, g := HostGives(authority);
    HostIs(authority, p, h, g);
    HostInside(authority, p, h, g);
    forall p': nat, h': nat, g': nat | HostAt(authority, p', h', g') ensures h' <= g' <= |authority| && HostOf(authority) == authority[h'..g'] {
      HostInside(authority, p', h', g');
      HostIs(authority, p', h', g');
    }
  }

  lemma HostInside(authority: string, p: nat, h: nat, g: nat)
    requires HostAt(authority, p, h, g)
    ensures h <= g <= |authority|
  {}

  // ---------------------------------------------------------------------- the token

  lemma TokenLater(query: string, m: nat, t: nat)
    requires m < |query| && query[m] == '&' && (forall k :: 0 <= k < m ==> query[k] != '&')
    ensures TokenAt(query, m + 1 + t) <==> TokenAt(query[m + 1..], t)
  {
    var rest := query[m + 1..];
    if t + 5 <= |rest| {
      assert rest[t..t + 5] == query[m + 1 + t..m + 1 + t + 5];
      assert t > 0 ==> rest[t - 1] == query[m + 1 + t - 1];
      assert t + 5 < |rest| ==> rest[t + 5] == query[m + 1 + t + 5];
    }
  }

  /** The first part holds the key exactly when it starts with it. */
  lemma TokenFirst(query: string, m: nat)
    requires m <= |query| && (forall k :: 0 <= k < m ==> query[k] != '&') && (m == |query| || query[m] == '&')
    ensures (query[..m] != "" && Before(query[..m], One('=')) == "token") <==> TokenAt(query, 0)
    ensures forall t: nat :: TokenAt(query, t) ==> t == 0 || t > m
  {
    var part := query[..m];
    var n := BeforeGives(part, One('='));
    assert query[0..n] == part[..n];
    if TokenAt(query, 0) {
      forall k | 0 <= k < 5 ensures query[k] == "token"[k] { assert query[0..5][k] == query[k]; }
      assert m >= 5;
      forall k | 0 <= k < 5 ensures !One('=')(part[k]) { assert part[k] == query[k]; }
      BeforeIs(part, One('='), 5);
      assert part[..5] == query[0..5];
    }
    if part != "" && Before(part, One('=')) == "token" {
      assert n == 5 && query[0..5] == "token";
    }
  }

  lemma {:induction false} TokenExactly(query: string)
    ensures HasToken(query) <==> HoldsToken(query)
    decreases |query|
  {
    hide TokenAt;
    var m := BeforeGives(query, One('&'));
    TokenFirst(query, m);
    if m < |query| {
      var rest := query[m + 1..];
      TokenExactly(rest);
      if HoldsToken(rest) {
        var t: nat :| TokenAt(rest, t);
        TokenLater(query, m, t);
      }
      if HoldsToken(query) && !TokenAt(query, 0) {
        var t: nat :| TokenAt(query, t);
        TokenLater(query, m, t - m - 1);
      }
    } else {
      forall t: nat | TokenAt(query, t) ensures t == 0 { TokenInside(query, t); }
    }
  }

  lemma TokenInside(query: string, t: nat)
    requires TokenAt(query, t)
    ensures t + 5 <= |query|
  {}

  lemma QueryIs(rest: string, q: nat, e: nat)
    requires QueryAt(rest, q, e)
    ensures QueryOf(rest) == rest[q + 1..e] && '?' in rest
  {
    AfterFirstIs(rest, '?', q);
    BeforeInTail(rest, q + 1, e, '#');
  }

  lemma TokenInQueryExactly(rest: string)
    ensures TokenInQuery(rest) <==> HasToken(QueryOf(rest))
  {
    hide HasToken, QueryOf, HoldsToken;
    forall q: nat, e: nat | QueryAt(rest, q, e) ensures q < e <= |rest| && QueryOf(rest) == rest[q + 1..e] {
      QueryIs(rest, q, e);
    }
    TokenExactly(QueryOf(rest));
    var q := FirstGives(rest, 0, '?');
    if q < |rest| {
      var e := FirstGives(rest, q + 1, '#');
      assert QueryAt(rest, q, e);
    } else {
      NoQuery(rest);
    }
  }

  lemma NoQuery(rest: string)
    requires forall k :: 0 <= k < |rest| ==> rest[k] != '?'
    ensures QueryOf(rest) == "" && !HasToken("")
  {
    BeforeIs("", One('&'), 0);
  }

  // --------------------------------------------------------------------- the whole URL

  lemma SchemeExactly(url: string, after: string)
    ensures AfterScheme(url) == Some(after) <==> Stripped(url, after)
  {
    if "http://" <= url { assert url == "http://" + url[7..] && url[4] == ':'; }
    if "https://" <= url { assert url == "https://" + url[8..] && url[4] == 's'; }
    if url == "http://" + after { assert url[7..] == after; }
    if url == "https://" + after { assert url[8..] == after && url[4] == 's'; }
  }

  lemma PathExactly(rest: string)
    ensures "/mcp" <= Before(rest, EndsPath) <==> "/mcp" <= rest
  {
    var n := BeforeGives(rest, EndsPath);
    if "/mcp" <= rest {
      assert forall k :: 0 <= k < 4 ==> rest[k] == "/mcp"[k];
      assert n >= 4;
      assert rest[..n][..4] == rest[..4];
    }
    if "/mcp" <= rest[..n] { assert rest[..4] == rest[..n][..4]; }
  }

  /** After the scheme: the recogniser's tests, by position. */
  lemma AfterExactly(after: string, n: nat)
    requires AuthorityEnd(after, n)
    ensures Before(after, EndsAuthority) == after[..n]
    ensures LoopbackAuthority(after[..n]) <==> IsLoopback(Lower(HostOf(after[..n])))
    ensures "/mcp" <= Before(after[n..], EndsPath) <==> "/mcp" <= after[n..]
    ensures TokenInQuery(after[n..]) <==> HasToken(QueryOf(after[n..]))
  {
    hide HostOf, Lower, IsLoopback, HasToken, QueryOf, LoopbackAuthority, TokenInQuery;
    BeforeIs(after, EndsAuthority, n);
    LoopbackExactly(after[..n]);
    PathExactly(after[n..]);
    TokenInQueryExactly(after[n..]);
  }

  /** A URL is taken for the program's own if and only if it has this shape. */
  lemma ManagedUrlExactly(url: string)
    ensures IsManagedUrl(url) <==> TakenForOwn(url)
  {
    hide HostOf, Lower, IsLoopback, HasToken, QueryOf, LoopbackAuthority, TokenInQuery, Stripped, AfterScheme, AuthorityEnd, Before;
    if AfterScheme(url).Some? {
      var after := AfterScheme(url).value;
      SchemeExactly(url, after);
      var n := EndGives(after);
      AfterExactly(after, n);
    }
    if TakenForOwn(url) {
      var after, n: nat :| Stripped(url, after) && n <= |after| && AuthorityEnd(after, n)
        && LoopbackAuthority(after[..n]) && "/mcp" <= after[n..] && TokenInQuery(after[n..]);
      SchemeExactly(url, after);
      AfterExactly(after, n);
      assert |after[..n]| == n;
    }
  }

  lemma EndGives(after: string) returns (n: nat)
    ensures n <= |after| && AuthorityEnd(after, n)
  {
    n := BeforeGives(after, EndsAuthority);
  }

  // ------------------------------------------------------------------ a user's own URL

  /** A development server of the user's on any port, with a token of its own, has the shape. */
  lemma UserUrlIsTaken(port: string, value: string)
    requires IsDigits(port)
    ensures IsManagedUrl("http://localhost:" + port + "/mcp-dev?token=" + value)
  {
    hide IsManagedUrl, LoopbackAuthority, TokenInQuery, IsDigits;
    var url, rest := "http://localhost:" + port + "/mcp-dev?token=" + value, "/mcp-dev?token=" + value;
    var authority := "localhost:" + port;
    var after := authority + rest;
    assert url == "http://" + after;
    LocalhostAuthority(port, rest);
    assert after[..|authority|] == authority && after[|authority|..] == rest;
    DevQuery(value);
    assert TakenForOwn(url);
    ManagedUrlExactly(url);
  }

  lemma LocalhostAuthority(port: string, rest: string)
    requires IsDigits(port) && rest != "" && rest[0] == '/'
    ensures var authority := "localhost:" + port;
            LoopbackAuthority(authority) && AuthorityEnd(authority + rest, |authority|)
  {
    var authority := "localhost:" + port;
    forall k | 0 <= k < |authority| ensures !EndsAuthority(authority[k]) && authority[k] != '@' {
      if k >= 10 { assert authority[k] == port[k - 10] && port[k - 10] in port; }
    }
    assert authority[0] == 'l' && authority[9] == ':';
    assert FirstAt(authority, 0, 9, ':');
    assert HostAt(authority, 0, 0, 9);
    assert authority[0..9] == "localhost";
    LowerDigits("localhost");
  }

  lemma DevQuery(value: string)
    ensures "/mcp" <= "/mcp-dev?token=" + value && TokenInQuery("/mcp-dev?token=" + value)
  {
    var rest := "/mcp-dev?token=" + value;
    var e := FirstGives(rest, 9, '#');
    assert forall k :: 0 <= k < 8 ==> rest[k] != '?';
    assert rest[8] == '?' && FirstAt(rest, 0, 8, '?');
    assert forall k :: 9 <= k < 15 ==> rest[k] != '#';
    assert e >= 15;
    var query := rest[9..e];
    var lit := "/mcp-dev?token=";
    assert query[0..5] == rest[9..14] == lit[9..14] == "token";
    assert query[5] == rest[14] == '=';
    assert query[0..0 + 5] == "token";
    assert QueryAt(rest, 8, e) && TokenAt(query, 0) && HoldsToken(rest[8 + 1..e]);
    assert TokenInQuery(rest);
    assert rest[..4] == "/mcp";
  }

  /** Under the program's name such an entry is overwritten by a sync, and taken away by a removal. */
  lemma UserEntryIsLost(dialect: Dialect, port: string, value: string, url: string, after: Servers)
    requires IsDigits(port) && IsManagedUrl(url)
    requires var theirs := JString("http://localhost:" + port + "/mcp-dev?token=" + value);
             IsSynced(dialect, map[CCPANES := JObject(map["url" := theirs])], url, map[], after)
    ensures CCPANES in after && after[CCPANES].GetString("url") == Some(url)
    ensures ManagedServers.Removed(map[CCPANES := JObject(map["url" := JString("http://localhost:" + port + "/mcp-dev?token=" + value)])]) == map[]
  {
    hide IsManagedUrl, Entry;
    var entry := JObject(map["url" := JString("http://localhost:" + port + "/mcp-dev?token=" + value)]);
    var servers := map[CCPANES := entry];
    UserUrlIsTaken(port, value);
    assert Managed(entry);
    SyncedIsManaged(dialect, Some(entry), url);
    assert ManagedServers.Lookup(after, CCPANES) == SyncedEntry(dialect, servers, url, map[], CCPANES);
    assert ManagedServers.Removed(servers) == map[];
  }
}
