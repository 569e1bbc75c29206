/** The URL CC-Panes writes for its own MCP server, and the recogniser that tells it from a user's URL. */
module ManagedUrl {
  import opened JsonValues
  import opened Characters

  // ------------------------------------------------------------- string operations

  /** `s.split(stop).next()`: what comes before the first stop. */
  function Before(s: string, stop: char -> bool): (r: string)
    ensures |r| <= |s|
  {
    if s == [] || stop(s[0]) then [] else [s[0]] + Before(s[1..], stop)
  }

  /** `s.split_once(c)`, the part after the first `c`; empty if there is none. */
  function AfterFirst(s: string, c: char): string {
    if s == [] then [] else if s[0] == c then s[1..] else AfterFirst(s[1..], c)
  }

  /** `s.rsplit(c).next()`: what comes after the last `c`, or all of `s`. */
  function AfterLast(s: string, c: char): string {
    if s == [] then []
    else if c in s[1..] then AfterLast(s[1..], c)
    else if s[0] == c then s[1..]
    else s
  }

  function Lower(s: string): string {
    if s == [] then [] else [Fold(s[0])] + Lower(s[1..])
  }

  function One(c: char): char -> bool { x => x == c }

  predicate EndsAuthority(c: char) { c == '/' || c == '?' || c == '#' }

  predicate EndsPath(c: char) { c == '?' || c == '#' }

  /** A prefix without a stop is passed over. */
  lemma {:induction false} BeforeOver(a: string, b: string, stop: char -> bool)
    requires forall c :: c in a ==> !stop(c)
    ensures Before(a + b, stop) == a + Before(b, stop)
  {
    if a == [] {
      assert a + b == b && [] + Before(b, stop) == Before(b, stop);
    } else {
      assert (a + b)[0] == a[0] && (a + b)[1..] == a[1..] + b && a[0] in a;
      BeforeOver(a[1..], b, stop);
    }
  }

  lemma {:induction false} AfterFirstOver(a: string, c: char, b: string)
    requires c !in a
    ensures AfterFirst(a + ([c] + b), c) == b
  {
    if a == [] {
      assert a + ([c] + b) == [c] + b;
    } else {
      assert (a + ([c] + b))[0] == a[0] && (a + ([c] + b))[1..] == a[1..] + ([c] + b) && a[0] in a;
      AfterFirstOver(a[1..], c, b);
    }
  }

  // -------------------------------------------------------------------- recogniser

  predicate IsLoopback(host: string) {
    host == "localhost" || host == "127.0.0.1" || host == "::1"
  }

  function HostOf(authority: string): string {
    var hostPort := AfterLast(authority, '@');
    if "[" <= hostPort then Before(hostPort[1..], One(']')) else Before(hostPort, One(':'))
  }

  function QueryOf(pathAndAfter: string): string {
    if '?' in pathAndAfter then Before(AfterFirst(pathAndAfter, '?'), One('#')) else ""
  }

  /** Some `&`-separated part of the query has the key `token`. */
  predicate HasToken(query: string)
    decreases |query|
  {
    var part := Before(query, One('&'));
    || (part != "" && Before(part, One('=')) == "token")
    || (|part| < |query| && HasToken(query[|part| + 1..]))
  }

  function AfterScheme(url: string): Option<string> {
    if "http://" <= url then Some(url[7..]) else if "https://" <= url then Some(url[8..]) else None
  }

  /** `is_ccpanes_mcp_url`: loopback host, a path beginning with `/mcp`, and a `token` in the query. */
  predicate IsManagedUrl(url: string) {
    match AfterScheme(url)
    case None => false
    case Some(after) =>
      var authority := Before(after, EndsAuthority);
      var pathAndAfter := after[|authority|..];
      && IsLoopback(Lower(HostOf(authority)))
      && "/mcp" <= Before(pathAndAfter, EndsPath)
      && HasToken(QueryOf(pathAndAfter))
  }

  // ----------------------------------------------------------------------- printer

  function TrimStart(s: string): string {
    if s != [] && IsWhitespace(s[0]) then TrimStart(s[1..]) else s
  }

  function TrimEnd(s: string): string {
    if s != [] && IsWhitespace(s[|s| - 1]) then TrimEnd(s[..|s| - 1]) else s
  }

  function Trim(s: string): string { TrimEnd(TrimStart(s)) }

  /** `ccpanes_mcp_url`; without a launch id this is also the form the Grok adapter writes. */
  function PrintedUrl(port: nat, token: string, launchId: Option<string>): string {
    var url := "http://127.0.0.1:" + Decimal(port) + "/mcp?token=" + token;
    if launchId.Some? && Trim(launchId.value) != "" then url + "&launchId=" + Trim(launchId.value) else url
  }

  lemma PathAndQuery(query: string)
    ensures var pathAndAfter := "/mcp" + ("?" + query);
      && Before(pathAndAfter, EndsAuthority) == []
      && "/mcp" <= Before(pathAndAfter, EndsPath)
      && QueryOf(pathAndAfter) == Before(query, One('#'))
  {
    var pathAndAfter := "/mcp" + ("?" + query);
    BeforeOver("/mcp", "?" + query, EndsPath);
    AfterFirstOver("/mcp", '?', query);
    assert "?" + query == ['?'] + query;
    assert pathAndAfter[4] == '?' && '?' in pathAndAfter;
    hide QueryOf;
  }

  lemma SplitsAfterAuthority(port: string, pathAndAfter: string)
    requires IsDigits(port) && Before(pathAndAfter, EndsAuthority) == []
    ensures var authority := "127.0.0.1:" + port;
      && Before(authority + pathAndAfter, EndsAuthority) == authority
      && (authority + pathAndAfter)[|authority|..] == pathAndAfter
      && IsLoopback(Lower(HostOf(authority)))
  {
    hide Before, HostOf, Lower, IsLoopback, IsDigits;
    var authority := "127.0.0.1:" + port;
    AuthorityHost(port);
    BeforeOver(authority, pathAndAfter, EndsAuthority);
    assert authority + [] == authority;
  }

  /** Every URL of the printed shape is recognised, whatever follows `token=`. */
  lemma ShapeIsManaged(port: string, tail: string)
    requires IsDigits(port)
    ensures IsManagedUrl("http://" + (("127.0.0.1:" + port) + ("/mcp" + ("?" + ("token" + ("=" + tail))))))
  {
    hide Before, HostOf, Lower, IsLoopback, IsDigits, QueryOf, HasToken, EndsAuthority, EndsPath;
    var query := "token" + ("=" + tail);
    var after := ("127.0.0.1:" + port) + ("/mcp" + ("?" + query));
    SchemeOff(after);
    PathAndQuery(query);
    SplitsAfterAuthority(port, "/mcp" + ("?" + query));
    TokenFound(tail);
  }

  lemma SchemeOff(after: string)
    ensures AfterScheme("http://" + after) == Some(after)
  {
    assert ("http://" + after)[7..] == after && "http://" <= "http://" + after;
  }

  lemma AuthorityChars(port: string)
    requires IsDigits(port)
    ensures forall c :: c in "127.0.0.1:" + port ==> !EndsAuthority(c) && c != '@'
  {
    forall c | c in "127.0.0.1:" + port ensures !EndsAuthority(c) && c != '@' {
      assert c in "127.0.0.1:" || c in port;
    }
  }

  lemma AfterLastNone(s: string, c: char)
    requires c !in s
    ensures AfterLast(s, c) == s
  {
    if s != [] { assert s[0] in s && forall x :: x in s[1..] ==> x in s; }
  }

  lemma AuthorityHost(port: string)
    requires IsDigits(port)
    ensures IsLoopback(Lower(HostOf("127.0.0.1:" + port)))
    ensures forall c :: c in "127.0.0.1:" + port ==> !EndsAuthority(c)
  {
    hide Lower, Before, AfterLast, IsDigits;
    var authority := "127.0.0.1:" + port;
    AuthorityChars(port);
    AfterLastNone(authority, '@');
    assert authority[0] == '1';
    HostBeforePort(":" + port);
    assert authority == "127.0.0.1" + (":" + port);
    LowerDigits("127.0.0.1");
  }

  lemma HostBeforePort(rest: string)
    requires rest != "" && rest[0] == ':'
    ensures Before("127.0.0.1" + rest, One(':')) == "127.0.0.1"
  {
    BeforeOver("127.0.0.1", rest, One(':'));
    assert "127.0.0.1" + [] == "127.0.0.1";
  }

  lemma {:induction false} LowerDigits(s: string)
    requires forall c :: c in s ==> !('A' <= c <= 'Z')
    ensures Lower(s) == s
  {
    if s != [] {
      assert s == [s[0]] + s[1..] && s[0] in s && forall c :: c in s[1..] ==> c in s;
      LowerDigits(s[1..]);
    }
  }

  lemma TokenFound(tail: string)
    ensures HasToken(Before("token" + ("=" + tail), One('#')))
  {
    hide Before;
    var rest := Before(tail, One('#'));
    BeforeOver("token=", tail, One('#'));
    assert "token" + ("=" + tail) == "token=" + tail;
    BeforeOver("token=", rest, One('&'));
    KeyIsToken(Before(rest, One('&')));
    assert HasToken("token=" + rest);
  }

  lemma KeyIsToken(more: string)
    ensures Before("token=" + more, One('=')) == "token"
  {
    BeforeOver("token", "=" + more, One('='));
    assert "token" + ("=" + more) == "token=" + more;
    assert Before("=" + more, One('=')) == [] && "token" + [] == "token";
  }

  /** Every URL CC-Panes can print, for any port, token and launch id, is recognised as its own. */
  lemma PrintedIsManaged(port: nat, token: string, launchId: Option<string>)
    ensures IsManagedUrl(PrintedUrl(port, token, launchId))
  {
    hide IsManagedUrl, Trim, Decimal;
    var d := Decimal(port);
    var tail := if launchId.Some? && Trim(launchId.value) != "" then token + "&launchId=" + Trim(launchId.value) else token;
    ShapeIsManaged(d, tail);
    PrintedShape(d, token, tail);
    if launchId.Some? && Trim(launchId.value) != "" {
      Regrouped("http://127.0.0.1:" + d + "/mcp?token=", token, "&launchId=", Trim(launchId.value));
    }
  }

  lemma Regrouped(a: string, b: string, c: string, d: string)
    ensures a + b + c + d == a + (b + c + d)
  {}

  lemma PrintedShape(d: string, token: string, tail: string)
    ensures "http://127.0.0.1:" + d + "/mcp?token=" + tail
         == "http://" + (("127.0.0.1:" + d) + ("/mcp" + ("?" + ("token" + ("=" + tail)))))
  {
    assert "http://127.0.0.1:" + d == "http://" + ("127.0.0.1:" + d);
    assert "/mcp?token=" + tail == "/mcp" + ("?" + ("token" + ("=" + tail)));
    assert "http://127.0.0.1:" + d + "/mcp?token=" + tail == "http://127.0.0.1:" + d + ("/mcp?token=" + tail);
  }

  /** What a printed URL tells whoever takes it apart: the port, the token, and the launch id without outer white space. */
  lemma PrintedReadsBack(port: nat, token: string, launchId: Option<string>)
    requires forall c :: c in token ==> c != '&' && c != '='
    ensures var url := PrintedUrl(port, token, launchId);
            && |url| > 17 && DecimalValue(Before(url[17..], One('/'))) == port
            && Before(AfterFirst(url, '='), One('&')) == token
            && AfterFirst(AfterFirst(url, '='), '=') == if launchId.Some? then Trim(launchId.value) else ""
  {
    hide *;
    var d := Decimal(port);
    var id := if launchId.Some? then Trim(launchId.value) else "";
    var more := if id != "" then "&launchId=" + id else "";
    PrintedParts(port, token, launchId, more);
    PortReadsBack(port, d, "mcp?token=" + token + more);
    HeadHasNoEquals(d);
    AfterFirstOver("http://127.0.0.1:" + d + "/mcp?token", '=', token + more);
    TokenReadsBack(token, id, more);
  }

  lemma PrintedParts(port: nat, token: string, launchId: Option<string>, more: string)
    requires var id := if launchId.Some? then Trim(launchId.value) else "";
             more == if id != "" then "&launchId=" + id else ""
    ensures var url, d := PrintedUrl(port, token, launchId), Decimal(port);
            && |url| > 17 && url[17..] == d + ("/" + ("mcp?token=" + token + more))
            && url == ("http://127.0.0.1:" + d + "/mcp?token") + (['='] + (token + more))
  {
    hide Decimal, Trim;
    var url, d := PrintedUrl(port, token, launchId), Decimal(port);
    if more == "" { assert url == url + more; }
    PartsJoined(d, token, more);
  }

  lemma PartsJoined(d: string, token: string, more: string)
    ensures var url := "http://127.0.0.1:" + d + "/mcp?token=" + token + more;
            && url[17..] == d + ("/" + ("mcp?token=" + token + more))
            && url == ("http://127.0.0.1:" + d + "/mcp?token") + (['='] + (token + more))
  {
    var head, tail := "http://127.0.0.1:", "/mcp?token=" + token + more;
    assert "/mcp?token=" == "/mcp?token" + ['='] && "/mcp?token=" == "/" + "mcp?token=";
    assert head + d + "/mcp?token=" + token + more == head + (d + tail);
  }

  lemma PortReadsBack(port: nat, d: string, rest: string)
    requires d == Decimal(port)
    ensures DecimalValue(Before(d + ("/" + rest), One('/'))) == port
  {
    hide Decimal;
    DecimalRoundTrip(port);
    BeforeOver(d, "/" + rest, One('/'));
    assert d + [] == d;
  }

  lemma HeadHasNoEquals(d: string)
    requires IsDigits(d)
    ensures '=' !in "http://127.0.0.1:" + d + "/mcp?token"
  {
    assert '=' !in "http://127.0.0.1:" && '=' !in "/mcp?token" && '=' !in d;
  }

  lemma TokenReadsBack(token: string, id: string, more: string)
    requires forall c :: c in token ==> c != '&' && c != '='
    requires more == if id != "" then "&launchId=" + id else ""
    ensures Before(token + more, One('&')) == token
    ensures AfterFirst(token + more, '=') == id
  {
    hide Before, AfterFirst;
    BeforeOver(token, more, One('&'));
    StopsThere(more);
    assert token + [] == token;
    if id == "" {
      assert token + more == token;
      AfterFirstNone(token, '=');
    } else {
      assert '=' !in "&launchId";
      assert token + more == (token + "&launchId") + (['='] + id);
      AfterFirstOver(token + "&launchId", '=', id);
    }
  }

  lemma StopsThere(more: string)
    requires more != "" ==> more[0] == '&'
    ensures Before(more, One('&')) == ""
  {}

  lemma {:induction false} AfterFirstNone(s: string, c: char)
    requires c !in s
    ensures AfterFirst(s, c) == ""
  {
    if s != [] { AfterFirstNone(s[1..], c); }
  }

  /** A launch id without outer white space is printed as it is, a blank one not at all. */
  lemma TrimmedLaunchId(id: string)
    ensures id != "" && !IsWhitespace(id[0]) && !IsWhitespace(id[|id| - 1]) ==> Trim(id) == id
    ensures (forall c :: c in id ==> IsWhitespace(c)) ==> Trim(id) == ""
  {
    hide IsWhitespace;
    if forall c :: c in id ==> IsWhitespace(c) { BlankStart(id); }
  }

  lemma {:induction false} BlankStart(s: string)
    requires forall c :: c in s ==> IsWhitespace(c)
    ensures TrimStart(s) == ""
  {
    hide IsWhitespace;
    if s != [] {
      assert s[0] in s && forall c :: c in s[1..] ==> c in s;
      BlankStart(s[1..]);
    }
  }
}
