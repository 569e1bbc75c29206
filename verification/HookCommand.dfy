/** The guarded hook command line, and how a POSIX shell reads it back. */
module HookCommand {
  import opened JsonValues

  datatype HookShell = Posix | Windows

  // ---------------------------------------------------------------- building it

  /** `path.replace('\'', "'\\''")`. */
  function EscapeQuotes(path: string): string {
    if path == [] then [] else (if path[0] == '\'' then "'\\''" else [path[0]]) + EscapeQuotes(path[1..])
  }

  function Quoted(path: string): string {
    "'" + EscapeQuotes(path) + "'"
  }

  /** `build_guarded_hook_command`. */
  function GuardedCommand(path: string, subcommand: string, shell: HookShell): string {
    match shell
    case Posix =>
      "if [ -x " + Quoted(path) + " ]; then " + Quoted(path) + " " + subcommand + "; fi"
    case Windows =>
      "if exist \"" + path + "\" \"" + path + "\" " + subcommand
  }

  // ------------------------------------------------------------------ reading it

  /**
   Token recognition of the POSIX Shell Command Language (IEEE Std 1003.1, sections 2.2.1, 2.2.2 and 2.3),
   for input without double quotes or expansions outside single quotes. A word remembers whether any of
   it was quoted: a quoted word is never a reserved word.
   */
  datatype Token = Word(text: string, quoted: bool) | Semicolon | Newline

  /** Characters that outside quotes would start an expansion, an operator or another kind of quoting. */
  predicate IsSpecial(c: char) {
    || c == '|' || c == '&' || c == '<' || c == '>' || c == '(' || c == ')' || c == '$' || c == '`' || c == '"'
    || c == '*' || c == '?' || c == '#' || c == '~' || c == '=' || c == '%' || c == '{' || c == '}' || c == '!'
  }

  predicate IsBlank(c: char) { c == ' ' || c == '\t' }

  predicate IsPlain(c: char) {
    !IsSpecial(c) && !IsBlank(c) && c != ';' && c != '\n' && c != '\'' && c != '\\'
  }

  function Flush(word: Option<Token>): seq<Token> {
    if word.Some? then [word.value] else []
  }

  function Extend(word: Option<Token>, c: string, quoted: bool): Option<Token> {
    match word
    case Some(Word(text, q)) => Some(Word(text + c, q || quoted))
    case _ => Some(Word(c, quoted))
  }

  function Emit(tokens: seq<Token>, rest: Option<seq<Token>>): Option<seq<Token>> {
    if rest.Some? then Some(tokens + rest.value) else None
  }

  /** The tokens of `s`, given the word read so far; nothing for unfinished quoting or special characters. */
  function Lex(s: string, inQuotes: bool, word: Option<Token>): Option<seq<Token>>
    decreases |s|
  {
    if s == [] then (if inQuotes then None else Some(Flush(word)))
    else if inQuotes then
      (if s[0] == '\'' then Lex(s[1..], false, word) else Lex(s[1..], true, Extend(word, [s[0]], true)))
    else if s[0] == '\'' then Lex(s[1..], true, Extend(word, "", true))
    else if s[0] == '\\' then
      (if |s| == 1 then None
       else if s[1] == '\n' then Lex(s[2..], false, word)
       else Lex(s[2..], false, Extend(word, [s[1]], true)))
    else if IsBlank(s[0]) then Emit(Flush(word), Lex(s[1..], false, None))
    else if s[0] == ';' then Emit(Flush(word) + [Semicolon], Lex(s[1..], false, None))
    else if s[0] == '\n' then Emit(Flush(word) + [Newline], Lex(s[1..], false, None))
    else if IsSpecial(s[0]) then None
    else Lex(s[1..], false, Extend(word, [s[0]], false))
  }

  // ------------------------------------------------------------------ round trip

  /** Inside the quotes, the escaped path reads as the path itself. */
  lemma {:induction false} QuotedBody(path: string, rest: string, text: string)
    ensures Lex(EscapeQuotes(path) + ("'" + rest), true, Some(Word(text, true)))
         == Lex(rest, false, Some(Word(text + path, true)))
  {
    hide Lex, EscapeQuotes;
    var tail := "'" + rest;
    EscapeFirst(path);
    if path == [] {
      assert EscapeQuotes(path) + tail == tail;
      assert text + path == text;
      InsideStep('\'', rest, text);
    } else {
      var more, c := EscapeQuotes(path[1..]) + tail, path[0];
      assert text + [c] + path[1..] == text + path;
      QuotedBody(path[1..], rest, text + [c]);
      if c == '\'' {
        assert EscapeQuotes(path) + tail == "'\\''" + more;
        QuoteInside(more, text);
      } else {
        assert EscapeQuotes(path) + tail == [c] + more;
        InsideStep(c, more, text);
      }
    }
  }

  lemma EscapeFirst(path: string)
    ensures EscapeQuotes(path)
         == if path == [] then [] else (if path[0] == '\'' then "'\\''" else [path[0]]) + EscapeQuotes(path[1..])
  {}

  lemma InsideStep(c: char, more: string, text: string)
    ensures Lex([c] + more, true, Some(Word(text, true)))
         == if c == '\'' then Lex(more, false, Some(Word(text, true))) else Lex(more, true, Some(Word(text + [c], true)))
  {
    hide IsSpecial;
    assert ([c] + more)[0] == c && ([c] + more)[1..] == more;
  }

  /** The four characters that stand for one quote leave the quotes, escape one, and enter them again. */
  lemma QuoteInside(more: string, text: string)
    ensures Lex("'\\''" + more, true, Some(Word(text, true))) == Lex(more, true, Some(Word(text + ['\''], true)))
  {
    var s0 := "'\\''" + more;
    var s1, s3 := "\\''" + more, "'" + more;
    var before, after := Some(Word(text, true)), Some(Word(text + ['\''], true));
    assert s0[0] == '\'' && s0[1..] == s1;
    assert s1[0] == '\\' && s1[1] == '\'' && s1[2..] == s3;
    assert s3[0] == '\'' && s3[1..] == more;
    assert Extend(before, ['\''], true) == after;
    assert text + ['\''] + "" == text + ['\''];
    assert Lex(s1, false, before) == Lex(s3, false, after);
    assert Lex(s3, false, after) == Lex(more, true, after);
  }

  /** A quoted path is read as one word, and that word is the path, for every path. */
  lemma QuotedIsOneWord(path: string, rest: string)
    ensures Lex(Quoted(path) + rest, false, None) == Lex(rest, false, Some(Word(path, true)))
  {
    var s := Quoted(path) + rest;
    assert s[0] == '\'' && s[1..] == EscapeQuotes(path) + ("'" + rest);
    QuotedBody(path, rest, "");
    assert "" + path == path;
  }

  /** Plain characters extend the current word. */
  lemma {:induction false} PlainRun(w: string, rest: string, text: string)
    requires forall c :: c in w ==> IsPlain(c)
    ensures Lex(w + rest, false, Some(Word(text, false))) == Lex(rest, false, Some(Word(text + w, false)))
  {
    if w == [] {
      assert w + rest == rest && text + w == text;
    } else {
      assert (w + rest)[0] == w[0] && w[0] in w && (w + rest)[1..] == w[1..] + rest;
      PlainRun(w[1..], rest, text + [w[0]]);
      assert text + [w[0]] + w[1..] == text + w;
    }
  }

  lemma PlainWord(w: string, rest: string)
    requires IsWord(w)
    ensures Lex(w + rest, false, None) == Lex(rest, false, Some(Word(w, false)))
  {
    assert (w + rest)[0] == w[0] && w[0] in w && (w + rest)[1..] == w[1..] + rest;
    PlainRun(w[1..], rest, [w[0]]);
    assert [w[0]] + w[1..] == w;
  }

  predicate IsWord(w: string) {
    w != [] && forall c :: c in w ==> IsPlain(c)
  }

  lemma CommandWords()
    ensures IsWord("if") && IsWord("[") && IsWord("-x") && IsWord("]") && IsWord("then") && IsWord("fi")
  {}

  /** A plain word followed by a blank is one token. */
  lemma PlainThenBlank(w: string, rest: string)
    requires IsWord(w)
    ensures Lex(w + (" " + rest), false, None) == Emit([Word(w, false)], Lex(rest, false, None))
  {
    PlainWord(w, " " + rest);
    AfterWord(Word(w, false), ' ', rest);
  }

  /** What ends a word: a blank, or a semicolon. */
  lemma AfterWord(word: Token, c: char, rest: string)
    requires c == ' ' || c == ';'
    ensures Lex([c] + rest, false, Some(word))
         == Emit(if c == ' ' then [word] else [word, Semicolon], Lex(rest, false, None))
  {
    assert ([c] + rest)[0] == c && ([c] + rest)[1..] == rest;
    assert Flush(Some(word)) == [word];
    assert [word] + [Semicolon] == [word, Semicolon];
  }

  lemma Blank(rest: string)
    ensures Lex(" " + rest, false, None) == Lex(rest, false, None)
  {
    assert (" " + rest)[1..] == rest;
    if Lex(rest, false, None).Some? {
      assert [] + Lex(rest, false, None).value == Lex(rest, false, None).value;
    }
  }

  /** What the shell is meant to see: the test and the path, then the subcommand and the closing `fi`. */
  function GuardStart(path: string): seq<Token> {
    [Word("if", false), Word("[", false), Word("-x", false), Word(path, true), Word("]", false), Semicolon,
     Word("then", false), Word(path, true)]
  }

  function GuardTokens(path: string, subcommand: string): seq<Token> {
    GuardStart(path) + [Word(subcommand, false), Semicolon, Word("fi", false)]
  }

  /** The second half: `then` and the path. */
  lemma ReadsThen(path: string, rest: string)
    ensures Lex("then" + (" " + (Quoted(path) + (" " + rest))), false, None)
         == Emit([Word("then", false), Word(path, true)], Lex(rest, false, None))
  {
    hide Lex, Quoted, IsPlain, IsWord, Emit;
    CommandWords();
    AfterWord(Word(path, true), ' ', rest);
    assert " " + rest == [' '] + rest;
    QuotedIsOneWord(path, " " + rest);
    PlainThenBlank("then", Quoted(path) + (" " + rest));
    EmitTwice([Word("then", false)], [Word(path, true)], Lex(rest, false, None));
    assert [Word("then", false)] + [Word(path, true)] == [Word("then", false), Word(path, true)];
  }

  lemma ReadsFi(subcommand: string)
    requires IsWord(subcommand)
    ensures Lex(subcommand + "; fi", false, None)
         == Some([Word(subcommand, false), Semicolon, Word("fi", false)])
  {
    hide Lex, IsPlain, IsWord;
    CommandWords();
    PlainWord(subcommand, "; fi");
    assert "; fi" == [';'] + " fi" && " fi" == " " + "fi" && "fi" == "fi" + "";
    assert [Word(subcommand, false), Semicolon] + [Word("fi", false)]
        == [Word(subcommand, false), Semicolon, Word("fi", false)];
    AfterWord(Word(subcommand, false), ';', " fi");
    Blank("fi");
    PlainWord("fi", "");
    LexEnd(Word("fi", false));
  }

  lemma LexEnd(word: Token)
    ensures Lex("", false, Some(word)) == Some([word])
  {}

  lemma EmitTwice(a: seq<Token>, b: seq<Token>, rest: Option<seq<Token>>)
    ensures Emit(a, Emit(b, rest)) == Emit(a + b, rest)
  {
    if rest.Some? { assert a + (b + rest.value) == a + b + rest.value; }
  }

  /** The first half: the test whether the path is executable. */
  lemma ReadsTest(path: string, rest: string)
    ensures Lex("if" + (" " + ("[" + (" " + ("-x" + (" " + (Quoted(path) + (" " + ("]" + (";" + (" " + rest)))))))))), false, None)
         == Emit([Word("if", false), Word("[", false), Word("-x", false), Word(path, true), Word("]", false), Semicolon],
                 Lex(rest, false, None))
  {
    hide Lex, Quoted, IsPlain, IsWord, Emit;
    CommandWords();
    Blank(rest);
    var close, after := "]" + (";" + (" " + rest)), Lex(rest, false, None);
    var t1, t2, t3, t4 := [Word("if", false)], [Word("[", false)], [Word("-x", false)], [Word(path, true)];
    var t5 := [Word("]", false), Semicolon];
    PlainWord("]", ";" + (" " + rest));
    AfterWord(Word("]", false), ';', " " + rest);
    AfterWord(Word(path, true), ' ', close);
    QuotedIsOneWord(path, " " + close);
    PlainThenBlank("-x", Quoted(path) + (" " + close));
    PlainThenBlank("[", "-x" + (" " + (Quoted(path) + (" " + close))));
    PlainThenBlank("if", "[" + (" " + ("-x" + (" " + (Quoted(path) + (" " + close))))));
    EmitTwice(t4, t5, after);
    EmitTwice(t3, t4 + t5, after);
    EmitTwice(t2, t3 + (t4 + t5), after);
    EmitTwice(t1, t2 + (t3 + (t4 + t5)), after);
    assert t1 + (t2 + (t3 + (t4 + t5)))
        == [Word("if", false), Word("[", false), Word("-x", false), Word(path, true), Word("]", false), Semicolon];
  }

  lemma Nest(a: string, b: string, c: string, d: string, e: string, f: string)
    ensures a + b + c + d + e + f == a + (b + (c + (d + (e + f))))
  {}

  lemma NestInto(a: string, b: string, c: string, d: string, e: string, f: string, x: string)
    ensures a + (b + (c + (d + (e + f)))) + x == a + (b + (c + (d + (e + (f + x)))))
  {}

  /**
   For every path and every subcommand, a POSIX shell reads the guarded command as the test and the path, with the
   path verbatim in both places; what follows is what it makes of the unquoted subcommand.
   */
  lemma GuardedCommandReads(path: string, subcommand: string)
    ensures Lex(GuardedCommand(path, subcommand, Posix), false, None)
         == Emit(GuardStart(path), Lex(subcommand + "; fi", false, None))
  {
    hide Lex, Quoted, IsPlain, IsWord, Emit;
    var q, sub := Quoted(path), subcommand + "; fi";
    var tail, after := q + (" " + sub), Lex(sub, false, None);
    ReadsThen(path, sub);
    ReadsTest(path, "then" + (" " + tail));
    assert "if [ -x " == "if" + (" " + ("[" + (" " + ("-x" + " "))));
    assert " ]; then " == " " + ("]" + (";" + (" " + ("then" + " "))));
    Nest("if [ -x ", q, " ]; then ", q, " ", sub);
    NestInto(" ", "]", ";", " ", "then", " ", tail);
    NestInto("if", " ", "[", " ", "-x", " ", q + (" " + ("]" + (";" + (" " + ("then" + (" " + tail)))))));
    assert "if [ -x " + q + " ]; then " + q + " " + subcommand + "; fi"
        == "if [ -x " + q + " ]; then " + q + " " + sub;
    var test := [Word("if", false), Word("[", false), Word("-x", false), Word(path, true), Word("]", false), Semicolon];
    EmitTwice(test, [Word("then", false), Word(path, true)], after);
    assert test + [Word("then", false), Word(path, true)] == GuardStart(path);
  }

  /** A subcommand that is a plain word reads as that word, and the command as the intended one. */
  lemma GuardedCommandRoundTrips(path: string, subcommand: string)
    requires IsWord(subcommand)
    ensures Lex(GuardedCommand(path, subcommand, Posix), false, None) == Some(GuardTokens(path, subcommand))
  {
    hide Lex, IsWord, GuardedCommand, GuardStart;
    GuardedCommandReads(path, subcommand);
    ReadsFi(subcommand);
  }
}
