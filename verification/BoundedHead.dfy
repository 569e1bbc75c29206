/** The doubly bounded reader of plan files: at most 80 lines and 64 KiB, however the reads are split. */
module BoundedHead {
  import opened JsonValues

  newtype byte = b: int | 0 <= b < 0x100

  const NEWLINE: byte := 0x0A
  const TAG_SCAN_MAX_LINES := 80
  const TAG_SCAN_MAX_BYTES := 65536
  const BUFFER := 4096

  // ------------------------------------------------------------------------ text

  predicate Continues(b: byte) { 0x80 <= b <= 0xBF }

  /** The second byte of a sequence, by its first (RFC 3629, section 4). */
  predicate SecondFits(first: byte, second: byte) {
    if first == 0xE0 then 0xA0 <= second <= 0xBF
    else if first == 0xED then 0x80 <= second <= 0x9F
    else if first == 0xF0 then 0x90 <= second <= 0xBF
    else if first == 0xF4 then 0x80 <= second <= 0x8F
    else Continues(second)
  }

  function WidthOf(first: byte): nat {
    if first < 0x80 then 1
    else if 0xC2 <= first <= 0xDF then 2
    else if 0xE0 <= first <= 0xEF then 3
    else if 0xF0 <= first <= 0xF4 then 4
    else 0
  }

  /** `s` starts with one well-formed UTF-8 character. */
  predicate StartsWithChar(s: seq<byte>) {
    && s != [] && 0 < WidthOf(s[0]) <= |s|
    && (WidthOf(s[0]) >= 2 ==> SecondFits(s[0], s[1]))
    && (WidthOf(s[0]) >= 3 ==> Continues(s[2]))
    && (WidthOf(s[0]) >= 4 ==> Continues(s[3]))
  }

  predicate ValidUtf8(s: seq<byte>) {
    s == [] || (StartsWithChar(s) && ValidUtf8(s[WidthOf(s[0])..]))
  }

  // ------------------------------------------------------ what the reader is for

  function Newlines(s: seq<byte>): nat {
    if s == [] then 0 else (if s[0] == 0x0A then 1 else 0) + Newlines(s[1..])
  }

  /** The text up to and including its `lines`-th newline; all of it when there are fewer. */
  function Head(s: seq<byte>, lines: nat): seq<byte> {
    if lines == 0 || s == [] then []
    else [s[0]] + Head(s[1..], if s[0] == NEWLINE then lines - 1 else lines)
  }

  /** The head is a prefix; it is everything, or ends with the last newline asked for. */
  lemma {:induction false} HeadIsPrefix(s: seq<byte>, lines: nat)
    ensures var h := Head(s, lines);
      && |h| <= |s| && h == s[..|h|] && Newlines(h) <= lines
      && (h == s || (Newlines(h) == lines && (h == [] || h[|h| - 1] == NEWLINE)))
  {
    if lines > 0 && s != [] {
      var fewer := if s[0] == NEWLINE then lines - 1 else lines;
      HeadIsPrefix(s[1..], fewer);
      var t := Head(s[1..], fewer);
      assert s == [s[0]] + s[1..];
      assert ([s[0]] + t)[1..] == t;
      assert s[..|t| + 1] == [s[0]] + s[1..][..|t|];
    }
  }

  /** No shorter prefix has as many newlines. */
  lemma {:induction false} HeadIsShortest(s: seq<byte>, lines: nat, n: nat)
    requires n <= |s| && Newlines(s[..n]) >= lines
    ensures |Head(s, lines)| <= n
  {
    if lines > 0 && s != [] {
      assert n > 0 by { assert s[..0] == []; }
      assert s[..n][1..] == s[1..][..n - 1];
      HeadIsShortest(s[1..], if s[0] == NEWLINE then lines - 1 else lines, n - 1);
    }
  }

  /** A character holds a newline only when it is one. */
  lemma OneCharacter(s: seq<byte>, lines: nat)
    requires StartsWithChar(s) && lines > 0
    ensures var w := WidthOf(s[0]);
      Head(s, lines) == s[..w] + Head(s[w..], if s[0] == NEWLINE then lines - 1 else lines)
  {
    var w := WidthOf(s[0]);
    HeadSkips(s, lines, if s[0] == NEWLINE then 1 else w);
  }

  lemma {:induction false} HeadSkips(s: seq<byte>, lines: nat, n: nat)
    requires lines > 0 && n <= |s| && (n == 1 || forall k :: 0 <= k < n ==> s[k] != NEWLINE)
    ensures Head(s, lines) == s[..n] + Head(s[n..], if n == 1 && s[0] == NEWLINE then lines - 1 else lines)
  {
    if n == 0 {
      assert s[..0] == [] && s[0..] == s;
    } else if n == 1 {
      assert s[..1] == [s[0]];
    } else {
      HeadSkips(s[1..], lines, n - 1);
      assert s[1..][n - 1..] == s[n..];
      assert s[..n] == [s[0]] + s[1..][..n - 1];
    }
  }

  /** Newlines are characters of their own, so cutting behind one keeps text well-formed. */
  lemma {:induction false} HeadStaysValid(s: seq<byte>, lines: nat)
    requires ValidUtf8(s)
    ensures ValidUtf8(Head(s, lines))
  {
    if lines > 0 && s != [] {
      var w := WidthOf(s[0]);
      var fewer := if s[0] == NEWLINE then lines - 1 else lines;
      OneCharacter(s, lines);
      HeadStaysValid(s[w..], fewer);
      var h, rest := Head(s, lines), Head(s[w..], fewer);
      assert h[w..] == rest;
      SameStart(s, h, w);
    }
  }

  lemma SameStart(s: seq<byte>, h: seq<byte>, w: nat)
    requires StartsWithChar(s) && w == WidthOf(s[0]) && w <= |h| && h[..w] == s[..w]
    ensures StartsWithChar(h) && WidthOf(h[0]) == w
  {
    forall k | 0 <= k < w ensures h[k] == s[k] {
      assert h[..w][k] == s[..w][k];
    }
  }

  // ------------------------------------------------------------------ the reader

  /** What `read_plan_head_bounded` owes its caller when no read fails. */
  function Expected(text: seq<byte>): Option<seq<byte>> {
    var h := Head(text, TAG_SCAN_MAX_LINES);
    if |h| <= TAG_SCAN_MAX_BYTES && ValidUtf8(h) then Some(h) else None
  }

  /** What the system does with one read: it fails, or delivers at most one byte more than `most`. */
  datatype Fate = Fails | Delivers(most: nat)

  /** An open file, and what the system will do with each read. Nothing is delivered only at the end. */
  class PlanFile {
    const bytes: seq<byte>
    const fate: nat -> Fate
    var pos: nat
    var served: nat

    ghost predicate Valid()
      reads this
    {
      pos <= |bytes|
    }

    constructor (content: seq<byte>, fate: nat -> Fate)
      ensures Valid() && bytes == content && this.fate == fate && pos == 0 && served == 0
    {
      bytes, this.fate := content, fate;
      pos, served := 0, 0;
    }

    /** Some read since the `from`-th has failed. */
    ghost predicate FailedSince(from: nat)
      reads this
    {
      exists k: nat :: from <= k < served && fate(k).Fails?
    }

    method Read(buf: array<byte>, most: nat) returns (count: Option<nat>)
      requires Valid() && most <= buf.Length
      modifies this, buf
      ensures Valid() && served == old(served) + 1
      ensures count.None? <==> fate(old(served)).Fails?
      ensures count.None? ==> pos == old(pos)
      ensures count.Some? ==>
        && count.value <= most && pos == old(pos) + count.value
        && (forall k :: 0 <= k < count.value ==> buf[k] == bytes[old(pos) + k])
        && (count.value == 0 <==> most == 0 || old(pos) == |bytes|)
    {
      var outcome := fate(served);
      served := served + 1;
      if outcome.Fails? { return None; }
      var available := |bytes| - pos;
      var limit := if most <= available then most else available;
      var n := if limit <= outcome.most then limit else if limit == 0 then 0 else outcome.most + 1;
      for i := 0 to n
        modifies buf
        invariant forall k :: 0 <= k < i ==> buf[k] == bytes[pos + k]
      {
        buf[i] := bytes[pos + i];
      }
      pos := pos + n;
      count := Some(n);
    }
  }

  /** `taken` is the start of the file, and with the lines still wanted of the rest it makes up the head. */
  predicate Taken(text: seq<byte>, taken: seq<byte>, lines: nat) {
    && |taken| <= |text| && taken == text[..|taken|] && lines <= TAG_SCAN_MAX_LINES
    && Head(text, TAG_SCAN_MAX_LINES) == taken + Head(text[|taken|..], TAG_SCAN_MAX_LINES - lines)
  }

  lemma NothingTaken(text: seq<byte>)
    ensures Taken(text, [], 0)
  {
    hide Head;
    assert text[..0] == [] && text[0..] == text;
  }

  /** One more byte moves from what is left to what is taken. */
  lemma OneMoreTaken(text: seq<byte>, taken: seq<byte>, lines: nat)
    requires Taken(text, taken, lines) && |taken| < |text| && lines < TAG_SCAN_MAX_LINES
    ensures var b := text[|taken|]; Taken(text, taken + [b], if b == NEWLINE then lines + 1 else lines)
  {
    var n := |taken|;
    assert text[n..][1..] == text[n + 1..];
    assert text[..n + 1] == taken + [text[n]];
  }

  lemma AllTaken(text: seq<byte>, taken: seq<byte>, lines: nat)
    requires Taken(text, taken, lines) && (lines == TAG_SCAN_MAX_LINES || |taken| == |text|)
    ensures Head(text, TAG_SCAN_MAX_LINES) == taken
  {
  }

  lemma TooMuchTaken(text: seq<byte>, taken: seq<byte>, lines: nat)
    requires Taken(text, taken, lines) && |taken| > TAG_SCAN_MAX_BYTES
    ensures Expected(text) == None
  {
  }

  lemma Returned(text: seq<byte>)
    ensures var h := Head(text, TAG_SCAN_MAX_LINES);
      Expected(text) == if |h| <= TAG_SCAN_MAX_BYTES && ValidUtf8(h) then Some(h) else None
  {
  }

  /**
   The result depends on the file alone, never on where the reads are split; nothing but a read that the system
   fails changes that. At most 64 KiB and one byte are taken in.
   */
  method ReadPlanHeadBounded(f: PlanFile) returns (head: Option<seq<byte>>)
    requires f.Valid() && f.pos == 0
    modifies f
    ensures f.Valid() && f.pos <= TAG_SCAN_MAX_BYTES + 1
    ensures head == if f.FailedSince(old(f.served)) then None else Expected(f.bytes)
    ensures forall k: nat :: old(f.served) <= k < f.served - 1 ==> f.fate(k).Delivers?
  {
    hide ValidUtf8, Head, Taken, Expected;
    var text: seq<byte> := [];
    var lines := 0;
    var buf := new byte[BUFFER](_ => 0);
    NothingTaken(f.bytes);
    while lines < TAG_SCAN_MAX_LINES
      invariant f.Valid() && |text| <= f.pos <= TAG_SCAN_MAX_BYTES + 1
      invariant lines < TAG_SCAN_MAX_LINES ==> f.pos == |text|
      invariant f.served >= old(f.served) && !f.FailedSince(old(f.served))
      invariant lines <= TAG_SCAN_MAX_LINES && |text| <= TAG_SCAN_MAX_BYTES && Taken(f.bytes, text, lines)
      decreases |f.bytes| - |text|, TAG_SCAN_MAX_LINES - lines
    {
      var remaining: nat := TAG_SCAN_MAX_BYTES + 1 - |text|;
      var most := if remaining <= buf.Length then remaining else buf.Length;
      var from := f.pos;
      var n := f.Read(buf, most);
      if n == None {
        assert f.fate(f.served - 1).Fails?;
        return None;
      }
      if n.value == 0 { break; }
      var i := 0;
      while i < n.value
        invariant f.Valid() && f.pos == from + n.value && f.served >= old(f.served) && !f.FailedSince(old(f.served))
        invariant forall k :: 0 <= k < n.value ==> buf[k] == f.bytes[from + k]
        invariant i <= n.value && |text| == from + i && lines < TAG_SCAN_MAX_LINES && |text| <= TAG_SCAN_MAX_BYTES
        invariant Taken(f.bytes, text, lines)
      {
        var b := buf[i];
        OneMoreTaken(f.bytes, text, lines);
        text := text + [b];
        if |text| > TAG_SCAN_MAX_BYTES {
          TooMuchTaken(f.bytes, text, if b == NEWLINE then lines + 1 else lines);
          return None;
        }
        if b == NEWLINE {
          lines := lines + 1;
          if lines >= TAG_SCAN_MAX_LINES { break; }
        }
        i := i + 1;
      }
    }
    AllTaken(f.bytes, text, lines);
    Returned(f.bytes);
    head := if ValidUtf8(text) then Some(text) else None;
  }

  /** Of a well-formed file nothing is returned only when its first lines are too long. */
  lemma ValidFileExactly(text: seq<byte>)
    requires ValidUtf8(text)
    ensures Expected(text) == None <==> |Head(text, 80)| > 65536
  {
    hide ValidUtf8, Head;
    HeadStaysValid(text, TAG_SCAN_MAX_LINES);
  }

  /** The result is the shortest prefix with 80 newlines, or the whole file when it has fewer. */
  lemma ExpectedExactly(text: seq<byte>, n: nat)
    requires n <= |text|
    requires n == |text| || Newlines(text[..n]) == 80
    requires forall m: nat :: m < n ==> Newlines(text[..m]) < 80
    ensures Expected(text) == Some(text[..n]) <==> n <= 65536 && ValidUtf8(text[..n])
    ensures Expected(text).None? || Expected(text) == Some(text[..n])
  {
    hide ValidUtf8, Head;
    var h := Head(text, TAG_SCAN_MAX_LINES);
    HeadIsPrefix(text, TAG_SCAN_MAX_LINES);
    if n < |text| { HeadIsShortest(text, TAG_SCAN_MAX_LINES, n); }
    assert h == text[..n];
  }

  /** What follows the 80th newline is never looked at. */
  lemma TailIsIrrelevant(text: seq<byte>, tail: seq<byte>)
    requires Newlines(text) >= 80
    ensures Expected(text + tail) == Expected(text)
  {
    hide ValidUtf8, Head;
    HeadOfAppend(text, tail, TAG_SCAN_MAX_LINES);
  }

  lemma {:induction false} HeadOfAppend(s: seq<byte>, t: seq<byte>, lines: nat)
    requires Newlines(s) >= lines
    ensures Head(s + t, lines) == Head(s, lines)
  {
    if lines > 0 {
      assert (s + t)[1..] == s[1..] + t;
      HeadOfAppend(s[1..], t, if s[0] == NEWLINE then lines - 1 else lines);
    }
  }
}
