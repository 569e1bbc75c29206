/** The parts of a version directory name and their order, said of the names position by position. */
module VersionText {
  import opened JsonValues
  import opened Characters
  import opened VersionOrder

  // ------------------------------------------------------------------------- pieces

  /** What is stripped off the front is every `v` and `V` there, and nothing else. */
  lemma {:induction false} TrimVExactly(name: string) returns (i: nat)
    ensures i <= |name| && TrimV(name) == name[i..] && (i < |name| ==> name[i] != 'v' && name[i] != 'V')
    ensures forall k :: 0 <= k < i ==> name[k] == 'v' || name[k] == 'V'
  {
    if name != [] && (name[0] == 'v' || name[0] == 'V') {
      var n := TrimVExactly(name[1..]);
      assert forall k :: 0 < k <= n ==> name[k] == name[1..][k - 1];
      i := n + 1;
    } else {
      i := 0;
    }
  }

  function Dots(pieces: seq<string>): string
    requires |pieces| > 0
  {
    if |pieces| == 1 then pieces[0] else pieces[0] + "." + Dots(pieces[1..])
  }

  /** The segments hold no dot, and joined by dots they are the text again. */
  lemma {:induction false} SplitExactly(s: string)
    ensures Dots(SplitDots(s)) == s && forall i :: 0 <= i < |SplitDots(s)| ==> '.' !in SplitDots(s)[i]
  {
    if s != [] {
      SplitExactly(s[1..]);
      var rest := SplitDots(s[1..]);
      assert s == [s[0]] + s[1..];
      if s[0] == '.' {
        assert ([[]] + rest)[1..] == rest;
      } else {
        assert ([[s[0]] + rest[0]] + rest[1..])[1..] == rest[1..];
        if |rest| > 1 { assert [s[0]] + (rest[0] + "." + Dots(rest[1..])) == [s[0]] + rest[0] + "." + Dots(rest[1..]); }
      }
    }
  }

  // ------------------------------------------------------------------------- numbers

  function Zeros(k: nat): string { seq(k, i => '0') }

  lemma OneMoreZero(k: nat)
    ensures Zeros(k) + "0" == Zeros(k + 1) && |Zeros(k)| == k
  {}

  /** Any digits are zeros and the decimal form of their value. */
  lemma {:induction false} DigitsAre(d: string) returns (k: nat)
    requires IsDigits(d)
    ensures d == Zeros(k) + Decimal(DecimalValue(d))
  {
    hide Zeros, Decimal, DecimalValue, Digit;
    var front, last := d[..|d| - 1], d[|d| - 1];
    assert d == front + [last] && last in d;
    var v, x := DecimalValue(front), Digit(last);
    OneMoreDigit(front, last);
    if front == [] {
      OneMoreZero(0);
      NoDigits();
      k := 0;
      assert Zeros(0) + [last] == [last];
    } else {
      assert IsDigits(front) by { assert forall c :: c in front ==> c in d; }
      var n := DigitsAre(front);
      OneMoreZero(n);
      k := if v > 0 then n else n + 1;
      assert v > 0 ==> Zeros(n) + Decimal(v) + [last] == Zeros(n) + (Decimal(v) + [last]);
    }
  }

  lemma NoDigits()
    ensures DecimalValue("") == 0 && Decimal(0) == "0"
  {}

  lemma OneMoreDigit(front: string, last: char)
    requires '0' <= last <= '9'
    ensures DecimalValue(front + [last]) == 10 * DecimalValue(front) + Digit(last)
    ensures var v := DecimalValue(front);
      && Decimal(10 * v + Digit(last)) == (if v > 0 then Decimal(v) + [last] else [last])
      && Decimal(0) == "0"
  {
    OneDigit(last);
    assert (front + [last])[..|front|] == front;
  }

  lemma OneDigit(c: char)
    requires '0' <= c <= '9'
    ensures Decimal(Digit(c)) == [c] && Digit(c) < 10
    ensures forall v: nat :: (10 * v + Digit(c)) / 10 == v && (10 * v + Digit(c)) % 10 == Digit(c)
  {}

  lemma {:induction false} ZerosAreNothing(k: nat)
    ensures DecimalValue(Zeros(k)) == 0
  {
    if k > 0 {
      ZerosAreNothing(k - 1);
      assert Zeros(k)[..k - 1] == Zeros(k - 1);
    }
  }

  lemma {:induction false} PaddedReads(k: nat, n: nat)
    ensures DecimalValue(Zeros(k) + Decimal(n)) == n && IsDigits(Zeros(k) + Decimal(n))
  {
    var s, d := Zeros(k) + Decimal(n), Decimal(n);
    assert forall c :: c in s ==> c in Zeros(k) || c in d;
    if n < 10 {
      ZerosAreNothing(k);
      assert s[..|s| - 1] == Zeros(k);
    } else {
      PaddedReads(k, n / 10);
      assert s[..|s| - 1] == Zeros(k) + Decimal(n / 10);
    }
  }

  /** A segment is the number `n` when it is its decimal form, with zeros and one plus sign in front allowed. */
  ghost predicate Spells(s: string, n: nat) {
    exists k: nat :: s == Zeros(k) + Decimal(n) || s == "+" + (Zeros(k) + Decimal(n))
  }

  /** A segment parses exactly when it spells a number of 64 bits, and then as that number. */
  lemma ParseExactly(s: string, n: nat)
    ensures ParseU64(s) == Some(n) <==> n <= 0xFFFF_FFFF_FFFF_FFFF && Spells(s, n)
  {
    hide Decimal, DecimalValue, Zeros;
    var digits := if s != [] && s[0] == '+' then s[1..] else s;
    if ParseU64(s) == Some(n) {
      var k := DigitsAre(digits);
      assert s == digits || s == "+" + digits;
    }
    if k: nat :| s == Zeros(k) + Decimal(n) || s == "+" + (Zeros(k) + Decimal(n)) {
      PaddedReads(k, n);
      var d := Zeros(k) + Decimal(n);
      assert d[0] in d;
      assert ("+" + d)[1..] == d;
    }
  }

  // --------------------------------------------------------------------------- order

  /** The texts agree up to `k`, where `l` ends or has the lower code point. */
  predicate TextBeforeAt(l: string, r: string, k: nat) {
    k <= |l| && k < |r| && (k < |l| ==> l[k] < r[k]) && forall i :: 0 <= i < k ==> l[i] == r[i]
  }

  /** `l` comes before `r` as text: it differs first where its code point is lower, or it is a proper beginning. */
  ghost predicate TextBefore(l: string, r: string) { exists k: nat :: TextBeforeAt(l, r, k) }

  lemma TextBeforeTail(l: string, r: string)
    requires l != [] && r != [] && l[0] == r[0]
    ensures TextBefore(l, r) <==> TextBefore(l[1..], r[1..])
  {
    hide TextBeforeAt;
    forall k: nat | TextBeforeAt(l[1..], r[1..], k) ensures TextBeforeAt(l, r, k + 1) { TailAt(l, r, k); }
    forall k: nat | TextBeforeAt(l, r, k) ensures k > 0 && TextBeforeAt(l[1..], r[1..], k - 1) { HeadAt(l, r, k); }
  }

  lemma TailAt(l: string, r: string, k: nat)
    requires l != [] && r != [] && l[0] == r[0]
    ensures TextBeforeAt(l[1..], r[1..], k) <==> TextBeforeAt(l, r, k + 1)
  {
    assert forall i :: 0 <= i < k && k <= |l[1..]| && k < |r[1..]| ==> l[1..][i] == l[i + 1] && r[1..][i] == r[i + 1];
    if TextBeforeAt(l, r, k + 1) {
      forall i | 0 <= i < k ensures l[1..][i] == r[1..][i] { assert l[i + 1] == r[i + 1]; }
    }
  }

  lemma HeadAt(l: string, r: string, k: nat)
    requires l != [] && r != [] && l[0] == r[0] && TextBeforeAt(l, r, k)
    ensures k > 0 && TextBeforeAt(l[1..], r[1..], k - 1)
  {
    assert k > 0;
    TailAt(l, r, k - 1);
  }

  lemma TextBeforeFirst(l: string, r: string)
    requires l == [] || r == [] || l[0] != r[0]
    ensures TextBefore(l, r) <==> r != [] && (l == [] || l[0] < r[0])
  {
    assert r != [] && (l == [] || l[0] < r[0]) ==> TextBeforeAt(l, r, 0);
  }

  lemma {:induction false} TextExactly(l: string, r: string)
    ensures CompareText(l, r) == Less <==> TextBefore(l, r)
    ensures CompareText(l, r) == Equal <==> l == r
  {
    hide TextBefore;
    if l != [] && r != [] && l[0] == r[0] {
      TextExactly(l[1..], r[1..]);
      TextBeforeTail(l, r);
      assert l == [l[0]] + l[1..] && r == [r[0]] + r[1..];
    } else {
      TextBeforeFirst(l, r);
    }
  }

  /** Two segments by value when both are numbers, by text otherwise. */
  ghost predicate SegmentBefore(l: string, r: string) {
    if ParseU64(l).Some? && ParseU64(r).Some? then ParseU64(l).value < ParseU64(r).value else TextBefore(l, r)
  }

  predicate SegmentSame(l: string, r: string) {
    if ParseU64(l).Some? && ParseU64(r).Some? then ParseU64(l).value == ParseU64(r).value else l == r
  }

  lemma SegmentsExactly(l: string, r: string)
    ensures CompareSegments(l, r) == Less <==> SegmentBefore(l, r)
    ensures CompareSegments(l, r) == Equal <==> SegmentSame(l, r)
  {
    hide ParseU64, CompareText, TextBefore;
    TextExactly(l, r);
  }

  /** The segment at a position, zero where there is none. */
  function Segment(name: string, i: nat): string {
    if i < |Segments(name)| then Segments(name)[i] else "0"
  }

  /** The first segments that differ are in this order. */
  ghost predicate BeforeAt(a: string, b: string, i: nat) {
    && SegmentBefore(Segment(a, i), Segment(b, i))
    && forall j: nat :: j < i ==> SegmentSame(Segment(a, j), Segment(b, j))
  }

  lemma {:induction false} FirstDecides(a: string, b: string, i: nat, n: nat)
    requires i <= n && forall j: nat :: j < i ==> SegmentSame(Segment(a, j), Segment(b, j))
    ensures var o := CompareLists(Segments(a), Segments(b), i, n);
      && (o == Less ==> exists k: nat :: BeforeAt(a, b, k))
      && (o == Equal ==> forall j: nat :: j < n ==> SegmentSame(Segment(a, j), Segment(b, j)))
    ensures forall k: nat :: k < n && BeforeAt(a, b, k) ==> CompareLists(Segments(a), Segments(b), i, n) == Less
    decreases n - i
  {
    hide Segments, CompareSegments, SegmentBefore, SegmentSame;
    SegmentsExactly(Segment(a, i), Segment(b, i));
    if i < n {
      if CompareSegments(Segment(a, i), Segment(b, i)) == Equal {
        FirstDecides(a, b, i + 1, n);
      } else if CompareSegments(Segment(a, i), Segment(b, i)) == Less {
        assert BeforeAt(a, b, i);
      }
      forall k: nat | k < n && BeforeAt(a, b, k) ensures CompareLists(Segments(a), Segments(b), i, n) == Less {
        NotBoth(a, b, k, i);
      }
    }
    forall k: nat | k < i ensures !BeforeAt(a, b, k) {
      if BeforeAt(a, b, k) { NotBoth(a, b, k, i); }
    }
  }

  /** A segment is not both before another and the same. */
  lemma NotBoth(a: string, b: string, k: nat, i: nat)
    requires BeforeAt(a, b, k)
    ensures !SegmentSame(Segment(a, k), Segment(b, k))
    ensures i < k ==> SegmentSame(Segment(a, i), Segment(b, i))
  {
    hide Segment, CompareSegments, SegmentBefore, SegmentSame;
    SegmentsExactly(Segment(a, k), Segment(b, k));
  }

  /** Beyond both names, segments are the same zero. */
  lemma BothEnded(a: string, b: string, k: nat)
    requires Longer(Segments(a), Segments(b)) <= k
    ensures !BeforeAt(a, b, k)
  {
    hide CompareSegments, SegmentBefore, SegmentSame, Segments;
    SegmentsExactly("0", "0");
    SegmentsFlip("0", "0");
  }

  /**
   On all names: one comes first if and only if its segment does at the first position where the two differ, by value
   when both segments are numbers and by text otherwise, missing segments counting as zero.
   */
  lemma NamesExactly(a: string, b: string)
    ensures CompareNames(a, b) == Less <==> exists i: nat :: BeforeAt(a, b, i)
    ensures CompareNames(a, b) == Greater <==> exists i: nat :: BeforeAt(b, a, i)
  {
    hide BeforeAt, CompareLists, Segments;
    NamesOneWay(a, b);
    NamesOneWay(b, a);
    NamesFlip(a, b);
  }

  lemma NamesOneWay(a: string, b: string)
    ensures CompareNames(a, b) == Less <==> exists i: nat :: BeforeAt(a, b, i)
  {
    hide BeforeAt, CompareLists, Segments;
    var n := Longer(Segments(a), Segments(b));
    FirstDecides(a, b, 0, n);
    forall k: nat | BeforeAt(a, b, k) ensures k < n {
      if n <= k { BothEnded(a, b, k); }
    }
  }
}
