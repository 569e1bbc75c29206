/**
 Ordering of version directory names: numbers compare as numbers, anything else as text. Mixing the two can make
 the comparison cyclic; which sets of segments are safe is settled exactly.
 */
module VersionOrder {
  import opened JsonValues
  import opened Characters

  const U64_MAX: nat := 0xFFFF_FFFF_FFFF_FFFF

  datatype Ordering = Less | Equal | Greater

  function Flip(o: Ordering): Ordering {
    match o
    case Less => Greater
    case Equal => Equal
    case Greater => Less
  }

  function CompareNumbers(l: nat, r: nat): Ordering {
    if l < r then Less else if l == r then Equal else Greater
  }

  /** `str::cmp`: by code point, a proper prefix first. */
  function CompareText(l: string, r: string): Ordering {
    if l == [] then (if r == [] then Equal else Less)
    else if r == [] then Greater
    else if l[0] < r[0] then Less
    else if r[0] < l[0] then Greater
    else CompareText(l[1..], r[1..])
  }

  /** `str::parse::<u64>`: an optional plus sign, then digits whose value fits in 64 bits. */
  function ParseU64(s: string): Option<nat> {
    var digits := if s != [] && s[0] == '+' then s[1..] else s;
    if IsDigits(digits) && DecimalValue(digits) <= U64_MAX then Some(DecimalValue(digits)) else None
  }

  /** `name.trim_start_matches(['v', 'V'])`. */
  function TrimV(name: string): string {
    if name != [] && (name[0] == 'v' || name[0] == 'V') then TrimV(name[1..]) else name
  }

  /** `s.split('.')`: at least one piece, possibly empty ones. */
  function SplitDots(s: string): (pieces: seq<string>)
    ensures |pieces| > 0
  {
    if s == [] then [[]]
    else
      var rest := SplitDots(s[1..]);
      if s[0] == '.' then [[]] + rest else [[s[0]] + rest[0]] + rest[1..]
  }

  function Segments(name: string): seq<string> { SplitDots(TrimV(name)) }

  /** A missing segment counts as zero. */
  function At(segments: seq<string>, i: nat): string {
    if i < |segments| then segments[i] else "0"
  }

  function CompareSegments(l: string, r: string): Ordering {
    match (ParseU64(l), ParseU64(r))
    case (Some(ln), Some(rn)) => CompareNumbers(ln, rn)
    case _ => CompareText(l, r)
  }

  function Longer(l: seq<string>, r: seq<string>): nat { if |l| >= |r| then |l| else |r| }

  /** The first of the positions `i..n` that differs decides. */
  function CompareLists(l: seq<string>, r: seq<string>, i: nat, n: nat): Ordering
    requires i <= n
    decreases n - i
  {
    if i == n then Equal
    else
      var o := CompareSegments(At(l, i), At(r, i));
      if o != Equal then o else CompareLists(l, r, i + 1, n)
  }

  function CompareNames(a: string, b: string): Ordering {
    CompareLists(Segments(a), Segments(b), 0, Longer(Segments(a), Segments(b)))
  }

  method CompareVersionDirNames(a: string, b: string) returns (ordering: Ordering)
    ensures ordering == CompareNames(a, b)
  {
    hide Segments, CompareSegments;
    var left, right := Segments(a), Segments(b);
    var len := Longer(left, right);
    var index := 0;
    while index < len
      invariant index <= len
      invariant CompareNames(a, b) == CompareLists(left, right, index, len)
    {
      var l := if index < |left| then left[index] else "0";
      var r := if index < |right| then right[index] else "0";
      ordering := CompareSegments(l, r);
      if ordering != Equal { return; }
      index := index + 1;
    }
    ordering := Equal;
  }

  /** Looking further than both lists changes nothing. */
  lemma {:induction false} PadsAreEqual(l: seq<string>, r: seq<string>, i: nat, n: nat)
    requires Longer(l, r) <= n && i <= n
    ensures CompareLists(l, r, i, n) == if i < Longer(l, r) then CompareLists(l, r, i, Longer(l, r)) else Equal
    decreases n - i
  {
    hide CompareSegments;
    if i < n {
      SegmentsFlip("0", "0");
      PadsAreEqual(l, r, i + 1, n);
    }
  }

  // -------------------------------------------------------------------- segments

  lemma {:induction false} TextFlips(l: string, r: string)
    ensures CompareText(r, l) == Flip(CompareText(l, r))
    ensures CompareText(l, r) == Equal ==> l == r
  {
    if l != [] && r != [] && l[0] == r[0] {
      TextFlips(l[1..], r[1..]);
      assert l == [l[0]] + l[1..] && r == [r[0]] + r[1..];
    }
  }

  lemma {:induction false} TextIsTransitive(l: string, m: string, r: string)
    requires CompareText(l, m) != Greater && CompareText(m, r) != Greater
    ensures CompareText(l, r) != Greater
  {
    if l != [] && m != [] && r != [] && l[0] == m[0] == r[0] {
      TextIsTransitive(l[1..], m[1..], r[1..]);
    }
  }

  lemma SegmentsFlip(l: string, r: string)
    ensures CompareSegments(r, l) == Flip(CompareSegments(l, r))
  {
    TextFlips(l, r);
  }

  predicate AtMost(l: string, r: string) { CompareSegments(l, r) != Greater }

  /** `w` is no number but stands, as text, between two numbers that text and value order differently. */
  predicate Wedged(p: string, q: string, w: string) {
    && ParseU64(p).Some? && ParseU64(q).Some? && ParseU64(w).None?
    && ParseU64(p).value <= ParseU64(q).value
    && CompareText(q, w) == Less && CompareText(w, p) == Less
  }

  lemma WedgeMakesCycle(p: string, q: string, w: string)
    requires Wedged(p, q, w)
    ensures AtMost(p, q) && AtMost(q, w) && !AtMost(p, w)
  {
    TextFlips(p, w);
  }

  /** Three segments break transitivity only when two of them are numbers wedging the third. */
  lemma CycleNeedsWedge(l: string, m: string, r: string)
    requires AtMost(l, m) && AtMost(m, r) && !AtMost(l, r)
    ensures Wedged(r, l, m) || Wedged(m, r, l) || Wedged(l, m, r)
  {
    hide CompareText;
    TextFlips(l, m);
    TextFlips(m, r);
    TextFlips(l, r);
    if CompareText(l, m) != Greater && CompareText(m, r) != Greater { TextIsTransitive(l, m, r); }
    if CompareText(r, l) != Greater && CompareText(l, m) != Greater { TextIsTransitive(r, l, m); }
    if CompareText(m, r) != Greater && CompareText(r, l) != Greater { TextIsTransitive(m, r, l); }
  }

  predicate Transitive(segments: set<string>) {
    forall l, m, r :: l in segments && m in segments && r in segments && AtMost(l, m) && AtMost(m, r) ==> AtMost(l, r)
  }

  predicate Unwedged(segments: set<string>) {
    forall p, q, w :: p in segments && q in segments && w in segments ==> !Wedged(p, q, w)
  }

  lemma SegmentsTransitiveExactly(segments: set<string>)
    ensures Transitive(segments) <==> Unwedged(segments)
  {
    hide AtMost, Wedged;
    forall p, q, w | p in segments && q in segments && w in segments && Wedged(p, q, w) ensures !Transitive(segments) {
      WedgeMakesCycle(p, q, w);
    }
    forall l, m, r | l in segments && m in segments && r in segments && AtMost(l, m) && AtMost(m, r) && !AtMost(l, r)
      ensures !Unwedged(segments)
    {
      CycleNeedsWedge(l, m, r);
    }
  }

  // ----------------------------------------------------------------------- names

  predicate MadeOf(list: seq<string>, segments: set<string>) {
    forall i :: 0 <= i < |list| ==> list[i] in segments
  }

  /** A position that is not equal throughout decides in favour of a strict inequality. */
  lemma StrictSomewhere(segments: set<string>, x: string, y: string, z: string)
    requires Transitive(segments) && x in segments && y in segments && z in segments
    requires AtMost(x, y) && AtMost(y, z)
    ensures AtMost(x, z)
    ensures CompareSegments(x, z) == Equal <==> CompareSegments(x, y) == Equal && CompareSegments(y, z) == Equal
  {
    hide CompareSegments;
    SegmentsFlip(x, y);
    SegmentsFlip(y, z);
    SegmentsFlip(x, z);
    assert AtMost(z, x) ==> AtMost(y, x) && AtMost(z, y);
    assert AtMost(z, y) && AtMost(y, x) ==> AtMost(z, x);
  }

  lemma {:induction false} ListsAreTransitive(segments: set<string>, a: seq<string>, b: seq<string>, c: seq<string>, i: nat, n: nat)
    requires Transitive(segments) && "0" in segments
    requires MadeOf(a, segments) && MadeOf(b, segments) && MadeOf(c, segments) && i <= n
    requires CompareLists(a, b, i, n) != Greater && CompareLists(b, c, i, n) != Greater
    ensures CompareLists(a, c, i, n) != Greater
    decreases n - i
  {
    hide Transitive, CompareSegments;
    if i < n {
      StrictSomewhere(segments, At(a, i), At(b, i), At(c, i));
      if CompareSegments(At(a, i), At(c, i)) == Equal {
        ListsAreTransitive(segments, a, b, c, i + 1, n);
      }
    }
  }

  lemma {:induction false} ListsFlip(l: seq<string>, r: seq<string>, i: nat, n: nat)
    requires i <= n
    ensures CompareLists(r, l, i, n) == Flip(CompareLists(l, r, i, n))
    decreases n - i
  {
    hide CompareSegments;
    if i < n {
      SegmentsFlip(At(l, i), At(r, i));
      ListsFlip(l, r, i + 1, n);
    }
  }

  /** Swapping the names reverses the answer, whatever the names. */
  lemma NamesFlip(a: string, b: string)
    ensures CompareNames(b, a) == Flip(CompareNames(a, b))
  {
    ListsFlip(Segments(a), Segments(b), 0, Longer(Segments(a), Segments(b)));
  }

  predicate NotAfter(a: string, b: string) { CompareNames(a, b) != Greater }

  lemma NamesAreTransitive(segments: set<string>, a: string, b: string, c: string)
    requires Unwedged(segments) && "0" in segments
    requires MadeOf(Segments(a), segments) && MadeOf(Segments(b), segments) && MadeOf(Segments(c), segments)
    requires NotAfter(a, b) && NotAfter(b, c)
    ensures NotAfter(a, c)
  {
    hide Unwedged, Transitive, CompareLists, Segments, MadeOf;
    var l, m, r := Segments(a), Segments(b), Segments(c);
    var n := |l| + |m| + |r|;
    SegmentsTransitiveExactly(segments);
    PadsAreEqual(l, m, 0, n);
    PadsAreEqual(m, r, 0, n);
    PadsAreEqual(l, r, 0, n);
    NothingIsEqual(l, m);
    NothingIsEqual(m, r);
    NothingIsEqual(l, r);
    ListsAreTransitive(segments, l, m, r, 0, n);
  }

  lemma NothingIsEqual(l: seq<string>, r: seq<string>)
    ensures Longer(l, r) == 0 ==> CompareLists(l, r, 0, 0) == Equal
  {
  }

  ghost predicate NamesTransitive(segments: set<string>) {
    forall a, b, c |
      && MadeOf(Segments(a), segments) && MadeOf(Segments(b), segments) && MadeOf(Segments(c), segments)
      && NotAfter(a, b) && NotAfter(b, c) :: NotAfter(a, c)
  }

  lemma {:induction false} DotFree(w: string)
    requires '.' !in w
    ensures SplitDots(w) == [w]
  {
    if w != [] {
      DotFree(w[1..]);
      assert [w[0]] + w[1..] == w;
    }
  }

  lemma CompareSingle(a: string, b: string)
    requires '.' !in a && '.' !in b && TrimV(a) == a && TrimV(b) == b
    ensures CompareNames(a, b) == CompareSegments(a, b)
  {
    hide CompareSegments;
    DotFree(a);
    DotFree(b);
    assert CompareLists([a], [b], 1, 1) == Equal;
  }

  lemma NineAndTen()
    ensures ParseU64("9") == Some(9) && ParseU64("10") == Some(10)
  {
    assert DecimalValue("1") == 1 by { assert "1"[..0] == ""; }
    assert "10"[..1] == "1" && "9"[..0] == "";
  }

  lemma MixedIsNoNumber()
    ensures ParseU64("1a") == None
  {
    assert "1a"[1] in "1a";
  }

  /** The cycle 9 < 10 < 1a < 9. */
  lemma MixedSegmentsCycle()
    ensures CompareNames("9", "10") == Less && CompareNames("10", "1a") == Less && CompareNames("1a", "9") == Less
  {
    hide CompareNames, ParseU64, TrimV, CompareText;
    NineAndTen();
    MixedIsNoNumber();
    TextOf();
    CompareSingle("9", "10");
    CompareSingle("10", "1a");
    CompareSingle("1a", "9");
  }

  lemma TextOf()
    ensures TrimV("9") == "9" && TrimV("10") == "10" && TrimV("1a") == "1a"
    ensures CompareText("10", "1a") == Less && CompareText("1a", "9") == Less
  {
    assert "10"[1..] == "0" && "1a"[1..] == "a";
  }

  /** `0.w` has the segments `0` and `w`. */
  lemma AfterZero(w: string)
    requires '.' !in w
    ensures Segments("0." + w) == ["0", w]
  {
    var name := "0." + w;
    DotFree(w);
    assert TrimV(name) == name;
    assert name[1..] == "." + w && ("." + w)[1..] == w;
    assert SplitDots("." + w) == [[]] + [w];
    assert ['0'] + [] == "0";
  }

  lemma ComparesSecond(p: string, q: string)
    requires '.' !in p && '.' !in q
    ensures CompareNames("0." + p, "0." + q) == CompareSegments(p, q)
  {
    AfterZero(p);
    AfterZero(q);
    var l, r := ["0", p], ["0", q];
    assert At(l, 1) == p && At(r, 1) == q;
    assert CompareLists(l, r, 2, 2) == Equal;
    assert CompareSegments("0", "0") == Equal;
    assert CompareLists(l, r, 1, 2) == CompareSegments(p, q);
  }

  /**
   All names built from a set of segments (missing ones count as "0", so that one is among them) compare
   transitively exactly when no segment that is no number is wedged between two numbers.
   */
  lemma NamesTransitiveExactly(segments: set<string>)
    requires "0" in segments && forall w :: w in segments ==> '.' !in w
    ensures NamesTransitive(segments) <==> Unwedged(segments)
  {
    hide NotAfter, Wedged, Segments, MadeOf;
    if Unwedged(segments) {
      forall a, b, c |
        MadeOf(Segments(a), segments) && MadeOf(Segments(b), segments) && MadeOf(Segments(c), segments)
        && NotAfter(a, b) && NotAfter(b, c)
        ensures NotAfter(a, c)
      {
        NamesAreTransitive(segments, a, b, c);
      }
    } else {
      var p, q, w :| p in segments && q in segments && w in segments && Wedged(p, q, w);
      WedgeBreaksNames(segments, p, q, w);
    }
  }

  lemma WedgeBreaksNames(segments: set<string>, p: string, q: string, w: string)
    requires "0" in segments && forall s :: s in segments ==> '.' !in s
    requires p in segments && q in segments && w in segments && Wedged(p, q, w)
    ensures !NamesTransitive(segments)
  {
    hide Wedged, CompareNames, Segments, CompareSegments;
    WedgeMakesCycle(p, q, w);
    ComparesSecond(p, q);
    ComparesSecond(q, w);
    ComparesSecond(p, w);
    AfterZero(p);
    AfterZero(q);
    AfterZero(w);
    assert NotAfter("0." + p, "0." + q) && NotAfter("0." + q, "0." + w) && !NotAfter("0." + p, "0." + w);
    assert MadeOf(Segments("0." + p), segments);
    assert MadeOf(Segments("0." + q), segments);
    assert MadeOf(Segments("0." + w), segments);
  }

  // ------------------------------------------------------- names made of numbers

  predicate Numeric(name: string) {
    forall i :: 0 <= i < |Segments(name)| ==> ParseU64(Segments(name)[i]).Some?
  }

  function NumberAt(name: string, i: nat): nat
    requires Numeric(name)
  {
    if i < |Segments(name)| then ParseU64(Segments(name)[i]).value else 0
  }

  /** Lexicographic order on the numbers, with zeros after the last. */
  ghost predicate LowerAt(a: string, b: string, i: nat)
    requires Numeric(a) && Numeric(b)
  {
    NumberAt(a, i) < NumberAt(b, i) && forall j: nat :: j < i ==> NumberAt(a, j) == NumberAt(b, j)
  }

  lemma ZeroParses()
    ensures ParseU64("0") == Some(0)
  {
    assert "0"[..0] == "";
    assert DecimalValue("") == 0;
  }

  lemma NumbersDecide(a: string, b: string, i: nat)
    requires Numeric(a) && Numeric(b)
    ensures CompareSegments(At(Segments(a), i), At(Segments(b), i)) == CompareNumbers(NumberAt(a, i), NumberAt(b, i))
  {
    hide Segments, ParseU64;
    ZeroParses();
  }

  lemma {:induction false} NumericFrom(a: string, b: string, i: nat, n: nat)
    requires Numeric(a) && Numeric(b) && i <= n
    requires forall j: nat :: j < i ==> NumberAt(a, j) == NumberAt(b, j)
    ensures CompareLists(Segments(a), Segments(b), i, n) == Less ==> exists k: nat :: k < n && LowerAt(a, b, k)
    ensures CompareLists(Segments(a), Segments(b), i, n) == Greater ==> exists k: nat :: k < n && LowerAt(b, a, k)
    ensures CompareLists(Segments(a), Segments(b), i, n) == Equal ==> forall j: nat :: j < n ==> NumberAt(a, j) == NumberAt(b, j)
    decreases n - i
  {
    hide NumberAt, Segments, CompareSegments, Numeric;
    if i < n {
      NumbersDecide(a, b, i);
      if NumberAt(a, i) == NumberAt(b, i) {
        NumericFrom(a, b, i + 1, n);
      } else {
        assert LowerAt(a, b, i) || LowerAt(b, a, i);
      }
    }
  }

  lemma LowerOneWay(a: string, b: string, i: nat, j: nat)
    requires Numeric(a) && Numeric(b) && LowerAt(a, b, i)
    ensures !LowerAt(b, a, j)
    ensures NumberAt(a, i) != NumberAt(b, i)
  {
    hide NumberAt, Numeric;
  }

  /** On numeric names the comparison is exactly the lexicographic order of the zero-padded numbers. */
  lemma NumericOrderExactly(a: string, b: string)
    requires Numeric(a) && Numeric(b)
    ensures CompareNames(a, b) == Less <==> exists i: nat :: LowerAt(a, b, i)
    ensures CompareNames(a, b) == Greater <==> exists i: nat :: LowerAt(b, a, i)
    ensures CompareNames(a, b) == Equal <==> forall i: nat :: NumberAt(a, i) == NumberAt(b, i)
  {
    hide CompareLists, LowerAt, Numeric, Segments, ParseU64;
    var n := Longer(Segments(a), Segments(b));
    NumericFrom(a, b, 0, n);
    forall i: nat | LowerAt(a, b, i) ensures NumberAt(a, i) != NumberAt(b, i) && forall j: nat :: !LowerAt(b, a, j) {
      forall j: nat ensures !LowerAt(b, a, j) { LowerOneWay(a, b, i, j); }
      LowerOneWay(a, b, i, i);
    }
    forall i: nat | LowerAt(b, a, i) ensures NumberAt(a, i) != NumberAt(b, i) { LowerOneWay(b, a, i, i); }
  }

  /** Numeric names are totally preordered. */
  lemma NumericPreorder(a: string, b: string, c: string)
    requires Numeric(a) && Numeric(b) && Numeric(c)
    ensures NotAfter(a, a)
    ensures NotAfter(a, b) || NotAfter(b, a)
    ensures NotAfter(a, b) && NotAfter(b, c) ==> NotAfter(a, c)
  {
    hide CompareNames, Segments, ParseU64;
    NamesFlip(a, a);
    NamesFlip(a, b);
    if NotAfter(a, b) && NotAfter(b, c) {
      var segments := Pieces(Segments(a)) + Pieces(Segments(b)) + Pieces(Segments(c)) + {"0"};
      ZeroParses();
      NamesAreTransitive(segments, a, b, c);
    }
  }

  function Pieces(list: seq<string>): set<string> { set i | 0 <= i < |list| :: list[i] }

  // -------------------------------------------------- the list of nvm's versions

  /** Sorted as `nvm_node_bin_dirs` sorts: no version is before a neighbour that compares greater. */
  predicate SortedNewestFirst(names: seq<string>) {
    forall i :: 0 <= i < |names| - 1 ==> NotAfter(names[i + 1], names[i])
  }

  /** `filter`: the names to keep, in the order given. */
  function Filtered(names: seq<string>, keep: string -> bool): seq<string> {
    if names == [] then []
    else if keep(names[0]) then [names[0]] + Filtered(names[1..], keep)
    else Filtered(names[1..], keep)
  }

  lemma {:induction false} FilteredCounts(names: seq<string>, keep: string -> bool, name: string)
    ensures multiset(Filtered(names, keep))[name] == if keep(name) then multiset(names)[name] else 0
  {
    if names != [] {
      FilteredCounts(names[1..], keep, name);
      assert names == [names[0]] + names[1..];
    }
  }

  lemma {:induction false} FirstIsNewest(segments: set<string>, names: seq<string>, i: nat)
    requires Unwedged(segments) && "0" in segments && forall k :: 0 <= k < |names| ==> MadeOf(Segments(names[k]), segments)
    requires SortedNewestFirst(names) && i < |names|
    ensures NotAfter(names[i], names[0])
  {
    hide Unwedged, MadeOf, Segments, CompareNames;
    if i == 0 {
      NamesFlip(names[0], names[0]);
    } else {
      FirstIsNewest(segments, names, i - 1);
      NamesAreTransitive(segments, names[i], names[i - 1], names[0]);
    }
  }

  predicate Descending(names: seq<string>) {
    forall i, j :: 0 <= i < j < |names| ==> NotAfter(names[j], names[i])
  }

  /** Whatever a filter keeps of a sorted list is in descending order throughout, and complete. */
  lemma {:induction false} ListedNewestFirst(segments: set<string>, names: seq<string>, keep: string -> bool)
    requires Unwedged(segments) && "0" in segments && forall k :: 0 <= k < |names| ==> MadeOf(Segments(names[k]), segments)
    requires SortedNewestFirst(names)
    ensures Descending(Filtered(names, keep))
    ensures forall name :: name in Filtered(names, keep) <==> name in names && keep(name)
  {
    hide Unwedged, MadeOf, Segments, NotAfter;
    if names != [] {
      var rest := names[1..];
      assert names == [names[0]] + rest;
      ListedNewestFirst(segments, rest, keep);
      forall name | name in Filtered(rest, keep) ensures NotAfter(name, names[0]) {
        var k :| 0 <= k < |rest| && rest[k] == name;
        FirstIsNewest(segments, names, k + 1);
      }
    }
  }

  /** All the segments of a list of names, and the one that missing segments count as. */
  function SegmentsOf(names: seq<string>): set<string> {
    {"0"} + set k, i | 0 <= k < |names| && 0 <= i < |Segments(names[k])| :: Segments(names[k])[i]
  }

  /** A stable sort by the comparison, newest first; neighbours are in order whatever the names. */
  method SortNewestFirst(names: seq<string>) returns (sorted: seq<string>)
    ensures multiset(sorted) == multiset(names) && SortedNewestFirst(sorted)
  {
    hide NotAfter;
    sorted := [];
    for i := 0 to |names|
      invariant multiset(sorted) == multiset(names[..i]) && SortedNewestFirst(sorted)
    {
      var p := 0;
      while p < |sorted| && NotAfter(names[i], sorted[p])
        invariant p <= |sorted| && (p > 0 ==> NotAfter(names[i], sorted[p - 1]))
      {
        p := p + 1;
      }
      if p < |sorted| { OneIsNotAfter(sorted[p], names[i]); }
      InsertAt(sorted, p, names[i]);
      assert names[..i + 1] == names[..i] + [names[i]];
      sorted := sorted[..p] + [names[i]] + sorted[p..];
    }
    assert names[..|names|] == names;
  }

  lemma OneIsNotAfter(a: string, b: string)
    ensures NotAfter(a, b) || NotAfter(b, a)
  {
    hide CompareNames;
    NamesFlip(a, b);
  }

  lemma InsertAt(sorted: seq<string>, p: nat, name: string)
    requires SortedNewestFirst(sorted) && p <= |sorted|
    requires (p > 0 ==> NotAfter(name, sorted[p - 1])) && (p < |sorted| ==> NotAfter(sorted[p], name))
    ensures SortedNewestFirst(sorted[..p] + [name] + sorted[p..])
    ensures multiset(sorted[..p] + [name] + sorted[p..]) == multiset(sorted) + multiset{name}
  {
    hide NotAfter;
    var after := sorted[..p] + [name] + sorted[p..];
    forall i | 0 <= i < |after| - 1 ensures NotAfter(after[i + 1], after[i]) {
      if i + 1 < p { assert after[i] == sorted[i] && after[i + 1] == sorted[i + 1]; }
      else if i > p { assert after[i] == sorted[i - 1] && after[i + 1] == sorted[i]; }
    }
    CountsAdd(sorted, p, name);
  }

  lemma CountsAdd(names: seq<string>, p: nat, name: string)
    requires p <= |names|
    ensures multiset(names[..p] + [name] + names[p..]) == multiset(names) + multiset{name}
  {
    assert names == names[..p] + names[p..];
  }

  /**
   `nvm_node_bin_dirs`: every version directory with a `bin` is listed, as often as it is there and nothing else;
   newest first throughout, unless a segment that is no number is wedged between two numbers.
   */
  method NvmNodeBinDirs(entries: seq<string>, isDir: string -> bool, hasBin: string -> bool) returns (listed: seq<string>)
    ensures forall name :: multiset(listed)[name] == if isDir(name) && hasBin(name) then multiset(entries)[name] else 0
    ensures Unwedged(SegmentsOf(Filtered(entries, isDir))) ==> Descending(listed)
  {
    hide Unwedged, NotAfter, Segments, Descending, SortedNewestFirst;
    var versions := Filtered(entries, isDir);
    var sorted := SortNewestFirst(versions);
    listed := Filtered(sorted, hasBin);
    forall name ensures multiset(listed)[name] == if isDir(name) && hasBin(name) then multiset(entries)[name] else 0 {
      FilteredCounts(entries, isDir, name);
      FilteredCounts(sorted, hasBin, name);
    }
    if Unwedged(SegmentsOf(versions)) {
      forall k | 0 <= k < |sorted| ensures MadeOf(Segments(sorted[k]), SegmentsOf(versions)) {
        assert sorted[k] in multiset(sorted);
        assert sorted[k] in versions;
        PiecesAreMade(versions, sorted[k]);
      }
      ListedNewestFirst(SegmentsOf(versions), sorted, hasBin);
    }
  }

  lemma PiecesAreMade(names: seq<string>, name: string)
    requires name in names
    ensures MadeOf(Segments(name), SegmentsOf(names)) && "0" in SegmentsOf(names)
  {
    hide Segments;
  }

  // ------------------------------------------- version names as tools print them

  function Dotted(numbers: seq<nat>): string
    requires |numbers| > 0
  {
    if |numbers| == 1 then Decimal(numbers[0]) else Decimal(numbers[0]) + "." + Dotted(numbers[1..])
  }

  lemma {:induction false} SplitAtDot(w: string, rest: string)
    requires '.' !in w
    ensures SplitDots(w + "." + rest) == [w] + SplitDots(rest)
  {
    var s := w + "." + rest;
    if w == [] {
      assert s[1..] == rest;
    } else {
      assert s[1..] == w[1..] + "." + rest;
      SplitAtDot(w[1..], rest);
      assert [w[0]] + w[1..] == w;
    }
  }

  lemma {:induction false} DottedSplits(numbers: seq<nat>)
    requires |numbers| > 0
    ensures |SplitDots(Dotted(numbers))| == |numbers|
    ensures forall i :: 0 <= i < |numbers| ==> SplitDots(Dotted(numbers))[i] == Decimal(numbers[i])
  {
    hide SplitDots, Decimal;
    var head := Decimal(numbers[0]);
    assert '.' !in head;
    if |numbers| == 1 {
      DotFree(head);
    } else {
      DottedSplits(numbers[1..]);
      SplitAtDot(head, Dotted(numbers[1..]));
    }
  }

  lemma PrintedParses(n: nat)
    requires n <= U64_MAX
    ensures ParseU64(Decimal(n)) == Some(n)
  {
    hide Decimal, DecimalValue;
    var s := Decimal(n);
    DecimalRoundTrip(n);
    assert s[0] in s;
  }

  lemma PrintedSegments(numbers: seq<nat>)
    requires |numbers| > 0
    ensures Segments("v" + Dotted(numbers)) == SplitDots(Dotted(numbers))
  {
    hide SplitDots, Dotted;
    var name := "v" + Dotted(numbers);
    DottedStartsWithDigit(numbers);
    assert name[1..] == Dotted(numbers);
    assert TrimV(name) == TrimV(name[1..]) == Dotted(numbers);
  }

  /** `v20.11.1` and its like are numeric names, and read back as the numbers they were printed from. */
  lemma PrintedVersionsAreNumeric(numbers: seq<nat>)
    requires |numbers| > 0 && forall i :: 0 <= i < |numbers| ==> numbers[i] <= U64_MAX
    ensures var name := "v" + Dotted(numbers);
      Numeric(name) && forall i: nat :: NumberAt(name, i) == if i < |numbers| then numbers[i] else 0
  {
    hide SplitDots, Decimal, DecimalValue, ParseU64, Segments, Dotted;
    PrintedSegments(numbers);
    DottedSplits(numbers);
    forall i | 0 <= i < |numbers| ensures ParseU64(Decimal(numbers[i])) == Some(numbers[i]) {
      PrintedParses(numbers[i]);
    }
  }

  lemma DottedStartsWithDigit(numbers: seq<nat>)
    requires |numbers| > 0
    ensures Dotted(numbers) != [] && '0' <= Dotted(numbers)[0] <= '9'
  {
    hide Decimal;
    assert Decimal(numbers[0])[0] in Decimal(numbers[0]);
  }
}
