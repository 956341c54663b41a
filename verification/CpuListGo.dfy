/** The Go collector's countCPUList, and how it agrees with the C parser on the
    cpulist texts both accept. */
module CpuListGo {
  import opened Prelude
  import opened Decimal
  import opened CpuBits
  import opened CpuList
  import opened CpuListLaws
  import opened GoInt
  import opened GoStrings

  /** What one range part adds: nothing unless both bounds are numbers in order. */
  function BoundsCount(a: Option<int>, b: Option<int>): int {
    if a.None? || b.None? || b.value < a.value then 0 else b.value - a.value + 1
  }

  /** What one comma-separated part adds to the count. */
  function PartCount(part: string): int {
    var cut := Cut(part, '-');
    if !cut.found then 1
    else BoundsCount(Atoi(TrimSpace(cut.before)), Atoi(TrimSpace(cut.after)))
  }

  function PartsCount(parts: seq<string>): int {
    Sum(PartCount, parts)
  }

  /** The function counts is PartCount, unfolded only where PartCount is spoken of. */
  ghost predicate Counts(counts: string -> int) {
    forall part: string {:trigger PartCount(part)} :: counts(part) == PartCount(part)
  }

  /** The loop body. */
  method AddPart(count: int, part: string, ghost total: int, ghost counts: string -> int) returns (next: int)
    requires count == Wrap64(total) && Counts(counts)
    ensures next == Wrap64(total + counts(part))
  {
    WrapAdds(total, PartCount(part));
    var cut := Cut(part, '-');
    if !cut.found {
      return Wrap64(count + 1);
    }
    var a, b := Atoi(TrimSpace(cut.before)), Atoi(TrimSpace(cut.after));
    assert PartCount(part) == BoundsCount(a, b);
    if a.None? || b.None? || b.value < a.value {
      return count;
    }
    return Wrap64(count + Wrap64(b.value - a.value + 1));
  }

  /** What countCPUList returns, in 64-bit integers. */
  function GoCount(list: string): int {
    if list == "" then 0 else Wrap64(PartsCount(Split(list, ',')))
  }

  method CountCPUList(list: string) returns (count: int)
    ensures count == GoCount(list)
  {
    if list == "" {
      return 0;
    }
    count := SumParts(Split(list, ','), PartCount);
  }

  /** The loop over the parts. */
  method SumParts(parts: seq<string>, ghost counts: string -> int) returns (count: int)
    requires Counts(counts)
    ensures count == Wrap64(Sum(counts, parts))
  {
    count := 0;
    ghost var total := 0;
    var i := 0;
    while i < |parts|
      invariant 0 <= i <= |parts|
      invariant total == Sum(counts, parts[..i]) && count == Wrap64(total)
    {
      SumNext(counts, parts, i);
      count := AddPart(count, parts[i], total, counts);
      total := total + counts(parts[i]);
      i := i + 1;
    }
    assert parts[..i] == parts;
  }

  lemma SumNext<T>(f: T -> int, xs: seq<T>, i: nat)
    requires i < |xs|
    ensures Sum(f, xs[..i + 1]) == Sum(f, xs[..i]) + f(xs[i])
  {
    SumAppend(f, xs[..i], xs[i]);
    assert xs[..i] + [xs[i]] == xs[..i + 1];
  }

  function Size(r: Range): int {
    r.hi - r.lo + 1
  }

  /** The total width of the ranges, overlaps counted twice. */
  function Width(rs: seq<Range>): int {
    Sum(Size, rs)
  }

  ghost predicate Disjoint(rs: seq<Range>) {
    forall i, j :: 0 <= i < j < |rs| ==> rs[i].hi < rs[j].lo || rs[j].hi < rs[i].lo
  }

  // ----- Each part of an accepted text is one range

  /** Only blanks from a up to b. */
  ghost predicate Blanks(s: string, a: nat, b: nat)
    requires a <= b <= |s|
  {
    forall i :: a <= i < b ==> Blank(s[i], true)
  }

  lemma {:induction false} SkipStops(s: string, k: nat, newline: bool)
    requires k <= |s|
    ensures var e := SkipBlanks(s, k, newline);
      Blanks(s, k, e) && (e < |s| ==> !Blank(s[e], newline))
    decreases |s| - k
  {
    if k < |s| && Blank(s[k], newline) {
      SkipStops(s, k + 1, newline);
    }
  }

  /** A numeral with blanks around it is trimmed and read. */
  lemma AtoiOfPadded(s: string, p: nat, k: nat, e: nat, q: nat)
    requires p <= k < e <= q <= |s| && Blanks(s, p, k) && Blanks(s, e, q)
    requires AllDigits(s, k, e) && Value(s, k, e) <= UINT32_MAX
    ensures Atoi(TrimSpace(s[p..q])) == Some(Value(s, k, e))
  {
    TrimPadded(s, p, k, e, q);
    AtoiOfSlice(s, k, e, s[k..e]);
  }

  lemma TrimPadded(s: string, p: nat, k: nat, e: nat, q: nat)
    requires p <= k < e <= q <= |s| && !IsSpace(s[k]) && !IsSpace(s[e - 1])
    requires forall i :: p <= i < k || e <= i < q ==> IsSpace(s[i])
    ensures TrimSpace(s[p..q]) == s[k..e]
  {
    var t := s[p..q];
    forall i | 0 <= i < k - p || e - p <= i < |t| ensures IsSpace(t[i]) {
      assert t[i] == s[p + i];
    }
    assert t[k - p] == s[k] && t[e - p - 1] == s[e - 1];
    TrimSpaceIs(t, k - p, e - p);
    InnerSlice(s, p, k, e, q);
  }

  lemma InnerSlice(s: string, p: nat, k: nat, e: nat, q: nat)
    requires p <= k <= e <= q <= |s|
    ensures s[p..q][k - p..e - p] == s[k..e]
  {
    var x, y := s[p..q][k - p..e - p], s[k..e];
    assert forall i :: 0 <= i < |x| ==> x[i] == s[p..q][k - p + i] == s[k + i] == y[i];
  }

  lemma AtoiOfSlice(s: string, k: nat, e: nat, d: string)
    requires AllDigits(s, k, e) && k < e && Value(s, k, e) <= UINT32_MAX && d == s[k..e]
    ensures Atoi(d) == Some(Value(s, k, e))
  {
    ValueMoves(s, k, e, d, 0);
    AtoiOfNumeral(d);
  }

  lemma AtoiOfNumeral(d: string)
    requires AllDigits(d, 0, |d|) && d != "" && Value(d, 0, |d|) <= UINT32_MAX
    ensures Atoi(d) == Some(Value(d, 0, |d|))
  {
    DigitsEndIs(d, 0, |d|);
  }

  /** A part with a dash is cut at the first one. */
  lemma PairCut(s: string, p: nat, dash: nat, q: nat)
    requires p <= dash < q <= |s| && s[dash] == '-' && forall i :: p <= i < dash ==> s[i] != '-'
    ensures Cut(s[p..q], '-') == CutResult(s[p..dash], s[dash + 1..q], true)
  {
    var part, d := s[p..q], dash - p;
    assert forall i :: 0 <= i < |part| ==> part[i] == s[p + i];
    IndexOfIs(part, 0, '-', d);
    assert part[..d] == s[p..dash] && part[d + 1..] == s[dash + 1..q];
  }

  lemma PairCount(s: string, p: nat, k: nat, dash: nat, e: nat, q: nat)
    requires p <= k < dash && dash + 1 < e <= q <= |s| && s[dash] == '-'
    requires Blanks(s, p, k) && Blanks(s, e, q)
    requires AllDigits(s, k, dash) && AllDigits(s, dash + 1, e)
    requires Value(s, k, dash) <= Value(s, dash + 1, e) <= UINT32_MAX
    ensures PartCount(s[p..q]) == Value(s, dash + 1, e) - Value(s, k, dash) + 1
  {
    PairCut(s, p, dash, q);
    AtoiOfPadded(s, p, k, dash, dash);
    AtoiOfPadded(s, dash + 1, dash + 1, e, q);
    PartCountIs(s[p..q], Cut(s[p..q], '-'), Some(Value(s, k, dash)), Some(Value(s, dash + 1, e)));
  }

  lemma PartCountIs(part: string, cut: CutResult, a: Option<int>, b: Option<int>)
    requires cut == Cut(part, '-') && cut.found
    requires a == Atoi(TrimSpace(cut.before)) && b == Atoi(TrimSpace(cut.after))
    ensures PartCount(part) == BoundsCount(a, b)
  {
  }

  /** The text of one element, blanks around it included, holds no comma and counts as
      the width of its range. */
  lemma ElementCount(s: string, p: nat, k: nat, q: nat, nwords: nat)
    requires p <= k <= |s| && Blanks(s, p, k) && ElementAt(s, k, nwords).Element?
    requires ElementAt(s, k, nwords).next <= q <= |s| && Blanks(s, ElementAt(s, k, nwords).next, q)
    ensures forall i :: p <= i < q ==> s[i] != ','
    ensures PartCount(s[p..q]) == Size(ElementAt(s, k, nwords).range)
  {
    var lo, e := NumberAt(s, k), ElementAt(s, k, nwords);
    ElementIs(s, k, nwords);
    NumberIs(s, k);
    if lo.next < |s| && s[lo.next] == '-' {
      NumberIs(s, lo.next + 1);
      PairPlain(s, p, k, lo.next, e.next, q);
      PairCount(s, p, k, lo.next, e.next, q);
    } else {
      SinglePlain(s, p, k, e.next, q);
    }
  }

  lemma SinglePlain(s: string, p: nat, k: nat, e: nat, q: nat)
    requires p <= k <= e <= q <= |s| && Blanks(s, p, k) && Blanks(s, e, q) && AllDigits(s, k, e)
    ensures forall i :: p <= i < q ==> s[i] != ',' && s[i] != '-'
  {
  }

  lemma PairPlain(s: string, p: nat, k: nat, dash: nat, e: nat, q: nat)
    requires p <= k <= dash < e <= q <= |s| && Blanks(s, p, k) && Blanks(s, e, q)
    requires AllDigits(s, k, dash) && s[dash] == '-' && AllDigits(s, dash + 1, e)
    ensures forall i :: p <= i < q ==> s[i] != ','
  {
    SinglePlain(s, p, k, dash, dash);
    SinglePlain(s, dash + 1, dash + 1, e, q);
  }

  /** An element is one number, or two with a dash between. */
  lemma ElementIs(s: string, k: nat, nwords: nat)
    requires k <= |s| && ElementAt(s, k, nwords).Element?
    ensures NumberAt(s, k).Number?
    ensures var lo, e := NumberAt(s, k), ElementAt(s, k, nwords);
      if lo.next < |s| && s[lo.next] == '-' then
        var hi := NumberAt(s, lo.next + 1);
        hi.Number? && lo.value <= hi.value && e == Element(Range(lo.value, hi.value), hi.next)
      else e == Element(Range(lo.value, lo.value), lo.next)
  {
  }

  lemma NumberIs(s: string, k: nat)
    requires k <= |s|
    requires NumberAt(s, k).Number?
    ensures var n := NumberAt(s, k); AllDigits(s, k, n.next) && n.value == Value(s, k, n.next)
  {
    DigitsEndStops(s, k);
  }

  /** One element of an accepted list: the end, or a comma and an accepted list. */
  lemma AcceptedStep(s: string, k: nat, nwords: nat)
    requires k <= |s| && ListFrom(s, k, nwords).rc == 0
    ensures ElementAt(s, k, nwords).Element?
    ensures var e := ElementAt(s, k, nwords);
      var sep := SkipBlanks(s, e.next, true);
      if sep == |s| then ListFrom(s, k, nwords).ranges == [] + [e.range]
      else
        var next := SkipBlanks(s, sep + 1, false);
        && s[sep] == ',' && ListFrom(s, next, nwords).rc == 0
        && ListFrom(s, k, nwords).ranges == [e.range] + ListFrom(s, next, nwords).ranges
  {
  }

  /** From the start p of a part whose first element is at k, the parts add up to the
      total width of the ranges. */
  lemma {:induction false} PartsAreRanges(s: string, p: nat, k: nat, nwords: nat)
    requires p <= k <= |s| && Blanks(s, p, k) && ListFrom(s, k, nwords).rc == 0
    ensures PartsCount(SplitFrom(s, p, ',')) == Width(ListFrom(s, k, nwords).ranges)
    decreases |s| - k
  {
    AcceptedStep(s, k, nwords);
    var e, ranges := ElementAt(s, k, nwords), ListFrom(s, k, nwords).ranges;
    var sep := SkipBlanks(s, e.next, true);
    SkipStops(s, e.next, true);
    ElementCount(s, p, k, sep, nwords);
    IndexOfIs(s, p, ',', sep);
    var part := s[p..sep];
    if sep == |s| {
      OnePart(part, e.range, SplitFrom(s, p, ','), ranges);
    } else {
      var next := SkipBlanks(s, sep + 1, false);
      SkipStops(s, sep + 1, false);
      SplitGoesOn(s, p, ',', sep, part);
      PartsAreRanges(s, sep + 1, next, nwords);
      MoreParts(part, e.range, SplitFrom(s, p, ','), ranges,
                SplitFrom(s, sep + 1, ','), ListFrom(s, next, nwords).ranges);
    }
  }

  lemma OnePart(part: string, r: Range, parts: seq<string>, rs: seq<Range>)
    requires PartCount(part) == Size(r) && parts == [part] && rs == [] + [r]
    ensures PartsCount(parts) == Width(rs)
  {
    SumAppend(PartCount, [], part);
    SumAppend(Size, [], r);
    assert [] + [part] == [part];
  }

  lemma MoreParts(part: string, r: Range, parts: seq<string>, rs: seq<Range>,
                  parts': seq<string>, rs': seq<Range>)
    requires PartCount(part) == Size(r) && PartsCount(parts') == Width(rs')
    requires parts == [part] + parts' && rs == [r] + rs'
    ensures PartsCount(parts) == Width(rs)
  {
    SumCons(PartCount, part, parts');
    SumCons(Size, r, rs');
  }

  // ----- Distinct CPUs against total width

  /** The CPUs of one range. */
  ghost function RangeCpus(lo: nat, hi: int): (cpus: set<nat>)
    requires lo <= hi + 1
    ensures |cpus| == hi + 1 - lo
    ensures forall c: nat :: c in cpus <==> lo <= c <= hi
    decreases hi + 1 - lo
  {
    if lo == hi + 1 then {} else RangeCpus(lo, hi - 1) + {hi}
  }

  /** The CPUs a list of ranges names. */
  ghost function ListCpus(rs: seq<Range>): (cpus: set<nat>)
    requires Ordered(rs)
  {
    if rs == [] then {}
    else ListCpus(rs[..|rs| - 1]) + RangeCpus(rs[|rs| - 1].lo, rs[|rs| - 1].hi)
  }

  lemma {:induction false} ListCpusIsUnion(rs: seq<Range>, c: nat)
    requires Ordered(rs)
    ensures c in ListCpus(rs) <==> Union(rs, c)
  {
    if rs != [] {
      var n := |rs| - 1;
      ListCpusIsUnion(rs[..n], c);
      assert rs == rs[..n] + [rs[n]];
      UnionAppend(rs[..n], rs[n]);
    }
  }

  lemma UnionSize(s: set<nat>, t: set<nat>)
    ensures |s + t| <= |s| + |t|
    ensures |s + t| == |s| + |t| <==> s !! t
  {
    assert |s + t| == |s| + |t| - |s * t|;
    assert s * t == {} <==> |s * t| == 0;
    assert s !! t ==> s * t == {};
    assert s * t == {} ==> forall x :: !(x in s && x in t) by {
      assert forall x :: x in s && x in t ==> x in s * t;
    }
  }

  /** The distinct CPUs number at most the total width, and exactly that many if and
      only if the ranges are pairwise disjoint. */
  lemma {:induction false} WidthBoundsCpus(rs: seq<Range>)
    requires Ordered(rs)
    ensures |ListCpus(rs)| <= Width(rs)
    ensures |ListCpus(rs)| == Width(rs) <==> Disjoint(rs)
  {
    if rs != [] {
      var n := |rs| - 1;
      var front, last := ListCpus(rs[..n]), RangeCpus(rs[n].lo, rs[n].hi);
      WidthBoundsCpus(rs[..n]);
      UnionSize(front, last);
      if Disjoint(rs) {
        LastIsApart(rs, front, last);
      } else if front !! last && Disjoint(rs[..n]) {
        AllApart(rs, front, last);
      }
    }
  }

  lemma LastIsApart(rs: seq<Range>, front: set<nat>, last: set<nat>)
    requires rs != [] && Ordered(rs) && Disjoint(rs)
    requires front == ListCpus(rs[..|rs| - 1])
    requires last == RangeCpus(rs[|rs| - 1].lo, rs[|rs| - 1].hi)
    ensures front !! last && Disjoint(rs[..|rs| - 1])
  {
    forall c: nat | c in front && c in last ensures false {
      ListCpusIsUnion(rs[..|rs| - 1], c);
      NotCovered(rs, c);
    }
    DisjointFront(rs);
  }

  lemma DisjointFront(rs: seq<Range>)
    requires rs != [] && Disjoint(rs)
    ensures Disjoint(rs[..|rs| - 1])
  {
  }

  /** What the last of disjoint ranges covers, no other does. */
  lemma NotCovered(rs: seq<Range>, c: nat)
    requires rs != [] && Disjoint(rs) && rs[|rs| - 1].Covers(c)
    ensures !Union(rs[..|rs| - 1], c)
  {
    var n := |rs| - 1;
    forall i | 0 <= i < n ensures !rs[..n][i].Covers(c) {
      assert rs[..n][i] == rs[i];
    }
  }

  lemma AllApart(rs: seq<Range>, front: set<nat>, last: set<nat>)
    requires rs != [] && Ordered(rs) && Disjoint(rs[..|rs| - 1])
    requires front == ListCpus(rs[..|rs| - 1]) && front !! last
    requires last == RangeCpus(rs[|rs| - 1].lo, rs[|rs| - 1].hi)
    ensures Disjoint(rs)
  {
    forall i, j | 0 <= i < j < |rs| ensures rs[i].hi < rs[j].lo || rs[j].hi < rs[i].lo {
      if j == |rs| - 1 {
        Apart(rs, i, front, last);
      } else {
        assert rs[..|rs| - 1][i] == rs[i] && rs[..|rs| - 1][j] == rs[j];
      }
    }
  }

  lemma Apart(rs: seq<Range>, i: nat, front: set<nat>, last: set<nat>)
    requires Ordered(rs)
    requires i < |rs| - 1
    requires front == ListCpus(rs[..|rs| - 1]) && front !! last
    requires last == RangeCpus(rs[|rs| - 1].lo, rs[|rs| - 1].hi)
    ensures rs[i].hi < rs[|rs| - 1].lo || rs[|rs| - 1].hi < rs[i].lo
  {
    var n := |rs| - 1;
    var c: nat := if rs[i].lo <= rs[n].lo then rs[n].lo else rs[i].lo;
    ListCpusIsUnion(rs[..n], c);
    assert rs[..n][i] == rs[i];
    assert rs[i].Covers(c) ==> rs[..n][i].Covers(c);
    assert !(c in front && c in last);
  }

  ghost predicate Ordered(rs: seq<Range>) {
    forall i :: 0 <= i < |rs| ==> rs[i].lo <= rs[i].hi
  }

  /** The ranges read are in order, and no more than there are characters. */
  lemma {:induction false} RangesRead(s: string, k: nat, nwords: nat)
    requires k <= |s|
    ensures var rs := ListFrom(s, k, nwords).ranges; Ordered(rs) && |rs| <= |s| - k
    decreases |s| - k
  {
    var step := StepAt(s, k, nwords);
    if step.Onward? {
      RangesRead(s, step.next, nwords);
    }
  }

  lemma {:induction false} WidthBound(rs: seq<Range>)
    requires Ordered(rs)
    ensures 0 <= Width(rs) <= 0x1_0000_0000 * |rs|
  {
    if rs != [] {
      WidthBound(rs[..|rs| - 1]);
    }
  }

  // ----- The two counts

  /** Nothing but blanks, as many as there are. */
  ghost predicate AllBlank(s: string) {
    SkipBlanks(s, 0, true) == |s|
  }

  /** Go counts a text of nothing but blanks as one CPU, unless it is empty. */
  lemma BlankCount(s: string)
    requires AllBlank(s)
    ensures GoCount(s) == if s == "" then 0 else 1
  {
    if s != "" {
      SkipStops(s, 0, true);
      IndexOfIs(s, 0, ',', |s|);
      SumAppend(PartCount, [], s[0..|s|]);
      assert [] + [s[0..|s|]] == [s[0..|s|]];
    }
  }

  /** On every text the C parser accepts, Go's count is the total width of the ranges if
      and only if the text is not made of blanks alone, unless it is empty, and the width
      does not wrap. */
  lemma GoCountExactly(s: string, nwords: nat)
    requires ParseList(s, nwords).rc == 0
    ensures var rs := ParseList(s, nwords).ranges;
      GoCount(s) == Width(rs) <==> (s == "" || !AllBlank(s)) && Width(rs) <= MAX_INT
  {
    var k, rs := SkipBlanks(s, 0, true), ParseList(s, nwords).ranges;
    if AllBlank(s) {
      BlankCount(s);
      assert rs == [];
    } else {
      SkipStops(s, 0, true);
      PartsAreRanges(s, 0, k, nwords);
      RangesRead(s, k, nwords);
      WidthBound(rs);
      WrapsExactly(Width(rs));
    }
  }

  /** A text shorter than 2^31 characters is too short for its width to wrap. */
  lemma WidthFits(s: string, nwords: nat)
    requires |s| < 0x8000_0000
    ensures Ordered(ParseList(s, nwords).ranges) && 0 <= Width(ParseList(s, nwords).ranges) <= MAX_INT
  {
    var k, rs := SkipBlanks(s, 0, true), ParseList(s, nwords).ranges;
    RangesRead(s, k, nwords);
    WidthBound(rs);
  }

  /** The values the two programs return for one text, empty or with a range in it, that
      the C parser accepts: Go's count is the total width of the ranges, the C count is
      never above it, and the two are equal if and only if the ranges are pairwise
      disjoint. */
  lemma CountsAgree(s: string, words: seq<u64>)
    requires |s| < 0x8000_0000 && |words| < 0x400_0000 && (s == "" || !AllBlank(s))
    requires ParseList(s, |words|).rc == 0 && Holds(words, ParseList(s, |words|).ranges)
    ensures var rs, c := ParseList(s, |words|).ranges, |Cpus(words)| % 0x1_0000_0000;
      GoCount(s) == Width(rs) && c <= GoCount(s) && (c == GoCount(s) <==> Disjoint(rs))
  {
    var rs := ParseList(s, |words|).ranges;
    GoCountExactly(s, |words|);
    WidthFits(s, |words|);
    WidthBoundsCpus(rs);
    HeldCpus(words, rs);
    CountIsExactBelow(words);
  }

  lemma HeldCpus(words: seq<u64>, rs: seq<Range>)
    requires Holds(words, rs) && Ordered(rs)
    ensures Cpus(words) == ListCpus(rs)
  {
    forall c: nat ensures c in Cpus(words) <==> c in ListCpus(rs) {
      ListCpusIsUnion(rs, c);
      assert Has(words, c) <==> Union(rs, c);
    }
  }
}
