/** Laws of the cpulist parser: when the count is exact, and joining and rendering lists. */
module CpuListLaws {
  import opened Prelude
  import opened Decimal
  import opened CpuBits
  import opened CpuList

  // ----- The 32-bit count

  /** The numbers below n. */
  ghost function Below(n: nat): (s: set<nat>)
    ensures |s| == n
    ensures forall c: nat :: c in s <==> c < n
  {
    if n == 0 then {} else Below(n - 1) + {n - 1}
  }

  lemma SubsetSize(s: set<nat>, n: nat)
    requires forall c :: c in s ==> c < n
    ensures |s| <= n
    ensures |s| == n <==> forall c: nat :: c < n ==> c in s
  {
    var all := Below(n);
    assert s <= all;
    SizeOfSubset(s, all);
    if forall c: nat :: c < n ==> c in s {
      assert s == all;
    }
  }

  lemma {:induction false} SizeOfSubset(s: set<nat>, t: set<nat>)
    requires s <= t
    ensures |s| <= |t|
    ensures |s| == |t| ==> s == t
  {
    assert |t| == |s| + |t - s| by {
      assert t == s + (t - s);
    }
    if |s| == |t| {
      assert t - s == {};
    }
  }

  /** The 32-bit count is the number of distinct CPUs exactly when the list leaves out
      some 32-bit number; when it names all 2^32 of them the count is 0. */
  lemma CountIsExactUnlessFull(words: seq<u64>, rs: seq<Range>)
    requires Holds(words, rs)
    ensures |Cpus(words)| % 0x1_0000_0000 == |Cpus(words)| <==> exists c: u32 :: !Union(rs, c)
    ensures (forall c: u32 :: Union(rs, c)) ==> |Cpus(words)| % 0x1_0000_0000 == 0
  {
    BelowFull(words, rs);
    if c: u32 :| !Union(rs, c) {
      assert !Has(words, c);
    } else {
      forall c: u32 ensures Has(words, c) {
        assert Union(rs, c);
      }
    }
  }

  lemma BelowFull(words: seq<u64>, rs: seq<Range>)
    requires Holds(words, rs)
    ensures |Cpus(words)| <= 0x1_0000_0000
    ensures |Cpus(words)| == 0x1_0000_0000 <==> forall c: u32 :: Has(words, c)
  {
    var s := Cpus(words);
    forall c | c in s ensures c < 0x1_0000_0000 {
      var i :| 0 <= i < |rs| && rs[i].Covers(c);
    }
    SubsetSize(s, 0x1_0000_0000);
    forall c: nat ensures c in s <==> Has(words, c) {
    }
    if forall c: u32 :: Has(words, c) {
      forall c: nat | c < 0x1_0000_0000 ensures c in s {
        var d: u32 := c;
        assert Has(words, d);
      }
    } else {
      var c: u32 :| !Has(words, c);
      assert c !in s;
    }
  }

  /** The list "0-4294967295" over 2^26 words: accepted, and counted as 0 CPUs. */
  lemma FullListCountsAsZero() returns (words: seq<u64>)
    ensures var full := [Range(0, UINT32_MAX)];
      && |words| == 0x400_0000 && ParseList(RenderList(full), |words|) == Parsed(full, 0)
      && Holds(words, full) && |Cpus(words)| % 0x1_0000_0000 == 0
  {
    var full := [Range(0, UINT32_MAX)];
    ParseRendered(full, 0x400_0000);
    words := seq(0x400_0000, _ => WORD - 1);
    OnesHoldAll(words, full);
    CountIsExactUnlessFull(words, full);
  }

  lemma OnesHoldAll(words: seq<u64>, full: seq<Range>)
    requires |words| == 0x400_0000 && forall i :: 0 <= i < |words| ==> words[i] == WORD - 1
    requires full == [Range(0, UINT32_MAX)]
    ensures Holds(words, full) && forall c: u32 :: Union(full, c)
  {
    forall c: nat ensures Has(words, c) <==> c < 0x1_0000_0000 {
      if c / 64 < |words| {
        OnesBit(64, c % 64);
        WordIsPow2();
      }
    }
    forall c: nat ensures Union(full, c) <==> c < 0x1_0000_0000 {
      assert full[0].Covers(c) <==> c < 0x1_0000_0000;
    }
  }

  lemma {:induction false} OnesBit(n: nat, i: nat)
    requires i < n
    ensures Bit(Pow2(n) - 1, i)
  {
    if i > 0 {
      OnesBit(n - 1, i - 1);
    }
  }

  /** With fewer than 2^26 words the count is exact whatever the list says. */
  lemma CountIsExactBelow(words: seq<u64>)
    requires |words| < 0x400_0000
    ensures |Cpus(words)| % 0x1_0000_0000 == |Cpus(words)|
  {
    CpusCount(words);
    TotalCountBound(words);
  }

  // ----- Joining two lists with a comma

  /** t begins with a, and a comma follows. */
  ghost predicate Before(a: string, t: string) {
    && |a| < |t| && t[|a|] == ','
    && forall i :: 0 <= i < |a| ==> t[i] == a[i]
  }

  /** t ends with b, which starts at off. */
  ghost predicate After(b: string, t: string, off: nat) {
    && |t| == off + |b|
    && forall i :: 0 <= i < |b| ==> t[off + i] == b[i]
  }

  lemma NumberBefore(a: string, t: string, k: nat)
    requires Before(a, t) && k <= |a|
    ensures NumberAt(t, k) == NumberAt(a, k)
  {
    var e := DigitsEnd(a, k);
    DigitsEndStops(a, k);
    DigitsEndIs(t, k, e);
    ValueMoves(a, k, e, t, k);
  }

  lemma {:induction false} SkipBefore(a: string, t: string, k: nat, newline: bool)
    requires Before(a, t) && k <= |a|
    ensures SkipBlanks(t, k, newline) == SkipBlanks(a, k, newline)
    decreases |a| - k
  {
    if k < |a| && Blank(a[k], newline) {
      SkipBefore(a, t, k + 1, newline);
    }
  }

  lemma ElementBefore(a: string, t: string, k: nat, nwords: nat)
    requires Before(a, t) && k <= |a|
    ensures ElementAt(t, k, nwords) == ElementAt(a, k, nwords)
  {
    NumberBefore(a, t, k);
    var n := NumberAt(a, k);
    if n.Number? && n.next < |a| {
      NumberBefore(a, t, n.next + 1);
    }
  }

  lemma NumberAfter(b: string, t: string, off: nat, k: nat)
    requires After(b, t, off) && k <= |b|
    ensures match NumberAt(b, k)
      case Bad(rc) => NumberAt(t, off + k) == Bad(rc)
      case Number(v, n) => NumberAt(t, off + k) == Number(v, off + n)
  {
    var e := DigitsEnd(b, k);
    DigitsEndStops(b, k);
    ValueMoves(b, k, e, t, off + k);
    DigitsEndIs(t, off + k, off + e);
  }

  lemma {:induction false} SkipAfter(b: string, t: string, off: nat, k: nat, newline: bool)
    requires After(b, t, off) && k <= |b|
    ensures SkipBlanks(t, off + k, newline) == off + SkipBlanks(b, k, newline)
    decreases |b| - k
  {
    if k < |b| {
      assert t[off + k] == b[k];
      if Blank(b[k], newline) {
        SkipAfter(b, t, off, k + 1, newline);
      }
    }
  }

  lemma ElementAfter(b: string, t: string, off: nat, k: nat, nwords: nat)
    requires After(b, t, off) && k <= |b|
    ensures match ElementAt(b, k, nwords)
      case Fault(rc) => ElementAt(t, off + k, nwords) == Fault(rc)
      case Element(r, n) => ElementAt(t, off + k, nwords) == Element(r, off + n)
  {
    NumberAfter(b, t, off, k);
    var n := NumberAt(b, k);
    if n.Number? && n.next < |b| {
      assert t[off + n.next] == b[n.next];
      NumberAfter(b, t, off, n.next + 1);
    }
  }

  lemma StepAfter(b: string, t: string, off: nat, k: nat, nwords: nat)
    requires After(b, t, off) && k <= |b|
    ensures match StepAt(b, k, nwords)
      case Halt(p) => StepAt(t, off + k, nwords) == Halt(p)
      case Onward(r, n) => StepAt(t, off + k, nwords) == Onward(r, off + n)
  {
    ElementAfter(b, t, off, k, nwords);
    var e := ElementAt(b, k, nwords);
    if e.Element? {
      SeparatedAfter(b, t, off, e.next, e.range);
    }
  }

  lemma SeparatedAfter(b: string, t: string, off: nat, n: nat, range: Range)
    requires After(b, t, off) && n <= |b|
    ensures match Separated(b, n, range)
      case Halt(p) => Separated(t, off + n, range) == Halt(p)
      case Onward(r, m) => Separated(t, off + n, range) == Onward(r, off + m)
  {
    SkipAfter(b, t, off, n, true);
    var sep := SkipBlanks(b, n, true);
    if sep < |b| {
      assert t[off + sep] == b[sep];
      SkipAfter(b, t, off, sep + 1, false);
    }
  }

  lemma {:induction false} ListAfter(b: string, t: string, off: nat, k: nat, nwords: nat)
    requires After(b, t, off) && k <= |b|
    ensures ListFrom(t, off + k, nwords) == ListFrom(b, k, nwords)
    decreases |b| - k
  {
    StepAfter(b, t, off, k, nwords);
    var step := StepAt(b, k, nwords);
    if step.Onward? {
      ListAfter(b, t, off, step.next, nwords);
    }
  }

  /** What comes of the text after a comma that stands at k - 1. */
  function TailAt(t: string, k: nat, nwords: nat): Parsed
    requires k <= |t|
  {
    var next := SkipBlanks(t, k, false);
    if next == |t| then Parsed([], -EINVAL) else ListFrom(t, next, nwords)
  }

  /** A turn that goes on inside a goes on in t; one that ends a ends at the comma. */
  lemma StepBefore(a: string, t: string, k: nat, nwords: nat)
    requires Before(a, t) && k <= |a|
    ensures match StepAt(a, k, nwords)
      case Onward(r, n) => StepAt(t, k, nwords) == Onward(r, n)
      case Halt(p) => p.rc == 0 ==>
        ElementAt(t, k, nwords).Element? && p.ranges == [ElementAt(t, k, nwords).range]
        && SkipBlanks(t, ElementAt(t, k, nwords).next, true) == |a|
  {
    ElementBefore(a, t, k, nwords);
    var e := ElementAt(a, k, nwords);
    if e.Element? {
      SkipBefore(a, t, e.next, true);
      var sep := SkipBlanks(a, e.next, true);
      if sep < |a| {
        SkipBefore(a, t, sep + 1, false);
      }
    }
  }

  /** What an accepted list a turns into when a comma and more text follow. */
  lemma {:induction false} ListBefore(a: string, t: string, k: nat, nwords: nat, tail: Parsed)
    requires Before(a, t) && k <= |a| && tail == TailAt(t, |a| + 1, nwords)
    requires ListFrom(a, k, nwords).rc == 0
    ensures ListFrom(t, k, nwords) == Parsed(ListFrom(a, k, nwords).ranges + tail.ranges, tail.rc)
    decreases |a| - k
  {
    StepBefore(a, t, k, nwords);
    match StepAt(a, k, nwords) {
      case Onward(r, n) =>
        ListBefore(a, t, n, nwords, tail);
        Reassociate(r, ListFrom(a, n, nwords).ranges, tail.ranges);
      case Halt(p) =>
    }
  }

  lemma Reassociate(r: Range, rs: seq<Range>, ss: seq<Range>)
    ensures [r] + (rs + ss) == [r] + rs + ss
  {
  }

  /** Both lists are accepted. Their join is accepted if and only if neither is blank
      and no newline stands in front of the second, and then it lists the ranges of
      both, in order. */
  lemma JoinLists(a: string, b: string, nwords: nat)
    requires ParseList(a, nwords).rc == 0 && ParseList(b, nwords).rc == 0
    ensures var p := ParseList(a + "," + b, nwords);
      && (p.rc == 0 <==>
            && SkipBlanks(a, 0, true) < |a| && SkipBlanks(b, 0, true) < |b|
            && SkipBlanks(b, 0, false) == SkipBlanks(b, 0, true))
      && (p.rc == 0 ==>
            p.ranges == ParseList(a, nwords).ranges + ParseList(b, nwords).ranges)
  {
    var t, off := a + "," + b, |a| + 1;
    assert Before(a, t) && After(b, t, off);
    var k := SkipBlanks(a, 0, true);
    SkipBefore(a, t, 0, true);
    if k < |a| {
      ListBefore(a, t, k, nwords, TailAt(t, off, nwords));
      JoinTail(b, t, off, nwords);
    }
  }

  lemma JoinTail(b: string, t: string, off: nat, nwords: nat)
    requires After(b, t, off) && ParseList(b, nwords).rc == 0
    ensures var p := TailAt(t, off, nwords);
      && (p.rc == 0 <==>
            SkipBlanks(b, 0, true) < |b| && SkipBlanks(b, 0, false) == SkipBlanks(b, 0, true))
      && (p.rc == 0 ==> p.ranges == ParseList(b, nwords).ranges)
  {
    SkipAfter(b, t, off, 0, false);
    NewlineInFront(b, 0);
    var j := SkipBlanks(b, 0, false);
    if j < |b| {
      JoinTailAt(b, t, off, nwords, j);
    }
  }

  lemma JoinTailAt(b: string, t: string, off: nat, nwords: nat, j: nat)
    requires After(b, t, off) && j < |b| && SkipBlanks(t, off, false) == off + j
    ensures TailAt(t, off, nwords) == ListFrom(b, j, nwords)
  {
    ListAfter(b, t, off, j, nwords);
  }

  lemma {:induction false} NewlineInFront(b: string, k: nat)
    requires k <= |b|
    ensures var j := SkipBlanks(b, k, false);
      j != SkipBlanks(b, k, true) ==> j < |b| && b[j] == '\n'
    ensures SkipBlanks(b, k, false) <= SkipBlanks(b, k, true)
    decreases |b| - k
  {
    if k < |b| && Blank(b[k], false) {
      NewlineInFront(b, k + 1);
    }
  }

  lemma UnionOfJoin(rs: seq<Range>, ss: seq<Range>, c: nat)
    ensures Union(rs + ss, c) <==> Union(rs, c) || Union(ss, c)
  {
    var all := rs + ss;
    if Union(rs, c) {
      var i :| 0 <= i < |rs| && rs[i].Covers(c);
      assert all[i].Covers(c);
    }
    if Union(ss, c) {
      var i :| 0 <= i < |ss| && ss[i].Covers(c);
      assert all[|rs| + i].Covers(c);
    }
  }

  /** Bitmaps of two accepted lists and of their accepted join: the join's is the union
      of the two. */
  lemma JoinIsUnion(a: string, b: string, u: seq<u64>, v: seq<u64>, w: seq<u64>, c: nat)
    requires |u| == |v| == |w|
    requires ParseList(a, |u|).rc == 0 && Holds(u, ParseList(a, |u|).ranges)
    requires ParseList(b, |v|).rc == 0 && Holds(v, ParseList(b, |v|).ranges)
    requires var p := ParseList(a + "," + b, |w|); p.rc == 0 && Holds(w, p.ranges)
    ensures Has(w, c) <==> Has(u, c) || Has(v, c)
  {
    JoinLists(a, b, |w|);
    UnionOfJoin(ParseList(a, |u|).ranges, ParseList(b, |v|).ranges, c);
  }

  /** "0" and a "1" on a new line are accepted, "0,\n1" is not. */
  lemma JoinCanFail()
    ensures ParseList("0", 1).rc == 0 && ParseList("\n1", 1).rc == 0
    ensures ParseList("0" + "," + "\n1", 1).rc != 0
  {
    OneDigit("0", 0);
    OneDigit("\n1", 1);
    assert SkipBlanks("0", 0, true) == 0;
    assert SkipBlanks("\n1", 0, true) == 1 && SkipBlanks("\n1", 0, false) == 0;
    JoinLists("0", "\n1", 1);
  }

  lemma OneDigit(s: string, k: nat)
    requires |s| == k + 1 && IsDigit(s[k])
    ensures ListFrom(s, k, 1).rc == 0
  {
    DigitsEndIs(s, k, k + 1);
    assert Value(s, k, k + 1) == Digit(s[k]);
    assert ElementAt(s, k, 1) == Element(Range(Digit(s[k]), Digit(s[k])), k + 1);
  }

  // ----- Rendering

  function RenderRange(r: Range): string {
    if r.lo == r.hi then Render(r.lo) else Render(r.lo) + "-" + Render(r.hi)
  }

  function RenderList(rs: seq<Range>): string {
    if rs == [] then ""
    else if |rs| == 1 then RenderRange(rs[0])
    else RenderRange(rs[0]) + "," + RenderList(rs[1..])
  }

  lemma RenderedNumber(s: string, k: nat, n: u32)
    requires k + |Render(n)| <= |s| && s[k..k + |Render(n)|] == Render(n)
    requires var e := k + |Render(n)|; e < |s| ==> !IsDigit(s[e])
    ensures NumberAt(s, k) == Number(n, k + |Render(n)|)
  {
    var d := Render(n);
    RenderValue(n);
    forall i | 0 <= i < |d| ensures s[k + (i - 0)] == d[i] {
      assert s[k..k + |d|][i] == d[i];
    }
    ValueMoves(d, 0, |d|, s, k);
    DigitsEndIs(s, k, k + |d|);
  }

  lemma RenderedRange(r: Range, nwords: nat)
    requires r.lo <= r.hi && r.hi / 64 < nwords
    ensures var s := RenderRange(r);
      && ElementAt(s, 0, nwords) == Element(r, |s|)
      && s != "" && IsDigit(s[0])
  {
    var s, lo, hi := RenderRange(r), Render(r.lo), Render(r.hi);
    RenderValue(r.lo);
    assert s[0..|lo|] == lo && s[0] == lo[0];
    if r.lo != r.hi {
      RenderedNumber(s, |lo| + 1, r.hi);
    }
    RenderedNumber(s, 0, r.lo);
  }

  /** Every list of ranges is read back from its rendering, in order. */
  lemma {:induction false} ParseRendered(rs: seq<Range>, nwords: nat)
    requires forall i :: 0 <= i < |rs| ==> rs[i].lo <= rs[i].hi && rs[i].hi / 64 < nwords
    ensures ParseList(RenderList(rs), nwords) == Parsed(rs, 0)
    ensures rs != [] ==> RenderList(rs) != "" && IsDigit(RenderList(rs)[0])
  {
    if rs != [] {
      var a := RenderRange(rs[0]);
      RenderedRange(rs[0], nwords);
      assert ParseList(a, nwords) == Parsed([rs[0]], 0);
      if |rs| == 1 {
        assert rs == [rs[0]];
      } else {
        var b := RenderList(rs[1..]);
        ParseRendered(rs[1..], nwords);
        JoinLists(a, b, nwords);
        assert RenderList(rs)[0] == a[0];
        assert [rs[0]] + rs[1..] == rs;
      }
    }
  }
}
