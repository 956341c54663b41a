/** What the cpulist parser says of faulty texts: which error, and what was read before. */
module CpuListFaults {
  import opened Prelude
  import opened CpuBits
  import opened Decimal
  import opened CpuList
  import opened CpuListLaws

  /** A printed number, or the error for one that is too wide. */
  function Printed(n: nat, next: nat): Number {
    if n < 0x1_0000_0000 then Number(n, next) else Bad(-34)
  }

  /** A printed number of any size, standing at k. */
  lemma PrintedNumber(s: string, k: nat, n: nat)
    requires k + |Render(n)| <= |s| && s[k..k + |Render(n)|] == Render(n)
    requires var e := k + |Render(n)|; e < |s| ==> !IsDigit(s[e])
    ensures NumberAt(s, k) == Printed(n, k + |Render(n)|)
  {
    var d := Render(n);
    RenderValue(n);
    forall i | 0 <= i < |d| ensures s[k + (i - 0)] == d[i] {
      assert s[k..k + |d|][i] == d[i];
    }
    ValueMoves(d, 0, |d|, s, k);
    DigitsEndIs(s, k, k + |d|);
  }

  /** What is said of lo-hi, for numbers of any size. */
  function Verdict(lo: nat, hi: nat, nwords: nat): int {
    if lo >= 0x1_0000_0000 || hi >= 0x1_0000_0000 then -34
    else if hi < lo then -22
    else if hi >= 64 * nwords then -34
    else 0
  }

  /** A number too wide for 32 bits or for the bitmap is out of range, a range that runs
      backwards is invalid, and any other is read. */
  lemma PairVerdict(lo: nat, hi: nat, nwords: nat)
    ensures var s := Render(lo) + "-" + Render(hi);
      && ParseList(s, nwords).rc == Verdict(lo, hi, nwords)
      && ParseList(s, nwords).ranges == (if Verdict(lo, hi, nwords) == 0 then [Range(lo, hi)] else [])
      && IsDigit(s[0])
  {
    var s := Render(lo) + "-" + Render(hi);
    PairRead(s, lo, hi, nwords);
    assert SkipBlanks(s, |s|, true) == |s|;
  }

  lemma PairRead(s: string, lo: nat, hi: nat, nwords: nat)
    requires s == Render(lo) + "-" + Render(hi)
    ensures ElementAt(s, 0, nwords) ==
      if Verdict(lo, hi, nwords) == 0 then Element(Range(lo, hi), |s|) else Fault(Verdict(lo, hi, nwords))
    ensures IsDigit(s[0])
  {
    PairNumbers(s, lo, hi, |Render(lo)|);
  }

  lemma PairNumbers(s: string, lo: nat, hi: nat, k: nat)
    requires s == Render(lo) + "-" + Render(hi) && k == |Render(lo)|
    ensures k < |s| && s[k] == '-' && IsDigit(s[0])
    ensures NumberAt(s, 0) == Printed(lo, k) && NumberAt(s, k + 1) == Printed(hi, |s|)
  {
    var l, h := Render(lo), Render(hi);
    RenderValue(lo);
    assert s[0..k] == l && s[0] == l[0] && s[k] == '-';
    assert s[k + 1..k + 1 + |h|] == h;
    PrintedNumber(s, 0, lo);
    PrintedNumber(s, k + 1, hi);
  }

  /** A text that starts with neither a digit nor a blank is invalid. */
  lemma NoNumber(s: string, nwords: nat)
    requires s != "" && !IsDigit(s[0]) && s[0] !in {' ', '\t', '\n'}
    ensures ParseList(s, nwords) == Parsed([], -22)
  {
  }

  /** Something else behind a number is invalid, and the number has been read. */
  lemma StrangerBehind(n: nat, tail: string, nwords: nat)
    requires n < 0x1_0000_0000 && n < 64 * nwords
    requires tail != "" && !IsDigit(tail[0]) && tail[0] !in {' ', '\t', '\n', ',', '-'}
    ensures ParseList(Render(n) + tail, nwords) == Parsed([Range(n, n)], -22)
  {
    var d, s := Render(n), Render(n) + tail;
    RenderValue(n);
    assert s[0..|d|] == d && s[0] == d[0] && s[|d|] == tail[0];
    PrintedNumber(s, 0, n);
    assert ElementAt(s, 0, nwords) == Element(Range(n, n), |d|);
  }

  /** Behind an accepted list and a comma any text is read as it is alone, whatever comes of
      it, and what was read before is kept; nothing behind the comma is invalid. */
  lemma FaultBehindList(a: string, b: string, nwords: nat)
    requires ParseList(a, nwords).rc == 0 && SkipBlanks(a, 0, true) < |a|
    requires SkipBlanks(b, 0, false) == SkipBlanks(b, 0, true)
    ensures var p, q := ParseList(a, nwords), ParseList(b, nwords);
      ParseList(a + "," + b, nwords) ==
        if SkipBlanks(b, 0, true) == |b| then Parsed(p.ranges, -22) else Parsed(p.ranges + q.ranges, q.rc)
  {
    var t, off := a + "," + b, |a| + 1;
    assert Before(a, t) && After(b, t, off);
    TailRead(b, t, off, nwords);
    ListRead(a, t, nwords, TailAt(t, off, nwords));
    assert ParseList(a, nwords).ranges + [] == ParseList(a, nwords).ranges;
  }

  lemma TailRead(b: string, t: string, off: nat, nwords: nat)
    requires After(b, t, off) && SkipBlanks(b, 0, false) == SkipBlanks(b, 0, true)
    ensures TailAt(t, off, nwords) ==
      if SkipBlanks(b, 0, true) == |b| then Parsed([], -22) else ParseList(b, nwords)
  {
    var j := SkipBlanks(b, 0, false);
    SkipAfter(b, t, off, 0, false);
    if j < |b| {
      JoinTailAt(b, t, off, nwords, j);
    }
  }

  lemma ListRead(a: string, t: string, nwords: nat, tail: Parsed)
    requires Before(a, t) && tail == TailAt(t, |a| + 1, nwords)
    requires ParseList(a, nwords).rc == 0 && SkipBlanks(a, 0, true) < |a|
    ensures ParseList(t, nwords) == Parsed(ParseList(a, nwords).ranges + tail.ranges, tail.rc)
  {
    SkipBefore(a, t, 0, true);
    ListBefore(a, t, SkipBlanks(a, 0, true), nwords, tail);
  }

  /** Good ranges and then any pair of numbers: the ranges are kept, and the pair decides. */
  lemma FaultBehindRanges(rs: seq<Range>, lo: nat, hi: nat, nwords: nat)
    requires rs != [] && forall i :: 0 <= i < |rs| ==> rs[i].lo <= rs[i].hi && rs[i].hi / 64 < nwords
    ensures var v := Verdict(lo, hi, nwords);
      ParseList(RenderList(rs) + "," + (Render(lo) + "-" + Render(hi)), nwords) ==
        Parsed(if v == 0 then rs + [Range(lo, hi)] else rs, v)
  {
    var a, b := RenderList(rs), Render(lo) + "-" + Render(hi);
    ParseRendered(rs, nwords);
    PairVerdict(lo, hi, nwords);
    FaultBehindList(a, b, nwords);
    assert rs + [] == rs;
  }

  lemma {:induction false} SkipThrough(t: string, k: nat, e: nat)
    requires k <= e <= |t| && forall i :: k <= i < e ==> t[i] in {' ', '\t', '\n'}
    ensures SkipBlanks(t, k, true) == SkipBlanks(t, e, true)
    decreases e - k
  {
    if k < e {
      SkipThrough(t, k + 1, e);
    }
  }

  /** Spaces, tabs and line breaks in front of a list make no difference. */
  lemma LeadingBlanks(pad: string, s: string, nwords: nat)
    requires forall i :: 0 <= i < |pad| ==> pad[i] in {' ', '\t', '\n'}
    ensures ParseList(pad + s, nwords) == ParseList(s, nwords)
  {
    var t, off, j := pad + s, |pad|, SkipBlanks(s, 0, true);
    SkipThrough(t, 0, off);
    SkipAfter(s, t, off, 0, true);
    if j < |s| {
      ListAfter(s, t, off, j, nwords);
    }
  }
}
