/** The kernel cpulist parser: text like "0-3,8,16-19" into a word-packed bitmap. */
module CpuList {
  import opened Prelude
  import opened CpuBits
  import opened Decimal

  const UINT32_MAX := 0xFFFF_FFFF

  // ----- Numbers

  /** What reading a number at k yields: its value and where the text goes on, or an
      error. A number that does not fit 32 bits is out of range. */
  datatype Number = Number(value: u32, next: nat) | Bad(rc: int)

  function NumberAt(s: string, k: nat): (r: Number)
    requires k <= |s|
    ensures r.Number? ==> k < r.next <= |s|
  {
    var e := DigitsEnd(s, k);
    if e == k then Bad(-EINVAL)
    else if Value(s, k, e) > UINT32_MAX then Bad(-ERANGE)
    else Number(Value(s, k, e), e)
  }

  method CpulistNumber(s: CString, k: nat) returns (r: Number)
    requires k <= |s|
    ensures r == NumberAt(s, k)
  {
    ghost var e := DigitsEnd(s, k);
    DigitsEndStops(s, k);
    if !IsDigit(CharAt(s, k)) {
      return Bad(-EINVAL);
    }
    var p := k;
    var v: u64 := 0;
    while IsDigit(CharAt(s, p))
      invariant k <= p <= e
      invariant v == Value(s, k, p) <= UINT32_MAX
      decreases |s| - p
    {
      v := v * 10 + Digit(s[p]);
      ValueGrows(s, k, p + 1, e);
      if v > UINT32_MAX {
        return Bad(-ERANGE);
      }
      p := p + 1;
    }
    return Number(v, p);
  }

  // ----- Elements

  datatype Range = Range(lo: u32, hi: u32) {
    predicate Covers(c: nat) {
      lo <= c <= hi
    }
  }

  ghost predicate Union(rs: seq<Range>, c: nat) {
    exists i :: 0 <= i < |rs| && rs[i].Covers(c)
  }

  /** Past blanks: spaces and tabs, and newlines too where they are tolerated. */
  predicate Blank(c: char, newline: bool) {
    c == ' ' || c == '\t' || (newline && c == '\n')
  }

  function SkipBlanks(s: string, k: nat, newline: bool): (e: nat)
    requires k <= |s|
    ensures k <= e <= |s|
    decreases |s| - k
  {
    if k < |s| && Blank(s[k], newline) then SkipBlanks(s, k + 1, newline) else k
  }

  /** One element: a range and where the text goes on, or an error. */
  datatype Element = Element(range: Range, next: nat) | Fault(rc: int)

  function ElementAt(s: string, k: nat, nwords: nat): (r: Element)
    requires k <= |s|
    ensures r.Element? ==> k < r.next <= |s|
  {
    match NumberAt(s, k)
    case Bad(rc) => Fault(rc)
    case Number(lo, n) =>
      match if n < |s| && s[n] == '-' then NumberAt(s, n + 1) else Number(lo, n)
      case Bad(rc) => Fault(rc)
      case Number(hi, next) =>
        if hi < lo then Fault(-EINVAL)
        else if hi / 64 >= nwords then Fault(-ERANGE)
        else Element(Range(lo, hi), next)
  }

  /** A list read up to its end or to its first fault. */
  datatype Parsed = Parsed(ranges: seq<Range>, rc: int)

  /** One turn of the list from the start of an element at k: the end or a fault, or
      a range and the start of the next element. */
  datatype Step = Halt(parsed: Parsed) | Onward(range: Range, next: nat)

  function StepAt(s: string, k: nat, nwords: nat): (r: Step)
    requires k <= |s|
    ensures r.Onward? ==> k < r.next < |s|
  {
    match ElementAt(s, k, nwords)
    case Fault(rc) => Halt(Parsed([], rc))
    case Element(range, n) => Separated(s, n, range)
  }

  /** What follows an element that ends at n. */
  function Separated(s: string, n: nat, range: Range): (r: Step)
    requires n <= |s|
    ensures r.Onward? ==> n < r.next < |s|
  {
    var sep := SkipBlanks(s, n, true);
    if sep == |s| then Halt(Parsed([range], 0))
    else if s[sep] != ',' then Halt(Parsed([range], -EINVAL))
    else
      var next := SkipBlanks(s, sep + 1, false);
      if next == |s| then Halt(Parsed([range], -EINVAL)) else Onward(range, next)
  }

  function ListFrom(s: string, k: nat, nwords: nat): Parsed
    requires k <= |s|
    decreases |s| - k
  {
    match StepAt(s, k, nwords)
    case Halt(p) => p
    case Onward(range, next) =>
      var rest := ListFrom(s, next, nwords);
      Parsed([range] + rest.ranges, rest.rc)
  }

  function ParseList(s: string, nwords: nat): Parsed {
    var k := SkipBlanks(s, 0, true);
    if k == |s| then Parsed([], 0) else ListFrom(s, k, nwords)
  }

  // ----- The parser

  /** The bitmap's first nwords words hold exactly the CPUs of the ranges rs. */
  ghost predicate Holds(words: seq<u64>, rs: seq<Range>) {
    forall c: nat :: Has(words, c) <==> Union(rs, c)
  }

  method Skip(s: CString, k: nat, newline: bool) returns (p: nat)
    requires k <= |s|
    ensures p == SkipBlanks(s, k, newline)
  {
    p := k;
    while Blank(CharAt(s, p), newline)
      invariant k <= p <= |s|
      invariant SkipBlanks(s, k, newline) == SkipBlanks(s, p, newline)
      decreases |s| - p
    {
      p := p + 1;
    }
  }

  /** bitmap[cpu / 64] |= 1ull << (cpu % 64) */
  method SetBit(bitmap: array<u64>, nwords: nat, cpu: u32)
    requires nwords <= bitmap.Length && cpu / 64 < nwords
    modifies bitmap
    ensures forall c: nat :: Has(bitmap[..nwords], c) <==> Has(old(bitmap[..nwords]), c) || c == cpu
    ensures bitmap[nwords..] == old(bitmap[nwords..])
  {
    var w, i := cpu / 64, cpu % 64;
    var v := Or(bitmap[w], Pow2(i));
    WordIsPow2();
    Pow2Monotone(i, 64);
    OrBound(bitmap[w], Pow2(i), 64);
    forall c: nat ensures Bit(v, c % 64) <==> Bit(bitmap[w], c % 64) || c % 64 == i {
      OrBit(bitmap[w], Pow2(i), c % 64);
      Pow2Bit(i, c % 64);
    }
    ghost var before := bitmap[..nwords];
    bitmap[w] := v;
    forall c: nat ensures Has(bitmap[..nwords], c) <==> Has(before, c) || c == cpu {
      assert c == cpu <==> c / 64 == w && c % 64 == i;
    }
  }

  /** The fill loop. The increment is that of a 32-bit counter: the break is what
      keeps a range up to UINT32_MAX from starting over at 0. */
  method Fill(bitmap: array<u64>, nwords: nat, lo: u32, hi: u32)
    requires nwords <= bitmap.Length && hi / 64 < nwords && lo <= hi
    modifies bitmap
    ensures forall c: nat :: Has(bitmap[..nwords], c) <==> Has(old(bitmap[..nwords]), c) || lo <= c <= hi
    ensures bitmap[nwords..] == old(bitmap[nwords..])
  {
    var cpu: u32 := lo;
    while cpu <= hi
      invariant lo <= cpu
      invariant forall c: nat ::
        Has(bitmap[..nwords], c) <==> Has(old(bitmap[..nwords]), c) || (lo <= c < cpu && c <= hi)
      invariant bitmap[nwords..] == old(bitmap[nwords..])
      decreases hi + 1 - cpu
    {
      SetBit(bitmap, nwords, cpu);
      if cpu == UINT32_MAX {
        break;
      }
      cpu := (cpu + 1) % 0x1_0000_0000;
    }
  }

  /** The count over the words, in a 32-bit counter. */
  method CountBits(bitmap: array<u64>, nwords: nat) returns (n: u32)
    requires nwords <= bitmap.Length
    ensures n == |Cpus(bitmap[..nwords])| % 0x1_0000_0000
  {
    n := 0;
    ghost var total := 0;
    for w := 0 to nwords
      invariant total == TotalCount(bitmap[..w]) && n == total % 0x1_0000_0000
    {
      TotalCountNext(bitmap[..], w);
      n := CountWord(bitmap[w], n, total);
      total := total + PopCount(bitmap[w]);
    }
    CpusCount(bitmap[..nwords]);
  }

  lemma TotalCountNext(words: seq<u64>, w: nat)
    requires w < |words|
    ensures TotalCount(words[..w + 1]) == TotalCount(words[..w]) + PopCount(words[w])
  {
    assert words[..w + 1][..w] == words[..w];
  }

  /** Kernighan's loop: each turn clears the lowest bit. */
  method CountWord(word: u64, before: u32, ghost total: nat) returns (n: u32)
    requires before == total % 0x1_0000_0000
    ensures n == (total + PopCount(word)) % 0x1_0000_0000
  {
    n := before;
    var v: u64 := word;
    ghost var counted: nat := total;
    while v != 0
      invariant counted + PopCount(v) == total + PopCount(word)
      invariant n == counted % 0x1_0000_0000
      decreases v
    {
      CountUp(n, counted);
      v := DropLowest(v);
      n := (n + 1) % 0x1_0000_0000;
      counted := counted + 1;
    }
  }

  /** v &= v - 1 */
  method DropLowest(v: u64) returns (w: u64)
    requires v != 0
    ensures w == And(v, v - 1) < v && PopCount(w) == PopCount(v) - 1
  {
    ClearLowest(v);
    w := And(v, v - 1);
  }

  lemma CountUp(n: nat, total: nat)
    requires n == total % 0x1_0000_0000
    ensures (n + 1) % 0x1_0000_0000 == (total + 1) % 0x1_0000_0000
  {
  }

  /** Parses a cpulist into the first nwords words of bitmap. Whatever happens, the
      bitmap ends up holding exactly the ranges read before the end or the fault;
      the count, when asked for, is the number of distinct CPUs modulo 2^32. */
  method ParseCpulist(s: Option<CString>, bitmap: array?<u64>, nwords: nat, wantCount: bool)
    returns (rc: int, count: Option<u32>)
    requires bitmap != null ==> nwords <= bitmap.Length
    modifies bitmap
    ensures s.None? || bitmap == null || nwords == 0 ==>
      rc == -EINVAL && count.None? && (bitmap != null ==> bitmap[..] == old(bitmap[..]))
    ensures s.Some? && bitmap != null && nwords != 0 ==>
      && rc == ParseList(s.value, nwords).rc
      && Holds(bitmap[..nwords], ParseList(s.value, nwords).ranges)
      && bitmap[nwords..] == old(bitmap[nwords..])
      && (count.Some? <==> wantCount && rc == 0)
      && (count.Some? ==> count.value == |Cpus(bitmap[..nwords])| % 0x1_0000_0000)
  {
    if s.None? || bitmap == null || nwords == 0 {
      return -EINVAL, None;
    }
    var t := s.value;
    forall w | 0 <= w < nwords { bitmap[w] := 0; }
    forall c: nat ensures !Has(bitmap[..nwords], c) {
      ZeroHasNoBit(c % 64);
    }

    var p := Skip(t, 0, true);
    if p == |t| {
      if wantCount {
        assert Cpus(bitmap[..nwords]) == {};
        return 0, Some(0);
      }
      return 0, None;
    }

    rc := FillList(t, p, bitmap, nwords);
    count := None;
    if rc == 0 && wantCount {
      var n := CountBits(bitmap, nwords);
      count := Some(n);
    }
  }

  method ReadElement(s: CString, k: nat, nwords: nat) returns (r: Element)
    requires k <= |s|
    ensures r == ElementAt(s, k, nwords)
  {
    var lo := CpulistNumber(s, k);
    if lo.Bad? {
      return Fault(lo.rc);
    }
    var hi := lo;
    if CharAt(s, lo.next) == '-' {
      hi := CpulistNumber(s, lo.next + 1);
      if hi.Bad? {
        return Fault(hi.rc);
      }
      if hi.value < lo.value {
        return Fault(-EINVAL);
      }
    }
    if hi.value / 64 >= nwords {
      return Fault(-ERANGE);
    }
    return Element(Range(lo.value, hi.value), hi.next);
  }

  /** The element loop, from the start of an element at k. */
  method FillList(s: CString, k: nat, bitmap: array<u64>, nwords: nat) returns (rc: int)
    requires k <= |s| && nwords <= bitmap.Length && Holds(bitmap[..nwords], [])
    modifies bitmap
    ensures rc == ListFrom(s, k, nwords).rc
    ensures Holds(bitmap[..nwords], ListFrom(s, k, nwords).ranges)
    ensures bitmap[nwords..] == old(bitmap[nwords..])
  {
    var p := k;
    ghost var parsed, done := ListFrom(s, k, nwords), [];
    assert [] + parsed.ranges == parsed.ranges;
    while true
      invariant p <= |s|
      invariant bitmap[nwords..] == old(bitmap[nwords..])
      invariant Holds(bitmap[..nwords], done)
      invariant Goes(parsed, done, ListFrom(s, p, nwords))
      decreases |s| - p
    {
      ListStep(parsed, done, s, p, nwords);
      var e := ReadElement(s, p, nwords);
      if e.Fault? {
        return e.rc;
      }
      Fill(bitmap, nwords, e.range.lo, e.range.hi);
      UnionAppend(done, e.range);
      done := done + [e.range];
      p := Skip(s, e.next, true);
      if p == |s| {
        return 0;
      }
      if s[p] != ',' {
        return -EINVAL;
      }
      p := Skip(s, p + 1, false);
      if p == |s| {
        return -EINVAL;
      }
    }
  }

  /** The whole parse is what was done followed by what is ahead. */
  ghost predicate Goes(whole: Parsed, done: seq<Range>, ahead: Parsed) {
    whole == Parsed(done + ahead.ranges, ahead.rc)
  }

  lemma ListStep(whole: Parsed, done: seq<Range>, s: string, k: nat, nwords: nat)
    requires k <= |s| && Goes(whole, done, ListFrom(s, k, nwords))
    ensures match ElementAt(s, k, nwords)
      case Fault(rc) => whole == Parsed(done, rc)
      case Element(range, n) =>
        var sep := SkipBlanks(s, n, true);
        if sep == |s| then whole == Parsed(done + [range], 0)
        else if s[sep] != ',' then whole == Parsed(done + [range], -EINVAL)
        else
          var next := SkipBlanks(s, sep + 1, false);
          if next == |s| then whole == Parsed(done + [range], -EINVAL)
          else Goes(whole, done + [range], ListFrom(s, next, nwords))
  {
    assert done + [] == done;
  }

  lemma UnionAppend(rs: seq<Range>, r: Range)
    ensures forall c: nat :: Union(rs + [r], c) <==> Union(rs, c) || r.Covers(c)
  {
    forall c: nat ensures Union(rs + [r], c) <==> Union(rs, c) || r.Covers(c) {
      var all := rs + [r];
      if Union(rs, c) {
        var i :| 0 <= i < |rs| && rs[i].Covers(c);
        assert all[i].Covers(c);
      }
      if r.Covers(c) {
        assert all[|rs|].Covers(c);
      }
    }
  }

  /** Bit test; CPUs past the bitmap read as 0. */
  method CpumaskTest(bitmap: array?<u64>, nwords: nat, cpu: u32) returns (r: int)
    requires bitmap != null ==> nwords <= bitmap.Length
    ensures r == if bitmap != null && Has(bitmap[..nwords], cpu) then 1 else 0
  {
    if bitmap == null || cpu / 64 >= nwords {
      return 0;
    }
    ShiftRightBit(bitmap[cpu / 64], cpu % 64);
    return if ShiftRight(bitmap[cpu / 64], cpu % 64) % 2 == 1 then 1 else 0;
  }
}
