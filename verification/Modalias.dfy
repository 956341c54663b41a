/** The PCI modalias parser, the inverse of the kernel's
    "pci:v%08Xd%08Xsv%08Xsd%08Xbc%02Xsc%02Xi%02X". */
module Modalias {
  import opened Prelude

  // ----- The rendering

  /** What introduces each number, and how many digits it has. */
  const TAGS: seq<string> := ["pci:v", "d", "sv", "sd", "bc", "sc", "i"]
  const WIDTHS: seq<nat> := [8, 8, 8, 8, 2, 2, 2]

  datatype Id = Id(vendor: u32, device: u32, subvendor: u32, subdevice: u32,
                   baseClass: u8, subclass: u8, progIf: u8)

  function Values(id: Id): (v: seq<nat>)
    ensures |v| == 7
  {
    [id.vendor, id.device, id.subvendor, id.subdevice, id.baseClass, id.subclass, id.progIf]
  }

  function UpperDigit(d: nat): char
    requires d < 16
  {
    if d < 10 then '0' + d as char else 'A' + (d - 10) as char
  }

  /** "%0nX". */
  function Hex(v: nat, n: nat): (t: string)
    ensures |t| == n
  {
    if n == 0 then "" else Hex(v / 16, n - 1) + [UpperDigit(v % 16)]
  }

  /** The first k fields. */
  function Text(v: seq<nat>, k: nat): string
    requires k <= |v| && k <= 7
  {
    if k == 0 then "" else Text(v, k - 1) + TAGS[k - 1] + Hex(v[k - 1], WIDTHS[k - 1])
  }

  /** The line the kernel prints, without its newline. */
  function Format(id: Id): string {
    Text(Values(id), 7)
  }

  function Pow16(n: nat): nat {
    if n == 0 then 1 else 16 * Pow16(n - 1)
  }

  // ----- What the parser reads

  function DigitOf(c: char): Option<nat> {
    if '0' <= c <= '9' then Some((c - '0') as nat)
    else if 'a' <= c <= 'f' then Some((c - 'a') as nat + 10)
    else if 'A' <= c <= 'F' then Some((c - 'A') as nat + 10)
    else None
  }

  /** The number that n hex digits at p spell. */
  function HexAt(s: string, p: nat, n: nat): Option<nat> {
    if n == 0 then Some(0)
    else if p + n > |s| then None
    else match HexAt(s, p, n - 1)
      case None => None
      case Some(v) => match DigitOf(s[p + n - 1])
        case None => None
        case Some(d) => Some(16 * v + d)
  }

  predicate TagAt(s: string, p: nat, tag: string) {
    p + |tag| <= |s| && s[p..p + |tag|] == tag
  }

  /** How far a parse came: the numbers read, where it stands, and whether it goes on. */
  datatype Scan = Scan(vals: seq<nat>, at: nat, ok: bool)

  function ReadField(s: string, sc: Scan, tag: string, n: nat): Scan {
    var p := sc.at + |tag|;
    if !TagAt(s, sc.at, tag) then sc.(ok := false)
    else match HexAt(s, p, n)
      case None => sc.(ok := false)
      case Some(v) => Scan(sc.vals + [v], p + n, true)
  }

  function ReadFields(s: string, k: nat): Scan
    requires k <= 7
  {
    if k == 0 then Scan([], 0, true)
    else
      var sc := ReadFields(s, k - 1);
      if sc.ok then ReadField(s, sc, TAGS[k - 1], WIDTHS[k - 1]) else sc
  }

  predicate IsBlank(c: char) {
    c == '\n' || c == ' ' || c == '\t'
  }

  predicate BlankFrom(s: string, p: nat) {
    forall i :: p <= i < |s| ==> IsBlank(s[i])
  }

  /** The values read, zero where the parse did not come. */
  function Filled(vals: seq<nat>, i: nat): nat {
    if i < |vals| then vals[i] else 0
  }

  // ----- The parser

  class PciId {
    var vendor: u32
    var device: u32
    var subvendor: u32
    var subdevice: u32
    var baseClass: u8
    var subclass: u8
    var progIf: u8

    constructor ()
    {
      vendor, device, subvendor, subdevice, baseClass, subclass, progIf := 0, 0, 0, 0, 0, 0, 0;
    }

    function Value(): Id
      reads this
    {
      Id(vendor, device, subvendor, subdevice, baseClass, subclass, progIf)
    }

    /** The fields hold these numbers, and zeros after them. */
    ghost predicate Has(vals: seq<nat>)
      reads this
    {
      && vendor == Filled(vals, 0) && device == Filled(vals, 1)
      && subvendor == Filled(vals, 2) && subdevice == Filled(vals, 3)
      && baseClass == Filled(vals, 4) && subclass == Filled(vals, 5) && progIf == Filled(vals, 6)
    }
  }

  /** Digits are accumulated in 32 bits. */
  method HexFixed(s: CString, p: nat, n: nat) returns (rc: int, p': nat, v: u32)
    requires p <= |s|
    ensures match HexAt(s, p, n)
      case Some(x) => rc == 0 && p' == p + n && v == x % 0x1_0000_0000
      case None => rc == -EINVAL && p' == p
  {
    v := 0;
    var i := 0;
    while i < n
      invariant 0 <= i <= n && p + i <= |s|
      invariant HexAt(s, p, i).Some? && v == HexAt(s, p, i).value % 0x1_0000_0000
    {
      var d := DigitOf(CharAt(s, p + i));
      if d.None? {
        HexStops(s, p, i, n);
        return -EINVAL, p, v;
      }
      Shifted(HexAt(s, p, i).value, v, d.value);
      v := v * 16 % 0x1_0000_0000 + d.value;
      i := i + 1;
    }
    rc, p' := 0, p + n;
  }

  /** v << 4 | d in 32 bits. */
  lemma Shifted(x: nat, v: u32, d: nat)
    requires v == x % 0x1_0000_0000 && d < 16
    ensures (16 * x + d) % 0x1_0000_0000 == v * 16 % 0x1_0000_0000 + d
  {
    var q, top, low := x / 0x1_0000_0000, v / 0x1000_0000, v % 0x1000_0000;
    assert x == 0x1_0000_0000 * q + v && v == 0x1000_0000 * top + low;
  }

  lemma {:induction false} HexStops(s: string, p: nat, i: nat, n: nat)
    requires i < n && (p + i >= |s| || DigitOf(s[p + i]).None?)
    ensures HexAt(s, p, n).None?
  {
    if i < n - 1 {
      HexStops(s, p, i, n - 1);
    }
  }

  /** strncmp over the tag's length: no further than the first difference or NUL. */
  method Expect(s: CString, p: nat, tag: string) returns (rc: int, p': nat)
    requires p <= |s| && '\0' !in tag
    ensures if TagAt(s, p, tag) then rc == 0 && p' == p + |tag| else rc == -EINVAL && p' == p
  {
    var i := 0;
    while i < |tag|
      invariant 0 <= i <= |tag| && p + i <= |s| && s[p..p + i] == tag[..i]
    {
      if CharAt(s, p + i) != tag[i] {
        assert TagAt(s, p, tag) ==> s[p + i] == s[p..p + |tag|][i];
        return -EINVAL, p;
      }
      i := i + 1;
    }
    return 0, p + |tag|;
  }

  /** Field k of the text. */
  method Field(s: CString, p: nat, tag: string, n: nat, ghost k: nat, ghost sc: Scan)
    returns (rc: int, p': nat, v: u32)
    requires k < 7 && tag == TAGS[k] && n == WIDTHS[k]
    requires sc == ReadFields(s, k) && sc.ok && sc.at == p <= |s|
    ensures var sc' := ReadFields(s, k + 1);
      if rc == 0 then p' <= |s| && sc' == Scan(sc.vals + [v], p', true) && v < Pow16(n)
      else rc == -EINVAL && ReadFields(s, 7) == sc.(ok := false)
  {
    rc, p', v := TagAndDigits(s, p, tag, n, sc);
    if rc != 0 {
      Stopped(s, k + 1);
    }
  }

  /** A tag, then digits. */
  method TagAndDigits(s: CString, p: nat, tag: string, n: nat, ghost sc: Scan)
    returns (rc: int, p': nat, v: u32)
    requires p <= |s| && '\0' !in tag && n <= 8
    requires sc.ok && sc.at == p
    ensures var sc' := ReadField(s, sc, tag, n);
      if rc == 0 then p' <= |s| && sc' == Scan(sc.vals + [v], p', true) && v < Pow16(n)
      else rc == -EINVAL && sc' == sc.(ok := false)
  {
    v := 0;
    rc, p' := Expect(s, p, tag);
    if rc == 0 {
      rc, p', v := HexFixed(s, p', n);
      if rc == 0 {
        FitsWord(s, p + |tag|, n);
      }
    }
  }

  lemma FitsWord(s: string, p: nat, n: nat)
    requires n <= 8 && p <= |s| && HexAt(s, p, n).Some?
    ensures var x := HexAt(s, p, n).value; x < Pow16(n) && x < 0x1_0000_0000 && p + n <= |s|
  {
    HexBound(s, p, n);
    Pow16Mono(n, 8);
    assert Pow16(8) == 0x1_0000_0000;
  }

  lemma {:induction false} HexBound(s: string, p: nat, n: nat)
    requires HexAt(s, p, n).Some?
    ensures HexAt(s, p, n).value < Pow16(n) && (n > 0 ==> p + n <= |s|)
  {
    if n > 0 {
      HexBound(s, p, n - 1);
    }
  }

  lemma {:induction false} Pow16Mono(n: nat, m: nat)
    requires n <= m
    ensures Pow16(n) <= Pow16(m)
    decreases m
  {
    if n < m {
      Pow16Mono(n, m - 1);
    }
  }

  /** s None is a null pointer. out is zeroed first and keeps the fields read before a
      failure. */
  method ParseModalias(s: Option<CString>, out: PciId?) returns (rc: int)
    modifies out
    ensures s.None? || out == null ==> rc == -EINVAL
    ensures s.None? && out != null ==> out.Value() == old(out.Value())
    ensures s.Some? && out != null ==>
      var sc := ReadFields(s.value, 7);
      && out.Has(sc.vals)
      && rc == (if sc.ok && BlankFrom(s.value, sc.at) then 0 else -EINVAL)
      && (rc == 0 ==> ParsesAs(s.value, out.Value()))
  {
    if s.None? || out == null {
      return -EINVAL;
    }
    var at: nat;
    rc, at := ParseFields(s.value, out);
    if rc == 0 {
      rc := OnlyBlanks(s.value, at);
      ReadEnds(s.value, 7);
      assert ReadFields(s.value, 7).vals == Values(out.Value());
    }
  }

  method ParseFields(s: CString, out: PciId) returns (rc: int, p: nat)
    modifies out
    ensures var sc := ReadFields(s, 7);
      && out.Has(sc.vals)
      && (if sc.ok then rc == 0 && p == sc.at <= |s| else rc == -EINVAL)
  {
    out.vendor, out.device, out.subvendor, out.subdevice := 0, 0, 0, 0;
    out.baseClass, out.subclass, out.progIf := 0, 0, 0;
    rc, p := ParseVendor(s, out);
    if rc == 0 {
      rc, p := ParseSubsystem(s, p, out, ReadFields(s, 2));
    }
    if rc == 0 {
      rc, p := ParseClass(s, p, out, ReadFields(s, 4));
    }
  }

  /** Where a parse stands that has read k fields into out, or has failed. */
  ghost predicate Reached(s: CString, k: nat, out: PciId, rc: int, p: nat)
    requires k <= 7
    reads out
  {
    if rc == 0 then
      var sc := ReadFields(s, k);
      out.Has(sc.vals) && |sc.vals| == k && sc.ok && p == sc.at <= |s|
    else rc == -EINVAL && out.Has(ReadFields(s, 7).vals) && !ReadFields(s, 7).ok
  }

  /** The first two fields. */
  method ParseVendor(s: CString, out: PciId) returns (rc: int, p: nat)
    requires out.Has([])
    modifies out
    ensures Reached(s, 2, out, rc, p)
  {
    var v: u32;
    rc, p, v := Field(s, 0, "pci:v", 8, 0, ReadFields(s, 0));
    if rc != 0 { return; }
    out.vendor := v;
    rc, p, v := Field(s, p, "d", 8, 1, ReadFields(s, 1));
    if rc != 0 { return; }
    out.device := v;
  }

  /** The next two. */
  method ParseSubsystem(s: CString, at: nat, out: PciId, ghost sc: Scan) returns (rc: int, p: nat)
    requires sc == ReadFields(s, 2) && out.Has(sc.vals) && |sc.vals| == 2 && sc.ok && at == sc.at <= |s|
    modifies out
    ensures Reached(s, 4, out, rc, p)
  {
    var v: u32;
    rc, p, v := Field(s, at, "sv", 8, 2, sc);
    if rc != 0 { return; }
    out.subvendor := v;
    rc, p, v := Field(s, p, "sd", 8, 3, ReadFields(s, 3));
    if rc != 0 { return; }
    out.subdevice := v;
  }

  /** The last three fields. */
  method ParseClass(s: CString, at: nat, out: PciId, ghost sc: Scan) returns (rc: int, p: nat)
    requires sc == ReadFields(s, 4) && out.Has(sc.vals) && |sc.vals| == 4 && sc.ok && at == sc.at <= |s|
    modifies out
    ensures var sc := ReadFields(s, 7);
      && out.Has(sc.vals)
      && (if sc.ok then rc == 0 && p == sc.at <= |s| else rc == -EINVAL)
  {
    assert Pow16(2) == 0x100;
    var v: u32;
    rc, p, v := Field(s, at, "bc", 2, 4, sc);
    if rc != 0 { return; }
    out.baseClass := v;
    rc, p, v := Field(s, p, "sc", 2, 5, ReadFields(s, 5));
    if rc != 0 { return; }
    out.subclass := v;
    rc, p, v := Field(s, p, "i", 2, 6, ReadFields(s, 6));
    if rc != 0 { return; }
    out.progIf := v;
  }

  lemma {:induction false} Stopped(s: string, k: nat)
    requires k <= 7 && !ReadFields(s, k).ok
    ensures ReadFields(s, 7) == ReadFields(s, k)
    decreases 7 - k
  {
    if k < 7 {
      Stopped(s, k + 1);
    }
  }

  method OnlyBlanks(s: CString, at: nat) returns (rc: int)
    requires at <= |s|
    ensures rc == if BlankFrom(s, at) then 0 else -EINVAL
  {
    var p := at;
    while IsBlank(CharAt(s, p))
      invariant at <= p <= |s|
      invariant forall i :: at <= i < p ==> IsBlank(s[i])
      decreases |s| - p
    {
      p := p + 1;
    }
    rc := if CharAt(s, p) != '\0' then -EINVAL else 0;
  }

  // ----- Parser and rendering are inverse

  /** A character as printed, or the same hex digit in lower case. */
  predicate Like(c: char, t: char) {
    c == t || ('A' <= t <= 'F' && c as int == t as int + 32)
  }

  predicate LikeAt(s: string, p: nat, t: string) {
    p + |t| <= |s| && forall i :: 0 <= i < |t| ==> Like(s[p + i], t[i])
  }

  lemma LikeAppend(s: string, p: nat, a: string, b: string)
    ensures LikeAt(s, p, a + b) <==> LikeAt(s, p, a) && LikeAt(s, p + |a|, b)
  {
    var t := a + b;
    if LikeAt(s, p, t) {
      forall i | 0 <= i < |b| ensures Like(s[p + |a| + i], b[i]) {
        assert t[|a| + i] == b[i] && Like(s[p + (|a| + i)], t[|a| + i]);
      }
      forall i | 0 <= i < |a| ensures Like(s[p + i], a[i]) {
        assert t[i] == a[i];
      }
    }
    if LikeAt(s, p, a) && LikeAt(s, p + |a|, b) {
      forall i | 0 <= i < |t| ensures Like(s[p + i], t[i]) {
        if i >= |a| {
          assert Like(s[p + |a| + (i - |a|)], b[i - |a|]);
        }
      }
    }
  }

  /** n digits are read as v exactly when they are v's rendering up to case. */
  lemma {:induction false} HexExactly(s: string, p: nat, n: nat, v: nat)
    requires p <= |s|
    ensures HexAt(s, p, n) == Some(v) <==> v < Pow16(n) && LikeAt(s, p, Hex(v, n))
  {
    if n > 0 {
      HexExactly(s, p, n - 1, v / 16);
      LikeAppend(s, p, Hex(v / 16, n - 1), [UpperDigit(v % 16)]);
      HexStep(s, p, n, v);
    }
  }

  lemma HexStep(s: string, p: nat, n: nat, v: nat)
    requires n > 0
    requires HexAt(s, p, n - 1) == Some(v / 16) <==> v / 16 < Pow16(n - 1) && LikeAt(s, p, Hex(v / 16, n - 1))
    ensures HexAt(s, p, n) == Some(v) <==>
      v < Pow16(n) && LikeAt(s, p, Hex(v / 16, n - 1)) && LikeAt(s, p + n - 1, [UpperDigit(v % 16)])
  {
    LikeOne(s, p + n - 1, UpperDigit(v % 16));
  }

  lemma LikeOne(s: string, p: nat, t: char)
    ensures LikeAt(s, p, [t]) <==> p < |s| && Like(s[p], t)
  {
    if LikeAt(s, p, [t]) {
      assert Like(s[p + 0], [t][0]);
    }
  }

  /** Tags have no upper-case digit that could be matched in either case. */
  predicate Plain(tag: string) {
    forall i :: 0 <= i < |tag| ==> !('A' <= tag[i] <= 'F')
  }

  lemma TagsPlain(k: nat)
    requires k < 7
    ensures Plain(TAGS[k])
  {
  }

  lemma TagExactly(s: string, p: nat, tag: string)
    requires Plain(tag)
    ensures TagAt(s, p, tag) <==> LikeAt(s, p, tag)
  {
    if TagAt(s, p, tag) {
      forall i | 0 <= i < |tag| ensures Like(s[p + i], tag[i]) {
        assert s[p + i] == s[p..p + |tag|][i];
      }
    }
  }

  ghost predicate Fits(v: seq<nat>, k: nat)
    requires k <= |v| && k <= 7
  {
    forall i :: 0 <= i < k ==> v[i] < Pow16(WIDTHS[i])
  }

  /** Where the first k fields end. */
  function End(k: nat): nat
    requires k <= 7
  {
    if k == 0 then 0 else End(k - 1) + |TAGS[k - 1]| + WIDTHS[k - 1]
  }

  lemma {:induction false} TextEnds(v: seq<nat>, k: nat)
    requires k <= |v| && k <= 7
    ensures |Text(v, k)| == End(k)
  {
    if k > 0 {
      TextEnds(v, k - 1);
    }
  }

  lemma {:induction false} ReadEnds(s: string, k: nat)
    requires k <= 7 && ReadFields(s, k).ok
    ensures |ReadFields(s, k).vals| == k && ReadFields(s, k).at == End(k)
  {
    if k > 0 {
      ReadEnds(s, k - 1);
    }
  }

  /** The first k fields are read as v exactly when they are its rendering. */
  lemma {:induction false} FieldsExactly(s: string, k: nat, v: seq<nat>)
    requires k <= 7 && |v| == k
    ensures ReadFields(s, k).ok && ReadFields(s, k).vals == v <==> Fits(v, k) && LikeAt(s, 0, Text(v, k))
  {
    if k > 0 {
      var front, sc := v[..k - 1], ReadFields(s, k - 1);
      FieldsExactly(s, k - 1, front);
      TextOfPrefix(v, k - 1);
      EndsAgree(s, k - 1, front);
      FitsStep(v, k);
      TagsPlain(k - 1);
      ExactStep(s, sc, TAGS[k - 1], WIDTHS[k - 1], front, v[k - 1], v, Text(front, k - 1), Fits(front, k - 1));
    }
  }

  lemma EndsAgree(s: string, k: nat, v: seq<nat>)
    requires k <= 7 && k <= |v|
    ensures ReadFields(s, k).ok ==> ReadFields(s, k).at == |Text(v, k)|
  {
    TextEnds(v, k);
    if ReadFields(s, k).ok {
      ReadEnds(s, k);
    }
  }

  lemma ExactStep(s: string, sc: Scan, tag: string, n: nat, front: seq<nat>, x: nat, v: seq<nat>,
                  a: string, fits: bool)
    requires Plain(tag)
    requires sc.ok && sc.vals == front <==> fits && LikeAt(s, 0, a)
    requires sc.ok ==> sc.at == |a|
    requires v == front + [x]
    ensures var sc' := if sc.ok then ReadField(s, sc, tag, n) else sc;
      sc'.ok && sc'.vals == v <==> fits && x < Pow16(n) && LikeAt(s, 0, a + tag + Hex(x, n))
  {
    if sc.ok {
      FieldStep(s, sc, tag, n, front, x);
    }
    TextStep(s, a, tag, Hex(x, n));
  }

  lemma TextStep(s: string, a: string, b: string, c: string)
    ensures LikeAt(s, 0, a + b + c) <==> LikeAt(s, 0, a) && LikeAt(s, |a|, b) && LikeAt(s, |a| + |b|, c)
  {
    LikeAppend(s, 0, a + b, c);
    LikeAppend(s, 0, a, b);
  }

  lemma FitsStep(v: seq<nat>, k: nat)
    requires 0 < k <= 7 && |v| == k
    ensures Fits(v, k) <==> Fits(v[..k - 1], k - 1) && v[k - 1] < Pow16(WIDTHS[k - 1])
  {
    if Fits(v[..k - 1], k - 1) && v[k - 1] < Pow16(WIDTHS[k - 1]) {
      forall i | 0 <= i < k ensures v[i] < Pow16(WIDTHS[i]) {
        assert i < k - 1 ==> v[..k - 1][i] == v[i];
      }
    }
  }

  lemma {:induction false} TextOfPrefix(v: seq<nat>, k: nat)
    requires k <= |v| && k <= 7
    ensures Text(v, k) == Text(v[..k], k)
  {
    TextAgrees(v, v[..k], k);
  }

  lemma {:induction false} TextAgrees(v: seq<nat>, w: seq<nat>, k: nat)
    requires k <= |v| && k <= |w| && k <= 7 && v[..k] == w[..k]
    ensures Text(v, k) == Text(w, k)
  {
    if k > 0 {
      assert v[..k - 1] == v[..k][..k - 1] && w[..k - 1] == w[..k][..k - 1];
      assert v[k - 1] == v[..k][k - 1] && w[k - 1] == w[..k][k - 1];
      TextAgrees(v, w, k - 1);
    }
  }

  lemma FieldStep(s: string, sc: Scan, tag: string, n: nat, front: seq<nat>, x: nat)
    requires sc.ok
    requires Plain(tag)
    ensures ReadField(s, sc, tag, n).ok && ReadField(s, sc, tag, n).vals == front + [x] <==>
      sc.vals == front && LikeAt(s, sc.at, tag) && x < Pow16(n) && LikeAt(s, sc.at + |tag|, Hex(x, n))
  {
    TagExactly(s, sc.at, tag);
    var h := None;
    if TagAt(s, sc.at, tag) {
      HexExactly(s, sc.at + |tag|, n, x);
      h := HexAt(s, sc.at + |tag|, n);
    }
    FieldChoice(sc, ReadField(s, sc, tag, n), TagAt(s, sc.at, tag), h, front, x);
  }

  lemma FieldChoice(sc: Scan, r: Scan, tagAt: bool, h: Option<nat>, front: seq<nat>, x: nat)
    requires if tagAt && h.Some? then r.ok && r.vals == sc.vals + [h.value] else !r.ok
    ensures r.ok && r.vals == front + [x] <==> sc.vals == front && tagAt && h == Some(x)
  {
    if tagAt && h.Some? {
      SnocInjective(sc.vals, h.value, front, x);
    }
  }

  lemma SnocInjective(a: seq<nat>, x: nat, b: seq<nat>, y: nat)
    ensures a + [x] == b + [y] <==> a == b && x == y
  {
    if a + [x] == b + [y] {
      assert (a + [x])[..|a|] == a && (b + [y])[..|b|] == b;
      assert (a + [x])[|a|] == x && (b + [y])[|b|] == y;
    }
  }

  /** ParseModalias returns 0 and leaves id in out. */
  ghost predicate ParsesAs(s: string, id: Id) {
    var sc := ReadFields(s, 7);
    sc.ok && sc.vals == Values(id) && BlankFrom(s, sc.at)
  }

  /** A text is accepted as id if and only if it is id's rendering, hex digits in either
      case, followed by nothing but spaces, tabs and newlines. */
  lemma ParsesExactly(s: string, id: Id)
    ensures ParsesAs(s, id) <==>
      |s| >= 53 && |Format(id)| == 53 && LikeAt(s, 0, Format(id)) && BlankFrom(s, 53)
  {
    FieldsExactly(s, 7, Values(id));
    TextEnds(Values(id), 7);
    if ReadFields(s, 7).ok {
      ReadEnds(s, 7);
    }
  }

  /** Every accepted text is accepted as some id. */
  lemma AcceptedIsRendered(s: string) returns (id: Id)
    requires ReadFields(s, 7).ok && BlankFrom(s, ReadFields(s, 7).at)
    ensures ParsesAs(s, id)
  {
    var v := ReadFields(s, 7).vals;
    ReadEnds(s, 7);
    FieldsExactly(s, 7, v);
    assert Pow16(8) == 0x1_0000_0000 && Pow16(2) == 0x100;
    id := Id(v[0], v[1], v[2], v[3], v[4], v[5], v[6]);
    assert Values(id) == v;
  }

  /** The kernel's line for an id is parsed back to that id. */
  lemma FormatParses(id: Id, tail: string)
    requires BlankFrom(tail, 0)
    ensures ParsesAs(Format(id) + tail, id)
  {
    var s := Format(id) + tail;
    TextEnds(Values(id), 7);
    forall i | 53 <= i < |s| ensures IsBlank(s[i]) {
      assert s[i] == tail[i - 53];
    }
    ParsesExactly(s, id);
  }

  /** Two ids never share a line. */
  lemma FormatInjective(a: Id, b: Id)
    requires Format(a) == Format(b)
    ensures a == b
  {
    FormatParses(a, "");
    FormatParses(b, "");
    assert Values(a) == Values(b);
    assert Values(a)[0] == a.vendor && Values(a)[1] == a.device && Values(a)[2] == a.subvendor
           && Values(a)[3] == a.subdevice && Values(a)[4] == a.baseClass && Values(a)[5] == a.subclass
           && Values(a)[6] == a.progIf;
  }
}
