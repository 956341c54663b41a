/** The decode of CPUID leaf 0xB: one subleaf per level of the processor topology. */
module Topology {
  import opened Prelude

  const INVALID := 0
  const SMT := 1

  /** The registers of a subleaf that the decoder reads. */
  datatype Subleaf = Subleaf(ebx: u32, ecx: u32) {
    function Typ(): nat {
      ecx / 0x100 % 0x100
    }

    function Count(): nat {
      ebx % 0x1_0000
    }
  }

  datatype Decoded = Decoded(threadsPerCore: nat, logicalPerPackage: nat, coresPerPackage: nat, valid: bool)

  const ABSENT := Decoded(0, 0, 0, false)

  // ----- The levels reported

  /** The subleaves before the first invalid one. */
  function Levels(ls: seq<Subleaf>): (n: nat)
    ensures n <= |ls|
    ensures forall i :: 0 <= i < n ==> ls[i].Typ() != INVALID
    ensures n < |ls| ==> ls[n].Typ() == INVALID
  {
    LevelsFrom(ls, 0)
  }

  function LevelsFrom(ls: seq<Subleaf>, k: nat): (n: nat)
    requires k <= |ls|
    requires forall i :: 0 <= i < k ==> ls[i].Typ() != INVALID
    ensures k <= n <= |ls|
    ensures forall i :: 0 <= i < n ==> ls[i].Typ() != INVALID
    ensures n < |ls| ==> ls[n].Typ() == INVALID
    decreases |ls| - k
  {
    if k == |ls| || ls[k].Typ() == INVALID then k else LevelsFrom(ls, k + 1)
  }

  /** top is the largest count among the first n levels, 0 without any. */
  ghost predicate IsTop(ls: seq<Subleaf>, n: nat, top: nat)
    requires n <= |ls|
  {
    && (forall i :: 0 <= i < n ==> ls[i].Count() <= top)
    && (top == 0 || exists i :: 0 <= i < n && ls[i].Count() == top)
  }

  /** width is the count of the last SMT level among the first n, 0 without one. */
  ghost predicate IsWidth(ls: seq<Subleaf>, n: nat, width: nat)
    requires n <= |ls|
  {
    if exists i :: 0 <= i < n && ls[i].Typ() == SMT then
      exists i :: 0 <= i < n && ls[i].Typ() == SMT && ls[i].Count() == width
        && forall j :: i < j < n ==> ls[j].Typ() != SMT
    else width == 0
  }

  function OneIfZero(n: nat): nat {
    if n == 0 then 1 else n
  }

  ghost predicate IsDecoded(ls: seq<Subleaf>, d: Decoded) {
    var n := Levels(ls);
    if n == 0 then d == ABSENT
    else exists width: nat, top: nat ::
      && IsWidth(ls, n, width) && IsTop(ls, n, top)
      && d == Decoded(OneIfZero(width), OneIfZero(top), OneIfZero(top) / OneIfZero(width), true)
  }

  /** A null pointer is no subleaves. */
  method TopologyDecode(subleaves: seq<Subleaf>) returns (out: Decoded)
    ensures IsDecoded(subleaves, out)
  {
    out := ABSENT;
    var smtWidth, deepest, sawLevel := 0, 0, false;
    var i := 0;
    while i < |subleaves|
      invariant 0 <= i <= |subleaves|
      invariant forall k :: 0 <= k < i ==> subleaves[k].Typ() != INVALID
      invariant sawLevel <==> i > 0
      invariant IsWidth(subleaves, i, smtWidth) && IsTop(subleaves, i, deepest)
    {
      var typ := subleaves[i].Typ();
      if typ == INVALID {
        break;
      }
      sawLevel := true;
      var nlog := subleaves[i].Count();
      WidthNext(subleaves, i, smtWidth);
      TopNext(subleaves, i, deepest);
      if typ == SMT {
        smtWidth := nlog;
      }
      if nlog > deepest {
        deepest := nlog;
      }
      i := i + 1;
    }
    LevelsAre(subleaves, i);
    if !sawLevel {
      return;
    }
    out := Decoded(OneIfZero(smtWidth), OneIfZero(deepest), OneIfZero(deepest) / OneIfZero(smtWidth), true);
  }

  lemma LevelsAre(ls: seq<Subleaf>, n: nat)
    requires n <= |ls| && (forall i :: 0 <= i < n ==> ls[i].Typ() != INVALID)
    requires n < |ls| ==> ls[n].Typ() == INVALID
    ensures Levels(ls) == n
  {
  }

  lemma WidthNext(ls: seq<Subleaf>, i: nat, width: nat)
    requires i < |ls| && IsWidth(ls, i, width)
    ensures IsWidth(ls, i + 1, if ls[i].Typ() == SMT then ls[i].Count() else width)
  {
    if ls[i].Typ() != SMT && exists k :: 0 <= k < i && ls[k].Typ() == SMT {
      var k :| 0 <= k < i && ls[k].Typ() == SMT && ls[k].Count() == width
        && forall j :: k < j < i ==> ls[j].Typ() != SMT;
      assert forall j :: k < j < i + 1 ==> ls[j].Typ() != SMT;
    }
  }

  lemma TopNext(ls: seq<Subleaf>, i: nat, top: nat)
    requires i < |ls| && IsTop(ls, i, top)
    ensures IsTop(ls, i + 1, if ls[i].Count() > top then ls[i].Count() else top)
  {
  }

  // ----- What is decoded

  /** A package always has a core, and its cores' threads never outnumber its logical
      processors. */
  lemma CoresFit(ls: seq<Subleaf>, d: Decoded)
    requires IsDecoded(ls, d) && d.valid
    ensures d.threadsPerCore >= 1 && d.coresPerPackage >= 1
    ensures d.threadsPerCore * d.coresPerPackage <= d.logicalPerPackage
    ensures d.logicalPerPackage < d.threadsPerCore * (d.coresPerPackage + 1)
  {
    var n := Levels(ls);
    var width: nat, top: nat :| IsWidth(ls, n, width) && IsTop(ls, n, top)
      && d == Decoded(OneIfZero(width), OneIfZero(top), OneIfZero(top) / OneIfZero(width), true);
    assert width <= top;
    Quotient(d.logicalPerPackage, d.threadsPerCore);
  }

  lemma Quotient(a: nat, b: nat)
    requires 1 <= b <= a
    ensures a / b >= 1 && b * (a / b) <= a < b * (a / b + 1)
  {
  }

  /** The decoder keeps the largest count of any level; that is the outermost level's
      count, as the levels' order promises, exactly when no inner level reports more. */
  lemma OutermostExactly(ls: seq<Subleaf>, d: Decoded)
    requires IsDecoded(ls, d) && d.valid
    ensures var n := Levels(ls);
      && n > 0
      && (d.logicalPerPackage == OneIfZero(ls[n - 1].Count()) <==>
           forall i :: 0 <= i < n ==> ls[i].Count() <= OneIfZero(ls[n - 1].Count()))
  {
  }

  /** Four threads at the SMT level and two at the level around it: four are kept. */
  lemma InnerLevelKept(d: Decoded)
    requires var ls := [Subleaf(4, 0x100), Subleaf(2, 0x200)]; IsDecoded(ls, d)
    ensures d.logicalPerPackage == 4
  {
    var ls := [Subleaf(4, 0x100), Subleaf(2, 0x200)];
    assert ls[0].Count() == 4 && ls[1].Count() == 2;
    LevelsAre(ls, 2);
  }

  /** The level type is the second byte of ecx, the count the low half of ebx. */
  lemma SubleafFields(level: nat, typ: nat, rest: nat, count: nat, high: nat)
    requires level < 0x100 && typ < 0x100 && rest < 0x1_0000 && count < 0x1_0000 && high < 0x1_0000
    ensures var l := Subleaf(count + 0x1_0000 * high, level + 0x100 * typ + 0x1_0000 * rest);
      l.Typ() == typ && l.Count() == count
  {
    var ecx := level + 0x100 * typ + 0x1_0000 * rest;
    assert ecx / 0x100 == typ + 0x100 * rest;
  }

  /** The usual table: the SMT level, type 1, the core level, type 2, and type 0 for the end,
      behind which nothing is looked at. */
  lemma TwoLevelsDecoded(threads: nat, logical: nat, ls: seq<Subleaf>, d: Decoded)
    requires 1 <= threads <= logical < 0x1_0000
    requires |ls| >= 3 && ls[..3] == [Subleaf(threads, 0x100), Subleaf(logical, 0x201), Subleaf(0, 0x002)]
    requires IsDecoded(ls, d)
    ensures d == Decoded(threads, logical, logical / threads, true)
  {
    var three := ls[..3];
    assert ls[0] == three[0] && ls[1] == three[1] && ls[2] == three[2];
    SubleafFields(0, 1, 0, threads, 0);
    SubleafFields(1, 2, 0, logical, 0);
    SubleafFields(2, 0, 0, 0, 0);
    LevelsAre(ls, 2);
    TwoLevels(ls, d);
  }

  lemma TwoLevels(ls: seq<Subleaf>, d: Decoded)
    requires |ls| >= 2 && Levels(ls) == 2 && ls[0].Typ() == SMT && ls[1].Typ() != SMT
    requires 1 <= ls[0].Count() <= ls[1].Count() && IsDecoded(ls, d)
    ensures d == Decoded(ls[0].Count(), ls[1].Count(), ls[1].Count() / ls[0].Count(), true)
  {
    var width: nat, top: nat :| IsWidth(ls, 2, width) && IsTop(ls, 2, top)
      && d == Decoded(OneIfZero(width), OneIfZero(top), OneIfZero(top) / OneIfZero(width), true);
    assert width == ls[0].Count() && top == ls[1].Count();
  }
}
