/** The ethtool link-mode renderer. The name table is a parameter; entry None is a bit
    the table does not know. */
module LinkModes {
  import opened Prelude
  import opened Decimal
  import opened GoStrings
  import opened CpuBits
  import opened NameList

  type Table = seq<Option<string>>

  /** The name of a bit: from the table, or "bitN" for one it has not learned. */
  function ModeName(table: Table, bit: nat): string {
    if bit < |table| && table[bit].Some? then table[bit].value else "bit" + Render(bit)
  }

  predicate Set(mask: seq<u32>, bit: nat) {
    bit / 32 < |mask| && ShiftRight(mask[bit / 32], bit % 32) % 2 == 1
  }

  function Bits(mask: seq<u32>): nat -> bool {
    (bit: nat) => Set(mask, bit)
  }

  function Labels(table: Table): nat -> string {
    (bit: nat) => ModeName(table, bit)
  }

  /** The names of the set bits of a mask, in bit order. */
  function SetNames(table: Table, mask: seq<u32>): seq<string> {
    Collect(Bits(mask), Labels(table), 32 * |mask|)
  }

  lemma {:induction false} RenderLength(n: nat, digits: nat, bound: nat)
    requires digits >= 1 && n < bound && bound == Pow10(digits)
    ensures |Render(n)| <= digits
    decreases digits
  {
    assert Pow10(1) == 10;
    if n >= 10 {
      RenderLength(n / 10, digits - 1, Pow10(digits - 1));
    }
  }

  function Pow10(k: nat): nat {
    if k == 0 then 1 else 10 * Pow10(k - 1)
  }

  /** "bit%u" fits the sixteen bytes of tmp for every 32-bit value. */
  lemma BitNameFits(bit: u32)
    ensures |"bit" + Render(bit)| < 16
  {
    assert Pow10(10) == 10_000_000_000;
    RenderLength(bit, 10, 10_000_000_000);
  }

  /** Renders the set bits of the first nwords words; nwords is a C int, and bit numbers
      must not overflow one. */
  method LinkModesString(mask: array?<u32>, nwords: int, table: Table, buf: array<char>, cap: nat)
    returns (need: nat)
    requires mask != null ==> nwords <= mask.Length
    requires nwords <= 0x400_0000 && cap <= buf.Length
    modifies buf
    ensures var o := if mask == null || nwords <= 0 then Out(0, "")
                     else Emit(SetNames(table, mask[..nwords]), cap);
      need == o.need && NameList.Holds(buf[..], old(buf[..]), cap, o.text)
  {
    StartBuffer(buf, cap);
    if mask == null || nwords <= 0 {
      return 0;
    }
    var words := mask[..nwords];
    BitsAreMask(words);
    need := RenderMask(words, Labels(table), buf, cap, Bits(words), Lister(Bits(words), Labels(table)), old(buf[..]));
  }

  /** Bits from .. from + 31 of the set are those of the word. */
  ghost predicate WordOf(inSet: nat -> bool, from: nat, word: u32) {
    forall b: nat :: b < 32 ==> (inSet(from + b) <==> ShiftRight(word, b) % 2 == 1)
  }

  ghost predicate MaskOf(inSet: nat -> bool, m: seq<u32>) {
    forall w: nat :: w < |m| ==> WordOf(inSet, 32 * w, m[w])
  }

  lemma BitsAreMask(m: seq<u32>)
    ensures MaskOf(Bits(m), m)
  {
    forall w: nat, b: nat | w < |m| && b < 32
      ensures Bits(m)(32 * w + b) <==> ShiftRight(m[w], b) % 2 == 1
    {
      assert (32 * w + b) / 32 == w && (32 * w + b) % 32 == b;
    }
  }

  /** listed(n) is the list of the names of the set bits below n. */
  ghost predicate Lists(listed: nat -> seq<string>, inSet: nat -> bool, nameOf: nat -> string) {
    listed(0) == [] && forall bit: nat {:trigger inSet(bit)} ::
      listed(bit + 1) == listed(bit) + if inSet(bit) then [nameOf(bit)] else []
  }

  function Lister(inSet: nat -> bool, nameOf: nat -> string): nat -> seq<string> {
    (n: nat) => Collect(inSet, nameOf, n)
  }

  /** The outer loop, with the bits as a set and the names as a function. */
  method RenderMask(mask: seq<u32>, nameOf: nat -> string, buf: array<char>, cap: nat,
                    ghost inSet: nat -> bool, ghost listed: nat -> seq<string>, ghost was: string)
    returns (need: nat)
    requires MaskOf(inSet, mask) && Lists(listed, inSet, nameOf)
    requires NameList.Holds(buf[..], was, cap, "")
    modifies buf
    ensures var o := Emit(listed(32 * |mask|), cap);
      need == o.need && NameList.Holds(buf[..], was, cap, o.text)
  {
    need := 0;
    var used, first := 0, true;
    ghost var names := [];
    var w, from := 0, 0;
    while w < |mask|
      invariant 0 <= w <= |mask| && from == 32 * w && names == listed(from)
      invariant Rendered(buf[..], was, cap, need, used, first, names)
    {
      need, used, first, names :=
        RenderWord(mask[w], from, nameOf, buf, cap, need, used, first, inSet, listed, names, was);
      w, from := w + 1, from + 32;
    }
  }

  /** The inner loop, over the bits of one word, whose first is bit `from`. */
  method RenderWord(word: u32, from: nat, nameOf: nat -> string, buf: array<char>, cap: nat,
                    need: nat, used: nat, first: bool,
                    ghost inSet: nat -> bool, ghost listed: nat -> seq<string>,
                    ghost names: seq<string>, ghost was: string)
    returns (need': nat, used': nat, first': bool, ghost names': seq<string>)
    requires WordOf(inSet, from, word) && Lists(listed, inSet, nameOf)
    requires names == listed(from)
    requires Rendered(buf[..], was, cap, need, used, first, names)
    modifies buf
    ensures names' == listed(from + 32)
    ensures Rendered(buf[..], was, cap, need', used', first', names')
  {
    need', used', first', names' := need, used, first, names;
    var b := 0;
    while b < 32
      invariant 0 <= b <= 32 && names' == listed(from + b)
      invariant Rendered(buf[..], was, cap, need', used', first', names')
    {
      need', used', first', names' :=
        RenderBit(word, b, from + b, nameOf, buf, cap, need', used', first', inSet, listed, names', was);
      b := b + 1;
    }
  }

  /** One bit: its name if it is set. */
  method RenderBit(word: u32, b: nat, bit: nat, nameOf: nat -> string, buf: array<char>, cap: nat,
                   need: nat, used: nat, first: bool,
                   ghost inSet: nat -> bool, ghost listed: nat -> seq<string>, ghost names: seq<string>,
                   ghost was: string)
    returns (need': nat, used': nat, first': bool, ghost names': seq<string>)
    requires Lists(listed, inSet, nameOf) && (inSet(bit) <==> ShiftRight(word, b) % 2 == 1)
    requires names == listed(bit)
    requires Rendered(buf[..], was, cap, need, used, first, names)
    modifies buf
    ensures names' == listed(bit + 1)
    ensures Rendered(buf[..], was, cap, need', used', first', names')
  {
    need', used', first', names' := need, used, first, names;
    if ShiftRight(word, b) % 2 == 1 {
      need', used' := RenderName(buf, was, cap, need, used, nameOf(bit), first, names);
      first', names' := false, names + [nameOf(bit)];
    }
  }

  // ----- The string determines the mask

  /** Table names are words, all different, and none looks like a fallback name. */
  ghost predicate GoodTable(table: Table) {
    && (forall i :: 0 <= i < |table| && table[i].Some? ==> Word(table[i].value))
    && (forall i, j :: 0 <= i < j < |table| && table[i].Some? && table[j].Some? ==> table[i] != table[j])
    && forall i, n: nat :: 0 <= i < |table| && table[i].Some? ==> table[i].value != "bit" + Render(n)
  }

  lemma RenderInjective(a: nat, b: nat)
    requires Render(a) == Render(b)
    ensures a == b
  {
    RenderValue(a);
    RenderValue(b);
  }

  lemma NameInjective(table: Table, a: nat, b: nat)
    requires GoodTable(table) && ModeName(table, a) == ModeName(table, b)
    ensures a == b
  {
    var inA, inB := a < |table| && table[a].Some?, b < |table| && table[b].Some?;
    if !inA && !inB {
      assert ModeName(table, a)[3..] == Render(a) && ModeName(table, b)[3..] == Render(b);
      RenderInjective(a, b);
    } else if inA && inB {
      assert table[a] == table[b];
    }
  }

  lemma NameIsWord(table: Table, bit: nat)
    requires GoodTable(table)
    ensures Word(ModeName(table, bit))
  {
    if !(bit < |table| && table[bit].Some?) {
      var d, s := Render(bit), "bit" + Render(bit);
      RenderValue(bit);
      forall i | 0 <= i < |s| ensures !IsSpace(s[i]) {
        if i >= 3 {
          assert s[i] == d[i - 3] && IsDigit(d[i - 3]);
        }
      }
    }
  }

  lemma {:induction false} SetNamesAreWords(table: Table, mask: seq<u32>, n: nat)
    requires GoodTable(table)
    ensures Words(Collect(Bits(mask), Labels(table), n))
  {
    if n > 0 {
      SetNamesAreWords(table, mask, n - 1);
      NameIsWord(table, n - 1);
    }
  }

  ghost predicate Injective(nameOf: nat -> string) {
    forall a: nat, b: nat :: nameOf(a) == nameOf(b) ==> a == b
  }

  lemma LabelsInjective(table: Table)
    requires GoodTable(table)
    ensures Injective(Labels(table))
  {
    forall a: nat, b: nat | ModeName(table, a) == ModeName(table, b) ensures a == b {
      NameInjective(table, a, b);
    }
  }

  /** A set bit's name is listed, an unset bit's is not. */
  lemma {:induction false} ListedExactly(inSet: nat -> bool, nameOf: nat -> string, n: nat, bit: nat)
    requires Injective(nameOf)
    ensures nameOf(bit) in Collect(inSet, nameOf, n) <==> bit < n && inSet(bit)
  {
    if n > 0 {
      ListedExactly(inSet, nameOf, n - 1, bit);
    }
  }

  /** The names stand in the order of the numbers. */
  lemma {:induction false} ListedInOrder(inSet: nat -> bool, nameOf: nat -> string, n: nat, a: nat, b: nat)
    requires a < b < n && inSet(a) && inSet(b)
    ensures exists i, j :: (
      0 <= i < j < |Collect(inSet, nameOf, n)|
        && Collect(inSet, nameOf, n)[i] == nameOf(a) && Collect(inSet, nameOf, n)[j] == nameOf(b))
  {
    var front, all := Collect(inSet, nameOf, n - 1), Collect(inSet, nameOf, n);
    if b < n - 1 {
      ListedInOrder(inSet, nameOf, n - 1, a, b);
      var i, j :| 0 <= i < j < |front| && front[i] == nameOf(a) && front[j] == nameOf(b);
      assert all[i] == nameOf(a) && all[j] == nameOf(b);
    } else {
      CollectHolds(inSet, nameOf, n - 1, a);
      var i :| 0 <= i < |front| && front[i] == nameOf(a);
      assert all[i] == nameOf(a) && all[|front|] == nameOf(b);
    }
  }

  lemma {:induction false} CollectHolds(inSet: nat -> bool, nameOf: nat -> string, n: nat, a: nat)
    requires a < n && inSet(a)
    ensures nameOf(a) in Collect(inSet, nameOf, n)
  {
    if a < n - 1 {
      CollectHolds(inSet, nameOf, n - 1, a);
    }
  }

  lemma {:induction false} ShiftIsQuotient(w: nat, k: nat)
    ensures ShiftRight(w, k) == w / Pow2(k)
  {
    if k > 0 {
      ShiftIsQuotient(w / 2, k - 1);
      DivideInTurn(w, Pow2(k - 1));
    }
  }

  /** Bit b of word w of a mask is listed, under the table's name or else as "bit" and its
      number, if and only if it is 1. */
  lemma ModeListedExactly(table: Table, mask: seq<u32>, w: nat, b: nat)
    requires GoodTable(table) && w < |mask| && b < 32
    ensures var bit := 32 * w + b;
      var name := if bit < |table| && table[bit].Some? then table[bit].value else "bit" + Render(bit);
      name in SetNames(table, mask) <==> mask[w] / Pow2(b) % 2 == 1
  {
    var bit := 32 * w + b;
    assert bit / 32 == w && bit % 32 == b;
    ShiftIsQuotient(mask[w], b);
    LabelsInjective(table);
    ListedExactly(Bits(mask), Labels(table), 32 * |mask|, bit);
  }

  /** Two masks of the same size that render, untruncated, to the same string have the
      same bits set, bits the table does not know included. */
  lemma StringDeterminesMask(table: Table, a: seq<u32>, b: seq<u32>, cap: nat)
    requires GoodTable(table) && |a| == |b|
    requires Emit(SetNames(table, a), cap).need < cap && Emit(SetNames(table, b), cap).need < cap
    requires Emit(SetNames(table, a), cap).text == Emit(SetNames(table, b), cap).text
    ensures forall bit: nat :: Set(a, bit) <==> Set(b, bit)
  {
    var n := 32 * |a|;
    SetNamesAreWords(table, a, n);
    SetNamesAreWords(table, b, n);
    NamesReadBack(SetNames(table, a), cap);
    NamesReadBack(SetNames(table, b), cap);
    LabelsInjective(table);
    forall bit: nat ensures Set(a, bit) <==> Set(b, bit) {
      ListedExactly(Bits(a), Labels(table), n, bit);
      ListedExactly(Bits(b), Labels(table), n, bit);
    }
  }
}
