/** The CPUID flag renderer and the reader of /proc/cpuinfo flags that it has to agree
    with. The name table is a parameter. */
module CpuFlags {
  import opened Prelude
  import opened GoStrings
  import opened NameList

  /** The names of the flags that are set, in table order. */
  function FlagNames(table: seq<string>, flags: seq<u8>): seq<string>
    requires |table| == |flags|
  {
    if table == [] then []
    else
      var n := |table| - 1;
      var front := FlagNames(table[..n], flags[..n]);
      if flags[n] != 0 then front + [table[n]] else front
  }

  lemma FlagNamesNext(table: seq<string>, flags: seq<u8>, i: nat)
    requires |table| == |flags| && i < |table|
    ensures FlagNames(table[..i + 1], flags[..i + 1]) ==
      FlagNames(table[..i], flags[..i]) + if flags[i] != 0 then [table[i]] else []
  {
    assert table[..i + 1][..i] == table[..i] && flags[..i + 1][..i] == flags[..i];
    assert FlagNames(table[..i], flags[..i]) + [] == FlagNames(table[..i], flags[..i]);
  }

  method FeaturesString(flags: seq<u8>, table: seq<string>, buf: array<char>, cap: nat)
    returns (need: nat)
    requires |table| == |flags| && cap <= buf.Length
    modifies buf
    ensures var o := Emit(FlagNames(table, flags), cap);
      need == o.need && NameList.Holds(buf[..], old(buf[..]), cap, o.text)
  {
    need := 0;
    var used := 0;
    var first := true;
    StartBuffer(buf, cap);
    ghost var was, names := old(buf[..]), [];
    var i := 0;
    while i < |table|
      invariant 0 <= i <= |table| && names == FlagNames(table[..i], flags[..i])
      invariant Rendered(buf[..], was, cap, need, used, first, names)
    {
      FlagNamesNext(table, flags, i);
      if flags[i] != 0 {
        need, used := RenderName(buf, was, cap, need, used, table[i], first, names);
        first := false;
        names := names + [table[i]];
      }
      i := i + 1;
    }
    assert table[..i] == table && flags[..i] == flags;
  }

  lemma {:induction false} FlagNamesExactly(table: seq<string>, flags: seq<u8>, x: string)
    requires |table| == |flags|
    ensures x in FlagNames(table, flags) <==> exists i :: 0 <= i < |table| && flags[i] != 0 && table[i] == x
    ensures Words(table) ==> Words(FlagNames(table, flags))
  {
    if table != [] {
      var n := |table| - 1;
      FlagNamesExactly(table[..n], flags[..n], x);
      if i :| 0 <= i < |table| && flags[i] != 0 && table[i] == x {
        assert i < n ==> table[..n][i] == x && flags[..n][i] != 0;
      }
    }
  }

  // ----- cpuinfoFlagSet

  /** The value of a "flags" line. */
  function FlagsLine(line: string): Option<string> {
    var cut := Cut(line, ':');
    if cut.found && TrimSpace(cut.before) == "flags" then Some(cut.after) else None
  }

  /** The flags on the first "flags" line; none without one. */
  function FirstFlags(lines: seq<string>): seq<string> {
    if lines == [] then []
    else match FlagsLine(lines[0])
      case Some(value) => Fields(value)
      case None => FirstFlags(lines[1..])
  }

  method CpuinfoFlagSet(cpuinfo: string) returns (flags: set<string>)
    ensures forall x :: x in flags <==> x in FirstFlags(Split(cpuinfo, '\n'))
  {
    flags := {};
    var lines := Split(cpuinfo, '\n');
    ghost var rest := lines;
    var i := 0;
    while i < |lines|
      invariant 0 <= i <= |lines| && flags == {}
      invariant rest == lines[i..] && FirstFlags(lines) == FirstFlags(rest)
    {
      var value := FlagsLine(lines[i]);
      if value.Some? {
        flags := SetOf(Fields(value.value));
        return;
      }
      rest := rest[1..];
      i := i + 1;
    }
  }

  method SetOf(fields: seq<string>) returns (flags: set<string>)
    ensures forall x :: x in flags <==> x in fields
  {
    flags := {};
    for k := 0 to |fields|
      invariant forall x :: x in flags <==> x in fields[..k]
    {
      flags := flags + {fields[k]};
    }
    assert fields[..|fields|] == fields;
  }

  lemma {:induction false} FirstFlagsAt(before: seq<string>, line: string, after: seq<string>, value: string)
    requires forall i :: 0 <= i < |before| ==> FlagsLine(before[i]).None?
    requires FlagsLine(line) == Some(value)
    ensures FirstFlags(before + [line] + after) == Fields(value)
  {
    var lines := before + [line] + after;
    if before != [] {
      assert lines[1..] == before[1..] + [line] + after;
      FirstFlagsAt(before[1..], line, after, value);
    }
  }

  /** The line /proc/cpuinfo prints for a list of flags. */
  function PrintFlags(text: string): string {
    "flags\t\t: " + text
  }

  lemma FlagsLinePrinted(text: string)
    ensures FlagsLine(PrintFlags(text)) == Some(" " + text)
  {
    var line := PrintFlags(text);
    assert line[..7] == "flags\t\t" && line[7] == ':' && line[8..] == " " + text;
    assert forall i :: 0 <= i < 7 ==> line[i] == line[..7][i];
    IndexOfIs(line, 0, ':', 7);
    TabsTrimmed();
  }

  lemma TabsTrimmed()
    ensures TrimSpace("flags\t\t") == "flags"
  {
    var s := "flags\t\t";
    assert SpacesEnd(s, 0) == 0;
    assert SpacesStart(s, 0, 5) == 5;
    assert SpacesStart(s, 0, 6) == 5;
    assert SpacesStart(s, 0, 7) == 5;
    assert s[0..5] == "flags";
  }

  /** The reader recovers exactly the names of the flags set from the untruncated
      rendering, whatever other lines stand before and after. */
  lemma FlagsRecovered(table: seq<string>, flags: seq<u8>, cap: nat,
                       before: seq<string>, after: seq<string>, x: string)
    requires |table| == |flags| && Words(table)
    requires Emit(FlagNames(table, flags), cap).need < cap
    requires forall i :: 0 <= i < |before| ==> FlagsLine(before[i]).None?
    requires Free(before, '\n') && Free(after, '\n')
    ensures var line := PrintFlags(Emit(FlagNames(table, flags), cap).text);
      var cpuinfo := Join(before + [line] + after, '\n');
      x in FirstFlags(Split(cpuinfo, '\n')) <==> exists i :: 0 <= i < |table| && flags[i] != 0 && table[i] == x
  {
    var names := FlagNames(table, flags);
    var text := Emit(names, cap).text;
    var line := PrintFlags(text);
    FlagNamesExactly(table, flags, x);
    EmitExactly(names, cap);
    NoNewline(names, text);
    SplitJoin(before + [line] + after, '\n');
    FlagsLinePrinted(text);
    FirstFlagsAt(before, line, after, " " + text);
    FieldsSkipLeading(text);
    FieldsJoin(names);
  }

  lemma NoNewline(names: seq<string>, text: string)
    requires Words(names) && text == Join(names, ' ')
    ensures '\n' !in PrintFlags(text)
  {
    if names != [] {
      JoinedWords(names);
    }
  }

  lemma FieldsSkipLeading(text: string)
    ensures Fields(" " + text) == Fields(text)
  {
    var s := " " + text;
    FieldsSkipSpace(s, 0);
    FieldsShift(text, s, 0);
  }

  lemma {:induction false} FieldsShift(text: string, s: string, k: nat)
    requires s == " " + text && k <= |text|
    ensures FieldsFrom(s, k + 1) == FieldsFrom(text, k)
    decreases |text| - k
  {
    SpacesShift(text, s, k);
    var b := SpacesEnd(text, k);
    if b < |text| {
      WordShift(text, s, b);
      var e := WordEnd(text, b);
      SliceShift(text, s, b, e);
      FieldsShift(text, s, e);
    }
  }

  lemma SliceShift(text: string, s: string, b: nat, e: nat)
    requires s == " " + text && b <= e <= |text|
    ensures s[b + 1..e + 1] == text[b..e]
  {
  }

  lemma {:induction false} SpacesShift(text: string, s: string, k: nat)
    requires s == " " + text && k <= |text|
    ensures SpacesEnd(s, k + 1) == SpacesEnd(text, k) + 1
    decreases |text| - k
  {
    if k < |text| && IsSpace(text[k]) {
      SpacesShift(text, s, k + 1);
    }
  }

  lemma {:induction false} WordShift(text: string, s: string, k: nat)
    requires s == " " + text && k <= |text|
    ensures WordEnd(s, k + 1) == WordEnd(text, k) + 1
    decreases |text| - k
  {
    if k < |text| && !IsSpace(text[k]) {
      WordShift(text, s, k + 1);
    }
  }
}
