/** The reader of `lspci -Dnnmm`: quoted fields and bare tokens on each line. */
module Lspci {
  import opened Prelude
  import opened GoStrings

  // ----- One line: quoted fields and bare tokens

  datatype Item = Quoted(text: string) | Bare(text: string)

  /** What stands at offset i and after, in order; an unclosed quote ends the list. */
  function ItemsFrom(s: string, i: nat): seq<Item>
    requires i <= |s|
    decreases |s| - i
  {
    if i == |s| then []
    else if s[i] == '"' then
      var e := IndexOf(s, i + 1, '"');
      if e == |s| then [] else [Quoted(s[i + 1..e])] + ItemsFrom(s, e + 1)
    else if s[i] == ' ' then ItemsFrom(s, i + 1)
    else
      var e := IndexOf(s, i + 1, ' ');
      [Bare(s[i..e])] + ItemsFrom(s, e)
  }

  function Items(s: string): seq<Item> {
    ItemsFrom(s, 0)
  }

  /** The texts of the quoted items, and those of the bare ones. */
  function QuotedTexts(items: seq<Item>): seq<string> {
    if items == [] then []
    else (if items[0].Quoted? then [items[0].text] else []) + QuotedTexts(items[1..])
  }

  function BareTexts(items: seq<Item>): seq<string> {
    if items == [] then []
    else (if items[0].Bare? then [items[0].text] else []) + BareTexts(items[1..])
  }

  method SplitLspciFields(s: string) returns (fields: seq<string>, tokens: seq<string>)
    ensures fields == QuotedTexts(Items(s)) && tokens == BareTexts(Items(s))
  {
    fields, tokens := [], [];
    var i := 0;
    while i < |s|
      invariant 0 <= i <= |s|
      invariant fields + QuotedTexts(ItemsFrom(s, i)) == QuotedTexts(Items(s))
      invariant tokens + BareTexts(ItemsFrom(s, i)) == BareTexts(Items(s))
      decreases |s| - i
    {
      if s[i] == '"' {
        var end := IndexOf(s, i + 1, '"');
        if end == |s| {
          return;
        }
        QuotedFirst(s[i + 1..end], ItemsFrom(s, end + 1));
        fields := fields + [s[i + 1..end]];
        i := end + 1;
      } else if s[i] == ' ' {
        i := i + 1;
      } else {
        var end := IndexOf(s, i, ' ');
        BareFirst(s[i..end], ItemsFrom(s, end));
        tokens := tokens + [s[i..end]];
        i := end;
      }
    }
  }

  lemma QuotedFirst(text: string, rest: seq<Item>)
    ensures QuotedTexts([Quoted(text)] + rest) == [text] + QuotedTexts(rest)
    ensures BareTexts([Quoted(text)] + rest) == BareTexts(rest)
  {
    assert ([Quoted(text)] + rest)[1..] == rest;
  }

  lemma BareFirst(text: string, rest: seq<Item>)
    ensures QuotedTexts([Bare(text)] + rest) == QuotedTexts(rest)
    ensures BareTexts([Bare(text)] + rest) == [text] + BareTexts(rest)
  {
    assert ([Bare(text)] + rest)[1..] == rest;
  }

  // ----- Splitting undoes rendering

  function ItemText(item: Item): string {
    match item
    case Quoted(t) => "\"" + t + "\""
    case Bare(t) => t
  }

  function Texts(items: seq<Item>): (ts: seq<string>)
    ensures |ts| == |items|
  {
    if items == [] then [] else [ItemText(items[0])] + Texts(items[1..])
  }

  /** The items with a space between each two. */
  function Line(items: seq<Item>): string {
    Join(Texts(items), ' ')
  }

  predicate Clean(item: Item) {
    match item
    case Quoted(t) => '"' !in t
    case Bare(t) => t != "" && t[0] != '"' && ' ' !in t
  }

  ghost predicate AllClean(items: seq<Item>) {
    forall i :: 0 <= i < |items| ==> Clean(items[i])
  }

  lemma QuotedHere(s: string, i: nat, e: nat, text: string)
    requires i < e < |s| && s[i] == '"' && e == IndexOf(s, i + 1, '"') && text == s[i + 1..e]
    ensures ItemsFrom(s, i) == [Quoted(text)] + ItemsFrom(s, e + 1)
  {
  }

  lemma BareHere(s: string, i: nat, e: nat, text: string)
    requires i < e <= |s| && s[i] != '"' && s[i] != ' ' && e == IndexOf(s, i, ' ') && text == s[i..e]
    ensures ItemsFrom(s, i) == [Bare(text)] + ItemsFrom(s, e)
  {
  }

  lemma Regroup(pre: string, q: string, text: string, tail: string)
    ensures pre + (q + text + q) + tail == pre + q + text + (q + tail)
  {
    assert pre + (q + text + q) == pre + q + text + q;
  }

  lemma QuotedBetween(open: string, text: string, close: string, s: string, k: nat, e: nat)
    requires '"' !in text && s == open + text + close && |open| == k + 1 && e == |open| + |text|
    requires open[k] == '"' && close != "" && close[0] == '"'
    ensures k < e < |s| && s[k] == '"' && IndexOf(s, k + 1, '"') == e && s[k + 1..e] == text
  {
    PartEnds(open, text, close, s, '"');
    assert s[k] == open[k];
  }

  lemma QuotedAt(pre: string, text: string, tail: string, s: string, e: nat)
    requires '"' !in text && s == pre + ("\"" + text + "\"") + tail && e == |pre| + 1 + |text|
    ensures |pre| < e < |s| && s[|pre|] == '"' && IndexOf(s, |pre| + 1, '"') == e && s[|pre| + 1..e] == text
  {
    Regroup(pre, "\"", text, tail);
    QuotedBetween(pre + "\"", text, "\"" + tail, s, |pre|, e);
  }

  lemma BareAt(pre: string, text: string, tail: string, s: string)
    requires Clean(Bare(text)) && (tail == "" || tail[0] == ' ') && s == pre + text + tail
    ensures ItemsFrom(s, |pre|) == [Bare(text)] + ItemsFrom(s, |pre| + |text|)
  {
    PartEnds(pre, text, tail, s, ' ');
    assert s[|pre|] == text[0] && text[0] in text;
    BareHere(s, |pre|, |pre| + |text|, text);
  }

  /** An item at the end of pre, with a space or nothing behind it. */
  lemma ItemAt(pre: string, item: Item, tail: string, s: string)
    requires Clean(item) && (tail == "" || tail[0] == ' ')
    requires s == pre + ItemText(item) + tail
    ensures ItemsFrom(s, |pre|) == [item] + ItemsFrom(s, |pre| + |ItemText(item)|)
  {
    match item
    case Quoted(text) =>
      QuotedAt(pre, text, tail, s, |pre| + 1 + |text|);
      QuotedHere(s, |pre|, |pre| + 1 + |text|, text);
    case Bare(text) => BareAt(pre, text, tail, s);
  }

  lemma LastItemAt(pre: string, item: Item, s: string)
    requires Clean(item) && s == pre + ItemText(item)
    ensures ItemsFrom(s, |pre|) == [item]
  {
    assert s == pre + ItemText(item) + "";
    ItemAt(pre, item, "", s);
  }

  lemma ItemThen(pre: string, item: Item, rest: string, s: string, items: seq<Item>)
    requires Clean(item) && s == pre + ItemText(item) + " " + rest
    requires items == ItemsFrom(s, |pre| + |ItemText(item)| + 1)
    ensures ItemsFrom(s, |pre|) == [item] + items
  {
    assert s == pre + ItemText(item) + (" " + rest);
    ItemAt(pre, item, " " + rest, s);
    assert s[|pre| + |ItemText(item)|] == ' ';
  }

  lemma {:induction false} ItemsOfLineFrom(pre: string, items: seq<Item>, s: string)
    requires AllClean(items) && s == pre + Line(items)
    ensures ItemsFrom(s, |pre|) == items
    decreases |items|
  {
    if |items| == 1 {
      assert Texts(items) == [ItemText(items[0])];
      LastItemAt(pre, items[0], s);
    } else if items != [] {
      var text, rest := ItemText(items[0]), Line(items[1..]);
      var pre' := pre + text + " ";
      assert s == pre' + rest;
      ItemsOfLineFrom(pre', items[1..], s);
      ItemThen(pre, items[0], rest, s, items[1..]);
    }
  }

  /** Every rendered list of clean items is split back into exactly those items. */
  lemma ItemsOfLine(items: seq<Item>)
    requires AllClean(items)
    ensures Items(Line(items)) == items
  {
    assert "" + Line(items) == Line(items);
    ItemsOfLineFrom("", items, Line(items));
  }

  /** Whatever the line, what is split off it is clean. */
  lemma {:induction false} ItemsAreClean(s: string, i: nat)
    requires i <= |s|
    ensures AllClean(ItemsFrom(s, i))
    decreases |s| - i
  {
    if i < |s| {
      if s[i] == '"' {
        var e := IndexOf(s, i + 1, '"');
        IndexOfFirst(s, i + 1, '"');
        if e < |s| {
          ItemsAreClean(s, e + 1);
        }
      } else if s[i] == ' ' {
        ItemsAreClean(s, i + 1);
      } else {
        IndexOfFirst(s, i + 1, ' ');
        ItemsAreClean(s, IndexOf(s, i + 1, ' '));
      }
    }
  }

  /** Splitting any line and writing the items out again loses nothing. */
  lemma SplitIsStable(s: string)
    ensures Items(Line(Items(s))) == Items(s)
  {
    ItemsAreClean(s, 0);
    ItemsOfLine(Items(s));
  }

  // ----- "name [id]"

  /** strings.LastIndex of a one-character string in the first n characters; -1 without one. */
  function LastIndex(s: string, n: nat, c: char): (r: int)
    requires n <= |s|
    ensures -1 <= r < n && (r >= 0 ==> s[r] == c)
  {
    if n == 0 then -1 else if s[n - 1] == c then n - 1 else LastIndex(s, n - 1, c)
  }

  lemma {:induction false} LastIndexIs(s: string, n: nat, c: char, r: int)
    requires n <= |s| && -1 <= r < n && (r >= 0 ==> s[r] == c)
    requires forall i :: r < i < n ==> s[i] != c
    ensures LastIndex(s, n, c) == r
  {
    if n > 0 && r < n - 1 {
      LastIndexIs(s, n - 1, c, r);
    }
  }

  datatype Named = Named(name: string, id: string)

  function SplitNameAndID(field: string): Named {
    var open, close := LastIndex(field, |field|, '['), LastIndex(field, |field|, ']');
    if open < 0 || close < open then Named(TrimSpace(field), "")
    else Named(TrimSpace(field[..open]), field[open + 1..close])
  }

  function NameText(n: Named): string {
    n.name + " [" + n.id + "]"
  }

  predicate Trimmed(s: string) {
    s == "" || (!IsSpace(s[0]) && !IsSpace(s[|s| - 1]))
  }

  lemma TrimTrailing(name: string)
    requires Trimmed(name)
    ensures TrimSpace(name + " ") == name
  {
    var s := name + " ";
    if name == "" {
      assert SpacesEnd(s, 0) == 1;
      assert s[1..1] == "";
    } else {
      assert s[0] == name[0];
      assert SpacesEnd(s, 0) == 0;
      assert SpacesStart(s, 0, |s|) == SpacesStart(s, 0, |name|) == |name|;
      assert s[0..|name|] == name;
    }
  }

  /** The last bracket pair is the id, whatever brackets the name holds. */
  lemma NameAndIDRecovered(n: Named)
    requires Trimmed(n.name) && '[' !in n.id && ']' !in n.id
    ensures SplitNameAndID(NameText(n)) == n
  {
    var s, k := NameText(n), |n.name| + 1;
    assert s[k] == '[' && s[k + 1..|s| - 1] == n.id && s[|s| - 1] == ']' && s[..k] == n.name + " ";
    forall i | k < i < |s| ensures s[i] != '[' {
      if i < |s| - 1 {
        assert s[i] == n.id[i - k - 1] && n.id[i - k - 1] in n.id;
      }
    }
    LastIndexIs(s, |s|, '[', k);
    LastIndexIs(s, |s|, ']', |s| - 1);
    TrimTrailing(n.name);
  }

  // ----- Devices

  datatype Device = Device(address: string, class_: Named, vendor: Named, device: Named, revision: string)

  predicate IsRevision(t: string) {
    |t| >= 2 && t[..2] == "-r"
  }

  /** The last "-r" token, "" without one. */
  function Revision(tokens: seq<string>): string {
    if tokens == [] then ""
    else
      var t := tokens[|tokens| - 1];
      if IsRevision(t) then t[2..] else Revision(tokens[..|tokens| - 1])
  }

  /** What a line describes, if it describes a device. */
  function DeviceOf(line: string): Option<Device> {
    var cut := Cut(TrimSpace(line), ' ');
    var items := Items(cut.after);
    var fields := QuotedTexts(items);
    if !cut.found || |fields| < 3 then None
    else Some(Device(cut.before, SplitNameAndID(fields[0]), SplitNameAndID(fields[1]), SplitNameAndID(fields[2]),
                     Revision(BareTexts(items))))
  }

  /** The devices of those lines that describe one. */
  function DevicesBy(of: string -> Option<Device>, lines: seq<string>): seq<Device> {
    if lines == [] then []
    else
      var n := |lines| - 1;
      var d := of(lines[n]);
      DevicesBy(of, lines[..n]) + if d.Some? then [d.value] else []
  }

  function Devices(lines: seq<string>): seq<Device> {
    DevicesBy(DeviceOf, lines)
  }

  method ParseLine(raw: string) returns (device: Option<Device>)
    ensures device == DeviceOf(raw)
  {
    var line := TrimSpace(raw);
    if line == "" {
      return None;
    }
    var cut := Cut(line, ' ');
    if !cut.found {
      return None;
    }
    var fields, tokens := SplitLspciFields(cut.after);
    if |fields| < 3 {
      return None;
    }
    var revision := FindRevision(tokens);
    device := Some(Device(cut.before, SplitNameAndID(fields[0]), SplitNameAndID(fields[1]),
                          SplitNameAndID(fields[2]), revision));
  }

  method FindRevision(tokens: seq<string>) returns (revision: string)
    ensures revision == Revision(tokens)
  {
    revision := "";
    for k := 0 to |tokens|
      invariant revision == Revision(tokens[..k])
    {
      assert tokens[..k + 1][..k] == tokens[..k];
      if IsRevision(tokens[k]) {
        revision := tokens[k][2..];
      }
    }
    assert tokens[..|tokens|] == tokens;
  }

  method ParseLspciMM(out: string) returns (devices: seq<Device>)
    ensures devices == Devices(Split(out, '\n'))
  {
    devices := [];
    var lines := Split(out, '\n');
    for k := 0 to |lines|
      invariant devices == Devices(lines[..k])
    {
      assert lines[..k + 1][..k] == lines[..k];
      var device := ParseLine(lines[k]);
      if device.Some? {
        devices := devices + [device.value];
      }
    }
    assert lines[..|lines|] == lines;
  }

  // ----- Parsing undoes rendering

  /** A device as lspci prints it: three named fields, its revision if it has one, and
      what else the line carries. */
  datatype Printed = Printed(device: Device, more: seq<Item>)

  function RevisionItem(revision: string): seq<Item> {
    if revision == "" then [] else [Bare("-r" + revision)]
  }

  function PrintedItems(p: Printed): seq<Item> {
    var d := p.device;
    [Quoted(NameText(d.class_))] + ([Quoted(NameText(d.vendor))] + ([Quoted(NameText(d.device))] +
    (RevisionItem(d.revision) + p.more)))
  }

  function PrintedLine(p: Printed): string {
    p.device.address + " " + Line(PrintedItems(p))
  }

  predicate GoodName(n: Named) {
    && Trimmed(n.name) && '"' !in n.name && '\n' !in n.name
    && '[' !in n.id && ']' !in n.id && '"' !in n.id && '\n' !in n.id
  }

  /** What else the line carries: quoted texts, and words that are not a revision. */
  ghost predicate GoodItem(item: Item) {
    match item
    case Quoted(t) => '"' !in t && '\n' !in t
    case Bare(t) => Word(t) && t[0] != '"' && !IsRevision(t)
  }

  ghost predicate GoodPrinted(p: Printed) {
    var d := p.device;
    && Word(d.address) && GoodName(d.class_) && GoodName(d.vendor) && GoodName(d.device)
    && (d.revision != "" ==> Word(d.revision))
    && forall i :: 0 <= i < |p.more| ==> GoodItem(p.more[i])
  }

  /** The printed line of a device is read back as that device. */
  lemma DeviceRecovered(p: Printed)
    requires GoodPrinted(p)
    ensures DeviceOf(PrintedLine(p)) == Some(p.device)
  {
    var d, items, line := p.device, PrintedItems(p), PrintedLine(p);
    PrintedClean(p);
    LineEnds(items);
    assert line[0] == d.address[0] && line[|line| - 1] == Line(items)[|Line(items)| - 1];
    TrimSpaceIdle(line);
    CutAddress(d.address, Line(items), line);
    ItemsOfLine(items);
    PrintedTexts(p);
    NameAndIDRecovered(d.class_);
    NameAndIDRecovered(d.vendor);
    NameAndIDRecovered(d.device);
  }

  lemma CutAddress(address: string, rest: string, line: string)
    requires Word(address) && line == address + " " + rest
    ensures Cut(line, ' ') == CutResult(address, rest, true)
  {
    IndexOfIs(line, 0, ' ', |address|);
  }

  /** An item that a line may carry and that does not end in white space. */
  ghost predicate Printable(item: Item) {
    Clean(item) && '\n' !in item.text && (item.Bare? ==> Word(item.text))
  }

  lemma PrintedClean(p: Printed)
    requires GoodPrinted(p)
    ensures forall i :: 0 <= i < |PrintedItems(p)| ==> Printable(PrintedItems(p)[i])
    ensures AllClean(PrintedItems(p)) && PrintedItems(p) != []
  {
    var items := PrintedItems(p);
    forall i | 0 <= i < |items| ensures Printable(items[i]) {
      if items[i] in p.more {
      }
    }
  }

  lemma {:induction false} LineEnds(items: seq<Item>)
    requires items != [] && forall i :: 0 <= i < |items| ==> Printable(items[i])
    ensures Line(items) != "" && !IsSpace(Line(items)[|Line(items)| - 1]) && '\n' !in Line(items)
  {
    if |items| == 1 {
      assert Texts(items) == [ItemText(items[0])];
    } else {
      assert Texts(items)[1..] == Texts(items[1..]);
      LineEnds(items[1..]);
    }
  }

  lemma PrintedTexts(p: Printed)
    requires GoodPrinted(p)
    ensures var fields := QuotedTexts(PrintedItems(p));
      && |fields| >= 3 && fields[0] == NameText(p.device.class_)
      && fields[1] == NameText(p.device.vendor) && fields[2] == NameText(p.device.device)
    ensures Revision(BareTexts(PrintedItems(p))) == p.device.revision
  {
    var d := p.device;
    var r0 := RevisionItem(d.revision) + p.more;
    var r1 := [Quoted(NameText(d.device))] + r0;
    var r2 := [Quoted(NameText(d.vendor))] + r1;
    QuotedFirst(NameText(d.device), r0);
    QuotedFirst(NameText(d.vendor), r1);
    QuotedFirst(NameText(d.class_), r2);
    RevisionLast(d.revision, p.more);
  }

  lemma RevisionLast(revision: string, more: seq<Item>)
    requires forall i :: 0 <= i < |more| ==> GoodItem(more[i])
    ensures Revision(BareTexts(RevisionItem(revision) + more)) == revision
  {
    NoRevision(more);
    var ts := BareTexts(more);
    if revision == "" {
      assert RevisionItem(revision) + more == more;
      RevisionSkips([], ts);
      assert [] + ts == ts;
    } else {
      var t := "-r" + revision;
      BareFirst(t, more);
      RevisionSkips([t], ts);
    }
  }

  lemma {:induction false} NoRevision(more: seq<Item>)
    requires forall i :: 0 <= i < |more| ==> GoodItem(more[i])
    ensures forall k :: 0 <= k < |BareTexts(more)| ==> !IsRevision(BareTexts(more)[k])
  {
    if more != [] {
      NoRevision(more[1..]);
    }
  }

  lemma {:induction false} RevisionSkips(a: seq<string>, b: seq<string>)
    requires forall k :: 0 <= k < |b| ==> !IsRevision(b[k])
    ensures Revision(a + b) == Revision(a)
  {
    if b == [] {
      assert a + b == a;
    } else {
      var n := |b| - 1;
      assert (a + b)[..|a + b| - 1] == a + b[..n] && (a + b)[|a + b| - 1] == b[n];
      RevisionSkips(a, b[..n]);
    }
  }

  function Lines(ps: seq<Printed>): (lines: seq<string>)
    ensures |lines| == |ps|
  {
    Map(PrintedLine, ps)
  }

  /** The whole output of lspci is read back as the devices printed, in order. */
  lemma ParseRendered(ps: seq<Printed>)
    requires ps != [] && forall i :: 0 <= i < |ps| ==> GoodPrinted(ps[i])
    ensures Devices(Split(Join(Lines(ps), '\n'), '\n')) == Map((p: Printed) => p.device, ps)
  {
    var lines := Lines(ps);
    forall i | 0 <= i < |ps| ensures '\n' !in lines[i] {
      PrintedClean(ps[i]);
      LineEnds(PrintedItems(ps[i]));
    }
    SplitJoin(lines, '\n');
    var ds := Map((p: Printed) => p.device, ps);
    forall i | 0 <= i < |ps| ensures DeviceOf(lines[i]) == Some(ds[i]) {
      DeviceRecovered(ps[i]);
    }
    DevicesAre(DeviceOf, lines, ds);
  }

  lemma {:induction false} DevicesAre(of: string -> Option<Device>, lines: seq<string>, ds: seq<Device>)
    requires |lines| == |ds| && forall i :: 0 <= i < |ds| ==> of(lines[i]) == Some(ds[i])
    ensures DevicesBy(of, lines) == ds
  {
    if lines != [] {
      DevicesAre(of, lines[..|lines| - 1], ds[..|ds| - 1]);
    }
  }
}
