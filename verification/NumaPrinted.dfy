/** The whole output of `numactl --hardware`, distance matrix included, as a specification,
    and its parse: what is printed for a topology is read back as that topology. */
module NumaPrinted {
  import opened Prelude
  import opened GoInt
  import opened GoStrings
  import opened Decimal
  import opened NumaRun
  import opened Numa

  // ----- What is printed

  /** The topology as numactl prints it: its nodes, and one row of distances for each. */
  datatype Topology = Topology(nodes: seq<Node>, distances: seq<seq<int>>) {
    ghost predicate Printable() {
      && |distances| == |nodes|
      && (forall i :: 0 <= i < |nodes| ==> PrintableNode(nodes[i]) && PrintableRow(distances[i]))
      && forall i, j :: 0 <= i < j < |nodes| ==> nodes[i].id != nodes[j].id
    }
  }

  ghost predicate PrintableNode(n: Node) {
    0 <= n.id <= MAX_INT && 0 <= n.cpus <= MAX_INT && 0 <= n.sizeMb <= MAX_INT && 0 <= n.freeMb <= MAX_INT
  }

  ghost predicate PrintableRow(row: seq<int>) {
    row != [] && forall i :: 0 <= i < |row| ==> 0 <= row[i] <= MAX_INT
  }

  /** The blanks in front of a number, to make it three columns wide. */
  ghost function Padding(w: string): string {
    seq(if |w| < 3 then 3 - |w| else 0, _ => ' ')
  }

  /** A blank and an aligned number for each. */
  ghost function Cells(row: seq<int>): string
    requires forall i :: 0 <= i < |row| ==> 0 <= row[i]
  {
    if row == [] then ""
    else
      var w := Render(row[0]);
      (" " + Padding(w)) + w + Cells(row[1..])
  }

  ghost function RowLine(id: int, row: seq<int>): string
    requires 0 <= id && PrintableRow(row)
  {
    Padding(Render(id)) + (Render(id) + ":" + Cells(row))
  }

  /** The three lines of each node. */
  ghost function NodeUpdates(nodes: seq<Node>): seq<Update> {
    if nodes == [] then []
    else
      var n := nodes[|nodes| - 1];
      NodeUpdates(nodes[..|nodes| - 1])
        + [Update(n.id, Cpus, n.cpus), Update(n.id, Size, n.sizeMb), Update(n.id, Free, n.freeMb)]
  }

  // ----- The nodes

  /** The lines of nodes with distinct ids leave exactly those nodes, however the slice
      grows. */
  lemma {:induction false} RunOfNodes(grow: nat -> nat, nodes: seq<Node>)
    requires forall i, j :: 0 <= i < j < |nodes| ==> nodes[i].id != nodes[j].id
    ensures Run(grow, NodeUpdates(nodes)) == nodes
  {
    if nodes != [] {
      var k := |nodes| - 1;
      var front, n := nodes[..k], nodes[k];
      RunOfNodes(grow, front);
      RunOfNode(grow, NodeUpdates(front), front, n);
      assert front + [n] == nodes;
    }
  }

  lemma RunOfNode(grow: nat -> nat, us: seq<Update>, nodes: seq<Node>, n: Node)
    requires Run(grow, us) == nodes && forall i :: 0 <= i < |nodes| ==> nodes[i].id != n.id
    ensures Run(grow, us + [Update(n.id, Cpus, n.cpus), Update(n.id, Size, n.sizeMb), Update(n.id, Free, n.freeMb)])
      == nodes + [n]
  {
    var a, b, c := Update(n.id, Cpus, n.cpus), Update(n.id, Size, n.sizeMb), Update(n.id, Free, n.freeMb);
    FirstUpdate(grow, us, nodes, n.id, n.cpus);
    UpdateLast(grow, us + [a], nodes, Node(n.id, n.cpus, 0, 0), b, us + [a] + [b]);
    UpdateLast(grow, us + [a] + [b], nodes, Node(n.id, n.cpus, n.sizeMb, 0), c, us + [a, b, c]);
  }

  lemma FirstUpdate(grow: nat -> nat, us: seq<Update>, nodes: seq<Node>, id: int, cpus: int)
    requires Run(grow, us) == nodes && forall i :: 0 <= i < |nodes| ==> nodes[i].id != id
    ensures Run(grow, us + [Update(id, Cpus, cpus)]) == nodes + [Node(id, cpus, 0, 0)]
  {
    RunNext(grow, us, Update(id, Cpus, cpus));
    IndexOfIdAbsent(nodes, id);
  }

  /** An update of the node appended last always reaches it. */
  lemma UpdateLast(grow: nat -> nat, us: seq<Update>, nodes: seq<Node>, n: Node, u: Update, vs: seq<Update>)
    requires Run(grow, us) == nodes + [n] && u.id == n.id && vs == us + [u]
    requires forall i :: 0 <= i < |nodes| ==> nodes[i].id != n.id
    ensures Run(grow, vs) == nodes + [Set(n, u.attr, u.value)]
  {
    RunNext(grow, us, u);
    IndexOfIdAbsent(nodes, n.id);
    assert (nodes + [n])[..|nodes|] == nodes;
  }
  // ----- Numbers in columns

  /** White space, a word, and then the end or more white space. */
  lemma PaddedWord(s: string, k: nat, pad: string, w: string, tail: string, e: nat)
    requires k <= |s| && s[k..] == pad + w + tail && Word(w) && e == k + |pad| + |w|
    requires forall i :: 0 <= i < |pad| ==> IsSpace(pad[i])
    requires tail != "" ==> IsSpace(tail[0])
    ensures e <= |s| && s[e..] == tail && FieldsFrom(s, k) == [w] + FieldsFrom(s, e)
  {
    var u, b := s[k..], k + |pad|;
    assert forall i :: k <= i < |s| ==> s[i] == u[i - k];
    assert s[b..e] == u[|pad|..|pad| + |w|] == w && s[e..] == u[|pad| + |w|..] == tail;
    assert forall i :: k <= i < b ==> s[i] == pad[i - k];
    assert s[b] == w[0];
    SpacesEndIs(s, k, b);
    if e < |s| {
      assert s[e] == tail[0];
    }
    WordAt(s, b, w, e);
  }

  const RENDER := (n: int) => if n < 0 then "" else Render(n)

  lemma {:induction false} FieldsOfCells(s: string, k: nat, row: seq<int>)
    requires forall i :: 0 <= i < |row| ==> 0 <= row[i] <= MAX_INT
    requires k <= |s| && s[k..] == Cells(row)
    ensures FieldsFrom(s, k) == Map(RENDER, row)
    decreases |row|
  {
    if row == [] {
      assert |s[k..]| == 0;
    } else {
      var w, rest := Render(row[0]), row[1..];
      var pad := " " + Padding(w);
      var e := k + |pad| + |w|;
      RenderedNumeral(row[0]);
      CellsStart(rest);
      PaddedWord(s, k, pad, w, Cells(rest), e);
      FieldsOfCells(s, e, rest);
      assert Map(RENDER, row) == [w] + Map(RENDER, rest);
    }
  }

  lemma CellsStart(row: seq<int>)
    requires forall i :: 0 <= i < |row| ==> 0 <= row[i]
    ensures Cells(row) != "" ==> Cells(row)[0] == ' '
  {
  }

  /** Numbers rendered are read back, in order. */
  lemma {:induction false} NumbersRendered(words: seq<string>, row: seq<int>)
    requires |words| == |row|
    requires forall i :: 0 <= i < |row| ==> 0 <= row[i] <= MAX_INT && words[i] == Render(row[i])
    ensures Numbers(words) == row
  {
    if row != [] {
      var n := |row| - 1;
      NumbersRendered(words[..n], row[..n]);
      NumbersNext(words[..n], row[n], words);
      assert row == row[..n] + [row[n]];
    }
  }

  lemma NumbersNext(front: seq<string>, x: nat, words: seq<string>)
    requires x <= MAX_INT && words == front + [Render(x)]
    ensures Numbers(words) == Numbers(front) + [x]
  {
    RenderedNumeral(x);
    assert words[..|front|] == front;
  }

  ghost predicate DigitsAndBlanks(s: string) {
    forall i :: 0 <= i < |s| ==> s[i] == ' ' || IsDigit(s[i])
  }

  lemma {:induction false} CellsShape(row: seq<int>)
    requires forall i :: 0 <= i < |row| ==> 0 <= row[i]
    ensures DigitsAndBlanks(Cells(row))
    ensures row != [] ==> Cells(row) != "" && IsDigit(Cells(row)[|Cells(row)| - 1])
  {
    if row != [] {
      RenderValue(row[0]);
      CellsShape(row[1..]);
    }
  }

  // ----- Lines of the matrix

  /** A printed row, trimmed. */
  lemma LineRowRendered(id: nat, row: seq<int>)
    requires id <= MAX_INT && PrintableRow(row)
    ensures LineRow(Render(id) + ":" + Cells(row)) == row
  {
    var w, cells := Render(id), Cells(row);
    RenderedNumeral(id);
    RenderValue(id);
    TrimSpaceIdle(w);
    CutJoined(w, ':', cells, w + ":" + cells);
    assert cells[0..] == cells;
    FieldsOfCells(cells, 0, row);
    NumbersRendered(Map(RENDER, row), row);
  }

  /** White space in front of a text that has none at its ends is trimmed off. */
  lemma TrimPadding(pad: string, line: string)
    requires forall i :: 0 <= i < |pad| ==> IsSpace(pad[i])
    requires line != "" && !IsSpace(line[0]) && !IsSpace(line[|line| - 1])
    ensures TrimSpace(pad + line) == line
  {
    var s := pad + line;
    assert s[|pad|] == line[0] && s[|s| - 1] == line[|line| - 1];
    TrimSpaceIs(s, |pad|, |s|);
  }

  lemma RowShape(id: nat, row: seq<int>, w: string, cells: string)
    requires PrintableRow(row) && w == Render(id) && cells == Cells(row)
    ensures var line := w + ":" + cells;
      IsDigit(line[0]) && cells != "" && IsDigit(line[|line| - 1]) && '\n' !in line
  {
    RenderValue(id);
    CellsShape(row);
    var line := w + ":" + cells;
    assert line[0] == w[0] && line[|line| - 1] == cells[|cells| - 1];
  }

  lemma ClassifyAsRow(raw: string, line: string, row: seq<int>)
    requires TrimSpace(raw) == line && line != "" && IsDigit(line[0]) && LineRow(line) == row && row != []
    ensures Classify(raw, true) == Row(row)
  {
    assert "node distances:"[0] == 'n';
  }

  lemma ClassifyRow(id: nat, row: seq<int>)
    requires id <= MAX_INT && PrintableRow(row)
    ensures Classify(RowLine(id, row), true) == Row(row) && '\n' !in RowLine(id, row)
  {
    var line := Render(id) + ":" + Cells(row);
    RowShape(id, row, Render(id), Cells(row));
    TrimPadding(Padding(Render(id)), line);
    LineRowRendered(id, row);
    ClassifyAsRow(RowLine(id, row), line, row);
  }

  /** The line of column heads. */
  ghost function HeadLine(ids: seq<int>): string
    requires forall i :: 0 <= i < |ids| ==> 0 <= ids[i]
  {
    "node" + Cells(ids)
  }

  lemma ClassifyHead(ids: seq<int>)
    requires forall i :: 0 <= i < |ids| ==> 0 <= ids[i]
    ensures Classify(HeadLine(ids), true) == Nothing && '\n' !in HeadLine(ids)
  {
    var s := HeadLine(ids);
    CellsShape(ids);
    assert ids != [] ==> s[|s| - 1] == Cells(ids)[|Cells(ids)| - 1];
    TrimSpaceIdle(s);
    assert ':' !in s;
    IndexOfIs(s, 0, ':', |s|);
    assert "node distances:"[14] == ':';
  }

  lemma ClassifyMarker()
    ensures Classify("node distances:", false) == Distances && '\n' !in "node distances:"
  {
    TrimSpaceIdle("node distances:");
  }

  lemma ClassifyAvailable(info: string)
    ensures Classify("available: " + info, false) == Nothing
  {
    var s := "available: " + info;
    var line := TrimSpace(s);
    assert line != "" ==> line[0] == s[0] == 'a';
    assert "node distances:"[0] == 'n' && "node "[0] == 'n';
  }

  lemma ClassifyBlank(inDistances: bool)
    ensures Classify("", inDistances) == Nothing
  {
    TrimSpaceIdle("");
  }

  // ----- The whole output

  /** One row for each node. */
  ghost function RowLines(nodes: seq<Node>, rows: seq<seq<int>>): (lines: seq<string>)
    requires |rows| == |nodes|
    requires forall i :: 0 <= i < |nodes| ==> 0 <= nodes[i].id <= MAX_INT && PrintableRow(rows[i])
    ensures |lines| == |rows|
    ensures forall i :: 0 <= i < |rows| ==> lines[i] == RowLine(nodes[i].id, rows[i])
  {
    seq(|rows|, i requires 0 <= i < |rows| => RowLine(nodes[i].id, rows[i]))
  }

  const ID := (n: Node) => n.id

  /** The lines up to the matrix, its two head lines, its rows and the empty rest. */
  ghost function Lines(info: string, t: Topology): seq<string>
    requires t.Printable()
  {
    UpdatesPrintable(t.nodes);
    ["available: " + info] + RenderUpdates(NodeUpdates(t.nodes))
      + ["node distances:", HeadLine(Map(ID, t.nodes))] + RowLines(t.nodes, t.distances) + [""]
  }

  /** `info` is what is said of the nodes in the first line. */
  ghost function Output(info: string, t: Topology): string
    requires t.Printable()
  {
    Join(Lines(info, t), '\n')
  }

  lemma {:induction false} UpdatesPrintable(nodes: seq<Node>)
    requires forall i :: 0 <= i < |nodes| ==> PrintableNode(nodes[i])
    ensures forall i :: 0 <= i < |NodeUpdates(nodes)| ==> Printable(NodeUpdates(nodes)[i])
  {
    if nodes != [] {
      UpdatesPrintable(nodes[..|nodes| - 1]);
    }
  }

  /** at(i) is what was scanned before line i. */
  ghost predicate Scans(at: nat -> Scan, read: Classifier, lines: seq<string>) {
    && at(0) == Scan([], false, [])
    && forall i {:trigger lines[i]} :: 0 <= i < |lines| ==> at(i + 1) == ScanLine(read, at(i), lines[i])
  }

  lemma {:induction false} ScanUpdates(
      at: nat -> Scan, read: Classifier, lines: seq<string>, k: nat, us: seq<Update>)
    requires Scans(at, read, lines) && k + |us| <= |lines| && at(k) == Scan([], false, [])
    requires forall i :: k <= i < k + |us| ==> read(lines[i], false) == Change(us[i - k])
    ensures at(k + |us|) == Scan(us, false, [])
  {
    if us != [] {
      var n := |us| - 1;
      ScanUpdates(at, read, lines, k, us[..n]);
      assert at(k + n + 1) == ScanLine(read, at(k + n), lines[k + n]);
      assert us == us[..n] + [us[n]];
    }
  }

  lemma {:induction false} ScanRows(
      at: nat -> Scan, read: Classifier, lines: seq<string>, k: nat, us: seq<Update>, rows: seq<seq<int>>)
    requires Scans(at, read, lines) && k + |rows| <= |lines| && at(k) == Scan(us, true, [])
    requires forall i :: k <= i < k + |rows| ==> read(lines[i], true) == Row(rows[i - k])
    ensures at(k + |rows|) == Scan(us, true, rows)
  {
    if rows != [] {
      var n := |rows| - 1;
      ScanRows(at, read, lines, k, us, rows[..n]);
      assert at(k + n + 1) == ScanLine(read, at(k + n), lines[k + n]);
      assert rows == rows[..n] + [rows[n]];
    }
  }

  /** Lines of the form printed, read by any reader that knows them. */
  ghost predicate Known(read: Classifier, lines: seq<string>, us: seq<Update>, rows: seq<seq<int>>) {
    && |lines| == |us| + |rows| + 4
    && read(lines[0], false) == Nothing
    && (forall i :: 1 <= i < 1 + |us| ==> read(lines[i], false) == Change(us[i - 1]))
    && read(lines[|us| + 1], false) == Distances && read(lines[|us| + 2], true) == Nothing
    && (forall i :: |us| + 3 <= i < |us| + 3 + |rows| ==> read(lines[i], true) == Row(rows[i - |us| - 3]))
    && read(lines[|us| + |rows| + 3], true) == Nothing
  }

  lemma ScanKnown(
      at: nat -> Scan, read: Classifier, lines: seq<string>, us: seq<Update>, rows: seq<seq<int>>)
    requires Scans(at, read, lines) && Known(read, lines, us, rows)
    ensures at(|lines|) == Scan(us, true, rows)
  {
    var n, m := |us|, |us| + |rows|;
    assert at(0 + 1) == ScanLine(read, at(0), lines[0]);
    ScanUpdates(at, read, lines, 1, us);
    assert at(n + 1 + 1) == ScanLine(read, at(n + 1), lines[n + 1]);
    assert at(n + 2 + 1) == ScanLine(read, at(n + 2), lines[n + 2]);
    ScanRows(at, read, lines, n + 3, us, rows);
    assert at(m + 3 + 1) == ScanLine(read, at(m + 3), lines[m + 3]);
  }

  lemma ScanOutput(read: Classifier, lines: seq<string>, us: seq<Update>, rows: seq<seq<int>>)
    requires Known(read, lines, us, rows)
    ensures ScanLines(read, lines) == Scan(us, true, rows)
  {
    var at := (k: nat) => ScanLines(read, if k <= |lines| then lines[..k] else lines);
    forall i | 0 <= i < |lines| ensures at(i + 1) == ScanLine(read, at(i), lines[i]) {
      ScanNext(read, lines, i);
    }
    ScanKnown(at, read, lines, us, rows);
    assert lines[..|lines|] == lines;
  }

  /** The lines of the nodes are read as their updates. */
  lemma ChangesClassified(us: seq<Update>, lines: seq<string>)
    requires forall i :: 0 <= i < |us| ==> Printable(us[i])
    requires lines == RenderUpdates(us)
    ensures forall i :: 0 <= i < |us| ==> Classify(lines[i], false) == Change(us[i])
    ensures GoStrings.Free(lines, '\n')
  {
    forall i | 0 <= i < |us|
      ensures Classify(lines[i], false) == Change(us[i]) && '\n' !in lines[i]
    {
      ClassifyRendered(us[i]);
    }
  }

  lemma RowsClassified(nodes: seq<Node>, rows: seq<seq<int>>, lines: seq<string>)
    requires |rows| == |nodes|
    requires forall i :: 0 <= i < |nodes| ==> 0 <= nodes[i].id <= MAX_INT && PrintableRow(rows[i])
    requires lines == RowLines(nodes, rows)
    ensures forall i :: 0 <= i < |rows| ==> Classify(lines[i], true) == Row(rows[i])
    ensures GoStrings.Free(lines, '\n')
  {
    forall i | 0 <= i < |rows| ensures Classify(lines[i], true) == Row(rows[i]) && '\n' !in lines[i] {
      ClassifyRow(nodes[i].id, rows[i]);
    }
  }

  /** No line holds a line break. */
  lemma OutputSplits(first: string, changes: seq<string>, marker: string, head: string, rows: seq<string>)
    requires '\n' !in first && GoStrings.Free(changes, '\n') && '\n' !in marker && '\n' !in head
    requires GoStrings.Free(rows, '\n')
    ensures var lines := [first] + changes + [marker, head] + rows + [""];
      Split(Join(lines, '\n'), '\n') == lines
  {
    FreeConcat([first], changes, '\n');
    FreeConcat([first] + changes, [marker, head], '\n');
    FreeConcat([first] + changes + [marker, head], rows, '\n');
    FreeConcat([first] + changes + [marker, head] + rows, [""], '\n');
    SplitJoin([first] + changes + [marker, head] + rows + [""], '\n');
  }

  /** What is printed for a topology is read back as that topology, its nodes and its
      matrix, whatever the growth of the slice. */
  lemma OutputParsed(info: string, t: Topology, grow: nat -> nat)
    requires t.Printable() && '\n' !in info
    ensures var scan := ScanLines(Classify, Split(Output(info, t), '\n'));
      Run(grow, scan.updates) == t.nodes && scan.rows == t.distances
  {
    var us := NodeUpdates(t.nodes);
    UpdatesPrintable(t.nodes);
    RunOfNodes(grow, t.nodes);
    OutputScanned(info, t, us, RenderUpdates(us), HeadLine(Map(ID, t.nodes)), RowLines(t.nodes, t.distances));
  }

  lemma OutputScanned(
      info: string, t: Topology, us: seq<Update>, changes: seq<string>, head: string, rows: seq<string>)
    requires t.Printable() && '\n' !in info && us == NodeUpdates(t.nodes)
    requires (forall i :: 0 <= i < |us| ==> Printable(us[i])) && changes == RenderUpdates(us)
    requires head == HeadLine(Map(ID, t.nodes)) && rows == RowLines(t.nodes, t.distances)
    ensures ScanLines(Classify, Split(Output(info, t), '\n')) == Scan(us, true, t.distances)
  {
    var first, marker := "available: " + info, "node distances:";
    ChangesClassified(us, changes);
    RowsClassified(t.nodes, t.distances, rows);
    FixedLines(info, Map(ID, t.nodes));
    OutputSplits(first, changes, marker, head, rows);
    PrintedIsKnown(Classify, first, changes, us, marker, head, rows, t.distances);
    ScanOutput(Classify, [first] + changes + [marker, head] + rows + [""], us, t.distances);
  }

  lemma PrintedIsKnown(
      read: Classifier, first: string, changes: seq<string>, us: seq<Update>, marker: string, head: string,
      lines: seq<string>, rows: seq<seq<int>>)
    requires read(first, false) == Nothing && |changes| == |us| && |lines| == |rows|
    requires forall i :: 0 <= i < |us| ==> read(changes[i], false) == Change(us[i])
    requires read(marker, false) == Distances && read(head, true) == Nothing && read("", true) == Nothing
    requires forall i :: 0 <= i < |rows| ==> read(lines[i], true) == Row(rows[i])
    ensures Known(read, [first] + changes + [marker, head] + lines + [""], us, rows)
  {
  }

  /** The lines that only mark the parts. */
  lemma FixedLines(info: string, ids: seq<int>)
    requires '\n' !in info && forall i :: 0 <= i < |ids| ==> 0 <= ids[i]
    ensures Classify("available: " + info, false) == Nothing && '\n' !in "available: " + info
    ensures Classify("node distances:", false) == Distances && '\n' !in "node distances:"
    ensures Classify(HeadLine(ids), true) == Nothing && '\n' !in HeadLine(ids)
    ensures Classify("", true) == Nothing
  {
    ClassifyAvailable(info);
    ClassifyMarker();
    ClassifyHead(ids);
    ClassifyBlank(true);
  }
}
