/** The parser of `numactl --hardware`, with Go's slice made explicit: a backing array
    with a length and a capacity, which append may relocate while pointers into the
    old one are still held. */
module Numa {
  import opened Prelude
  import opened GoInt
  import opened GoStrings
  import opened NumaRun
  import opened Decimal

  // ----- Lines

  /** The update one line before the distance matrix asks for. */
  function LineUpdate(line: string): Option<Update> {
    var fields := Fields(line);
    if !("node " <= line) || |fields| < 3 then None
    else match Atoi(fields[1])
      case None => None
      case Some(id) =>
        var key := TrimSuffix(fields[2], ":");
        if key == "cpus" then Some(Update(id, Cpus, |fields| - 3))
        else if key == "size" && |fields| >= 4 then Some(Update(id, Size, AtoiOrZero(fields[3])))
        else if key == "free" && |fields| >= 4 then Some(Update(id, Free, AtoiOrZero(fields[3])))
        else None
  }

  /** The numbers among the fields of a matrix row. */
  function Numbers(fields: seq<string>): seq<int> {
    if fields == [] then []
    else
      var front, last := Numbers(fields[..|fields| - 1]), Atoi(fields[|fields| - 1]);
      if last.Some? then front + [last.value] else front
  }

  /** The row one line of the distance matrix adds; none for the header or for noise. */
  function LineRow(line: string): seq<int> {
    var cut := Cut(line, ':');
    if !cut.found || Atoi(TrimSpace(cut.before)).None? then [] else Numbers(Fields(cut.after))
  }

  /** What a line asks for, given whether the matrix was reached. */
  datatype Line = Nothing | Distances | Row(row: seq<int>) | Change(update: Update)

  function Classify(raw: string, inDistances: bool): Line {
    var line := TrimSpace(raw);
    if line == "" then Nothing
    else if "node distances:" <= line then Distances
    else if inDistances then (if LineRow(line) == [] then Nothing else Row(LineRow(line)))
    else match LineUpdate(line)
      case None => Nothing
      case Some(u) => Change(u)
  }

  /** The parts of the output: the updates, whether the matrix was reached, its rows. */
  datatype Scan = Scan(updates: seq<Update>, inDistances: bool, rows: seq<seq<int>>)

  type Classifier = (string, bool) -> Line

  function ScanLine(read: Classifier, s: Scan, line: string): Scan {
    match read(line, s.inDistances)
    case Nothing => s
    case Distances => s.(inDistances := true)
    case Row(row) => s.(rows := s.rows + [row])
    case Change(u) => s.(updates := s.updates + [u])
  }

  function ScanLines(read: Classifier, lines: seq<string>): Scan {
    if lines == [] then Scan([], false, [])
    else ScanLine(read, ScanLines(read, lines[..|lines| - 1]), lines[|lines| - 1])
  }

  lemma ScanNext(read: Classifier, lines: seq<string>, i: nat)
    requires i < |lines|
    ensures ScanLines(read, lines[..i + 1]) == ScanLine(read, ScanLines(read, lines[..i]), lines[i])
  {
    assert lines[..i + 1][..i] == lines[..i];
  }

  lemma RunNext(grow: nat -> nat, us: seq<Update>, u: Update)
    ensures Run(grow, us + [u]) == Step(grow, Run(grow, us), u)
  {
    assert (us + [u])[..|us|] == us;
  }

  // ----- The slice and pointers into it

  const ZERO := Node(0, 0, 0, 0)

  /** A pointer to one element of a backing array. */
  datatype Ptr = Ptr(arr: array<Node>, index: nat)

  class NumaTopology {
    var nodes: array<Node>
    var count: nat
    var distances: seq<seq<int>>

    ghost predicate Valid()
      reads this`nodes, this`count
    {
      count <= nodes.Length
    }

    ghost function Nodes(): seq<Node>
      requires Valid()
      reads this`nodes, this`count, nodes
    {
      nodes[..count]
    }

    constructor ()
      ensures Valid() && Nodes() == [] && nodes.Length == 0 && distances == [] && fresh(nodes)
    {
      nodes := new Node[0];
      count, distances := 0, [];
    }

    /** append: in place while there is room, else into a new, larger array. */
    method Append(n: Node, grow: nat -> nat)
      requires Valid() && Growth(grow)
      modifies this`nodes, this`count, nodes
      ensures Valid() && Nodes() == old(Nodes()) + [n]
      ensures if old(count) < old(nodes.Length) then nodes == old(nodes)
        else fresh(nodes) && nodes.Length == grow(old(count))
    {
      if count == nodes.Length {
        var grown := new Node[grow(count)](_ => ZERO);
        for i := 0 to count
          modifies grown
          invariant grown[..i] == nodes[..i]
        {
          grown[i] := nodes[i];
        }
        nodes := grown;
      }
      nodes[count] := n;
      count := count + 1;
    }
  }

  /** The pointers held are those the run says: each to its node's element, in the
      live array or in one the slice has outgrown. */
  ghost predicate Consistent(
      topo: NumaTopology, byId: map<int, Ptr>, grow: nat -> nat, nodes: seq<Node>)
    reads topo`nodes, topo`count, topo.nodes
  {
    && topo.Valid() && topo.Nodes() == nodes
    && topo.nodes.Length == Cap(grow, |nodes|)
    && (forall id :: id in byId <==> IndexOfId(nodes, id) < |nodes|)
    && forall id :: id in byId ==> Held(topo.nodes, byId[id], grow, IndexOfId(nodes, id))
  }

  ghost predicate Held(live: array<Node>, p: Ptr, grow: nat -> nat, k: nat) {
    && p.index == k < p.arr.Length == Cap(grow, k + 1)
    && (p.arr == live || p.arr.Length < live.Length)
  }

  /** The arrays the pointers reach. */
  ghost function Arrays(byId: map<int, Ptr>): set<object> {
    set id | id in byId :: byId[id].arr as object
  }

  /** The nodes once a given id has its element. */
  ghost function WithNode(nodes: seq<Node>, id: int): seq<Node> {
    if IndexOfId(nodes, id) == |nodes| then nodes + [Node(id, 0, 0, 0)] else nodes
  }

  lemma IndexWithNode(nodes: seq<Node>, id: int)
    requires IndexOfId(nodes, id) == |nodes|
    ensures forall i :: (
      IndexOfId(WithNode(nodes, id), i) ==
        if IndexOfId(nodes, i) < |nodes| then IndexOfId(nodes, i)
        else if i == id then |nodes| else |nodes| + 1)
  {
    assert WithNode(nodes, id)[..|nodes|] == nodes;
  }

  /** The closure node(id): makes sure id has an element and a pointer to it. */
  method NodeFor(topo: NumaTopology, byId: map<int, Ptr>, id: int, grow: nat -> nat, ghost nodes: seq<Node>)
    returns (byId': map<int, Ptr>)
    requires Growth(grow) && Consistent(topo, byId, grow, nodes)
    modifies topo`nodes, topo`count, topo.nodes
    ensures Consistent(topo, byId', grow, WithNode(nodes, id)) && id in byId'
    ensures topo.nodes == old(topo.nodes) || fresh(topo.nodes)
    ensures forall o :: o in Arrays(byId') ==> o in Arrays(byId) || o == topo.nodes
  {
    if id in byId {
      return byId;
    }
    IndexWithNode(nodes, id);
    topo.Append(Node(id, 0, 0, 0), grow);
    byId' := byId[id := Ptr(topo.nodes, topo.count - 1)];
  }

  /** The assignment through the pointer node(id) returned. */
  method Store(topo: NumaTopology, byId: map<int, Ptr>, u: Update, grow: nat -> nat, ghost nodes: seq<Node>)
    requires Consistent(topo, byId, grow, nodes) && u.id in byId
    modifies byId[u.id].arr
    ensures var k := IndexOfId(nodes, u.id);
      Consistent(topo, byId, grow,
        if Live(grow, k, |nodes|) then nodes[k := Set(nodes[k], u.attr, u.value)] else nodes)
  {
    var p := byId[u.id];
    ghost var k := IndexOfId(nodes, u.id);
    assert Held(topo.nodes, p, grow, k);
    p.arr[p.index] := Set(p.arr[p.index], u.attr, u.value);
    ghost var after := nodes[k := Set(nodes[k], u.attr, u.value)];
    forall id ensures IndexOfId(after, id) == IndexOfId(nodes, id) {
      SameIndex(nodes, after, id);
    }
  }

  /** Looking a node up and assigning to it is one step of the run. */
  lemma StepIsStore(grow: nat -> nat, nodes: seq<Node>, u: Update)
    ensures var ns := WithNode(nodes, u.id);
      var k := IndexOfId(ns, u.id);
      && k < |ns|
      && Step(grow, nodes, u) ==
           if Live(grow, k, |ns|) then ns[k := Set(ns[k], u.attr, u.value)] else ns
  {
    if IndexOfId(nodes, u.id) == |nodes| {
      IndexWithNode(nodes, u.id);
    }
  }

  /** node(id).attr = value */
  method Assign(topo: NumaTopology, byId: map<int, Ptr>, u: Update, grow: nat -> nat, ghost nodes: seq<Node>)
    returns (byId': map<int, Ptr>)
    requires Growth(grow) && Consistent(topo, byId, grow, nodes)
    modifies topo`nodes, topo`count, topo.nodes, Arrays(byId)
    ensures Consistent(topo, byId', grow, Step(grow, nodes, u))
    ensures topo.nodes == old(topo.nodes) || fresh(topo.nodes)
    ensures forall o :: o in Arrays(byId') ==> o in Arrays(byId) || o == topo.nodes
  {
    StepIsStore(grow, nodes, u);
    byId' := NodeFor(topo, byId, u.id, grow, nodes);
    assert byId'[u.id].arr as object in Arrays(byId');
    Store(topo, byId', u, grow, WithNode(nodes, u.id));
  }

  /** Whatever the lines, the nodes are exactly the run's: an update through a pointer
      that append left behind writes to an array nobody reads. */
  method ParseNumactlHardware(out: string, grow: nat -> nat) returns (topo: NumaTopology)
    requires Growth(grow)
    ensures fresh(topo) && topo.Valid()
    ensures var scan := ScanLines(Classify, Split(out, '\n'));
      topo.Nodes() == Run(grow, scan.updates) && topo.distances == scan.rows
  {
    topo := ParseLines(Classify, Split(out, '\n'), grow);
  }

  /** The loop body, once the line is classified. */
  method Handle(line: Line, topo: NumaTopology, byId: map<int, Ptr>, grow: nat -> nat, ghost nodes: seq<Node>)
    returns (byId': map<int, Ptr>, ghost nodes': seq<Node>)
    requires Growth(grow) && Consistent(topo, byId, grow, nodes)
    modifies topo, topo.nodes, Arrays(byId)
    ensures nodes' == if line.Change? then Step(grow, nodes, line.update) else nodes
    ensures Consistent(topo, byId', grow, nodes')
    ensures topo.distances == old(topo.distances) + if line.Row? then [line.row] else []
    ensures topo.nodes == old(topo.nodes) || fresh(topo.nodes)
    ensures forall o :: o in Arrays(byId') ==> o in Arrays(byId) || o == topo.nodes
  {
    byId', nodes' := byId, nodes;
    match line {
      case Nothing =>
      case Distances =>
      case Row(row) =>
        topo.distances := topo.distances + [row];
      case Change(u) =>
        nodes' := Step(grow, nodes, u);
        byId' := Assign(topo, byId, u, grow, nodes);
    }
  }

  lemma ScannedRun(grow: nat -> nat, read: Classifier, s: Scan, line: string)
    ensures var kind, next := read(line, s.inDistances), ScanLine(read, s, line);
      && Run(grow, next.updates) ==
           (if kind.Change? then Step(grow, Run(grow, s.updates), kind.update) else Run(grow, s.updates))
      && next.rows == s.rows + (if kind.Row? then [kind.row] else [])
      && next.inDistances == (s.inDistances || kind.Distances?)
  {
    var kind := read(line, s.inDistances);
    if kind.Change? {
      RunNext(grow, s.updates, kind.update);
    }
    assert s.rows + [] == s.rows;
  }

  /** The line loop. */
  method ParseLines(read: Classifier, lines: seq<string>, grow: nat -> nat) returns (topo: NumaTopology)
    requires Growth(grow)
    ensures fresh(topo) && topo.Valid()
    ensures var scan := ScanLines(read, lines);
      topo.Nodes() == Run(grow, scan.updates) && topo.distances == scan.rows
  {
    topo := new NumaTopology();
    var byId: map<int, Ptr> := map[];
    var inDistances := false;
    ghost var scan, nodes := Scan([], false, []), [];
    var i := 0;
    while i < |lines|
      invariant 0 <= i <= |lines|
      invariant fresh(topo) && fresh(topo.nodes)
      invariant forall o :: o in Arrays(byId) ==> fresh(o)
      invariant Consistent(topo, byId, grow, nodes)
      invariant nodes == Run(grow, scan.updates)
      invariant scan == ScanLines(read, lines[..i])
      invariant scan.inDistances == inDistances && scan.rows == topo.distances
    {
      ScanNext(read, lines, i);
      ScannedRun(grow, read, scan, lines[i]);
      var kind := read(lines[i], inDistances);
      byId, nodes := Handle(kind, topo, byId, grow, nodes);
      inDistances := inDistances || kind.Distances?;
      scan := ScanLine(read, scan, lines[i]);
      i := i + 1;
    }
    assert lines[..i] == lines;
  }

  // ----- Rendered output

  /** The words of the line numactl prints for an update. */
  ghost function LineWords(u: Update): seq<string>
    requires 0 <= u.id && 0 <= u.value
  {
    match u.attr
    case Cpus => ["node", Render(u.id), "cpus:"] + seq(u.value, i requires 0 <= i => Render(i))
    case Size => ["node", Render(u.id), "size:", Render(u.value), "MB"]
    case Free => ["node", Render(u.id), "free:", Render(u.value), "MB"]
  }

  ghost predicate Printable(u: Update) {
    0 <= u.id <= MAX_INT && 0 <= u.value <= MAX_INT
  }

  ghost function RenderUpdate(u: Update): string
    requires Printable(u)
  {
    Join(LineWords(u), ' ')
  }

  lemma LineWordsAreWords(u: Update)
    requires Printable(u)
    ensures Words(LineWords(u))
  {
    RenderedNumeral(u.id);
    RenderedNumeral(u.value);
    Keywords();
    if u.attr == Cpus {
      var ws := LineWords(u);
      forall i | 3 <= i < |ws| ensures Word(ws[i]) {
        RenderedNumeral(i - 3);
      }
    }
  }

  lemma Keywords()
    ensures Word("node") && Word("cpus:") && Word("size:") && Word("free:") && Word("MB")
  {
  }

  /** The line printed for an update is read back as that update. */
  lemma LineUpdateRendered(u: Update)
    requires Printable(u)
    ensures LineUpdate(RenderUpdate(u)) == Some(u)
  {
    var ws, line := LineWords(u), RenderUpdate(u);
    LineWordsAreWords(u);
    FieldsJoin(ws);
    RenderedNumeral(u.id);
    RenderedNumeral(u.value);
    NodeFirst(ws, line);
    ColonsTrimmed();
  }

  lemma NodeFirst(ws: seq<string>, line: string)
    requires |ws| >= 2 && ws[0] == "node" && line == Join(ws, ' ')
    ensures "node " <= line
  {
    assert line == "node" + " " + Join(ws[1..], ' ');
  }

  lemma ColonsTrimmed()
    ensures TrimSuffix("cpus:", ":") == "cpus" && TrimSuffix("size:", ":") == "size"
    ensures TrimSuffix("free:", ":") == "free"
  {
  }

  lemma ClassifyRendered(u: Update)
    requires Printable(u)
    ensures Classify(RenderUpdate(u), false) == Change(u)
    ensures '\n' !in RenderUpdate(u)
  {
    var ws, line := LineWords(u), RenderUpdate(u);
    LineWordsAreWords(u);
    JoinedWords(ws);
    TrimSpaceIdle(line);
    LineUpdateRendered(u);
    NotDistances(u.id, ws, line);
    ClassifyChange(line, u);
  }

  lemma NotDistances(id: nat, ws: seq<string>, line: string)
    requires |ws| >= 3 && ws[0] == "node" && ws[1] == Render(id) && line == Join(ws, ' ')
    ensures !("node distances:" <= line)
  {
    var d := Render(id);
    RenderValue(id);
    assert line == "node" + " " + (d + " " + Join(ws[2..], ' ')) by {
      assert ws[1..][1..] == ws[2..];
    }
    assert line[5] == d[0] && IsDigit(d[0]);
    assert "node distances:"[5] == 'd';
  }

  lemma ClassifyChange(line: string, u: Update)
    requires line != "" && TrimSpace(line) == line && !("node distances:" <= line)
    requires LineUpdate(line) == Some(u)
    ensures Classify(line, false) == Change(u)
  {
  }

  ghost function RenderUpdates(us: seq<Update>): (lines: seq<string>)
    requires forall i :: 0 <= i < |us| ==> Printable(us[i])
    ensures |lines| == |us|
    ensures forall i :: 0 <= i < |us| ==> lines[i] == RenderUpdate(us[i])
  {
    seq(|us|, i requires 0 <= i < |us| => RenderUpdate(us[i]))
  }

  lemma {:induction false} ScanChanges(read: Classifier, lines: seq<string>, us: seq<Update>)
    requires |lines| == |us|
    requires forall i :: 0 <= i < |us| ==> read(lines[i], false) == Change(us[i])
    ensures ScanLines(read, lines) == Scan(us, false, [])
  {
    if us != [] {
      var n := |us| - 1;
      ScanChanges(read, lines[..n], us[..n]);
      assert us[..n] + [us[n]] == us;
    }
  }

  /** The output numactl prints for nodes one after another is parsed back: the run is
      that of the updates printed, and every attribute is the last value printed. */
  lemma ParseRendered(us: seq<Update>, grow: nat -> nat)
    requires us != [] && Contiguous(us)
    requires forall i :: 0 <= i < |us| ==> Printable(us[i])
    ensures ScanLines(Classify, Split(Join(RenderUpdates(us), '\n'), '\n')) == Scan(us, false, [])
    ensures Faithful(grow, us)
  {
    var lines := RenderUpdates(us);
    forall i | 0 <= i < |lines|
      ensures '\n' !in lines[i] && Classify(lines[i], false) == Change(us[i])
    {
      ClassifyRendered(us[i]);
    }
    SplitJoin(lines, '\n');
    ScanChanges(Classify, lines, us);
    ContiguousIsFaithful(grow, us);
  }

  // ----- The sysfs fallback

  ghost predicate SortedIds(ids: seq<int>) {
    forall i, j :: 0 <= i < j < |ids| ==> ids[i] <= ids[j]
  }

  /** The first i ids are sorted, and none after them is smaller. */
  ghost predicate Settled(ids: seq<int>, i: nat) {
    forall k, m :: 0 <= k < i && k < m < |ids| ==> ids[k] <= ids[m]
  }

  /** One turn of the outer loop: the smallest of the rest is exchanged into place i. */
  method SettleOne(ids: array<int>, i: nat)
    requires i < ids.Length && Settled(ids[..], i)
    modifies ids
    ensures Settled(ids[..], i + 1) && multiset(ids[..]) == multiset(old(ids[..]))
  {
    var j := i + 1;
    while j < ids.Length
      invariant i < j <= ids.Length && Settled(ids[..], i)
      invariant forall m :: i <= m < j ==> ids[i] <= ids[m]
      invariant multiset(ids[..]) == multiset(old(ids[..]))
    {
      if ids[j] < ids[i] {
        ids[i], ids[j] := ids[j], ids[i];
      }
      j := j + 1;
    }
  }

  /** The exchange sort that puts node ids in numeric order. */
  method SortIds(ids: array<int>)
    modifies ids
    ensures SortedIds(ids[..])
    ensures multiset(ids[..]) == multiset(old(ids[..]))
  {
    var i := 0;
    while i < ids.Length
      invariant 0 <= i <= ids.Length && Settled(ids[..], i)
      invariant multiset(ids[..]) == multiset(old(ids[..]))
    {
      SettleOne(ids, i);
      i := i + 1;
    }
  }
}
