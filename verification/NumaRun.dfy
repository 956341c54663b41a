/** What writing through pointers into a growing slice does to the numactl parser:
    the run of updates as the code performs it, the run as it was meant, and exactly
    when the two agree. */
module NumaRun {
  datatype Node = Node(id: int, cpus: int, sizeMb: int, freeMb: int)

  datatype Attr = Cpus | Size | Free

  /** One "node <id> <attr>: ..." line. */
  datatype Update = Update(id: int, attr: Attr, value: int)

  function Get(n: Node, a: Attr): int {
    match a
    case Cpus => n.cpus
    case Size => n.sizeMb
    case Free => n.freeMb
  }

  function Set(n: Node, a: Attr, v: int): Node {
    match a
    case Cpus => n.(cpus := v)
    case Size => n.(sizeMb := v)
    case Free => n.(freeMb := v)
  }

  /** Position of a node id, or the length when it is new. */
  function IndexOfId(nodes: seq<Node>, id: int): (k: nat)
    ensures k <= |nodes|
    ensures k < |nodes| ==> nodes[k].id == id
  {
    if nodes == [] then 0
    else
      var n := |nodes| - 1;
      var k := IndexOfId(nodes[..n], id);
      if k < n || nodes[n].id == id then k else n + 1
  }

  /** Two lists of nodes with the same ids have each id at the same place. */
  lemma {:induction false} SameIndex(xs: seq<Node>, ys: seq<Node>, id: int)
    requires |xs| == |ys| && forall i :: 0 <= i < |xs| ==> xs[i].id == ys[i].id
    ensures IndexOfId(xs, id) == IndexOfId(ys, id)
  {
    if xs != [] {
      SameIndex(xs[..|xs| - 1], ys[..|ys| - 1], id);
    }
  }

  // ----- Slice growth

  /** A growth policy: the capacity append gives a full slice of n elements. */
  ghost predicate Growth(grow: nat -> nat) {
    forall n: nat :: grow(n) > n
  }

  /** The capacity of the slice after n appends. */
  function Cap(grow: nat -> nat, n: nat): nat {
    if n == 0 then 0
    else
      var c := Cap(grow, n - 1);
      if n - 1 < c then c else grow(n - 1)
  }

  /** The pointer to element k, taken when it was appended, still points into the
      slice's array now that it has n elements. */
  predicate Live(grow: nat -> nat, k: nat, n: nat) {
    Cap(grow, k + 1) == Cap(grow, n)
  }

  lemma {:induction false} CapHolds(grow: nat -> nat, n: nat)
    requires Growth(grow)
    ensures Cap(grow, n) >= n
  {
    if n > 0 {
      CapHolds(grow, n - 1);
    }
  }

  lemma {:induction false} CapGrows(grow: nat -> nat, m: nat, n: nat)
    requires Growth(grow) && m <= n
    ensures Cap(grow, m) <= Cap(grow, n)
    ensures Cap(grow, m) == Cap(grow, n) <==> m == n || n <= Cap(grow, m)
    decreases n - m
  {
    if m < n {
      CapGrows(grow, m, n - 1);
      CapHolds(grow, n - 1);
    }
  }

  /** A pointer goes stale exactly when the slice has outgrown the capacity it had
      when the pointer was taken. */
  lemma LiveExactly(grow: nat -> nat, k: nat, n: nat)
    requires Growth(grow) && k < n
    ensures Live(grow, k, n) <==> n <= Cap(grow, k + 1)
  {
    CapGrows(grow, k + 1, n);
    CapHolds(grow, k + 1);
  }

  // ----- Runs

  /** One update as the code performs it: a write through a stale pointer is lost. */
  function Step(grow: nat -> nat, nodes: seq<Node>, u: Update): seq<Node> {
    var k := IndexOfId(nodes, u.id);
    if k == |nodes| then nodes + [Set(Node(u.id, 0, 0, 0), u.attr, u.value)]
    else if Live(grow, k, |nodes|) then nodes[k := Set(nodes[k], u.attr, u.value)]
    else nodes
  }

  /** The nodes the parser ends up with. */
  function Run(grow: nat -> nat, us: seq<Update>): seq<Node> {
    if us == [] then [] else Step(grow, Run(grow, us[..|us| - 1]), us[|us| - 1])
  }

  /** The ids given, in order of first appearance. */
  function Ids(us: seq<Update>): seq<int> {
    if us == [] then []
    else
      var ids, id := Ids(us[..|us| - 1]), us[|us| - 1].id;
      if id in ids then ids else ids + [id]
  }

  lemma {:induction false} IdsDistinct(us: seq<Update>)
    ensures forall i, j :: 0 <= i < j < |Ids(us)| ==> Ids(us)[i] != Ids(us)[j]
  {
    if us != [] {
      IdsDistinct(us[..|us| - 1]);
    }
  }

  lemma {:induction false} IndexOfIdAbsent(nodes: seq<Node>, id: int)
    ensures IndexOfId(nodes, id) == |nodes| <==> forall i :: 0 <= i < |nodes| ==> nodes[i].id != id
  {
    if nodes != [] {
      var n := |nodes| - 1;
      IndexOfIdAbsent(nodes[..n], id);
      assert forall i :: 0 <= i < n ==> nodes[..n][i] == nodes[i];
    }
  }

  /** Whatever the order of the lines, the nodes are the distinct ids in order of
      first appearance. */
  lemma {:induction false} RunIds(grow: nat -> nat, us: seq<Update>)
    ensures |Run(grow, us)| == |Ids(us)|
    ensures forall i :: 0 <= i < |Ids(us)| ==> Run(grow, us)[i].id == Ids(us)[i]
  {
    if us != [] {
      var front, u := us[..|us| - 1], us[|us| - 1];
      RunIds(grow, front);
      var nodes := Run(grow, front);
      IndexOfIdAbsent(nodes, u.id);
      if u.id in Ids(front) {
        var i :| 0 <= i < |Ids(front)| && Ids(front)[i] == u.id;
        assert nodes[i].id == u.id;
      }
    }
  }

  lemma KnownId(grow: nat -> nat, us: seq<Update>, id: int)
    ensures id in Ids(us) <==> IndexOfId(Run(grow, us), id) < |Run(grow, us)|
  {
    RunIds(grow, us);
    IndexOfIdAbsent(Run(grow, us), id);
    if id in Ids(us) {
      var i :| 0 <= i < |Ids(us)| && Ids(us)[i] == id;
      assert Run(grow, us)[i].id == id;
    }
  }

  /** Position of an id, or the length when it is new. */
  function IndexIn(ids: seq<int>, id: int): (k: nat)
    ensures k <= |ids|
    ensures k < |ids| ==> ids[k] == id
  {
    if ids == [] then 0
    else
      var n := |ids| - 1;
      var k := IndexIn(ids[..n], id);
      if k < n || ids[n] == id then k else n + 1
  }

  lemma {:induction false} IdIndex(nodes: seq<Node>, ids: seq<int>, id: int)
    requires |nodes| == |ids| && forall i :: 0 <= i < |ids| ==> nodes[i].id == ids[i]
    ensures IndexOfId(nodes, id) == IndexIn(ids, id)
  {
    if ids != [] {
      IdIndex(nodes[..|ids| - 1], ids[..|ids| - 1], id);
    }
  }

  /** Update i of us reaches the slice's own array: its id is new, or the slice has the
      capacity it had when that id first came. Only the ids before it decide. */
  predicate Lands(grow: nat -> nat, us: seq<Update>, i: nat)
    requires i < |us|
  {
    var ids := Ids(us[..i]);
    var k := IndexIn(ids, us[i].id);
    k == |ids| || Live(grow, k, |ids|)
  }

  /** Where an id stands among the ids, its node stands among the nodes. */
  lemma IndexInRun(grow: nat -> nat, us: seq<Update>, id: int)
    ensures |Run(grow, us)| == |Ids(us)| && IndexOfId(Run(grow, us), id) == IndexIn(Ids(us), id)
  {
    RunIds(grow, us);
    IdIndex(Run(grow, us), Ids(us), id);
  }

  predicate Matches(u: Update, id: int, a: Attr) {
    u.id == id && u.attr == a
  }

  /** The value last given for an attribute of a node; 0 when none was. */
  function LastGiven(us: seq<Update>, id: int, a: Attr): int {
    if us == [] then 0
    else if Matches(us[|us| - 1], id, a) then us[|us| - 1].value
    else LastGiven(us[..|us| - 1], id, a)
  }

  /** The value last given by an update that landed. */
  function LastLanded(grow: nat -> nat, us: seq<Update>, id: int, a: Attr): int {
    if us == [] then 0
    else if Matches(us[|us| - 1], id, a) && Lands(grow, us, |us| - 1) then us[|us| - 1].value
    else LastLanded(grow, us[..|us| - 1], id, a)
  }

  lemma {:induction false} NothingGiven(grow: nat -> nat, us: seq<Update>, id: int, a: Attr)
    requires id !in Ids(us)
    ensures LastLanded(grow, us, id, a) == 0
  {
    if us != [] {
      NothingGiven(grow, us[..|us| - 1], id, a);
    }
  }

  /** For every run, every attribute holds exactly the value of the last update that
      landed. */
  lemma {:induction false} RunHoldsLastLanded(grow: nat -> nat, us: seq<Update>, k: nat, a: Attr)
    requires k < |Run(grow, us)|
    ensures Get(Run(grow, us)[k], a) == LastLanded(grow, us, Run(grow, us)[k].id, a)
  {
    var front, u := us[..|us| - 1], us[|us| - 1];
    var before := Run(grow, front);
    IndexInRun(grow, front, u.id);
    if k < |before| {
      RunHoldsLastLanded(grow, front, k, a);
      OwnIndex(grow, front, k);
      IndexOfIdAbsent(before, u.id);
    } else {
      KnownId(grow, front, u.id);
      NothingGiven(grow, front, u.id, a);
    }
  }

  /** No two nodes share an id: a node is found under its own. */
  lemma OwnIndex(grow: nat -> nat, us: seq<Update>, k: nat)
    requires k < |Run(grow, us)|
    ensures IndexOfId(Run(grow, us), Run(grow, us)[k].id) == k
  {
    var nodes := Run(grow, us);
    var j := IndexOfId(nodes, nodes[k].id);
    RunIds(grow, us);
    IdsDistinct(us);
    IndexOfIdAbsent(nodes, nodes[k].id);
    assert j < |nodes| && Ids(us)[j] == Ids(us)[k];
  }

  // ----- When every value given is the value held

  /** The last update for this attribute, if there is one, landed. */
  predicate LastLands(grow: nat -> nat, us: seq<Update>, id: int, a: Attr) {
    if us == [] then true
    else if Matches(us[|us| - 1], id, a) then Lands(grow, us, |us| - 1)
    else LastLands(grow, us[..|us| - 1], id, a)
  }

  /** The parse is right on us: nodes in order of first appearance, each attribute the
      value last given for it. */
  ghost predicate Faithful(grow: nat -> nat, us: seq<Update>) {
    forall k, a :: 0 <= k < |Run(grow, us)| ==>
      Get(Run(grow, us)[k], a) == LastGiven(us, Run(grow, us)[k].id, a)
  }

  /** The same lines with other values. */
  ghost predicate SameShape(us: seq<Update>, vs: seq<Update>) {
    && |us| == |vs|
    && forall i :: 0 <= i < |us| ==> us[i].id == vs[i].id && us[i].attr == vs[i].attr
  }

  lemma {:induction false} LastLandedIsLastGiven(grow: nat -> nat, us: seq<Update>, id: int, a: Attr)
    requires LastLands(grow, us, id, a)
    ensures LastLanded(grow, us, id, a) == LastGiven(us, id, a)
  {
    if us != [] && !Matches(us[|us| - 1], id, a) {
      LastLandedIsLastGiven(grow, us[..|us| - 1], id, a);
    }
  }

  lemma {:induction false} SameIds(us: seq<Update>, vs: seq<Update>)
    requires SameShape(us, vs)
    ensures Ids(us) == Ids(vs)
  {
    if us != [] {
      SameIds(us[..|us| - 1], vs[..|vs| - 1]);
    }
  }

  /** Which updates land depends on the ids alone. */
  lemma SameLanding(grow: nat -> nat, us: seq<Update>, vs: seq<Update>, i: nat)
    requires SameShape(us, vs) && i < |us|
    ensures Lands(grow, us, i) == Lands(grow, vs, i)
  {
    SameIds(us[..i], vs[..i]);
  }

  lemma {:induction false} SameLastLands(
      grow: nat -> nat, us: seq<Update>, vs: seq<Update>, id: int, a: Attr)
    requires SameShape(us, vs)
    ensures LastLands(grow, us, id, a) == LastLands(grow, vs, id, a)
  {
    if us != [] {
      SameLanding(grow, us, vs, |us| - 1);
      SameLastLands(grow, us[..|us| - 1], vs[..|vs| - 1], id, a);
    }
  }

  /** us with the last value given for one attribute replaced. */
  ghost function Revalue(us: seq<Update>, id: int, a: Attr, v: int): (vs: seq<Update>)
    ensures SameShape(us, vs)
  {
    if us == [] then []
    else if Matches(us[|us| - 1], id, a) then us[..|us| - 1] + [Update(id, a, v)]
    else Revalue(us[..|us| - 1], id, a, v) + [us[|us| - 1]]
  }

  /** When the last update was lost, its value makes no difference to what is held. */
  lemma {:induction false} LostValue(grow: nat -> nat, us: seq<Update>, id: int, a: Attr, v: int)
    requires !LastLands(grow, us, id, a)
    ensures var vs := Revalue(us, id, a, v);
      && LastGiven(vs, id, a) == v
      && LastLanded(grow, vs, id, a) == LastLanded(grow, us, id, a)
  {
    var n := |us| - 1;
    var vs := Revalue(us, id, a, v);
    SameLanding(grow, us, vs, n);
    if Matches(us[n], id, a) {
      assert vs[..n] == us[..n];
    } else {
      LostValue(grow, us[..n], id, a, v);
      assert vs[..n] == Revalue(us[..n], id, a, v);
    }
  }

  lemma {:induction false} LastLandsOrGiven(grow: nat -> nat, us: seq<Update>, id: int, a: Attr)
    requires !LastLands(grow, us, id, a)
    ensures id in Ids(us)
  {
    var n := |us| - 1;
    if !Matches(us[n], id, a) {
      LastLandsOrGiven(grow, us[..n], id, a);
    }
  }

  /** For lines of a given shape the parser is right whatever values they carry if and
      only if, for every attribute of every node, the last line for it lands: by
      LiveExactly, comes before the slice outgrows the capacity it had when that
      node was appended. */
  lemma FaithfulExactly(grow: nat -> nat, us: seq<Update>)
    ensures (forall vs :: SameShape(us, vs) ==> Faithful(grow, vs)) <==>
      forall id, a :: LastLands(grow, us, id, a)
  {
    if forall id, a :: LastLands(grow, us, id, a) {
      forall vs | SameShape(us, vs) ensures Faithful(grow, vs) {
        AllLandIsFaithful(grow, us, vs);
      }
    } else {
      var id, a :| !LastLands(grow, us, id, a);
      LosesAValue(grow, us, id, a);
    }
  }

  lemma AllLandIsFaithful(grow: nat -> nat, us: seq<Update>, vs: seq<Update>)
    requires SameShape(us, vs)
    requires forall id, a :: LastLands(grow, us, id, a)
    ensures Faithful(grow, vs)
  {
    forall k, a | 0 <= k < |Run(grow, vs)|
      ensures Get(Run(grow, vs)[k], a) == LastGiven(vs, Run(grow, vs)[k].id, a)
    {
      var id := Run(grow, vs)[k].id;
      SameLastLands(grow, us, vs, id, a);
      RunHoldsLastLanded(grow, vs, k, a);
      LastLandedIsLastGiven(grow, vs, id, a);
    }
  }

  lemma LosesAValue(grow: nat -> nat, us: seq<Update>, id: int, a: Attr)
    requires !LastLands(grow, us, id, a)
    ensures exists vs :: SameShape(us, vs) && !Faithful(grow, vs)
  {
    var v := LastLanded(grow, us, id, a) + 1;
    var vs := Revalue(us, id, a, v);
    LostValue(grow, us, id, a, v);
    LastLandsOrGiven(grow, us, id, a);
    SameIds(us, vs);
    KnownId(grow, vs, id);
    var k := IndexOfId(Run(grow, vs), id);
    RunHoldsLastLanded(grow, vs, k, a);
    assert Get(Run(grow, vs)[k], a) != LastGiven(vs, Run(grow, vs)[k].id, a);
    assert !Faithful(grow, vs);
  }

  // ----- Contiguous lines

  /** All the lines of an id stand together. */
  ghost predicate Contiguous(us: seq<Update>) {
    forall i, j, k :: 0 <= i < j < k < |us| && us[i].id == us[k].id ==> us[j].id == us[i].id
  }

  lemma {:induction false} IdsContain(us: seq<Update>, id: int)
    ensures id in Ids(us) <==> exists i :: 0 <= i < |us| && us[i].id == id
  {
    if us != [] {
      var n := |us| - 1;
      IdsContain(us[..n], id);
      if id in Ids(us[..n]) {
        var i :| 0 <= i < n && us[..n][i].id == id;
        assert us[i].id == id;
      }
      if i :| 0 <= i < |us| && us[i].id == id {
        assert i < n ==> us[..n][i].id == id;
      }
    }
  }

  lemma {:induction false} LastIdIsLast(us: seq<Update>)
    requires us != [] && Contiguous(us)
    ensures Ids(us) != [] && Ids(us)[|Ids(us)| - 1] == us[|us| - 1].id
  {
    var n := |us| - 1;
    var id := us[n].id;
    IdsContain(us[..n], id);
    if id in Ids(us[..n]) {
      var i :| 0 <= i < n && us[..n][i].id == id;
      assert us[i].id == us[n].id;
      assert us[n - 1].id == id;
      assert forall j :: 0 <= j < n ==> us[..n][j] == us[j];
      LastIdIsLast(us[..n]);
    }
  }

  /** With contiguous lines every update lands, under any growth policy. */
  lemma ContiguousLands(grow: nat -> nat, us: seq<Update>, i: nat)
    requires Contiguous(us) && i < |us|
    ensures Lands(grow, us, i)
  {
    var front := us[..i];
    var ids := Ids(front);
    var k := IndexIn(ids, us[i].id);
    if k < |ids| {
      var now := us[..i + 1];
      assert now[..i] == front;
      assert forall j :: 0 <= j < |now| ==> now[j] == us[j];
      LastIdIsLast(now);
      IdsDistinct(front);
      assert Ids(now) == ids;
      assert ids[k] == ids[|ids| - 1];
    }
  }

  lemma {:induction false} ContiguousLastLands(
      grow: nat -> nat, us: seq<Update>, n: nat, id: int, a: Attr)
    requires Contiguous(us) && n <= |us|
    ensures LastLands(grow, us[..n], id, a)
  {
    if n > 0 {
      assert us[..n][..n - 1] == us[..n - 1];
      ContiguousLastLands(grow, us, n - 1, id, a);
      assert forall j :: 0 <= j < n ==> us[..n][j] == us[j];
      ContiguousLands(grow, us[..n], n - 1);
    }
  }

  /** Contiguous lines are parsed right: every attribute is the last value given. */
  lemma ContiguousIsFaithful(grow: nat -> nat, us: seq<Update>)
    requires Contiguous(us)
    ensures Faithful(grow, us)
  {
    forall id, a ensures LastLands(grow, us, id, a) {
      ContiguousLastLands(grow, us, |us|, id, a);
      assert us[..|us|] == us;
    }
    AllLandIsFaithful(grow, us, us);
  }

  /** Interleaved lines can lose a value: with a slice that starts at capacity one,
      node 0's size comes after node 1 was appended and is dropped. */
  lemma InterleavedLosesAWrite(grow: nat -> nat)
    requires Growth(grow) && grow(0) == 1
    ensures var us := [Update(0, Cpus, 4), Update(1, Cpus, 4), Update(0, Size, 1024)];
      && Run(grow, us) == [Node(0, 4, 0, 0), Node(1, 4, 0, 0)]
      && !Faithful(grow, us)
  {
    var us := [Update(0, Cpus, 4), Update(1, Cpus, 4), Update(0, Size, 1024)];
    assert us[..2] == [us[0], us[1]] && us[..2][..1] == [us[0]] && [us[0]][..0] == [];
    var nodes := [Node(0, 4, 0, 0), Node(1, 4, 0, 0)];
    assert Run(grow, [us[0]]) == [nodes[0]];
    assert nodes[..1] == [nodes[0]] && [nodes[0]][..0] == [];
    assert Run(grow, us[..2]) == nodes;
    assert IndexOfId(nodes, 0) == 0;
    assert Cap(grow, 1) == 1 && Cap(grow, 2) == grow(1);
    assert Get(Run(grow, us)[0], Size) == 0 != LastGiven(us, 0, Size);
  }
}
