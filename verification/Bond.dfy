/** The parser of /proc/net/bonding files: a pointer into a growing slice that is
    retaken after every append, so that it never goes stale. */
module Bond {
  import opened Prelude
  import opened GoStrings

  /** The keys the parser knows. */
  datatype Key =
    | SlaveInterface | BondingMode | HashPolicy | MiiStatus | LacpActive | LacpRate | Speed
    | Other(text: string)

  function KeyOf(text: string): Key {
    if text == "Slave Interface" then SlaveInterface
    else if text == "Bonding Mode" then BondingMode
    else if text == "Transmit Hash Policy" then HashPolicy
    else if text == "MII Status" then MiiStatus
    else if text == "LACP active" then LacpActive
    else if text == "LACP rate" then LacpRate
    else if text == "Speed" then Speed
    else Other(text)
  }

  /** One "Key: value" line, both sides trimmed. */
  datatype Entry = Entry(key: Key, value: string)

  function LineEntry(line: string): Option<Entry> {
    var cut := Cut(line, ':');
    if cut.found then Some(Entry(KeyOf(TrimSpace(cut.before)), TrimSpace(cut.after))) else None
  }

  // ----- The file split at its "Slave Interface" lines

  /** One slave's part of the file: its name and the entries after it. */
  datatype Block = Block(name: string, entries: seq<Entry>) {
    function Flat(): seq<Entry> {
      [Entry(SlaveInterface, name)] + entries
    }
  }

  datatype File = File(head: seq<Entry>, blocks: seq<Block>)

  /** A block with one more entry. */
  function Longer(b: Block, e: Entry): Block {
    b.(entries := b.entries + [e])
  }

  function AddEntry(f: File, e: Entry): File {
    if e.key == SlaveInterface then f.(blocks := f.blocks + [Block(e.value, [])])
    else if f.blocks == [] then f.(head := f.head + [e])
    else
      var n := |f.blocks| - 1;
      f.(blocks := f.blocks[n := Longer(f.blocks[n], e)])
  }

  function SplitFile(es: seq<Entry>): File {
    if es == [] then File([], []) else AddEntry(SplitFile(es[..|es| - 1]), es[|es| - 1])
  }

  function Flatten(bs: seq<Block>): seq<Entry> {
    if bs == [] then [] else Flatten(bs[..|bs| - 1]) + bs[|bs| - 1].Flat()
  }

  ghost predicate NoSlaveLine(es: seq<Entry>) {
    forall i :: 0 <= i < |es| ==> es[i].key != SlaveInterface
  }

  ghost function Whole(f: File): seq<Entry> {
    f.head + Flatten(f.blocks)
  }

  ghost predicate WellSplit(f: File) {
    && NoSlaveLine(f.head)
    && forall i :: 0 <= i < |f.blocks| ==> NoSlaveLine(f.blocks[i].entries)
  }

  lemma AddEntryAppends(f: File, e: Entry)
    requires WellSplit(f)
    ensures Whole(AddEntry(f, e)) == Whole(f) + [e] && WellSplit(AddEntry(f, e))
  {
    if e.key == SlaveInterface {
      assert Block(e.value, []).Flat() == [e];
    } else if f.blocks != [] {
      var n := |f.blocks| - 1;
      var last := f.blocks[n];
      var longer := Longer(last, e);
      assert f.blocks[..n] + [last] == f.blocks;
      assert f.blocks[..n] + [longer] == AddEntry(f, e).blocks;
      assert longer.Flat() == last.Flat() + [e];
    }
  }

  /** The split loses and invents nothing: head and blocks, in order, make up the file,
      and "Slave Interface" lines stand only where blocks start. */
  lemma {:induction false} SplitIsFile(es: seq<Entry>)
    ensures Whole(SplitFile(es)) == es && WellSplit(SplitFile(es))
  {
    if es != [] {
      var n := |es| - 1;
      SplitIsFile(es[..n]);
      AddEntryAppends(SplitFile(es[..n]), es[n]);
      assert es == es[..n] + [es[n]];
    }
  }

  /** The last value given for a key, "" when there is none. */
  function Last(es: seq<Entry>, key: Key): string {
    if es == [] then ""
    else if es[|es| - 1].key == key then es[|es| - 1].value
    else Last(es[..|es| - 1], key)
  }

  datatype Slave = Slave(name: string, miiStatus: string, speedMbps: int)

  /** How a "Speed" value is read. */
  function Mbps(value: string): int {
    AtoiOrZero(TrimSuffix(value, " Mbps"))
  }

  /** What a block says of its slave, with `mbps` reading the speed. */
  function BlockSlave(b: Block, mbps: string -> int): Slave {
    Slave(b.name, Last(b.entries, MiiStatus), mbps(Last(b.entries, Speed)))
  }

  function Slaves(blocks: seq<Block>, mbps: string -> int): (slaves: seq<Slave>)
    ensures |slaves| == |blocks|
  {
    if blocks == [] then []
    else Slaves(blocks[..|blocks| - 1], mbps) + [BlockSlave(blocks[|blocks| - 1], mbps)]
  }

  /** A bond as a value. */
  datatype Bond = Bond(
    mode: string, hashPolicy: string, miiStatus: string, lacpActive: string, lacpRate: string,
    slaves: seq<Slave>)

  /** What the split file says: bond attributes from the head, one slave a block, the last
      value of each key winning. */
  function Meaning(f: File, mbps: string -> int): Bond {
    Bond(Last(f.head, BondingMode), Last(f.head, HashPolicy), Last(f.head, MiiStatus),
         Last(f.head, LacpActive), Last(f.head, LacpRate), Slaves(f.blocks, mbps))
  }

  // ----- One entry at a time

  /** What one more entry makes of a bond without slaves. */
  function WithHead(s: Bond, e: Entry): Bond {
    match e.key
    case BondingMode => s.(mode := e.value)
    case HashPolicy => s.(hashPolicy := e.value)
    case MiiStatus => s.(miiStatus := e.value)
    case LacpActive => s.(lacpActive := e.value)
    case LacpRate => s.(lacpRate := e.value)
    case _ => s
  }

  /** What one more entry makes of the slave it belongs to. */
  function WithEntry(s: Slave, e: Entry, mbps: string -> int): Slave {
    match e.key
    case MiiStatus => s.(miiStatus := e.value)
    case Speed => s.(speedMbps := mbps(e.value))
    case _ => s
  }

  /** What one more entry makes of a bond: it starts a slave, belongs to the last slave,
      or to the bond itself while there is none. */
  function Absorbed(s: Bond, e: Entry, mbps: string -> int): Bond {
    if e.key == SlaveInterface then s.(slaves := s.slaves + [Slave(e.value, "", 0)])
    else if s.slaves == [] then WithHead(s, e)
    else
      var n := |s.slaves| - 1;
      s.(slaves := s.slaves[n := WithEntry(s.slaves[n], e, mbps)])
  }

  lemma SlavesNext(blocks: seq<Block>, b: Block, mbps: string -> int)
    ensures Slaves(blocks + [b], mbps) == Slaves(blocks, mbps) + [BlockSlave(b, mbps)]
  {
    assert (blocks + [b])[..|blocks|] == blocks;
  }

  lemma LastSlaveNext(blocks: seq<Block>, e: Entry, mbps: string -> int)
    requires blocks != []
    ensures var n, was := |blocks| - 1, Slaves(blocks, mbps);
      Slaves(blocks[n := Longer(blocks[n], e)], mbps) == was[n := WithEntry(was[n], e, mbps)]
  {
    var n := |blocks| - 1;
    SlavesNext(blocks[..n], Longer(blocks[n], e), mbps);
    assert blocks[n := Longer(blocks[n], e)] == blocks[..n] + [Longer(blocks[n], e)];
  }

  /** Absorbing an entry keeps a bond what its split file says. */
  lemma MeaningNext(f: File, e: Entry, mbps: string -> int)
    requires mbps("") == 0
    ensures Meaning(AddEntry(f, e), mbps) == Absorbed(Meaning(f, mbps), e, mbps)
  {
    if e.key == SlaveInterface {
      SlavesNext(f.blocks, Block(e.value, []), mbps);
    } else if f.blocks != [] {
      LastSlaveNext(f.blocks, e, mbps);
    }
  }

  // ----- The parser

  datatype Ptr = NoSlave | Ptr(arr: array<Slave>, index: nat)

  class BondFacts {
    var name: string
    var mode: string
    var hashPolicy: string
    var miiStatus: string
    var lacpActive: string
    var lacpRate: string
    var slaves: array<Slave>
    var count: nat

    ghost predicate Valid()
      reads this`slaves, this`count
    {
      count <= slaves.Length
    }

    ghost function Value(): Bond
      requires Valid()
      reads this, slaves
    {
      Bond(mode, hashPolicy, miiStatus, lacpActive, lacpRate, slaves[..count])
    }

    /** The pointer to the last live slave, if there is a slave. */
    ghost function LastSlave(): Ptr
      reads this`slaves, this`count
    {
      if count == 0 then NoSlave else Ptr(slaves, count - 1)
    }

    constructor (n: string)
      ensures Valid() && name == n && fresh(slaves)
      ensures Value() == Bond("", "", "", "", "", []) && LastSlave() == NoSlave
    {
      name := n;
      mode, hashPolicy, miiStatus, lacpActive, lacpRate := "", "", "", "", "";
      slaves := new Slave[0];
      count := 0;
    }

    /** append: in place while there is room, else into a new, larger array. */
    method Append(s: Slave, grow: nat -> nat)
      requires Valid() && forall n: nat :: grow(n) > n
      modifies this`slaves, this`count, slaves
      ensures Valid() && slaves[..count] == old(slaves[..count]) + [s]
      ensures slaves == old(slaves) || fresh(slaves)
    {
      if count == slaves.Length {
        var grown := new Slave[grow(count)](_ => Slave("", "", 0));
        for i := 0 to count
          modifies grown
          invariant grown[..i] == slaves[..i]
        {
          grown[i] := slaves[i];
        }
        slaves := grown;
      }
      slaves[count] := s;
      count := count + 1;
    }
  }

  /** One entry of the head. */
  method AbsorbHead(b: BondFacts, e: Entry)
    requires b.Valid()
    modifies b`mode, b`hashPolicy, b`miiStatus, b`lacpActive, b`lacpRate
    ensures b.Value() == WithHead(old(b.Value()), e)
  {
    match e.key {
      case BondingMode => b.mode := e.value;
      case HashPolicy => b.hashPolicy := e.value;
      case MiiStatus => b.miiStatus := e.value;
      case LacpActive => b.lacpActive := e.value;
      case LacpRate => b.lacpRate := e.value;
      case _ =>
    }
  }

  /** One entry of a slave's block, written through the pointer. */
  method AbsorbSlave(arr: array<Slave>, k: nat, e: Entry, mbps: string -> int)
    requires k < arr.Length
    modifies arr
    ensures var was := old(arr[..]); arr[..] == was[k := WithEntry(was[k], e, mbps)]
  {
    match e.key {
      case MiiStatus => arr[k] := arr[k].(miiStatus := e.value);
      case Speed => arr[k] := arr[k].(speedMbps := mbps(e.value));
      case _ =>
    }
  }

  /** The loop body for one entry. The pointer, once set, is to the last live slave. */
  method Absorb(b: BondFacts, cur: Ptr, e: Entry, grow: nat -> nat, mbps: string -> int)
    returns (cur': Ptr)
    requires b.Valid() && cur == b.LastSlave() && forall n: nat :: grow(n) > n
    modifies b, b.slaves
    ensures b.Valid() && b.Value() == Absorbed(old(b.Value()), e, mbps) && cur' == b.LastSlave()
    ensures b.name == old(b.name) && (b.slaves == old(b.slaves) || fresh(b.slaves))
  {
    cur' := cur;
    if e.key == SlaveInterface {
      b.Append(Slave(e.value, "", 0), grow);
      cur' := Ptr(b.slaves, b.count - 1);
    } else if cur.Ptr? {
      ghost var was := b.slaves[..];
      AbsorbSlave(cur.arr, cur.index, e, mbps);
    } else {
      AbsorbHead(b, e);
    }
  }

  type LineReader = string -> Option<Entry>

  /** The entries of a file, in order; lines without a colon are noise. */
  function Entries(read: LineReader, lines: seq<string>): seq<Entry> {
    if lines == [] then []
    else
      var front, last := Entries(read, lines[..|lines| - 1]), read(lines[|lines| - 1]);
      if last.Some? then front + [last.value] else front
  }

  /** The split file of the lines read so far. */
  function FileOf(read: LineReader, lines: seq<string>): File {
    SplitFile(Entries(read, lines))
  }

  lemma FileNext(read: LineReader, lines: seq<string>, i: nat, f: File)
    requires i < |lines| && f == FileOf(read, lines[..i])
    ensures FileOf(read, lines[..i + 1]) ==
      if read(lines[i]).Some? then AddEntry(f, read(lines[i]).value) else f
  {
    assert lines[..i + 1][..i] == lines[..i];
    if read(lines[i]).Some? {
      var es, e := Entries(read, lines[..i]), read(lines[i]).value;
      assert (es + [e])[..|es|] == es;
    }
  }

  /** Under any growth policy the result is what the split file says. */
  method ParseBondFile(name: string, data: string, grow: nat -> nat) returns (b: BondFacts)
    requires forall n: nat :: grow(n) > n
    ensures fresh(b) && b.Valid() && b.name == name
    ensures b.Value() == Meaning(FileOf(LineEntry, Split(data, '\n')), Mbps)
  {
    b := ParseLines(name, Split(data, '\n'), LineEntry, Mbps, grow);
  }

  /** The line loop. */
  method ParseLines(name: string, lines: seq<string>, read: LineReader, mbps: string -> int, grow: nat -> nat)
    returns (b: BondFacts)
    requires mbps("") == 0 && forall n: nat :: grow(n) > n
    ensures fresh(b) && b.Valid() && b.name == name
    ensures b.Value() == Meaning(FileOf(read, lines), mbps)
  {
    b := new BondFacts(name);
    var cur := NoSlave;
    ghost var f := File([], []);
    var i := 0;
    while i < |lines|
      invariant 0 <= i <= |lines|
      invariant fresh(b) && fresh(b.slaves) && b.Valid() && b.name == name && cur == b.LastSlave()
      invariant f == FileOf(read, lines[..i]) && b.Value() == Meaning(f, mbps)
    {
      FileNext(read, lines, i, f);
      var e := read(lines[i]);
      if e.Some? {
        MeaningNext(f, e.value, mbps);
        cur := Absorb(b, cur, e.value, grow, mbps);
        f := AddEntry(f, e.value);
      }
      i := i + 1;
    }
    assert lines[..i] == lines;
  }
}
