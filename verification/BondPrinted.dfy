/** The kernel's bonding file as a specification, and its parse: what is printed for a bond
    is read back as that bond. */
module BondPrinted {
  import opened Prelude
  import opened GoInt
  import opened GoStrings
  import opened Decimal
  import opened Bond

  // ----- What is printed

  /** A text that stands on one line without white space at its ends. */
  ghost predicate Clean(s: string) {
    '\n' !in s && (s == "" || (!IsSpace(s[0]) && !IsSpace(s[|s| - 1])))
  }

  ghost predicate PrintableSlave(s: Slave) {
    Clean(s.name) && Clean(s.miiStatus) && 0 <= s.speedMbps <= MAX_INT
  }

  ghost predicate Printable(b: Bond) {
    && Clean(b.mode) && Clean(b.hashPolicy) && Clean(b.miiStatus) && Clean(b.lacpActive) && Clean(b.lacpRate)
    && forall i :: 0 <= i < |b.slaves| ==> PrintableSlave(b.slaves[i])
  }

  ghost function Line(name: string, value: string): string {
    name + ": " + value
  }

  /** A label the parser does not know, such as that of the driver's version. */
  ghost predicate Unknown(other: string) {
    && Label(other) && '\n' !in other
    && other !in {"Slave Interface", "Bonding Mode", "Transmit Hash Policy", "MII Status", "LACP active",
                  "LACP rate", "Speed"}
  }

  /** How a speed is printed. */
  ghost function SpeedText(mbps: int): string {
    if mbps < 0 then "" else Render(mbps) + " Mbps"
  }

  ghost function HeadLines(b: Bond): seq<string> {
    [Line("Bonding Mode", b.mode), Line("Transmit Hash Policy", b.hashPolicy), Line("MII Status", b.miiStatus),
     Line("LACP active", b.lacpActive), Line("LACP rate", b.lacpRate)]
  }

  /** An empty line and the block of one slave. */
  ghost function SlaveLines(s: Slave): seq<string> {
    ["", Line("Slave Interface", s.name), Line("MII Status", s.miiStatus), Line("Speed", SpeedText(s.speedMbps))]
  }

  ghost function SlavesLines(slaves: seq<Slave>): seq<string> {
    if slaves == [] then []
    else SlavesLines(slaves[..|slaves| - 1]) + SlaveLines(slaves[|slaves| - 1])
  }

  /** The file, below a line that names the driver. */
  ghost function RenderBond(other: string, driver: string, b: Bond): string {
    Join([Line(other, driver), ""] + HeadLines(b) + SlavesLines(b.slaves) + [""], '\n')
  }

  // ----- Its lines

  /** A text that can stand in front of the colon. */
  ghost predicate Label(name: string) {
    name != "" && ':' !in name && !IsSpace(name[0]) && !IsSpace(name[|name| - 1])
  }

  lemma LineRead(name: string, value: string)
    requires Label(name) && Clean(value)
    ensures LineEntry(Line(name, value)) == Some(Entry(KeyOf(name), value))
  {
    var s := Line(name, value);
    assert s == name + ":" + (" " + value);
    CutJoined(name, ':', " " + value, s);
    TrimSpaceIdle(name);
    TrimBlank(value);
  }

  lemma TrimBlank(value: string)
    requires Clean(value)
    ensures TrimSpace(" " + value) == value
  {
    var s := " " + value;
    if value != "" {
      assert s[1] == value[0] && s[|s| - 1] == value[|value| - 1];
      TrimSpaceIs(s, 1, |s|);
    }
  }

  lemma SpeedRead(n: nat)
    requires n <= MAX_INT
    ensures Clean(SpeedText(n)) && Mbps(SpeedText(n)) == n
  {
    var s, w, suffix := Render(n) + " Mbps", Render(n), " Mbps";
    RenderValue(n);
    RenderedNumeral(n);
    assert s[|s| - |suffix|..] == suffix && s[..|s| - |suffix|] == w;
    assert s[0] == w[0];
  }

  // ----- One line after another

  /** What one more line makes of a bond. */
  ghost function After(s: Bond, e: Option<Entry>, mbps: string -> int): Bond {
    if e.Some? then Absorbed(s, e.value, mbps) else s
  }

  /** The bond that lines read as es describe. */
  ghost function Described(es: seq<Option<Entry>>, mbps: string -> int): Bond {
    if es == [] then Bond("", "", "", "", "", [])
    else After(Described(es[..|es| - 1], mbps), es[|es| - 1], mbps)
  }

  lemma DescribedNext(es: seq<Option<Entry>>, e: Option<Entry>, mbps: string -> int)
    ensures Described(es + [e], mbps) == After(Described(es, mbps), e, mbps)
  {
    assert (es + [e])[..|es|] == es;
  }

  lemma DescribedUpTo(es: seq<Option<Entry>>, k: nat, mbps: string -> int)
    requires k < |es|
    ensures Described(es[..k + 1], mbps) == After(Described(es[..k], mbps), es[k], mbps)
  {
    assert es[..k + 1][..k] == es[..k];
  }

  lemma MeaningNextLine(read: LineReader, lines: seq<string>, k: nat, mbps: string -> int)
    requires k < |lines| && mbps("") == 0
    ensures Meaning(FileOf(read, lines[..k + 1]), mbps)
      == After(Meaning(FileOf(read, lines[..k]), mbps), read(lines[k]), mbps)
  {
    var f := FileOf(read, lines[..k]);
    FileNext(read, lines, k, f);
    if read(lines[k]).Some? {
      MeaningNext(f, read(lines[k]).value, mbps);
    }
  }

  lemma {:induction false} DescribedIsMeaning(
      read: LineReader, lines: seq<string>, es: seq<Option<Entry>>, k: nat, mbps: string -> int)
    requires k <= |lines| && mbps("") == 0 && es == Map(read, lines)
    ensures Meaning(FileOf(read, lines[..k]), mbps) == Described(es[..k], mbps)
  {
    if k > 0 {
      DescribedIsMeaning(read, lines, es, k - 1, mbps);
      MeaningNextLine(read, lines, k - 1, mbps);
      DescribedUpTo(es, k - 1, mbps);
    }
  }

  // ----- How the lines are read

  ghost function HeadEntries(other: string, driver: string, b: Bond): seq<Option<Entry>> {
    [Some(Entry(Other(other), driver)), None,
     Some(Entry(BondingMode, b.mode)), Some(Entry(HashPolicy, b.hashPolicy)), Some(Entry(MiiStatus, b.miiStatus)),
     Some(Entry(LacpActive, b.lacpActive)), Some(Entry(LacpRate, b.lacpRate))]
  }

  ghost function SlaveEntries(s: Slave): seq<Option<Entry>> {
    [None, Some(Entry(SlaveInterface, s.name)), Some(Entry(MiiStatus, s.miiStatus)),
     Some(Entry(Speed, SpeedText(s.speedMbps)))]
  }

  ghost function SlavesEntries(slaves: seq<Slave>): seq<Option<Entry>> {
    if slaves == [] then []
    else SlavesEntries(slaves[..|slaves| - 1]) + SlaveEntries(slaves[|slaves| - 1])
  }

  lemma KeyRead(name: string, value: string, key: Key)
    requires Label(name) && KeyOf(name) == key && Clean(value)
    ensures LineEntry(Line(name, value)) == Some(Entry(key, value))
  {
    LineRead(name, value);
  }

  lemma DriverRead(other: string, driver: string)
    requires Unknown(other) && Clean(driver)
    ensures LineEntry(Line(other, driver)) == Some(Entry(Other(other), driver))
  {
    KeyRead(other, driver, Other(other));
  }

  lemma BlankRead()
    ensures LineEntry("") == None
  {
    IndexOfIs("", 0, ':', 0);
  }

  lemma ModeRead(mode: string)
    requires Clean(mode)
    ensures LineEntry(Line("Bonding Mode", mode)) == Some(Entry(BondingMode, mode))
  {
    KeyRead("Bonding Mode", mode, BondingMode);
  }

  lemma PolicyRead(policy: string)
    requires Clean(policy)
    ensures LineEntry(Line("Transmit Hash Policy", policy)) == Some(Entry(HashPolicy, policy))
  {
    KeyRead("Transmit Hash Policy", policy, HashPolicy);
  }

  lemma LacpRead(active: string, rate: string)
    requires Clean(active) && Clean(rate)
    ensures LineEntry(Line("LACP active", active)) == Some(Entry(LacpActive, active))
    ensures LineEntry(Line("LACP rate", rate)) == Some(Entry(LacpRate, rate))
  {
    KeyRead("LACP active", active, LacpActive);
    KeyRead("LACP rate", rate, LacpRate);
  }

  lemma StatusRead(status: string)
    requires Clean(status)
    ensures LineEntry(Line("MII Status", status)) == Some(Entry(MiiStatus, status))
  {
    KeyRead("MII Status", status, MiiStatus);
  }

  lemma NicRead(name: string, speed: string)
    requires Clean(name) && Clean(speed)
    ensures LineEntry(Line("Slave Interface", name)) == Some(Entry(SlaveInterface, name))
    ensures LineEntry(Line("Speed", speed)) == Some(Entry(Speed, speed))
  {
    KeyRead("Slave Interface", name, SlaveInterface);
    KeyRead("Speed", speed, Speed);
  }

  lemma MapConcat(read: LineReader, xs: seq<string>, ys: seq<string>)
    ensures Map(read, xs + ys) == Map(read, xs) + Map(read, ys)
  {
  }

  lemma HeadRead(other: string, driver: string, b: Bond)
    requires Unknown(other) && Clean(driver) && Printable(b)
    ensures Map(LineEntry, [Line(other, driver), ""] + HeadLines(b)) == HeadEntries(other, driver, b)
  {
    DriverRead(other, driver);
    BlankRead();
    ModeRead(b.mode);
    PolicyRead(b.hashPolicy);
    StatusRead(b.miiStatus);
    LacpRead(b.lacpActive, b.lacpRate);
    HeadMapped(LineEntry, other, driver, b);
  }

  lemma HeadMapped(read: LineReader, other: string, driver: string, b: Bond)
    requires read(Line(other, driver)) == Some(Entry(Other(other), driver)) && read("") == None
    requires read(Line("Bonding Mode", b.mode)) == Some(Entry(BondingMode, b.mode))
    requires read(Line("Transmit Hash Policy", b.hashPolicy)) == Some(Entry(HashPolicy, b.hashPolicy))
    requires read(Line("MII Status", b.miiStatus)) == Some(Entry(MiiStatus, b.miiStatus))
    requires read(Line("LACP active", b.lacpActive)) == Some(Entry(LacpActive, b.lacpActive))
    requires read(Line("LACP rate", b.lacpRate)) == Some(Entry(LacpRate, b.lacpRate))
    ensures Map(read, [Line(other, driver), ""] + HeadLines(b)) == HeadEntries(other, driver, b)
  {
  }

  lemma SlaveRead(s: Slave)
    requires PrintableSlave(s)
    ensures Map(LineEntry, SlaveLines(s)) == SlaveEntries(s)
  {
    BlankRead();
    SpeedRead(s.speedMbps);
    NicRead(s.name, SpeedText(s.speedMbps));
    StatusRead(s.miiStatus);
    SlaveMapped(LineEntry, s);
  }

  lemma SlaveMapped(read: LineReader, s: Slave)
    requires read("") == None
    requires read(Line("Slave Interface", s.name)) == Some(Entry(SlaveInterface, s.name))
    requires read(Line("MII Status", s.miiStatus)) == Some(Entry(MiiStatus, s.miiStatus))
    requires var speed := SpeedText(s.speedMbps); read(Line("Speed", speed)) == Some(Entry(Speed, speed))
    ensures Map(read, SlaveLines(s)) == SlaveEntries(s)
  {
  }

  lemma {:induction false} SlavesRead(slaves: seq<Slave>)
    requires forall i :: 0 <= i < |slaves| ==> PrintableSlave(slaves[i])
    ensures Map(LineEntry, SlavesLines(slaves)) == SlavesEntries(slaves)
  {
    if slaves != [] {
      var n := |slaves| - 1;
      SlavesRead(slaves[..n]);
      SlaveRead(slaves[n]);
      MapConcat(LineEntry, SlavesLines(slaves[..n]), SlaveLines(slaves[n]));
    }
  }

  // ----- What they describe

  lemma HeadDescribed(other: string, driver: string, b: Bond, mbps: string -> int)
    ensures Described(HeadEntries(other, driver, b), mbps) == b.(slaves := [])
  {
    var es := HeadEntries(other, driver, b);
    ModeDescribed(es, other, driver, b, mbps);
    DescribedUpTo(es, 4, mbps);
    DescribedUpTo(es, 5, mbps);
    DescribedUpTo(es, 6, mbps);
    assert es[..7] == es;
  }

  lemma ModeDescribed(es: seq<Option<Entry>>, other: string, driver: string, b: Bond, mbps: string -> int)
    requires es == HeadEntries(other, driver, b)
    ensures Described(es[..4], mbps) == Bond(b.mode, b.hashPolicy, "", "", "", [])
  {
    DescribedUpTo(es, 0, mbps);
    DescribedUpTo(es, 1, mbps);
    DescribedUpTo(es, 2, mbps);
    DescribedUpTo(es, 3, mbps);
  }

  lemma SlaveDescribed(es: seq<Option<Entry>>, s: Slave, all: seq<Option<Entry>>, mbps: string -> int)
    requires mbps(SpeedText(s.speedMbps)) == s.speedMbps
    requires all == es + SlaveEntries(s)
    ensures var was := Described(es, mbps);
      Described(all, mbps) == was.(slaves := was.slaves + [s])
  {
    var k := |es|;
    NameDescribed(es, s, all, mbps);
    DescribedUpTo(all, k + 2, mbps);
    DescribedUpTo(all, k + 3, mbps);
    assert all[..k + 4] == all;
  }

  lemma NameDescribed(es: seq<Option<Entry>>, s: Slave, all: seq<Option<Entry>>, mbps: string -> int)
    requires all == es + SlaveEntries(s)
    ensures var was := Described(es, mbps);
      Described(all[..|es| + 2], mbps) == was.(slaves := was.slaves + [Slave(s.name, "", 0)])
  {
    var k := |es|;
    assert all[..k] == es;
    DescribedUpTo(all, k, mbps);
    DescribedUpTo(all, k + 1, mbps);
  }

  lemma {:induction false} SlavesDescribed(
      es: seq<Option<Entry>>, slaves: seq<Slave>, all: seq<Option<Entry>>, mbps: string -> int)
    requires forall i :: 0 <= i < |slaves| ==> mbps(SpeedText(slaves[i].speedMbps)) == slaves[i].speedMbps
    requires all == es + SlavesEntries(slaves)
    ensures var was := Described(es, mbps);
      Described(all, mbps) == was.(slaves := was.slaves + slaves)
  {
    if slaves == [] {
      assert all == es && Described(es, mbps).slaves + slaves == Described(es, mbps).slaves;
    } else {
      var n := |slaves| - 1;
      var front := es + SlavesEntries(slaves[..n]);
      SlavesDescribed(es, slaves[..n], front, mbps);
      SlaveDescribed(front, slaves[n], all, mbps);
      assert slaves == slaves[..n] + [slaves[n]];
    }
  }

  // ----- The whole file

  lemma LineFree(name: string, value: string)
    requires '\n' !in name && Clean(value)
    ensures '\n' !in Line(name, value)
  {
  }

  lemma DriverFree(other: string, driver: string)
    requires Unknown(other) && Clean(driver)
    ensures Free([Line(other, driver), ""], '\n')
  {
    LineFree(other, driver);
  }

  lemma HeadFree(b: Bond)
    requires Printable(b)
    ensures Free(HeadLines(b), '\n')
  {
    LineFree("Bonding Mode", b.mode);
    LineFree("Transmit Hash Policy", b.hashPolicy);
    LineFree("MII Status", b.miiStatus);
    LineFree("LACP active", b.lacpActive);
    LineFree("LACP rate", b.lacpRate);
  }

  lemma SlaveFree(s: Slave)
    requires PrintableSlave(s)
    ensures Free(SlaveLines(s), '\n')
  {
    SpeedRead(s.speedMbps);
    LineFree("Slave Interface", s.name);
    LineFree("MII Status", s.miiStatus);
    LineFree("Speed", SpeedText(s.speedMbps));
  }

  lemma {:induction false} SlavesFree(slaves: seq<Slave>)
    requires forall i :: 0 <= i < |slaves| ==> PrintableSlave(slaves[i])
    ensures Free(SlavesLines(slaves), '\n')
  {
    if slaves != [] {
      var n := |slaves| - 1;
      SlavesFree(slaves[..n]);
      SlaveFree(slaves[n]);
      FreeConcat(SlavesLines(slaves[..n]), SlaveLines(slaves[n]), '\n');
    }
  }

  lemma RenderedSplits(other: string, driver: string, b: Bond)
    requires Unknown(other) && Clean(driver) && Printable(b)
    ensures Split(RenderBond(other, driver, b), '\n')
      == [Line(other, driver), ""] + HeadLines(b) + SlavesLines(b.slaves) + [""]
  {
    var first, head, slaves := [Line(other, driver), ""], HeadLines(b), SlavesLines(b.slaves);
    DriverFree(other, driver);
    HeadFree(b);
    SlavesFree(b.slaves);
    FreeConcat(first, head, '\n');
    FreeConcat(first + head, slaves, '\n');
    FreeConcat(first + head + slaves, [""], '\n');
    SplitJoin(first + head + slaves + [""], '\n');
  }

  /** What the kernel prints for a bond is read back as that bond: every attribute, every
      slave in order, every speed. */
  lemma BondParsed(other: string, driver: string, b: Bond)
    requires Unknown(other) && Clean(driver) && Printable(b)
    ensures Meaning(FileOf(LineEntry, Split(RenderBond(other, driver, b), '\n')), Mbps) == b
  {
    var head, slaves := [Line(other, driver), ""] + HeadLines(b), SlavesLines(b.slaves);
    var lines := head + slaves + [""];
    RenderedSplits(other, driver, b);
    LinesRead(other, driver, b, head, slaves);
    LinesDescribed(other, driver, b);
    assert Mbps("") == 0 by {
      TrimSpaceIdle("");
    }
    var es := Map(LineEntry, lines);
    DescribedIsMeaning(LineEntry, lines, es, |lines|, Mbps);
    assert lines[..|lines|] == lines && es[..|lines|] == es;
  }

  lemma LinesRead(other: string, driver: string, b: Bond, head: seq<string>, slaves: seq<string>)
    requires Unknown(other) && Clean(driver) && Printable(b)
    requires head == [Line(other, driver), ""] + HeadLines(b) && slaves == SlavesLines(b.slaves)
    ensures Map(LineEntry, head + slaves + [""]) == HeadEntries(other, driver, b) + SlavesEntries(b.slaves) + [None]
  {
    HeadRead(other, driver, b);
    SlavesRead(b.slaves);
    BlankRead();
    MapConcat(LineEntry, head, slaves);
    MapConcat(LineEntry, head + slaves, [""]);
    assert Map(LineEntry, [""]) == [None];
  }

  lemma LinesDescribed(other: string, driver: string, b: Bond)
    requires Printable(b)
    ensures Described(HeadEntries(other, driver, b) + SlavesEntries(b.slaves) + [None], Mbps) == b
  {
    var head := HeadEntries(other, driver, b);
    HeadDescribed(other, driver, b, Mbps);
    forall i | 0 <= i < |b.slaves|
      ensures Mbps(SpeedText(b.slaves[i].speedMbps)) == b.slaves[i].speedMbps
    {
      SpeedRead(b.slaves[i].speedMbps);
    }
    SlavesDescribed(head, b.slaves, head + SlavesEntries(b.slaves), Mbps);
    DescribedNext(head + SlavesEntries(b.slaves), None, Mbps);
    assert [] + b.slaves == b.slaves;
  }
}
