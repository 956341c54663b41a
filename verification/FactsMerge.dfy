/** The normalised facts of a server and how one collector's facts are merged into
    what is already known. */
module FactsMerge {
  import opened Prelude
  import opened GoStrings

  datatype CpuFacts = CpuFacts(vendor: string, model: string, sockets: int, cores: int, threads: int)

  datatype DiskFacts = DiskFacts(name: string, typ: string, sizeGB: int, rotational: bool)

  datatype NicFacts = NicFacts(
    name: string, mac: string, speedGbps: int, driver: string, features: seq<string>)

  /** The facts as a value. Times are numbers, 0 the zero time; what Raw holds is text. */
  datatype Facts = Facts(
    serverId: string, observedAt: int, source: string, powerState: string,
    provisioning: string, health: string, cpu: CpuFacts, memoryGB: int,
    disks: seq<DiskFacts>, nics: seq<NicFacts>, capabilities: seq<string>,
    networkModes: seq<string>, failureDomain: string, raw: Option<map<string, string>>)

  // ----- The merge as a function of values

  /** A field still at its zero value is filled in; one already set is left alone. */
  function Fill<T(==)>(zero: T, dst: T, src: T): T {
    if dst == zero then src else dst
  }

  function MergeCpu(dst: CpuFacts, src: CpuFacts): CpuFacts {
    CpuFacts(Fill("", dst.vendor, src.vendor), Fill("", dst.model, src.model),
             Fill(0, dst.sockets, src.sockets), Fill(0, dst.cores, src.cores),
             Fill(0, dst.threads, src.threads))
  }

  /** "+"-joined source names; a name already there as a part is not added again. */
  function MergeSource(dst: string, src: string): string {
    if src == "" then dst
    else if dst == "" then src
    else if src in Split(dst, '+') then dst
    else dst + "+" + src
  }

  /** dst, then the texts of src that are non-empty and new. */
  function Union(dst: seq<string>, src: seq<string>): seq<string> {
    if src == [] then dst
    else
      var u, v := Union(dst, src[..|src| - 1]), src[|src| - 1];
      if v == "" || v in u then u else u + [v]
  }

  function MergeRaw(dst: Option<map<string, string>>, src: Option<map<string, string>>)
    : Option<map<string, string>>
  {
    match (dst, src)
    case (_, None) => dst
    case (None, Some(s)) => Some(s)
    case (Some(d), Some(s)) => Some(s + d)
  }

  function Merge(dst: Facts, src: Facts): Facts {
    Facts(Fill("", dst.serverId, src.serverId), Fill(0, dst.observedAt, src.observedAt),
          MergeSource(dst.source, src.source), Fill("", dst.powerState, src.powerState),
          Fill("", dst.provisioning, src.provisioning), dst.health,
          MergeCpu(dst.cpu, src.cpu), Fill(0, dst.memoryGB, src.memoryGB),
          Fill([], dst.disks, src.disks), Fill([], dst.nics, src.nics),
          Union(dst.capabilities, src.capabilities), Union(dst.networkModes, src.networkModes),
          Fill("", dst.failureDomain, src.failureDomain), MergeRaw(dst.raw, src.raw))
  }

  // ----- The merge in place

  class ServerFacts {
    var serverId: string
    var observedAt: int
    var source: string
    var powerState: string
    var provisioning: string
    var health: string
    var cpu: CpuFacts
    var memoryGB: int
    var disks: seq<DiskFacts>
    var nics: seq<NicFacts>
    var capabilities: seq<string>
    var networkModes: seq<string>
    var failureDomain: string
    var raw: Option<map<string, string>>

    function Value(): Facts
      reads this
    {
      Facts(serverId, observedAt, source, powerState, provisioning, health, cpu, memoryGB, disks,
            nics, capabilities, networkModes, failureDomain, raw)
    }

    constructor (id: string)
      ensures Value() == Empty(id)
    {
      serverId, observedAt, source, powerState := id, 0, "", "";
      provisioning, health, cpu, memoryGB := "", "", CpuFacts("", "", 0, 0, 0), 0;
      disks, nics, capabilities, networkModes := [], [], [], [];
      failureDomain, raw := "", Some(map[]);
    }

    /** The record a collector hands over. */
    constructor Of(f: Facts)
      ensures Value() == f
    {
      serverId, observedAt, source, powerState := f.serverId, f.observedAt, f.source, f.powerState;
      provisioning, health, cpu, memoryGB := f.provisioning, f.health, f.cpu, f.memoryGB;
      disks, nics, capabilities, networkModes := f.disks, f.nics, f.capabilities, f.networkModes;
      failureDomain, raw := f.failureDomain, f.raw;
    }

    /** mergeInto, field by field; src may even be this record itself. */
    method MergeInto(src: ServerFacts)
      modifies this
      ensures Value() == Merge(old(Value()), old(src.Value()))
    {
      ghost var d, s := Value(), src.Value();
      FillSingles(src);
      FillLists(src);
      FillRawFrom(src);
    }

    /** Everything but the lists and Raw. */
    method FillSingles(src: ServerFacts)
      modifies this`serverId, this`observedAt, this`source, this`powerState, this`provisioning,
               this`cpu, this`memoryGB, this`failureDomain
      ensures SinglesMerged(old(Value()), old(src.Value()), Value())
    {
      FillScalars(src);
      source := MergeSource(source, src.source);
      cpu := MergedCpu(cpu, src.cpu);
    }

    method FillScalars(src: ServerFacts)
      modifies this`serverId, this`observedAt, this`powerState, this`provisioning,
               this`memoryGB, this`failureDomain
      ensures serverId == Fill("", old(serverId), old(src.serverId))
      ensures observedAt == Fill(0, old(observedAt), old(src.observedAt))
      ensures powerState == Fill("", old(powerState), old(src.powerState))
      ensures provisioning == Fill("", old(provisioning), old(src.provisioning))
      ensures memoryGB == Fill(0, old(memoryGB), old(src.memoryGB))
      ensures failureDomain == Fill("", old(failureDomain), old(src.failureDomain))
    {
      if serverId == "" { serverId := src.serverId; }
      if observedAt == 0 { observedAt := src.observedAt; }
      if powerState == "" { powerState := src.powerState; }
      if provisioning == "" { provisioning := src.provisioning; }
      if memoryGB == 0 { memoryGB := src.memoryGB; }
      if failureDomain == "" { failureDomain := src.failureDomain; }
    }

    method FillLists(src: ServerFacts)
      modifies this`disks, this`nics, this`networkModes, this`capabilities
      ensures disks == Fill([], old(disks), old(src.disks))
      ensures nics == Fill([], old(nics), old(src.nics))
      ensures networkModes == Union(old(networkModes), old(src.networkModes))
      ensures capabilities == Union(old(capabilities), old(src.capabilities))
    {
      if |disks| == 0 && |src.disks| > 0 { disks := src.disks; }
      if |nics| == 0 && |src.nics| > 0 { nics := src.nics; }
      networkModes := UnionStrings(networkModes, src.networkModes);
      capabilities := UnionStrings(capabilities, src.capabilities);
    }

    method FillRawFrom(src: ServerFacts)
      modifies this`raw
      ensures raw == MergeRaw(old(raw), old(src.raw))
    {
      if src.raw.Some? {
        if raw.None? {
          raw := Some(map[]);
        }
        var filled := FillRaw(raw.value, src.raw.value);
        assert src.raw.value + map[] == src.raw.value;
        raw := Some(filled);
      }
    }
  }

  /** m's single-valued fields are those of the merge of d and s. */
  ghost predicate SinglesMerged(d: Facts, s: Facts, m: Facts) {
    && m.serverId == Fill("", d.serverId, s.serverId) && m.observedAt == Fill(0, d.observedAt, s.observedAt)
    && m.source == MergeSource(d.source, s.source) && m.cpu == MergeCpu(d.cpu, s.cpu)
    && m.powerState == Fill("", d.powerState, s.powerState)
    && m.provisioning == Fill("", d.provisioning, s.provisioning) && m.health == d.health
    && m.memoryGB == Fill(0, d.memoryGB, s.memoryGB)
    && m.failureDomain == Fill("", d.failureDomain, s.failureDomain)
  }

  function Empty(id: string): Facts {
    Facts(id, 0, "", "", "", "", CpuFacts("", "", 0, 0, 0), 0, [], [], [], [], "", Some(map[]))
  }

  method MergedCpu(dst: CpuFacts, src: CpuFacts) returns (r: CpuFacts)
    ensures r == MergeCpu(dst, src)
  {
    r := dst;
    if r.vendor == "" { r := r.(vendor := src.vendor); }
    if r.model == "" { r := r.(model := src.model); }
    if r.sockets == 0 { r := r.(sockets := src.sockets); }
    if r.cores == 0 { r := r.(cores := src.cores); }
    if r.threads == 0 { r := r.(threads := src.threads); }
  }

  /** The appending loop over a seen set. */
  method UnionStrings(dst: seq<string>, src: seq<string>) returns (out: seq<string>)
    ensures out == Union(dst, src)
  {
    out := dst;
    if |src| == 0 {
      return;
    }
    var seen := set v | v in dst;
    var i := 0;
    while i < |src|
      invariant 0 <= i <= |src|
      invariant out == Union(dst, src[..i])
      invariant forall v :: v in seen <==> v in out
    {
      assert src[..i + 1][..i] == src[..i];
      var v := src[i];
      if v != "" && v !in seen {
        seen := seen + {v};
        out := out + [v];
      }
      i := i + 1;
    }
    assert src[..i] == src;
  }

  /** The loop over src.Raw, in whatever order the map yields its keys. */
  method FillRaw(dst: map<string, string>, src: map<string, string>) returns (r: map<string, string>)
    ensures r == src + dst
  {
    r := dst;
    var left := src.Keys;
    while left != {}
      invariant left <= src.Keys
      invariant r.Keys == dst.Keys + (src.Keys - left)
      invariant forall k :: k in r ==> r[k] == if k in dst then dst[k] else src[k]
      decreases |left|
    {
      var k :| k in left;
      if k !in r {
        r := r[k := src[k]];
      }
      left := left - {k};
    }
  }
}
