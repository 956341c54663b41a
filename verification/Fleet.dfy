/** The fleet rollup and the capability query over the same facts. */
module Fleet {
  import opened Prelude
  import opened GoInt
  import opened Sorting
  import opened FactsMerge
  import opened Counting

  datatype Summary = Summary(
    servers: int, healthy: int, degraded: int, unknown: int, poweredOn: int,
    totalCores: int, totalThreads: int, totalMemoryGB: int, totalDiskGB: int, totalNicGbps: int,
    capabilityCounts: map<string, int>, networkModeCounts: map<string, int>,
    nicSpeedPorts: map<int, int>, cpuModels: map<string, int>,
    failureDomains: map<string, seq<string>>)

  // ----- What the rollup should say

  /** The servers there are facts for. */
  function Present(all: seq<Option<Facts>>): seq<Facts> {
    if all == [] then []
    else
      var front, last := Present(all[..|all| - 1]), all[|all| - 1];
      if last.Some? then front + [last.value] else front
  }

  lemma PresentNext(all: seq<Option<Facts>>, i: nat)
    requires i < |all|
    ensures Present(all[..i + 1]) == Present(all[..i]) + if all[i].Some? then [all[i].value] else []
  {
    assert all[..i + 1][..i] == all[..i];
  }

  /** What g lists for each server, one after another. */
  function Gather<T>(g: Facts -> seq<T>, fs: seq<Facts>): seq<T> {
    if fs == [] then [] else Gather(g, fs[..|fs| - 1]) + g(fs[|fs| - 1])
  }

  function OneIf(b: bool): int {
    if b then 1 else 0
  }

  const IS_HEALTHY := (f: Facts) => OneIf(f.health == "healthy")
  const IS_DEGRADED := (f: Facts) => OneIf(f.health == "degraded")
  const IS_UNKNOWN := (f: Facts) => OneIf(f.health != "healthy" && f.health != "degraded")
  const IS_ON := (f: Facts) => OneIf(f.powerState == "on")
  const CORES := (f: Facts) => f.cpu.cores
  const THREADS := (f: Facts) => f.cpu.threads
  const MEMORY := (f: Facts) => f.memoryGB
  const DISK_GB := (f: Facts) => Sum(SIZE, f.disks)
  const NIC_GBPS := (f: Facts) => Sum(SPEED, f.nics)
  const CAPABILITIES := (f: Facts) => f.capabilities
  const MODES := (f: Facts) => f.networkModes
  const PORT_SPEEDS := (f: Facts) => Speeds(f.nics)
  const MODEL := (f: Facts) => if f.cpu.model == "" then [] else [f.cpu.model]

  /** The positive port speeds. */
  function Speeds(nics: seq<NicFacts>): seq<int> {
    if nics == [] then []
    else
      var front, last := Speeds(nics[..|nics| - 1]), nics[|nics| - 1].speedGbps;
      if last > 0 then front + [last] else front
  }

  function Domain(f: Facts): string {
    if f.failureDomain == "" then "unassigned" else f.failureDomain
  }

  /** The ids of the servers in one failure domain. */
  function Members(d: string): Facts -> seq<string> {
    (f: Facts) => if Domain(f) == d then [f.serverId] else []
  }

  /** The totals, kept in Go's int. */
  ghost predicate Totals(s: Summary, fs: seq<Facts>, wrap: int -> int) {
    && s.totalCores == wrap(Sum(CORES, fs)) && s.totalThreads == wrap(Sum(THREADS, fs))
    && s.totalMemoryGB == wrap(Sum(MEMORY, fs)) && s.totalDiskGB == wrap(Sum(DISK_GB, fs))
    && s.totalNicGbps == wrap(Sum(NIC_GBPS, fs))
  }

  /** s counts the servers fs and adds up what they have, in 64-bit integers. */
  ghost predicate Counts(s: Summary, fs: seq<Facts>) {
    && s.servers == |fs|
    && s.healthy == Sum(IS_HEALTHY, fs) && s.degraded == Sum(IS_DEGRADED, fs)
    && s.unknown == Sum(IS_UNKNOWN, fs) && s.poweredOn == Sum(IS_ON, fs)
    && Totals(s, fs, Wrap64)
  }

  ghost predicate Tallies(s: Summary, fs: seq<Facts>) {
    && s.capabilityCounts == CountOn(map[], Gather(CAPABILITIES, fs))
    && s.networkModeCounts == CountOn(map[], Gather(MODES, fs))
    && s.nicSpeedPorts == CountOn(map[], Gather(PORT_SPEEDS, fs))
    && s.cpuModels == CountOn(map[], Gather(MODEL, fs))
  }

  /** Every domain with a member, and only those, with its members' ids arranged by
      `arrange`. */
  ghost predicate Groups(m: map<string, seq<string>>, fs: seq<Facts>, arrange: seq<string> -> seq<string>) {
    forall d :: (d in m <==> Gather(Members(d), fs) != []) && (d in m ==> m[d] == arrange(Gather(Members(d), fs)))
  }

  ghost predicate Summarises(s: Summary, fs: seq<Facts>) {
    Counts(s, fs) && Tallies(s, fs) && Groups(s.failureDomains, fs, Sort)
  }

  lemma GatherNext<T>(g: Facts -> seq<T>, fs: seq<Facts>, f: Facts)
    ensures Gather(g, fs + [f]) == Gather(g, fs) + g(f)
  {
    assert (fs + [f])[..|fs|] == fs;
  }

  // ----- Aggregate

  /** for _, x := range xs { m[x]++ } */
  method CountEach<T(==)>(m: map<T, int>, xs: seq<T>) returns (r: map<T, int>)
    ensures r == CountOn(m, xs)
  {
    r := m;
    for i := 0 to |xs|
      invariant r == CountOn(m, xs[..i])
    {
      assert xs[..i + 1][..i] == xs[..i];
      r := r[xs[i] := Count(r, xs[i]) + 1];
    }
    assert xs[..|xs|] == xs;
  }

  const SIZE := (d: DiskFacts) => d.sizeGB

  lemma SumNext<T>(f: T -> int, xs: seq<T>, i: nat)
    requires i < |xs|
    ensures Sum(f, xs[..i + 1]) == Sum(f, xs[..i]) + f(xs[i])
  {
    assert xs[..i + 1] == xs[..i] + [xs[i]];
    SumAppend(f, xs[..i], xs[i]);
  }

  method AddDisks(total: int, disks: seq<DiskFacts>, ghost from: int, ghost next: int, ghost wrap: int -> int)
    returns (r: int)
    requires Wraps(wrap) && total == wrap(from) && next == from + Sum(SIZE, disks)
    ensures r == wrap(next)
  {
    r := total;
    ghost var sum := from;
    for i := 0 to |disks|
      invariant sum == from + Sum(SIZE, disks[..i]) && r == wrap(sum)
    {
      SumNext(SIZE, disks, i);
      r := AddInt(r, disks[i].sizeGB, sum, sum + disks[i].sizeGB, wrap);
      sum := sum + disks[i].sizeGB;
    }
    assert disks[..|disks|] == disks && sum == next;
  }

  lemma SpeedsNext(nics: seq<NicFacts>, i: nat)
    requires i < |nics|
    ensures Speeds(nics[..i + 1]) ==
      Speeds(nics[..i]) + if nics[i].speedGbps > 0 then [nics[i].speedGbps] else []
  {
    assert nics[..i + 1][..i] == nics[..i];
  }

  const SPEED := (n: NicFacts) => n.speedGbps

  method AddNics(total: int, ports: map<int, int>, nics: seq<NicFacts>,
                 ghost from: int, ghost next: int, ghost wrap: int -> int)
    returns (r: int, p: map<int, int>)
    requires Wraps(wrap) && total == wrap(from) && next == from + Sum(SPEED, nics)
    ensures r == wrap(next)
    ensures p == CountOn(ports, Speeds(nics))
  {
    r, p := total, ports;
    ghost var sum := from;
    for i := 0 to |nics|
      invariant sum == from + Sum(SPEED, nics[..i]) && r == wrap(sum)
      invariant p == CountOn(ports, Speeds(nics[..i]))
    {
      SumNext(SPEED, nics, i);
      SpeedsNext(nics, i);
      r := AddInt(r, nics[i].speedGbps, sum, sum + nics[i].speedGbps, wrap);
      sum := sum + nics[i].speedGbps;
      p := AddPort(p, nics[i].speedGbps, ports, Speeds(nics[..i]));
    }
    assert nics[..|nics|] == nics && sum == next;
  }

  method AddPort(p: map<int, int>, v: int, ghost ports: map<int, int>, ghost front: seq<int>)
    returns (p': map<int, int>)
    requires p == CountOn(ports, front)
    ensures p' == CountOn(ports, front + if v > 0 then [v] else [])
  {
    p' := p;
    assert front + [] == front;
    if v > 0 {
      CountOnNext(ports, front, v);
      p' := p[v := Count(p, v) + 1];
    }
  }

  /** What one server adds to the counters and totals. */
  method AddCounts(s: Summary, f: Facts, ghost fs: seq<Facts>) returns (r: Summary)
    requires Counts(s, fs)
    ensures Counts(r, fs + [f])
    ensures r.capabilityCounts == s.capabilityCounts && r.networkModeCounts == s.networkModeCounts
    ensures r.cpuModels == s.cpuModels && r.failureDomains == s.failureDomains
    ensures r.nicSpeedPorts == CountOn(s.nicSpeedPorts, Speeds(f.nics))
  {
    SumAppend(IS_HEALTHY, fs, f);
    SumAppend(IS_DEGRADED, fs, f);
    SumAppend(IS_UNKNOWN, fs, f);
    SumAppend(IS_ON, fs, f);
    r := s.(servers := s.servers + 1);
    if f.health == "healthy" {
      r := r.(healthy := r.healthy + 1);
    } else if f.health == "degraded" {
      r := r.(degraded := r.degraded + 1);
    } else {
      r := r.(unknown := r.unknown + 1);
    }
    if f.powerState == "on" {
      r := r.(poweredOn := r.poweredOn + 1);
    }
    r := AddTotals(r, f, fs, Wrap64);
  }

  /** The totals with one more server. */
  lemma SumsNext(fs: seq<Facts>, f: Facts)
    ensures Sum(CORES, fs + [f]) == Sum(CORES, fs) + f.cpu.cores
    ensures Sum(THREADS, fs + [f]) == Sum(THREADS, fs) + f.cpu.threads
    ensures Sum(MEMORY, fs + [f]) == Sum(MEMORY, fs) + f.memoryGB
    ensures Sum(DISK_GB, fs + [f]) == Sum(DISK_GB, fs) + Sum(SIZE, f.disks)
    ensures Sum(NIC_GBPS, fs + [f]) == Sum(NIC_GBPS, fs) + Sum(SPEED, f.nics)
  {
    SumAppend(CORES, fs, f);
    SumAppend(THREADS, fs, f);
    SumAppend(MEMORY, fs, f);
    SumAppend(DISK_GB, fs, f);
    SumAppend(NIC_GBPS, fs, f);
  }

  method AddTotals(s: Summary, f: Facts, ghost fs: seq<Facts>, ghost wrap: int -> int) returns (r: Summary)
    requires Wraps(wrap) && Totals(s, fs, wrap)
    ensures Totals(r, fs + [f], wrap)
    ensures r == s.(totalCores := r.totalCores, totalThreads := r.totalThreads, totalMemoryGB := r.totalMemoryGB,
                    totalDiskGB := r.totalDiskGB, totalNicGbps := r.totalNicGbps, nicSpeedPorts := r.nicSpeedPorts)
    ensures r.nicSpeedPorts == CountOn(s.nicSpeedPorts, Speeds(f.nics))
  {
    SumsNext(fs, f);
    var cores := AddInt(s.totalCores, f.cpu.cores, Sum(CORES, fs), Sum(CORES, fs + [f]), wrap);
    var threads := AddInt(s.totalThreads, f.cpu.threads, Sum(THREADS, fs), Sum(THREADS, fs + [f]), wrap);
    var memory := AddInt(s.totalMemoryGB, f.memoryGB, Sum(MEMORY, fs), Sum(MEMORY, fs + [f]), wrap);
    var disk := AddDisks(s.totalDiskGB, f.disks, Sum(DISK_GB, fs), Sum(DISK_GB, fs + [f]), wrap);
    var nic, ports :=
      AddNics(s.totalNicGbps, s.nicSpeedPorts, f.nics, Sum(NIC_GBPS, fs), Sum(NIC_GBPS, fs + [f]), wrap);
    r := s.(totalCores := cores, totalThreads := threads, totalMemoryGB := memory,
            totalDiskGB := disk, totalNicGbps := nic, nicSpeedPorts := ports);
  }

  method AddTallies(s: Summary, f: Facts, ghost fs: seq<Facts>) returns (r: Summary)
    requires s.nicSpeedPorts == CountOn(CountOn(map[], Gather(PORT_SPEEDS, fs)), Speeds(f.nics))
    requires Tallies(s.(nicSpeedPorts := CountOn(map[], Gather(PORT_SPEEDS, fs))), fs)
    ensures Tallies(r, fs + [f])
    ensures r == s.(capabilityCounts := r.capabilityCounts, networkModeCounts := r.networkModeCounts,
                    cpuModels := r.cpuModels)
  {
    GatherNext(CAPABILITIES, fs, f);
    GatherNext(MODES, fs, f);
    GatherNext(PORT_SPEEDS, fs, f);
    GatherNext(MODEL, fs, f);
    CountOnAppend(map[], Gather(CAPABILITIES, fs), f.capabilities);
    CountOnAppend(map[], Gather(MODES, fs), f.networkModes);
    CountOnAppend(map[], Gather(PORT_SPEEDS, fs), Speeds(f.nics));
    var caps := CountEach(s.capabilityCounts, f.capabilities);
    var modes := CountEach(s.networkModeCounts, f.networkModes);
    var models := AddModel(s.cpuModels, f.cpu.model, Gather(MODEL, fs));
    r := s.(capabilityCounts := caps, networkModeCounts := modes, cpuModels := models);
  }

  method AddModel(m: map<string, int>, model: string, ghost front: seq<string>) returns (r: map<string, int>)
    requires m == CountOn(map[], front)
    ensures r == CountOn(map[], front + if model == "" then [] else [model])
  {
    r := m;
    assert front + [] == front;
    if model != "" {
      CountOnNext(map[], front, model);
      r := m[model := Count(m, model) + 1];
    }
  }

  /** Everything one server adds but its place in a failure domain. */
  method AddServer(s: Summary, f: Facts, ghost fs: seq<Facts>) returns (r: Summary)
    requires Counts(s, fs) && Tallies(s, fs)
    ensures Counts(r, fs + [f]) && Tallies(r, fs + [f])
    ensures r.failureDomains == s.failureDomains
  {
    var counted := AddCounts(s, f, fs);
    r := AddTallies(counted, f, fs);
  }

  lemma GroupsNext(m: map<string, seq<string>>, fs: seq<Facts>, f: Facts)
    requires Groups(m, fs, (ids: seq<string>) => ids)
    ensures var d := Domain(f);
      Groups(m[d := (if d in m then m[d] else []) + [f.serverId]], fs + [f], (ids: seq<string>) => ids)
  {
    forall d ensures Gather(Members(d), fs + [f]) ==
      Gather(Members(d), fs) + if Domain(f) == d then [f.serverId] else []
    {
      GatherNext(Members(d), fs, f);
    }
  }

  method Aggregate(all: seq<Option<Facts>>) returns (s: Summary)
    ensures Summarises(s, Present(all))
  {
    s := Summary(0, 0, 0, 0, 0, 0, 0, 0, 0, 0, map[], map[], map[], map[], map[]);
    ghost var fs: seq<Facts> := [];
    var i := 0;
    while i < |all|
      invariant 0 <= i <= |all|
      invariant fs == Present(all[..i])
      invariant Counts(s, fs) && Tallies(s, fs)
      invariant Groups(s.failureDomains, fs, (ids: seq<string>) => ids)
    {
      PresentNext(all, i);
      if all[i].Some? {
        var f := all[i].value;
        GroupsNext(s.failureDomains, fs, f);
        var d := Domain(f);
        var ids := (if d in s.failureDomains then s.failureDomains[d] else []) + [f.serverId];
        var r := AddServer(s, f, fs);
        s := r.(failureDomains := r.failureDomains[d := ids]);
        fs := fs + [f];
      }
      i := i + 1;
    }
    assert all[..i] == all;
    var domains := map d | d in s.failureDomains :: Sort(s.failureDomains[d]);
    ghost var before := s;
    s := s.(failureDomains := domains);
  }

  // ----- FindCapable

  predicate Capable(f: Facts, required: seq<string>) {
    forall r :: r in required ==> r in f.capabilities
  }

  /** The ids of the servers that hold every required capability. */
  function CapableIds(required: seq<string>): Facts -> seq<string> {
    (f: Facts) => if Capable(f, required) then [f.serverId] else []
  }

  method HoldsAll(f: Facts, required: seq<string>) returns (ok: bool)
    ensures ok == Capable(f, required)
  {
    var have := set c | c in f.capabilities;
    ok := true;
    for i := 0 to |required|
      invariant ok && forall k :: 0 <= k < i ==> required[k] in f.capabilities
    {
      if required[i] !in have {
        return false;
      }
    }
  }

  method FindCapable(all: seq<Option<Facts>>, required: seq<string>) returns (ids: seq<string>)
    ensures ids == Sort(Gather(CapableIds(required), Present(all)))
  {
    ids := [];
    ghost var fs: seq<Facts> := [];
    var i := 0;
    while i < |all|
      invariant 0 <= i <= |all|
      invariant fs == Present(all[..i])
      invariant ids == Gather(CapableIds(required), fs)
    {
      PresentNext(all, i);
      if all[i].Some? {
        var f := all[i].value;
        GatherNext(CapableIds(required), fs, f);
        fs := fs + [f];
        var ok := HoldsAll(f, required);
        if ok {
          ids := ids + [f.serverId];
        }
      }
      i := i + 1;
    }
    assert all[..i] == all;
    ids := Sort(ids);
  }
}
