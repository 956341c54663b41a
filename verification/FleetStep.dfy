/** What each server adds to the summary, word for word: with the summary of no servers it
    determines every field, whatever the fleet. */
module FleetStep {
  import opened Prelude
  import opened GoInt
  import opened Sorting
  import opened FactsMerge
  import opened Counting
  import opened Fleet
  import opened FleetLaws

  /** The summary of no servers. */
  lemma NoServers(s: Summary)
    requires Summarises(s, [])
    ensures s == Summary(0, 0, 0, 0, 0, 0, 0, 0, 0, 0, map[], map[], map[], map[], map[])
  {
    WrapsExactly(0);
    assert s.failureDomains.Keys == {};
    assert s.failureDomains == map[];
  }

  /** The counters with one more server. */
  lemma CountersNext(s: Summary, t: Summary, fs: seq<Facts>, f: Facts)
    requires Counts(s, fs) && Counts(t, fs + [f])
    ensures t.servers == s.servers + 1
    ensures t.healthy == s.healthy + (if f.health == "healthy" then 1 else 0)
    ensures t.degraded == s.degraded + (if f.health == "degraded" then 1 else 0)
    ensures t.unknown == s.unknown + (if f.health !in {"healthy", "degraded"} then 1 else 0)
    ensures t.poweredOn == s.poweredOn + (if f.powerState == "on" then 1 else 0)
  {
    SumAppend(IS_HEALTHY, fs, f);
    SumAppend(IS_DEGRADED, fs, f);
    SumAppend(IS_UNKNOWN, fs, f);
    SumAppend(IS_ON, fs, f);
  }

  /** The totals with one more server, in Go's int. */
  lemma TotalsNext(s: Summary, t: Summary, fs: seq<Facts>, f: Facts)
    requires Totals(s, fs, Wrap64) && Totals(t, fs + [f], Wrap64)
    ensures t.totalCores == Wrap64(s.totalCores + f.cpu.cores)
    ensures t.totalThreads == Wrap64(s.totalThreads + f.cpu.threads)
    ensures t.totalMemoryGB == Wrap64(s.totalMemoryGB + f.memoryGB)
    ensures t.totalDiskGB == Wrap64(s.totalDiskGB + Sum((d: DiskFacts) => d.sizeGB, f.disks))
    ensures t.totalNicGbps == Wrap64(s.totalNicGbps + Sum((n: NicFacts) => n.speedGbps, f.nics))
  {
    SumsNext(fs, f);
    TotalNext(CORES, fs, f, f.cpu.cores, s.totalCores, t.totalCores, Wrap64);
    TotalNext(THREADS, fs, f, f.cpu.threads, s.totalThreads, t.totalThreads, Wrap64);
    TotalNext(MEMORY, fs, f, f.memoryGB, s.totalMemoryGB, t.totalMemoryGB, Wrap64);
    TotalNext(DISK_GB, fs, f, Sum(SIZE, f.disks), s.totalDiskGB, t.totalDiskGB, Wrap64);
    TotalNext(NIC_GBPS, fs, f, Sum(SPEED, f.nics), s.totalNicGbps, t.totalNicGbps, Wrap64);
    SumBelow(SIZE, (d: DiskFacts) => d.sizeGB, f.disks);
    SumBelow(SPEED, (n: NicFacts) => n.speedGbps, f.nics);
  }

  lemma TotalNext(
      g: Facts -> int, fs: seq<Facts>, f: Facts, amount: int, was: int, now: int, wrap: int -> int)
    requires Wraps(wrap) && was == wrap(Sum(g, fs)) && now == wrap(Sum(g, fs + [f]))
    requires Sum(g, fs + [f]) == Sum(g, fs) + amount
    ensures now == wrap(was + amount)
  {
    var total := Sum(g, fs);
    WrapAdds(total, amount);
    assert wrap(total) == Wrap64(total) && wrap(total + amount) == Wrap64(total + amount);
    assert wrap(was + amount) == Wrap64(was + amount);
  }

  /** The counters n are the counters m once each of xs is counted, one by one. */
  ghost predicate Counted<T(!new)>(m: map<T, int>, n: map<T, int>, xs: seq<T>) {
    forall x :: Count(n, x) == Count(m, x) + multiset(xs)[x] && (x in n <==> x in m || x in xs)
  }

  lemma CountedNext<T(!new)>(g: Facts -> seq<T>, fs: seq<Facts>, f: Facts)
    ensures Counted(CountOn(map[], Gather(g, fs)), CountOn(map[], Gather(g, fs + [f])), g(f))
  {
    GatherNext(g, fs, f);
    CountedOn(Gather(g, fs), g(f));
  }

  lemma CountedOn<T(!new)>(xs: seq<T>, ys: seq<T>)
    ensures Counted(CountOn(map[], xs), CountOn(map[], xs + ys), ys)
  {
    var m, n := CountOn(map[], xs), CountOn(map[], xs + ys);
    forall x: T ensures Count(n, x) == Count(m, x) + multiset(ys)[x] && (x in n <==> x in m || x in ys) {
      CountOnIsMultiset(xs, x);
      CountOnIsMultiset(xs + ys, x);
    }
  }

  lemma {:induction false} SpeedCount(nics: seq<NicFacts>, v: int)
    ensures multiset(Speeds(nics))[v] ==
      if v > 0 then multiset(Map((p: NicFacts) => p.speedGbps, nics))[v] else 0
    ensures v in Speeds(nics) <==> v > 0 && exists i :: 0 <= i < |nics| && nics[i].speedGbps == v
  {
    var speed := (p: NicFacts) => p.speedGbps;
    if nics != [] {
      var n := |nics| - 1;
      SpeedCount(nics[..n], v);
      assert Map(speed, nics) == Map(speed, nics[..n]) + [nics[n].speedGbps];
      assert forall i :: 0 <= i < n ==> nics[..n][i] == nics[i];
    }
  }

  /** The tallies with one more server: each capability, mode, model and positive port speed
      once for each time the server has it. */
  lemma TalliesNext(s: Summary, t: Summary, fs: seq<Facts>, f: Facts)
    requires Tallies(s, fs) && Tallies(t, fs + [f])
    ensures Counted(s.capabilityCounts, t.capabilityCounts, f.capabilities)
    ensures Counted(s.networkModeCounts, t.networkModeCounts, f.networkModes)
    ensures Counted(s.cpuModels, t.cpuModels, if f.cpu.model == "" then [] else [f.cpu.model])
    ensures PortsCounted(s.nicSpeedPorts, t.nicSpeedPorts, f.nics)
  {
    CountedNext(CAPABILITIES, fs, f);
    CountedNext(MODES, fs, f);
    CountedNext(MODEL, fs, f);
    CountedNext(PORT_SPEEDS, fs, f);
    SpeedsCounted(s.nicSpeedPorts, t.nicSpeedPorts, f.nics);
  }

  /** The counters n are the counters m once each positive port speed is counted. */
  ghost predicate PortsCounted(m: map<int, int>, n: map<int, int>, nics: seq<NicFacts>) {
    forall v ::
      && Count(n, v) == Count(m, v) + (if v > 0 then multiset(Map((p: NicFacts) => p.speedGbps, nics))[v] else 0)
      && (v in n <==> v in m || (v > 0 && exists i :: 0 <= i < |nics| && nics[i].speedGbps == v))
  }

  lemma SpeedsCounted(m: map<int, int>, n: map<int, int>, nics: seq<NicFacts>)
    requires Counted(m, n, Speeds(nics))
    ensures PortsCounted(m, n, nics)
  {
    forall v
      ensures Count(n, v) == Count(m, v)
        + (if v > 0 then multiset(Map((p: NicFacts) => p.speedGbps, nics))[v] else 0)
      ensures v in n <==> v in m || (v > 0 && exists i :: 0 <= i < |nics| && nics[i].speedGbps == v)
    {
      SpeedCount(nics, v);
    }
  }

  /** The failure domains with one more server: its own holds one more id, in order; the
      others are as they were. */
  lemma DomainsNext(s: Summary, t: Summary, fs: seq<Facts>, f: Facts)
    requires Groups(s.failureDomains, fs, Sort) && Groups(t.failureDomains, fs + [f], Sort)
    ensures var d := if f.failureDomain == "" then "unassigned" else f.failureDomain;
      && t.failureDomains.Keys == s.failureDomains.Keys + {d}
      && (forall e :: e in s.failureDomains && e != d ==> t.failureDomains[e] == s.failureDomains[e])
      && Sorted(t.failureDomains[d])
      && multiset(t.failureDomains[d]) == multiset{f.serverId}
           + multiset(if d in s.failureDomains then s.failureDomains[d] else [])
  {
    var d := Domain(f);
    forall e
      ensures e in t.failureDomains <==> e in s.failureDomains || e == d
      ensures e in s.failureDomains && e != d ==> t.failureDomains[e] == s.failureDomains[e]
    {
      DomainNext(s.failureDomains, t.failureDomains, fs, f, e);
    }
    DomainNext(s.failureDomains, t.failureDomains, fs, f, d);
  }

  lemma DomainNext(
      m: map<string, seq<string>>, n: map<string, seq<string>>, fs: seq<Facts>, f: Facts, d: string)
    requires Groups(m, fs, Sort) && Groups(n, fs + [f], Sort)
    ensures d in n <==> d in m || d == Domain(f)
    ensures d in m && d != Domain(f) ==> n[d] == m[d]
    ensures d == Domain(f) ==> Sorted(n[d])
    ensures d == Domain(f) ==> multiset(n[d]) == multiset{f.serverId} + multiset(if d in m then m[d] else [])
  {
    var was := Gather(Members(d), fs);
    MembersNext(fs, f, d);
    SortAdds(was, f.serverId);
    assert d in m <==> was != [];
  }

  lemma SortAdds(ids: seq<string>, id: string)
    ensures Sorted(Sort(ids + [id])) && multiset(Sort(ids + [id])) == multiset{id} + multiset(Sort(ids))
    ensures ids == [] ==> Sort(ids) == []
  {
    SortSorts(ids);
    SortSorts(ids + [id]);
  }
}
