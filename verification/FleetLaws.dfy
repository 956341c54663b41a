/** Laws of the fleet rollup: agreement with the capability query, independence of the
    order of the servers, and conservation. */
module FleetLaws {
  import opened Prelude
  import opened GoInt
  import opened Sorting
  import opened FactsMerge
  import opened FactsInfer
  import opened Counting
  import opened Fleet

  // ----- Gathered lists as sums

  lemma {:induction false} GatherCount<T>(g: Facts -> seq<T>, fs: seq<Facts>, x: T)
    ensures multiset(Gather(g, fs))[x] == Sum((f: Facts) => multiset(g(f))[x], fs)
  {
    if fs != [] {
      GatherCount(g, fs[..|fs| - 1], x);
    }
  }

  lemma {:induction false} GatherLength<T>(g: Facts -> seq<T>, fs: seq<Facts>)
    ensures |Gather(g, fs)| == Sum((f: Facts) => |g(f)|, fs)
  {
    if fs != [] {
      GatherLength(g, fs[..|fs| - 1]);
    }
  }

  lemma GatherPermutation<T(!new)>(g: Facts -> seq<T>, fs: seq<Facts>, gs: seq<Facts>)
    requires multiset(fs) == multiset(gs)
    ensures multiset(Gather(g, fs)) == multiset(Gather(g, gs))
  {
    forall x: T ensures multiset(Gather(g, fs))[x] == multiset(Gather(g, gs))[x] {
      GatherCount(g, fs, x);
      GatherCount(g, gs, x);
      SumPermutation((f: Facts) => multiset(g(f))[x], fs, gs);
    }
  }

  // ----- Order of the servers

  lemma TalliesPermutation<T(!new)>(g: Facts -> seq<T>, fs: seq<Facts>, gs: seq<Facts>)
    requires multiset(fs) == multiset(gs)
    ensures CountOn(map[], Gather(g, fs)) == CountOn(map[], Gather(g, gs))
  {
    GatherPermutation(g, fs, gs);
    CountOnPermutation(Gather(g, fs), Gather(g, gs));
  }

  lemma CountsPermutation(s: Summary, t: Summary, fs: seq<Facts>, gs: seq<Facts>)
    requires Counts(s, fs) && Counts(t, gs) && multiset(fs) == multiset(gs)
    ensures Counts(t, fs)
  {
    assert |multiset(fs)| == |multiset(gs)|;
    SumPermutation(IS_HEALTHY, fs, gs);
    SumPermutation(IS_DEGRADED, fs, gs);
    SumPermutation(IS_UNKNOWN, fs, gs);
    SumPermutation(IS_ON, fs, gs);
    SumPermutation(CORES, fs, gs);
    SumPermutation(THREADS, fs, gs);
    SumPermutation(MEMORY, fs, gs);
    SumPermutation(DISK_GB, fs, gs);
    SumPermutation(NIC_GBPS, fs, gs);
  }

  lemma GroupsPermutation(
      m: map<string, seq<string>>, n: map<string, seq<string>>, fs: seq<Facts>, gs: seq<Facts>)
    requires Groups(m, fs, Sort) && Groups(n, gs, Sort) && multiset(fs) == multiset(gs)
    ensures m == n
  {
    forall d ensures (d in m <==> d in n) && (d in m ==> m[d] == n[d]) {
      var a, b := Gather(Members(d), fs), Gather(Members(d), gs);
      GatherPermutation(Members(d), fs, gs);
      assert |multiset(a)| == |multiset(b)|;
      SortOfPermutation(a, b);
    }
    assert m.Keys == n.Keys;
  }

  /** The summary is the same whatever the order of the servers, the sorted ids of each
      failure domain included. */
  lemma OrderDoesNotMatter(s: Summary, t: Summary, fs: seq<Facts>, gs: seq<Facts>)
    requires Summarises(s, fs) && Summarises(t, gs) && multiset(fs) == multiset(gs)
    ensures s == t
  {
    CountsPermutation(s, t, fs, gs);
    TalliesPermutation(CAPABILITIES, fs, gs);
    TalliesPermutation(MODES, fs, gs);
    TalliesPermutation(PORT_SPEEDS, fs, gs);
    TalliesPermutation(MODEL, fs, gs);
    GroupsPermutation(s.failureDomains, t.failureDomains, fs, gs);
  }

  lemma QueryOrderDoesNotMatter(required: seq<string>, fs: seq<Facts>, gs: seq<Facts>)
    requires multiset(fs) == multiset(gs)
    ensures Answer(fs, required) == Answer(gs, required)
  {
    GatherPermutation(CapableIds(required), fs, gs);
    SortOfPermutation(Gather(CapableIds(required), fs), Gather(CapableIds(required), gs));
  }

  lemma {:induction false} InGathered<T>(g: Facts -> seq<T>, fs: seq<Facts>, x: T)
    ensures x in Gather(g, fs) <==> exists i :: 0 <= i < |fs| && x in g(fs[i])
  {
    if fs != [] {
      var n := |fs| - 1;
      InGathered(g, fs[..n], x);
      assert forall i :: 0 <= i < n ==> fs[..n][i] == fs[i];
    }
  }

  // ----- The query

  /** What FindCapable returns. */
  function Answer(fs: seq<Facts>, required: seq<string>): seq<string> {
    Sort(Gather(CapableIds(required), fs))
  }

  lemma AnswerCount(fs: seq<Facts>, required: seq<string>, id: string)
    ensures multiset(Answer(fs, required))[id] == multiset(Gather(CapableIds(required), fs))[id]
    ensures id in Answer(fs, required) <==> id in Gather(CapableIds(required), fs)
  {
    var ids := Gather(CapableIds(required), fs);
    SortSorts(ids);
    assert id in Sort(ids) <==> id in multiset(Sort(ids));
    assert id in ids <==> id in multiset(ids);
  }

  /** The query answers with exactly the ids of the servers that hold every required
      capability, in order. */
  lemma QueryAnswersExactly(fs: seq<Facts>, required: seq<string>, id: string)
    ensures id in Answer(fs, required) <==>
      exists i :: 0 <= i < |fs| && fs[i].serverId == id && forall r :: r in required ==> r in fs[i].capabilities
    ensures Sorted(Answer(fs, required))
  {
    AnswerCount(fs, required, id);
    SortSorts(Gather(CapableIds(required), fs));
    InGathered(CapableIds(required), fs, id);
  }

  /** And an id as often as such servers have it. */
  lemma QueryCountsExactly(fs: seq<Facts>, required: seq<string>, id: string)
    ensures multiset(Answer(fs, required))[id] ==
      |(set i | 0 <= i < |fs| && fs[i].serverId == id && forall r :: r in required ==> r in fs[i].capabilities)|
  {
    var g, p := CapableIds(required), (f: Facts) => f.serverId == id && Capable(f, required);
    AnswerCount(fs, required, id);
    forall f: Facts ensures multiset(g(f))[id] == OneIf(p(f)) {
    }
    GatheredPlaces(g, fs, id, p);
    assert Places(fs, p) ==
      set i | 0 <= i < |fs| && fs[i].serverId == id && forall r :: r in required ==> r in fs[i].capabilities;
  }

  ghost function Places(fs: seq<Facts>, p: Facts -> bool): set<int> {
    set i | 0 <= i < |fs| && p(fs[i])
  }

  lemma {:induction false} GatheredPlaces<T>(g: Facts -> seq<T>, fs: seq<Facts>, x: T, p: Facts -> bool)
    requires forall f :: multiset(g(f))[x] == OneIf(p(f))
    ensures multiset(Gather(g, fs))[x] == |Places(fs, p)|
  {
    if fs == [] {
      assert Places(fs, p) == {};
    } else {
      var n := |fs| - 1;
      GatheredPlaces(g, fs[..n], x, p);
      PlacesNext(fs, n, p);
      assert multiset(g(fs[n]))[x] == OneIf(p(fs[n]));
    }
  }

  lemma PlacesNext(fs: seq<Facts>, n: nat, p: Facts -> bool)
    requires |fs| == n + 1
    ensures |Places(fs, p)| == |Places(fs[..n], p)| + OneIf(p(fs[n]))
  {
    var front, last := Places(fs[..n], p), if p(fs[n]) then {n} else {};
    assert Places(fs, p) == front + last;
    assert front !! last;
  }

  /** What meets more requirements meets fewer: the answer to a and b together is part of
      the answer to each, however often an id stands in them; and without requirements
      every server answers. */
  lemma MoreRequirementsFewerAnswers(fs: seq<Facts>, a: seq<string>, b: seq<string>)
    ensures multiset(Answer(fs, a + b)) <= multiset(Answer(fs, a))
    ensures multiset(Answer(fs, a + b)) <= multiset(Answer(fs, b))
    ensures multiset(Answer(fs, [])) == multiset(Map((f: Facts) => f.serverId, fs))
  {
    forall id ensures multiset(Answer(fs, a + b))[id] <= multiset(Answer(fs, a))[id]
      ensures multiset(Answer(fs, a + b))[id] <= multiset(Answer(fs, b))[id]
    {
      FewerPlaces(fs, a + b, a, id);
      FewerPlaces(fs, a + b, b, id);
    }
    SortSorts(Gather(CapableIds([]), fs));
    GatherIds(fs);
  }

  lemma FewerPlaces(fs: seq<Facts>, more: seq<string>, fewer: seq<string>, id: string)
    requires forall r :: r in fewer ==> r in more
    ensures multiset(Answer(fs, more))[id] <= multiset(Answer(fs, fewer))[id]
  {
    QueryCountsExactly(fs, more, id);
    QueryCountsExactly(fs, fewer, id);
    var few := set i | 0 <= i < |fs| && fs[i].serverId == id && forall r :: r in fewer ==> r in fs[i].capabilities;
    var many := set i | 0 <= i < |fs| && fs[i].serverId == id && forall r :: r in more ==> r in fs[i].capabilities;
    assert few == many + (few - many);
  }

  lemma {:induction false} GatherIds(fs: seq<Facts>)
    ensures Gather(CapableIds([]), fs) == Map((f: Facts) => f.serverId, fs)
  {
    var ids := (f: Facts) => f.serverId;
    if fs != [] {
      var n := |fs| - 1;
      GatherIds(fs[..n]);
      assert Map(ids, fs) == Map(ids, fs[..n]) + [fs[n].serverId];
    }
  }

  // ----- Rollup and query

  /** The number of servers FindCapable returns for one capability. */
  ghost function Holders(fs: seq<Facts>, c: string): nat {
    |Answer(fs, [c])|
  }

  /** A capability's count is never below the number of servers the query finds, and
      equals it if and only if no server lists the capability twice. */
  lemma CountsAgreeExactly(s: Summary, fs: seq<Facts>, c: string)
    requires Summarises(s, fs)
    ensures Holders(fs, c) <= Count(s.capabilityCounts, c)
    ensures Holders(fs, c) == Count(s.capabilityCounts, c) <==>
      forall i :: 0 <= i < |fs| ==> multiset(fs[i].capabilities)[c] <= 1
  {
    var once := (f: Facts) => |CapableIds([c])(f)|;
    var times := (f: Facts) => multiset(CAPABILITIES(f))[c];
    CountOnIsMultiset(Gather(CAPABILITIES, fs), c);
    GatherCount(CAPABILITIES, fs, c);
    GatherLength(CapableIds([c]), fs);
    SortSorts(Gather(CapableIds([c]), fs));
    forall i | 0 <= i < |fs|
      ensures once(fs[i]) == OneIf(multiset(fs[i].capabilities)[c] >= 1)
    {
      assert c in fs[i].capabilities <==> c in multiset(fs[i].capabilities);
      assert Capable(fs[i], [c]) <==> c in fs[i].capabilities by {
        assert [c][0] == c;
      }
    }
    SumBelow(once, times, fs);
  }

  ghost predicate AgreeOn(s: Summary, fs: seq<Facts>, c: string) {
    Holders(fs, c) == Count(s.capabilityCounts, c)
  }

  ghost predicate AtMostOnce(fs: seq<Facts>, c: string) {
    forall i :: 0 <= i < |fs| ==> multiset(fs[i].capabilities)[c] <= 1
  }

  lemma DistinctEverywhere(fs: seq<Facts>)
    ensures (forall c :: AtMostOnce(fs, c)) <==>
      forall i :: 0 <= i < |fs| ==> Distinct(fs[i].capabilities)
  {
    forall i | 0 <= i < |fs|
      ensures Distinct(fs[i].capabilities) <==> forall c :: multiset(fs[i].capabilities)[c] <= 1
    {
      DistinctCounts(fs[i].capabilities);
    }
    if forall c :: AtMostOnce(fs, c) {
      forall i, c | 0 <= i < |fs| ensures multiset(fs[i].capabilities)[c] <= 1 {
        assert AtMostOnce(fs, c);
      }
    }
  }

  /** Rollup and query agree on every capability if and only if every server's list is
      free of duplicates, as every list InferCapabilities makes is. */
  lemma AgreeOnAllExactly(s: Summary, fs: seq<Facts>)
    requires Summarises(s, fs)
    ensures (forall c :: AgreeOn(s, fs, c)) <==>
      forall i :: 0 <= i < |fs| ==> Distinct(fs[i].capabilities)
  {
    forall c ensures AgreeOn(s, fs, c) <==> AtMostOnce(fs, c) {
      CountsAgreeExactly(s, fs, c);
    }
    DistinctEverywhere(fs);
  }

  lemma InferredListsAreDistinct(f: Facts, id: string, now: int)
    ensures Distinct(Finish(f, id, now).capabilities)
  {
    InferIsSortedUnion(f.(serverId := id, observedAt := now));
  }

  /** One server that lists a capability twice is counted twice and found once. */
  lemma CountsCanDiffer(s: Summary, f: Facts)
    requires f.capabilities == ["rdma", "rdma"] && Tallies(s, [f])
    ensures Count(s.capabilityCounts, "rdma") == 2 && Holders([f], "rdma") == 1
  {
    GatherOne(CAPABILITIES, f);
    GatherOne(CapableIds(["rdma"]), f);
    CountOnIsMultiset(f.capabilities, "rdma");
    assert Capable(f, ["rdma"]);
    SortSorts([f.serverId]);
  }

  lemma GatherOne<T>(g: Facts -> seq<T>, f: Facts)
    ensures Gather(g, [f]) == g(f)
  {
    assert [f] == [] + [f];
    GatherNext(g, [], f);
  }

  /** Facts that BuildServerFacts returns. */
  ghost predicate Built(f: Facts) {
    exists merged: Facts, id: string, now: int :: f == Finish(merged, id, now)
  }

  /** Over any fleet of built facts rollup and query agree on every capability. */
  lemma BuiltFleetAgrees(s: Summary, fs: seq<Facts>, c: string)
    requires Summarises(s, fs) && forall i :: 0 <= i < |fs| ==> Built(fs[i])
    ensures Holders(fs, c) == Count(s.capabilityCounts, c)
  {
    forall i | 0 <= i < |fs| ensures Distinct(fs[i].capabilities) {
      var merged: Facts, id: string, now: int :| fs[i] == Finish(merged, id, now);
      InferredListsAreDistinct(merged, id, now);
    }
    AgreeOnAllExactly(s, fs);
    assert AgreeOn(s, fs, c);
  }

  // ----- Conservation

  lemma HealthIsConserved(s: Summary, fs: seq<Facts>)
    requires Counts(s, fs)
    ensures s.healthy + s.degraded + s.unknown == s.servers
  {
    HealthSums(fs);
  }

  lemma {:induction false} HealthSums(fs: seq<Facts>)
    ensures Sum(IS_HEALTHY, fs) + Sum(IS_DEGRADED, fs) + Sum(IS_UNKNOWN, fs) == |fs|
  {
    if fs != [] {
      HealthSums(fs[..|fs| - 1]);
    }
  }

  const LENGTH := (d: string, ids: seq<string>) => |ids|

  /** The groups as they were before the last server. */
  ghost function Ungroup(m: map<string, seq<string>>, d: string, before: seq<string>,
                         arrange: seq<string> -> seq<string>): map<string, seq<string>> {
    if before == [] then m - {d} else m[d := arrange(before)]
  }

  lemma UngroupGroups(
      m: map<string, seq<string>>, fs: seq<Facts>, f: Facts, arrange: seq<string> -> seq<string>)
    requires Groups(m, fs + [f], arrange)
    ensures Groups(Ungroup(m, Domain(f), Gather(Members(Domain(f)), fs), arrange), fs, arrange)
    ensures var d := Domain(f);
      d in m && m[d] == arrange(Gather(Members(d), fs) + [f.serverId])
  {
    var d := Domain(f);
    var m' := Ungroup(m, d, Gather(Members(d), fs), arrange);
    MembersNext(fs, f, d);
    forall e
      ensures e in m' <==> Gather(Members(e), fs) != []
      ensures e in m' ==> m'[e] == arrange(Gather(Members(e), fs))
    {
      UngroupAt(m, fs, f, arrange, e, Gather(Members(d), fs));
    }
  }

  lemma UngroupAt(m: map<string, seq<string>>, fs: seq<Facts>, f: Facts, arrange: seq<string> -> seq<string>,
                  e: string, before: seq<string>)
    requires Groups(m, fs + [f], arrange) && before == Gather(Members(Domain(f)), fs)
    ensures var m' := Ungroup(m, Domain(f), before, arrange);
      (e in m' <==> Gather(Members(e), fs) != []) && (e in m' ==> m'[e] == arrange(Gather(Members(e), fs)))
  {
    MembersNext(fs, f, e);
  }

  lemma MembersNext(fs: seq<Facts>, f: Facts, d: string)
    ensures Gather(Members(d), fs + [f]) ==
      if d == Domain(f) then Gather(Members(d), fs) + [f.serverId] else Gather(Members(d), fs)
  {
    GatherNext(Members(d), fs, f);
  }

  /** The domains' id lists add up to the number of servers. */
  lemma {:induction false} DomainsAreConserved(
      m: map<string, seq<string>>, fs: seq<Facts>, arrange: seq<string> -> seq<string>)
    requires Groups(m, fs, arrange) && forall ids :: |arrange(ids)| == |ids|
    ensures MapSum(LENGTH, m) == |fs|
  {
    if fs == [] {
      assert forall d :: Gather(Members(d), fs) == [];
      assert m.Keys == {};
      assert m == map[];
    } else {
      var front, f := fs[..|fs| - 1], fs[|fs| - 1];
      assert fs == front + [f];
      UngroupGroups(m, front, f, arrange);
      var d, before := Domain(f), Gather(Members(Domain(f)), front);
      var m' := Ungroup(m, d, before, arrange);
      DomainsAreConserved(m', front, arrange);
      UngroupSum(m, d, before, arrange);
    }
  }

  lemma UngroupSum(m: map<string, seq<string>>, d: string, before: seq<string>, arrange: seq<string> -> seq<string>)
    requires d in m && |m[d]| == |before| + 1 && |arrange(before)| == |before|
    ensures MapSum(LENGTH, m) == MapSum(LENGTH, Ungroup(m, d, before, arrange)) + 1
  {
    var m' := Ungroup(m, d, before, arrange);
    MapSumUpdate(LENGTH, m', d, m[d]);
    assert m == m'[d := m[d]];
  }

  lemma ServersAreConserved(s: Summary, fs: seq<Facts>)
    requires Summarises(s, fs)
    ensures s.healthy + s.degraded + s.unknown == s.servers == MapSum(LENGTH, s.failureDomains)
  {
    HealthIsConserved(s, fs);
    forall ids ensures |Sort(ids)| == |ids| {
      SortSorts(ids);
    }
    DomainsAreConserved(s.failureDomains, fs, Sort);
  }

  const PRODUCT := (speed: int, ports: int) => speed * ports
  const SELF := (v: int) => v

  lemma {:induction false} CountedSum(xs: seq<int>)
    ensures MapSum(PRODUCT, CountOn(map[], xs)) == Sum(SELF, xs)
  {
    if xs != [] {
      var n := |xs| - 1;
      var c, x := CountOn(map[], xs[..n]), xs[n];
      CountedSum(xs[..n]);
      MapSumUpdate(PRODUCT, c, x, Count(c, x) + 1);
      OneMore(x, Count(c, x));
    }
  }

  lemma OneMore(x: int, k: int)
    ensures x * (k + 1) == x * k + x
  {
  }

  lemma {:induction false} PositiveSpeeds(nics: seq<NicFacts>)
    ensures var all := Sum(SPEED, nics);
      && all <= Sum(SELF, Speeds(nics))
      && (all == Sum(SELF, Speeds(nics)) <==> forall i :: 0 <= i < |nics| ==> nics[i].speedGbps >= 0)
  {
    if nics != [] {
      var n := |nics| - 1;
      PositiveSpeeds(nics[..n]);
      SpeedsNext(nics, n);
      assert nics[..n + 1] == nics;
      assert forall i :: 0 <= i < n ==> nics[..n][i] == nics[i];
      if nics[n].speedGbps > 0 {
        SumAppend(SELF, Speeds(nics[..n]), nics[n].speedGbps);
      }
    }
  }

  lemma {:induction false} GatherSum(g: Facts -> seq<int>, fs: seq<Facts>)
    ensures Sum(SELF, Gather(g, fs)) == Sum((f: Facts) => Sum(SELF, g(f)), fs)
  {
    if fs != [] {
      var n := |fs| - 1;
      GatherSum(g, fs[..n]);
      SumSplit(SELF, Gather(g, fs[..n]), g(fs[n]));
    }
  }

  ghost predicate NonNegativeSpeeds(f: Facts) {
    forall i :: 0 <= i < |f.nics| ==> f.nics[i].speedGbps >= 0
  }

  /** Ports times speed, added up over all speeds, is at least the sum of all speeds, and
      equal to it if and only if no port reports a negative speed. */
  lemma PortsAddUp(s: Summary, fs: seq<Facts>)
    requires Summarises(s, fs)
    ensures Sum(NIC_GBPS, fs) <= MapSum(PRODUCT, s.nicSpeedPorts)
    ensures Sum(NIC_GBPS, fs) == MapSum(PRODUCT, s.nicSpeedPorts) <==>
      forall i :: 0 <= i < |fs| ==> NonNegativeSpeeds(fs[i])
  {
    var positive := (f: Facts) => Sum(SELF, PORT_SPEEDS(f));
    CountedSum(Gather(PORT_SPEEDS, fs));
    GatherSum(PORT_SPEEDS, fs);
    forall i | 0 <= i < |fs|
      ensures NIC_GBPS(fs[i]) <= positive(fs[i])
      ensures NIC_GBPS(fs[i]) == positive(fs[i]) <==> NonNegativeSpeeds(fs[i])
    {
      PositiveSpeeds(fs[i].nics);
    }
    SumBelow(NIC_GBPS, positive, fs);
  }

  /** With non-negative speeds ports times speed add up to the total bandwidth, in Go's
      int; and while the total does not wrap they do so if and only if no port reports a
      negative speed, and are more otherwise. */
  lemma BandwidthIsConservedExactly(s: Summary, fs: seq<Facts>)
    requires Summarises(s, fs)
    ensures (forall i :: 0 <= i < |fs| ==> NonNegativeSpeeds(fs[i])) ==>
      s.totalNicGbps == Wrap64(MapSum(PRODUCT, s.nicSpeedPorts))
    ensures IsInt(Sum(NIC_GBPS, fs)) ==>
      && s.totalNicGbps <= MapSum(PRODUCT, s.nicSpeedPorts)
      && (s.totalNicGbps == MapSum(PRODUCT, s.nicSpeedPorts) <==>
           forall i :: 0 <= i < |fs| ==> NonNegativeSpeeds(fs[i]))
  {
    PortsAddUp(s, fs);
    WrapsExactly(Sum(NIC_GBPS, fs));
  }

  /** A port with a negative speed is in the total and not among the ports. */
  lemma BandwidthCanDiffer(s: Summary, f: Facts)
    requires |f.nics| == 1 && f.nics[0].speedGbps == -1 && Counts(s, [f]) && Tallies(s, [f])
    ensures s.totalNicGbps == -1 && MapSum(PRODUCT, s.nicSpeedPorts) == 0
  {
    OneSlowPort(f.nics);
    GatherOne(PORT_SPEEDS, f);
    SumOne(NIC_GBPS, f);
    WrapsExactly(-1);
    assert s.nicSpeedPorts == map[];
  }

  lemma OneSlowPort(nics: seq<NicFacts>)
    requires |nics| == 1 && nics[0].speedGbps == -1
    ensures Sum(SPEED, nics) == -1 && Speeds(nics) == []
  {
    assert nics == [nics[0]];
    SumOne(SPEED, nics[0]);
    SpeedsNext(nics, 0);
    assert nics[..1] == nics && nics[..0] == [];
  }

  lemma SumOne<T>(f: T -> int, x: T)
    ensures Sum(f, [x]) == f(x)
  {
    SumAppend(f, [], x);
    assert [] + [x] == [x];
  }
}
