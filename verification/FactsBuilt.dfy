/** What a built record holds, word for word: the capabilities a server ends up with, how
    they are spelled, and what its health says. */
module FactsBuilt {
  import opened Prelude
  import opened Sorting
  import opened FactsMerge
  import opened FactsLaws
  import opened FactsInfer

  // ----- Case

  /** Every letter of s is one of the letters the spelling allows at its place. */
  ghost predicate Spelled(s: string, spelling: seq<set<char>>) {
    |s| == |spelling| && forall i :: 0 <= i < |s| ==> s[i] in spelling[i]
  }

  const NVME := [{'n', 'N'}, {'v', 'V'}, {'m', 'M'}, {'e', 'E'}]
  const ON := [{'o', 'O'}, {'n', 'N'}]
  const FAILED := [{'f', 'F'}, {'a', 'A'}, {'i', 'I'}, {'l', 'L'}, {'e', 'E'}, {'d', 'D'}]
  const ERROR := [{'e', 'E'}, {'r', 'R'}, {'r', 'R'}, {'o', 'O'}, {'r', 'R'}]
  const RDMA := [{'r', 'R'}, {'d', 'D'}, {'m', 'M'}, {'a', 'A'}]
  const SRIOV := [{'s', 'S'}, {'r', 'R'}, {'i', 'I', '\U{0130}'}, {'o', 'O'}, {'v', 'V'}]
  const SR_IOV := [{'s', 'S'}, {'r', 'R'}, {'-'}, {'i', 'I', '\U{0130}'}, {'o', 'O'}, {'v', 'V'}]

  /** The four words the inference compares with whatever their case. */
  lemma FoldsExactly(s: string)
    ensures EqualFold(s, "nvme") <==> Spelled(s, NVME)
    ensures EqualFold(s, "on") <==> Spelled(s, ON)
    ensures EqualFold(s, "failed") <==> Spelled(s, FAILED)
    ensures EqualFold(s, "error") <==> Spelled(s, ERROR)
  {
  }

  /** Which features give which capability; the dotted capital I lowers to an i. */
  lemma FeatureExactly(s: string)
    ensures FeatureCapability(s) == "sriov" <==> Spelled(s, SRIOV) || Spelled(s, SR_IOV)
    ensures FeatureCapability(s) == "rdma" <==> Spelled(s, RDMA)
    ensures FeatureCapability(s) in {"sriov", "rdma", ""}
  {
    LowersExactly(s);
  }

  lemma LowersExactly(s: string)
    ensures ToLower(s) == "sriov" <==> Spelled(s, SRIOV)
    ensures ToLower(s) == "sr-iov" <==> Spelled(s, SR_IOV)
    ensures ToLower(s) == "rdma" <==> Spelled(s, RDMA)
  {
    LowersTo(s, "sriov", SRIOV);
    LowersTo(s, "sr-iov", SR_IOV);
    LowersTo(s, "rdma", RDMA);
  }

  lemma LowersTo(s: string, word: string, spelling: seq<set<char>>)
    requires |word| == |spelling|
    requires forall i, c :: 0 <= i < |word| ==> (LowerChar(c) == word[i] <==> c in spelling[i])
    ensures ToLower(s) == word <==> Spelled(s, spelling)
  {
    assert forall i :: 0 <= i < |s| ==> ToLower(s)[i] == LowerChar(s[i]);
  }

  // ----- What follows from the other facts

  /** One of the feature names of a NIC gives the capability c. */
  ghost predicate Offers(n: NicFacts, spellings: set<seq<set<char>>>) {
    exists i, w :: 0 <= i < |n.features| && w in spellings && Spelled(n.features[i], w)
  }

  /** Each capability that is inferred, with exactly what it is inferred from. */
  lemma InferredExactly(f: Facts, c: string)
    requires c != ""
    ensures c in Inferred(f) <==>
      || (c == "local_nvme" && exists i :: 0 <= i < |f.disks| && Spelled(f.disks[i].typ, NVME))
      || (c == "high_bandwidth_networking" && exists i :: 0 <= i < |f.nics| && f.nics[i].speedGbps >= 25)
      || (c == "sriov" && exists i :: 0 <= i < |f.nics| && Offers(f.nics[i], {SRIOV, SR_IOV}))
      || (c == "rdma" && exists i :: 0 <= i < |f.nics| && Offers(f.nics[i], {RDMA}))
      || (c == "power_control" && f.powerState != "")
  {
    InNics(f.nics, c);
    forall i | 0 <= i < |f.nics|
      ensures c in NicCapabilities(f.nics[i]) <==>
        || (c == "high_bandwidth_networking" && f.nics[i].speedGbps >= 25)
        || (c == "sriov" && Offers(f.nics[i], {SRIOV, SR_IOV}))
        || (c == "rdma" && Offers(f.nics[i], {RDMA}))
    {
      NicExactly(f.nics[i], c);
    }
    forall d: DiskFacts ensures IsNvme(d) <==> Spelled(d.typ, NVME) {
      FoldsExactly(d.typ);
    }
  }

  lemma {:induction false} InNics(nics: seq<NicFacts>, c: string)
    ensures c in NicsCapabilities(nics) <==> exists i :: 0 <= i < |nics| && c in NicCapabilities(nics[i])
  {
    if nics != [] {
      var n := |nics| - 1;
      InNics(nics[..n], c);
      assert forall i :: 0 <= i < n ==> nics[..n][i] == nics[i];
    }
  }

  lemma NicExactly(n: NicFacts, c: string)
    requires c != ""
    ensures c in NicCapabilities(n) <==>
      || (c == "high_bandwidth_networking" && n.speedGbps >= 25)
      || (c == "sriov" && Offers(n, {SRIOV, SR_IOV}))
      || (c == "rdma" && Offers(n, {RDMA}))
  {
    var fs := FeatureCapabilities(n.features);
    assert c in fs <==> exists i :: 0 <= i < |n.features| && FeatureCapability(n.features[i]) == c by {
      assert c in fs <==> exists i :: 0 <= i < |fs| && fs[i] == c;
    }
    forall s: string ensures FeatureCapability(s) == c <==>
      || (c == "sriov" && (Spelled(s, SRIOV) || Spelled(s, SR_IOV))) || (c == "rdma" && Spelled(s, RDMA))
    {
      FeatureExactly(s);
    }
    assert Offers(n, {RDMA}) <==> exists i :: 0 <= i < |n.features| && Spelled(n.features[i], RDMA);
  }

  // ----- The finished record

  ghost predicate HasHardware(f: Facts) {
    f.cpu.cores > 0 || f.memoryGB > 0 || f.disks != [] || f.nics != []
  }

  /** What health says of merged facts. */
  ghost predicate HealthSays(f: Facts, health: string) {
    && (health == "unknown" <==> !HasHardware(f) && f.powerState == "" && f.provisioning == "")
    && (health == "healthy" <==>
         && HasHardware(f) && (f.powerState == "" || Spelled(f.powerState, ON))
         && !Spelled(f.provisioning, FAILED) && !Spelled(f.provisioning, ERROR))
    && health in {"healthy", "degraded", "unknown"}
  }

  lemma FinishedHealth(m: Facts, id: string, now: int)
    ensures HealthSays(m, Finish(m, id, now).health)
  {
    var n := m.(serverId := id, observedAt := now);
    HealthExactly(n.(capabilities := Infer(n)));
    FoldsExactly(m.powerState);
    FoldsExactly(m.provisioning);
  }

  /** The record built from any list of collectors, in full: under the id and time given,
      with each capability that some collector reported or that follows from the merged
      facts, once and in order; with each network mode some collector reported; with the
      health the merged facts call for; and otherwise as merged. */
  lemma BuiltExactly(id: string, fs: seq<Facts>, now: int, c: string)
    requires c != ""
    ensures var m := MergeAll(Empty(id), fs);
      var r := Finish(m, id, now);
      && r == m.(serverId := id, observedAt := now, capabilities := r.capabilities, health := r.health)
      && (c in r.capabilities <==>
           (exists i :: 0 <= i < |fs| && c in fs[i].capabilities) || c in Inferred(m))
      && (c in r.networkModes <==> exists i :: 0 <= i < |fs| && c in fs[i].networkModes)
      && Increasing(r.capabilities) && "" !in r.capabilities
      && HealthSays(m, r.health)
  {
    var m := MergeAll(Empty(id), fs);
    var n := m.(serverId := id, observedAt := now);
    MergedListsExactly(Empty(id), fs, c);
    InferIsSortedUnion(n);
    FinishedHealth(m, id, now);
  }

  lemma FirstOfReports<T(!new)>(get: Facts -> T, zero: T, id: string, fs: seq<Facts>)
    requires FillsGaps(get, zero) && get(Empty(id)) == zero
    ensures get(MergeAll(Empty(id), fs)) == FirstSet(zero, Map(get, fs))
  {
    FirstReportWins(get, zero, Empty(id), fs);
    assert ([zero] + Map(get, fs))[1..] == Map(get, fs);
  }

  /** Every other field is the first value that was reported for it. */
  lemma BuiltFirstReports(id: string, fs: seq<Facts>, now: int)
    ensures var r := Finish(MergeAll(Empty(id), fs), id, now);
      && r.powerState == FirstSet("", Map((f: Facts) => f.powerState, fs))
      && r.provisioning == FirstSet("", Map((f: Facts) => f.provisioning, fs))
      && r.memoryGB == FirstSet(0, Map((f: Facts) => f.memoryGB, fs))
      && r.disks == FirstSet([], Map((f: Facts) => f.disks, fs))
      && r.nics == FirstSet([], Map((f: Facts) => f.nics, fs))
      && r.failureDomain == FirstSet("", Map((f: Facts) => f.failureDomain, fs))
  {
    FieldsFillGaps();
    FirstOfReports((f: Facts) => f.powerState, "", id, fs);
    FirstOfReports((f: Facts) => f.provisioning, "", id, fs);
    FirstOfReports((f: Facts) => f.memoryGB, 0, id, fs);
    FirstOfReports((f: Facts) => f.disks, [], id, fs);
    FirstOfReports((f: Facts) => f.nics, [], id, fs);
    FirstOfReports((f: Facts) => f.failureDomain, "", id, fs);
  }

  /** And so is each part of what is said of the CPU, and what is kept under each raw key. */
  lemma BuiltFirstCpu(id: string, fs: seq<Facts>, now: int, k: string)
    ensures var r := Finish(MergeAll(Empty(id), fs), id, now);
      && r.cpu.vendor == FirstSet("", Map((f: Facts) => f.cpu.vendor, fs))
      && r.cpu.model == FirstSet("", Map((f: Facts) => f.cpu.model, fs))
      && r.cpu.sockets == FirstSet(0, Map((f: Facts) => f.cpu.sockets, fs))
      && r.cpu.cores == FirstSet(0, Map((f: Facts) => f.cpu.cores, fs))
      && r.cpu.threads == FirstSet(0, Map((f: Facts) => f.cpu.threads, fs))
      && RawAt(k)(r) == FirstSet(None, Map(RawAt(k), fs))
  {
    FieldsFillGaps();
    FirstOfReports((f: Facts) => f.cpu.vendor, "", id, fs);
    FirstOfReports((f: Facts) => f.cpu.model, "", id, fs);
    FirstOfReports((f: Facts) => f.cpu.sockets, 0, id, fs);
    FirstOfReports((f: Facts) => f.cpu.cores, 0, id, fs);
    FirstOfReports((f: Facts) => f.cpu.threads, 0, id, fs);
    FirstOfReports(RawAt(k), None, id, fs);
  }
}
