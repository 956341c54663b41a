/** Capabilities and health inferred from merged facts, and the build that runs every
    collector and merges what they report. */
module FactsInfer {
  import opened Prelude
  import opened Sorting
  import opened FactsMerge
  import opened FactsLaws

  // ----- Case

  /** Lower case, as far as it can meet a plain ASCII text: the Kelvin sign and the
      dotted capital I also lower to ASCII letters. */
  function LowerChar(c: char): char {
    if 'A' <= c <= 'Z' then (c as int + 32) as char
    else if c == '\U{212A}' then 'k'
    else if c == '\U{0130}' then 'i'
    else c
  }

  function ToLower(s: string): (r: string)
    ensures |r| == |s|
  {
    seq(|s|, i requires 0 <= i < |s| => LowerChar(s[i]))
  }

  /** strings.EqualFold against a lower-case ASCII text without k or s, the letters
      with a third fold. */
  predicate EqualFold(s: string, lower: string) {
    && |s| == |lower|
    && forall i :: 0 <= i < |s| ==> s[i] == lower[i] || ('A' <= s[i] <= 'Z' && LowerChar(s[i]) == lower[i])
  }

  // ----- Capabilities

  function NicCapabilities(n: NicFacts): seq<string> {
    (if n.speedGbps >= 25 then ["high_bandwidth_networking"] else [])
      + FeatureCapabilities(n.features)
  }

  function FeatureCapability(feature: string): string {
    var f := ToLower(feature);
    if f == "sriov" || f == "sr-iov" then "sriov" else if f == "rdma" then "rdma" else ""
  }

  function FeatureCapabilities(features: seq<string>): seq<string> {
    Map(FeatureCapability, features)
  }

  predicate IsNvme(d: DiskFacts) {
    EqualFold(d.typ, "nvme")
  }

  function NicsCapabilities(nics: seq<NicFacts>): seq<string> {
    if nics == [] then [] else NicsCapabilities(nics[..|nics| - 1]) + NicCapabilities(nics[|nics| - 1])
  }

  /** The capabilities that follow from the other facts, in the order they are found. */
  function Inferred(f: Facts): seq<string> {
    (if exists d :: d in f.disks && IsNvme(d) then ["local_nvme"] else [])
      + NicsCapabilities(f.nics)
      + (if f.powerState != "" then ["power_control"] else [])
  }

  /** Reported and inferred capabilities: non-empty, once each, sorted. */
  function Infer(f: Facts): seq<string> {
    Sort(Union([], f.capabilities + Inferred(f)))
  }

  /** The closure add: appends a non-empty text not yet seen. */
  method Add(out: seq<string>, seen: set<string>, cap: string) returns (out': seq<string>, seen': set<string>)
    requires forall v :: v in seen <==> v in out
    ensures out' == Union(out, [cap])
    ensures forall v :: v in seen' <==> v in out'
  {
    assert [cap][..0] == [];
    if cap == "" || cap in seen {
      return out, seen;
    }
    return out + [cap], seen + {cap};
  }

  method AddAll(out: seq<string>, seen: set<string>, caps: seq<string>)
    returns (out': seq<string>, seen': set<string>)
    requires forall v :: v in seen <==> v in out
    ensures out' == Union(out, caps)
    ensures forall v :: v in seen' <==> v in out'
  {
    out', seen' := out, seen;
    var i := 0;
    while i < |caps|
      invariant 0 <= i <= |caps|
      invariant out' == Union(out, caps[..i])
      invariant forall v :: v in seen' <==> v in out'
    {
      out', seen' := Add(out', seen', caps[i]);
      UnionAppend(out, caps[..i], [caps[i]]);
      assert caps[..i + 1] == caps[..i] + [caps[i]];
      i := i + 1;
    }
    assert caps[..i] == caps;
  }

  method AddNics(out: seq<string>, seen: set<string>, nics: seq<NicFacts>)
    returns (out': seq<string>, seen': set<string>)
    requires forall v :: v in seen <==> v in out
    ensures out' == Union(out, NicsCapabilities(nics))
    ensures forall v :: v in seen' <==> v in out'
  {
    out', seen' := out, seen;
    var i := 0;
    while i < |nics|
      invariant 0 <= i <= |nics|
      invariant out' == Union(out, NicsCapabilities(nics[..i]))
      invariant forall v :: v in seen' <==> v in out'
    {
      assert nics[..i + 1][..i] == nics[..i];
      UnionAppend(out, NicsCapabilities(nics[..i]), NicCapabilities(nics[i]));
      out', seen' := AddAll(out', seen', NicCapabilities(nics[i]));
      i := i + 1;
    }
    assert nics[..i] == nics;
  }

  method InferCapabilities(f: Option<Facts>) returns (out: seq<string>)
    ensures out == match f case None => [] case Some(v) => Infer(v)
  {
    if f.None? {
      return [];
    }
    var v := f.value;
    var seen: set<string> := {};
    out, seen := AddAll([], seen, v.capabilities);
    UnionAppend([], v.capabilities, Inferred(v));
    ghost var base := out;
    var nvme := false;
    var i := 0;
    while i < |v.disks| && !nvme
      invariant 0 <= i <= |v.disks|
      invariant nvme <==> exists k :: 0 <= k < i && IsNvme(v.disks[k])
    {
      nvme := IsNvme(v.disks[i]);
      i := i + 1;
    }
    var local: seq<string> := if nvme then ["local_nvme"] else [];
    out, seen := AddAll(out, seen, local);
    out, seen := AddNics(out, seen, v.nics);
    var power: seq<string> := if v.powerState != "" then ["power_control"] else [];
    out, seen := AddAll(out, seen, power);
    UnionAppend(base, local, NicsCapabilities(v.nics));
    UnionAppend(base, local + NicsCapabilities(v.nics), power);
    assert nvme <==> exists d :: d in v.disks && IsNvme(d);
    out := Sort(out);
  }

  // ----- What the inferred list is

  /** Exactly the non-empty capabilities reported or inferable, in increasing order. */
  lemma InferIsSortedUnion(f: Facts)
    ensures Increasing(Infer(f))
    ensures forall c :: c in Infer(f) <==> c != "" && (c in f.capabilities || c in Inferred(f))
  {
    var all := f.capabilities + Inferred(f);
    UnionContents([], all);
    UnionDistinct([], all);
    SortOfDistinct(Union([], all));
  }

  /** Feeding the result back in changes nothing. */
  lemma InferIdempotent(f: Facts)
    ensures Infer(f.(capabilities := Infer(f))) == Infer(f)
  {
    var g := f.(capabilities := Infer(f));
    InferIsSortedUnion(f);
    InferIsSortedUnion(g);
    assert Inferred(g) == Inferred(f);
    IncreasingUnique(Infer(f), Infer(g));
  }

  // ----- Health

  predicate HasHardwareFacts(f: Facts) {
    f.cpu.cores > 0 || f.memoryGB > 0 || |f.disks| > 0 || |f.nics| > 0
  }

  function InferHealth(f: Option<Facts>): string {
    match f
    case None => "unknown"
    case Some(v) =>
      if !HasHardwareFacts(v) && v.powerState == "" && v.provisioning == "" then "unknown"
      else if EqualFold(v.provisioning, "failed") || EqualFold(v.provisioning, "error") then "degraded"
      else if v.powerState != "" && !EqualFold(v.powerState, "on") then "degraded"
      else if !HasHardwareFacts(v) then "degraded"
      else "healthy"
  }

  /** Healthy is said of exactly the servers with real hardware facts that are not
      failed and not known to be in any power state but on; unknown of exactly those
      nothing usable is known of. */
  lemma HealthExactly(f: Facts)
    ensures InferHealth(Some(f)) == "healthy" <==>
      && HasHardwareFacts(f)
      && !EqualFold(f.provisioning, "failed") && !EqualFold(f.provisioning, "error")
      && (f.powerState == "" || EqualFold(f.powerState, "on"))
    ensures InferHealth(Some(f)) == "unknown" <==>
      !HasHardwareFacts(f) && f.powerState == "" && f.provisioning == ""
    ensures InferHealth(Some(f)) in {"healthy", "degraded", "unknown"}
  {
  }

  // ----- The build

  /** What one collector returned: facts, an error, both or neither. */
  datatype Report = Report(facts: Option<Facts>, error: Option<string>)

  function Reported(rs: seq<Report>): seq<Facts> {
    if rs == [] then []
    else
      var front, last := Reported(rs[..|rs| - 1]), rs[|rs| - 1].facts;
      if last.Some? then front + [last.value] else front
  }

  function Errors(rs: seq<Report>): seq<string> {
    if rs == [] then []
    else
      var front, last := Errors(rs[..|rs| - 1]), rs[|rs| - 1].error;
      if last.Some? then front + [last.value] else front
  }

  /** The merged record once identity, time, capabilities and health are set. */
  function Finish(m: Facts, id: string, now: int): Facts {
    var n := m.(serverId := id, observedAt := now);
    var c := n.(capabilities := Infer(n));
    c.(health := InferHealth(Some(c)))
  }

  lemma ReportedNext(rs: seq<Report>, i: nat)
    requires i < |rs|
    ensures Reported(rs[..i + 1]) ==
      Reported(rs[..i]) + if rs[i].facts.Some? then [rs[i].facts.value] else []
    ensures Errors(rs[..i + 1]) ==
      Errors(rs[..i]) + if rs[i].error.Some? then [rs[i].error.value] else []
  {
    assert rs[..i + 1][..i] == rs[..i];
  }

  /** Runs through every report in order. Facts are merged even when an error came with
      them; without any facts at all the errors are what is returned. */
  method BuildServerFacts(id: string, reports: seq<Report>, now: int)
    returns (merged: ServerFacts?, errs: seq<string>)
    ensures merged == null <==> Reported(reports) == []
    ensures merged != null ==>
      && fresh(merged)
      && merged.Value() == Finish(MergeAll(Empty(id), Reported(reports)), id, now)
    ensures errs == if merged == null then Errors(reports) else []
  {
    var m, successes;
    m, successes, errs := Collect(id, reports);
    if successes == 0 {
      return null, errs;
    }
    Complete(m, id, now);
    return m, [];
  }

  /** Identity, time, capabilities and health, in that order. */
  method Complete(m: ServerFacts, id: string, now: int)
    modifies m
    ensures m.Value() == Finish(old(m.Value()), id, now)
  {
    m.serverId := id;
    m.observedAt := now;
    var inferred := InferCapabilities(Some(m.Value()));
    m.capabilities := inferred;
    m.health := InferHealth(Some(m.Value()));
  }

  /** One collector's facts merged. */
  method Include(m: ServerFacts, f: Facts)
    modifies m
    ensures m.Value() == Merge(old(m.Value()), f)
  {
    var collected := new ServerFacts.Of(f);
    m.MergeInto(collected);
  }

  /** The collector loop. */
  method Collect(id: string, reports: seq<Report>)
    returns (m: ServerFacts, successes: nat, errs: seq<string>)
    ensures fresh(m) && m.Value() == MergeAll(Empty(id), Reported(reports))
    ensures successes == |Reported(reports)| && errs == Errors(reports)
  {
    m := new ServerFacts(id);
    errs, successes := [], 0;
    ghost var fs, merged := [], Empty(id);
    var i := 0;
    while i < |reports|
      invariant 0 <= i <= |reports|
      invariant fs == Reported(reports[..i]) && errs == Errors(reports[..i])
      invariant successes == |fs| && merged == MergeAll(Empty(id), fs)
      invariant fresh(m) && m.Value() == merged
    {
      ReportedNext(reports, i);
      var r := reports[i];
      if r.error.Some? {
        errs := errs + [r.error.value];
      }
      if r.facts.Some? {
        Include(m, r.facts.value);
        fs, merged := fs + [r.facts.value], Merge(merged, r.facts.value);
        successes := successes + 1;
      }
      i := i + 1;
    }
    assert reports[..i] == reports;
  }

  // ----- More collectors only add

  /** A list of which one merge loses nothing. */
  ghost predicate Keeps(get: Facts -> seq<string>) {
    forall d, s, c :: c in get(d) ==> c in get(Merge(d, s))
  }

  lemma {:induction false} ListOnlyGrows(
      get: Facts -> seq<string>, init: Facts, fs: seq<Facts>, gs: seq<Facts>, c: string)
    requires Keeps(get) && c in get(MergeAll(init, fs))
    ensures c in get(MergeAll(init, fs + gs))
  {
    if gs == [] {
      assert fs + gs == fs;
    } else {
      var n := |gs| - 1;
      ListOnlyGrows(get, init, fs, gs[..n], c);
      assert (fs + gs)[..|fs| + n] == fs + gs[..n];
    }
  }

  lemma CapabilitiesKept()
    ensures Keeps((f: Facts) => f.capabilities)
  {
    forall d: Facts, s: Facts, c | c in d.capabilities ensures c in Merge(d, s).capabilities {
      UnionContents(d.capabilities, s.capabilities);
    }
  }

  /** Appending collectors to a list never takes a capability away. */
  lemma BuildOnlyGrows(id: string, fs: seq<Facts>, gs: seq<Facts>, now: int, c: string)
    requires fs != []
    requires c in Finish(MergeAll(Empty(id), fs), id, now).capabilities
    ensures c in Finish(MergeAll(Empty(id), fs + gs), id, now).capabilities
  {
    var a, b := MergeAll(Empty(id), fs), MergeAll(Empty(id), fs + gs);
    var a', b' := a.(serverId := id, observedAt := now), b.(serverId := id, observedAt := now);
    InferIsSortedUnion(a');
    InferIsSortedUnion(b');
    if c in a.capabilities {
      CapabilitiesKept();
      ListOnlyGrows((f: Facts) => f.capabilities, Empty(id), fs, gs, c);
    } else {
      FieldsFillGaps();
      if a.disks != [] {
        SetFieldIsStable((f: Facts) => f.disks, [], Empty(id), fs, gs);
      }
      if a.nics != [] {
        SetFieldIsStable((f: Facts) => f.nics, [], Empty(id), fs, gs);
      }
      if a.powerState != "" {
        SetFieldIsStable((f: Facts) => f.powerState, "", Empty(id), fs, gs);
      }
      assert c in Inferred(b');
    }
  }
}
