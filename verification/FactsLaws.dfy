/** What merging collectors one after another comes to: the algebra of the merge over
    any list of collectors. */
module FactsLaws {
  import opened Prelude
  import opened GoStrings
  import opened Sorting
  import opened FactsMerge

  /** The merge of a list of collectors' facts into init, in order. */
  function MergeAll(init: Facts, fs: seq<Facts>): Facts {
    if fs == [] then init else Merge(MergeAll(init, fs[..|fs| - 1]), fs[|fs| - 1])
  }

  lemma {:induction false} MergeAllAppend(init: Facts, fs: seq<Facts>, gs: seq<Facts>)
    ensures MergeAll(init, fs + gs) == MergeAll(MergeAll(init, fs), gs)
  {
    if gs == [] {
      assert fs + gs == fs;
    } else {
      var n := |gs| - 1;
      assert (fs + gs)[..|fs| + n] == fs + gs[..n];
      MergeAllAppend(init, fs, gs[..n]);
    }
  }

  // ----- Fields that fill gaps

  /** A field that one merge fills only while it is at its zero value. */
  ghost predicate FillsGaps<T(!new)>(get: Facts -> T, zero: T) {
    forall d, s :: get(Merge(d, s)) == if get(d) == zero then get(s) else get(d)
  }

  /** Every field but Source, Health, Capabilities and NetworkModes fills gaps, each
      key of Raw included. */
  lemma FieldsFillGaps()
    ensures FillsGaps((f: Facts) => f.serverId, "") && FillsGaps((f: Facts) => f.observedAt, 0)
    ensures FillsGaps((f: Facts) => f.powerState, "") && FillsGaps((f: Facts) => f.provisioning, "")
    ensures FillsGaps((f: Facts) => f.cpu.vendor, "") && FillsGaps((f: Facts) => f.cpu.model, "")
    ensures FillsGaps((f: Facts) => f.cpu.sockets, 0) && FillsGaps((f: Facts) => f.cpu.cores, 0)
    ensures FillsGaps((f: Facts) => f.cpu.threads, 0) && FillsGaps((f: Facts) => f.memoryGB, 0)
    ensures FillsGaps((f: Facts) => f.disks, []) && FillsGaps((f: Facts) => f.nics, [])
    ensures FillsGaps((f: Facts) => f.failureDomain, "")
    ensures forall k :: FillsGaps(RawAt(k), None)
  {
  }

  /** What Raw holds under a key, if anything. */
  function RawAt(k: string): Facts -> Option<string> {
    (f: Facts) => if f.raw.Some? && k in f.raw.value then Some(f.raw.value[k]) else None
  }

  /** The first value that is not zero. */
  function FirstSet<T(==)>(zero: T, xs: seq<T>): T {
    if xs == [] then zero else if xs[0] != zero then xs[0] else FirstSet(zero, xs[1..])
  }

  lemma {:induction false} FirstSetAppend<T>(zero: T, xs: seq<T>, x: T)
    ensures FirstSet(zero, xs + [x]) == if FirstSet(zero, xs) == zero then x else FirstSet(zero, xs)
  {
    if xs == [] {
      assert [] + [x] == [x];
    } else {
      assert (xs + [x])[1..] == xs[1..] + [x];
      FirstSetAppend(zero, xs[1..], x);
    }
  }

  /** Nothing stands in front of it but zeros, and it is zero only if all are. */
  lemma {:induction false} FirstSetExactly<T>(zero: T, xs: seq<T>)
    ensures FirstSet(zero, xs) != zero ==>
      exists i :: 0 <= i < |xs| && xs[i] == FirstSet(zero, xs) && forall j :: 0 <= j < i ==> xs[j] == zero
    ensures FirstSet(zero, xs) == zero ==> forall i :: 0 <= i < |xs| ==> xs[i] == zero
  {
    if xs != [] && xs[0] == zero {
      var rest := xs[1..];
      FirstSetExactly(zero, rest);
      assert forall i :: 1 <= i < |xs| ==> xs[i] == rest[i - 1];
      if FirstSet(zero, rest) != zero {
        var i :| 0 <= i < |rest| && rest[i] == FirstSet(zero, rest) && forall j :: 0 <= j < i ==> rest[j] == zero;
        assert xs[i + 1] == FirstSet(zero, xs);
      }
    }
  }

  /** After any list of collectors such a field is the first non-zero value reported. */
  lemma {:induction false} FirstReportWins<T(!new)>(get: Facts -> T, zero: T, init: Facts, fs: seq<Facts>)
    requires FillsGaps(get, zero)
    ensures get(MergeAll(init, fs)) == FirstSet(zero, [get(init)] + Map(get, fs))
  {
    if fs == [] {
      assert [get(init)] + Map(get, fs) == [get(init)];
      assert [get(init)][1..] == [];
    } else {
      var n := |fs| - 1;
      FirstReportWins(get, zero, init, fs[..n]);
      FirstSetAppend(zero, [get(init)] + Map(get, fs[..n]), get(fs[n]));
      assert [get(init)] + Map(get, fs) == [get(init)] + Map(get, fs[..n]) + [get(fs[n])];
    }
  }

  /** A field once set is never changed by further collectors. */
  lemma {:induction false} SetFieldIsStable<T(!new)>(
      get: Facts -> T, zero: T, init: Facts, fs: seq<Facts>, gs: seq<Facts>)
    requires FillsGaps(get, zero) && get(MergeAll(init, fs)) != zero
    ensures get(MergeAll(init, fs + gs)) == get(MergeAll(init, fs))
  {
    if gs == [] {
      assert fs + gs == fs;
    } else {
      var n := |gs| - 1;
      SetFieldIsStable(get, zero, init, fs, gs[..n]);
      assert (fs + gs)[..|fs| + n] == fs + gs[..n];
    }
  }

  // ----- Unions

  /** A union holds everything of dst and every non-empty text of src. */
  lemma {:induction false} UnionContents(dst: seq<string>, src: seq<string>)
    ensures forall v :: v in Union(dst, src) <==> v in dst || (v in src && v != "")
    ensures dst <= Union(dst, src)
  {
    if src != [] {
      var n := |src| - 1;
      UnionContents(dst, src[..n]);
      assert src == src[..n] + [src[n]];
    }
  }

  lemma {:induction false} UnionAssociative(a: seq<string>, b: seq<string>, c: seq<string>)
    ensures Union(a, Union(b, c)) == Union(Union(a, b), c)
  {
    if c != [] {
      var n := |c| - 1;
      var front, v := c[..n], c[n];
      UnionAssociative(a, b, front);
      var u, w := Union(b, front), Union(Union(a, b), front);
      UnionContents(b, front);
      UnionContents(a, b);
      UnionContents(Union(a, b), front);
      UnionContents(a, u);
      if v != "" && v !in u {
        assert (u + [v])[..|u|] == u;
      }
    }
  }

  /** What a union adds is distinct and non-empty. */
  lemma {:induction false} UnionDistinct(dst: seq<string>, src: seq<string>)
    requires Distinct(dst) && "" !in dst
    ensures Distinct(Union(dst, src)) && "" !in Union(dst, src)
  {
    if src != [] {
      UnionDistinct(dst, src[..|src| - 1]);
    }
  }

  /** A union's list starts with the union of any first part of what is added. */
  lemma {:induction false} UnionPrefix(dst: seq<string>, src: seq<string>, k: nat)
    requires k <= |src|
    ensures Union(dst, src[..k]) <= Union(dst, src)
    decreases |src|
  {
    if k < |src| {
      var n := |src| - 1;
      UnionPrefix(dst, src[..n], k);
      assert src[..n][..k] == src[..k];
    } else {
      assert src[..k] == src;
    }
  }

  /** x stands somewhere before y. */
  ghost predicate Before(s: seq<string>, x: string, y: string) {
    exists i, j :: 0 <= i < j < |s| && s[i] == x && s[j] == y
  }

  /** New entries keep the order in which they first come up: one that is there already,
      or comes up earlier, stands before one that is new at place j. */
  lemma UnionOrder(dst: seq<string>, src: seq<string>, x: string, j: nat)
    requires j < |src| && src[j] != "" && src[j] !in dst && src[j] !in src[..j]
    requires x in dst || (x in src[..j] && x != "")
    ensures Before(Union(dst, src), x, src[j])
  {
    var u, v, w := Union(dst, src[..j]), Union(dst, src[..j + 1]), Union(dst, src);
    UnionContents(dst, src[..j]);
    assert src[..j + 1][..j] == src[..j];
    assert v == u + [src[j]];
    UnionPrefix(dst, src, j + 1);
    var i :| 0 <= i < |u| && u[i] == x;
    assert w[i] == v[i] == x && w[|u|] == v[|u|] == src[j];
  }

  // ----- Lists that accumulate

  /** A list of which a merge makes the union. */
  ghost predicate Accumulates(get: Facts -> seq<string>) {
    forall d, s :: get(Merge(d, s)) == Union(get(d), get(s))
  }

  const CAPABILITIES := (f: Facts) => f.capabilities
  const MODES := (f: Facts) => f.networkModes

  lemma ListsAccumulate()
    ensures Accumulates(CAPABILITIES) && Accumulates(MODES)
  {
  }

  /** What each collector reports, one after another. */
  function Reports(get: Facts -> seq<string>, fs: seq<Facts>): seq<string> {
    if fs == [] then [] else Reports(get, fs[..|fs| - 1]) + get(fs[|fs| - 1])
  }

  lemma {:induction false} InReports(get: Facts -> seq<string>, fs: seq<Facts>, c: string)
    ensures c in Reports(get, fs) <==> exists i :: 0 <= i < |fs| && c in get(fs[i])
  {
    if fs != [] {
      var n := |fs| - 1;
      InReports(get, fs[..n], c);
      assert forall i :: 0 <= i < n ==> fs[..n][i] == fs[i];
    }
  }

  lemma {:induction false} ReportsAppend(get: Facts -> seq<string>, fs: seq<Facts>, gs: seq<Facts>)
    ensures Reports(get, fs + gs) == Reports(get, fs) + Reports(get, gs)
  {
    if gs == [] {
      assert fs + gs == fs;
    } else {
      var n := |gs| - 1;
      assert (fs + gs)[..|fs| + n] == fs + gs[..n];
      ReportsAppend(get, fs, gs[..n]);
    }
  }

  lemma {:induction false} UnionAppend(dst: seq<string>, src: seq<string>, more: seq<string>)
    ensures Union(dst, src + more) == Union(Union(dst, src), more)
  {
    if more == [] {
      assert src + more == src;
    } else {
      var n := |more| - 1;
      assert (src + more)[..|src| + n] == src + more[..n];
      UnionAppend(dst, src, more[..n]);
    }
  }

  lemma {:induction false} MergedList(get: Facts -> seq<string>, init: Facts, fs: seq<Facts>)
    requires Accumulates(get)
    ensures get(MergeAll(init, fs)) == Union(get(init), Reports(get, fs))
  {
    if fs != [] {
      var n := |fs| - 1;
      MergedList(get, init, fs[..n]);
      UnionAppend(get(init), Reports(get, fs[..n]), get(fs[n]));
    }
  }

  /** Over any list of collectors the capabilities are exactly those there were and the
      non-empty ones some collector reported; and so are the network modes. */
  lemma MergedListsExactly(init: Facts, fs: seq<Facts>, c: string)
    ensures c in MergeAll(init, fs).capabilities <==>
      c in init.capabilities || (c != "" && exists i :: 0 <= i < |fs| && c in fs[i].capabilities)
    ensures c in MergeAll(init, fs).networkModes <==>
      c in init.networkModes || (c != "" && exists i :: 0 <= i < |fs| && c in fs[i].networkModes)
  {
    ListsAccumulate();
    MergedList(CAPABILITIES, init, fs);
    MergedList(MODES, init, fs);
    UnionContents(init.capabilities, Reports(CAPABILITIES, fs));
    UnionContents(init.networkModes, Reports(MODES, fs));
    InReports(CAPABILITIES, fs, c);
    InReports(MODES, fs, c);
  }

  /** Starting from nothing, each is reported once, and in the order of first report: an
      entry that collector k reports in front of its j-th, or an earlier collector reports
      at all, stands before the j-th when that is new. */
  lemma MergedListInOrder(get: Facts -> seq<string>, init: Facts, fs: seq<Facts>, k: nat, j: nat, x: string)
    requires Accumulates(get) && get(init) == []
    requires k < |fs| && j < |get(fs[k])|
    requires var y := get(fs[k])[j];
      y != "" && y !in get(fs[k])[..j] && forall i :: 0 <= i < k ==> y !in get(fs[i])
    requires x != "" && (x in get(fs[k])[..j] || exists i :: 0 <= i < k && x in get(fs[i]))
    ensures Distinct(get(MergeAll(init, fs))) && "" !in get(MergeAll(init, fs))
    ensures Before(get(MergeAll(init, fs)), x, get(fs[k])[j])
  {
    var all, front := Reports(get, fs), Reports(get, fs[..k]);
    MergedList(get, init, fs);
    UnionDistinct([], all);
    ReportsSplit(get, fs, k, j);
    InReports(get, fs[..k], x);
    InReports(get, fs[..k], get(fs[k])[j]);
    UnionOrder([], all, x, |front| + j);
  }

  /** Where the j-th entry of collector k stands among all reports. */
  lemma ReportsSplit(get: Facts -> seq<string>, fs: seq<Facts>, k: nat, j: nat)
    requires k < |fs| && j < |get(fs[k])|
    ensures var all, front := Reports(get, fs), Reports(get, fs[..k]);
      && |front| + j < |all| && all[|front| + j] == get(fs[k])[j]
      && all[..|front| + j] == front + get(fs[k])[..j]
  {
    var front, mine, rest := Reports(get, fs[..k]), get(fs[k]), Reports(get, fs[k + 1..]);
    assert fs == fs[..k + 1] + fs[k + 1..];
    ReportsAppend(get, fs[..k + 1], fs[k + 1..]);
    assert fs[..k + 1][..k] == fs[..k];
    assert Reports(get, fs) == front + mine + rest;
  }

  /** The merge is associative on every field but Source. */
  lemma MergeAssociative(a: Facts, b: Facts, c: Facts)
    ensures Merge(a, Merge(b, c)).(source := "") == Merge(Merge(a, b), c).(source := "")
  {
    UnionAssociative(a.capabilities, b.capabilities, c.capabilities);
    UnionAssociative(a.networkModes, b.networkModes, c.networkModes);
    RawAssociative(a.raw, b.raw, c.raw);
  }

  lemma RawAssociative(a: Option<map<string, string>>, b: Option<map<string, string>>, c: Option<map<string, string>>)
    ensures MergeRaw(a, MergeRaw(b, c)) == MergeRaw(MergeRaw(a, b), c)
  {
    if a.Some? && b.Some? && c.Some? {
      assert (c.value + b.value) + a.value == c.value + (b.value + a.value);
    }
  }

  // ----- Sources

  /** The distinct non-empty names, in order of first appearance. */
  function Names(sources: seq<string>): seq<string> {
    Union([], sources)
  }

  /** The sources merged one after another. */
  function MergeSources(sources: seq<string>): string {
    if sources == [] then "" else MergeSource(MergeSources(sources[..|sources| - 1]), sources[|sources| - 1])
  }

  lemma {:induction false} SourceOfMergeAll(init: Facts, fs: seq<Facts>)
    requires init.source == ""
    ensures MergeAll(init, fs).source == MergeSources(Map((f: Facts) => f.source, fs))
  {
    var source := (f: Facts) => f.source;
    if fs != [] {
      var n := |fs| - 1;
      SourceOfMergeAll(init, fs[..n]);
      assert Map(source, fs)[..n] == Map(source, fs[..n]);
    }
  }

  ghost predicate PlusFree(sources: seq<string>) {
    forall i :: 0 <= i < |sources| ==> '+' !in sources[i]
  }

  lemma {:induction false} NamesArePlusFree(sources: seq<string>)
    requires PlusFree(sources)
    ensures PlusFree(Names(sources))
    ensures forall i :: 0 <= i < |Names(sources)| ==> Names(sources)[i] != ""
  {
    if sources != [] {
      NamesArePlusFree(sources[..|sources| - 1]);
    }
  }

  /** Over any run of merges of plus-free source names, the source is the join of the
      distinct names in order of first appearance. */
  lemma {:induction false} SourcesAreJoined(sources: seq<string>)
    requires PlusFree(sources)
    ensures MergeSources(sources) == Join(Names(sources), '+')
  {
    if sources != [] {
      var n := |sources| - 1;
      var front, s := sources[..n], sources[n];
      SourcesAreJoined(front);
      NamesArePlusFree(front);
      var names := Names(front);
      if names != [] {
        SplitJoin(names, '+');
        JoinConcat(names, [s], '+');
      } else {
        assert [] + [s] == [s];
      }
    }
  }

  /** Splitting the final source at "+" gives exactly the collectors that reported one,
      each once, in order of first appearance. */
  lemma SplitSource(init: Facts, fs: seq<Facts>)
    requires init.source == ""
    requires forall i :: 0 <= i < |fs| ==> '+' !in fs[i].source
    ensures var names := Names(Map((f: Facts) => f.source, fs));
      && (names != [] ==> Split(MergeAll(init, fs).source, '+') == names)
      && (names == [] ==> MergeAll(init, fs).source == "")
      && Distinct(names)
  {
    var sources := Map((f: Facts) => f.source, fs);
    SourceOfMergeAll(init, fs);
    SourcesAreJoined(sources);
    NamesArePlusFree(sources);
    UnionDistinct([], sources);
    if Names(sources) != [] {
      SplitJoin(Names(sources), '+');
    }
  }

  // ----- When merging sources associates

  /** Merging a part into a text that has it, and a part or a whole into one that has not. */
  lemma MergeOnto(a: string, b: string)
    requires a != "" && b != ""
    ensures MergeSource(a, b) == if b in Split(a, '+') then a else a + "+" + b
    ensures MergeSource(a, b) != ""
    ensures Split(MergeSource(a, b), '+') ==
      if b in Split(a, '+') then Split(a, '+') else Split(a, '+') + Split(b, '+')
  {
    SplitConcat(a, b, '+');
    assert a + ['+'] + b == a + "+" + b;
  }

  lemma PartIsPlusFree(a: string, p: string)
    requires p in Split(a, '+')
    ensures '+' !in p && Split(p, '+') == [p]
  {
    SplitIsFree(a, 0, '+');
    IndexOfIs(p, 0, '+', |p|);
    assert p[0..|p|] == p;
  }

  /** Merging sources associates if and only if one of the three is empty, or the third
      is a part of the second already, or neither the second nor the third is a part of
      the first. */
  lemma SourceAssociativeExactly(a: string, b: string, c: string)
    ensures MergeSource(a, MergeSource(b, c)) == MergeSource(MergeSource(a, b), c) <==>
      || a == "" || b == "" || c == ""
      || c in Split(b, '+')
      || (b !in Split(a, '+') && c !in Split(a, '+'))
  {
    if a != "" && b != "" && c != "" {
      MergeOnto(a, b);
      MergeOnto(b, c);
      MergeOnto(a, MergeSource(b, c));
      MergeOnto(MergeSource(a, b), c);
      if b in Split(a, '+') {
        PartIsPlusFree(a, b);
      }
      if c !in Split(b, '+') {
        NoPlusInParts(a, b, c);
      }
    }
  }

  /** A merged source is never itself a part. */
  lemma NoPlusInParts(a: string, b: string, c: string)
    ensures b + "+" + c !in Split(a, '+')
    ensures a + "+" + (b + "+" + c) == a + "+" + b + "+" + c
  {
    var bc := b + "+" + c;
    assert bc[|b|] == '+';
    if bc in Split(a, '+') {
      PartIsPlusFree(a, bc);
    }
  }

  /** The whole merge associates exactly when it does so on the sources. */
  lemma MergeAssociativeExactly(a: Facts, b: Facts, c: Facts)
    ensures Merge(a, Merge(b, c)) == Merge(Merge(a, b), c) <==>
      || a.source == "" || b.source == "" || c.source == ""
      || c.source in Split(b.source, '+')
      || (b.source !in Split(a.source, '+') && c.source !in Split(a.source, '+'))
  {
    MergeAssociative(a, b, c);
    SourceAssociativeExactly(a.source, b.source, c.source);
    var l, r := Merge(a, Merge(b, c)), Merge(Merge(a, b), c);
  }

  /** The merge is not associative on Source: a merged source counts as one part. */
  lemma SourceNotAssociative()
    ensures MergeSource("x", MergeSource("y", "x")) != MergeSource(MergeSource("x", "y"), "x")
  {
    assert MergeSource("y", "x") == "y+x" by {
      SplitJoin(["y"], '+');
    }
    assert MergeSource("x", "y") == "x+y" by {
      SplitJoin(["x"], '+');
    }
    SplitJoin(["x"], '+');
    SplitJoin(["x", "y"], '+');
    assert Join(["x", "y"], '+') == "x+y";
  }
}
