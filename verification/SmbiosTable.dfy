/** The SMBIOS structure table on the wire (SMBIOS specification, section 6.1):
    what one step of the walk locates in the bytes that are left, what a whole
    walk yields, and the encoder the walk inverts. */
module SmbiosTable {
  import opened Prelude

  const TYPE_END: u8 := 127

  /** One structure as located by the walker: its formatted area, header
      included, and its string set, terminators included. */
  datatype Structure = Structure(formatted: Bytes, strings: Bytes) {
    ghost predicate Framed() {
      4 <= |formatted| <= 255 && formatted[1] == |formatted|
    }

    function Typ(): u8
      requires |formatted| >= 4
    {
      formatted[0]
    }

    function Handle(): u16
      requires |formatted| >= 4
    {
      U16(formatted[2], formatted[3])
    }

    function Wire(): Bytes {
      formatted + strings
    }
  }

  function U16(lo: u8, hi: u8): u16 {
    lo + 0x100 * hi
  }

  // ----- The string set

  /** Two adjacent NULs at k. */
  predicate DoubleNul(v: Bytes, k: nat) {
    k + 1 < |v| && v[k] == 0 && v[k + 1] == 0
  }

  /** A set closed by its first double NUL. */
  ghost predicate Closed(v: Bytes) {
    && |v| >= 2
    && DoubleNul(v, |v| - 2)
    && forall k: nat :: k < |v| - 2 ==> !DoubleNul(v, k)
  }

  /** A set one terminator byte short: it ends in a NUL, without any double NUL. */
  ghost predicate Short(v: Bytes) {
    && |v| >= 1
    && v[|v| - 1] == 0
    && forall k: nat :: !DoubleNul(v, k)
  }

  /** The scan ran into the end of the table instead of a double NUL. */
  predicate EndsShort(v: Bytes) {
    |v| < 2 || !DoubleNul(v, |v| - 2)
  }

  /** Where the scan for the end of a string set stops, counted from its start. */
  function SetLength(u: Bytes): (n: Option<nat>)
    ensures n.Some? ==> 1 <= n.value <= |u| && u[n.value - 1] == 0
  {
    if u == [] then None
    else if DoubleNul(u, 0) then Some(2)
    else if u == [0] then Some(1)
    else match SetLength(u[1..])
      case None => None
      case Some(n) => Some(n + 1)
  }

  lemma {:induction false} SetLengthSound(u: Bytes)
    ensures SetLength(u).Some? ==>
      var n := SetLength(u).value;
      Closed(u[..n]) || (n == |u| && Short(u))
    ensures SetLength(u).None? ==>
      (forall k: nat :: !DoubleNul(u, k)) && (u == [] || u[|u| - 1] != 0)
  {
    if u == [] || DoubleNul(u, 0) || u == [0] {
    } else {
      var v := u[1..];
      SetLengthSound(v);
      assert forall k: nat :: k > 0 ==> (DoubleNul(u, k) <==> DoubleNul(v, k - 1));
      match SetLength(v) {
        case None =>
          assert u[|u| - 1] != 0;
        case Some(n) =>
          if Closed(v[..n]) {
            var a, b := u[..n + 1], v[..n];
            assert forall k: nat :: k > 0 ==> (DoubleNul(a, k) <==> DoubleNul(b, k - 1));
            assert DoubleNul(a, 0) ==> DoubleNul(u, 0);
            assert Closed(a);
          }
      }
    }
  }

  /** A closed set is found whatever follows it. */
  lemma {:induction false} SetLengthClosed(v: Bytes, tail: Bytes)
    requires Closed(v)
    ensures SetLength(v + tail) == Some(|v|)
  {
    var u := v + tail;
    assert DoubleNul(u, 0) <==> DoubleNul(v, 0);
    if |v| > 2 {
      assert !DoubleNul(v, 0);
      assert forall k: nat :: DoubleNul(v[1..], k) <==> DoubleNul(v, k + 1);
      assert u[1..] == v[1..] + tail;
      SetLengthClosed(v[1..], tail);
    }
  }

  lemma {:induction false} SetLengthShort(v: Bytes)
    requires Short(v)
    ensures SetLength(v) == Some(|v|)
  {
    assert !DoubleNul(v, 0);
    if |v| > 1 {
      assert forall k: nat :: DoubleNul(v[1..], k) <==> DoubleNul(v, k + 1);
      SetLengthShort(v[1..]);
    }
  }

  // ----- One step and a whole walk

  datatype Step =
    | Produced(structure: Structure, rest: Bytes, last: bool)
    | EndOfTable
    | Malformed

  /** One step over the bytes t not yet consumed. */
  function Next(t: Bytes): Step {
    if |t| < 4 then EndOfTable
    else if t[0] == 0 && t[1] == 0 then EndOfTable
    else if t[1] < 4 || t[1] > |t| then Malformed
    else match SetLength(t[t[1]..])
      case None => Malformed
      case Some(n) =>
        var s := Structure(t[..t[1]], t[t[1]..t[1] + n]);
        Produced(s, t[t[1] + n..], EndsShort(s.strings) || s.Typ() == TYPE_END)
  }

  datatype Outcome = Outcome(structures: seq<Structure>, rest: Bytes, ok: bool)

  function Walk(t: Bytes): Outcome
    decreases |t|
  {
    match Next(t)
    case EndOfTable => Outcome([], t, true)
    case Malformed => Outcome([], t, false)
    case Produced(s, rest, last) =>
      if last then Outcome([s], rest, true)
      else
        var o := Walk(rest);
        Outcome([s] + o.structures, o.rest, o.ok)
  }

  function Flatten(ss: seq<Structure>): Bytes {
    if ss == [] then [] else ss[0].Wire() + Flatten(ss[1..])
  }

  // ----- Tiling

  /** A structure the walk goes on after. */
  ghost predicate Inner(s: Structure) {
    s.Framed() && Closed(s.strings) && s.Typ() != TYPE_END
  }

  ghost predicate AllInner(ss: seq<Structure>) {
    forall i :: 0 <= i < |ss| ==> Inner(ss[i])
  }

  /** A structure that ends the walk, followed by the bytes rest. */
  ghost predicate Final(s: Structure, rest: Bytes) {
    && s.Framed()
    && ((Closed(s.strings) && s.Typ() == TYPE_END) || (Short(s.strings) && rest == []))
  }

  /** What holds of every structure the walker produces from any buffer. */
  ghost predicate Located(s: Structure) {
    s.Framed() && |s.strings| >= 1 && s.strings[|s.strings| - 1] == 0
  }

  /** Bytes at which the walk ends cleanly without another structure. */
  predicate Exhausted(rest: Bytes) {
    |rest| < 4 || (rest[0] == 0 && rest[1] == 0)
  }

  /** Every way in which structures followed by rest make up a table that is
      accepted. */
  ghost predicate Tiles(ss: seq<Structure>, rest: Bytes) {
    || (AllInner(ss) && Exhausted(rest))
    || (ss != [] && AllInner(ss[..|ss| - 1]) && Final(ss[|ss| - 1], rest))
  }

  lemma NextSound(t: Bytes)
    requires Next(t).Produced?
    ensures var Produced(s, rest, last) := Next(t);
      && t == s.Wire() + rest
      && Located(s)
      && if last then Final(s, rest) else Inner(s)
  {
    var u := t[t[1]..];
    SetLengthSound(u);
    var n := SetLength(u).value;
    assert u[..n] == t[t[1]..t[1] + n];
    assert t == t[..t[1]] + u[..n] + t[t[1] + n..];
    if n == |u| {
      assert u[..n] == u;
    }
  }

  lemma NextInner(s: Structure, rest: Bytes)
    requires s.Framed() && Closed(s.strings)
    ensures Next(s.Wire() + rest) == Produced(s, rest, s.Typ() == TYPE_END)
  {
    var t := s.Wire() + rest;
    SetLengthClosed(s.strings, rest);
    assert t[t[1]..] == s.strings + rest;
    assert t[..t[1]] == s.formatted;
    assert t[t[1]..t[1] + |s.strings|] == s.strings;
    assert t[t[1] + |s.strings|..] == rest;
  }

  lemma NextShort(s: Structure)
    requires s.Framed() && Short(s.strings)
    ensures Next(s.Wire()) == Produced(s, [], true)
  {
    var t := s.Wire();
    SetLengthShort(s.strings);
    assert t[t[1]..] == s.strings;
    assert t[..t[1]] == s.formatted;
    assert t[t[1]..t[1] + |s.strings|] == s.strings;
    assert t[t[1] + |s.strings|..] == [];
  }

  /** What holds of a walk over any bytes t, accepted or not: the structures tile the
      bytes consumed without gap or overlap, each string set ends in a NUL, and only the
      last can fall one terminator short. */
  ghost predicate Tiled(t: Bytes, o: Outcome) {
    && t == Flatten(o.structures) + o.rest
    && (o.ok ==> Tiles(o.structures, o.rest))
    && (!o.ok ==> Next(o.rest) == Malformed && AllInner(o.structures))
    && forall i :: 0 <= i < |o.structures| ==> Located(o.structures[i])
  }

  lemma {:induction false} WalkTiles(t: Bytes)
    ensures Tiled(t, Walk(t))
    decreases |t|
  {
    if Next(t).Produced? {
      NextSound(t);
      var Produced(s, rest, last) := Next(t);
      if last {
        LastTiles(t, s, rest);
      } else {
        WalkTiles(rest);
        InnerTiles(t, s, rest, Walk(rest));
      }
    }
  }

  lemma LastTiles(t: Bytes, s: Structure, rest: Bytes)
    requires t == s.Wire() + rest && Located(s) && Final(s, rest)
    ensures Tiled(t, Outcome([s], rest, true))
  {
    FlattenCons(s, []);
    assert [s] + [] == [s] && [s][..0] == [];
  }

  lemma InnerTiles(t: Bytes, s: Structure, rest: Bytes, p: Outcome)
    requires t == s.Wire() + rest && Located(s) && Inner(s) && Tiled(rest, p)
    ensures Tiled(t, Outcome([s] + p.structures, p.rest, p.ok))
  {
    FlattenCons(s, p.structures);
    Regroup(s.Wire(), Flatten(p.structures), p.rest);
    if p.ok {
      TilesCons(s, p.structures, p.rest);
    }
  }

  lemma TilesCons(s: Structure, ps: seq<Structure>, rest: Bytes)
    requires Inner(s) && Tiles(ps, rest)
    ensures Tiles([s] + ps, rest)
  {
    if ps != [] {
      var ss := [s] + ps;
      assert ss[..|ss| - 1] == [s] + ps[..|ps| - 1];
    }
  }

  lemma FlattenCons(s: Structure, ss: seq<Structure>)
    ensures Flatten([s] + ss) == s.Wire() + Flatten(ss)
  {
    assert ([s] + ss)[1..] == ss;
  }

  lemma Regroup(a: Bytes, b: Bytes, c: Bytes)
    ensures a + b + c == a + (b + c)
  {
  }

  lemma WalkInner(s: Structure, tail: Bytes)
    requires Inner(s)
    ensures var o := Walk(tail);
      Walk(s.Wire() + tail) == Outcome([s] + o.structures, o.rest, o.ok)
  {
    NextInner(s, tail);
  }

  /** Inner structures at the front are walked as they stand, whatever follows. */
  lemma {:induction false} WalkPrefix(ss: seq<Structure>, tail: Bytes)
    requires AllInner(ss)
    ensures var o := Walk(tail);
      Walk(Flatten(ss) + tail) == Outcome(ss + o.structures, o.rest, o.ok)
  {
    FlattenHead(ss, tail);
    if ss != [] {
      WalkPrefix(ss[1..], tail);
      WalkInner(ss[0], Flatten(ss[1..]) + tail);
      PrependTwice(ss, Walk(tail).structures);
    } else {
    }
  }

  lemma PrependTwice(ss: seq<Structure>, ts: seq<Structure>)
    requires ss != []
    ensures [ss[0]] + (ss[1..] + ts) == ss + ts
  {
  }

  lemma FlattenHead(ss: seq<Structure>, tail: Bytes)
    ensures ss == [] ==> Flatten(ss) + tail == tail
    ensures ss != [] ==> Flatten(ss) + tail == ss[0].Wire() + (Flatten(ss[1..]) + tail)
  {
  }

  lemma {:induction false} FlattenAppend(ss: seq<Structure>, ts: seq<Structure>)
    ensures Flatten(ss + ts) == Flatten(ss) + Flatten(ts)
  {
    if ss == [] {
      assert ss + ts == ts;
    } else {
      assert (ss + ts)[1..] == ss[1..] + ts;
      FlattenAppend(ss[1..], ts);
    }
  }

  lemma NextFinal(s: Structure, rest: Bytes)
    requires Final(s, rest)
    ensures Walk(s.Wire() + rest) == Outcome([s], rest, true)
  {
    if Closed(s.strings) && s.Typ() == TYPE_END {
      NextInner(s, rest);
    } else {
      assert s.Wire() + rest == s.Wire();
      NextShort(s);
    }
  }

  lemma FinalIsWalked(front: seq<Structure>, s: Structure, rest: Bytes)
    requires AllInner(front) && Final(s, rest)
    ensures Walk(Flatten(front + [s]) + rest) == Outcome(front + [s], rest, true)
  {
    NextFinal(s, rest);
    WalkPrefix(front, s.Wire() + rest);
    FlattenSnoc(front, s);
    Regroup(Flatten(front), s.Wire(), rest);
  }

  lemma FlattenSnoc(front: seq<Structure>, s: Structure)
    ensures Flatten(front + [s]) == Flatten(front) + s.Wire()
  {
    FlattenAppend(front, [s]);
    FlattenCons(s, []);
    assert [s] + [] == [s];
  }

  /** A table that can be tiled at all is accepted with exactly that tiling. */
  lemma TilingIsWalked(ss: seq<Structure>, rest: Bytes)
    requires Tiles(ss, rest)
    ensures Walk(Flatten(ss) + rest) == Outcome(ss, rest, true)
  {
    if AllInner(ss) && Exhausted(rest) {
      WalkPrefix(ss, rest);
      assert ss + [] == ss;
    } else {
      var front, s := ss[..|ss| - 1], ss[|ss| - 1];
      assert ss == front + [s];
      FinalIsWalked(front, s, rest);
    }
  }

  /** The walk accepts t with structures ss and leftover rest if and only if they
      tile t: acceptance, and what is accepted, decided without the walk. */
  lemma WalkAcceptsExactly(t: Bytes, ss: seq<Structure>, rest: Bytes)
    ensures Walk(t) == Outcome(ss, rest, true) <==> t == Flatten(ss) + rest && Tiles(ss, rest)
  {
    WalkTiles(t);
    if t == Flatten(ss) + rest && Tiles(ss, rest) {
      TilingIsWalked(ss, rest);
    }
  }

  /** Every structure but a short last one takes at least six bytes. */
  lemma {:induction false} StructureCountBound(t: Bytes)
    ensures 6 * |Walk(t).structures| <= |t| + 1
    decreases |t|
  {
    if Next(t).Produced? {
      NextSound(t);
      var Produced(s, rest, last) := Next(t);
      assert |t| == |s.formatted| + |s.strings| + |rest|;
      if !last {
        StructureCountBound(rest);
      }
    }
  }

  // ----- What follows the table does not matter

  ghost predicate EndsAtEndOfTable(ss: seq<Structure>) {
    && ss != []
    && var s := ss[|ss| - 1];
    && |s.formatted| >= 4 && s.Typ() == 127 && Closed(s.strings)
  }

  /** Once the walk reaches a type-127 structure closed by two NULs, appended
      bytes change neither the structures nor the verdict. */
  lemma EndOfTableHidesTail(t: Bytes, extra: Bytes)
    requires EndsAtEndOfTable(Walk(t).structures)
    ensures var o := Walk(t); Walk(t + extra) == Outcome(o.structures, o.rest + extra, o.ok)
  {
    WalkTiles(t);
    var o := Walk(t);
    LastEndsTable(o.structures, o.rest, extra, o.ok);
    TilingIsWalked(o.structures, o.rest + extra);
    AppendTail(t, Flatten(o.structures), o.rest, extra);
  }

  lemma LastEndsTable(ss: seq<Structure>, rest: Bytes, extra: Bytes, ok: bool)
    requires EndsAtEndOfTable(ss)
    requires if ok then Tiles(ss, rest) else AllInner(ss)
    ensures ok && Tiles(ss, rest + extra)
  {
    assert !Inner(ss[|ss| - 1]);
    assert Final(ss[|ss| - 1], rest + extra);
  }

  lemma AppendTail(t: Bytes, front: Bytes, rest: Bytes, extra: Bytes)
    requires t == front + rest
    ensures t + extra == front + (rest + extra)
  {
  }

  /** Zero padding after a table that ended on a whole structure is not seen. */
  lemma ZeroPaddingIsIgnored(ss: seq<Structure>, n: nat)
    requires AllInner(ss)
    ensures var zeros: Bytes := seq(n, _ => 0);
      Walk(Flatten(ss) + zeros) == Outcome(ss, zeros, true)
  {
    TilingIsWalked(ss, seq(n, _ => 0));
  }

  // ----- The encoder

  /** Non-empty, NUL-free strings: what a string set can hold. */
  ghost predicate Nonempty(strings: seq<Bytes>) {
    forall i :: 0 <= i < |strings| ==> strings[i] != [] && 0 !in strings[i]
  }

  /** A structure in the system's own terms. */
  datatype Record = Record(typ: u8, handle: u16, body: Bytes, strings: seq<Bytes>) {
    ghost predicate Encodable() {
      && |body| <= 251
      && Nonempty(strings)
    }
  }

  function Terminated(strings: seq<Bytes>): Bytes {
    if strings == [] then [] else strings[0] + [0] + Terminated(strings[1..])
  }

  function EncodeSet(strings: seq<Bytes>): Bytes {
    if strings == [] then [0, 0] else Terminated(strings) + [0]
  }

  function Encode(r: Record): Structure
    requires |r.body| <= 251
  {
    Structure([r.typ, 4 + |r.body|, r.handle % 0x100, r.handle / 0x100] + r.body, EncodeSet(r.strings))
  }

  /** The end of the run of non-NUL bytes that k lies in. */
  function RunEnd(v: Bytes, k: nat): (e: nat)
    requires k <= |v|
    ensures k <= e <= |v|
    decreases |v| - k
  {
    if k == |v| || v[k] == 0 then k else RunEnd(v, k + 1)
  }

  /** The leading non-empty runs of v at and after k. */
  function StringsFrom(v: Bytes, k: nat): seq<Bytes>
    requires k <= |v|
    decreases |v| - k
  {
    if k == |v| || v[k] == 0 then []
    else
      var e := RunEnd(v, k);
      [v[k..e]] + StringsFrom(v, if e < |v| then e + 1 else e)
  }

  /** The strings of a set: its leading non-empty runs. */
  function StringList(v: Bytes): seq<Bytes> {
    StringsFrom(v, 0)
  }

  lemma {:induction false} RunEndStops(v: Bytes, k: nat)
    requires k <= |v|
    ensures forall i :: k <= i < RunEnd(v, k) ==> v[i] != 0
    ensures RunEnd(v, k) < |v| ==> v[RunEnd(v, k)] == 0
    decreases |v| - k
  {
    if k < |v| && v[k] != 0 {
      RunEndStops(v, k + 1);
    }
  }

  lemma {:induction false} RunEndIs(v: Bytes, k: nat, e: nat)
    requires k <= e <= |v|
    requires forall i :: k <= i < e ==> v[i] != 0
    requires e < |v| ==> v[e] == 0
    ensures RunEnd(v, k) == e
    decreases e - k
  {
    if k < e {
      RunEndIs(v, k + 1, e);
    }
  }

  lemma {:induction false} StringsFromNonempty(v: Bytes, k: nat)
    requires k <= |v|
    ensures Nonempty(StringsFrom(v, k))
    decreases |v| - k
  {
    if k < |v| && v[k] != 0 {
      var e := RunEnd(v, k);
      RunEndStops(v, k);
      StringsFromNonempty(v, if e < |v| then e + 1 else e);
    }
  }

  function Decode(s: Structure): Record
    requires |s.formatted| >= 4
  {
    Record(s.Typ(), s.Handle(), s.formatted[4..], StringList(s.strings))
  }

  lemma StringHere(pre: Bytes, s: Bytes, more: Bytes, v: Bytes)
    requires s != [] && 0 !in s && v == pre + s + [0] + more
    ensures StringsFrom(v, |pre|) == [s] + StringsFrom(v, |pre| + |s| + 1)
  {
    var k, e := |pre|, |pre| + |s|;
    assert forall i :: k <= i < e ==> v[i] == s[i - k];
    assert v[k..e] == s && v[e] == 0;
    RunEndIs(v, k, e);
  }

  lemma {:induction false} StringsOfTerminated(pre: Bytes, strings: seq<Bytes>, tail: Bytes, v: Bytes)
    requires Nonempty(strings)
    requires tail == [] || tail[0] == 0
    requires v == pre + Terminated(strings) + tail
    ensures StringsFrom(v, |pre|) == strings
    decreases |strings|
  {
    if strings != [] {
      var s, more := strings[0], Terminated(strings[1..]);
      Regroup(pre + s + [0], more, tail);
      Regroup(pre, s + [0], more);
      Regroup(pre, s, [0]);
      StringHere(pre, s, more + tail, v);
      StringsOfTerminated(pre + s + [0], strings[1..], tail, v);
    }
  }

  ghost predicate NoDoubleNul(v: Bytes) {
    forall k: nat :: !DoubleNul(v, k)
  }

  lemma {:induction false} TerminatedHasNoDoubleNul(strings: seq<Bytes>)
    requires Nonempty(strings)
    ensures var v := Terminated(strings);
      && NoDoubleNul(v)
      && (strings != [] ==> |v| >= 2 && v[0] != 0 && v[|v| - 1] == 0)
  {
    if strings != [] {
      var s, more := strings[0], Terminated(strings[1..]);
      TerminatedHasNoDoubleNul(strings[1..]);
      assert s[0] in s;
      OneNulBetween(s, more);
      assert Terminated(strings) == s + [0] + more;
    }
  }

  lemma OneNulBetween(s: Bytes, more: Bytes)
    requires 0 !in s && NoDoubleNul(more) && (more != [] ==> more[0] != 0)
    ensures NoDoubleNul(s + [0] + more)
  {
    var v := s + [0] + more;
    assert forall i :: 0 <= i < |s| ==> v[i] == s[i];
    assert forall i :: 0 <= i < |more| ==> v[|s| + 1 + i] == more[i];
    forall k: nat | k + 1 < |v| ensures !DoubleNul(v, k) {
      var j := k - |s| - 1;
      assert j >= 0 ==> v[|s| + 1 + j] == more[j] && v[|s| + 1 + (j + 1)] == more[j + 1] && !DoubleNul(more, j);
    }
  }

  lemma EncodeSetCloses(strings: seq<Bytes>)
    requires Nonempty(strings)
    ensures Closed(EncodeSet(strings))
  {
    if strings != [] {
      TerminatedHasNoDoubleNul(strings);
      var v, w := Terminated(strings), EncodeSet(strings);
      forall k: nat | k < |w| - 2 ensures !DoubleNul(w, k) {
        assert DoubleNul(w, k) ==> DoubleNul(v, k);
      }
    }
  }

  lemma EncodeSetLists(strings: seq<Bytes>)
    requires Nonempty(strings)
    ensures StringList(EncodeSet(strings)) == strings
  {
    if strings != [] {
      assert EncodeSet(strings) == [] + Terminated(strings) + [0];
      StringsOfTerminated([], strings, [0], EncodeSet(strings));
    }
  }

  lemma DecodeEncode(r: Record)
    requires r.Encodable()
    ensures Encode(r).Framed() && Closed(Encode(r).strings)
    ensures Decode(Encode(r)) == r
  {
    EncodeSetCloses(r.strings);
    EncodeSetLists(r.strings);
    assert Encode(r).formatted[4..] == r.body;
  }

  function EncodeAll(rs: seq<Record>): Bytes
    requires forall i :: 0 <= i < |rs| ==> |rs[i].body| <= 251
  {
    if rs == [] then [] else Encode(rs[0]).Wire() + EncodeAll(rs[1..])
  }

  function Structures(rs: seq<Record>): (ss: seq<Structure>)
    requires forall i :: 0 <= i < |rs| ==> |rs[i].body| <= 251
    ensures |ss| == |rs| && forall i :: 0 <= i < |rs| ==> ss[i] == Encode(rs[i])
  {
    seq(|rs|, i requires 0 <= i < |rs| => Encode(rs[i]))
  }

  /** Records fit to be a table: each encodable, type 127 only last. */
  ghost predicate TableOf(rs: seq<Record>) {
    && (forall i :: 0 <= i < |rs| ==> rs[i].Encodable())
    && forall i :: 0 <= i < |rs| - 1 ==> rs[i].typ != 127
  }

  lemma StructuresTile(rs: seq<Record>)
    requires TableOf(rs)
    ensures forall i :: 0 <= i < |rs| ==> |rs[i].body| <= 251
    ensures Tiles(Structures(rs), [])
  {
    var ss := Structures(rs);
    forall i | 0 <= i < |rs|
      ensures Inner(ss[i]) || (i == |rs| - 1 && Final(ss[i], []))
    {
      DecodeEncode(rs[i]);
    }
  }

  /** Walking an encoded table gives back exactly its records, in order. */
  lemma WalkEncoded(rs: seq<Record>)
    requires TableOf(rs)
    ensures forall i :: 0 <= i < |rs| ==> |rs[i].body| <= 251
    ensures Walk(EncodeAll(rs)) == Outcome(Structures(rs), [], true)
    ensures forall i :: 0 <= i < |rs| ==> Decode(Structures(rs)[i]) == rs[i]
  {
    StructuresTile(rs);
    TilingIsWalked(Structures(rs), []);
    EncodeAllIsFlatten(rs, Structures(rs));
    assert EncodeAll(rs) == Flatten(Structures(rs)) + [];
    forall i | 0 <= i < |rs| ensures Decode(Structures(rs)[i]) == rs[i] {
      DecodeEncode(rs[i]);
    }
  }

  lemma {:induction false} EncodeAllIsFlatten(rs: seq<Record>, ss: seq<Structure>)
    requires forall i :: 0 <= i < |rs| ==> |rs[i].body| <= 251
    requires |ss| == |rs| && forall i :: 0 <= i < |rs| ==> ss[i] == Encode(rs[i])
    ensures EncodeAll(rs) == Flatten(ss)
  {
    if rs != [] {
      EncodeAllIsFlatten(rs[1..], ss[1..]);
    }
  }

  /** Encoding what was decoded restores a framed structure's bytes if and only if
      its set is closed and holds nothing hidden behind a leading NUL. */
  lemma EncodeDecodeExactly(s: Structure)
    requires s.Framed()
    ensures Encode(Decode(s)) == s <==>
      Closed(s.strings) && (s.strings[0] != 0 || |s.strings| == 2)
  {
    StringsFromNonempty(s.strings, 0);
    assert Encode(Decode(s)).formatted == s.formatted;
    SetRestoredExactly(s.strings);
  }

  lemma SetRestoredExactly(v: Bytes)
    ensures EncodeSet(StringList(v)) == v <==> Closed(v) && (v[0] != 0 || |v| == 2)
  {
    var strings := StringList(v);
    StringsFromNonempty(v, 0);
    EncodeSetCloses(strings);
    if EncodeSet(strings) == v {
      TerminatedHasNoDoubleNul(strings);
    } else if Closed(v) {
      if v[0] != 0 {
        ClosedIsRestored(v);
      } else {
        assert strings == [] && v != [0, 0];
      }
    }
  }

  lemma ClosedIsRestored(v: Bytes)
    requires Closed(v) && v[0] != 0
    ensures EncodeSet(StringList(v)) == v
  {
    var u := v[..|v| - 1];
    assert forall k: nat :: DoubleNul(u, k) ==> DoubleNul(v, k);
    TerminatedStrings(u, 0);
    StringsWithoutLastNul(v, 0);
    assert v == u + [0];
  }

  lemma {:induction false} TerminatedStrings(v: Bytes, k: nat)
    requires forall j: nat :: !DoubleNul(v, j)
    requires k <= |v| && (k < |v| ==> v[k] != 0 && v[|v| - 1] == 0)
    ensures Terminated(StringsFrom(v, k)) == v[k..]
    decreases |v| - k
  {
    if k < |v| {
      var e := RunEnd(v, k);
      RunEndStops(v, k);
      assert e < |v| && !DoubleNul(v, e);
      TerminatedStrings(v, e + 1);
      TerminatedCons(v[k..e], StringsFrom(v, e + 1));
      SplitAt(v, k, e);
    }
  }

  lemma TerminatedCons(s: Bytes, strings: seq<Bytes>)
    ensures Terminated([s] + strings) == s + [0] + Terminated(strings)
  {
  }

  lemma SplitAt(v: Bytes, k: nat, e: nat)
    requires k <= e < |v| && v[e] == 0
    ensures v[k..] == v[k..e] + [0] + v[e + 1..]
  {
  }

  /** The last NUL of a set adds no string. */
  lemma {:induction false} StringsWithoutLastNul(v: Bytes, k: nat)
    requires k < |v| && v[|v| - 1] == 0
    ensures StringsFrom(v, k) == StringsFrom(v[..|v| - 1], k)
    decreases |v| - k
  {
    var u := v[..|v| - 1];
    if k < |u| && v[k] != 0 {
      var e := RunEnd(v, k);
      RunEndStops(v, k);
      assert e <= |u|;
      RunEndIs(u, k, e);
      assert u[k..e] == v[k..e];
      if e < |u| {
        StringsWithoutLastNul(v, e + 1);
      }
    }
  }
}
