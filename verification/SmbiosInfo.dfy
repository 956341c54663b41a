/** The aggregate decode of a structure table: first BIOS, system, baseboard and
    chassis records, and bounded tables of processors and memory devices. The
    record decoders are a parameter; SmbiosRecords gives the real ones. */
module SmbiosInfo {
  import opened Prelude
  import opened SmbiosTable
  import opened SmbiosCursor

  const MAX_PROCESSORS := 16
  const MAX_MEMDEVS := 192

  const TYPE_BIOS: u8 := 0
  const TYPE_SYSTEM: u8 := 1
  const TYPE_BASEBOARD: u8 := 2
  const TYPE_CHASSIS: u8 := 3
  const TYPE_PROCESSOR: u8 := 4
  const TYPE_MEMDEV: u8 := 17

  /** How each record is decoded, and what an unused slot holds. */
  datatype Decoders<B, S, D, C, P, M> = Decoders(
    bios: Structure -> B, system: Structure -> S, baseboard: Structure -> D,
    chassis: Structure -> C, processor: Structure -> P, memdev: Structure -> M,
    noProcessor: P, noMemdev: M)

  /** The structures of one type, in table order. */
  ghost function OfType(ss: seq<Structure>, typ: u8): seq<Structure> {
    if ss == [] then []
    else
      var last := ss[|ss| - 1];
      OfType(ss[..|ss| - 1], typ)
        + (if |last.formatted| >= 4 && last.Typ() == typ then [last] else [])
  }

  /** How many of n structures a table of capacity cap stores, and how many it drops. */
  function Stored(n: nat, cap: nat): nat {
    if n <= cap then n else cap
  }

  class Info<B, S, D, C, P, M> {
    const decode: Decoders<B, S, D, C, P, M>
    var bios: Option<B>
    var system: Option<S>
    var baseboard: Option<D>
    var chassis: Option<C>
    const processors: array<P>
    var processorCount: nat
    const memdevs: array<M>
    var memdevCount: nat
    var processorsDropped: nat
    var memdevsDropped: nat
    var structureCount: nat

    ghost predicate Valid() {
      processors.Length == MAX_PROCESSORS && memdevs.Length == MAX_MEMDEVS
    }

    /** The table being read is not one of the tables being written. */
    ghost predicate Apart(buf: array?<u8>) {
      buf != null ==> buf as object != processors && buf as object != memdevs
    }

    constructor (d: Decoders<B, S, D, C, P, M>)
      ensures Valid() && decode == d && fresh(processors) && fresh(memdevs)
    {
      decode := d;
      processors := new P[MAX_PROCESSORS](_ => d.noProcessor);
      memdevs := new M[MAX_MEMDEVS](_ => d.noMemdev);
      bios, system, baseboard, chassis := None, None, None, None;
      processorCount, memdevCount, processorsDropped, memdevsDropped, structureCount := 0, 0, 0, 0, 0;
    }

    /** The record is the decode of exactly the structures ss: each singleton the
        first of its type, slot i the i-th of its type, the rest still zero, and
        what did not fit counted as dropped. */
    ghost predicate Holds(ss: seq<Structure>)
      requires Valid()
      reads this, processors, memdevs
    {
      && structureCount == |ss|
      && HoldsSingletons(ss)
      && HoldsProcessors(OfType(ss, TYPE_PROCESSOR))
      && HoldsMemdevs(OfType(ss, TYPE_MEMDEV))
    }

    ghost predicate HoldsSingletons(ss: seq<Structure>)
      reads this
    {
      && bios == FirstOfType(ss, TYPE_BIOS, decode.bios)
      && system == FirstOfType(ss, TYPE_SYSTEM, decode.system)
      && baseboard == FirstOfType(ss, TYPE_BASEBOARD, decode.baseboard)
      && chassis == FirstOfType(ss, TYPE_CHASSIS, decode.chassis)
    }

    ghost predicate HoldsProcessors(ps: seq<Structure>)
      requires Valid()
      reads this, processors
    {
      && processorCount == Stored(|ps|, MAX_PROCESSORS)
      && processorCount + processorsDropped == |ps|
      && forall i :: 0 <= i < MAX_PROCESSORS ==>
           processors[i] ==
             if i < processorCount then decode.processor(ps[i]) else decode.noProcessor
    }

    ghost predicate HoldsMemdevs(ms: seq<Structure>)
      requires Valid()
      reads this, memdevs
    {
      && memdevCount == Stored(|ms|, MAX_MEMDEVS)
      && memdevCount + memdevsDropped == |ms|
      && forall i :: 0 <= i < MAX_MEMDEVS ==>
           memdevs[i] ==
             if i < memdevCount then decode.memdev(ms[i]) else decode.noMemdev
    }

    method Clear()
      requires Valid()
      modifies this, processors, memdevs
      ensures Holds([])
    {
      bios, system, baseboard, chassis := None, None, None, None;
      processorCount, memdevCount, processorsDropped, memdevsDropped, structureCount := 0, 0, 0, 0, 0;
      forall i | 0 <= i < MAX_PROCESSORS { processors[i] := decode.noProcessor; }
      forall i | 0 <= i < MAX_MEMDEVS { memdevs[i] := decode.noMemdev; }
    }

    method AddProcessor(s: Structure, ghost ps: seq<Structure>)
      requires Valid() && HoldsProcessors(ps)
      modifies this`processorCount, this`processorsDropped, processors
      ensures HoldsProcessors(ps + [s])
    {
      if processorCount < MAX_PROCESSORS {
        processors[processorCount] := decode.processor(s);
        processorCount := processorCount + 1;
      } else {
        processorsDropped := processorsDropped + 1;
      }
    }

    method AddMemdev(s: Structure, ghost ms: seq<Structure>)
      requires Valid() && HoldsMemdevs(ms)
      modifies this`memdevCount, this`memdevsDropped, memdevs
      ensures HoldsMemdevs(ms + [s])
    {
      if memdevCount < MAX_MEMDEVS {
        memdevs[memdevCount] := decode.memdev(s);
        memdevCount := memdevCount + 1;
      } else {
        memdevsDropped := memdevsDropped + 1;
      }
    }

    method AddSingleton(s: Structure, ghost ss: seq<Structure>)
      requires HoldsSingletons(ss) && |s.formatted| >= 4
      modifies this`bios, this`system, this`baseboard, this`chassis
      ensures HoldsSingletons(ss + [s])
    {
      FirstOfTypeAppend(ss, s, TYPE_BIOS, decode.bios);
      FirstOfTypeAppend(ss, s, TYPE_SYSTEM, decode.system);
      FirstOfTypeAppend(ss, s, TYPE_BASEBOARD, decode.baseboard);
      FirstOfTypeAppend(ss, s, TYPE_CHASSIS, decode.chassis);
      var typ := s.Typ();
      if typ == TYPE_BIOS {
        if bios.None? { bios := Some(decode.bios(s)); }
      } else if typ == TYPE_SYSTEM {
        if system.None? { system := Some(decode.system(s)); }
      } else if typ == TYPE_BASEBOARD {
        if baseboard.None? { baseboard := Some(decode.baseboard(s)); }
      } else if typ == TYPE_CHASSIS {
        if chassis.None? { chassis := Some(decode.chassis(s)); }
      }
    }

    /** One turn of the decode loop. */
    method Absorb(s: Structure, ghost ss: seq<Structure>)
      requires Valid() && Holds(ss) && |s.formatted| >= 4
      modifies this, processors, memdevs
      ensures Holds(ss + [s])
    {
      OfTypeAppend(ss, s, TYPE_PROCESSOR);
      OfTypeAppend(ss, s, TYPE_MEMDEV);
      structureCount := structureCount + 1;
      AddSingleton(s, ss);
      AddDevice(s, OfType(ss, TYPE_PROCESSOR), OfType(ss, TYPE_MEMDEV));
    }

    method AddDevice(s: Structure, ghost ps: seq<Structure>, ghost ms: seq<Structure>)
      requires Valid() && HoldsProcessors(ps) && HoldsMemdevs(ms) && |s.formatted| >= 4
      modifies this`processorCount, this`processorsDropped, processors
      modifies this`memdevCount, this`memdevsDropped, memdevs
      ensures HoldsProcessors(ps + if s.Typ() == TYPE_PROCESSOR then [s] else [])
      ensures HoldsMemdevs(ms + if s.Typ() == TYPE_MEMDEV then [s] else [])
    {
      assert ps + [] == ps && ms + [] == ms;
      if s.Typ() == TYPE_PROCESSOR {
        AddProcessor(s, ps);
      } else if s.Typ() == TYPE_MEMDEV {
        AddMemdev(s, ms);
      }
    }
  }

  /** A record's contents are determined by the structures it holds: two records filled
      from the same structures, whatever was in them and whatever bytes the structures
      came in, agree in every field and slot. */
  lemma HoldsDetermines<B, S, D, C, P, M>(
      a: Info<B, S, D, C, P, M>, b: Info<B, S, D, C, P, M>, ss: seq<Structure>)
    requires a.Valid() && b.Valid() && a.decode == b.decode && a.Holds(ss) && b.Holds(ss)
    ensures a.bios == b.bios && a.system == b.system && a.baseboard == b.baseboard && a.chassis == b.chassis
    ensures a.processors[..] == b.processors[..] && a.memdevs[..] == b.memdevs[..]
    ensures a.processorCount == b.processorCount && a.memdevCount == b.memdevCount
    ensures a.processorsDropped == b.processorsDropped && a.memdevsDropped == b.memdevsDropped
    ensures a.structureCount == b.structureCount
  {
    assert forall i :: 0 <= i < MAX_PROCESSORS ==> a.processors[i] == b.processors[i];
    assert forall i :: 0 <= i < MAX_MEMDEVS ==> a.memdevs[i] == b.memdevs[i];
  }

  /** The decode of the first structure of a type, if there is one. */
  ghost function FirstOfType<R>(ss: seq<Structure>, typ: u8, decode: Structure -> R): Option<R> {
    var ts := OfType(ss, typ);
    if ts == [] then None else Some(decode(ts[0]))
  }

  lemma FirstOfTypeAppend<R>(ss: seq<Structure>, s: Structure, typ: u8, decode: Structure -> R)
    requires |s.formatted| >= 4
    ensures FirstOfType(ss + [s], typ, decode) ==
      if s.Typ() == typ && FirstOfType(ss, typ, decode).None? then Some(decode(s))
      else FirstOfType(ss, typ, decode)
  {
    OfTypeAppend(ss, s, typ);
  }

  lemma OfTypeAppend(ss: seq<Structure>, s: Structure, typ: u8)
    ensures OfType(ss + [s], typ) ==
      OfType(ss, typ) + if |s.formatted| >= 4 && s.formatted[0] == typ then [s] else []
  {
    assert (ss + [s])[..|ss + [s]| - 1] == ss;
  }

  lemma InsidePrefix(t: Bytes, len: nat, a: nat, b: nat)
    requires a <= b <= len <= |t|
    ensures t[..len][a..b] == t[a..b]
  {
  }

  /** The bytes a record decoder gets to read. */
  method Fetch(buf: array<u8>, len: nat, st: RawStruct) returns (s: Structure)
    requires len <= buf.Length && st.In(buf[..len])
    ensures s == st.View(buf[..len])
  {
    s := Structure(buf[st.formatted..st.strings], buf[st.strings..st.strings + st.stringsLen]);
    InsidePrefix(buf[..], len, st.formatted, st.strings);
    InsidePrefix(buf[..], len, st.strings, st.strings + st.stringsLen);
  }

  /** What one step hands to the decoders. */
  ghost predicate Hands(step: Step, rc: int, s: Option<Structure>) {
    match step
    case EndOfTable => rc == 0 && s.None?
    case Malformed => rc == -EPROTO && s.None?
    case Produced(structure, _, _) => rc == 1 && s == Some(structure) && |structure.formatted| >= 4
  }

  method NextStructure(cur: Cursor) returns (rc: int, s: Option<Structure>)
    requires cur.Valid()
    modifies cur`off, cur`done
    ensures cur.Valid() && cur.Remaining() == Left(Next(old(cur.Remaining())), old(cur.Remaining()))
    ensures Hands(Next(old(cur.Remaining())), rc, s)
  {
    s := None;
    var found;
    rc, found := cur.Advance();
    if rc == 1 {
      var structure := Fetch(cur.buf, cur.len, found.value);
      s := Some(structure);
    }
  }

  /** Parses a whole table into out, which is first zeroed: on success and on failure
      alike it ends up holding exactly the structures walked. */
  method Parse<B, S, D, C, P, M>(buf: array?<u8>, len: nat, out: Info<B, S, D, C, P, M>) returns (rc: int)
    requires buf != null ==> len <= buf.Length
    requires out.Valid() && out.Apart(buf)
    modifies out, out.processors, out.memdevs
    ensures buf == null || len < 6 ==> rc == -EINVAL && out.Holds([])
    ensures buf != null && len >= 6 ==>
      var o := Walk(old(buf[..len]));
      out.Holds(o.structures) && rc == if o.ok then 0 else -EPROTO
  {
    out.Clear();
    if buf == null || len < 6 {
      return -EINVAL;
    }
    var cur := new Cursor(buf, len);
    ghost var o := Walk(buf[..len]);
    AheadAtStart(cur.Remaining());
    rc := DecodeLoop(cur, out, o);
  }

  method DecodeLoop<B, S, D, C, P, M>(cur: Cursor, out: Info<B, S, D, C, P, M>, ghost o: Outcome)
    returns (rc: int)
    requires cur.Valid() && out.Valid() && out.Holds([]) && out.Apart(cur.buf)
    requires Ahead(o, [], cur.Remaining())
    modifies cur`off, cur`done, out, out.processors, out.memdevs
    ensures out.Holds(o.structures) && rc == if o.ok then 0 else -EPROTO
  {
    ghost var walked: seq<Structure> := [];
    rc := 1;
    while rc == 1
      invariant cur.Valid() && out.Holds(walked)
      invariant if rc == 1 then Ahead(o, walked, cur.Remaining())
                else walked == o.structures && rc == if o.ok then 0 else -EPROTO
      decreases rc == 1, |cur.Remaining()|
    {
      rc, walked := DecodeStep(cur, out, o, walked);
    }
  }

  /** One turn: the next structure found and absorbed. */
  method DecodeStep<B, S, D, C, P, M>(
      cur: Cursor, out: Info<B, S, D, C, P, M>, ghost o: Outcome, ghost walked: seq<Structure>)
    returns (rc: int, ghost walked': seq<Structure>)
    requires cur.Valid() && out.Valid() && out.Holds(walked) && out.Apart(cur.buf)
    requires Ahead(o, walked, cur.Remaining())
    modifies cur`off, cur`done, out, out.processors, out.memdevs
    ensures cur.Valid() && out.Holds(walked')
    ensures if rc == 1 then Ahead(o, walked', cur.Remaining()) && |cur.Remaining()| < |old(cur.Remaining())|
            else walked' == o.structures && rc == if o.ok then 0 else -EPROTO
  {
    walked' := walked;
    StepAhead(o, walked, cur.Remaining());
    var s;
    rc, s := NextStructure(cur);
    if rc == 1 {
      out.Absorb(s.value, walked);
      walked' := walked + [s.value];
    }
  }

  /** The whole walk is what was walked followed by the walk of what remains. */
  ghost predicate Ahead(o: Outcome, walked: seq<Structure>, remaining: Bytes) {
    && o.structures == walked + Walk(remaining).structures
    && o.ok == Walk(remaining).ok
  }

  lemma AheadAtStart(t: Bytes)
    ensures Ahead(Walk(t), [], t)
  {
    assert [] + Walk(t).structures == Walk(t).structures;
  }

  lemma StepAhead(o: Outcome, walked: seq<Structure>, r: Bytes)
    requires Ahead(o, walked, r)
    ensures match Next(r)
      case EndOfTable => o.structures == walked && o.ok
      case Malformed => o.structures == walked && !o.ok
      case Produced(s, rest, last) =>
        |rest| < |r| && r != [] && Ahead(o, walked + [s], if last then [] else rest)
  {
    WalkStep(r);
  }

  lemma WalkStep(t: Bytes)
    ensures match Next(t)
      case EndOfTable => Walk(t) == Outcome([], t, true)
      case Malformed => Walk(t) == Outcome([], t, false)
      case Produced(s, rest, last) =>
        && s.Framed() && |rest| < |t|
        && Walk(t).structures == [s] + Walk(if last then [] else rest).structures
        && Walk(t).ok == Walk(if last then [] else rest).ok
  {
    if Next(t).Produced? {
      NextSound(t);
    }
  }
}
