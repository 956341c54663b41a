/** The walk cursor over a caller's buffer, string references into a structure's
    string set, and the bounded copy of a string into a fixed field. */
module SmbiosCursor {
  import opened Prelude
  import opened SmbiosTable

  /** One raw structure: where its formatted area and its string set lie in the
      buffer, with the header fields read from it. */
  datatype RawStruct = RawStruct(
    typ: u8, formattedLen: u8, handle: u16,
    formatted: nat, strings: nat, stringsLen: nat)
  {
    /** The structure's two areas lie next to each other inside t. */
    ghost predicate In(t: Bytes) {
      && strings == formatted + formattedLen
      && strings + stringsLen <= |t|
    }

    ghost function View(t: Bytes): Structure
      requires In(t)
    {
      Structure(t[formatted..strings], t[strings..strings + stringsLen])
    }
  }

  class Cursor {
    var buf: array?<u8>
    var len: nat
    var off: nat
    var done: bool

    ghost predicate Valid()
      reads this
    {
      && (buf != null ==> off <= len <= buf.Length)
      && (buf == null || len == 0 ==> done)
    }

    ghost function Table(): Bytes
      requires Valid()
      reads this, buf
    {
      if buf == null then [] else buf[..len]
    }

    /** The bytes the walk has yet to look at. */
    ghost function Remaining(): Bytes
      requires Valid()
      reads this, buf
    {
      if done then [] else buf[off..len]
    }

    constructor (b: array?<u8>, n: nat)
      requires b != null ==> n <= b.Length
      ensures Valid() && buf == b && len == n && off == 0
      ensures Remaining() == Table()
    {
      buf, len, off, done := b, n, 0, b == null || n == 0;
    }

    /** Advances to the next structure: 1 with the structure, 0 at the end of the
        table, -EPROTO on a malformed table with the cursor left where it was. */
    method Advance() returns (rc: int, out: Option<RawStruct>)
      requires Valid()
      modifies this`off, this`done
      ensures Valid()
      ensures Reports(Next(old(Remaining())), Table(), old(off), rc, out)
      ensures Moved(Next(old(Remaining())), old(off), off, done, out)
      ensures Remaining() == Left(Next(old(Remaining())), old(Remaining()))
    {
      if done {
        return 0, None;
      }
      ghost var t := Table();
      assert Remaining() == t[off..];
      rc, out := Step(t, Next(t[off..]));
    }

    method Step(ghost t: Bytes, ghost step: Step) returns (rc: int, out: Option<RawStruct>)
      requires Valid() && !done && t == Table() && step == Next(t[off..])
      modifies this`off, this`done
      ensures Valid()
      ensures Reports(step, t, old(off), rc, out) && Moved(step, old(off), off, done, out)
      ensures Remaining() == Left(step, t[old(off)..])
    {
      var short;
      rc, out, short := Locate(buf, len, off, step);
      if out.Some? {
        off := out.value.strings + out.value.stringsLen;
        done := short || out.value.typ == TYPE_END;
        assert Remaining() == if done then [] else t[off..];
      } else {
        done := rc == 0;
        assert Remaining() == if done then [] else t[off..];
      }
    }
  }

  /** What a step leaves of the bytes it looked at. */
  ghost function Left(step: Step, remaining: Bytes): Bytes {
    match step
    case EndOfTable => []
    case Malformed => remaining
    case Produced(_, rest, last) => if last then [] else rest
  }

  /** Where a step leaves the cursor. */
  ghost predicate Moved(step: Step, before: nat, off: nat, done: bool, out: Option<RawStruct>) {
    match step
    case EndOfTable => done && off == before
    case Malformed => !done && off == before
    case Produced(_, _, last) => done == last && out.Some? && off == out.value.strings + out.value.stringsLen
  }

  /** What the walker reports for one step at offset off of table t. */
  ghost predicate Reports(step: Step, t: Bytes, off: nat, rc: int, out: Option<RawStruct>) {
    match step
    case EndOfTable => rc == 0 && out.None?
    case Malformed => rc == -EPROTO && out.None?
    case Produced(s, _, _) =>
      && rc == 1 && out.Some? && out.value.formatted == off && |s.formatted| >= 4
      && out.value.In(t) && out.value.View(t) == s
      && out.value.typ == s.Typ() && out.value.handle == s.Handle()
  }

  /** A step that produced st, `short` if the table ended one terminator early. */
  ghost predicate Yields(step: Step, t: Bytes, st: RawStruct, short: bool) {
    && st.In(t)
    && step == Produced(st.View(t), t[st.strings + st.stringsLen..], short || st.typ == TYPE_END)
  }

  /** The structure at off: the part of a step that only reads the buffer. `short`
      says that the table ended one terminator early. */
  method Locate(buf: array<u8>, len: nat, off: nat, ghost step: Step)
    returns (rc: int, out: Option<RawStruct>, short: bool)
    requires off <= len <= buf.Length && step == Next(buf[..len][off..])
    ensures Reports(step, buf[..len], off, rc, out)
    ensures out.Some? ==> Yields(step, buf[..len], out.value, short)
  {
    short := false;
    var flen;
    rc, flen := ReadHeader(buf, len, off, step);
    if rc != 1 {
      return rc, None, short;
    }
    rc, out, short := LocateSet(buf, len, off, flen, step);
  }

  /** The rest of a step, behind a header that passed its checks. */
  method LocateSet(buf: array<u8>, len: nat, off: nat, flen: u8, ghost step: Step)
    returns (rc: int, out: Option<RawStruct>, short: bool)
    requires off + 4 <= len <= buf.Length && off + flen <= len && 4 <= flen == buf[off + 1]
    requires step == Next(buf[..len][off..])
    ensures Reports(step, buf[..len], off, rc, out)
    ensures out.Some? ==> Yields(step, buf[..len], out.value, short)
  {
    var soff := off + flen;
    var send, terminated;
    send, terminated, short := ScanStringSet(buf, len, soff);
    ghost var t := buf[..len];
    if !terminated {
      NextFailsAt(t, off, soff);
      return -EPROTO, None, short;
    }
    rc, out := 1, Some(RawStruct(buf[off], flen, U16(buf[off + 2], buf[off + 3]), off, soff, send - soff));
    LocatedAt(t, off, soff, send, short, out.value);
  }

  /** The checks made on a header: 1 with the formatted length, 0 at the end of the
      table, -EPROTO on a length that cannot be. */
  method ReadHeader(buf: array<u8>, len: nat, off: nat, ghost step: Step) returns (rc: int, flen: u8)
    requires off <= len <= buf.Length && step == Next(buf[..len][off..])
    ensures rc == 0 ==> step == EndOfTable
    ensures rc == -EPROTO ==> step == Malformed
    ensures rc == 0 || rc == -EPROTO || rc == 1
    ensures rc == 1 ==> off + 4 <= len && off + flen <= len && 4 <= flen == buf[off + 1]
  {
    ghost var u := buf[..len][off..];
    if off + 4 > len {
      return 0, 0;
    }
    var typ := buf[off];
    flen := buf[off + 1];
    assert typ == u[0] && flen == u[1];
    if typ == 0 && flen == 0 {
      return 0, flen;
    }
    if flen < 4 || off + flen > len {
      return -EPROTO, flen;
    }
    return 1, flen;
  }

  lemma LocatedAt(t: Bytes, off: nat, soff: nat, send: nat, short: bool, st: RawStruct)
    requires off + 4 <= |t| && 4 <= t[off + 1] && soff == off + t[off + 1]
    requires soff <= send <= |t| && SetEnd(t, soff) == Some(send)
    requires short <==> send - soff < 2 || t[send - 2] != 0
    requires st == RawStruct(t[off], t[off + 1], U16(t[off + 2], t[off + 3]), off, soff, send - soff)
    ensures st.In(t) && Reports(Next(t[off..]), t, off, 1, Some(st))
    ensures Next(t[off..]) == Produced(st.View(t), t[send..], short || st.typ == TYPE_END)
  {
    var s := Structure(t[off..soff], t[soff..send]);
    NextAt(t, off, soff, send, s);
    FieldsAt(t, off, soff, send, s);
    assert st.View(t) == s;
  }

  /** The end of the string set whose scan has reached k, as a position in t. */
  ghost function SetEnd(t: Bytes, k: nat): (e: Option<nat>)
    requires k <= |t|
    ensures e.Some? ==> k < e.value <= |t| && t[e.value - 1] == 0
    decreases |t| - k
  {
    if k == |t| then None
    else if DoubleNul(t, k) then Some(k + 2)
    else if t[k] == 0 && k + 1 == |t| then Some(k + 1)
    else SetEnd(t, k + 1)
  }

  lemma {:induction false} SetEndIsSetLength(t: Bytes, k: nat)
    requires k <= |t|
    ensures match SetLength(t[k..])
      case None => SetEnd(t, k) == None
      case Some(n) => SetEnd(t, k) == Some(k + n)
    decreases |t| - k
  {
    if k < |t| {
      assert t[k..][1..] == t[k + 1..];
      SetEndIsSetLength(t, k + 1);
    }
  }

  /** The scan for the end of a string set: the first double NUL at or after soff,
      or else a lone NUL in the very last byte. */
  method ScanStringSet(buf: array<u8>, len: nat, soff: nat)
    returns (send: nat, terminated: bool, short: bool)
    requires soff <= len <= buf.Length
    ensures soff <= send <= len
    ensures SetEnd(buf[..len], soff) == if terminated then Some(send) else None
    ensures terminated ==> (short <==> send - soff < 2 || buf[send - 2] != 0)
  {
    ghost var t := buf[..len];
    send, terminated, short := soff, false, false;
    while send < len
      invariant soff <= send <= len
      invariant send > soff && t[send - 1] == 0 ==> send < len && t[send] != 0
      invariant SetEnd(t, soff) == SetEnd(t, send)
    {
      if buf[send] != 0 {
        send := send + 1;
        continue;
      }
      if send + 1 < len && buf[send + 1] == 0 {
        return send + 2, true, false;
      }
      if send + 1 == len {
        return send + 1, true, true;
      }
      send := send + 1;
    }
  }

  lemma NextUnfolds(u: Bytes, flen: nat, e: nat, s: Structure, after: Bytes, rest: Bytes)
    requires 4 <= flen <= e <= |u| && u[1] == flen && after == u[flen..] && rest == u[e..]
    requires SetLength(after) == Some(e - flen)
    requires s.formatted == u[..flen] && s.strings == u[flen..e]
    ensures Next(u) == Produced(s, rest, EndsShort(s.strings) || s.Typ() == TYPE_END)
  {
  }

  lemma SliceOfSlice(t: Bytes, off: nat, soff: nat, send: nat)
    requires off <= soff <= send <= |t|
    ensures t[off..][..soff - off] == t[off..soff]
    ensures t[off..][soff - off..] == t[soff..]
    ensures t[off..][soff - off..send - off] == t[soff..send]
    ensures t[off..][send - off..] == t[send..]
  {
  }

  lemma FieldsAt(t: Bytes, off: nat, soff: nat, send: nat, s: Structure)
    requires off + 4 <= soff < send <= |t|
    requires t[send - 1] == 0
    requires s == Structure(t[off..soff], t[soff..send])
    ensures s.Typ() == t[off] && s.Handle() == U16(t[off + 2], t[off + 3])
    ensures EndsShort(s.strings) <==> send - soff < 2 || t[send - 2] != 0
  {
    assert s.strings[|s.strings| - 1] == t[send - 1];
  }

  /** A step at offset off of t whose string set runs from soff. */
  lemma NextAt(t: Bytes, off: nat, soff: nat, send: nat, s: Structure)
    requires off + 4 <= |t| && 4 <= t[off + 1] && soff == off + t[off + 1]
    requires soff <= send <= |t| && SetEnd(t, soff) == Some(send)
    requires s == Structure(t[off..soff], t[soff..send])
    ensures Next(t[off..]) == Produced(s, t[send..], EndsShort(s.strings) || s.Typ() == TYPE_END)
  {
    LengthAt(t, soff, send);
    SliceOfSlice(t, off, soff, send);
    NextUnfolds(t[off..], soff - off, send - off, s, t[soff..], t[send..]);
  }

  lemma LengthAt(t: Bytes, soff: nat, send: nat)
    requires soff <= send <= |t| && SetEnd(t, soff) == Some(send)
    ensures SetLength(t[soff..]) == Some(send - soff)
  {
    SetEndIsSetLength(t, soff);
  }

  lemma NextFailsAt(t: Bytes, off: nat, soff: nat)
    requires off + 4 <= |t| && 4 <= t[off + 1] && soff == off + t[off + 1] && soff <= |t|
    requires SetEnd(t, soff) == None
    ensures Next(t[off..]) == Malformed
  {
    SetEndIsSetLength(t, soff);
    SliceOfSlice(t, off, soff, soff);
  }

  // ----- Strings

  /** The string a one-based reference denotes: index 0 and dangling references
      denote none. */
  function Reference(v: Bytes, index: u8): Option<Bytes> {
    if 1 <= index <= |StringList(v)| then Some(StringList(v)[index - 1]) else None
  }

  function Offset(p: Option<nat>, base: nat): Option<nat> {
    match p
    case None => None
    case Some(k) => Some(base + k)
  }

  /** Where the i-th leading run at or after k starts. */
  ghost function RunStart(v: Bytes, k: nat, i: nat): (p: Option<nat>)
    requires k <= |v|
    ensures p.Some? ==> k <= p.value < |v| && v[p.value] != 0
    decreases i
  {
    if k == |v| || v[k] == 0 then None
    else if i == 0 then Some(k)
    else
      var e := RunEnd(v, k);
      RunStart(v, if e < |v| then e + 1 else e, i - 1)
  }

  /** Where a reference leads: nowhere when it is 0 or the set is too short. */
  ghost function Found(v: Bytes, index: u8): (p: Option<nat>)
    ensures p.Some? ==> p.value < |v|
  {
    if index == 0 || |v| < 2 then None else RunStart(v, 0, index - 1)
  }

  /** Resolves a one-based string reference to a position in buf. */
  method DmiString(buf: array<u8>, strings: nat, stringsLen: nat, index: u8) returns (r: Option<nat>)
    requires strings + stringsLen <= buf.Length
    ensures r == Offset(Found(buf[strings..strings + stringsLen], index), strings)
  {
    if index == 0 || stringsLen < 2 {
      return None;
    }
    ghost var v := buf[strings..strings + stringsLen];
    var p, end := strings, strings + stringsLen;
    var cur: u8 := 1;
    while p < end && buf[p] != 0
      invariant strings <= p <= end
      invariant 1 <= cur <= index
      invariant RunStart(v, 0, index - 1) == RunStart(v, p - strings, index - cur)
      decreases end - p
    {
      if cur == index {
        return Some(p);
      }
      p := SkipRun(buf, p, strings, end);
      if p < end {
        p := p + 1;
      }
      cur := (cur + 1) % 0x100;
    }
    return None;
  }

  /** The inner loop: past the non-NUL bytes from p, at most to end. */
  method SkipRun(buf: array<u8>, p: nat, ghost base: nat, end: nat) returns (e: nat)
    requires base <= p < end <= buf.Length && buf[p] != 0
    ensures p < e <= end
    ensures e == base + RunEnd(buf[base..end], p - base)
  {
    e := p;
    while e < end && buf[e] != 0
      invariant p <= e <= end
      invariant RunEnd(buf[base..end], p - base) == RunEnd(buf[base..end], e - base)
    {
      e := e + 1;
    }
  }

  /** In a set that ends in a NUL, as every set the walker produces does, the
      reference leads to exactly the index-th leading run, or nowhere if there is
      none; neither the length guard nor the 8-bit counter is ever observable. */
  lemma FoundIsReference(v: Bytes, index: u8)
    requires |v| >= 1 && v[|v| - 1] == 0
    ensures match Found(v, index)
      case None => Reference(v, index) == None
      case Some(p) => Reference(v, index) == Some(v[p..RunEnd(v, p)])
  {
    if |v| < 2 {
      LoneNul(v);
    } else if index >= 1 {
      FoundInList(v, index, StringList(v));
    }
  }

  lemma LoneNul(v: Bytes)
    requires v == [] || v[0] == 0
    ensures StringList(v) == []
  {
  }

  lemma FoundInList(v: Bytes, index: u8, list: seq<Bytes>)
    requires index >= 1 && |v| >= 2 && list == StringList(v)
    ensures match Found(v, index)
      case None => index > |list|
      case Some(p) => index <= |list| && list[index - 1] == v[p..RunEnd(v, p)]
  {
    RunStartIsListed(v, 0, index - 1);
  }

  lemma {:induction false} RunStartIsListed(v: Bytes, k: nat, i: nat)
    requires k <= |v|
    ensures match RunStart(v, k, i)
      case None => i >= |StringsFrom(v, k)|
      case Some(p) => i < |StringsFrom(v, k)| && StringsFrom(v, k)[i] == v[p..RunEnd(v, p)]
    decreases i
  {
    if k < |v| && v[k] != 0 && i > 0 {
      var e := RunEnd(v, k);
      RunStartIsListed(v, if e < |v| then e + 1 else e, i - 1);
    }
  }

  /** In the set encoded for a list of strings, reference i leads to string i for every i
      from 1 to the number of strings, and nowhere for 0 and past the end. */
  lemma EncodedStringFound(strings: seq<Bytes>, index: u8)
    requires Nonempty(strings)
    ensures var v := EncodeSet(strings);
      match Found(v, index)
      case None => index == 0 || index > |strings|
      case Some(p) => 1 <= index <= |strings| && v[p..RunEnd(v, p)] == strings[index - 1]
  {
    EncodeSetLists(strings);
    EncodeSetCloses(strings);
    FoundIsReference(EncodeSet(strings), index);
  }

  function TrimTrailingSpaces(s: Bytes): (r: Bytes)
    ensures r <= s
    ensures forall i :: |r| <= i < |s| ==> s[i] == 0x20
    ensures r != [] ==> r[|r| - 1] != 0x20
  {
    if s != [] && s[|s| - 1] == 0x20 then TrimTrailingSpaces(s[..|s| - 1]) else s
  }

  /** What a string field of capacity cap holds for string s: s cut to cap - 1
      bytes, then stripped of trailing spaces. */
  function FieldText(s: Bytes, cap: nat): Bytes
    requires cap >= 1
  {
    TrimTrailingSpaces(if |s| >= cap then s[..cap - 1] else s)
  }

  /** A field holds a string unchanged exactly when it is shorter than the field and does
      not end in a space; otherwise it holds a shorter prefix of it. */
  lemma FieldKeepsExactly(s: Bytes, cap: nat)
    requires cap >= 1
    ensures FieldText(s, cap) == s <==> |s| < cap && (s == [] || s[|s| - 1] != 0x20)
    ensures FieldText(s, cap) <= s && |FieldText(s, cap)| < cap
  {
    var t := if |s| >= cap then s[..cap - 1] else s;
    assert TrimTrailingSpaces(t) <= t <= s;
  }

  /** What it holds is the longest first part of the string that is shorter than the field
      and does not end in a space, or nothing if there is none but spaces. */
  lemma FieldTextLongest(s: Bytes, cap: nat, t: Bytes)
    requires cap >= 1 && t <= s && |t| < cap && (t == [] || t[|t| - 1] != 0x20)
    ensures t <= FieldText(s, cap)
    ensures FieldText(s, cap) == [] || FieldText(s, cap)[|FieldText(s, cap)| - 1] != 0x20
  {
    var cut := if |s| >= cap then s[..cap - 1] else s;
    assert t <= cut;
    assert t != [] ==> cut[|t| - 1] == t[|t| - 1];
  }

  /** The string referred to at formatted offset `field`. */
  function StringAt(s: Structure, field: nat): Option<Bytes> {
    if field + 1 > |s.formatted| then None else Reference(s.strings, s.formatted[field])
  }

  /** The text of the field at formatted offset `field`, empty when the structure
      is too short for the field or the reference dangles. */
  function TextAt(s: Structure, field: nat, cap: nat): Bytes
    requires cap >= 1
  {
    match StringAt(s, field)
    case None => []
    case Some(str) => FieldText(str, cap)
  }

  /** strlen: the scan stops at the first NUL, which must lie inside the buffer. */
  method Strlen(buf: array<u8>, p: nat, ghost limit: nat) returns (n: nat)
    requires p <= limit < buf.Length && buf[limit] == 0
    ensures p + n <= limit
    ensures forall i :: p <= i < p + n ==> buf[i] != 0
    ensures buf[p + n] == 0
  {
    n := 0;
    while buf[p + n] != 0
      invariant p + n <= limit
      invariant forall i :: p <= i < p + n ==> buf[i] != 0
      decreases limit - (p + n)
    {
      n := n + 1;
    }
  }

  /** Where the string a field refers to lies in the buffer. */
  method FindString(buf: array<u8>, st: RawStruct, field: nat) returns (r: Option<nat>, n: nat)
    requires st.In(buf[..]) && Located(st.View(buf[..]))
    ensures match StringAt(st.View(buf[..]), field)
      case None => r.None?
      case Some(str) => r.Some? && r.value + n <= buf.Length && buf[r.value..r.value + n] == str
  {
    ghost var s := st.View(buf[..]);
    n := 0;
    if field + 1 > st.formattedLen {
      return None, 0;
    }
    var index := buf[st.formatted + field];
    assert index == s.formatted[field];
    ghost var v := buf[st.strings..st.strings + st.stringsLen];
    assert v == s.strings;
    r, n := Resolve(buf, st.strings, st.stringsLen, index);
  }

  /** A string reference resolved, and strlen of what it points to. */
  method Resolve(buf: array<u8>, strings: nat, stringsLen: nat, index: u8)
    returns (r: Option<nat>, n: nat)
    requires 1 <= stringsLen && strings + stringsLen <= buf.Length
    requires buf[strings + stringsLen - 1] == 0
    ensures match Reference(buf[strings..strings + stringsLen], index)
      case None => r.None?
      case Some(str) => r.Some? && r.value + n <= buf.Length && buf[r.value..r.value + n] == str
  {
    n := 0;
    var end := strings + stringsLen;
    r := DmiString(buf, strings, stringsLen, index);
    if r.Some? {
      n := Strlen(buf, r.value, end - 1);
      RunInBuffer(buf[..], strings, end, r.value - strings, n);
    }
    ghost var v := buf[strings..end];
    assert v[|v| - 1] == 0;
    FoundIsReference(v, index);
  }

  lemma RunInBuffer(t: Bytes, lo: nat, hi: nat, k: nat, n: nat)
    requires lo + k + n < hi <= |t| && t[lo + k + n] == 0
    requires forall i :: lo + k <= i < lo + k + n ==> t[i] != 0
    ensures RunEnd(t[lo..hi], k) == k + n && t[lo..hi][k..k + n] == t[lo + k..lo + k + n]
  {
    var v := t[lo..hi];
    assert forall i :: 0 <= i < |v| ==> v[i] == t[lo + i];
    RunEndIs(v, k, k + n);
    SliceWithin(t, lo, hi, k, k + n);
  }

  lemma SliceWithin(t: Bytes, lo: nat, hi: nat, a: nat, b: nat)
    requires a <= b && lo + b <= hi <= |t|
    ensures t[lo..hi][a..b] == t[lo + a..lo + b]
  {
    var x, y := t[lo..hi][a..b], t[lo + a..lo + b];
    assert |x| == |y|;
    assert forall i :: 0 <= i < |x| ==> x[i] == t[lo..hi][a + i] == t[lo + (a + i)] == y[i];
  }

  /** dst holds text, NUL-terminated within cap, and is otherwise as it was. */
  ghost predicate FieldHolds(dst: Bytes, was: Bytes, cap: nat, text: Bytes) {
    && |dst| == |was| && |text| < cap <= |was|
    && dst[..|text| + 1] == text + [0]
    && dst[|text| + 1..] == was[|text| + 1..]
  }

  /** Copies the string a field refers to into dst. */
  method CopyString(dst: array<u8>, cap: nat, buf: array<u8>, st: RawStruct, field: nat)
    requires 1 <= cap <= dst.Length && dst != buf
    requires st.In(buf[..]) && Located(st.View(buf[..]))
    modifies dst
    ensures FieldHolds(dst[..], old(dst[..]), cap, TextAt(st.View(old(buf[..])), field, cap))
  {
    ghost var t, was := buf[..], dst[..];
    dst[0] := 0;
    assert buf[..] == t;
    var r, n := FindString(buf, st, field);
    if r.Some? {
      StoreText(dst, cap, buf, r.value, n, was, t[r.value..r.value + n]);
    }
  }

  /** The string cut to fit, trimmed, copied and terminated. */
  method StoreText(dst: array<u8>, cap: nat, buf: array<u8>, p: nat, len: nat, ghost was: Bytes, ghost str: Bytes)
    requires 1 <= cap <= dst.Length && dst != buf && p + len <= buf.Length && str == buf[p..p + len]
    requires |was| == dst.Length && dst[1..] == was[1..]
    modifies dst
    ensures FieldHolds(dst[..], was, cap, FieldText(str, cap))
  {
    var n := len;
    if n >= cap {
      n := cap - 1;
    }
    assert buf[p..p + n] == if |str| >= cap then str[..cap - 1] else str;
    n := Trimmed(buf, p, n);
    ghost var text := FieldText(str, cap);
    assert buf[p..p + n] == text;
    ghost var before := dst[..];
    MoveBytes(dst, buf, p, n);
    ghost var moved := dst[..];
    TailKept(before, moved, was, n);
    dst[n] := 0;
    assert dst[..] == moved[n := 0];
    FieldWritten(moved, was, text, cap);
  }

  lemma TailKept(before: Bytes, moved: Bytes, was: Bytes, n: nat)
    requires |before| == |moved| == |was| && n < |was| && before[1..] == was[1..] && moved[n..] == before[n..]
    ensures moved[n + 1..] == was[n + 1..]
  {
    assert moved[n + 1..] == moved[n..][1..] && before[n + 1..] == before[n..][1..];
    assert before[n + 1..] == before[1..][n..] && was[n + 1..] == was[1..][n..];
  }

  lemma FieldWritten(moved: Bytes, was: Bytes, text: Bytes, cap: nat)
    requires |moved| == |was| && |text| < cap <= |was|
    requires moved[..|text|] == text && moved[|text| + 1..] == was[|text| + 1..]
    ensures FieldHolds(moved[|text| := 0], was, cap, text)
  {
    var n, r := |text|, moved[|text| := 0];
    assert r[..n + 1] == moved[..n] + [0];
    assert r[n + 1..] == moved[n + 1..];
  }

  /** The trimming loop: how much of buf[p..p + n] precedes its trailing spaces. */
  method Trimmed(buf: array<u8>, p: nat, n: nat) returns (m: nat)
    requires p + n <= buf.Length
    ensures m <= n && buf[p..p + m] == TrimTrailingSpaces(buf[p..p + n])
  {
    m := n;
    while m > 0 && buf[p + m - 1] == 0x20
      invariant 0 <= m <= n
      invariant TrimTrailingSpaces(buf[p..p + n]) == TrimTrailingSpaces(buf[p..p + m])
    {
      assert buf[p..p + m][..m - 1] == buf[p..p + m - 1];
      m := m - 1;
    }
  }

  /** memcpy between distinct arrays. */
  method MoveBytes(dst: array<u8>, src: array<u8>, p: nat, n: nat)
    requires n <= dst.Length && p + n <= src.Length && dst != src
    modifies dst
    ensures dst[..n] == old(src[p..p + n]) && dst[n..] == old(dst[n..])
  {
    for i := 0 to n
      invariant dst[..i] == src[p..p + i] && dst[i..] == old(dst[i..])
    {
      dst[i] := src[p + i];
    }
  }

}
