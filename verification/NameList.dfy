/** The truncating name-list renderers, which follow the snprintf convention: they
    return the length of the whole list whatever fits into the buffer. */
module NameList {
  import opened GoStrings

  // ----- What is written

  /** What name i contributes: every name but the first brings its space along. */
  function Piece(i: nat, name: string): string {
    if i == 0 then name else " " + name
  }

  datatype Out = Out(need: nat, text: string)

  /** One more piece: passed over when it does not fit, though a later, shorter one may
      still be written. */
  function Grow(o: Out, p: string, cap: nat): Out {
    Out(o.need + |p|, if |o.text| + |p| < cap then o.text + p else o.text)
  }

  /** The greedy rendering. */
  function Emit(names: seq<string>, cap: nat): Out {
    if names == [] then Out(0, "")
    else
      var n := |names| - 1;
      Grow(Emit(names[..n], cap), Piece(n, names[n]), cap)
  }

  /** The whole list. */
  function Full(names: seq<string>): string {
    if names == [] then ""
    else
      var n := |names| - 1;
      Full(names[..n]) + Piece(n, names[n])
  }

  lemma {:induction false} FullIsJoin(names: seq<string>)
    ensures Full(names) == Join(names, ' ')
  {
    if names != [] {
      var n := |names| - 1;
      FullIsJoin(names[..n]);
      JoinSnoc(names[..n], names[n]);
      assert names == names[..n] + [names[n]];
    }
  }

  lemma JoinSnoc(front: seq<string>, x: string)
    ensures Join(front + [x], ' ') == Join(front, ' ') + Piece(|front|, x)
  {
    if front == [] {
      assert front + [x] == [x];
    } else {
      JoinConcat(front, [x], ' ');
    }
  }

  /** For every list and every capacity: the return value is the length of the
      space-joined list; what is written stays below the capacity; and it is the whole
      list if and only if the return value is below the capacity. */
  lemma {:induction false} EmitExactly(names: seq<string>, cap: nat)
    ensures var o := Emit(names, cap);
      && o.need == |Join(names, ' ')|
      && |o.text| <= o.need
      && (cap > 0 ==> |o.text| < cap)
      && (cap > 0 ==> (o.text == Join(names, ' ') <==> o.need < cap))
  {
    FullIsJoin(names);
    EmitFull(names, cap);
  }

  lemma {:induction false} EmitFull(names: seq<string>, cap: nat)
    ensures var o := Emit(names, cap);
      && o.need == |Full(names)|
      && |o.text| <= o.need
      && (cap > 0 ==> |o.text| < cap)
      && (o.need < cap ==> o.text == Full(names))
  {
    if names != [] {
      EmitFull(names[..|names| - 1], cap);
    }
  }

  // ----- Whole names, in order

  /** Which names the greedy rendering wrote. */
  function Written(names: seq<string>, cap: nat): (keep: seq<bool>)
    ensures |keep| == |names|
  {
    if names == [] then []
    else
      var n := |names| - 1;
      Written(names[..n], cap) + [|Emit(names[..n], cap).text| + |Piece(n, names[n])| < cap]
  }

  /** The pieces of the names kept, one after another. */
  function Assemble(names: seq<string>, keep: seq<bool>): string
    requires |keep| == |names|
  {
    if names == [] then ""
    else
      var n := |names| - 1;
      Assemble(names[..n], keep[..n]) + if keep[n] then Piece(n, names[n]) else ""
  }

  /** Only whole names are written, in list order. */
  lemma {:induction false} WrittenIsAssembled(names: seq<string>, cap: nat)
    ensures Emit(names, cap).text == Assemble(names, Written(names, cap))
  {
    if names != [] {
      var n := |names| - 1;
      WrittenIsAssembled(names[..n], cap);
      assert Written(names, cap)[..n] == Written(names[..n], cap);
    }
  }

  /** Some name after the first fits an empty buffer, space and all. */
  ghost predicate LaterFits(names: seq<string>, cap: nat) {
    exists i :: 1 <= i < |names| && |names[i]| + 1 < cap
  }

  lemma LaterNext(names: seq<string>, cap: nat)
    requires names != []
    ensures var n := |names| - 1;
      LaterFits(names, cap) <==> LaterFits(names[..n], cap) || (n >= 1 && |names[n]| + 1 < cap)
  {
    var n := |names| - 1;
    if LaterFits(names[..n], cap) {
      var i :| 1 <= i < n && |names[..n][i]| + 1 < cap;
      assert |names[i]| + 1 < cap;
    }
    if LaterFits(names, cap) {
      var i :| 1 <= i < |names| && |names[i]| + 1 < cap;
      assert i < n ==> |names[..n][i]| + 1 < cap;
    }
  }

  /** What is written begins with a space exactly when the first name alone does not fit
      and a later one does; and nothing at all is written exactly when none of them does. */
  lemma {:induction false} LeadingSpaceExactly(names: seq<string>, cap: nat)
    requires Spaceless(names)
    ensures Leads(Emit(names, cap).text, names, cap)
  {
    if names != [] {
      var n := |names| - 1;
      LeadingSpaceExactly(names[..n], cap);
      LaterNext(names, cap);
    }
  }

  /** No name is empty or begins with a space itself. */
  ghost predicate Spaceless(names: seq<string>) {
    forall i :: 0 <= i < |names| ==> names[i] != "" && names[i][0] != ' '
  }

  ghost predicate Leads(text: string, names: seq<string>, cap: nat) {
    && (text == "" <==> names == [] || (|names[0]| >= cap && !LaterFits(names, cap)))
    && (text != "" && text[0] == ' ' <==> names != [] && |names[0]| >= cap && LaterFits(names, cap))
  }

  /** A three-byte buffer skips "abc" and then holds " x". */
  lemma LeadingSpaceShows()
    ensures Emit(["abc", "x"], 3) == Out(5, " x")
  {
    var names := ["abc", "x"];
    assert names[..1] == ["abc"] && ["abc"][..0] == [];
    assert Emit([], 3) == Out(0, "");
    assert Emit(["abc"], 3) == Out(3, "");
  }

  /** With room for everything the names are read back by Fields. */
  lemma NamesReadBack(names: seq<string>, cap: nat)
    requires Words(names) && Emit(names, cap).need < cap
    ensures Fields(Emit(names, cap).text) == names
  {
    EmitExactly(names, cap);
    FieldsJoin(names);
  }

  // ----- The buffer

  /** A buffer that held was, once text and its NUL are at its start: the bytes beyond
      keep their value, and a buffer of capacity 0 is not touched. */
  function Image(was: string, cap: nat, text: string): string {
    if cap == 0 || |text| >= |was| then was else text + "\0" + was[|text| + 1..]
  }

  /** The buffer holds text, NUL-terminated below its capacity, when there is a buffer
      at all, and nothing past the NUL was touched. */
  ghost predicate Holds(buf: string, was: string, cap: nat, text: string) {
    cap <= |was| && (cap > 0 ==> |text| < cap) && buf == Image(was, cap, text)
  }

  /** The labels of the numbers below n that are in the set, in order. */
  function Collect(inSet: nat -> bool, nameOf: nat -> string, n: nat): seq<string> {
    if n == 0 then []
    else
      var front := Collect(inSet, nameOf, n - 1);
      if inSet(n - 1) then front + [nameOf(n - 1)] else front
  }

  /** Where a renderer's loop stands after the given names. */
  ghost predicate Rendered(buf: string, was: string, cap: nat, need: nat, used: nat, first: bool,
                           names: seq<string>)
  {
    var o := Emit(names, cap);
    need == o.need && used == |o.text| && (first <==> names == []) && Holds(buf, was, cap, o.text)
  }

  method StartBuffer(buf: array<char>, cap: nat)
    requires cap <= buf.Length
    modifies buf
    ensures Holds(buf[..], old(buf[..]), cap, "")
  {
    if cap > 0 {
      buf[0] := '\0';
    }
  }

  /** One more name. */
  method RenderName(buf: array<char>, ghost was: string, cap: nat, need: nat, used: nat, name: string,
                    first: bool, ghost names: seq<string>)
    returns (need': nat, used': nat)
    requires Rendered(buf[..], was, cap, need, used, first, names)
    modifies buf
    ensures Rendered(buf[..], was, cap, need', used', false, names + [name])
  {
    need', used' := PutName(buf, was, cap, need, used, name, first, |names|, Emit(names, cap));
  }

  /** The body both loops share: one name appended if it fits. o is what was rendered
      so far, of n names. */
  method PutName(buf: array<char>, ghost was: string, cap: nat, need: nat, used: nat, name: string,
                 first: bool, ghost n: nat, ghost o: Out)
    returns (need': nat, used': nat)
    requires Holds(buf[..], was, cap, o.text)
    requires (first <==> n == 0) && need == o.need && used == |o.text|
    modifies buf
    ensures var o' := Grow(o, Piece(n, name), cap);
      Holds(buf[..], was, cap, o'.text) && need' == o'.need && used' == |o'.text|
  {
    var add := |name| + if first then 0 else 1;
    need' := need + add;
    used' := used;
    if cap > 0 && used + add < cap {
      ghost var b := buf[..];
      PutPiece(buf, used, first, name, n);
      used' := used + add;
      ghost var c := buf[..];
      buf[used'] := '\0';
      Extends(was, cap, o.text, Piece(n, name), b, c, buf[..]);
    }
  }

  /** The piece written over the NUL, and a new NUL after it. */
  lemma Extends(was: string, cap: nat, text: string, p: string, b: string, c: string, d: string)
    requires |text| + |p| < cap <= |was|
    requires b == Image(was, cap, text)
    requires c == b[..|text|] + p + b[|text| + |p|..]
    requires d == c[|text| + |p| := '\0']
    ensures d == Image(was, cap, text + p)
  {
  }

  method PutPiece(buf: array<char>, used: nat, first: bool, name: string, ghost n: nat)
    requires first <==> n == 0
    requires used + |Piece(n, name)| <= buf.Length
    modifies buf
    ensures var b := old(buf[..]);
      buf[..] == b[..used] + Piece(n, name) + b[used + |Piece(n, name)|..]
  {
    if !first {
      ghost var b := buf[..];
      buf[used] := ' ';
      ghost var c := buf[..];
      CopyName(buf, used + 1, name);
      SpaceFirst(b, used, name, c, buf[..]);
    } else {
      CopyName(buf, used, name);
    }
  }

  lemma SpaceFirst(b: string, used: nat, name: string, c: string, d: string)
    requires used + 1 + |name| <= |b| && c == b[used := ' ']
    requires d == c[..used + 1] + name + c[used + 1 + |name|..]
    ensures d == b[..used] + (" " + name) + b[used + 1 + |name|..]
  {
  }

  lemma CopyNext(b: string, at: nat, name: string, k: nat, c: string, d: string)
    requires k < |name| && at + |name| <= |b|
    requires c == b[..at] + name[..k] + b[at + k..] && d == c[at + k := name[k]]
    ensures d == b[..at] + name[..k + 1] + b[at + (k + 1)..]
  {
  }

  method CopyName(buf: array<char>, at: nat, name: string)
    requires at + |name| <= buf.Length
    modifies buf
    ensures var b := old(buf[..]);
      buf[..] == b[..at] + name + b[at + |name|..]
  {
    ghost var b := buf[..];
    for k := 0 to |name|
      invariant buf[..] == b[..at] + name[..k] + b[at + k..]
    {
      ghost var c := buf[..];
      buf[at + k] := name[k];
      CopyNext(b, at, name, k, c, buf[..]);
    }
  }
}
