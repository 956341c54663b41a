/** The parts of Go's strings and strconv packages the collectors lean on, over
    texts as sequences of code points. */
module GoStrings {
  import opened Prelude
  import opened Decimal
  import opened GoInt

  /** The first position of c at or after k, or the end of the text. */
  function IndexOf(s: string, k: nat, c: char): (e: nat)
    requires k <= |s|
    ensures k <= e <= |s|
    ensures e < |s| ==> s[e] == c
    decreases |s| - k
  {
    if k == |s| || s[k] == c then k else IndexOf(s, k + 1, c)
  }

  lemma {:induction false} IndexOfIs(s: string, k: nat, c: char, e: nat)
    requires k <= e <= |s|
    requires forall i :: k <= i < e ==> s[i] != c
    requires e < |s| ==> s[e] == c
    ensures IndexOf(s, k, c) == e
    decreases e - k
  {
    if k < e {
      IndexOfIs(s, k + 1, c, e);
    }
  }

  lemma {:induction false} IndexOfFirst(s: string, k: nat, c: char)
    requires k <= |s|
    ensures forall i :: k <= i < IndexOf(s, k, c) ==> s[i] != c
    decreases |s| - k
  {
    if k < |s| && s[k] != c {
      IndexOfFirst(s, k + 1, c);
    }
  }

  function SplitFrom(s: string, k: nat, sep: char): (parts: seq<string>)
    requires k <= |s|
    ensures parts != []
    decreases |s| - k
  {
    var e := IndexOf(s, k, sep);
    [s[k..e]] + if e == |s| then [] else SplitFrom(s, e + 1, sep)
  }

  /** strings.Split with a one-character separator. */
  function Split(s: string, sep: char): (parts: seq<string>)
    ensures parts != []
  {
    SplitFrom(s, 0, sep)
  }

  datatype CutResult = CutResult(before: string, after: string, found: bool)

  function Cut(s: string, sep: char): CutResult {
    var e := IndexOf(s, 0, sep);
    if e == |s| then CutResult(s, "", false) else CutResult(s[..e], s[e + 1..], true)
  }

  /** Unicode white space. */
  predicate IsSpace(c: char) {
    || c == ' ' || '\t' <= c <= '\r'
    || c == '\U{0085}' || c == '\U{00A0}' || c == '\U{1680}'
    || '\U{2000}' <= c <= '\U{200A}'
    || c == '\U{2028}' || c == '\U{2029}' || c == '\U{202F}' || c == '\U{205F}' || c == '\U{3000}'
  }

  /** Past the white space at k. */
  function SpacesEnd(s: string, k: nat): (e: nat)
    requires k <= |s|
    ensures k <= e <= |s|
    ensures e < |s| ==> !IsSpace(s[e])
    decreases |s| - k
  {
    if k < |s| && IsSpace(s[k]) then SpacesEnd(s, k + 1) else k
  }

  /** Where the white space that ends at e starts, not before b. */
  function SpacesStart(s: string, b: nat, e: nat): (r: nat)
    requires b <= e <= |s|
    ensures b <= r <= e
    ensures r > b ==> !IsSpace(s[r - 1])
    decreases e
  {
    if e > b && IsSpace(s[e - 1]) then SpacesStart(s, b, e - 1) else e
  }

  function TrimSpace(s: string): string {
    var b := SpacesEnd(s, 0);
    s[b..SpacesStart(s, b, |s|)]
  }

  lemma TrimSpaceIdle(s: string)
    requires s == "" || (!IsSpace(s[0]) && !IsSpace(s[|s| - 1]))
    ensures TrimSpace(s) == s
  {
    assert s[0..|s|] == s;
  }

  /** White space around a text that has none at its ends is trimmed off. */
  lemma TrimSpaceIs(s: string, b: nat, e: nat)
    requires b < e <= |s| && !IsSpace(s[b]) && !IsSpace(s[e - 1])
    requires forall i :: 0 <= i < b || e <= i < |s| ==> IsSpace(s[i])
    ensures TrimSpace(s) == s[b..e]
  {
    SpacesEndIs(s, 0, b);
    SpacesStartIs(s, b, |s|, e);
  }

  lemma {:induction false} SpacesEndIs(s: string, k: nat, e: nat)
    requires k <= e < |s| && !IsSpace(s[e]) && forall i :: k <= i < e ==> IsSpace(s[i])
    ensures SpacesEnd(s, k) == e
    decreases e - k
  {
    if k < e {
      SpacesEndIs(s, k + 1, e);
    }
  }

  lemma {:induction false} SpacesStartIs(s: string, b: nat, k: nat, e: nat)
    requires b < e <= k <= |s| && !IsSpace(s[e - 1]) && forall i :: e <= i < k ==> IsSpace(s[i])
    ensures SpacesStart(s, b, k) == e
    decreases k - e
  {
    if e < k {
      SpacesStartIs(s, b, k - 1, e);
    }
  }

  /** The end of the run of non-space characters at k. */
  function WordEnd(s: string, k: nat): (e: nat)
    requires k <= |s|
    ensures k <= e <= |s|
    ensures k < |s| && !IsSpace(s[k]) ==> k < e
    decreases |s| - k
  {
    if k < |s| && !IsSpace(s[k]) then WordEnd(s, k + 1) else k
  }

  function FieldsFrom(s: string, k: nat): seq<string>
    requires k <= |s|
    decreases |s| - k
  {
    var b := SpacesEnd(s, k);
    if b == |s| then []
    else
      var e := WordEnd(s, b);
      [s[b..e]] + FieldsFrom(s, e)
  }

  /** strings.Fields: the maximal runs of non-space characters. */
  function Fields(s: string): seq<string> {
    FieldsFrom(s, 0)
  }

  function TrimSuffix(s: string, suffix: string): string {
    if |s| >= |suffix| && s[|s| - |suffix|..] == suffix then s[..|s| - |suffix|] else s
  }

  /** strconv.Atoi on a 64-bit platform; None is an error. */
  function Atoi(s: string): (n: Option<int>)
    ensures n.Some? ==> -MAX_INT - 1 <= n.value <= MAX_INT
  {
    var k := if s != "" && (s[0] == '+' || s[0] == '-') then 1 else 0;
    if k == |s| || DigitsEnd(s, k) != |s| then None
    else
      var v: int := Value(s, k, |s|);
      if s[0] == '-' then (if v <= MAX_INT + 1 then Some(-v) else None)
      else if v <= MAX_INT then Some(v) else None
  }

  function AtoiOrZero(s: string): int {
    match Atoi(TrimSpace(s))
    case None => 0
    case Some(n) => n
  }

  lemma CutJoined(before: string, sep: char, after: string, s: string)
    requires sep !in before && s == before + [sep] + after
    ensures Cut(s, sep) == CutResult(before, after, true)
  {
    assert forall i :: 0 <= i < |before| ==> s[i] == before[i];
    IndexOfIs(s, 0, sep, |before|);
  }

  // ----- Joining, and taking apart what was joined

  /** strings.Join with a one-character separator. */
  function Join(parts: seq<string>, sep: char): string {
    if parts == [] then ""
    else if |parts| == 1 then parts[0]
    else parts[0] + [sep] + Join(parts[1..], sep)
  }

  ghost predicate Free(parts: seq<string>, sep: char) {
    forall i :: 0 <= i < |parts| ==> sep !in parts[i]
  }

  lemma FreeConcat(xs: seq<string>, ys: seq<string>, sep: char)
    requires Free(xs, sep) && Free(ys, sep)
    ensures Free(xs + ys, sep)
  {
  }

  lemma PartEnds(pre: string, p: string, tail: string, s: string, sep: char)
    requires sep !in p && s == pre + p + tail && (tail == "" || tail[0] == sep)
    ensures IndexOf(s, |pre|, sep) == |pre| + |p|
    ensures s[|pre|..|pre| + |p|] == p
  {
    var k, e := |pre|, |pre| + |p|;
    forall i | k <= i < e ensures s[i] != sep {
      assert s[i] == p[i - k] && p[i - k] in p;
    }
    IndexOfIs(s, k, sep, e);
  }

  lemma SplitGoesOn(s: string, k: nat, sep: char, e: nat, p: string)
    requires k <= e < |s| && IndexOf(s, k, sep) == e && p == s[k..e]
    ensures SplitFrom(s, k, sep) == [p] + SplitFrom(s, e + 1, sep)
  {
  }

  lemma LastPartAt(s: string, k: nat, p: string, sep: char)
    requires k <= |s| && s[k..] == p && sep !in p
    ensures SplitFrom(s, k, sep) == [p]
  {
    assert forall i :: k <= i < |s| ==> s[i] == p[i - k];
    IndexOfIs(s, k, sep, |s|);
    assert s[k..|s|] == s[k..];
  }

  lemma PartThen(s: string, k: nat, p: string, tail: string, sep: char, e: nat)
    requires k <= |s| && s[k..] == p + [sep] + tail && sep !in p && e == k + |p|
    ensures e < |s| && s[e + 1..] == tail
    ensures SplitFrom(s, k, sep) == [p] + SplitFrom(s, e + 1, sep)
  {
    var u := s[k..];
    assert forall i :: 0 <= i < |u| ==> s[k + i] == u[i];
    assert forall i :: k <= i < e ==> s[i] == u[i - k] == p[i - k];
    assert s[e] == u[|p|] == sep;
    assert s[k..e] == p && s[e + 1..] == u[|p| + 1..] == tail;
    IndexOfIs(s, k, sep, e);
    SplitGoesOn(s, k, sep, e, p);
  }

  lemma {:induction false} SplitJoinFrom(s: string, k: nat, parts: seq<string>, sep: char)
    requires parts != [] && Free(parts, sep) && k <= |s| && s[k..] == Join(parts, sep)
    ensures SplitFrom(s, k, sep) == parts
    decreases |parts|
  {
    if |parts| == 1 {
      LastPartAt(s, k, parts[0], sep);
    } else {
      var p, rest := parts[0], parts[1..];
      assert parts == [p] + rest;
      PartThen(s, k, p, Join(rest, sep), sep, k + |p|);
      SplitJoinFrom(s, k + |p| + 1, rest, sep);
    }
  }

  /** Splitting undoes joining. */
  lemma SplitJoin(parts: seq<string>, sep: char)
    requires parts != [] && Free(parts, sep)
    ensures Split(Join(parts, sep), sep) == parts
  {
    var s := Join(parts, sep);
    assert s[0..] == s;
    SplitJoinFrom(s, 0, parts, sep);
  }

  /** Two joined lists with a separator between are the joined concatenation. */
  lemma {:induction false} JoinConcat(xs: seq<string>, ys: seq<string>, sep: char)
    requires xs != [] && ys != []
    ensures Join(xs + ys, sep) == Join(xs, sep) + [sep] + Join(ys, sep)
  {
    if |xs| == 1 {
      assert xs == [xs[0]];
    } else {
      var x, rest := xs[0], xs[1..];
      JoinConcat(rest, ys, sep);
      assert xs + ys == [x] + (rest + ys);
    }
  }

  /** No part of a split holds the separator. */
  lemma {:induction false} SplitIsFree(s: string, k: nat, sep: char)
    requires k <= |s|
    ensures Free(SplitFrom(s, k, sep), sep)
    decreases |s| - k
  {
    IndexOfFirst(s, k, sep);
    var e := IndexOf(s, k, sep);
    assert sep !in s[k..e];
    if e < |s| {
      SplitIsFree(s, e + 1, sep);
    }
  }

  /** Joining undoes splitting. */
  lemma {:induction false} JoinSplitFrom(s: string, k: nat, sep: char)
    requires k <= |s|
    ensures Join(SplitFrom(s, k, sep), sep) == s[k..]
    decreases |s| - k
  {
    var e := IndexOf(s, k, sep);
    if e < |s| {
      JoinSplitFrom(s, e + 1, sep);
      Rejoined(s, k, e, sep, SplitFrom(s, e + 1, sep));
      SplitGoesOn(s, k, sep, e, s[k..e]);
    }
  }

  lemma Rejoined(s: string, k: nat, e: nat, sep: char, rest: seq<string>)
    requires k <= e < |s| && s[e] == sep && rest != [] && Join(rest, sep) == s[e + 1..]
    ensures Join([s[k..e]] + rest, sep) == s[k..]
  {
    assert s[k..] == s[k..e] + [sep] + s[e + 1..];
  }

  /** The parts of two texts with a separator between are the parts of the one and then
      those of the other. */
  lemma SplitConcat(a: string, b: string, sep: char)
    ensures Split(a + [sep] + b, sep) == Split(a, sep) + Split(b, sep)
  {
    var xs, ys := Split(a, sep), Split(b, sep);
    SplitIsFree(a, 0, sep);
    SplitIsFree(b, 0, sep);
    JoinSplitFrom(a, 0, sep);
    JoinSplitFrom(b, 0, sep);
    assert a[0..] == a && b[0..] == b;
    JoinConcat(xs, ys, sep);
    SplitJoin(xs + ys, sep);
  }

  /** Non-empty texts without white space. */
  ghost predicate Words(ws: seq<string>) {
    forall i :: 0 <= i < |ws| ==> Word(ws[i])
  }

  ghost predicate Word(w: string) {
    w != "" && forall i :: 0 <= i < |w| ==> !IsSpace(w[i])
  }

  lemma {:induction false} WordEndIs(s: string, k: nat, e: nat)
    requires k <= e <= |s|
    requires forall i :: k <= i < e ==> !IsSpace(s[i])
    requires e < |s| ==> IsSpace(s[e])
    ensures WordEnd(s, k) == e
    decreases e - k
  {
    if k < e {
      WordEndIs(s, k + 1, e);
    }
  }

  /** A word from k up to e, where the text ends or white space follows. */
  lemma WordAt(s: string, k: nat, w: string, e: nat)
    requires Word(w) && k <= e <= |s| && s[k..e] == w && (e < |s| ==> IsSpace(s[e]))
    ensures FieldsFrom(s, k) == [w] + FieldsFrom(s, e)
  {
    assert forall i :: k <= i < e ==> s[i] == s[k..e][i - k];
    WordEndIs(s, k, e);
  }

  lemma LastWordAt(s: string, k: nat, w: string)
    requires Word(w) && k <= |s| && s[k..] == w
    ensures FieldsFrom(s, k) == [w]
  {
    assert s[k..|s|] == s[k..];
    WordAt(s, k, w, |s|);
    assert FieldsFrom(s, |s|) == [];
  }

  lemma WordThen(s: string, k: nat, w: string, tail: string, e: nat)
    requires Word(w) && k <= |s| && s[k..] == w + [' '] + tail && e == k + |w|
    ensures e < |s| && s[e + 1..] == tail
    ensures FieldsFrom(s, k) == [w] + FieldsFrom(s, e + 1)
  {
    var u := s[k..];
    assert s[e] == u[|w|] == ' ';
    assert s[k..e] == u[..|w|] == w && s[e + 1..] == u[|w| + 1..] == tail;
    WordAt(s, k, w, e);
    FieldsSkipSpace(s, e);
  }

  lemma {:induction false} FieldsJoinFrom(s: string, k: nat, ws: seq<string>)
    requires Words(ws) && k <= |s| && s[k..] == Join(ws, ' ')
    ensures FieldsFrom(s, k) == ws
    decreases |ws|
  {
    if |ws| == 1 {
      LastWordAt(s, k, ws[0]);
    } else if ws != [] {
      var w, rest := ws[0], ws[1..];
      var e := k + |w|;
      assert ws == [w] + rest && Word(w) && Words(rest);
      WordThen(s, k, w, Join(rest, ' '), e);
      FieldsJoinFrom(s, e + 1, rest);
    }
  }

  lemma FieldsSkipSpace(s: string, k: nat)
    requires k < |s| && IsSpace(s[k])
    ensures FieldsFrom(s, k) == FieldsFrom(s, k + 1)
  {
  }

  /** Fields undoes joining with spaces. */
  lemma FieldsJoin(ws: seq<string>)
    requires Words(ws)
    ensures Fields(Join(ws, ' ')) == ws
  {
    var s := Join(ws, ' ');
    assert s[0..] == s;
    FieldsJoinFrom(s, 0, ws);
  }

  /** Joined words hold no white space but the joining spaces, and none at the ends. */
  lemma {:induction false} JoinedWords(ws: seq<string>)
    requires Words(ws) && ws != []
    ensures var s := Join(ws, ' ');
      && s != "" && s[0] == ws[0][0] && !IsSpace(s[0]) && !IsSpace(s[|s| - 1])
      && forall i :: 0 <= i < |s| ==> s[i] == ' ' || !IsSpace(s[i])
  {
    assert Word(ws[0]);
    if |ws| > 1 {
      var s, w, tail := Join(ws, ' '), ws[0], Join(ws[1..], ' ');
      JoinedWords(ws[1..]);
      assert s == w + " " + tail;
      forall i | 0 <= i < |s| ensures s[i] == ' ' || !IsSpace(s[i]) {
        if i > |w| {
          assert s[i] == tail[i - |w| - 1];
        }
      }
      assert s[|s| - 1] == tail[|tail| - 1];
    }
  }

  /** A numeral is one word, and Atoi reads it back. */
  lemma RenderedNumeral(n: nat)
    requires n <= MAX_INT
    ensures Word(Render(n)) && Atoi(Render(n)) == Some(n) && AtoiOrZero(Render(n)) == n
  {
    var s := Render(n);
    RenderValue(n);
    forall i | 0 <= i < |s| ensures !IsSpace(s[i]) {
      assert IsDigit(s[i]);
    }
    TrimSpaceIdle(s);
    assert IsDigit(s[0]);
    DigitsEndIs(s, 0, |s|);
  }

  /** What Atoi makes of a numeral of any size, signed or not, and of what is none. */
  lemma AtoiExactly(n: nat)
    ensures Atoi(Render(n)) == Atoi("+" + Render(n)) == if n <= MAX_INT then Some(n) else None
    ensures Atoi("-" + Render(n)).Some? <==> n <= MAX_INT + 1
    ensures Atoi("-" + Render(n)).Some? ==> Atoi("-" + Render(n)).value + n == 0
  {
    var d := Render(n);
    RenderValue(n);
    AtoiDigits(d, 0, n, d);
    AtoiDigits(d, 1, n, "+" + d);
    AtoiDigits(d, 1, n, "-" + d);
    assert IsDigit(d[0]);
  }

  lemma AtoiDigits(d: string, k: nat, n: nat, s: string)
    requires d == Render(n) && k <= |s| && s[k..] == d
    ensures DigitsEnd(s, k) == |s| && Value(s, k, |s|) == n
  {
    RenderValue(n);
    assert |s| == k + |d|;
    forall i | 0 <= i < |d| ensures s[k + (i - 0)] == d[i] {
      assert s[k..][i] == d[i];
    }
    ValueMoves(d, 0, |d|, s, k);
    DigitsEndIs(s, k, |s|);
  }

  lemma AtoiRefuses(s: string, i: nat)
    requires i < |s| && !IsDigit(s[i]) && (i > 0 || (s[0] != '+' && s[0] != '-'))
    ensures Atoi(s).None?
    ensures Atoi("").None? && Atoi("+").None? && Atoi("-").None?
  {
    var k := if s[0] == '+' || s[0] == '-' then 1 else 0;
    DigitsEndStops(s, k);
  }
}
