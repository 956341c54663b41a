/** Machine integers, optional values and sequence helpers shared by every module. */
module Prelude {

  datatype Option<+T> = None | Some(value: T)

  type u8 = x: int | 0 <= x < 0x100
  type u16 = x: int | 0 <= x < 0x1_0000
  type u32 = x: int | 0 <= x < 0x1_0000_0000
  type u64 = x: int | 0 <= x < 0x1_0000_0000_0000_0000

  type Bytes = seq<u8>

  const EPROTO := 71
  const EINVAL := 22
  const ERANGE := 34

  /** The text of a C string: everything before its terminating NUL. */
  type CString = s: string | '\0' !in s

  /** What `*(s + k)` reads: a character of the text, or the terminating NUL. */
  function CharAt(s: CString, k: nat): (c: char)
    requires k <= |s|
    ensures c == '\0' <==> k == |s|
  {
    if k < |s| then s[k] else '\0'
  }

  function Map<T, U>(f: T -> U, xs: seq<T>): (ys: seq<U>)
    ensures |ys| == |xs|
    ensures forall i :: 0 <= i < |xs| ==> ys[i] == f(xs[i])
  {
    seq(|xs|, i requires 0 <= i < |xs| => f(xs[i]))
  }

  /** The sum of f over xs. */
  function Sum<T>(f: T -> int, xs: seq<T>): int {
    if xs == [] then 0 else Sum(f, xs[..|xs| - 1]) + f(xs[|xs| - 1])
  }

  lemma SumAppend<T>(f: T -> int, xs: seq<T>, x: T)
    ensures Sum(f, xs + [x]) == Sum(f, xs) + f(x)
  {
    assert (xs + [x])[..|xs|] == xs;
  }

  lemma {:induction false} SumCons<T>(f: T -> int, x: T, xs: seq<T>)
    ensures Sum(f, [x] + xs) == f(x) + Sum(f, xs)
  {
    if xs == [] {
      SumAppend(f, [], x);
      assert [x] + xs == [] + [x];
    } else {
      var n := |xs| - 1;
      SumCons(f, x, xs[..n]);
      SumAppend(f, [x] + xs[..n], xs[n]);
      assert [x] + xs == [x] + xs[..n] + [xs[n]];
    }
  }
}
