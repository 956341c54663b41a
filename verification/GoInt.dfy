/** Go's int on a 64-bit platform. */
module GoInt {
  const MAX_INT := 0x7FFF_FFFF_FFFF_FFFF
  const TWO64 := 0x1_0000_0000_0000_0000

  /** Two's-complement wrap-around of Go's 64-bit int. */
  function Wrap64(n: int): int {
    (n + MAX_INT + 1) % TWO64 - MAX_INT - 1
  }

  predicate IsInt(n: int) {
    -MAX_INT - 1 <= n <= MAX_INT
  }

  lemma WrapsExactly(n: int)
    ensures Wrap64(n) == n <==> IsInt(n)
  {
  }

  /** A wrapped value is a whole number of turns away. */
  lemma WrapTurns(n: int) returns (k: int)
    ensures Wrap64(n) == n + TWO64 * k
  {
    k := -((n + MAX_INT + 1) / TWO64);
  }

  /** Wrapping now or later makes no difference to a sum. */
  lemma WrapAdds(a: int, b: int)
    ensures Wrap64(Wrap64(a) + b) == Wrap64(a + b)
    ensures Wrap64(Wrap64(a) + Wrap64(b)) == Wrap64(a + b)
  {
    var j := WrapTurns(a);
    var k := WrapTurns(b);
    assert Wrap64(a) + b == a + b + TWO64 * j;
    assert Wrap64(a) + Wrap64(b) == a + b + TWO64 * (j + k);
  }

  /** The function wrap is Wrap64, unfolded only where Wrap64 is spoken of. */
  ghost predicate Wraps(wrap: int -> int) {
    forall n: int {:trigger Wrap64(n)} :: wrap(n) == Wrap64(n)
  }

  /** x += n, for an x that holds a wrapped total. */
  method AddInt(x: int, n: int, ghost total: int, ghost next: int, ghost wrap: int -> int) returns (x': int)
    requires Wraps(wrap) && x == wrap(total) && next == total + n
    ensures x' == wrap(next)
  {
    WrapAdds(total, n);
    assert wrap(next) == Wrap64(next);
    x' := Wrap64(x + n);
  }
}
