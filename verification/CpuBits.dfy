/** Bit operations on machine words, written on numbers: what |=, >> and v & (v - 1)
    do to the set of CPUs a bitmap stands for. */
module CpuBits {
  import opened Prelude

  function Pow2(n: nat): (p: nat)
    ensures p >= 1
  {
    if n == 0 then 1 else 2 * Pow2(n - 1)
  }

  /** Bit i of w. */
  function Bit(w: nat, i: nat): bool {
    if i == 0 then w % 2 == 1 else Bit(w / 2, i - 1)
  }

  /** The bit is the parity of what is left when the lower ones are divided out. */
  lemma {:induction false} BitIsQuotient(w: nat, i: nat)
    ensures Bit(w, i) <==> w / Pow2(i) % 2 == 1
  {
    if i > 0 {
      BitIsQuotient(w / 2, i - 1);
      DivideInTurn(w, Pow2(i - 1));
    }
  }

  lemma DivideInTurn(w: nat, p: nat)
    requires p > 0
    ensures w / 2 / p == w / (2 * p)
  {
    var h := w / 2;
    var q, r := h / p, h % p;
    Twice(p, q);
    QuotientIs(w, 2 * p, q, 2 * r + w % 2);
  }

  lemma Twice(p: nat, q: nat)
    ensures (2 * p) * q == 2 * (p * q)
  {
  }

  lemma QuotientIs(a: nat, p: nat, q: nat, r: nat)
    requires r < p && a == p * q + r
    ensures a / p == q
  {
    var d := a / p - q;
    assert p * d == r - a % p;
    AtLeastOnce(p, d);
  }

  lemma AtLeastOnce(p: nat, d: int)
    ensures d >= 1 ==> p * d >= p
    ensures d <= -1 ==> p * d + p <= 0
  {
  }

  function Or(a: nat, b: nat): nat {
    if a == 0 then b else 2 * Or(a / 2, b / 2) + (if a % 2 == 1 || b % 2 == 1 then 1 else 0)
  }

  function And(a: nat, b: nat): nat {
    if a == 0 then 0 else 2 * And(a / 2, b / 2) + (if a % 2 == 1 && b % 2 == 1 then 1 else 0)
  }

  function ShiftRight(w: nat, k: nat): nat {
    if k == 0 then w else ShiftRight(w / 2, k - 1)
  }

  /** How many bits of w are set. */
  function PopCount(w: nat): nat {
    if w == 0 then 0 else w % 2 + PopCount(w / 2)
  }

  lemma {:induction false} ZeroHasNoBit(i: nat)
    ensures !Bit(0, i)
  {
    if i > 0 {
      ZeroHasNoBit(i - 1);
    }
  }

  lemma {:induction false} OrBit(a: nat, b: nat, i: nat)
    ensures Bit(Or(a, b), i) <==> Bit(a, i) || Bit(b, i)
  {
    if a == 0 {
      ZeroHasNoBit(i);
    } else if i > 0 {
      assert Or(a, b) / 2 == Or(a / 2, b / 2);
      OrBit(a / 2, b / 2, i - 1);
    }
  }

  lemma {:induction false} OrBound(a: nat, b: nat, n: nat)
    requires a < Pow2(n) && b < Pow2(n)
    ensures Or(a, b) < Pow2(n)
  {
    if a > 0 {
      OrBound(a / 2, b / 2, n - 1);
    }
  }

  lemma {:induction false} Pow2Bit(k: nat, i: nat)
    ensures Bit(Pow2(k), i) <==> i == k
  {
    if k == 0 {
      if i > 0 {
        ZeroHasNoBit(i - 1);
      }
    } else if i > 0 {
      assert Pow2(k) / 2 == Pow2(k - 1);
      Pow2Bit(k - 1, i - 1);
    }
  }

  lemma {:induction false} Pow2Monotone(k: nat, n: nat)
    requires k < n
    ensures Pow2(k) < Pow2(n)
  {
    if k < n - 1 {
      Pow2Monotone(k, n - 1);
    }
  }

  lemma {:induction false} ShiftRightBit(w: nat, k: nat)
    ensures ShiftRight(w, k) % 2 == 1 <==> Bit(w, k)
  {
    if k > 0 {
      ShiftRightBit(w / 2, k - 1);
    }
  }

  /** v & (v - 1) drops exactly one set bit. */
  lemma {:induction false} ClearLowest(v: nat)
    requires v > 0
    ensures And(v, v - 1) < v
    ensures PopCount(And(v, v - 1)) == PopCount(v) - 1
  {
    if v % 2 == 1 {
      AndSelf(v / 2);
      assert (v - 1) / 2 == v / 2;
    } else {
      assert (v - 1) / 2 == v / 2 - 1;
      ClearLowest(v / 2);
    }
  }

  lemma {:induction false} AndSelf(v: nat)
    ensures And(v, v) == v
  {
    if v > 0 {
      AndSelf(v / 2);
    }
  }

  const WORD := 0x1_0000_0000_0000_0000

  lemma WordIsPow2()
    ensures Pow2(64) == WORD
  {
    Pow2Is256();
    Pow2Sum(8, 8);
    Pow2Sum(16, 16);
    Pow2Sum(32, 32);
  }

  lemma Pow2Is256()
    ensures Pow2(8) == 0x100
  {
    assert Pow2(4) == 16;
  }

  lemma {:induction false} Pow2Sum(a: nat, b: nat)
    ensures Pow2(a + b) == Pow2(a) * Pow2(b)
  {
    if a > 0 {
      Pow2Sum(a - 1, b);
    }
  }

  // ----- Bitmaps

  /** CPU c is in the bitmap. */
  predicate Has(words: seq<u64>, c: nat) {
    c / 64 < |words| && Bit(words[c / 64], c % 64)
  }

  /** Bit c mod 64 of word c / 64, and none past the end. */
  lemma HasExactly(words: seq<u64>, c: nat)
    ensures Has(words, c) <==> c / 64 < |words| && words[c / 64] / Pow2(c % 64) % 2 == 1
  {
    if c / 64 < |words| {
      BitIsQuotient(words[c / 64], c % 64);
    }
  }

  /** The CPUs of a bitmap. */
  ghost function Cpus(words: seq<u64>): set<nat> {
    set c: nat | c < 64 * |words| && Has(words, c)
  }

  function TotalCount(words: seq<u64>): nat {
    if words == [] then 0 else TotalCount(words[..|words| - 1]) + PopCount(words[|words| - 1])
  }

  /** The CPUs one word at position base contributes, looking at its low n bits. */
  ghost function WordCpus(w: nat, base: nat, n: nat): set<nat> {
    set c: nat | base <= c < base + n && HasFrom(w, base, c)
  }

  /** CPU c is in the word w whose bit 0 stands for CPU base. */
  predicate HasFrom(w: nat, base: nat, c: nat) {
    base <= c && Bit(w, c - base)
  }

  lemma {:induction false} WordCpusCount(w: nat, base: nat, n: nat)
    requires w < Pow2(n)
    ensures |WordCpus(w, base, n)| == PopCount(w)
    decreases n
  {
    if n == 0 {
      assert WordCpus(w, base, n) == {};
    } else {
      var low, high := (if w % 2 == 1 then {base} else {}), WordCpus(w / 2, base + 1, n - 1);
      WordCpusCount(w / 2, base + 1, n - 1);
      assert WordCpus(w, base, n) == low + high by {
        forall c: nat ensures c in WordCpus(w, base, n) <==> c in low + high {
          if c > base {
            assert HasFrom(w, base, c) <==> HasFrom(w / 2, base + 1, c);
          } else {
            assert c !in high;
            assert HasFrom(w, base, base) <==> w % 2 == 1;
          }
        }
      }
      assert low !! high;
      assert w == 0 ==> PopCount(w / 2) == 0;
    }
  }

  /** The set bits of a bitmap are counted by adding up its words. */
  lemma {:induction false} CpusCount(words: seq<u64>)
    ensures |Cpus(words)| == TotalCount(words)
  {
    if words == [] {
      assert Cpus(words) == {};
    } else {
      var n := |words| - 1;
      var front, last := Cpus(words[..n]), WordCpus(words[n], 64 * n, 64);
      CpusCount(words[..n]);
      WordIsPow2();
      WordCpusCount(words[n], 64 * n, 64);
      forall c: nat ensures c in Cpus(words) <==> c in front + last {
        if 64 * n <= c < 64 * n + 64 {
          assert c / 64 == n && c % 64 == c - 64 * n;
          assert Has(words, c) <==> HasFrom(words[n], 64 * n, c);
        } else if c < 64 * n {
          assert c / 64 < n;
        }
      }
      assert Cpus(words) == front + last;
      assert front !! last;
    }
  }

  lemma {:induction false} TotalCountBound(words: seq<u64>)
    ensures TotalCount(words) <= 64 * |words|
  {
    if words != [] {
      WordIsPow2();
      PopCountBound(words[|words| - 1], 64);
      TotalCountBound(words[..|words| - 1]);
    }
  }

  lemma {:induction false} PopCountBound(w: nat, n: nat)
    requires w < Pow2(n)
    ensures PopCount(w) <= n
  {
    if w > 0 {
      PopCountBound(w / 2, n - 1);
    }
  }
}
