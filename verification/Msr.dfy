/** Arithmetic over wrapping counters: time-stamp ticks to nanoseconds, and energy
    counters. Energies are exact rationals: rounding to a double is not modelled. */
module Msr {
  import opened Prelude
  import opened CpuBits

  const TWO32: nat := 0x1_0000_0000
  const TWO64: nat := 0x1_0000_0000_0000_0000
  const BILLION: nat := 1_000_000_000

  // ----- A counter that is never reset, and what its register shows

  /** The true counts at which readings were taken: they never go back. */
  ghost predicate Rising(at: seq<nat>) {
    forall i :: 0 <= i < |at| - 1 ==> at[i] <= at[i + 1]
  }

  lemma {:induction false} RisingSpan(at: seq<nat>, n: nat)
    requires Rising(at) && n < |at|
    ensures at[0] <= at[n]
  {
    if n > 0 {
      RisingSpan(at, n - 1);
      assert at[n - 1] <= at[n - 1 + 1];
    }
  }

  /** Unsigned subtraction of two readings of a counter of modulus m. */
  lemma Unwrapped(m: nat, a: nat, b: nat)
    requires m > 0 && a <= b
    ensures (b % m - a % m) % m == (b - a) % m
  {
    var qa, qb := a / m, b / m;
    assert b - a == (b % m - a % m) + m * (qb - qa);
    AddMultiple(b % m - a % m, qb - qa, m);
  }

  /** Adding a multiple of m does not change a remainder. */
  lemma AddMultiple(x: int, k: int, m: nat)
    requires m > 0
    ensures (x + m * k) % m == x % m
  {
    var q, r := x / m, x % m;
    RemainderUnique(x + m * k, q + k, r, m);
  }

  lemma RemainderUnique(a: int, q: int, r: int, m: nat)
    requires m > 0 && a == m * q + r && 0 <= r < m
    ensures a % m == r && a / m == q
  {
    SameQuotient(m, q, r, a / m, a % m);
  }

  lemma SameQuotient(m: nat, q: int, r: int, q': int, r': int)
    requires 0 <= r < m && 0 <= r' < m && m * q + r == m * q' + r'
    ensures q == q' && r == r'
  {
    if q < q' {
      AtLeastOnce(m, q' - q);
    } else if q' < q {
      AtLeastOnce(m, q - q');
    }
  }

  lemma AtLeastOnce(m: nat, k: int)
    requires k >= 1
    ensures m * k >= m
  {
  }

  // ----- Time-stamp counter

  /** rewsr_msr_tsc_delta_ns. */
  function TscDeltaNs(t0: u64, t1: u64, hz: u64): u64 {
    if hz == 0 then 0
    else
      var ns := (t1 - t0) % TWO64 * BILLION / hz;
      if ns > TWO64 - 1 then TWO64 - 1 else ns
  }

  /** The product fits 128 bits, so the division sees it unwrapped. */
  lemma ProductFits(ticks: u64)
    ensures ticks * BILLION < TWO64 * TWO64
  {
  }

  /** Between two readings fewer than 2^64 ticks apart the result is the exact floor,
      saturated at the largest 64-bit value. */
  lemma TscDeltaExact(a: nat, b: nat, hz: u64)
    requires a <= b < a + TWO64 && hz > 0
    ensures var ns := TscDeltaNs(a % TWO64, b % TWO64, hz);
      && (ns < TWO64 - 1 ==> ns * hz <= (b - a) * BILLION < (ns + 1) * hz)
      && (ns == TWO64 - 1 ==> ns * hz <= (b - a) * BILLION)
      && ns == Min((b - a) * BILLION / hz, TWO64 - 1)
  {
    Unwrapped(TWO64, a, b);
    Floor((b - a) * BILLION, hz);
  }

  function Min(a: nat, b: nat): nat {
    if a <= b then a else b
  }

  lemma Floor(x: nat, d: nat)
    requires d > 0
    ensures x / d * d <= x < (x / d + 1) * d
  {
  }

  /** Cutting a stretch in two loses at most one. */
  lemma FloorSplit(x: nat, y: nat, d: nat)
    requires d > 0
    ensures x / d + y / d <= (x + y) / d <= x / d + y / d + 1
  {
    Floor(x, d);
    Floor(y, d);
    var q, r := x / d + y / d, x % d + y % d;
    assert x + y == d * q + r;
    if r < d {
      RemainderUnique(x + y, q, r, d);
    } else {
      RemainderUnique(x + y, q + 1, r - d, d);
    }
  }

  /** What the readings before the n-th interval's end add up to. */
  function SumNs(at: seq<nat>, hz: u64, n: nat): nat
    requires n < |at|
  {
    if n == 0 then 0
    else SumNs(at, hz, n - 1) + TscDeltaNs(at[n - 1] % TWO64, at[n] % TWO64, hz)
  }

  /** Over n intervals that span fewer than 2^64 ticks, short enough not to saturate, the
      intervals add up to the whole, less at most n - 1. */
  lemma {:induction false} IntervalsAddUp(at: seq<nat>, hz: u64, n: nat)
    requires Rising(at) && 0 < n < |at| && hz > 0
    requires at[n] - at[0] < TWO64 && (at[n] - at[0]) * BILLION / hz < TWO64
    ensures var whole := TscDeltaNs(at[0] % TWO64, at[n] % TWO64, hz);
      whole - (n - 1) <= SumNs(at, hz, n) <= whole
  {
    RisingSpan(at, n);
    TscDeltaExact(at[0], at[n], hz);
    if n == 1 {
      assert SumNs(at, hz, 0) == 0;
    } else {
      RisingSpan(at, n - 1);
      assert at[n - 1] <= at[n - 1 + 1];
      var x, y := (at[n - 1] - at[0]) * BILLION, (at[n] - at[n - 1]) * BILLION;
      assert (at[n] - at[0]) * BILLION == x + y;
      FloorSplit(x, y, hz);
      TscDeltaExact(at[0], at[n - 1], hz);
      TscDeltaExact(at[n - 1], at[n], hz);
      IntervalsAddUp(at, hz, n - 1);
    }
  }

  // ----- Energy counters

  datatype RaplUnits = RaplUnits(powerDiv: u32, energyDiv: u32, timeDiv: u32)

  lemma ShiftFits(k: nat)
    requires k < 32
    ensures Pow2(k) < TWO32
  {
    if k < 31 {
      Pow2Monotone(k, 31);
    }
    LargestShift();
  }

  lemma LargestShift()
    ensures Pow2(31) == 0x8000_0000
  {
    Pow2Sum(8, 7);
    Pow2Sum(8, 8);
    Pow2Sum(16, 15);
    assert Pow2(7) == 0x80 && Pow2(8) == 0x100;
  }

  /** rewsr_msr_decode_rapl_units: 1 << n for the three exponent fields. */
  function DecodeRaplUnits(raw: u64): RaplUnits {
    ShiftFits(raw % 16);
    ShiftFits(raw / 0x100 % 32);
    ShiftFits(raw / 0x1_0000 % 16);
    RaplUnits(Pow2(raw % 16), Pow2(raw / 0x100 % 32), Pow2(raw / 0x1_0000 % 16))
  }

  /** A register holding these exponents decodes to their powers, whatever its reserved
      bits hold. */
  lemma UnitsDecoded(power: nat, energy: nat, time: nat, r0: nat, r1: nat, r2: nat, raw: u64)
    requires power < 16 && energy < 32 && time < 16 && r0 < 16 && r1 < 8
    requires raw == power + 16 * r0 + 0x100 * energy + 0x2000 * r1 + 0x1_0000 * time + 0x10_0000 * r2
    ensures var u := DecodeRaplUnits(raw);
      u.powerDiv == Pow2(power) && u.energyDiv == Pow2(energy) && u.timeDiv == Pow2(time)
  {
    FieldsOf(power, energy, time, r0, r1, r2, raw);
  }

  lemma FieldsOf(power: nat, energy: nat, time: nat, r0: nat, r1: nat, r2: nat, raw: nat)
    requires power < 16 && energy < 32 && time < 16 && r0 < 16 && r1 < 8
    requires raw == power + 16 * r0 + 0x100 * energy + 0x2000 * r1 + 0x1_0000 * time + 0x10_0000 * r2
    ensures raw % 16 == power && raw / 0x100 % 32 == energy && raw / 0x1_0000 % 16 == time
  {
    var high, mid := time + 16 * r2, energy + 32 * r1 + 0x100 * (time + 16 * r2);
    RemainderUnique(raw, r0 + 16 * mid, power, 16);
    RemainderUnique(raw, mid, power + 16 * r0, 0x100);
    RemainderUnique(mid, r1 + 8 * high, energy, 32);
    RemainderUnique(raw, high, power + 16 * r0 + 0x100 * energy + 0x2000 * r1, 0x1_0000);
    RemainderUnique(high, r2, time, 16);
  }

  /** after - before in 32 bits. */
  function DeltaTicks(before: u32, after: u32): u32 {
    (after - before) % TWO32
  }

  /** rewsr_msr_energy_delta_joules. */
  function DeltaJoules(before: u32, after: u32, div: u32): real
    requires div > 0
  {
    DeltaTicks(before, after) as real / div as real
  }

  /** A delta is right if and only if the counter advanced by less than 2^32. */
  lemma DeltaExactly(a: nat, b: nat)
    requires a <= b
    ensures var d := DeltaTicks(a % TWO32, b % TWO32);
      d <= b - a && (d == b - a <==> b - a < TWO32)
  {
    Unwrapped(TWO32, a, b);
  }

  function SumTicks(at: seq<nat>, n: nat): nat
    requires n < |at|
  {
    if n == 0 then 0 else SumTicks(at, n - 1) + DeltaTicks(at[n - 1] % TWO32, at[n] % TWO32)
  }

  /** No wrap goes unseen. */
  ghost predicate Sampled(at: seq<nat>, n: nat)
    requires n < |at|
  {
    forall i :: 0 <= i < n ==> at[i + 1] - at[i] < TWO32
  }

  /** The deltas add up to the true count if and only if every interval advanced by less
      than 2^32; otherwise they fall short of it. */
  lemma {:induction false} TicksConservedExactly(at: seq<nat>, n: nat)
    requires Rising(at) && n < |at|
    ensures at[0] + SumTicks(at, n) <= at[n]
    ensures at[0] + SumTicks(at, n) == at[n] <==> Sampled(at, n)
  {
    if n > 0 {
      assert at[n - 1] <= at[n - 1 + 1];
      TicksConservedExactly(at, n - 1);
      DeltaExactly(at[n - 1], at[n]);
      assert Sampled(at, n) <==> Sampled(at, n - 1) && at[n - 1 + 1] - at[n - 1] < TWO32;
    }
  }

  function SumJoules(at: seq<nat>, div: u32, n: nat): real
    requires n < |at| && div > 0
  {
    if n == 0 then 0.0 else SumJoules(at, div, n - 1) + DeltaJoules(at[n - 1] % TWO32, at[n] % TWO32, div)
  }

  lemma {:induction false} JoulesAreTicks(at: seq<nat>, div: u32, n: nat)
    requires n < |at| && div > 0
    ensures SumJoules(at, div, n) == SumTicks(at, n) as real / div as real
  {
    if n > 0 {
      JoulesAreTicks(at, div, n - 1);
      var x, y := SumTicks(at, n - 1), DeltaTicks(at[n - 1] % TWO32, at[n] % TWO32);
      assert (x + y) as real == x as real + y as real;
      Distribute(x as real, y as real, div as real);
    }
  }

  lemma Distribute(x: real, y: real, d: real)
    requires d > 0.0
    ensures (x + y) / d == x / d + y / d
  {
  }

  /** Energy over a run is conserved exactly when every wrap was sampled. */
  lemma JoulesConserved(at: seq<nat>, div: u32, n: nat)
    requires Rising(at) && n < |at| && div > 0 && Sampled(at, n)
    ensures at[0] <= at[n]
    ensures SumJoules(at, div, n) == (at[n] - at[0]) as real / div as real
  {
    RisingSpan(at, n);
    TicksConservedExactly(at, n);
    JoulesAreTicks(at, div, n);
  }
}
