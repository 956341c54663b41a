/** Decimal numerals inside a text, addressed by position. */
module Decimal {
  predicate IsDigit(c: char) {
    '0' <= c <= '9'
  }

  function Digit(c: char): (d: nat)
    ensures d < 10
  {
    if IsDigit(c) then c as int - '0' as int else 0
  }

  /** The end of the run of digits that k lies in. */
  function DigitsEnd(s: string, k: nat): (e: nat)
    requires k <= |s|
    ensures k <= e <= |s|
    decreases |s| - k
  {
    if k < |s| && IsDigit(s[k]) then DigitsEnd(s, k + 1) else k
  }

  ghost predicate AllDigits(s: string, k: nat, e: nat) {
    k <= e <= |s| && forall i :: k <= i < e ==> IsDigit(s[i])
  }

  /** The decimal number written in s[k..e]. */
  function Value(s: string, k: nat, e: nat): nat
    requires k <= e <= |s|
    decreases e
  {
    if e == k then 0 else 10 * Value(s, k, e - 1) + Digit(s[e - 1])
  }

  lemma {:induction false} DigitsEndStops(s: string, k: nat)
    requires k <= |s|
    ensures AllDigits(s, k, DigitsEnd(s, k))
    ensures DigitsEnd(s, k) < |s| ==> !IsDigit(s[DigitsEnd(s, k)])
    decreases |s| - k
  {
    if k < |s| && IsDigit(s[k]) {
      DigitsEndStops(s, k + 1);
    }
  }

  lemma {:induction false} DigitsEndIs(s: string, k: nat, e: nat)
    requires AllDigits(s, k, e) && (e < |s| ==> !IsDigit(s[e]))
    ensures DigitsEnd(s, k) == e
    decreases e - k
  {
    if k < e {
      DigitsEndIs(s, k + 1, e);
    }
  }

  lemma {:induction false} ValueGrows(s: string, k: nat, d: nat, e: nat)
    requires k <= d <= e <= |s|
    ensures Value(s, k, d) <= Value(s, k, e)
    decreases e
  {
    if d < e {
      ValueGrows(s, k, d, e - 1);
    }
  }

  /** A numeral means the same wherever it stands. */
  lemma {:induction false} ValueMoves(s: string, k: nat, e: nat, t: string, j: nat)
    requires AllDigits(s, k, e) && j + (e - k) <= |t|
    requires forall i :: k <= i < e ==> t[j + (i - k)] == s[i]
    ensures AllDigits(t, j, j + (e - k))
    ensures Value(t, j, j + (e - k)) == Value(s, k, e)
    decreases e
  {
    forall i | j <= i < j + (e - k) ensures IsDigit(t[i]) {
      assert t[j + ((i - j + k) - k)] == s[i - j + k];
    }
    if k < e {
      ValueMoves(s, k, e - 1, t, j);
      assert t[j + (e - 1 - k)] == s[e - 1];
    }
  }

  function DigitChar(d: nat): (c: char)
    requires d < 10
    ensures IsDigit(c) && Digit(c) == d
  {
    ('0' as int + d) as char
  }

  /** %u */
  function Render(n: nat): (s: string)
    ensures s != ""
  {
    if n < 10 then [DigitChar(n)] else Render(n / 10) + [DigitChar(n % 10)]
  }

  lemma {:induction false} RenderValue(n: nat)
    ensures AllDigits(Render(n), 0, |Render(n)|)
    ensures Value(Render(n), 0, |Render(n)|) == n
  {
    var s := Render(n);
    if n < 10 {
      assert Value(s, 0, 0) == 0;
    } else {
      var front := Render(n / 10);
      RenderValue(n / 10);
      ValueMoves(front, 0, |front|, s, 0);
    }
  }
}
