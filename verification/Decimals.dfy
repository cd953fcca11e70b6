/** Decimal numerals, and a strtod that reads nothing else. */
module Decimals {
  import opened Ascii
  import opened ParseSpec
  import opened Render

  predicate AllDigits(t: Text) {
    forall i :: 0 <= i < |t| ==> IsDigit(t[i])
  }

  /** The number that digits write behind those of `n`. */
  function Numeral(n: nat, t: Text): (r: nat)
    requires AllDigits(t)
    ensures n <= r
    decreases |t|
  {
    if t == [] then n else Numeral(10 * n + (t[0] - DIGIT0), t[1..])
  }

  lemma {:induction false} NumeralAppend(n: nat, t: Text, d: byte)
    requires AllDigits(t) && IsDigit(d)
    ensures AllDigits(t + [d]) && Numeral(n, t + [d]) == 10 * Numeral(n, t) + (d - DIGIT0)
    decreases |t|
  {
    if t != [] {
      assert (t + [d])[1..] == t[1..] + [d];
      NumeralAppend(10 * n + (t[0] - DIGIT0), t[1..], d);
    } else {
      assert (t + [d])[1..] == [];
    }
  }

  lemma {:induction false} DigitsWriteNumber(n: nat)
    ensures AllDigits(Digits(n)) && Numeral(0, Digits(n)) == n
  {
    if n < 10 {
      assert Digits(n)[1..] == [];
    } else {
      DigitsWriteNumber(n / 10);
      NumeralAppend(0, Digits(n / 10), DIGIT0 + n % 10);
    }
  }

  /** The digits that a text starts with. */
  function LeadingDigits(t: Text): (d: Text)
    ensures d <= t && AllDigits(d)
  {
    if t == [] || !IsDigit(t[0]) then [] else [t[0]] + LeadingDigits(t[1..])
  }

  /** A strtod for integers: perhaps a minus, and then digits. */
  function Decimal(t: Text): (r: Strtod)
    ensures r.consumed <= |t|
  {
    var sign := t != [] && t[0] == MINUS;
    var d := LeadingDigits(if sign then t[1..] else t);
    if d == [] then Strtod(0, 0.0)
    else if sign then Strtod(|d| + 1, -(Numeral(0, d) as real))
    else Strtod(|d|, Numeral(0, d) as real)
  }

  lemma {:induction false} DigitsAreLeading(d: Text)
    requires AllDigits(d)
    ensures LeadingDigits(d) == d
  {
    if d != [] {
      DigitsAreLeading(d[1..]);
    }
  }

  /** It reads back what "%d" writes. */
  lemma {:induction false} DecimalReadsBack(n: int)
    ensures Decimal(IntText(n)) == Strtod(|IntText(n)|, n as real)
  {
    var d := Digits(if n < 0 then -n else n);
    DigitsWriteNumber(if n < 0 then -n else n);
    DigitsAreLeading(d);
    if n < 0 {
      assert IntText(n)[1..] == d;
    }
  }
}
