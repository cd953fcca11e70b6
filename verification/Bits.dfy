/** The bit operations of C on numbers that are not negative. */
module Bits {
  import opened Powers

  function And(x: nat, y: nat): nat {
    if x == 0 || y == 0 then 0 else 2 * And(x / 2, y / 2) + (if x % 2 == 1 && y % 2 == 1 then 1 else 0)
  }

  function Or(x: nat, y: nat): nat {
    if x == 0 then y else if y == 0 then x else 2 * Or(x / 2, y / 2) + (if x % 2 == 1 || y % 2 == 1 then 1 else 0)
  }

  function Shl(x: nat, k: nat): nat {
    if k == 0 then x else 2 * Shl(x, k - 1)
  }

  function Shr(x: nat, k: nat): nat {
    if k == 0 then x else Shr(x / 2, k - 1)
  }

  /** The lowest `k` bits. */
  function Low(x: nat, k: nat): nat {
    if k == 0 then 0 else 2 * Low(x / 2, k - 1) + x % 2
  }

  lemma {:induction false} AndStep(x: nat, y: nat, p: nat, q: nat)
    requires p < 2 && q < 2
    ensures And(2 * x + p, 2 * y + q) == 2 * And(x, y) + (if p == 1 && q == 1 then 1 else 0)
  {
  }

  lemma {:induction false} OrStep(x: nat, y: nat, p: nat, q: nat)
    requires p < 2 && q < 2
    ensures Or(2 * x + p, 2 * y + q) == 2 * Or(x, y) + (if p == 1 || q == 1 then 1 else 0)
  {
  }

  /** The bits from `k` on and those below go their own ways. */
  lemma {:induction false} AndSplits(a: nat, b: nat, c: nat, d: nat, k: nat)
    requires b < Pow2(k) && d < Pow2(k)
    ensures And(Shl(a, k) + b, Shl(c, k) + d) == Shl(And(a, c), k) + And(b, d)
  {
    if k > 0 {
      AndSplits(a, b / 2, c, d / 2, k - 1);
      hide And;
      AndStep(Shl(a, k - 1) + b / 2, Shl(c, k - 1) + d / 2, b % 2, d % 2);
      AndStep(b / 2, d / 2, b % 2, d % 2);
    }
  }

  lemma {:induction false} OrSplits(a: nat, b: nat, c: nat, d: nat, k: nat)
    requires b < Pow2(k) && d < Pow2(k)
    ensures Or(Shl(a, k) + b, Shl(c, k) + d) == Shl(Or(a, c), k) + Or(b, d)
  {
    if k > 0 {
      OrSplits(a, b / 2, c, d / 2, k - 1);
      hide Or;
      OrStep(Shl(a, k - 1) + b / 2, Shl(c, k - 1) + d / 2, b % 2, d % 2);
      OrStep(b / 2, d / 2, b % 2, d % 2);
    }
  }

  lemma {:induction false} OrZero(x: nat)
    ensures Or(x, 0) == x && Or(0, x) == x
  {
  }

  /** Bits that do not overlap. */
  lemma {:induction false} OrDisjoint(a: nat, b: nat, k: nat)
    requires b < Pow2(k)
    ensures Or(Shl(a, k), b) == Shl(a, k) + b && Or(b, Shl(a, k)) == Shl(a, k) + b
  {
    hide Or;
    OrSplits(a, 0, 0, b, k);
    OrSplits(0, b, a, 0, k);
    ShlOfZero(k);
    OrZero(a);
    OrZero(b);
  }

  lemma {:induction false} ShlOfZero(k: nat)
    ensures Shl(0, k) == 0
  {
    if k > 0 {
      ShlOfZero(k - 1);
    }
  }

  lemma {:induction false} Parts(x: nat, k: nat)
    ensures x == Shl(Shr(x, k), k) + Low(x, k) && Low(x, k) < Pow2(k)
  {
    if k > 0 {
      Parts(x / 2, k - 1);
    }
  }

  /** The mask of the lowest bits. */
  lemma {:induction false} AndMask(x: nat, mask: nat, k: nat)
    requires mask + 1 == Pow2(k)
    ensures And(x, mask) == Low(x, k)
  {
    if k > 0 {
      PowPositive(k - 1);
      AndMask(x / 2, Pow2(k - 1) - 1, k - 1);
      AndStep(x / 2, Pow2(k - 1) - 1, x % 2, 1);
    }
  }

  /** Shifts and masks as multiplication, division and remainder. */
  lemma {:induction false} ShlTimes(x: nat, k: nat)
    ensures Shl(x, k) == x * Pow2(k)
  {
    if k > 0 {
      ShlTimes(x, k - 1);
      assert x * Pow2(k) == 2 * (x * Pow2(k - 1));
    }
  }

  lemma {:induction false} Quotients(x: nat, d: nat, q: nat, r: nat)
    requires x == q * d + r && r < d
    ensures x / d == q && x % d == r
  {
    var e := x / d - q;
    assert e * d == r - x % d;
    if e != 0 {
      OneMultipleAway(e, d);
    }
  }

  lemma {:induction false} OneMultipleAway(e: int, d: nat)
    requires e != 0
    ensures e * d >= d || e * d + d <= 0
  {
    if e > 0 {
      assert (e - 1) * d >= 0;
    } else {
      assert (-e - 1) * d >= 0;
    }
  }

  lemma {:induction false} Arithmetic(x: nat, k: nat, power: nat)
    requires power == Pow2(k)
    ensures 0 < power && Shl(x, k) == x * power && Shr(x, k) == x / power && Low(x, k) == x % power
  {
    PowPositive(k);
    ShlTimes(x, k);
    ShlTimes(Shr(x, k), k);
    Parts(x, k);
    hide *;
    Quotients(x, power, Shr(x, k), Low(x, k));
  }

  lemma {:induction false} WordPowers()
    ensures Pow2(3) == 8 && Pow2(4) == 16 && Pow2(5) == 32 && Pow2(6) == 64 && Pow2(7) == 128 && Pow2(8) == 256 && Pow2(10) == 1024
    ensures Pow2(16) == 0x1_0000 && Pow2(24) == 0x100_0000
  {
    assert Pow2(3) == 8;
    assert Pow2(12) == 64 * Pow2(6);
    assert Pow2(18) == 64 * Pow2(12);
  }

  // ----- The expressions of the program

  /** (x | 0x80) & 0xBF takes the lowest six bits behind 10; and x >> 6 drops them. */
  lemma {:induction false} ContinuationBits(x: nat)
    ensures And(Or(x, 0x80), 0xBF) == 0x80 + x % 64 && Shr(x, 6) == x / 64
  {
    hide And, Or;
    WordPowers();
    Arithmetic(x, 6, 64);
    Arithmetic(2, 6, 64);
    var q, r := Shr(x, 6), Low(x, 6);
    Parts(x, 6);
    OrSplits(q, r, 2, 0, 6);
    AndSplits(Or(q, 2), r, 2, 63, 6);
    AndMask(r, 63, 6);
    Arithmetic(r, 6, 64);
    MarkStays(q);
    OrZero(r);
  }

  lemma {:induction false} MarkStays(q: nat)
    ensures And(Or(q, 2), 2) == 2
  {
    var a := q / 2;
    OrStep(a, 1, q % 2, 0);
    AndStep(Or(a, 1), 1, q % 2, 0);
    OrStep(a / 2, 0, a % 2, 1);
    AndStep(Or(a / 2, 0), 0, 1, 1);
    hide Or;
  }

  /** (x | mark) & 0xFF puts the mark above the bits of x. */
  lemma {:induction false} LeadBits(x: nat, mark: nat)
    requires (mark == 0xC0 && x < 0x20) || (mark == 0xE0 && x < 0x10) || (mark == 0xF0 && x < 0x08)
    ensures And(Or(x, mark), 0xFF) == mark + x
  {
    hide And, Or;
    WordPowers();
    var k := if mark == 0xC0 then 5 else if mark == 0xE0 then 4 else 3;
    var power := if mark == 0xC0 then 32 else if mark == 0xE0 then 16 else 8;
    var top := mark / power;
    Arithmetic(top, k, power);
    OrDisjoint(top, x, k);
    AndMask(mark + x, 0xFF, 8);
    Arithmetic(mark + x, 8, 256);
  }

  lemma {:induction false} SevenBits(x: nat)
    requires x < 0x80
    ensures And(x, 0x7F) == x
  {
    WordPowers();
    AndMask(x, 0x7F, 7);
    Arithmetic(x, 7, 0x80);
  }

  /** The code point of a pair of surrogates (cJSON.c). */
  lemma {:induction false} SurrogateBits(high: nat, low: nat)
    ensures Or(Shl(And(high, 0x3FF), 10), And(low, 0x3FF)) == high % 0x400 * 0x400 + low % 0x400
  {
    hide And, Or;
    WordPowers();
    AndMask(high, 0x3FF, 10);
    AndMask(low, 0x3FF, 10);
    Arithmetic(high, 10, 0x400);
    Arithmetic(low, 10, 0x400);
    Arithmetic(high % 0x400, 10, 0x400);
    OrDisjoint(high % 0x400, low % 0x400, 10);
  }

  /** Four bytes, the lowest first, each shifted to its place under its mask (xdb_searcher.c). */
  function Word(b0: nat, b1: nat, b2: nat, b3: nat): nat {
    Or(Or(Or(And(b0, 0xFF), And(Shl(b1, 8), 0xFF00)), And(Shl(b2, 16), 0xFF_0000)), And(Shl(b3, 24), 0xFF00_0000))
  }

  /** A byte under its mask, whatever stands above it when its sign was extended. */
  lemma {:induction false} FieldBits(b: nat, k: nat, power: nat)
    requires power == Pow2(k)
    ensures And(Shl(b, k), 0xFF * power) == b % 0x100 * power
  {
    hide And, Or;
    ShlOfZero(k);
    PowPositive(k);
    WordPowers();
    Arithmetic(0xFF, k, power);
    AndSplits(b, 0, 0xFF, 0, k);
    AndMask(b, 0xFF, 8);
    Arithmetic(b, 8, 0x100);
    Arithmetic(b % 0x100, k, power);
    assert And(0, 0) == 0 by { AndMask(0, 0, 0); }
  }

  lemma {:induction false} FieldAbove(low: nat, b: nat, k: nat, power: nat)
    requires power == Pow2(k) && low < power
    ensures Or(low, And(Shl(b, k), 0xFF * power)) == low + b % 0x100 * power
  {
    hide And, Or;
    FieldBits(b, k, power);
    Arithmetic(b % 0x100, k, power);
    OrDisjoint(b % 0x100, low, k);
  }

  lemma {:induction false} WordBits(b0: nat, b1: nat, b2: nat, b3: nat)
    ensures Word(b0, b1, b2, b3) == b0 % 0x100 + b1 % 0x100 * 0x100 + b2 % 0x100 * 0x1_0000 + b3 % 0x100 * 0x100_0000
  {
    hide And, Or, Shl, Pow2;
    WordPowers();
    AndMask(b0, 0xFF, 8);
    Arithmetic(b0, 8, 0x100);
    var low := b0 % 0x100;
    FieldAbove(low, b1, 8, 0x100);
    low := low + b1 % 0x100 * 0x100;
    FieldAbove(low, b2, 16, 0x1_0000);
    FieldAbove(low + b2 % 0x100 * 0x1_0000, b3, 24, 0x100_0000);
  }

  /** (x >> k) & 0xFF. */
  lemma {:induction false} ByteBits(x: nat, k: nat, power: nat)
    requires power == Pow2(k)
    ensures 0 < power && And(Shr(x, k), 0xFF) == x / power % 0x100
  {
    hide And;
    WordPowers();
    Arithmetic(x, k, power);
    AndMask(x / power, 0xFF, 8);
    Arithmetic(x / power, 8, 0x100);
  }

  lemma {:induction false} ShlAgain(x: nat, j: nat, k: nat)
    ensures Shl(Shl(x, j), k) == Shl(x, j + k)
  {
    if k > 0 {
      ShlAgain(x, j, k - 1);
    }
  }

  /** ip |= n << k, when all that ip holds stands above the byte. */
  lemma {:induction false} ByteBelow(a: nat, n: nat, k: nat)
    requires n < 0x100
    ensures Or(Shl(a, k + 8), Shl(n, k)) == Shl(Shl(a, 8) + n, k) == Shl(a, k + 8) + Shl(n, k)
  {
    hide Or, Shl;
    WordPowers();
    PowPositive(k);
    ShlAgain(a, 8, k);
    OrSplits(Shl(a, 8), 0, n, 0, k);
    OrDisjoint(a, n, 8);
    OrZero(0);
    ShlTimes(Shl(a, 8), k);
    ShlTimes(n, k);
    ShlTimes(Shl(a, 8) + n, k);
  }
}
