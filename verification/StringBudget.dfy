/**
 * Why the buffer that parse_string sizes in its first pass is never overrun in its second, even when a malformed \u makes
 * the second pass lose step with the first: a budget of output bytes that every turn of the second pass pays for.
 */
module StringBudget {
  import opened Ascii
  import opened StringSpec

  /** The units that the first pass counts from `p` to the closing quote, the last byte of `raw`. */
  function Allotted(raw: Text, p: nat): nat
    decreases |raw| - p
  {
    if p + 1 >= |raw| then 0
    else if raw[p] == BACKSLASH then 1 + Allotted(raw, p + 2)
    else 1 + Allotted(raw, p + 1)
  }

  /** The first pass, started at `p`, stops at the last byte. */
  predicate OnGrid(raw: Text, p: nat) {
    0 < |raw| && Scan(raw, p) == Some(|raw| - 1)
  }

  /**
   * The second pass stands at `p`: either where the first pass started a unit, or (`half`) on the second byte of an
   * escape of the first pass.
   */
  predicate InStep(raw: Text, p: nat, half: bool) {
    OnGrid(raw, if half then p + 1 else p)
  }

  /** What the second pass may still write; a half unit is worth one byte. */
  function Budget(raw: Text, p: nat, half: bool): nat {
    if half then 1 + Allotted(raw, p + 1) else Allotted(raw, p)
  }

  /** Moving on by one byte costs one, except from the first to the second byte of an escape. */
  lemma {:induction false} OneByte(raw: Text, p: nat, half: bool)
    requires p + 1 < |raw| && InStep(raw, p, half)
    ensures var half' := !half && raw[p] == BACKSLASH;
            InStep(raw, p + 1, half') && Budget(raw, p, half) == Budget(raw, p + 1, half') + if half' then 0 else 1
  {
  }

  /** So any 2k bytes, whatever they are, cost at least k. */
  lemma {:induction false} ByteRun(raw: Text, p: nat, half: bool, k: nat) returns (half': bool)
    requires p + 2 * k < |raw| && InStep(raw, p, half)
    ensures InStep(raw, p + 2 * k, half') && Budget(raw, p + 2 * k, half') + k <= Budget(raw, p, half)
    decreases k
  {
    half' := half;
    if k > 0 {
      OneByte(raw, p, half);
      var h := !half && raw[p] == BACKSLASH;
      OneByte(raw, p + 1, h);
      half' := ByteRun(raw, p + 2, !h && raw[p + 1] == BACKSLASH, k - 1);
    }
  }

  /** Where the second pass may stand with `budget` bytes to go; it may run past the closing quote by one byte. */
  predicate Affords(raw: Text, p: nat, half: bool, budget: nat) {
    if p < |raw| then InStep(raw, p, half) && Budget(raw, p, half) <= budget else p == |raw|
  }

  /** Every turn of the second pass is paid for. */
  lemma {:induction false} TurnIsPaid(raw: Text, p: nat, half: bool, budget: nat) returns (half': bool)
    requires p + 1 < |raw| && Affords(raw, p, half, budget) && Unit(raw, p).Step?
    ensures |Unit(raw, p).bytes| <= budget
    ensures Affords(raw, p + Unit(raw, p).width, half', budget - |Unit(raw, p).bytes|)
  {
    var width := Unit(raw, p).width;
    if raw[p] != BACKSLASH {
      OneByte(raw, p, half);
      half' := false;
    } else if p + width < |raw| {
      half' := ByteRun(raw, p, half, width / 2);
    } else {
      half' := false;
    }
  }

  /** The bytes that the second pass produces, from any place where it can stand, fit the budget. */
  lemma {:induction false} DecodedFits(raw: Text, p: nat, half: bool, budget: nat)
    requires Affords(raw, p, half, budget) && 0 < |raw|
    ensures Decode(raw, p).Parsed? ==> |Decode(raw, p).value| <= budget && Decode(raw, p).next <= |raw|
    decreases |raw| - p
  {
    if p + 1 < |raw| && Unit(raw, p).Step? {
      var half' := TurnIsPaid(raw, p, half, budget);
      hide Unit, Affords;
      var step := Unit(raw, p);
      DecodedFits(raw, p + step.width, half', budget - |step.bytes|);
    }
  }

  /**
   * For every input: the unescaped bytes and their terminator fit the size that the first pass computes, and the read
   * pointer ends at most one byte past the closing quote.
   */
  lemma {:induction false} SecondPassFits(s: Text, i: nat, end: nat)
    requires i < |s| && Scan(s, i + 1) == Some(end)
    ensures var raw := s[i + 1..end + 1];
            && InStep(raw, 0, false)
            && (Decode(raw, 0).Parsed? ==> |Decode(raw, 0).value| + 1 <= Allotted(raw, 0) + 2 && Decode(raw, 0).next <= |raw|)
  {
    var raw := s[i + 1..end + 1];
    ScanOfSlice(s, i + 1, end, 0);
    DecodedFits(raw, 0, false, Allotted(raw, 0));
  }

  lemma {:induction false} ScanOfSlice(s: Text, b: nat, end: nat, k: nat)
    requires Scan(s, b + k) == Some(end)
    ensures b + k <= end && Scan(s[b..end + 1], k) == Some(end - b)
    decreases end - k
  {
    if s[b + k] == BACKSLASH {
      ScanOfSlice(s, b, end, k + 2);
    } else if s[b + k] != QUOTE {
      ScanOfSlice(s, b, end, k + 1);
    }
  }
}
