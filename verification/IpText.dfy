/** Addresses as dotted text: xdb_check_ip, xdb_long2ip and xdb_search_by_string. */
module IpText {
  import opened Ascii
  import opened Values
  import opened Bits
  import opened Decimals
  import opened Render
  import opened XdbSpec
  import XdbSearcher

  /** C gives no meaning to a part that does not fit an int. */
  datatype IpOutcome = Ip(value: int) | Bad(code: int) | Overflow

  datatype Part = Stopped(n: nat, next: nat) | Malformed | TooLong

  function ByteOf(s: Text, p: nat): byte
    requires p <= |s|
  {
    if p < |s| then s[p] else NUL
  }

  /** The digits from `p` on, behind those that make up `n`; the last part ends at any other byte, the ones before at a dot. */
  function ReadPart(s: Text, p: nat, n: nat, last: bool): (r: Part)
    requires p <= |s|
    ensures r.Stopped? ==> p < r.next && (!last ==> r.next <= |s|)
    decreases |s| - p
  {
    var c := ByteOf(s, p);
    if IsDigit(c) then
      var more := n * 10 + (c - DIGIT0);
      if more > INT_MAX then TooLong else ReadPart(s, p + 1, more, last)
    else if last || c == DOT then Stopped(n, p + 1)
    else Malformed
  }

  /** A byte shifted to its place in the address. */
  function Shifted(n: nat, k: nat): (r: nat)
    ensures k == 0 ==> r == n
  {
    Shl(n, 8 * k)
  }

  lemma {:induction false} ShiftedBytes(n: nat)
    ensures Shifted(n, 1) == n * 0x100 && Shifted(n, 2) == n * 0x1_0000 && Shifted(n, 3) == n * 0x100_0000
  {
    WordPowers();
    Arithmetic(n, 8, 0x100);
    Arithmetic(n, 16, 0x1_0000);
    Arithmetic(n, 24, 0x100_0000);
  }

  const SHIFT_INDEX: seq<nat> := [24, 16, 8, 0]

  /** `left` parts are to be read, `ip` has what the ones before gave. */
  function CheckFrom(s: Text, p: nat, left: nat, ip: int): IpOutcome
    requires p <= |s| && 0 < left
    decreases left
  {
    match ReadPart(s, p, 0, left == 1)
    case Malformed => Bad(1)
    case TooLong => Overflow
    case Stopped(n, next) =>
      if n > 0xFF then Bad(2)
      else if left == 1 then Ip(ip + n)
      else CheckFrom(s, next, left - 1, ip + Shifted(n, left - 1))
  }

  /** The inner loop of xdb_check_ip: one part and the place behind the byte that ends it. */
  method ReadNumber(s: Text, start: nat, i: nat) returns (ok: bool, n: nat, p: nat)
    requires start <= |s| && i <= 3 && ReadPart(s, start, 0, i == 3) != TooLong
    ensures ReadPart(s, start, 0, i == 3) == if ok then Stopped(n, p) else Malformed
  {
    n, p := 0, start;
    while true
      invariant p <= |s| && n <= INT_MAX
      invariant ReadPart(s, start, 0, i == 3) == ReadPart(s, p, n, i == 3)
      decreases |s| - p
    {
      var c := ByteOf(s, p);
      p := p + 1;
      if DIGIT0 <= c <= DIGIT9 {
        n := n * 10;
        n := n + (c - DIGIT0);
      } else if (i < 3 && c == DOT) || i == 3 {
        return true, n, p;
      } else {
        return false, n, p;
      }
    }
  }

  /** xdb_check_ip of a C string. */
  method CheckIp(s: Text) returns (code: int, ip: nat)
    requires NulFree(s) && CheckFrom(s, 0, 4, 0) != Overflow
    ensures CheckFrom(s, 0, 4, 0) == if code == 0 then Ip(ip) else Bad(code)
  {
    hide NulFree, ReadPart, Or, Shl;
    ip := 0;
    ghost var a: nat := 0;
    assert 0 == Shl(0, 32) by { ShlOfZero(32); }
    var p: nat := 0;
    for i := 0 to 4
      invariant (i < 4 ==> p <= |s|) && ip == Shl(a, 32 - 8 * i)
      invariant CheckFrom(s, 0, 4, 0) == if i < 4 then CheckFrom(s, p, 4 - i, ip) else Ip(ip)
    {
      var ok, n;
      ok, n, p := ReadNumber(s, p, i);
      if !ok {
        return 1, 0;
      }
      if n > 0xFF {
        return 2, 0;
      }
      assert SHIFT_INDEX[i] == 24 - 8 * i && Shl(n, SHIFT_INDEX[i]) == Shifted(n, 3 - i);
      ByteBelow(a, n, SHIFT_INDEX[i]);
      ip, a := Or(ip, Shl(n, SHIFT_INDEX[i])), Shl(a, 8) + n;
    }
    code := 0;
  }

  /** xdb_long2ip */
  function Long2Ip(ip: uint32): Text {
    Digits(And(Shr(ip, 24), 0xFF)) + ([DOT] + (Digits(And(Shr(ip, 16), 0xFF)) + ([DOT] + (Digits(And(Shr(ip, 8), 0xFF))
      + ([DOT] + Digits(And(ip, 0xFF)))))))
  }

  /** xdb_search_by_string: an address that is no address answers 11 or 12. */
  method SearchByString(xdb: XdbSearcher.Searcher, s: Text, region: array<byte>, length: nat) returns (code: int)
    requires NulFree(s) && CheckFrom(s, 0, 4, 0) != Overflow
    requires 0 < region.Length && length <= region.Length
    requires xdb.content.Some? && CheckFrom(s, 0, 4, 0).Ip? ==> !RunsOut(xdb.Answer(CheckFrom(s, 0, 4, 0).value % TWO32, length))
    modifies xdb`ioCount, region
    ensures match CheckFrom(s, 0, 4, 0)
            case Bad(e) => code == 10 + e && region[..] == old(region[..])
            case Ip(ip) =>
              match xdb.Answer(ip % TWO32, length)
              case Error(e) => code == e
              case Region(text) => code == 0 && XdbSearcher.IsString(region, text)
  {
    var err, ip := CheckIp(s);
    if err != 0 {
      return 10 + err;
    }
    code := xdb.Search(ip % TWO32, region, length);
  }

  // ----- What counts as an address

  /** Parts of digits with dots between them, the first one at `p`; no digit follows the last one. */
  predicate Dotted(s: Text, p: nat, parts: seq<Text>)
    decreases |parts|
  {
    && parts != []
    && At(s, p, parts[0]) && AllDigits(parts[0])
    && var end := p + |parts[0]|;
       if |parts| == 1 then end == |s| || !IsDigit(s[end])
       else end < |s| && s[end] == DOT && Dotted(s, end + 1, parts[1..])
  }

  /** What a list of parts amounts to behind `ip`. */
  function Amount(parts: seq<Text>, ip: int): IpOutcome
    requires forall i :: 0 <= i < |parts| ==> AllDigits(parts[i])
    decreases |parts|
  {
    if parts == [] then Ip(ip)
    else
      var n := Numeral(0, parts[0]);
      if n > INT_MAX then Overflow
      else if n > 0xFF then Bad(2)
      else Amount(parts[1..], ip + Shifted(n, |parts| - 1))
  }

  lemma {:induction false} PartIsRead(s: Text, p: nat, t: Text, n: nat, last: bool)
    requires At(s, p, t) && AllDigits(t) && n <= INT_MAX && !IsDigit(ByteOf(s, p + |t|))
    ensures ReadPart(s, p, n, last) ==
            if Numeral(n, t) > INT_MAX then TooLong
            else if last || ByteOf(s, p + |t|) == DOT then Stopped(Numeral(n, t), p + |t| + 1) else Malformed
    decreases |t|
  {
    if t != [] {
      AtByte(s, p, t, 0);
      assert At(s, p + 1, t[1..]) by {
        assert t == [t[0]] + t[1..];
        AtSplit(s, p, [t[0]], t[1..]);
      }
      if 10 * n + (t[0] - DIGIT0) <= INT_MAX {
        PartIsRead(s, p + 1, t[1..], 10 * n + (t[0] - DIGIT0), last);
      }
    }
  }

  /** A dotted text is read as the sum of its parts, in their places. */
  lemma {:induction false} DottedIsRead(s: Text, p: nat, parts: seq<Text>, ip: int)
    requires Dotted(s, p, parts)
    ensures p <= |s| && (forall i :: 0 <= i < |parts| ==> AllDigits(parts[i]))
    ensures CheckFrom(s, p, |parts|, ip) == Amount(parts, ip)
    decreases |parts|
  {
    hide Shifted, At;
    AtEnds(s, p, parts[0]);
    PartIsRead(s, p, parts[0], 0, |parts| == 1);
    if |parts| > 1 {
      DottedIsRead(s, p + |parts[0]| + 1, parts[1..], ip + Shifted(Numeral(0, parts[0]), |parts| - 1));
      forall i | 0 <= i < |parts| ensures AllDigits(parts[i]) {
        assert i > 0 ==> parts[i] == parts[1..][i - 1];
      }
    } else {
      assert parts[1..] == [];
    }
  }

  lemma {:induction false} AtEnds(s: Text, p: nat, t: Text)
    requires At(s, p, t)
    ensures p + |t| <= |s|
  {
  }

  /** What was read as a part is a run of digits. */
  lemma {:induction false} PartFound(s: Text, p: nat, n: nat, last: bool) returns (t: Text)
    requires p <= |s| && ReadPart(s, p, n, last).Stopped?
    ensures At(s, p, t) && AllDigits(t) && ReadPart(s, p, n, last).next == p + |t| + 1
    ensures !IsDigit(ByteOf(s, p + |t|)) && (!last ==> p + |t| < |s| && s[p + |t|] == DOT)
    decreases |s| - p
  {
    var c := ByteOf(s, p);
    if IsDigit(c) {
      var rest := PartFound(s, p + 1, n * 10 + (c - DIGIT0), last);
      t := [c] + rest;
      AtSplit(s, p, [c], rest);
    } else {
      t := [];
    }
  }

  /** Only dotted texts are read as addresses. */
  lemma {:induction false} AddressIsDotted(s: Text, p: nat, left: nat, ip: int) returns (parts: seq<Text>)
    requires p <= |s| && 0 < left && CheckFrom(s, p, left, ip).Ip?
    ensures |parts| == left && Dotted(s, p, parts)
    decreases left
  {
    hide Shifted, At, AllDigits;
    var t := PartFound(s, p, 0, left == 1);
    parts := [t];
    if left > 1 {
      var part := ReadPart(s, p, 0, left == 1);
      var rest := AddressIsDotted(s, part.next, left - 1, ip + Shifted(part.n, left - 1));
      parts := [t] + rest;
      assert parts[1..] == rest;
    }
  }

  /**
   * A text is read as an address exactly when it is four parts of digits with dots between them, none of them above 255,
   * and perhaps something behind that does not start with a digit. A part may be empty.
   */
  lemma {:induction false} AddressesAreDotted(s: Text, ip: int)
    ensures CheckFrom(s, 0, 4, 0) == Ip(ip) <==>
            exists parts :: |parts| == 4 && Dotted(s, 0, parts) && (forall i :: 0 <= i < 4 ==> AllDigits(parts[i])) && Amount(parts, 0) == Ip(ip)
  {
    hide Amount;
    if CheckFrom(s, 0, 4, 0) == Ip(ip) {
      var parts := AddressIsDotted(s, 0, 4, 0);
      DottedIsRead(s, 0, parts, 0);
    }
    if parts :| |parts| == 4 && Dotted(s, 0, parts) && (forall i :: 0 <= i < 4 ==> AllDigits(parts[i])) && Amount(parts, 0) == Ip(ip) {
      DottedIsRead(s, 0, parts, 0);
    }
  }

  // ----- Writing an address and reading it

  lemma {:induction false} FourBytes(ip: uint32)
    ensures ip == ip / 0x100_0000 % 0x100 * 0x100_0000 + ip / 0x1_0000 % 0x100 * 0x1_0000 + ip / 0x100 % 0x100 * 0x100 + ip % 0x100
  {
    assert ip / 0x1_0000 == ip / 0x100_0000 * 0x100 + ip / 0x1_0000 % 0x100;
    assert ip / 0x100 == ip / 0x1_0000 * 0x100 + ip / 0x100 % 0x100;
  }

  /** Every address is read back from its text. */
  lemma {:induction false} AddressComesBack(ip: uint32)
    ensures CheckFrom(Long2Ip(ip), 0, 4, 0) == Ip(ip) && NulFree(Long2Ip(ip))
  {
    FourBytes(ip);
    AddressBits(ip);
    hide And, Shr;
    FourPartsComeBack(ip / 0x100_0000 % 0x100, ip / 0x1_0000 % 0x100, ip / 0x100 % 0x100, ip % 0x100);
  }

  lemma {:induction false} FourPartsComeBack(a: nat, b: nat, c: nat, d: nat)
    requires a < 0x100 && b < 0x100 && c < 0x100 && d < 0x100
    ensures var s := Digits(a) + ([DOT] + (Digits(b) + ([DOT] + (Digits(c) + ([DOT] + Digits(d))))));
            NulFree(s) && CheckFrom(s, 0, 4, 0) == Ip(a * 0x100_0000 + b * 0x1_0000 + c * 0x100 + d)
  {
    hide Digits, CheckFrom, Dotted, Amount, Numeral, NulFree, AllDigits;
    DigitsWriteNumber(a);
    DigitsWriteNumber(b);
    DigitsWriteNumber(c);
    DigitsWriteNumber(d);
    DottedText(Digits(a), Digits(b), Digits(c), Digits(d));
    var parts := [Digits(a), Digits(b), Digits(c), Digits(d)];
    DottedIsRead(Digits(a) + ([DOT] + (Digits(b) + ([DOT] + (Digits(c) + ([DOT] + Digits(d)))))), 0, parts, 0);
    AmountOfFour(parts);
  }

  lemma {:induction false} AmountStep(parts: seq<Text>, ip: int)
    requires parts != [] && forall i :: 0 <= i < |parts| ==> AllDigits(parts[i]) && Numeral(0, parts[i]) <= 0xFF
    ensures Amount(parts, ip) == Amount(parts[1..], ip + Shifted(Numeral(0, parts[0]), |parts| - 1))
  {
  }

  lemma {:induction false} AmountOfFour(parts: seq<Text>)
    requires |parts| == 4 && forall i :: 0 <= i < 4 ==> AllDigits(parts[i]) && Numeral(0, parts[i]) <= 0xFF
    ensures Amount(parts, 0) == Ip(Numeral(0, parts[0]) * 0x100_0000 + Numeral(0, parts[1]) * 0x1_0000
                                   + Numeral(0, parts[2]) * 0x100 + Numeral(0, parts[3]))
  {
    var n0, n1, n2, n3 := Numeral(0, parts[0]), Numeral(0, parts[1]), Numeral(0, parts[2]), Numeral(0, parts[3]);
    hide Numeral, AllDigits, Amount, Shifted;
    ShiftedBytes(n0);
    ShiftedBytes(n1);
    ShiftedBytes(n2);
    AmountStep(parts, 0);
    AmountStep(parts[1..], Shifted(n0, 3));
    assert parts[1..][1..] == parts[2..];
    AmountStep(parts[2..], Shifted(n0, 3) + Shifted(n1, 2));
    assert parts[2..][1..] == parts[3..];
    AmountStep(parts[3..], Shifted(n0, 3) + Shifted(n1, 2) + Shifted(n2, 1));
    assert parts[3..][1..] == [];
    AmountOfNone(Shifted(n0, 3) + Shifted(n1, 2) + Shifted(n2, 1) + n3);
  }

  lemma {:induction false} AmountOfNone(ip: int)
    ensures Amount([], ip) == Ip(ip)
  {
  }

  lemma {:induction false} DottedText(a: Text, b: Text, c: Text, d: Text)
    requires AllDigits(a) && AllDigits(b) && AllDigits(c) && AllDigits(d)
    ensures var s := a + ([DOT] + (b + ([DOT] + (c + ([DOT] + d)))));
            NulFree(s) && Dotted(s, 0, [a, b, c, d])
  {
    var s := a + ([DOT] + (b + ([DOT] + (c + ([DOT] + d)))));
    var q, r, t := |a| + 1, |a| + 1 + |b| + 1, |a| + 1 + |b| + 1 + |c| + 1;
    assert At(s, 0, a) && At(s, q, b) && At(s, r, c) && At(s, t, d);
    assert s[q - 1] == DOT && s[r - 1] == DOT && s[t - 1] == DOT && t + |d| == |s|;
    assert Dotted(s, t, [d]);
    assert [c, d][1..] == [d] && [b, c, d][1..] == [c, d] && [a, b, c, d][1..] == [b, c, d];
    assert Dotted(s, r, [c, d]);
    assert Dotted(s, q, [b, c, d]);
  }
}
