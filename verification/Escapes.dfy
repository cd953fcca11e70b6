/** Hexadecimal digits, and the escaping that the printer uses. */
module Escapes {
  import opened Ascii
  import opened StringSpec
  import opened Tokens

  // ----- Hexadecimal digits, by a table

  const LOWER_DIGITS: Text := [0x30, 0x31, 0x32, 0x33, 0x34, 0x35, 0x36, 0x37, 0x38, 0x39, 0x61, 0x62, 0x63, 0x64, 0x65, 0x66]
  const UPPER_DIGITS: Text := [0x30, 0x31, 0x32, 0x33, 0x34, 0x35, 0x36, 0x37, 0x38, 0x39, 0x41, 0x42, 0x43, 0x44, 0x45, 0x46]

  /** The letter case of each of four digits. */
  datatype Cases = Cases(upper0: bool, upper1: bool, upper2: bool, upper3: bool)

  const ALL_LOWER: Cases := Cases(false, false, false, false)

  function HexLetter(d: nat, upper: bool): (b: byte)
    requires d < 16
    ensures HexDigit(b) == Some(d)
  {
    if upper then UPPER_DIGITS[d] else LOWER_DIGITS[d]
  }

  /** The bytes that are read as hexadecimal digits are those of the table, and each as its place in it. */
  lemma {:induction false} HexDigitsAreThese(b: byte)
    ensures HexDigit(b).Some? <==> b in LOWER_DIGITS || b in UPPER_DIGITS
    ensures forall d :: 0 <= d < 16 && (b == LOWER_DIGITS[d] || b == UPPER_DIGITS[d]) ==> HexDigit(b) == Some(d)
  {
    if d :| HexDigit(b) == Some(d) {
      assert b == LOWER_DIGITS[d] || b == UPPER_DIGITS[d];
    }
  }

  /** A number in four digits, each in its letter case. */
  function Spelled(n: nat, u: Cases): (d: Text)
    requires n < 0x1_0000
  {
    [HexLetter(n / 16 / 16 / 16, u.upper0), HexLetter(n / 16 / 16 % 16, u.upper1), HexLetter(n / 16 % 16, u.upper2), HexLetter(n % 16, u.upper3)]
  }

  lemma {:induction false} FourDigits(d: Text, a: nat, b: nat, c: nat, e: nat)
    requires |d| == 4 && HexDigit(d[0]) == Some(a) && HexDigit(d[1]) == Some(b) && HexDigit(d[2]) == Some(c) && HexDigit(d[3]) == Some(e)
    ensures HexDigits(d) && Hex4(d, 0) == 16 * (16 * (16 * a + b) + c) + e
  {
    hide HexDigit;
    assert HexPrefix(d, 0, 1) == Some(a);
    assert HexPrefix(d, 0, 2) == Some(16 * a + b);
    assert HexPrefix(d, 0, 3) == Some(16 * (16 * a + b) + c);
  }

  lemma {:induction false} NoDigit(d: Text, i: nat, n: nat)
    requires i < n <= |d| && HexDigit(d[i]) == None
    ensures HexPrefix(d, 0, n) == None
  {
    if i < n - 1 {
      NoDigit(d, i, n - 1);
    }
  }

  /** The four digits of a number are read as the number, in either letter case at every place. */
  lemma {:induction false} SpelledIsRead(n: nat, u: Cases)
    requires n < 0x1_0000
    ensures HexDigits(Spelled(n, u)) && Hex4(Spelled(n, u), 0) == n
  {
    FourDigits(Spelled(n, u), n / 16 / 16 / 16, n / 16 / 16 % 16, n / 16 % 16, n % 16);
  }

  /** And the bytes that are taken for four digits are the spellings of numbers. */
  lemma {:induction false} HexDigitsAreSpelled(d: Text)
    ensures HexDigits(d) <==> exists n: nat, u :: n < 0x1_0000 && d == Spelled(n, u)
  {
    hide HexDigits, Hex4, HexDigit, Spelled;
    if HexDigits(d) {
      var n, u := NumberSpelled(d);
      assert n < 0x1_0000 && d == Spelled(n, u);
    }
    if n: nat, u :| n < 0x1_0000 && d == Spelled(n, u) {
      SpelledIsRead(n, u);
    }
  }

  lemma {:induction false} NumberSpelled(d: Text) returns (n: nat, u: Cases)
    requires HexDigits(d)
    ensures n < 0x1_0000 && d == Spelled(n, u)
  {
    forall i | 0 <= i < 4 ensures HexDigit(d[i]).Some? {
      if HexDigit(d[i]).None? {
        NoDigit(d, i, 4);
      }
    }
    hide HexDigits, HexDigit, HexLetter;
    n := Places(HexDigit(d[0]).value, HexDigit(d[1]).value, HexDigit(d[2]).value, HexDigit(d[3]).value);
    u := Cases(d[0] in UPPER_DIGITS, d[1] in UPPER_DIGITS, d[2] in UPPER_DIGITS, d[3] in UPPER_DIGITS);
    DigitIsLetter(d[0]);
    DigitIsLetter(d[1]);
    DigitIsLetter(d[2]);
    DigitIsLetter(d[3]);
  }

  lemma {:induction false} Places(a: nat, b: nat, c: nat, e: nat) returns (n: nat)
    requires a < 16 && b < 16 && c < 16 && e < 16
    ensures n < 0x1_0000 && n / 16 / 16 / 16 == a && n / 16 / 16 % 16 == b && n / 16 % 16 == c && n % 16 == e
  {
    var m := 16 * (16 * a + b) + c;
    n := 16 * m + e;
    assert n / 16 == m && m / 16 == 16 * a + b;
  }

  lemma {:induction false} DigitIsLetter(b: byte)
    requires HexDigit(b).Some?
    ensures b == HexLetter(HexDigit(b).value, b in UPPER_DIGITS)
  {
    HexDigitsAreThese(b);
  }

  /** The four digits that "%04x" writes. */
  function HexText(n: nat): (d: Text)
    requires n < 0x1_0000
    ensures HexDigits(d) && Hex4(d, 0) == n
  {
    SpelledIsRead(n, ALL_LOWER);
    Spelled(n, ALL_LOWER)
  }

  // ----- What the printer writes for a byte

  /** The escape of a byte in print_string_ptr. */
  function EscapedByte(b: byte): (p: Piece)
    ensures ValidPiece(p) && Meaning(p) == [b]
  {
    if b > 31 && b != QUOTE && b != BACKSLASH then Plain(b)
    else if b == QUOTE || b == BACKSLASH then Short(b)
    else if b == 0x08 then Short(LOWER_B)
    else if b == 0x0C then Short(LOWER_F)
    else if b == LF then Short(LOWER_N)
    else if b == CR then Short(LOWER_R)
    else if b == TAB then Short(LOWER_T)
    else Code(HexText(b))
  }

  function EscapedPieces(t: Text): (ps: seq<Piece>)
    ensures ValidPieces(ps) && PiecesMeaning(ps) == t
  {
    if t == [] then [] else
    var rest := EscapedPieces(t[1..]);
    var ps := [EscapedByte(t[0])] + rest;
    assert ps[1..] == rest;
    ps
  }

  function Escaped(t: Text): Text {
    if t == [] then [] else PieceText(EscapedByte(t[0])) + Escaped(t[1..])
  }

  lemma {:induction false} EscapedIsPieces(t: Text)
    ensures Escaped(t) == PiecesText(EscapedPieces(t))
  {
    if t != [] {
      EscapedIsPieces(t[1..]);
      assert EscapedPieces(t)[1..] == EscapedPieces(t[1..]);
    }
  }

  /** Unescaping undoes escaping. */
  lemma {:induction false} EscapedIsRead(t: Text)
    requires NulFree(t)
    ensures StringToken(Quoted(Escaped(t))) && StringValue(Quoted(Escaped(t))) == t
  {
    EscapedIsPieces(t);
    TokenOfPieces(EscapedPieces(t));
    TokensAreRead(Quoted(Escaped(t)));
    CStringOfNulFree(t);
    hide StringToken, StringValue;
  }

  lemma {:induction false} EscapedAppend(s: Text, t: Text)
    ensures Escaped(s + t) == Escaped(s) + Escaped(t)
  {
    if s == [] {
      assert s + t == t;
    } else {
      assert (s + t)[1..] == s[1..] + t;
      EscapedAppend(s[1..], t);
    }
  }

  /** Bytes above 31 that are neither quotes nor backslashes. */
  predicate Untroubled(t: Text) {
    forall i :: 0 <= i < |t| ==> t[i] > 31 && t[i] != 0x22 && t[i] != 0x5C
  }

  /** A text of such bytes is printed as it is. */
  lemma {:induction false} UntroubledIsPrinted(t: Text)
    requires Untroubled(t)
    ensures Quoted(Escaped(t)) == [0x22] + t + [0x22]
  {
    UntroubledIsUnescaped(t);
  }

  lemma {:induction false} UntroubledIsUnescaped(t: Text)
    requires Untroubled(t)
    ensures Escaped(t) == t
  {
    if t != [] {
      UntroubledIsUnescaped(t[1..]);
      assert [t[0]] + t[1..] == t;
    }
  }

  /** The seven bytes with an escape of one letter, and the letters. */
  const SHORT_ESCAPES: map<byte, byte> :=
    map[0x22 := 0x22, 0x5C := 0x5C, 0x08 := 0x62, 0x0C := 0x66, 0x0A := 0x6E, 0x0D := 0x72, 0x09 := 0x74]

  lemma {:induction false} EscapedOne(b: byte)
    ensures Escaped([b]) == PieceText(EscapedByte(b))
  {
    assert Escaped([b]) == PieceText(EscapedByte(b)) + Escaped([b][1..]) && Escaped([b][1..]) == [];
  }

  /** Each of the seven is printed with its letter. */
  lemma {:induction false} ShortEscapesAre(b: byte)
    ensures b in SHORT_ESCAPES ==> Escaped([b]) == [0x5C, SHORT_ESCAPES[b]]
  {
    hide HexText;
    EscapedOne(b);
  }

  /** Any other byte below 32 is printed with its number in four lower-case digits. */
  lemma {:induction false} ControlIsSpelled(b: byte)
    requires b < 32 && b !in SHORT_ESCAPES
    ensures Escaped([b]) == [0x5C, 0x75, 0x30, 0x30, if b < 16 then 0x30 else 0x31, LOWER_DIGITS[b % 16]]
  {
    EscapedOne(b);
    ControlIsCode(b);
    hide EscapedByte, Escaped, SHORT_ESCAPES, LOWER_DIGITS;
    SmallIsSpelled(b);
  }

  lemma {:induction false} ControlIsCode(b: byte)
    requires b < 32 && b !in SHORT_ESCAPES
    ensures EscapedByte(b) == Code(HexText(b))
  {
    hide HexText;
  }

  lemma {:induction false} SmallIsSpelled(n: nat)
    requires n < 32
    ensures HexText(n) == [0x30, 0x30, if n < 16 then 0x30 else 0x31, LOWER_DIGITS[n % 16]]
  {
    assert n / 16 == if n < 16 then 0 else 1;
  }

  /** How many of the seven stand in a text, and how many other bytes below 32. */
  function Shorts(t: Text): nat {
    if t == [] then 0 else Shorts(t[1..]) + if t[0] in SHORT_ESCAPES then 1 else 0
  }

  function Controls(t: Text): nat {
    if t == [] then 0 else Controls(t[1..]) + if t[0] < 32 && t[0] !in SHORT_ESCAPES then 1 else 0
  }

  /** Escaping adds one byte for each of the seven, and five for each other byte below 32. */
  lemma {:induction false} EscapedLength(t: Text)
    ensures |Escaped(t)| == |t| + Shorts(t) + 5 * Controls(t)
  {
    if t != [] {
      EscapedLength(t[1..]);
      OneLength(t[0]);
      EscapedAppend([t[0]], t[1..]);
      assert [t[0]] + t[1..] == t;
    }
  }

  lemma {:induction false} OneLength(b: byte)
    ensures |Escaped([b])| == if b in SHORT_ESCAPES then 2 else if b < 32 then 6 else 1
  {
    hide Escaped, SHORT_ESCAPES;
    ShortEscapesAre(b);
    if b !in SHORT_ESCAPES {
      if b < 32 {
        ControlIsSpelled(b);
      } else {
        OtherIsUntroubled(b);
        UntroubledIsUnescaped([b]);
      }
    }
  }

  lemma {:induction false} OtherIsUntroubled(b: byte)
    requires b >= 32 && b !in SHORT_ESCAPES
    ensures Untroubled([b])
  {
  }
}
