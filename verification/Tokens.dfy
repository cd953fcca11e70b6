/** String tokens as sequences of pieces: all that parse_string accepts, and what of it RFC 8259 knows. */
module Tokens {
  import opened Ascii
  import opened Bits
  import opened StringSpec

  /** `Broken` is what the parser makes of a `\u` without four hexadecimal digits behind it. */
  datatype Piece =
    | Plain(b: byte)
    | Short(letter: byte)
    | Code(digits: Text)
    | Surrogates(high: Text, low: Text)
    | Broken(bytes: Text)

  predicate HexDigits(d: Text) {
    |d| == 4 && HexPrefix(d, 0, 4).Some?
  }

  /** Plain bytes are neither quotes nor backslashes; a code is no surrogate; surrogates come as a pair, high first. */
  predicate ValidPiece(p: Piece) {
    match p
    case Plain(b) => b != QUOTE && b != BACKSLASH
    case Short(letter) => ShortEscape(letter).Some?
    case Code(d) => HexDigits(d) && !(0xD800 <= Hex4(d, 0) <= 0xDFFF)
    case Surrogates(h, l) => HexDigits(h) && HexDigits(l) && 0xD800 <= Hex4(h, 0) <= 0xDBFF && 0xDC00 <= Hex4(l, 0) <= 0xDFFF
    case Broken(_) => false
  }

  /** What the second pass takes besides: four bytes of any kind behind `\u`, and a quote that it comes upon by such a skip. */
  predicate LoosePiece(p: Piece) {
    match p
    case Plain(b) => b != BACKSLASH
    case Broken(d) => |d| == 4 && !HexDigits(d)
    case _ => ValidPiece(p)
  }

  const ESCAPE_U: Text := [BACKSLASH, LOWER_U]

  function PieceText(p: Piece): Text {
    match p
    case Plain(b) => [b]
    case Short(letter) => [BACKSLASH, letter]
    case Code(d) => ESCAPE_U + d
    case Surrogates(h, l) => (ESCAPE_U + h) + (ESCAPE_U + l)
    case Broken(d) => ESCAPE_U + d
  }

  /** The code point that a pair of surrogates encodes (RFC 2781, section 2.2). */
  function Supplementary(high: nat, low: nat): nat
    requires 0xD800 <= high <= 0xDBFF && 0xDC00 <= low <= 0xDFFF
  {
    0x1_0000 + (high - 0xD800) * 0x400 + (low - 0xDC00)
  }

  function Meaning(p: Piece): Text
    requires LoosePiece(p)
  {
    match p
    case Plain(b) => [b]
    case Short(letter) => [ShortEscape(letter).value]
    case Code(d) => Hex4Range(d, 0); Utf8(Hex4(d, 0))
    case Surrogates(h, l) => Utf8(Supplementary(Hex4(h, 0), Hex4(l, 0)))
    case Broken(_) => [NUL]
  }

  predicate ValidPieces(ps: seq<Piece>) {
    forall i :: 0 <= i < |ps| ==> ValidPiece(ps[i])
  }

  predicate LoosePieces(ps: seq<Piece>) {
    forall i :: 0 <= i < |ps| ==> LoosePiece(ps[i])
  }

  function PiecesText(ps: seq<Piece>): Text {
    if ps == [] then [] else PieceText(ps[0]) + PiecesText(ps[1..])
  }

  function PiecesMeaning(ps: seq<Piece>): Text
    requires LoosePieces(ps)
  {
    if ps == [] then [] else Meaning(ps[0]) + PiecesMeaning(ps[1..])
  }

  function Quoted(t: Text): Text {
    [QUOTE] + (t + [QUOTE])
  }

  /** The text between the quotes: no quote in it but behind a backslash, and no backslash at its end but behind another. */
  predicate Closed(t: Text) {
    || t == []
    || (t[0] == BACKSLASH && 1 < |t| && Closed(t[2..]))
    || (t[0] != BACKSLASH && t[0] != QUOTE && Closed(t[1..]))
  }

  /** The pieces make up the text; a last one that is an escaped quote may take the closing quote along. */
  predicate Spells(ps: seq<Piece>, t: Text) {
    && LoosePieces(ps)
    && (PiecesText(ps) == t || (ps != [] && ps[|ps| - 1] == Short(QUOTE) && PiecesText(ps) == t + [QUOTE]))
  }

  /** A string token, and the C string that it stands for. */
  ghost predicate StringToken(raw: Text) {
    exists t, ps :: Token(raw, t, ps)
  }

  predicate Token(raw: Text, t: Text, ps: seq<Piece>) {
    raw == Quoted(t) && Closed(t) && Spells(ps, t)
  }

  ghost function StringValue(raw: Text): Text
    requires StringToken(raw)
  {
    var t, ps :| Token(raw, t, ps);
    CString(PiecesMeaning(ps))
  }

  lemma {:induction false} PieceTextLength(p: Piece)
    requires LoosePiece(p)
    ensures 1 <= |PieceText(p)|
  {
  }

  lemma {:induction false} ValidIsLoose(ps: seq<Piece>)
    requires ValidPieces(ps)
    ensures LoosePieces(ps)
  {
    forall i | 0 <= i < |ps| ensures LoosePiece(ps[i]) {
      assert ValidPiece(ps[i]);
    }
  }

  // ----- The first pass

  /** The scan ends at a quote exactly when the text up to there is closed. */
  lemma {:induction false} ScanCloses(s: Text, k: nat, e: nat)
    requires k <= e < |s| && s[e] == QUOTE
    ensures Scan(s, k) == Some(e) <==> Closed(s[k..e])
    decreases e - k
  {
    var t := s[k..e];
    if k < e {
      assert t[0] == s[k];
      if s[k] == BACKSLASH {
        if k + 1 < e {
          assert t[2..] == s[k + 2..e];
          ScanCloses(s, k + 2, e);
        }
      } else if s[k] != QUOTE {
        assert t[1..] == s[k + 1..e];
        ScanCloses(s, k + 1, e);
      }
    }
  }

  // ----- One piece

  lemma {:induction false} HexIsLocal(s: Text, p: nat, d: Text, n: nat)
    requires At(s, p, d) && |d| == 4 && n <= 4
    ensures HexPrefix(s, p, n) == HexPrefix(d, 0, n)
  {
    if n > 0 {
      HexIsLocal(s, p, d, n - 1);
      AtByte(s, p, d, n - 1);
    }
  }

  lemma {:induction false} HexBytes(d: Text, n: nat)
    requires n <= |d| && HexPrefix(d, 0, n).Some?
    ensures forall i :: 0 <= i < n ==> d[i] > SPACE && d[i] != SLASH && d[i] != QUOTE && d[i] != BACKSLASH
  {
    if n > 0 {
      HexBytes(d, n - 1);
    }
  }

  /** What stands behind a `\u`. */
  lemma {:induction false} EscapeAt(s: Text, k: nat, d: Text)
    requires At(s, k, ESCAPE_U + d) && |d| == 4
    ensures k + 6 <= |s| && s[k] == BACKSLASH && s[k + 1] == LOWER_U
    ensures Hex4(s, k + 2) == if HexDigits(d) then Hex4(d, 0) else 0
  {
    AtByte(s, k, ESCAPE_U + d, 0);
    AtByte(s, k, ESCAPE_U + d, 1);
    AtSplit(s, k, ESCAPE_U, d);
    HexIsLocal(s, k + 2, d, 4);
  }

  /** Masks and a shift put the offsets of two surrogates in their ranges together. */
  lemma {:induction false} SurrogateOffsets(high: nat, low: nat)
    requires 0xD800 <= high <= 0xDBFF && 0xDC00 <= low <= 0xDFFF
    ensures 0x1_0000 + Or(Shl(And(high, 0x3FF), 10), And(low, 0x3FF)) == Supplementary(high, low)
    ensures 0x1_0000 + high % 0x400 * 0x400 + low % 0x400 == Supplementary(high, low)
  {
    SurrogateBits(high, low);
    hide And, Or, Shl;
    assert high % 0x400 == high - 0xD800;
    assert low % 0x400 == low - 0xDC00;
  }

  lemma {:induction false} UnitOfSurrogates(raw: Text, k: nat, h: Text, l: Text)
    requires At(raw, k, (ESCAPE_U + h) + (ESCAPE_U + l)) && ValidPiece(Surrogates(h, l)) && k + 12 < |raw|
    ensures Unit(raw, k) == Step(12, Utf8(Supplementary(Hex4(h, 0), Hex4(l, 0))))
  {
    AtSplit(raw, k, ESCAPE_U + h, ESCAPE_U + l);
    EscapeAt(raw, k, h);
    EscapeAt(raw, k + 6, l);
    hide At, Hex4, Utf8, HexDigits, Supplementary;
    SurrogateOffsets(Hex4(h, 0), Hex4(l, 0));
  }

  lemma {:induction false} UnitOfCode(raw: Text, k: nat, d: Text)
    requires At(raw, k, PieceText(Code(d))) && LoosePiece(Code(d)) && k + |PieceText(Code(d))| < |raw|
    ensures k + 1 < |raw| && Unit(raw, k) == Step(|PieceText(Code(d))|, Meaning(Code(d)))
  {
    hide At, Hex4, Utf8;
    EscapeAt(raw, k, d);
  }

  lemma {:induction false} UnitOfBroken(raw: Text, k: nat, d: Text)
    requires At(raw, k, PieceText(Broken(d))) && LoosePiece(Broken(d)) && k + |PieceText(Broken(d))| < |raw|
    ensures k + 1 < |raw| && Unit(raw, k) == Step(|PieceText(Broken(d))|, Meaning(Broken(d)))
  {
    hide At, Hex4, HexDigits;
    EscapeAt(raw, k, d);
    assert Utf8(0) == [NUL];
  }

  /** Before the closing quote, or with an escaped quote upon it, a piece is read as what it means. */
  lemma {:induction false} UnitOfPiece(raw: Text, k: nat, p: Piece)
    requires At(raw, k, PieceText(p)) && LoosePiece(p)
    requires k + |PieceText(p)| < |raw| || (p == Short(QUOTE) && k + 2 == |raw|)
    ensures k + 1 < |raw| && Unit(raw, k) == Step(|PieceText(p)|, Meaning(p))
  {
    match p
    case Plain(b) => AtByte(raw, k, [b], 0);
    case Short(letter) =>
      AtByte(raw, k, PieceText(p), 0);
      AtByte(raw, k, PieceText(p), 1);
    case Code(d) =>
      hide *;
      UnitOfCode(raw, k, d);
    case Surrogates(h, l) =>
      UnitOfSurrogates(raw, k, h, l);
    case Broken(d) =>
      hide *;
      UnitOfBroken(raw, k, d);
  }

  /** A turn of the second pass reads a piece. */
  lemma {:induction false} PieceOfUnit(raw: Text, k: nat) returns (p: Piece)
    requires k + 1 < |raw| && raw[|raw| - 1] == QUOTE && Unit(raw, k).Step?
    ensures LoosePiece(p) && At(raw, k, PieceText(p)) && Unit(raw, k) == Step(|PieceText(p)|, Meaning(p))
    ensures k + |PieceText(p)| < |raw| || (p == Short(QUOTE) && k + 2 == |raw|)
  {
    if raw[k] != BACKSLASH {
      p := Plain(raw[k]);
    } else if raw[k + 1] != LOWER_U {
      p := Short(raw[k + 1]);
    } else {
      p := PieceOfLiteral(raw, k);
    }
    UnitOfPiece(raw, k, p);
  }

  lemma {:induction false} EscapeFound(s: Text, k: nat) returns (d: Text)
    requires k + 6 <= |s| && s[k] == BACKSLASH && s[k + 1] == LOWER_U
    ensures |d| == 4 && At(s, k, ESCAPE_U + d) && d == s[k + 2..k + 6]
    ensures Hex4(s, k + 2) == if HexDigits(d) then Hex4(d, 0) else 0
  {
    d := s[k + 2..k + 6];
    assert s[k..k + 6] == ESCAPE_U + d;
    EscapeAt(s, k, d);
  }

  lemma {:induction false} PieceOfLiteral(raw: Text, k: nat) returns (p: Piece)
    requires k + 1 < |raw| && raw[k] == BACKSLASH && raw[k + 1] == LOWER_U && Unit(raw, k).Step?
    ensures LoosePiece(p) && At(raw, k, PieceText(p)) && k + |PieceText(p)| < |raw|
  {
    var d := EscapeFound(raw, k);
    if !HexDigits(d) {
      p := Broken(d);
    } else if 0xD800 <= Hex4(d, 0) <= 0xDBFF {
      var l := EscapeFound(raw, k + 6);
      p := Surrogates(d, l);
      AtSplit(raw, k, ESCAPE_U + d, ESCAPE_U + l);
      hide Hex4, At;
    } else {
      p := Code(d);
      hide Hex4, At;
    }
  }

  // ----- The second pass

  /** The pieces stand from `k` on up to the closing quote, or up to the end with the closing quote as part of the last. */
  predicate Filling(raw: Text, k: nat, ps: seq<Piece>) {
    && LoosePieces(ps) && At(raw, k, PiecesText(ps))
    && (k + |PiecesText(ps)| + 1 == |raw|
        || (ps != [] && ps[|ps| - 1] == Short(QUOTE) && k + |PiecesText(ps)| == |raw|))
  }

  lemma {:induction false} FillingStep(raw: Text, k: nat, ps: seq<Piece>)
    requires ps != []
    ensures Filling(raw, k, ps) <==>
            && LoosePiece(ps[0]) && At(raw, k, PieceText(ps[0]))
            && (Filling(raw, k + |PieceText(ps[0])|, ps[1..]) || (ps == [Short(QUOTE)] && k + 2 == |raw|))
  {
    hide LoosePiece, PieceText;
    AtSplit(raw, k, PieceText(ps[0]), PiecesText(ps[1..]));
    LooseStep(ps);
    hide At;
    if |ps| > 1 {
      assert ps[1..][|ps| - 2] == ps[|ps| - 1];
    } else {
      assert ps == [ps[0]] && PiecesText(ps[1..]) == [];
      ShortQuoteText();
    }
  }

  lemma {:induction false} ShortQuoteText()
    ensures |PieceText(Short(QUOTE))| == 2
  {
  }

  lemma {:induction false} LooseStep(ps: seq<Piece>)
    requires ps != []
    ensures LoosePieces(ps) <==> LoosePiece(ps[0]) && LoosePieces(ps[1..])
  {
    hide LoosePiece;
    if LoosePiece(ps[0]) && LoosePieces(ps[1..]) {
      forall i | 0 <= i < |ps| ensures LoosePiece(ps[i]) {
        assert i > 0 ==> ps[i] == ps[1..][i - 1];
      }
    }
    if LoosePieces(ps) {
      forall i | 0 <= i < |ps[1..]| ensures LoosePiece(ps[1..][i]) {
        assert ps[1..][i] == ps[i + 1];
      }
    }
  }

  lemma {:induction false} DecodeOfPieces(raw: Text, k: nat, ps: seq<Piece>)
    requires Filling(raw, k, ps)
    ensures Decode(raw, k) == Parsed(PiecesMeaning(ps), k + |PiecesText(ps)|)
    decreases |ps|
  {
    hide At, PieceText, Unit, Meaning, LoosePiece;
    if ps != [] {
      FillingStep(raw, k, ps);
      PieceTextLength(ps[0]);
      if ps[1..] != [] && ps[1..][|ps| - 2] == Short(QUOTE) {
        LastQuote(ps[1..]);
      }
      UnitOfPiece(raw, k, ps[0]);
      if Filling(raw, k + |PieceText(ps[0])|, ps[1..]) {
        DecodeOfPieces(raw, k + |PieceText(ps[0])|, ps[1..]);
      } else {
        assert ps[1..] == [];
        ShortQuoteText();
      }
    }
  }

  lemma {:induction false} PiecesOfDecode(raw: Text, k: nat) returns (ps: seq<Piece>)
    requires k < |raw| && raw[|raw| - 1] == QUOTE && Decode(raw, k).Parsed?
    ensures Filling(raw, k, ps)
    decreases |raw| - k
  {
    hide At, PieceText, PiecesText, Unit, Meaning, LoosePiece, LoosePieces, Filling;
    if k + 1 == |raw| {
      ps := [];
      EmptyFills(raw, k);
    } else {
      var p := PieceOfUnit(raw, k);
      var next := k + |PieceText(p)|;
      if next < |raw| {
        var rest := PiecesOfDecode(raw, next);
        ps := [p] + rest;
        assert ps[1..] == rest;
      } else {
        ps := [p];
      }
      FillingStep(raw, k, ps);
    }
  }

  lemma {:induction false} EmptyFills(raw: Text, k: nat)
    requires k + 1 == |raw|
    ensures Filling(raw, k, [])
  {
    assert raw[k..k] == [];
  }

  // ----- Whole tokens

  lemma {:induction false} SpellsFills(t: Text, ps: seq<Piece>)
    ensures Spells(ps, t) <==> Filling(t + [QUOTE], 0, ps)
  {
    var u := PiecesText(ps);
    var s := t + [QUOTE];
    hide PiecesText;
    if At(s, 0, u) {
      assert s[..|u|] == u;
      assert |u| == |t| ==> u == t;
    }
    assert u == t || u == s ==> s[0..|u|] == u;
  }

  lemma {:induction false} QuotedParts(raw: Text, t: Text)
    ensures raw == Quoted(t) ==> |raw| == |t| + 2 && raw[0] == QUOTE && raw[|raw| - 1] == QUOTE && raw[1..|raw| - 1] == t && raw[1..] == t + [QUOTE]
    ensures 2 <= |raw| && raw[0] == QUOTE && raw[|raw| - 1] == QUOTE && raw[1..|raw| - 1] == t ==> raw == Quoted(t)
  {
  }

  lemma {:induction false} TokenIsRead(raw: Text, t: Text, ps: seq<Piece>)
    requires Token(raw, t, ps)
    ensures raw != [] && ParseString(raw, 0) == Parsed(CString(PiecesMeaning(ps)), |raw|)
  {
    QuotedParts(raw, t);
    ScanCloses(raw, 1, |raw| - 1);
    SpellsFills(t, ps);
    DecodeOfPieces(raw[1..], 0, ps);
    assert raw[1..|raw|] == raw[1..];
    hide Scan, Decode, PiecesText, PiecesMeaning, CString;
  }

  lemma {:induction false} TokenFound(raw: Text) returns (t: Text, ps: seq<Piece>)
    requires raw != [] && ParseString(raw, 0).Parsed? && ParseString(raw, 0).next == |raw|
    ensures Token(raw, t, ps)
  {
    t := raw[1..|raw| - 1];
    QuotedParts(raw, t);
    ScanCloses(raw, 1, |raw| - 1);
    assert raw[1..|raw|] == raw[1..];
    hide Scan, PiecesText, CString;
    ps := PiecesOfDecode(raw[1..], 0);
    SpellsFills(t, ps);
  }

  /** What parse_string reads up to the end are exactly the string tokens, and each as what its pieces mean. */
  lemma {:induction false} TokensAreRead(raw: Text)
    ensures StringToken(raw) <==> raw != [] && ParseString(raw, 0).Parsed? && ParseString(raw, 0).next == |raw|
    ensures StringToken(raw) ==> ParseString(raw, 0).value == StringValue(raw)
  {
    hide ParseString, Closed, PiecesText, Quoted;
    if raw != [] && ParseString(raw, 0).Parsed? && ParseString(raw, 0).next == |raw| {
      var t, ps := TokenFound(raw);
      assert Token(raw, t, ps);
    }
    if StringToken(raw) {
      var t, ps :| Token(raw, t, ps) && StringValue(raw) == CString(PiecesMeaning(ps));
      TokenIsRead(raw, t, ps);
    }
  }

  // ----- Tokens without broken escapes

  predicate Unbroken(ps: seq<Piece>) {
    forall i :: 0 <= i < |ps| ==> !ps[i].Broken?
  }

  lemma {:induction false} PlainRunIsClosed(d: Text, rest: Text)
    requires forall i :: 0 <= i < |d| ==> d[i] != QUOTE && d[i] != BACKSLASH
    ensures Closed(d + rest) <==> Closed(rest)
  {
    if d == [] {
      assert d + rest == rest;
    } else {
      assert (d + rest)[1..] == d[1..] + rest;
      PlainRunIsClosed(d[1..], rest);
    }
  }

  lemma {:induction false} EscapeIsClosed(d: Text, rest: Text)
    requires HexDigits(d)
    ensures Closed((ESCAPE_U + d) + rest) <==> Closed(rest)
  {
    HexBytes(d, 4);
    PlainRunIsClosed(d, rest);
    assert ((ESCAPE_U + d) + rest)[2..] == d + rest;
    hide HexDigits;
  }

  lemma {:induction false} PieceIsClosed(p: Piece, rest: Text)
    requires LoosePiece(p) && !p.Broken?
    ensures Closed(PieceText(p) + rest) <==> ValidPiece(p) && Closed(rest)
  {
    match p
    case Plain(b) => assert ([b] + rest)[1..] == rest;
    case Short(letter) => assert ([BACKSLASH, letter] + rest)[2..] == rest;
    case Code(d) =>
      hide Closed, HexDigits, Hex4;
      EscapeIsClosed(d, rest);
    case Surrogates(h, l) =>
      hide Closed, HexDigits, Hex4;
      EscapeIsClosed(l, rest);
      EscapeIsClosed(h, (ESCAPE_U + l) + rest);
      TwoEscapes(h, l, rest);
  }

  lemma {:induction false} TwoEscapes(h: Text, l: Text, rest: Text)
    ensures ((ESCAPE_U + h) + (ESCAPE_U + l)) + rest == (ESCAPE_U + h) + ((ESCAPE_U + l) + rest)
  {
  }

  lemma {:induction false} ValidIsClosed(ps: seq<Piece>)
    requires ValidPieces(ps)
    ensures Closed(PiecesText(ps))
  {
    if ps != [] {
      assert ValidPiece(ps[0]);
      ValidIsClosed(ps[1..]);
      PieceIsClosed(ps[0], PiecesText(ps[1..]));
    }
  }

  /** In step with the first pass, no quote is taken for a plain byte and the closing quote is left alone. */
  lemma {:induction false} UnbrokenIsValid(ps: seq<Piece>, t: Text)
    requires Closed(t) && Spells(ps, t) && Unbroken(ps)
    ensures ValidPieces(ps) && PiecesText(ps) == t
    decreases |ps|
  {
    if ps != [] {
      var p, u := ps[0], PiecesText(ps[1..]);
      LooseStep(ps);
      assert Unbroken(ps[1..]);
      if PiecesText(ps) == t {
        PieceIsClosed(p, u);
        UnbrokenIsValid(ps[1..], u);
      } else {
        OverlapIsOpen(ps, t);
      }
    }
  }

  lemma {:induction false} OverlapIsOpen(ps: seq<Piece>, t: Text)
    requires ps != [] && LoosePieces(ps) && Unbroken(ps) && ps[|ps| - 1] == Short(QUOTE) && PiecesText(ps) == t + [QUOTE]
    ensures !Closed(t)
    decreases |ps|
  {
    var p, u := ps[0], PiecesText(ps[1..]);
    if |ps| == 1 {
      assert ps[1..] == [];
      assert t + [QUOTE] == [BACKSLASH, QUOTE];
      assert t[0] == (t + [QUOTE])[0] && |t| == 1;
    } else {
      LooseStep(ps);
      LastQuote(ps[1..]);
      var v := u[..|u| - 1];
      assert PieceText(p) + u == (PieceText(p) + v) + [QUOTE];
      SameButLast(t, PieceText(p) + v, QUOTE);
      OverlapIsOpen(ps[1..], v);
      PieceIsClosed(p, v);
    }
  }

  lemma {:induction false} SameButLast(s: Text, t: Text, x: byte)
    requires s + [x] == t + [x]
    ensures s == t
  {
    assert s == (s + [x])[..|s|];
    assert t == (t + [x])[..|t|];
  }

  lemma {:induction false} LastQuote(ps: seq<Piece>)
    requires ps != [] && ps[|ps| - 1] == Short(QUOTE)
    ensures var u := PiecesText(ps); 2 <= |u| && u[|u| - 1] == QUOTE && u == u[..|u| - 1] + [QUOTE]
  {
    if |ps| == 1 {
      assert ps[1..] == [];
    } else {
      LastQuote(ps[1..]);
    }
  }

  /**
   * The tokens in which every \u has its four digits are exactly the sequences of valid pieces between quotes, each read as
   * the concatenation of what its pieces mean.
   */
  lemma {:induction false} UnbrokenTokens(raw: Text)
    ensures (exists t, ps :: Token(raw, t, ps) && Unbroken(ps)) <==> exists ps :: ValidPieces(ps) && raw == Quoted(PiecesText(ps))
  {
    hide Closed, Spells, PiecesText, Quoted;
    if t, ps :| Token(raw, t, ps) && Unbroken(ps) {
      UnbrokenIsValid(ps, t);
    }
    if ps :| ValidPieces(ps) && raw == Quoted(PiecesText(ps)) {
      TokenOfPieces(ps);
      assert Unbroken(ps);
    }
  }

  /** Every sequence of valid pieces between quotes is a token, read as the concatenation of what the pieces mean. */
  lemma {:induction false} TokenOfPieces(ps: seq<Piece>)
    requires ValidPieces(ps)
    ensures LoosePieces(ps)
    ensures var raw := Quoted(PiecesText(ps));
            && Token(raw, PiecesText(ps), ps) && StringToken(raw)
            && ParseString(raw, 0) == Parsed(CString(PiecesMeaning(ps)), |raw|)
  {
    ValidIsLoose(ps);
    ValidIsClosed(ps);
    var raw := Quoted(PiecesText(ps));
    assert Token(raw, PiecesText(ps), ps);
    TokenIsRead(raw, PiecesText(ps), ps);
  }

  // ----- The strings of RFC 8259, section 7

  /** Unescaped bytes are no control characters; any four digits may follow `\u`. */
  predicate RfcPieces(ps: seq<Piece>) {
    forall i :: 0 <= i < |ps| ==>
      match ps[i]
      case Plain(b) => SPACE <= b && b != QUOTE && b != BACKSLASH
      case Short(letter) => ShortEscape(letter).Some?
      case Code(d) => HexDigits(d)
      case _ => false
  }

  predicate HighCode(p: Piece) {
    p.Code? && HexDigits(p.digits) && 0xD800 <= Hex4(p.digits, 0) <= 0xDBFF
  }

  predicate LowCode(p: Piece) {
    p.Code? && HexDigits(p.digits) && 0xDC00 <= Hex4(p.digits, 0) <= 0xDFFF
  }

  /** Every high surrogate has a low one behind it, and every low one a high one in front. */
  predicate Paired(ps: seq<Piece>)
    decreases |ps|
  {
    || ps == []
    || (HighCode(ps[0]) && 1 < |ps| && LowCode(ps[1]) && Paired(ps[2..]))
    || (!HighCode(ps[0]) && !LowCode(ps[0]) && Paired(ps[1..]))
  }

  /** With each pair as one piece. */
  function Grouped(ps: seq<Piece>): seq<Piece>
    requires Paired(ps)
    decreases |ps|
  {
    if ps == [] then []
    else if HighCode(ps[0]) then [Surrogates(ps[0].digits, ps[1].digits)] + Grouped(ps[2..])
    else [ps[0]] + Grouped(ps[1..])
  }

  lemma {:induction false} RfcTail(ps: seq<Piece>, k: nat)
    requires RfcPieces(ps) && k <= |ps|
    ensures RfcPieces(ps[k..])
  {
    forall i | 0 <= i < |ps[k..]| ensures ps[k..][i] == ps[k + i] {
    }
  }

  lemma {:induction false} GroupedIsValid(ps: seq<Piece>)
    requires RfcPieces(ps) && Paired(ps)
    ensures ValidPieces(Grouped(ps)) && PiecesText(Grouped(ps)) == PiecesText(ps)
    decreases |ps|
  {
    if ps != [] {
      var n := if HighCode(ps[0]) then 2 else 1;
      RfcTail(ps, n);
      GroupedIsValid(ps[n..]);
      var rest := Grouped(ps[n..]);
      hide Hex4, HexDigits;
      var g := Grouped(ps)[0];
      assert Grouped(ps) == [g] + rest && Grouped(ps)[1..] == rest;
      assert ValidPiece(g) by {
        assert ps[0] == ps[0];
      }
      if n == 2 {
        assert ps[1..][1..] == ps[2..];
        TwoCodesText(ps[0], ps[1], PiecesText(ps[2..]));
      }
    }
  }

  lemma {:induction false} TwoCodesText(p: Piece, q: Piece, rest: Text)
    requires p.Code? && q.Code?
    ensures PieceText(Surrogates(p.digits, q.digits)) + rest == PieceText(p) + (PieceText(q) + rest)
  {
  }

  lemma {:induction false} RfcPieceIsLoose(ps: seq<Piece>, i: nat)
    requires RfcPieces(ps) && i < |ps| && !HighCode(ps[i]) && !LowCode(ps[i])
    ensures LoosePiece(ps[i])
  {
    hide Hex4;
  }

  /** A high surrogate without its other half. */
  lemma {:induction false} HighAloneFails(raw: Text, k: nat, ps: seq<Piece>)
    requires RfcPieces(ps) && ps != [] && HighCode(ps[0]) && !(1 < |ps| && LowCode(ps[1]))
    requires At(raw, k, PieceText(ps[0])) && At(raw, k + 6, PiecesText(ps[1..])) && k + 6 + |PiecesText(ps[1..])| + 1 == |raw|
    ensures k + 1 < |raw| && Unit(raw, k) == Stuck
  {
    EscapeAt(raw, k, ps[0].digits);
    if |ps| > 1 {
      var q := ps[1];
      assert ps[1..][0] == q;
      AtSplit(raw, k + 6, PieceText(q), PiecesText(ps[1..][1..]));
      if q.Code? {
        EscapeAt(raw, k + 6, q.digits);
      } else {
        AtByte(raw, k + 6, PieceText(q), 0);
        if q.Short? {
          AtByte(raw, k + 6, PieceText(q), 1);
        }
      }
    }
    hide At, Hex4, HexDigits;
  }

  lemma {:induction false} PairIsRead(raw: Text, k: nat, ps: seq<Piece>)
    requires RfcPieces(ps) && 1 < |ps| && HighCode(ps[0]) && LowCode(ps[1])
    requires At(raw, k, PiecesText(ps)) && k + |PiecesText(ps)| + 1 == |raw|
    ensures At(raw, k + 12, PiecesText(ps[2..])) && k + 12 + |PiecesText(ps[2..])| + 1 == |raw|
    ensures Unit(raw, k).Step? && Unit(raw, k).width == 12
  {
    var h, l := ps[0].digits, ps[1].digits;
    assert ps[1..][0] == ps[1] && ps[1..][1..] == ps[2..];
    TwoCodesText(ps[0], ps[1], PiecesText(ps[2..]));
    AtSplit(raw, k, PieceText(Surrogates(h, l)), PiecesText(ps[2..]));
    hide At, Hex4, Unit;
    UnitOfSurrogates(raw, k, h, l);
  }

  /** The second pass stops at a surrogate without its other half. */
  lemma {:induction false} UnpairedFails(raw: Text, k: nat, ps: seq<Piece>)
    requires RfcPieces(ps) && !Paired(ps) && At(raw, k, PiecesText(ps)) && k + |PiecesText(ps)| + 1 == |raw|
    ensures Decode(raw, k).Failed?
    decreases |ps|
  {
    var p := ps[0];
    RfcTail(ps, 1);
    AtSplit(raw, k, PieceText(p), PiecesText(ps[1..]));
    if HighCode(p) {
      if 1 < |ps| && LowCode(ps[1]) {
        hide At, Hex4, HexDigits, Unit, PieceText, HighCode, LowCode;
        RfcTail(ps, 2);
        PairIsRead(raw, k, ps);
        UnpairedFails(raw, k + 12, ps[2..]);
      } else {
        HighAloneFails(raw, k, ps);
      }
    } else if LowCode(p) {
      EscapeAt(raw, k, p.digits);
    } else {
      RfcPieceIsLoose(ps, 0);
      hide At, Hex4, HexDigits, PieceText, Unit;
      PieceTextLength(p);
      UnitOfPiece(raw, k, p);
      UnpairedFails(raw, k + |PieceText(p)|, ps[1..]);
    }
  }

  /** A string of RFC 8259 is a token exactly when its surrogates come in pairs. */
  lemma {:induction false} RfcStrings(ps: seq<Piece>)
    requires RfcPieces(ps)
    ensures StringToken(Quoted(PiecesText(ps))) <==> Paired(ps)
  {
    var raw := Quoted(PiecesText(ps));
    if Paired(ps) {
      GroupedIsValid(ps);
      TokenOfPieces(Grouped(ps));
    } else {
      QuotedParts(raw, PiecesText(ps));
      assert At(raw[1..], 0, PiecesText(ps));
      UnpairedFails(raw[1..], 0, ps);
      TokensAreRead(raw);
      assert raw[1..|raw|] == raw[1..];
      hide Decode, PiecesText, Quoted, StringToken;
    }
  }

  predicate NoControls(ps: seq<Piece>) {
    forall i :: 0 <= i < |ps| && ps[i].Plain? ==> SPACE <= ps[i].b
  }

  /** With each pair as two pieces. */
  function Ungrouped(ps: seq<Piece>): (rs: seq<Piece>)
    requires ValidPieces(ps) && NoControls(ps)
    ensures RfcPieces(rs)
  {
    if ps == [] then []
    else
      assert ValidPiece(ps[0]);
      var rest := Ungrouped(ps[1..]);
      var p := ps[0];
      if p.Surrogates? then [Code(p.high), Code(p.low)] + rest else [p] + rest
  }

  lemma {:induction false} UngroupedText(ps: seq<Piece>)
    requires ValidPieces(ps) && NoControls(ps)
    ensures PiecesText(Ungrouped(ps)) == PiecesText(ps)
  {
    if ps != [] {
      UngroupedText(ps[1..]);
      var rest := Ungrouped(ps[1..]);
      hide ValidPiece, NoControls, RfcPieces;
      var p := ps[0];
      if p.Surrogates? {
        assert ([Code(p.high), Code(p.low)] + rest)[1..] == [Code(p.low)] + rest && ([Code(p.low)] + rest)[1..] == rest;
        TwoCodesText(Code(p.high), Code(p.low), PiecesText(rest));
      } else {
        assert ([p] + rest)[1..] == rest;
      }
    }
  }

  lemma {:induction false} GroupedHasNoControls(ps: seq<Piece>)
    requires RfcPieces(ps) && Paired(ps)
    ensures NoControls(Grouped(ps))
    decreases |ps|
  {
    if ps != [] {
      var n := if HighCode(ps[0]) then 2 else 1;
      RfcTail(ps, n);
      GroupedHasNoControls(ps[n..]);
      assert ps[0] == ps[0];
    }
  }

  /** And a token is a string of RFC 8259 exactly when no `\u` in it is broken and no control character stands in it unescaped. */
  lemma {:induction false} RfcTokens(raw: Text)
    ensures StringToken(raw) && (exists rs :: RfcPieces(rs) && raw == Quoted(PiecesText(rs))) <==>
            exists ps :: ValidPieces(ps) && NoControls(ps) && raw == Quoted(PiecesText(ps))
  {
    hide StringToken, PiecesText, Quoted;
    if StringToken(raw) {
      if rs :| RfcPieces(rs) && raw == Quoted(PiecesText(rs)) {
        RfcStrings(rs);
        GroupedIsValid(rs);
        GroupedHasNoControls(rs);
      }
    }
    if ps :| ValidPieces(ps) && NoControls(ps) && raw == Quoted(PiecesText(ps)) {
      TokenOfPieces(ps);
      UngroupedText(ps);
    }
  }

  // ----- Two tokens that RFC 8259 does not know

  lemma {:induction false} QuotedIsInjective(s: Text, t: Text)
    requires Quoted(s) == Quoted(t)
    ensures s == t
  {
    QuotedParts(Quoted(s), s);
    QuotedParts(Quoted(s), t);
  }

  lemma {:induction false} RfcStart(ps: seq<Piece>)
    requires RfcPieces(ps) && PiecesText(ps) != []
    ensures var t := PiecesText(ps);
            && SPACE <= t[0]
            && (t[0] == BACKSLASH && 6 <= |t| && t[1] == LOWER_U ==> HexDigits(t[2..6]))
  {
    var p := ps[0];
    if p.Code? {
      assert PiecesText(ps)[2..6] == p.digits;
    }
    hide HexDigits;
  }

  /** "\uZZZZ" is read as a string that is empty to C. */
  lemma {:induction false} BrokenEscapeIsRead()
    ensures var raw: Text := Quoted([BACKSLASH, LOWER_U, 0x5A, 0x5A, 0x5A, 0x5A]);
            && StringToken(raw) && ParseString(raw, 0) == Parsed([], |raw|)
            && forall ps :: RfcPieces(ps) ==> raw != Quoted(PiecesText(ps))
  {
    var d: Text := [0x5A, 0x5A, 0x5A, 0x5A];
    var t := ESCAPE_U + d;
    var ps := [Broken(d)];
    assert t == [BACKSLASH, LOWER_U, 0x5A, 0x5A, 0x5A, 0x5A];
    assert HexPrefix(d, 0, 1) == None;
    assert HexPrefix(d, 0, 2) == None;
    assert HexPrefix(d, 0, 3) == None;
    assert !HexDigits(d);
    assert ps[1..] == [];
    assert PiecesText(ps) == t && PiecesMeaning(ps) == [NUL];
    assert t[2..][1..][1..] == [0x5A, 0x5A] && [0x5A, 0x5A][1..] == [0x5A];
    assert Closed(t[2..]);
    assert Token(Quoted(t), t, ps);
    TokenIsRead(Quoted(t), t, ps);
    assert t[2..6] == d;
    forall rs | RfcPieces(rs) ensures Quoted(t) != Quoted(PiecesText(rs)) {
      if Quoted(t) == Quoted(PiecesText(rs)) {
        QuotedIsInjective(t, PiecesText(rs));
        RfcStart(rs);
      }
    }
  }

  /** A line feed between quotes is read as a line feed. */
  lemma {:induction false} ControlCharacterIsRead()
    ensures var raw: Text := Quoted([LF]);
            && StringToken(raw) && ParseString(raw, 0) == Parsed([LF], |raw|)
            && forall ps :: RfcPieces(ps) ==> raw != Quoted(PiecesText(ps))
  {
    var ps := [Plain(LF)];
    assert ps[1..] == [];
    TokenOfPieces(ps);
    CStringOfNulFree([LF]);
    forall rs | RfcPieces(rs) ensures Quoted([LF]) != Quoted(PiecesText(rs)) {
      if Quoted([LF]) == Quoted(PiecesText(rs)) {
        QuotedIsInjective([LF], PiecesText(rs));
        RfcStart(rs);
      }
    }
  }
}
