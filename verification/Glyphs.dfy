/**
 * Unicode text between quotes, in every spelling that RFC 8259, section 7, has for a character: as it is, by the letter of a short
 * escape, or by the digits of one code or of two, in either letter case.
 */
module Glyphs {
  import opened Ascii
  import opened StringSpec
  import opened Tokens
  import opened Escapes

  /** A Unicode scalar value: any code point but a surrogate. */
  type Scalar = c: nat | c < 0x11_0000 && !(0xD800 <= c <= 0xDFFF)

  /** The table of RFC 3629, section 3. */
  function Octets(c: Scalar): (t: Text)
    ensures 0 < |t| && (t[0] == 0 <==> c == 0)
    ensures c >= 0x80 ==> forall i :: 0 <= i < |t| ==> t[i] >= 0x80
  {
    if c < 0x80 then [c]
    else if c < 0x800 then [0xC0 + c / 64, 0x80 + c % 64]
    else if c < 0x1_0000 then [0xE0 + c / 4096, 0x80 + c / 64 % 64, 0x80 + c % 64]
    else [0xF0 + c / 262144, 0x80 + c / 4096 % 64, 0x80 + c / 64 % 64, 0x80 + c % 64]
  }

  lemma {:induction false} Utf8IsOctets(c: Scalar)
    ensures Utf8(c) == Octets(c)
  {
    var k := Utf8Length(c) - 1;
    var mark := Utf8Mark(c);
    if k >= 1 {
      assert Utf8Bytes(c, k, mark) == Utf8Bytes(c / 64, k - 1, mark) + [0x80 + c % 64];
    }
    if k >= 2 {
      assert Utf8Bytes(c / 64, k - 1, mark) == Utf8Bytes(c / 64 / 64, k - 2, mark) + [0x80 + c / 64 % 64];
      assert c / 64 / 64 == c / 4096;
    }
    if k >= 3 {
      assert Utf8Bytes(c / 4096, 1, mark) == Utf8Bytes(c / 4096 / 64, 0, mark) + [0x80 + c / 4096 % 64];
      assert c / 4096 / 64 == c / 262144;
    }
  }

  function OctetsOf(cs: seq<Scalar>): Text {
    if cs == [] then [] else Octets(cs[0]) + OctetsOf(cs[1..])
  }

  /** A decoder of UTF-8 by lead byte, for texts that are known to be well formed. */
  function Utf8Decode(t: Text): seq<nat> {
    if t == [] then []
    else if t[0] < 0x80 then [t[0]] + Utf8Decode(t[1..])
    else if t[0] < 0xE0 && |t| >= 2 && t[0] >= 0xC0 && t[1] >= 0x80 then
      [(t[0] - 0xC0) * 64 + (t[1] - 0x80)] + Utf8Decode(t[2..])
    else if 0xE0 <= t[0] < 0xF0 && |t| >= 3 && t[1] >= 0x80 && t[2] >= 0x80 then
      [(t[0] - 0xE0) * 4096 + (t[1] - 0x80) * 64 + (t[2] - 0x80)] + Utf8Decode(t[3..])
    else if 0xF0 <= t[0] && |t| >= 4 && t[1] >= 0x80 && t[2] >= 0x80 && t[3] >= 0x80 then
      [(t[0] - 0xF0) * 262144 + (t[1] - 0x80) * 4096 + (t[2] - 0x80) * 64 + (t[3] - 0x80)] + Utf8Decode(t[4..])
    else []
  }

  lemma {:induction false} DecodeHead(c: Scalar, rest: Text)
    ensures Utf8Decode(Octets(c) + rest) == [c] + Utf8Decode(rest)
  {
    SixBitGroups(c);
    var t := Octets(c) + rest;
    if c < 0x80 {
      assert t[1..] == rest;
    } else if c < 0x800 {
      assert t[2..] == rest;
    } else if c < 0x1_0000 {
      assert t[3..] == rest;
    } else {
      assert t[4..] == rest;
    }
  }

  lemma {:induction false} SixBitGroups(c: nat)
    ensures c == c / 64 * 64 + c % 64 && c / 64 == c / 4096 * 64 + c / 64 % 64 && c / 4096 == c / 262144 * 64 + c / 4096 % 64
    ensures c < 0x11_0000 ==> c / 262144 < 8
    ensures c < 0x1_0000 ==> c / 4096 < 16
  {
  }

  lemma {:induction false} ScalarsComeBack(cs: seq<Scalar>)
    ensures Utf8Decode(OctetsOf(cs)) == cs
    ensures 0 !in cs ==> NulFree(OctetsOf(cs))
  {
    if cs != [] {
      hide Octets, Utf8Decode;
      ScalarsComeBack(cs[1..]);
      DecodeHead(cs[0], OctetsOf(cs[1..]));
      NoNulInOctets(cs[0]);
    }
  }

  lemma {:induction false} NoNulInOctets(c: Scalar)
    ensures c != 0 ==> NulFree(Octets(c))
  {
  }

  // ----- Spellings

  /** A character as it stands in a text: itself, a letter, or digits; the second group of digits is for the low surrogate. */
  datatype Glyph = Raw(c: Scalar) | Letter(c: Scalar) | Digits(c: Scalar, high: Cases, low: Cases)

  predicate ValidGlyph(g: Glyph) {
    match g
    case Raw(c) => 0x20 <= c && c != 0x22 && c != 0x5C
    case Letter(c) => c == 0x2F || c in SHORT_ESCAPES
    case Digits(_, _, _) => true
  }

  function GlyphText(g: Glyph): Text
    requires ValidGlyph(g)
  {
    match g
    case Raw(c) => Octets(c)
    case Letter(c) => [0x5C, if c == 0x2F then 0x2F else SHORT_ESCAPES[c]]
    case Digits(c, high, low) =>
      if c < 0x1_0000 then [0x5C, 0x75] + Spelled(c, high)
      else ([0x5C, 0x75] + Spelled(0xD800 + (c - 0x1_0000) / 0x400, high)) + ([0x5C, 0x75] + Spelled(0xDC00 + (c - 0x1_0000) % 0x400, low))
  }

  predicate ValidGlyphs(gs: seq<Glyph>) {
    forall i :: 0 <= i < |gs| ==> ValidGlyph(gs[i])
  }

  function GlyphsText(gs: seq<Glyph>): Text
    requires ValidGlyphs(gs)
  {
    if gs == [] then [] else GlyphText(gs[0]) + GlyphsText(gs[1..])
  }

  function ScalarsOf(gs: seq<Glyph>): seq<Scalar> {
    seq(|gs|, i requires 0 <= i < |gs| => gs[i].c)
  }

  // ----- Glyphs as pieces

  function PlainPieces(t: Text): seq<Piece> {
    seq(|t|, i requires 0 <= i < |t| => Plain(t[i]))
  }

  lemma {:induction false} PlainPiecesMean(t: Text)
    requires forall i :: 0 <= i < |t| ==> t[i] != QUOTE && t[i] != BACKSLASH
    ensures ValidPieces(PlainPieces(t)) && LoosePieces(PlainPieces(t))
    ensures PiecesText(PlainPieces(t)) == t && PiecesMeaning(PlainPieces(t)) == t
  {
    if t != [] {
      assert PlainPieces(t)[1..] == PlainPieces(t[1..]);
      PlainPiecesMean(t[1..]);
      assert [t[0]] + t[1..] == t;
    }
  }

  lemma {:induction false} PiecesTogether(ps: seq<Piece>, qs: seq<Piece>)
    requires ValidPieces(ps) && ValidPieces(qs)
    ensures ValidPieces(ps + qs) && LoosePieces(ps) && LoosePieces(qs) && LoosePieces(ps + qs)
    ensures PiecesText(ps + qs) == PiecesText(ps) + PiecesText(qs)
    ensures PiecesMeaning(ps + qs) == PiecesMeaning(ps) + PiecesMeaning(qs)
  {
    ValidIsLoose(ps);
    ValidIsLoose(qs);
    hide ValidPiece, LoosePiece;
    if ps == [] {
      assert ps + qs == qs;
    } else {
      assert (ps + qs)[1..] == ps[1..] + qs;
      PiecesTogether(ps[1..], qs);
    }
  }

  function GlyphPieces(g: Glyph): seq<Piece>
    requires ValidGlyph(g)
  {
    match g
    case Raw(c) => PlainPieces(Octets(c))
    case Letter(c) => [Short(if c == 0x2F then 0x2F else SHORT_ESCAPES[c])]
    case Digits(c, high, low) =>
      if c < 0x1_0000 then [Code(Spelled(c, high))]
      else [Surrogates(Spelled(0xD800 + (c - 0x1_0000) / 0x400, high), Spelled(0xDC00 + (c - 0x1_0000) % 0x400, low))]
  }

  lemma {:induction false} OnePiece(p: Piece)
    requires ValidPiece(p)
    ensures ValidPieces([p]) && LoosePieces([p]) && PiecesText([p]) == PieceText(p) && PiecesMeaning([p]) == Meaning(p)
  {
    assert [p][1..] == [];
    hide ValidPiece, Meaning;
  }

  lemma {:induction false} GlyphMeans(g: Glyph)
    requires ValidGlyph(g)
    ensures var ps := GlyphPieces(g);
            ValidPieces(ps) && LoosePieces(ps) && PiecesText(ps) == GlyphText(g) && PiecesMeaning(ps) == Octets(g.c)
  {
    match g
    case Raw(c) => PlainPiecesMean(Octets(c));
    case Letter(c) => LetterMeans(c);
    case Digits(c, high, low) => DigitsMean(c, high, low);
  }

  lemma {:induction false} LetterMeans(c: Scalar)
    requires ValidGlyph(Letter(c))
    ensures var ps := GlyphPieces(Letter(c));
            ValidPieces(ps) && LoosePieces(ps) && PiecesText(ps) == GlyphText(Letter(c)) && PiecesMeaning(ps) == Octets(c)
  {
    OnePiece(GlyphPieces(Letter(c))[0]);
  }

  lemma {:induction false} DigitsMean(c: Scalar, high: Cases, low: Cases)
    ensures var g := Digits(c, high, low);
            var ps := GlyphPieces(g);
            ValidPieces(ps) && LoosePieces(ps) && PiecesText(ps) == GlyphText(g) && PiecesMeaning(ps) == Octets(c)
  {
    hide Spelled, HexDigits, Hex4, Utf8, Octets;
    Utf8IsOctets(c);
    if c < 0x1_0000 {
      SpelledIsRead(c, high);
      OnePiece(Code(Spelled(c, high)));
    } else {
      var h, l := 0xD800 + (c - 0x1_0000) / 0x400, 0xDC00 + (c - 0x1_0000) % 0x400;
      SpelledIsRead(h, high);
      SpelledIsRead(l, low);
      assert Supplementary(h, l) == c;
      OnePiece(Surrogates(Spelled(h, high), Spelled(l, low)));
    }
  }

  function PiecesOf(gs: seq<Glyph>): seq<Piece>
    requires ValidGlyphs(gs)
  {
    if gs == [] then [] else GlyphPieces(gs[0]) + PiecesOf(gs[1..])
  }

  lemma {:induction false} GlyphsMean(gs: seq<Glyph>)
    requires ValidGlyphs(gs)
    ensures var ps := PiecesOf(gs);
            ValidPieces(ps) && LoosePieces(ps) && PiecesText(ps) == GlyphsText(gs) && PiecesMeaning(ps) == OctetsOf(ScalarsOf(gs))
  {
    hide GlyphPieces, GlyphText, Octets, ValidPiece, LoosePiece;
    if gs != [] {
      GlyphMeans(gs[0]);
      GlyphsMean(gs[1..]);
      PiecesTogether(GlyphPieces(gs[0]), PiecesOf(gs[1..]));
      assert ScalarsOf(gs)[1..] == ScalarsOf(gs[1..]);
    }
  }

  /**
   * A Unicode text between quotes, in whatever spelling, is read as the C string of its UTF-8 encoding; all of it is decoded, and a
   * decoder of UTF-8 recovers the characters.
   */
  lemma {:induction false} UnicodeTextsAreRead(gs: seq<Glyph>)
    requires ValidGlyphs(gs)
    ensures var raw := [0x22] + (GlyphsText(gs) + [0x22]);
            && StringToken(raw) && StringValue(raw) == CString(OctetsOf(ScalarsOf(gs)))
            && ParseString(raw, 0) == Parsed(CString(OctetsOf(ScalarsOf(gs))), |raw|)
            && Decode(raw[1..], 0) == Parsed(OctetsOf(ScalarsOf(gs)), |raw| - 2)
    ensures Utf8Decode(OctetsOf(ScalarsOf(gs))) == ScalarsOf(gs)
    ensures 0 !in ScalarsOf(gs) ==> CString(OctetsOf(ScalarsOf(gs))) == OctetsOf(ScalarsOf(gs))
  {
    hide PiecesText, PiecesMeaning, ParseString, Decode, OctetsOf, Utf8Decode, StringToken, StringValue, Token, CString, PiecesOf, GlyphsText, ScalarsOf;
    GlyphsMean(gs);
    var ps, t := PiecesOf(gs), GlyphsText(gs);
    var raw := Quoted(t);
    TokenOfPieces(ps);
    TokensAreRead(raw);
    assert raw[1..] == t + [QUOTE];
    DecodeOfPieces(t + [QUOTE], 0, ps);
    ScalarsComeBack(ScalarsOf(gs));
    if 0 !in ScalarsOf(gs) {
      CStringOfNulFree(OctetsOf(ScalarsOf(gs)));
    }
  }
}
