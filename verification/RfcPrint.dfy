/** What cJSON_Print writes is a JSON text of RFC 8259, as long as its strings are UTF-8 and the library writes numbers of the RFC. */
module RfcPrint {
  import opened Ascii
  import opened Values
  import opened Tokens
  import opened Escapes
  import opened Glyphs
  import opened Render
  import opened Rfc8259
  import RoundTrip
  import RfcMinify

  // ----- Strings

  ghost predicate IsUtf8(t: Text) {
    exists cs :: t == OctetsOf(cs)
  }

  /** How the printer spells a character. */
  function Spelling(c: Scalar): (g: Glyph)
    ensures ValidGlyph(g) && g.c == c
  {
    if c in SHORT_ESCAPES then Letter(c)
    else if c < 0x20 then Digits(c, ALL_LOWER, ALL_LOWER)
    else Raw(c)
  }

  lemma {:induction false} SpellingIsEscaped(c: Scalar)
    ensures GlyphText(Spelling(c)) == Escaped(Octets(c))
  {
    hide SHORT_ESCAPES, Escaped;
    if c in SHORT_ESCAPES {
      ShortIsSlashless();
      ShortEscapesAre(c);
    } else if c < 0x20 {
      EscapedOne(c);
      ControlIsCode(c);
    } else {
      OctetsAreUntroubled(c);
      UntroubledIsUnescaped(Octets(c));
    }
  }

  lemma {:induction false} ShortIsSlashless()
    ensures 0x2F !in SHORT_ESCAPES && forall c: nat :: c in SHORT_ESCAPES ==> c < 0x80
  {
  }

  lemma {:induction false} OctetsAreUntroubled(c: Scalar)
    requires c !in SHORT_ESCAPES && c >= 0x20
    ensures Untroubled(Octets(c))
  {
    assert c != 0x22 && c != 0x5C;
    hide SHORT_ESCAPES;
  }

  function WordOf(cs: seq<Scalar>): (w: Word) {
    seq(|cs|, i requires 0 <= i < |cs| => Spelling(cs[i]))
  }

  lemma {:induction false} WordIsPrinted(cs: seq<Scalar>)
    ensures WordText(WordOf(cs)) == Quoted(Escaped(OctetsOf(cs))) && ScalarsOf(WordOf(cs)) == cs
  {
    GlyphsArePrinted(cs);
  }

  lemma {:induction false} GlyphsArePrinted(cs: seq<Scalar>)
    ensures GlyphsText(WordOf(cs)) == Escaped(OctetsOf(cs))
  {
    hide GlyphText, Spelling, Octets;
    if cs != [] {
      assert WordOf(cs)[1..] == WordOf(cs[1..]);
      SpellingIsEscaped(cs[0]);
      GlyphsArePrinted(cs[1..]);
      EscapedAppend(Octets(cs[0]), OctetsOf(cs[1..]));
      hide Escaped;
    }
  }

  lemma {:induction false} StringIsPrinted(s: Text) returns (w: Word)
    requires IsUtf8(s)
    ensures WordText(w) == Quoted(Escaped(s)) && OctetsOf(ScalarsOf(w)) == s
  {
    var cs :| s == OctetsOf(cs);
    WordIsPrinted(cs);
    w := WordOf(cs);
  }

  // ----- Numbers

  lemma {:induction false} DigitsAreNumeral(n: nat)
    ensures AllDigits(Render.Digits(n)) && (Render.Digits(n)[0] == 0x30 ==> n == 0 && |Render.Digits(n)| == 1)
  {
    if n >= 10 {
      DigitsAreNumeral(n / 10);
    }
  }

  /** What "%d" writes is a number of the RFC. */
  lemma {:induction false} IntIsNumeral(n: int) returns (p: Numeral)
    ensures NumeralText(p) == IntText(n)
  {
    DigitsAreNumeral(if n < 0 then -n else n);
    p := Parts(n < 0, Render.Digits(if n < 0 then -n else n), [], None);
  }

  ghost predicate IsNumeralText(t: Text) {
    exists p: Numeral :: t == NumeralText(p)
  }

  /** sprintf writes numbers of the RFC. */
  ghost predicate WritesNumerals(n: Numerals) {
    forall d: real :: IsNumeralText(n.digits15(d)) && IsNumeralText(n.digits17(d))
  }

  lemma {:induction false} NumberIsPrinted(d: real, n: Numerals) returns (p: Numeral)
    requires WritesNumerals(n)
    ensures NumeralText(p) == NumeralOf(d, n)
  {
    hide AreNumeral, NumeralText;
    if IsInt32(d) {
      p := IntIsNumeral(d.Floor);
    } else {
      assert IsNumeralText(n.digits15(d)) && IsNumeralText(n.digits17(d));
      p :| NumeralOf(d, n) == NumeralText(p);
    }
  }

  // ----- Texts

  /** Strings and keys are UTF-8. */
  ghost predicate InUtf8(v: Value)
    decreases v
  {
    match v
    case Str(s) => IsUtf8(s)
    case Arr(items) => forall i :: 0 <= i < |items| ==> InUtf8(items[i])
    case Obj(members) => forall i :: 0 <= i < |members| ==> IsUtf8(members[i].key) && InUtf8(members[i].value)
    case _ => true
  }

  /** The blanks of a text, byte by byte. */
  lemma {:induction false} WhiteGap(t: Text) returns (g: Gap)
    requires forall i :: 0 <= i < |t| ==> t[i] == 0x20 || t[i] == 0x09 || t[i] == 0x0A
    ensures GapText(g) == t && NoComment(g) && (t == [] ==> g == [])
  {
    if t == [] {
      g := [];
    } else {
      var rest := WhiteGap(t[1..]);
      g := [White(t[0])] + rest;
      assert g[1..] == rest;
    }
  }

  lemma {:induction false} TextFor(v: Value, fmt: Format, depth: nat) returns (j: Json)
    requires InUtf8(v) && WritesNumerals(fmt.numerals)
    ensures Laid(j) == RoundTrip.LayoutFor(v, fmt, depth) && Modest(j) && (!fmt.lines ==> RfcMinify.Bare(j) == j)
    decreases v, 0
  {
    hide WritesNumerals, NumeralText, WordText, Quoted, Escaped, GapText, NumeralOf;
    match v
    case Null => j := JNull;
    case Bool(b) => j := JBool(b);
    case Number(d) =>
      var p := NumberIsPrinted(d, fmt.numerals);
      j := JNumber(p);
    case Str(s) =>
      var w := StringIsPrinted(s);
      j := JString(w);
    case Arr(items) =>
      if items == [] {
        var g := WhiteGap([]);
        j := JEmptyArray(g);
      } else {
        var slots := SlotsFor(items, [], fmt, depth + 1);
        j := JArray(slots);
      }
    case Obj(members) =>
      if members == [] {
        var g := WhiteGap(RoundTrip.Line(fmt.lines, depth));
        j := JEmptyObject(g);
      } else {
        var entries := EntriesFor(members, fmt, depth);
        j := JObject(entries);
      }
  }

  lemma {:induction false} SlotsFor(items: seq<Value>, before: Text, fmt: Format, depth: nat) returns (ss: Slots)
    requires items != [] && WritesNumerals(fmt.numerals) && forall i :: 0 <= i < |items| ==> InUtf8(items[i])
    requires before == [] || (before == [0x20] && fmt.lines)
    ensures LaidSlots(ss) == RoundTrip.ElementsFor(items, before, fmt, depth) && ModestSlots(ss)
    ensures !fmt.lines ==> RfcMinify.BareSlots(ss) == ss
    decreases items
  {
    hide WritesNumerals, GapText;
    var g := WhiteGap(before);
    var none := WhiteGap([]);
    var j := TextFor(items[0], fmt, depth);
    var s := Slot(g, j, none);
    if |items| == 1 {
      ss := LastSlot(s);
    } else {
      var rest := SlotsFor(items[1..], if fmt.lines then [SPACE] else [], fmt, depth);
      ss := MoreSlots(s, rest);
    }
  }

  lemma {:induction false} EntriesFor(members: seq<Member>, fmt: Format, depth: nat) returns (es: Entries)
    requires members != [] && WritesNumerals(fmt.numerals)
    requires forall i :: 0 <= i < |members| ==> IsUtf8(members[i].key) && InUtf8(members[i].value)
    ensures LaidEntries(es) == RoundTrip.PairsFor(members, fmt, depth) && ModestEntries(es)
    ensures !fmt.lines ==> RfcMinify.BareEntries(es) == es
    decreases members
  {
    hide WritesNumerals, GapText, WordText, Quoted, Escaped;
    var before := WhiteGap(RoundTrip.Line(fmt.lines, depth + 1));
    var none := WhiteGap([]);
    var tab := WhiteGap(if fmt.lines then [TAB] else []);
    var after := WhiteGap(if |members| == 1 then RoundTrip.Line(fmt.lines, depth) else []);
    var w := StringIsPrinted(members[0].key);
    var j := TextFor(members[0].value, fmt, depth + 1);
    var e := Entry(before, w, none, tab, j, after);
    if |members| == 1 {
      es := LastEntry(e);
    } else {
      var rest := EntriesFor(members[1..], fmt, depth);
      es := MoreEntries(e, rest);
    }
  }

  /**
   * The text of a value, formatted or not, is a JSON text of the RFC without comments, and as deep as the value; unformatted, it
   * has nothing between its tokens.
   */
  lemma {:induction false} PrintedTextsAreRfc(v: Value, fmt: Format) returns (j: Json)
    requires InUtf8(v) && WritesNumerals(fmt.numerals)
    ensures JsonText(j) == RenderValue(v, fmt, 0) && Modest(j) && JsonDepth(j) == Nesting(v)
    ensures !fmt.lines ==> RfcMinify.Bare(j) == j
  {
    hide JsonText, RenderValue, JsonDepth, Nesting, InUtf8, WritesNumerals, Modest, RfcMinify.Bare;
    j := TextFor(v, fmt, 0);
    LaidText(j);
    RoundTrip.RenderIsLayout(v, fmt, 0);
  }
}
