/**
 * JSON texts as RFC 8259 writes them, byte by byte and without a word of the parser, with comments between the tokens as
 * cJSON_Minify knows them; and that the parser reads those without comments as the values that they stand for.
 */
module Rfc8259 {
  import opened Ascii
  import opened Values
  import opened StringSpec
  import opened Tokens
  import opened ParseSpec
  import opened Glyphs
  import Layouts
  import Grammar

  // ----- Numbers (section 6)

  datatype Exponent = Exponent(letter: byte, sign: Option<byte>, digits: Text)

  /** An empty fraction is none. */
  datatype Parts = Parts(minus: bool, whole: Text, fraction: Text, exponent: Option<Exponent>)

  predicate AllDigits(t: Text) {
    forall i :: 0 <= i < |t| ==> 0x30 <= t[i] <= 0x39
  }

  predicate AreNumeral(p: Parts) {
    && p.whole != [] && AllDigits(p.whole) && (p.whole[0] == 0x30 ==> |p.whole| == 1)
    && AllDigits(p.fraction)
    && (p.exponent.Some? ==> IsExponent(p.exponent.value))
  }

  predicate IsExponent(e: Exponent) {
    && (e.letter == 0x65 || e.letter == 0x45)
    && (e.sign == None || e.sign == Some(0x2B) || e.sign == Some(0x2D))
    && e.digits != [] && AllDigits(e.digits)
  }

  type Numeral = p: Parts | AreNumeral(p) witness Parts(false, [0x30], [], None)

  function ExponentText(e: Exponent): Text {
    [e.letter] + ((if e.sign.Some? then [e.sign.value] else []) + e.digits)
  }

  function NumeralText(p: Numeral): (t: Text)
    ensures t != []
  {
    (if p.minus then [0x2D] else []) + (p.whole + ((if p.fraction == [] then [] else [0x2E] + p.fraction)
      + (if p.exponent.Some? then ExponentText(p.exponent.value) else [])))
  }

  /** strtod converts every numeral that fits the buffer as a whole, as the C standard has it. */
  ghost predicate KnowsNumerals(strtod: Converter) {
    forall p: Numeral :: |NumeralText(p)| <= 63 ==> strtod(NumeralText(p)).consumed == |NumeralText(p)|
  }

  const NUMBER_BYTES: Text := [0x30, 0x31, 0x32, 0x33, 0x34, 0x35, 0x36, 0x37, 0x38, 0x39, 0x2B, 0x2D, 0x2E, 0x45, 0x65]

  /** The bytes handed to strtod are digits, signs, points and the letter e, and all of these up to the first other one or to 63. */
  lemma {:induction false} RunHoldsNumberBytes(s: Text, i: nat)
    requires i <= |s|
    ensures var n := RunLength(s, i, NUMBER_ROOM);
            && n <= 63 && i + n <= |s| && (forall k :: i <= k < i + n ==> s[k] in NUMBER_BYTES)
            && (n == 63 || i + n == |s| || s[i + n] !in NUMBER_BYTES)
  {
    hide RunLength;
    forall b ensures NumberChar(b) <==> b in NUMBER_BYTES {
      NumberBytesAre(b);
    }
  }

  lemma {:induction false} NumberBytesAre(b: byte)
    ensures NumberChar(b) <==> b in NUMBER_BYTES
  {
    if NumberChar(b) {
      assert b == 0x2B || b == 0x2D || b == 0x2E || b == 0x45 || b == 0x65 || b == NUMBER_BYTES[b - 0x30];
    }
  }

  lemma {:induction false} DigitsAreNumberChars(t: Text)
    requires AllDigits(t)
    ensures forall i :: 0 <= i < |t| ==> NumberChar(t[i])
  {
  }

  lemma {:induction false} NumeralHoldsNumberChars(p: Numeral)
    ensures var t := NumeralText(p);
            (t[0] == MINUS || IsDigit(t[0])) && forall i :: 0 <= i < |t| ==> NumberChar(t[i])
  {
    var sign: Text := if p.minus then [0x2D] else [];
    var point := if p.fraction == [] then [] else [0x2E] + p.fraction;
    var e := if p.exponent.Some? then ExponentText(p.exponent.value) else [];
    DigitsAreNumberChars(p.fraction);
    ExponentHoldsNumberChars(p.exponent);
    assert AllNumberChars(point) && AllNumberChars(e) && AllNumberChars(p.whole) && AllNumberChars(sign);
    TogetherAllNumberChars(point, e);
    TogetherAllNumberChars(p.whole, point + e);
    TogetherAllNumberChars(sign, p.whole + (point + e));
  }

  lemma {:induction false} ExponentHoldsNumberChars(e: Option<Exponent>)
    requires e.Some? ==> IsExponent(e.value)
    ensures AllNumberChars(if e.Some? then ExponentText(e.value) else [])
  {
  }

  predicate AllNumberChars(t: Text) {
    forall i :: 0 <= i < |t| ==> NumberChar(t[i])
  }

  lemma {:induction false} TogetherAllNumberChars(s: Text, t: Text)
    requires AllNumberChars(s) && AllNumberChars(t)
    ensures AllNumberChars(s + t)
  {
    hide NumberChar;
  }

  lemma {:induction false} NumeralIsToken(p: Numeral, strtod: Converter)
    requires KnowsNumerals(strtod) && |NumeralText(p)| <= 63
    ensures Layouts.NumberToken(NumeralText(p), strtod)
  {
    NumeralHoldsNumberChars(p);
  }

  /** Wherever a number of the RFC stands, with a blank, a comma, a bracket, a brace or the end behind it, it is read to its end. */
  lemma {:induction false} NumeralIsRead(inp: Input, p: Numeral, i: nat, depth: int)
    requires KnowsNumerals(inp.strtod) && |NumeralText(p)| <= 63 && At(inp.s, i, NumeralText(p))
    requires var n := i + |NumeralText(p)|; n == |inp.s| || inp.s[n] <= 0x20 || inp.s[n] in {0x2C, 0x5D, 0x7D}
    ensures ParseValue(inp, i, depth) == Parsed(Number(inp.strtod(NumeralText(p)).value), i + |NumeralText(p)|)
  {
    hide ParseValue, NumeralText;
    NumeralIsToken(p, inp.strtod);
    Grammar.ReadsNumber(inp, NumeralText(p), i, depth);
  }

  // ----- Between tokens (section 2), and the comments that the RFC does not know

  datatype GapPart = White(b: byte) | Line(body: Text) | Block(body: Text)

  predicate IsGapPart(p: GapPart) {
    match p
    case White(b) => b == 0x20 || b == 0x09 || b == 0x0A || b == 0x0D
    case Line(body) => 0x0A !in body
    case Block(body) =>
      var t := body + [0x2A, 0x2F];
      forall i :: 0 <= i < |body| ==> !(t[i] == 0x2A && t[i + 1] == 0x2F)
  }

  function PartText(p: GapPart): Text {
    match p
    case White(b) => [b]
    case Line(body) => [0x2F, 0x2F] + (body + [0x0A])
    case Block(body) => [0x2F, 0x2A] + (body + [0x2A, 0x2F])
  }

  predicate IsGap(g: seq<GapPart>) {
    forall i :: 0 <= i < |g| ==> IsGapPart(g[i])
  }

  type Gap = g: seq<GapPart> | IsGap(g) witness []

  function GapText(g: seq<GapPart>): Text {
    if g == [] then [] else PartText(g[0]) + GapText(g[1..])
  }

  /** Nothing but blanks. */
  predicate NoComment(g: Gap) {
    forall i :: 0 <= i < |g| ==> g[i].White?
  }

  lemma {:induction false} WhiteIsBlank(g: Gap)
    requires NoComment(g)
    ensures Layouts.Blank(GapText(g))
  {
    if g != [] {
      assert IsGapPart(g[0]);
      WhiteIsBlank(g[1..]);
    }
  }

  // ----- Texts (sections 2 to 5, and 7)

  type Word = gs: seq<Glyph> | ValidGlyphs(gs) witness []

  datatype Json =
    | JNull
    | JBool(b: bool)
    | JNumber(n: Numeral)
    | JString(word: Word)
    | JEmptyArray(gap: Gap)
    | JArray(slots: Slots)
    | JEmptyObject(gap: Gap)
    | JObject(entries: Entries)

  datatype Slot = Slot(before: Gap, value: Json, after: Gap)
  datatype Slots = LastSlot(s: Slot) | MoreSlots(s: Slot, rest: Slots)

  datatype Entry = Entry(before: Gap, name: Word, afterName: Gap, beforeValue: Gap, value: Json, after: Gap)
  datatype Entries = LastEntry(e: Entry) | MoreEntries(e: Entry, rest: Entries)

  function WordText(w: Word): Text {
    [0x22] + (GlyphsText(w) + [0x22])
  }

  function JsonText(j: Json): Text {
    match j
    case JNull => [0x6E, 0x75, 0x6C, 0x6C]
    case JBool(b) => if b then [0x74, 0x72, 0x75, 0x65] else [0x66, 0x61, 0x6C, 0x73, 0x65]
    case JNumber(n) => NumeralText(n)
    case JString(w) => WordText(w)
    case JEmptyArray(gap) => [0x5B] + (GapText(gap) + [0x5D])
    case JArray(slots) => [0x5B] + (SlotsText(slots) + [0x5D])
    case JEmptyObject(gap) => [0x7B] + (GapText(gap) + [0x7D])
    case JObject(entries) => [0x7B] + (EntriesText(entries) + [0x7D])
  }

  function SlotText(s: Slot): Text {
    GapText(s.before) + (JsonText(s.value) + GapText(s.after))
  }

  function SlotsText(ss: Slots): Text {
    match ss
    case LastSlot(s) => SlotText(s)
    case MoreSlots(s, rest) => SlotText(s) + ([0x2C] + SlotsText(rest))
  }

  function EntryText(e: Entry): Text {
    GapText(e.before) + (WordText(e.name) + (GapText(e.afterName) + ([0x3A] + (GapText(e.beforeValue) + (JsonText(e.value) + GapText(e.after))))))
  }

  function EntriesText(es: Entries): Text {
    match es
    case LastEntry(e) => EntryText(e)
    case MoreEntries(e, rest) => EntryText(e) + ([0x2C] + EntriesText(rest))
  }

  /** What a text stands for: strings are the C strings of their characters in UTF-8. */
  function WordValue(w: Word): Text {
    CString(OctetsOf(ScalarsOf(w)))
  }

  function JsonValue(j: Json, strtod: Converter): Value {
    match j
    case JNull => Null
    case JBool(b) => Bool(b)
    case JNumber(n) => Number(strtod(NumeralText(n)).value)
    case JString(w) => Str(WordValue(w))
    case JEmptyArray(_) => Arr([])
    case JArray(slots) => Arr(SlotValues(slots, strtod))
    case JEmptyObject(_) => Obj([])
    case JObject(entries) => Obj(EntryMembers(entries, strtod))
  }

  function SlotValues(ss: Slots, strtod: Converter): seq<Value> {
    [JsonValue(ss.s.value, strtod)] + if ss.LastSlot? then [] else SlotValues(ss.rest, strtod)
  }

  function EntryMembers(es: Entries, strtod: Converter): seq<Member> {
    [Member(WordValue(es.e.name), JsonValue(es.e.value, strtod))] + if es.LastEntry? then [] else EntryMembers(es.rest, strtod)
  }

  function JsonDepth(j: Json): nat {
    match j
    case JEmptyArray(_) => 1
    case JEmptyObject(_) => 1
    case JArray(slots) => 1 + SlotsDepth(slots)
    case JObject(entries) => 1 + EntriesDepth(entries)
    case _ => 0
  }

  function SlotsDepth(ss: Slots): nat {
    Max(JsonDepth(ss.s.value), if ss.LastSlot? then 0 else SlotsDepth(ss.rest))
  }

  function EntriesDepth(es: Entries): nat {
    Max(JsonDepth(es.e.value), if es.LastEntry? then 0 else EntriesDepth(es.rest))
  }

  /** No comments, and numbers of at most 63 bytes. */
  predicate Modest(j: Json) {
    match j
    case JNumber(n) => |NumeralText(n)| <= 63
    case JEmptyArray(gap) => NoComment(gap)
    case JEmptyObject(gap) => NoComment(gap)
    case JArray(slots) => ModestSlots(slots)
    case JObject(entries) => ModestEntries(entries)
    case _ => true
  }

  predicate ModestSlots(ss: Slots) {
    NoComment(ss.s.before) && Modest(ss.s.value) && NoComment(ss.s.after) && (ss.MoreSlots? ==> ModestSlots(ss.rest))
  }

  predicate ModestEntries(es: Entries) {
    && NoComment(es.e.before) && NoComment(es.e.afterName) && NoComment(es.e.beforeValue) && NoComment(es.e.after)
    && Modest(es.e.value) && (es.MoreEntries? ==> ModestEntries(es.rest))
  }

  // ----- As layouts

  function Laid(j: Json): Layouts.Layout {
    match j
    case JNull => Layouts.NullLayout
    case JBool(b) => Layouts.BoolLayout(b)
    case JNumber(n) => Layouts.NumberLayout(NumeralText(n))
    case JString(w) => Layouts.StringLayout(WordText(w))
    case JEmptyArray(gap) => Layouts.EmptyArray(GapText(gap))
    case JArray(slots) => Layouts.Array(LaidSlots(slots))
    case JEmptyObject(gap) => Layouts.EmptyObject(GapText(gap))
    case JObject(entries) => Layouts.Object(LaidEntries(entries))
  }

  function LaidSlots(ss: Slots): Layouts.Elements {
    var e := Layouts.Element(GapText(ss.s.before), Laid(ss.s.value), GapText(ss.s.after));
    if ss.LastSlot? then Layouts.LastElement(e) else Layouts.MoreElements(e, LaidSlots(ss.rest))
  }

  function LaidEntries(es: Entries): Layouts.Pairs {
    var p := Layouts.Pair(GapText(es.e.before), WordText(es.e.name), GapText(es.e.afterName), GapText(es.e.beforeValue),
                          Laid(es.e.value), GapText(es.e.after));
    if es.LastEntry? then Layouts.LastPair(p) else Layouts.MorePairs(p, LaidEntries(es.rest))
  }

  lemma {:induction false} LaidText(j: Json)
    ensures Layouts.TextOf(Laid(j)) == JsonText(j) && Layouts.Depth(Laid(j)) == JsonDepth(j)
  {
    match j
    case JArray(slots) => LaidSlotsText(slots);
    case JObject(entries) => LaidEntriesText(entries);
    case _ =>
  }

  lemma {:induction false} LaidSlotsText(ss: Slots)
    ensures Layouts.ElementsText(LaidSlots(ss)) == SlotsText(ss) && Layouts.ElementsDepth(LaidSlots(ss)) == SlotsDepth(ss)
  {
    LaidText(ss.s.value);
    if ss.MoreSlots? {
      LaidSlotsText(ss.rest);
    }
  }

  lemma {:induction false} LaidEntriesText(es: Entries)
    ensures Layouts.PairsText(LaidEntries(es)) == EntriesText(es) && Layouts.PairsDepth(LaidEntries(es)) == EntriesDepth(es)
  {
    LaidText(es.e.value);
    if es.MoreEntries? {
      LaidEntriesText(es.rest);
    }
  }

  lemma {:induction false} WordIsToken(w: Word)
    ensures StringToken(WordText(w)) && StringValue(WordText(w)) == WordValue(w)
  {
    hide StringToken, StringValue, ParseString, Decode, GlyphsText, OctetsOf, ScalarsOf, CString;
    UnicodeTextsAreRead(w);
  }

  lemma {:induction false} LaidMeans(j: Json, strtod: Converter)
    requires KnowsNumerals(strtod) && Modest(j)
    ensures Layouts.Valid(Laid(j), strtod) && Layouts.ValueOf(Laid(j), strtod) == JsonValue(j, strtod)
  {
    hide KnowsNumerals, WordText, WordValue, NumeralText, Layouts.Blank, Layouts.NumberToken, GapText, NoComment, StringToken, StringValue;
    hide LaidSlots, LaidEntries, SlotValues, EntryMembers, ModestSlots, ModestEntries, Layouts.ValidElements, Layouts.ValidPairs;
    hide Layouts.ItemsOf, Layouts.MembersOf;
    match j
    case JNumber(n) => NumeralIsToken(n, strtod);
    case JString(w) => WordIsToken(w);
    case JEmptyArray(gap) => WhiteIsBlank(gap);
    case JEmptyObject(gap) => WhiteIsBlank(gap);
    case JArray(slots) => LaidSlotsMean(slots, strtod);
    case JObject(entries) => LaidEntriesMean(entries, strtod);
    case _ =>
  }

  lemma {:induction false} LaidSlotsMean(ss: Slots, strtod: Converter)
    requires KnowsNumerals(strtod) && ModestSlots(ss)
    ensures Layouts.ValidElements(LaidSlots(ss), strtod) && Layouts.ItemsOf(LaidSlots(ss), strtod) == SlotValues(ss, strtod)
  {
    hide KnowsNumerals, Layouts.Blank;
    LaidMeans(ss.s.value, strtod);
    WhiteIsBlank(ss.s.before);
    WhiteIsBlank(ss.s.after);
    if ss.MoreSlots? {
      LaidSlotsMean(ss.rest, strtod);
    }
  }

  lemma {:induction false} LaidEntriesMean(es: Entries, strtod: Converter)
    requires KnowsNumerals(strtod) && ModestEntries(es)
    ensures Layouts.ValidPairs(LaidEntries(es), strtod) && Layouts.MembersOf(LaidEntries(es), strtod) == EntryMembers(es, strtod)
  {
    hide KnowsNumerals, Layouts.Blank, WordText, WordValue;
    LaidMeans(es.e.value, strtod);
    WordIsToken(es.e.name);
    WhiteIsBlank(es.e.before);
    WhiteIsBlank(es.e.afterName);
    WhiteIsBlank(es.e.beforeValue);
    WhiteIsBlank(es.e.after);
    if es.MoreEntries? {
      LaidEntriesMean(es.rest, strtod);
    }
  }

  // ----- Documents

  /**
   * A JSON text of the RFC, perhaps behind a byte order mark and with a terminator, is read as the value that it stands for, if
   * and only if it nests no deeper than 1000; with and without the demand for the terminator.
   */
  lemma {:induction false} RfcTextsAreRead(s: Text, mark: bool, before: Gap, j: Json, after: Gap, strtod: Converter, requireNul: bool)
    requires KnowsNumerals(strtod) && Modest(j) && NoComment(before) && NoComment(after)
    requires s == (if mark then [0xEF, 0xBB, 0xBF] else []) + (GapText(before) + (JsonText(j) + (GapText(after) + [0])))
    ensures var r := ParseText(Input(s, strtod), requireNul);
            if JsonDepth(j) > 1000 then r.Failed?
            else r.Parsed? && r.value == JsonValue(j, strtod) && r.next == |s| - 1 - if requireNul then 0 else |GapText(after)|
  {
    hide ParseText, Laid, JsonText, JsonValue, JsonDepth, Layouts.TextOf, Layouts.Valid, Layouts.ValueOf, Layouts.Depth, Layouts.Blank, GapText, Modest;
    LaidText(j);
    LaidMeans(j, strtod);
    WhiteIsBlank(before);
    WhiteIsBlank(after);
    var bom: Text := if mark then [0xEF, 0xBB, 0xBF] else [];
    assert bom == [] || bom == BYTE_ORDER_MARK;
    Grammar.DocumentIsRead(s, bom, GapText(before), Laid(j), GapText(after), strtod, requireNul);
  }

  /** Every byte up to 32 is taken for a blank, which the RFC does not allow. */
  lemma {:induction false} ControlByteIsBlank(b: byte, strtod: Converter, requireNul: bool)
    requires b <= 0x20
    ensures ParseText(Input([0x5B, b, 0x5D, 0], strtod), requireNul) == Parsed(Arr([]), 3)
  {
    var l := Layouts.EmptyArray([b]);
    assert [0x5B, b, 0x5D, 0] == [] + ([] + (Layouts.TextOf(l) + ([] + [NUL])));
    Grammar.DocumentIsRead([0x5B, b, 0x5D, 0], [], [], l, [], strtod, requireNul);
  }
}
