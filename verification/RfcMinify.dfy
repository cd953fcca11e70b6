/** What cJSON_Minify makes of JSON texts of RFC 8259 with comments between the tokens: the tokens, and nothing between them. */
module RfcMinify {
  import opened Ascii
  import opened Values
  import opened Tokens
  import opened ParseSpec
  import opened Escapes
  import opened Glyphs
  import opened Rfc8259
  import opened RoundTrip
  import opened Minifier
  import opened MinifyMeaning

  // ----- Gaps

  lemma {:induction false} LineIsPassed(body: Text, rest: Text)
    requires 0x0A !in body
    ensures AfterLine((body + [0x0A]) + rest) == rest
  {
    var s := (body + [0x0A]) + rest;
    if body == [] {
      assert s[1..] == rest;
    } else {
      assert s[1..] == (body[1..] + [0x0A]) + rest;
      LineIsPassed(body[1..], rest);
    }
  }

  lemma {:induction false} BlockIsPassed(body: Text, rest: Text)
    requires IsGapPart(Block(body))
    ensures AfterBlock((body + [0x2A, 0x2F]) + rest) == rest
  {
    var s := (body + [0x2A, 0x2F]) + rest;
    if body == [] {
      assert s[2..] == rest;
    } else {
      assert s[1..] == (body[1..] + [0x2A, 0x2F]) + rest;
      BlockGoesOn(body);
      BlockIsPassed(body[1..], rest);
      assert s[0] == (body + [0x2A, 0x2F])[0] && s[1] == (body + [0x2A, 0x2F])[1];
    }
  }

  lemma {:induction false} BlockGoesOn(body: Text)
    requires body != [] && IsGapPart(Block(body))
    ensures IsGapPart(Block(body[1..]))
    ensures var t := body + [0x2A, 0x2F]; !(t[0] == 0x2A && t[1] == 0x2F)
  {
    var t, u := body + [0x2A, 0x2F], body[1..] + [0x2A, 0x2F];
    forall i | 0 <= i < |body[1..]| ensures !(u[i] == 0x2A && u[i + 1] == 0x2F) {
      assert u[i] == t[i + 1] && u[i + 1] == t[i + 2];
    }
  }

  predicate NoBlockEnd(t: Text) {
    forall i :: 0 <= i < |t| - 1 ==> !(t[i] == 0x2A && t[i + 1] == 0x2F)
  }

  /** A comment that does not end takes the rest of the text along. */
  lemma {:induction false} OpenCommentSwallows(t: Text)
    ensures 0x0A !in t ==> Minified([0x2F, 0x2F] + t) == []
    ensures NoBlockEnd(t) ==> Minified([0x2F, 0x2A] + t) == []
  {
    assert ([0x2F, 0x2F] + t)[2..] == t && ([0x2F, 0x2A] + t)[2..] == t;
    NothingBehind(t);
    hide AfterLine, AfterBlock;
  }

  lemma {:induction false} NothingBehind(t: Text)
    ensures 0x0A !in t ==> AfterLine(t) == []
    ensures NoBlockEnd(t) ==> AfterBlock(t) == []
  {
    if t != [] {
      NothingBehind(t[1..]);
    }
  }

  /** A string that does not end is kept, with all that is behind it. */
  lemma {:induction false} OpenStringIsKept(t: Text)
    requires 0x22 !in t
    ensures Minified([0x22] + t) == [0x22] + t
  {
    assert ([0x22] + t)[1..] == t;
    NoQuoteIsKept(t);
    hide InString;
  }

  lemma {:induction false} NoQuoteIsKept(t: Text)
    requires 0x22 !in t
    ensures InString(t) == t
  {
    if t != [] {
      NoQuoteIsKept(t[1..]);
    }
  }

  /** A slash that starts no comment is dropped. */
  lemma {:induction false} LoneSlashIsDropped(t: Text)
    requires t != [] ==> t[0] != 0x2F && t[0] != 0x2A
    ensures Minified([0x2F] + t) == Minified(t)
  {
    assert ([0x2F] + t)[1..] == t;
  }

  lemma {:induction false} PartVanishes(p: GapPart)
    requires IsGapPart(p)
    ensures Becomes(PartText(p), [])
  {
    hide IsGapPart, PartText, Minified;
    forall rest ensures Minified(PartText(p) + rest) == [] + Minified(rest) {
      match p
      case White(_) => WhiteIsPassed(p, rest);
      case Line(_) => LineVanishes(p, rest);
      case Block(_) => BlockVanishes(p, rest);
    }
  }

  lemma {:induction false} WhiteIsPassed(p: GapPart, rest: Text)
    requires IsGapPart(p) && p.White?
    ensures Minified(PartText(p) + rest) == Minified(rest)
  {
    assert ([p.b] + rest)[1..] == rest;
  }

  lemma {:induction false} LineVanishes(p: GapPart, rest: Text)
    requires IsGapPart(p) && p.Line?
    ensures Minified(PartText(p) + rest) == Minified(rest)
  {
    var s := PartText(p) + rest;
    hide AfterLine, AfterBlock;
    assert s[2..] == (p.body + [0x0A]) + rest;
    LineIsPassed(p.body, rest);
  }

  lemma {:induction false} BlockVanishes(p: GapPart, rest: Text)
    requires IsGapPart(p) && p.Block?
    ensures Minified(PartText(p) + rest) == Minified(rest)
  {
    BlockIsPassed(p.body, rest);
    hide AfterLine, AfterBlock, IsGapPart;
    BlockMinified((p.body + [0x2A, 0x2F]) + rest);
    assert PartText(p) + rest == [0x2F, 0x2A] + ((p.body + [0x2A, 0x2F]) + rest);
    hide Minified;
  }

  lemma {:induction false} BlockMinified(t: Text)
    ensures Minified([0x2F, 0x2A] + t) == Minified(AfterBlock(t))
  {
    hide AfterLine, AfterBlock;
    assert ([0x2F, 0x2A] + t)[2..] == t;
  }

  lemma {:induction false} GapVanishes(g: Gap)
    ensures Becomes(GapText(g), [])
  {
    hide Becomes, PartText;
    var none: Text := [];
    if g == [] {
      NothingBecomes();
    } else {
      assert IsGapPart(g[0]);
      PartVanishes(g[0]);
      GapVanishes(g[1..]);
      BecomesBoth(PartText(g[0]), none, GapText(g[1..]), none);
      assert none + none == none;
    }
  }

  lemma {:induction false} NothingBecomes()
    ensures Becomes([], [])
  {
    hide Minified;
    forall rest: Text ensures Minified([] + rest) == [] + Minified(rest) {
      assert [] + rest == rest;
    }
  }

  // ----- Texts

  /** The same text with nothing between its tokens. */
  function Bare(j: Json): Json {
    match j
    case JEmptyArray(_) => JEmptyArray([])
    case JArray(slots) => JArray(BareSlots(slots))
    case JEmptyObject(_) => JEmptyObject([])
    case JObject(entries) => JObject(BareEntries(entries))
    case _ => j
  }

  function BareSlots(ss: Slots): Slots {
    var s := Slot([], Bare(ss.s.value), []);
    if ss.LastSlot? then LastSlot(s) else MoreSlots(s, BareSlots(ss.rest))
  }

  function BareEntries(es: Entries): Entries {
    var e := Entry([], es.e.name, [], [], Bare(es.e.value), []);
    if es.LastEntry? then LastEntry(e) else MoreEntries(e, BareEntries(es.rest))
  }

  /** The string does not end in an escaped backslash. */
  predicate EndsWell(w: Word) {
    w != [] ==> w[|w| - 1] != Letter(0x5C)
  }

  predicate AllEndWell(j: Json) {
    match j
    case JString(w) => EndsWell(w)
    case JArray(slots) => SlotsEndWell(slots)
    case JObject(entries) => EntriesEndWell(entries)
    case _ => true
  }

  predicate SlotsEndWell(ss: Slots) {
    AllEndWell(ss.s.value) && (ss.MoreSlots? ==> SlotsEndWell(ss.rest))
  }

  predicate EntriesEndWell(es: Entries) {
    EndsWell(es.e.name) && AllEndWell(es.e.value) && (es.MoreEntries? ==> EntriesEndWell(es.rest))
  }

  lemma {:induction false} LastByte(gs: seq<Glyph>)
    requires ValidGlyphs(gs) && gs != [] && gs[|gs| - 1] != Letter(0x5C)
    ensures var t := GlyphsText(gs); t != [] && t[|t| - 1] != BACKSLASH
  {
    if |gs| == 1 {
      assert gs[1..] == [];
      LastByteOfGlyph(gs[0]);
    } else {
      assert gs[1..][|gs| - 2] == gs[|gs| - 1];
      LastByte(gs[1..]);
    }
  }

  lemma {:induction false} LastByteOfGlyph(g: Glyph)
    requires ValidGlyph(g) && g != Letter(0x5C)
    ensures var t := GlyphText(g); t != [] && t[|t| - 1] != BACKSLASH
  {
    match g
    case Raw(c) =>
    case Letter(c) =>
    case Digits(c, high, low) => assert forall n, u :: n < 0x1_0000 ==> |Spelled(n, u)| == 4 && Spelled(n, u)[3] != BACKSLASH;
  }

  lemma {:induction false} WordBecomes(w: Word)
    requires EndsWell(w)
    ensures Becomes(WordText(w), WordText(w))
  {
    hide Becomes, StringToken, StringValue, GlyphsText, WordValue, WordText, Misread;
    WordIsToken(w);
    WordIsReadWell(w);
    TokenBecomes(WordText(w));
  }

  lemma {:induction false} WordIsReadWell(w: Word)
    requires EndsWell(w)
    ensures !Misread(WordText(w))
  {
    if w != [] {
      LastByte(w);
    }
    hide ValidGlyphs, GlyphText;
  }

  lemma {:induction false} MarkBecomes(b: byte)
    requires b in {0x2C, 0x3A, 0x5B, 0x5D, 0x7B, 0x7D}
    ensures Becomes([b], [b])
  {
    hide Becomes;
    BecomesPlain([b]);
  }

  lemma {:induction false} BracketsBecome(open: byte, a: Text, b: Text, close: byte)
    requires Becomes(a, b) && open in {0x5B, 0x7B} && close in {0x5D, 0x7D}
    ensures Becomes([open] + (a + [close]), [open] + (b + [close]))
  {
    hide Becomes;
    MarkBecomes(open);
    MarkBecomes(close);
    BecomesBoth(a, b, [close], [close]);
    BecomesBoth([open], [open], a + [close], b + [close]);
  }

  lemma {:induction false} ListBecomes(a: Text, b: Text, c: Text, d: Text)
    requires Becomes(a, b) && Becomes(c, d)
    ensures Becomes(a + ([0x2C] + c), b + ([0x2C] + d))
  {
    hide Becomes;
    MarkBecomes(0x2C);
    BecomesBoth([0x2C], [0x2C], c, d);
    BecomesBoth(a, b, [0x2C] + c, [0x2C] + d);
  }

  lemma {:induction false} LiteralBecomes(j: Json)
    requires j.JNull? || j.JBool? || j.JNumber?
    ensures Becomes(JsonText(j), JsonText(j))
  {
    hide Becomes;
    if j.JNumber? {
      NumeralHoldsNumberChars(j.n);
    }
    BecomesPlain(JsonText(j));
  }

  /** A text becomes the same text with nothing between its tokens, whatever comes behind it. */
  lemma {:induction false} JsonBecomes(j: Json)
    requires AllEndWell(j)
    ensures Becomes(JsonText(j), JsonText(Bare(j)))
    decreases j, 0
  {
    hide Becomes, GapText, WordText, SlotsText, EntriesText, BareSlots, BareEntries;
    match j
    case JString(w) => WordBecomes(w);
    case JEmptyArray(gap) =>
      GapBrackets(gap);
      BracketsBecome(0x5B, GapText(gap), [], 0x5D);
    case JEmptyObject(gap) =>
      GapBrackets(gap);
      BracketsBecome(0x7B, GapText(gap), [], 0x7D);
    case JArray(slots) =>
      SlotsBecome(slots);
      BracketsBecome(0x5B, SlotsText(slots), SlotsText(BareSlots(slots)), 0x5D);
    case JObject(entries) =>
      EntriesBecome(entries);
      BracketsBecome(0x7B, EntriesText(entries), EntriesText(BareEntries(entries)), 0x7D);
    case _ => LiteralBecomes(j);
  }

  lemma {:induction false} GapBrackets(gap: Gap)
    ensures Becomes(GapText(gap), []) && GapText([]) == []
  {
    GapVanishes(gap);
  }

  lemma {:induction false} Surrounded(a: Text, b: Text, c: Text, d: Text)
    requires Becomes(a, []) && Becomes(b, c) && Becomes(d, [])
    ensures Becomes(a + (b + d), c)
  {
    hide Becomes;
    BecomesBoth(b, c, d, []);
    BecomesBoth(a, [], b + d, c + []);
    assert [] + (c + []) == c;
  }

  lemma {:induction false} SlotBecomes(s: Slot)
    requires AllEndWell(s.value)
    ensures Becomes(SlotText(s), JsonText(Bare(s.value)))
    decreases s, 1
  {
    hide Becomes, GapText, JsonText, Bare;
    GapVanishes(s.before);
    JsonBecomes(s.value);
    GapVanishes(s.after);
    Surrounded(GapText(s.before), JsonText(s.value), JsonText(Bare(s.value)), GapText(s.after));
  }

  lemma {:induction false} SlotsBecome(ss: Slots)
    requires SlotsEndWell(ss)
    ensures Becomes(SlotsText(ss), SlotsText(BareSlots(ss)))
    decreases ss, 0
  {
    SlotBecomes(ss.s);
    BareSlot(ss.s.value);
    hide Becomes, SlotText, JsonText, Bare, AllEndWell;
    if ss.MoreSlots? {
      SlotsBecome(ss.rest);
      ListBecomes(SlotText(ss.s), JsonText(Bare(ss.s.value)), SlotsText(ss.rest), SlotsText(BareSlots(ss.rest)));
    }
  }

  lemma {:induction false} BareSlot(j: Json)
    ensures SlotText(Slot([], Bare(j), [])) == JsonText(Bare(j))
  {
    hide Bare, JsonText;
  }

  lemma {:induction false} EntryBecomes(e: Entry)
    requires EndsWell(e.name) && AllEndWell(e.value)
    ensures Becomes(EntryText(e), EntryText(Entry([], e.name, [], [], Bare(e.value), [])))
    decreases e, 1
  {
    hide Becomes, JsonText, Bare, WordText, EndsWell, AllEndWell, GapText;
    JsonBecomes(e.value);
    WordBecomes(e.name);
    MarkBecomes(0x3A);
    GapVanishes(e.before);
    GapVanishes(e.afterName);
    GapVanishes(e.beforeValue);
    GapVanishes(e.after);
    var v, b := JsonText(e.value), JsonText(Bare(e.value));
    var w := WordText(e.name);
    Surrounded(GapText(e.beforeValue), v, b, GapText(e.after));
    var behind := GapText(e.beforeValue) + (v + GapText(e.after));
    BecomesBoth([0x3A], [0x3A], behind, b);
    BecomesBoth(GapText(e.afterName), [], [0x3A] + behind, [0x3A] + b);
    assert [] + ([0x3A] + b) == [0x3A] + b;
    BecomesBoth(w, w, GapText(e.afterName) + ([0x3A] + behind), [0x3A] + b);
    BecomesBoth(GapText(e.before), [], w + (GapText(e.afterName) + ([0x3A] + behind)), w + ([0x3A] + b));
    BareEntry(e.name, Bare(e.value));
    assert [] + (w + ([0x3A] + b)) == w + ([0x3A] + b);
  }

  lemma {:induction false} BareEntry(name: Word, j: Json)
    ensures EntryText(Entry([], name, [], [], j, [])) == WordText(name) + ([0x3A] + JsonText(j))
  {
    hide JsonText, WordText;
  }

  lemma {:induction false} EntriesBecome(es: Entries)
    requires EntriesEndWell(es)
    ensures Becomes(EntriesText(es), EntriesText(BareEntries(es)))
    decreases es, 0
  {
    EntryBecomes(es.e);
    hide Becomes, EntryText, Bare, AllEndWell;
    if es.MoreEntries? {
      EntriesBecome(es.rest);
      ListBecomes(EntryText(es.e), EntryText(BareEntries(es).e), EntriesText(es.rest), EntriesText(BareEntries(es.rest)));
    }
  }

  // ----- Documents

  /**
   * A JSON text with blanks and comments between its tokens, none of whose strings ends in an escaped backslash, is minified to its
   * tokens; a byte order mark stays in front.
   */
  lemma {:induction false} CommentsAreRemoved(s: Text, mark: bool, before: Gap, j: Json, after: Gap)
    requires AllEndWell(j)
    requires s == (if mark then [0xEF, 0xBB, 0xBF] else []) + (GapText(before) + (JsonText(j) + GapText(after)))
    ensures Minified(s) == (if mark then [0xEF, 0xBB, 0xBF] else []) + JsonText(Bare(j))
  {
    var bom: Text := if mark then [0xEF, 0xBB, 0xBF] else [];
    BecomesPlain(bom);
    hide Becomes, JsonText, Bare, GapText;
    JsonBecomes(j);
    GapVanishes(before);
    GapVanishes(after);
    Surrounded(GapText(before), JsonText(j), JsonText(Bare(j)), GapText(after));
    BecomesBoth(bom, bom, GapText(before) + (JsonText(j) + GapText(after)), JsonText(Bare(j)));
    WholeText(s, bom + JsonText(Bare(j)));
  }

  lemma {:induction false} BareIsModest(j: Json, strtod: Converter)
    requires NumbersFit(j)
    ensures Modest(Bare(j)) && JsonValue(Bare(j), strtod) == JsonValue(j, strtod) && JsonDepth(Bare(j)) == JsonDepth(j)
  {
    hide NumeralText, WordValue;
    match j
    case JArray(slots) => BareSlotsAreModest(slots, strtod);
    case JObject(entries) => BareEntriesAreModest(entries, strtod);
    case _ =>
  }

  lemma {:induction false} BareSlotsAreModest(ss: Slots, strtod: Converter)
    requires NumbersFitSlots(ss)
    ensures ModestSlots(BareSlots(ss)) && SlotValues(BareSlots(ss), strtod) == SlotValues(ss, strtod) && SlotsDepth(BareSlots(ss)) == SlotsDepth(ss)
  {
    BareIsModest(ss.s.value, strtod);
    if ss.MoreSlots? {
      BareSlotsAreModest(ss.rest, strtod);
    }
  }

  lemma {:induction false} BareEntriesAreModest(es: Entries, strtod: Converter)
    requires NumbersFitEntries(es)
    ensures ModestEntries(BareEntries(es)) && EntryMembers(BareEntries(es), strtod) == EntryMembers(es, strtod)
    ensures EntriesDepth(BareEntries(es)) == EntriesDepth(es)
  {
    hide WordValue;
    BareIsModest(es.e.value, strtod);
    if es.MoreEntries? {
      BareEntriesAreModest(es.rest, strtod);
    }
  }

  /** Every number has at most 63 bytes. */
  predicate NumbersFit(j: Json) {
    match j
    case JNumber(n) => |NumeralText(n)| <= 63
    case JArray(slots) => NumbersFitSlots(slots)
    case JObject(entries) => NumbersFitEntries(entries)
    case _ => true
  }

  predicate NumbersFitSlots(ss: Slots) {
    NumbersFit(ss.s.value) && (ss.MoreSlots? ==> NumbersFitSlots(ss.rest))
  }

  predicate NumbersFitEntries(es: Entries) {
    NumbersFit(es.e.value) && (es.MoreEntries? ==> NumbersFitEntries(es.rest))
  }

  /** And what is left is read as the value of the text. */
  lemma {:induction false} CommentedTextsAreRead(s: Text, mark: bool, before: Gap, j: Json, after: Gap, strtod: Converter, requireNul: bool)
    requires KnowsNumerals(strtod) && NumbersFit(j) && AllEndWell(j)
    requires s == (if mark then [0xEF, 0xBB, 0xBF] else []) + (GapText(before) + (JsonText(j) + GapText(after)))
    ensures var r := ParseText(Input(Terminated(Minified(s)), strtod), requireNul);
            if JsonDepth(j) > 1000 then r.Failed? else r.Parsed? && r.value == JsonValue(j, strtod)
  {
    hide ParseText, Minified, JsonText, Bare, JsonValue, JsonDepth, KnowsNumerals, NumbersFit, AllEndWell, Modest;
    CommentsAreRemoved(s, mark, before, j, after);
    BareIsModest(j, strtod);
    var bom: Text := if mark then [0xEF, 0xBB, 0xBF] else [];
    assert Terminated(Minified(s)) == bom + (GapText([]) + (JsonText(Bare(j)) + (GapText([]) + [0])));
    RfcTextsAreRead(Terminated(Minified(s)), mark, [], Bare(j), [], strtod, requireNul);
  }
}
