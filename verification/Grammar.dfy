/** The parser decides the grammar: it accepts exactly the layouts, and reads from each the value it stands for. */
module Grammar {
  import opened Ascii
  import opened Values
  import opened StringSpec
  import opened ParseSpec
  import opened Tokens
  import opened Layouts

  predicate ByteAt(s: Text, i: nat, b: byte) {
    i < |s| && s[i] == b
  }

  // ----- Tokens: what the parser sees of a token does not depend on what surrounds it

  lemma {:induction false} ScanIsLocal(s: Text, i: nat, raw: Text, k: nat)
    requires At(s, i, raw)
    requires Scan(raw, k).Some? || (Scan(s, i + k).Some? && Scan(s, i + k).value < i + |raw|)
    ensures Scan(raw, k).Some? && Scan(s, i + k) == Some(i + Scan(raw, k).value)
    decreases |s| - (i + k)
  {
    if k < |raw| {
      AtByte(s, i, raw, k);
      if raw[k] == BACKSLASH {
        ScanIsLocal(s, i, raw, k + 2);
      } else if raw[k] != QUOTE {
        ScanIsLocal(s, i, raw, k + 1);
      }
    }
  }

  lemma {:induction false} StringIsLocal(s: Text, i: nat, raw: Text)
    requires At(s, i, raw) && StringToken(raw)
    ensures ByteAt(s, i, QUOTE)
    ensures ParseString(s, i) == Parsed(StringValue(raw), i + |raw|)
  {
    hide StringToken, StringValue;
    TokensAreRead(raw);
    AtByte(s, i, raw, 0);
    ScanIsLocal(s, i, raw, 1);
    Subslice(s, i, i + |raw|, 1);
    hide Decode, Scan, CString, StringToken, StringValue;
  }

  lemma {:induction false} Subslice(s: Text, i: nat, n: nat, k: nat)
    requires i + k <= n <= |s|
    ensures s[i..n][k..n - i] == s[i + k..n]
  {
  }

  lemma {:induction false} StringFound(s: Text, i: nat)
    requires i < |s| && ParseString(s, i).Parsed?
    ensures StringToken(s[i..ParseString(s, i).next])
    ensures StringValue(s[i..ParseString(s, i).next]) == ParseString(s, i).value
  {
    hide StringToken, StringValue;
    var n := ParseString(s, i).next;
    var raw := s[i..n];
    ScanIsLocal(s, i, raw, 1);
    Subslice(s, i, n, 1);
    TokensAreRead(raw);
    hide Decode, Scan, CString, StringToken, StringValue;
  }

  lemma {:induction false} NumberIsLocal(inp: Input, i: nat, raw: Text)
    requires At(inp.s, i, raw) && NumberToken(raw, inp.strtod) && Delimited(inp.s, i + |raw|)
    ensures ParseNumber(inp, i) == Parsed(Number(inp.strtod(raw).value), i + |raw|)
  {
    forall k | i <= k < i + |raw| ensures NumberChar(inp.s[k]) {
      AtByte(inp.s, i, raw, k - i);
    }
    hide NumberChar, RunLength;
    RunIs(inp.s, i, |raw|, NUMBER_ROOM);
  }

  lemma {:induction false} NumberFound(inp: Input, i: nat)
    requires i < |inp.s| && ParseNumber(inp, i).Parsed? && Delimited(inp.s, ParseNumber(inp, i).next)
    requires inp.s[i] == MINUS || IsDigit(inp.s[i])
    ensures NumberToken(inp.s[i..ParseNumber(inp, i).next], inp.strtod)
    ensures ParseNumber(inp, i).value == Number(inp.strtod(inp.s[i..ParseNumber(inp, i).next]).value)
  {
    hide RunLength, ParseNumber, Delimited, NumberChar, IsDigit;
    RunEndsThere(inp, i);
  }

  /** A number that ends where no number character follows has taken the whole run. */
  lemma {:induction false} RunEndsThere(inp: Input, i: nat)
    requires i < |inp.s| && ParseNumber(inp, i).Parsed? && Delimited(inp.s, ParseNumber(inp, i).next)
    ensures var next := ParseNumber(inp, i).next;
            && next == i + RunLength(inp.s, i, NUMBER_ROOM)
            && inp.strtod(inp.s[i..next]).consumed == next - i
            && ParseNumber(inp, i).value == Number(inp.strtod(inp.s[i..next]).value)
  {
    hide RunLength;
  }

  lemma {:induction false} BlanksSkipped(s: Text, i: nat, blanks: Text)
    requires At(s, i, blanks) && Blank(blanks)
    requires i + |blanks| < |s| && s[i + |blanks|] > SPACE
    ensures SkipBlanks(s, i) == i + |blanks|
  {
    forall k | i <= k < i + |blanks| ensures s[k] <= SPACE {
      AtByte(s, i, blanks, k - i);
    }
  }

  /** Unless the step back was taken, what was skipped is blank. */
  lemma {:induction false} BlanksFound(s: Text, i: nat)
    requires i <= |s| && SkipBlanks(s, i) < |s| && s[SkipBlanks(s, i)] > SPACE
    ensures Blank(s[i..SkipBlanks(s, i)]) && At(s, i, s[i..SkipBlanks(s, i)])
    ensures !NumberChar(s[SkipBlanks(s, i)]) ==> Delimited(s, i)
  {
  }

  // ----- Where a layout stands in a buffer

  function Size(l: Layout): nat {
    match l
    case NullLayout => 4
    case BoolLayout(b) => if b then 4 else 5
    case NumberLayout(raw) => |raw|
    case StringLayout(raw) => |raw|
    case EmptyArray(blanks) => |blanks| + 2
    case EmptyObject(blanks) => |blanks| + 2
    case Array(elements) => ElementsSize(elements) + 2
    case Object(pairs) => PairsSize(pairs) + 2
  }

  function ElementSize(e: Element): (n: nat)
    ensures |e.before| + |e.after| <= n
  {
    |e.before| + Size(e.value) + |e.after|
  }

  function ElementsSize(es: Elements): nat {
    ElementSize(es.e) + if es.LastElement? then 0 else 1 + ElementsSize(es.rest)
  }

  function PairSize(p: Pair): (n: nat)
    ensures |p.before| + |p.after| <= n
  {
    |p.before| + |p.key| + |p.afterKey| + 1 + |p.beforeValue| + Size(p.value) + |p.after|
  }

  function PairsSize(ps: Pairs): nat {
    PairSize(ps.p) + if ps.LastPair? then 0 else 1 + PairsSize(ps.rest)
  }

  /** The tokens of `l` and the blanks between them stand in `s` from position `i` on. */
  predicate Stands(s: Text, i: nat, l: Layout)
    decreases l
  {
    match l
    case NullLayout => At(s, i, NULL_TEXT)
    case BoolLayout(b) => At(s, i, if b then TRUE_TEXT else FALSE_TEXT)
    case NumberLayout(raw) => At(s, i, raw)
    case StringLayout(raw) => At(s, i, raw)
    case EmptyArray(blanks) => ByteAt(s, i, LBRACKET) && At(s, i + 1, blanks) && ByteAt(s, i + 1 + |blanks|, RBRACKET)
    case EmptyObject(blanks) => ByteAt(s, i, LBRACE) && At(s, i + 1, blanks) && ByteAt(s, i + 1 + |blanks|, RBRACE)
    case Array(elements) =>
      ByteAt(s, i, LBRACKET) && ElementsStand(s, i + 1, elements) && ByteAt(s, i + 1 + ElementsSize(elements), RBRACKET)
    case Object(pairs) =>
      ByteAt(s, i, LBRACE) && PairsStand(s, i + 1, pairs) && ByteAt(s, i + 1 + PairsSize(pairs), RBRACE)
  }

  predicate ElementStands(s: Text, q: nat, e: Element)
    decreases e
  {
    && At(s, q, e.before)
    && Stands(s, q + |e.before|, e.value)
    && At(s, q + |e.before| + Size(e.value), e.after)
  }

  predicate ElementsStand(s: Text, q: nat, es: Elements)
    decreases es
  {
    && ElementStands(s, q, es.e)
    && (es.MoreElements? ==>
          ByteAt(s, q + ElementSize(es.e), COMMA) && ElementsStand(s, q + ElementSize(es.e) + 1, es.rest))
  }

  /** A key with the blanks and the colon up to its value. */
  predicate KeyStands(s: Text, q: nat, p: Pair) {
    var j := q + |p.before|;
    var c := j + |p.key| + |p.afterKey|;
    At(s, q, p.before) && At(s, j, p.key) && At(s, j + |p.key|, p.afterKey) && ByteAt(s, c, COLON) && At(s, c + 1, p.beforeValue)
  }

  predicate PairStands(s: Text, q: nat, p: Pair)
    decreases p
  {
    var w := q + |p.before| + |p.key| + |p.afterKey| + 1 + |p.beforeValue|;
    KeyStands(s, q, p) && Stands(s, w, p.value) && At(s, w + Size(p.value), p.after)
  }

  predicate PairsStand(s: Text, q: nat, ps: Pairs)
    decreases ps
  {
    && PairStands(s, q, ps.p)
    && (ps.MorePairs? ==>
          ByteAt(s, q + PairSize(ps.p), COMMA) && PairsStand(s, q + PairSize(ps.p) + 1, ps.rest))
  }

  lemma {:induction false} ByteSplit(s: Text, i: nat, b: byte, t: Text)
    ensures At(s, i, [b] + t) <==> ByteAt(s, i, b) && At(s, i + 1, t)
  {
    AtSplit(s, i, [b], t);
  }

  lemma {:induction false} BracketSplit(s: Text, i: nat, open: byte, t: Text, close: byte)
    ensures At(s, i, [open] + (t + [close])) <==> ByteAt(s, i, open) && At(s, i + 1, t) && ByteAt(s, i + 1 + |t|, close)
  {
    ByteSplit(s, i, open, t + [close]);
    AtSplit(s, i + 1, t, [close]);
  }

  /** A layout stands somewhere exactly when its text does. */
  lemma {:induction false} StandsIffAt(s: Text, i: nat, l: Layout)
    ensures |TextOf(l)| == Size(l)
    ensures Stands(s, i, l) <==> At(s, i, TextOf(l))
    decreases l
  {
    hide At, ByteAt;
    match l
    case EmptyArray(blanks) => BracketSplit(s, i, LBRACKET, blanks, RBRACKET);
    case EmptyObject(blanks) => BracketSplit(s, i, LBRACE, blanks, RBRACE);
    case Array(elements) =>
      ElementsStandIffAt(s, i + 1, elements);
      BracketSplit(s, i, LBRACKET, ElementsText(elements), RBRACKET);
    case Object(pairs) =>
      PairsStandIffAt(s, i + 1, pairs);
      BracketSplit(s, i, LBRACE, PairsText(pairs), RBRACE);
    case _ =>
  }

  lemma {:induction false} ElementStandsIffAt(s: Text, q: nat, e: Element)
    ensures |ElementText(e)| == ElementSize(e)
    ensures ElementStands(s, q, e) <==> At(s, q, ElementText(e))
    decreases e
  {
    hide At;
    StandsIffAt(s, q + |e.before|, e.value);
    AtSplit(s, q, e.before, TextOf(e.value) + e.after);
    AtSplit(s, q + |e.before|, TextOf(e.value), e.after);
  }

  lemma {:induction false} ElementsStandIffAt(s: Text, q: nat, es: Elements)
    ensures |ElementsText(es)| == ElementsSize(es)
    ensures ElementsStand(s, q, es) <==> At(s, q, ElementsText(es))
    decreases es
  {
    hide At, ByteAt, ElementText, ElementStands;
    ElementStandsIffAt(s, q, es.e);
    if es.MoreElements? {
      var k := q + ElementSize(es.e);
      ElementsStandIffAt(s, k + 1, es.rest);
      AtSplit(s, q, ElementText(es.e), [COMMA] + ElementsText(es.rest));
      ByteSplit(s, k, COMMA, ElementsText(es.rest));
    }
  }

  lemma {:induction false} KeyStandsIffAt(s: Text, q: nat, p: Pair, value: Text)
    ensures At(s, q, p.before + (p.key + (p.afterKey + ([COLON] + (p.beforeValue + value))))) <==>
            KeyStands(s, q, p) && At(s, q + |p.before| + |p.key| + |p.afterKey| + 1 + |p.beforeValue|, value)
  {
    hide At, ByteAt;
    var j := q + |p.before|;
    var c := j + |p.key| + |p.afterKey|;
    AtSplit(s, q, p.before, p.key + (p.afterKey + ([COLON] + (p.beforeValue + value))));
    AtSplit(s, j, p.key, p.afterKey + ([COLON] + (p.beforeValue + value)));
    AtSplit(s, j + |p.key|, p.afterKey, [COLON] + (p.beforeValue + value));
    ByteSplit(s, c, COLON, p.beforeValue + value);
    AtSplit(s, c + 1, p.beforeValue, value);
  }

  lemma {:induction false} PairStandsIffAt(s: Text, q: nat, p: Pair)
    ensures |PairText(p)| == PairSize(p)
    ensures PairStands(s, q, p) <==> At(s, q, PairText(p))
    decreases p
  {
    hide At, KeyStands;
    var w := q + |p.before| + |p.key| + |p.afterKey| + 1 + |p.beforeValue|;
    StandsIffAt(s, w, p.value);
    KeyStandsIffAt(s, q, p, TextOf(p.value) + p.after);
    AtSplit(s, w, TextOf(p.value), p.after);
  }

  lemma {:induction false} PairsStandIffAt(s: Text, q: nat, ps: Pairs)
    ensures |PairsText(ps)| == PairsSize(ps)
    ensures PairsStand(s, q, ps) <==> At(s, q, PairsText(ps))
    decreases ps
  {
    hide At, ByteAt, PairText, PairStands;
    PairStandsIffAt(s, q, ps.p);
    if ps.MorePairs? {
      var k := q + PairSize(ps.p);
      PairsStandIffAt(s, k + 1, ps.rest);
      AtSplit(s, q, PairText(ps.p), [COMMA] + PairsText(ps.rest));
      ByteSplit(s, k, COMMA, PairsText(ps.rest));
    }
  }

  // ----- Completeness: every layout is read, exactly when the nesting allows it

  /** The outcome is a failure when too deep, and otherwise the value and the end of its text. */
  predicate Reads<T(==)>(r: Outcome<T>, fits: bool, value: T, next: nat) {
    if fits then r == Parsed(value, next) else r.Failed?
  }

  /** The first byte of a value decides which parser reads it. */
  lemma {:induction false} Dispatch(inp: Input, i: nat, depth: int)
    requires i < |inp.s|
    ensures inp.s[i] == QUOTE ==>
              ParseValue(inp, i, depth) == match ParseString(inp.s, i)
                                           case Failed(at) => Failed(at)
                                           case Parsed(t, next) => Parsed(Str(t), next)
    ensures inp.s[i] == MINUS || IsDigit(inp.s[i]) ==> ParseValue(inp, i, depth) == ParseNumber(inp, i)
    ensures inp.s[i] == LBRACKET ==> ParseValue(inp, i, depth) == ParseArray(inp, i, depth)
    ensures inp.s[i] == LBRACE ==> ParseValue(inp, i, depth) == ParseObject(inp, i, depth)
    ensures At(inp.s, i, NULL_TEXT) ==> ParseValue(inp, i, depth) == Parsed(Null, i + 4)
    ensures At(inp.s, i, TRUE_TEXT) ==> ParseValue(inp, i, depth) == Parsed(Bool(true), i + 4)
    ensures At(inp.s, i, FALSE_TEXT) ==> ParseValue(inp, i, depth) == Parsed(Bool(false), i + 5)
  {
    assert At(inp.s, i, NULL_TEXT) ==> inp.s[i..i + 4][0] == 0x6E;
    assert At(inp.s, i, TRUE_TEXT) ==> inp.s[i..i + 4][0] == 0x74;
    assert At(inp.s, i, FALSE_TEXT) ==> inp.s[i..i + 5][0] == 0x66;
  }

  /** A layout starts with a byte that is no blank and closes or separates nothing. */
  lemma {:induction false} FirstByte(s: Text, i: nat, l: Layout, strtod: Converter)
    requires Valid(l, strtod) && Stands(s, i, l)
    ensures i < |s| && s[i] > SPACE && s[i] !in {COMMA, COLON, RBRACKET, RBRACE} && i + Size(l) <= |s|
  {
  }

  lemma {:induction false} ReadsNumber(inp: Input, raw: Text, i: nat, depth: int)
    requires NumberToken(raw, inp.strtod) && At(inp.s, i, raw) && Delimited(inp.s, i + |raw|)
    ensures ParseValue(inp, i, depth) == Parsed(Number(inp.strtod(raw).value), i + |raw|)
  {
    AtByte(inp.s, i, raw, 0);
    Dispatch(inp, i, depth);
    NumberIsLocal(inp, i, raw);
    hide At, ParseValue, ParseNumber, ParseString, Delimited;
  }

  lemma {:induction false} ReadsString(inp: Input, raw: Text, i: nat, depth: int)
    requires StringToken(raw) && At(inp.s, i, raw)
    ensures ParseValue(inp, i, depth) == Parsed(Str(StringValue(raw)), i + |raw|)
  {
    StringIsLocal(inp.s, i, raw);
    Dispatch(inp, i, depth);
    hide At, ParseValue, ParseNumber, ParseString, StringToken, StringValue;
  }

  lemma {:induction false} ReadsScalar(inp: Input, l: Layout, i: nat, depth: int)
    requires Valid(l, inp.strtod) && Stands(inp.s, i, l) && Depth(l) == 0
    requires l.NumberLayout? ==> Delimited(inp.s, i + Size(l))
    ensures ParseValue(inp, i, depth) == Parsed(ValueOf(l, inp.strtod), i + Size(l))
  {
    hide At, ParseValue, Delimited, NumberToken, StringToken, StringValue;
    match l
    case NumberLayout(raw) => ReadsNumber(inp, raw, i, depth);
    case StringLayout(raw) => ReadsString(inp, raw, i, depth);
    case NullLayout =>
      AtByte(inp.s, i, NULL_TEXT, 0);
      Dispatch(inp, i, depth);
    case BoolLayout(b) =>
      AtByte(inp.s, i, if b then TRUE_TEXT else FALSE_TEXT, 0);
      Dispatch(inp, i, depth);
    case _ =>
  }

  /** Brackets with nothing but blanks between them. */
  lemma {:induction false} ReadsBrackets(inp: Input, i: nat, open: byte, close: byte, j: nat, depth: int)
    requires (open == LBRACKET && close == RBRACKET) || (open == LBRACE && close == RBRACE)
    requires ByteAt(inp.s, i, open) && SkipBlanks(inp.s, i + 1) == j && ByteAt(inp.s, j, close) && i < j
    ensures Reads(ParseValue(inp, i, depth), depth < NESTING_LIMIT, if open == LBRACKET then Arr([]) else Obj([]), j + 1)
  {
    Dispatch(inp, i, depth);
    hide At, ParseValue, SkipBlanks, ParseItems, ParseMembers, ParseString, ParseNumber;
  }

  lemma {:induction false} ReadsEmpty(inp: Input, l: Layout, i: nat, depth: int)
    requires Valid(l, inp.strtod) && Stands(inp.s, i, l) && (l.EmptyArray? || l.EmptyObject?)
    ensures Reads(ParseValue(inp, i, depth), depth < NESTING_LIMIT, ValueOf(l, inp.strtod), i + Size(l))
  {
    hide At, ParseValue, SkipBlanks, Blank, Reads;
    BlanksSkipped(inp.s, i + 1, l.blanks);
    var square := l.EmptyArray?;
    ReadsBrackets(inp, i, if square then LBRACKET else LBRACE, if square then RBRACKET else RBRACE, i + 1 + |l.blanks|, depth);
  }

  /** From what the elements read as to what the array reads as. */
  lemma {:induction false} ReadsArray(inp: Input, i: nat, depth: int, deeper: nat, items: seq<Value>, next: nat)
    requires ByteAt(inp.s, i, LBRACKET) && i + 1 < |inp.s|
    requires depth < NESTING_LIMIT ==>
               var j := SkipBlanks(inp.s, i + 1);
               !ByteAt(inp.s, j, RBRACKET)
               && Reads(ParseItems(inp, j, depth + 1), depth + 1 + deeper <= NESTING_LIMIT, items, next)
    ensures Reads(ParseValue(inp, i, depth), depth + 1 + deeper <= NESTING_LIMIT, Arr(items), next)
  {
    Dispatch(inp, i, depth);
    hide At, ParseValue, SkipBlanks, ParseItems;
  }

  lemma {:induction false} ReadsObject(inp: Input, i: nat, depth: int, deeper: nat, members: seq<Member>, next: nat)
    requires ByteAt(inp.s, i, LBRACE) && i + 1 < |inp.s|
    requires depth < NESTING_LIMIT ==>
               var j := SkipBlanks(inp.s, i + 1);
               !ByteAt(inp.s, j, RBRACE)
               && Reads(ParseMembers(inp, j, depth + 1), depth + 1 + deeper <= NESTING_LIMIT, members, next)
    ensures Reads(ParseValue(inp, i, depth), depth + 1 + deeper <= NESTING_LIMIT, Obj(members), next)
  {
    Dispatch(inp, i, depth);
    hide At, ParseValue, SkipBlanks, ParseMembers;
  }

  lemma {:induction false} ReadsLayout(inp: Input, l: Layout, i: nat, depth: int)
    requires Valid(l, inp.strtod) && Stands(inp.s, i, l)
    requires l.NumberLayout? ==> Delimited(inp.s, i + Size(l))
    requires depth <= NESTING_LIMIT
    ensures Reads(ParseValue(inp, i, depth), depth + Depth(l) <= NESTING_LIMIT, ValueOf(l, inp.strtod), i + Size(l))
    decreases l, 1
  {
    hide At, ByteAt, Reads, ParseValue, StringToken, StringValue, NumberToken, ParseString, ItemsOf, MembersOf, ElementsStand, PairsStand,
         ValidElements, ValidPairs, ElementsDepth, PairsDepth;
    match l
    case Array(elements) => ReadsFullArray(inp, elements, i, depth);
    case Object(pairs) => ReadsFullObject(inp, pairs, i, depth);
    case EmptyArray(_) => ReadsEmpty(inp, l, i, depth);
    case EmptyObject(_) => ReadsEmpty(inp, l, i, depth);
    case _ =>
      ReadsScalar(inp, l, i, depth);
      ReadIs(ParseValue(inp, i, depth), ValueOf(l, inp.strtod), i + Size(l));
  }

  lemma {:induction false} ReadIs<T>(r: Outcome<T>, value: T, next: nat)
    requires r == Parsed(value, next)
    ensures Reads(r, true, value, next)
  {
  }

  lemma {:induction false} ReadsFullArray(inp: Input, elements: Elements, i: nat, depth: int)
    requires ValidElements(elements, inp.strtod) && Stands(inp.s, i, Array(elements)) && depth <= NESTING_LIMIT
    ensures Reads(ParseValue(inp, i, depth), depth + 1 + ElementsDepth(elements) <= NESTING_LIMIT,
                  Arr(ItemsOf(elements, inp.strtod)), i + Size(Array(elements)))
    decreases elements, 1
  {
    hide At, ParseValue, ParseArray, SkipBlanks, ParseItems, ItemsOf, ElementsStand, ValidElements, ElementsDepth;
    if depth < NESTING_LIMIT {
      ReadsElements(inp, elements, i + 1, depth + 1);
    }
    ReadsArray(inp, i, depth, ElementsDepth(elements), ItemsOf(elements, inp.strtod), i + Size(Array(elements)));
  }

  lemma {:induction false} ReadsFullObject(inp: Input, pairs: Pairs, i: nat, depth: int)
    requires ValidPairs(pairs, inp.strtod) && Stands(inp.s, i, Object(pairs)) && depth <= NESTING_LIMIT
    ensures Reads(ParseValue(inp, i, depth), depth + 1 + PairsDepth(pairs) <= NESTING_LIMIT,
                  Obj(MembersOf(pairs, inp.strtod)), i + Size(Object(pairs)))
    decreases pairs, 1
  {
    hide At, ParseValue, ParseObject, SkipBlanks, ParseMembers, MembersOf, PairsStand, ValidPairs, PairsDepth;
    if depth < NESTING_LIMIT {
      ReadsPairs(inp, pairs, i + 1, depth + 1);
    }
    ReadsObject(inp, i, depth, PairsDepth(pairs), MembersOf(pairs, inp.strtod), i + Size(Object(pairs)));
  }

  /** Blanks and the byte behind them are no number characters. */
  lemma {:induction false} DelimitedByBlanks(s: Text, n: nat, blanks: Text, close: byte)
    requires At(s, n, blanks) && Blank(blanks) && ByteAt(s, n + |blanks|, close) && !NumberChar(close)
    ensures n < |s| && Delimited(s, n)
  {
    if blanks != [] {
      AtByte(s, n, blanks, 0);
    }
  }

  /** Where the parser's skips take it around an element that `close` or a comma follows. */
  lemma {:induction false} ElementAt(s: Text, e: Element, q: nat, close: byte, strtod: Converter)
    requires ValidElement(e, strtod) && ElementStands(s, q, e)
    requires ByteAt(s, q + ElementSize(e), close) && close in {COMMA, RBRACKET}
    ensures q < |s| && SkipBlanks(s, q) == q + |e.before| && !ByteAt(s, q + |e.before|, RBRACKET)
    ensures var n := q + |e.before| + Size(e.value);
            n <= |s| && Delimited(s, n) && SkipBlanks(s, n) == q + ElementSize(e)
  {
    hide At, Blank, SkipBlanks, Valid, Stands, Delimited;
    var j := q + |e.before|;
    var n := j + Size(e.value);
    FirstByte(s, j, e.value, strtod);
    BlanksSkipped(s, q, e.before);
    BlanksSkipped(s, n, e.after);
    DelimitedByBlanks(s, n, e.after, close);
  }

  lemma {:induction false} ReadsElement(inp: Input, e: Element, q: nat, close: byte, depth: int)
    requires ValidElement(e, inp.strtod) && ElementStands(inp.s, q, e)
    requires ByteAt(inp.s, q + ElementSize(e), close) && close in {COMMA, RBRACKET}
    requires depth <= NESTING_LIMIT
    ensures q < |inp.s| && SkipBlanks(inp.s, q) == q + |e.before| && !ByteAt(inp.s, q + |e.before|, RBRACKET)
    ensures Reads(ParseValue(inp, q + |e.before|, depth), depth + Depth(e.value) <= NESTING_LIMIT,
                  ValueOf(e.value, inp.strtod), q + ElementSize(e) - |e.after|)
    ensures SkipBlanks(inp.s, q + ElementSize(e) - |e.after|) == q + ElementSize(e)
    decreases e
  {
    hide At, ParseValue, SkipBlanks, Valid, ValueOf, Depth, Stands;
    ElementAt(inp.s, e, q, close, inp.strtod);
    ReadsLayout(inp, e.value, q + |e.before|, depth);
  }

  lemma {:induction false} ReadsElements(inp: Input, es: Elements, q: nat, depth: int)
    requires ValidElements(es, inp.strtod)
    requires ElementsStand(inp.s, q, es) && ByteAt(inp.s, q + ElementsSize(es), RBRACKET)
    requires depth <= NESTING_LIMIT
    ensures q < |inp.s|
    ensures var j := SkipBlanks(inp.s, q);
            && !ByteAt(inp.s, j, RBRACKET)
            && Reads(ParseItems(inp, j, depth), depth + ElementsDepth(es) <= NESTING_LIMIT,
                     ItemsOf(es, inp.strtod), q + ElementsSize(es) + 1)
    decreases es, 0
  {
    hide At, SkipBlanks, ParseValue, ParseItems, Reads, Valid, ValueOf, Depth, Stands, ElementStands, ElementSize, Blank;
    var e, k := es.e, q + ElementSize(es.e);
    assert ValidElement(e, inp.strtod);
    var v, fits := ValueOf(e.value, inp.strtod), depth + Depth(e.value) <= NESTING_LIMIT;
    ReadsElement(inp, e, q, if es.LastElement? then RBRACKET else COMMA, depth);
    if es.MoreElements? {
      ReadsElements(inp, es.rest, k + 1, depth);
      ItemsGoOn(inp, q + |e.before|, depth, fits, v, k - |e.after|, depth + ElementsDepth(es.rest) <= NESTING_LIMIT,
                ItemsOf(es.rest, inp.strtod), k + 1 + ElementsSize(es.rest) + 1);
    } else {
      ItemsEnd(inp, q + |e.before|, depth, fits, v, k - |e.after|);
    }
  }

  /** An element that is read, with the closing bracket behind it. */
  lemma {:induction false} ItemsEnd(inp: Input, j: nat, depth: int, fits: bool, v: Value, n: nat)
    requires j <= |inp.s| && n <= |inp.s| && Reads(ParseValue(inp, j, depth), fits, v, n) && ByteAt(inp.s, SkipBlanks(inp.s, n), RBRACKET)
    ensures Reads(ParseItems(inp, j, depth), fits, [v], SkipBlanks(inp.s, n) + 1)
  {
    hide ParseValue, SkipBlanks;
  }

  /** The same with a comma behind it, and what is read behind that. */
  lemma {:induction false} ItemsGoOn(inp: Input, j: nat, depth: int, fits: bool, v: Value, n: nat,
                                     restFits: bool, rest: seq<Value>, next: nat)
    requires j <= |inp.s| && n <= |inp.s| && Reads(ParseValue(inp, j, depth), fits, v, n)
    requires var k := SkipBlanks(inp.s, n);
             && ByteAt(inp.s, k, COMMA) && Reads(ParseItems(inp, SkipBlanks(inp.s, k + 1), depth), restFits, rest, next)
    ensures Reads(ParseItems(inp, j, depth), fits && restFits, [v] + rest, next)
  {
    hide ParseValue, SkipBlanks;
  }

  lemma {:induction false} KeyAt(s: Text, p: Pair, q: nat)
    requires Blank(p.before) && StringToken(p.key) && Blank(p.afterKey) && Blank(p.beforeValue) && KeyStands(s, q, p)
    ensures q < |s| && SkipBlanks(s, q) == q + |p.before| && ByteAt(s, q + |p.before|, QUOTE)
    ensures ParseString(s, q + |p.before|) == Parsed(StringValue(p.key), q + |p.before| + |p.key|)
    ensures var d := q + |p.before| + |p.key|;
            var c := d + |p.afterKey|;
            d <= |s| && SkipBlanks(s, d) == c && ByteAt(s, c, COLON)
  {
    hide ParseString, SkipBlanks, StringToken, StringValue, Blank, At;
    var j := q + |p.before|;
    StringIsLocal(s, j, p.key);
    BlanksSkipped(s, q, p.before);
    BlanksSkipped(s, j + |p.key|, p.afterKey);
  }

  lemma {:induction false} MemberValueAt(s: Text, p: Pair, c: nat, close: byte, strtod: Converter)
    requires ValidPair(p, strtod) && At(s, c + 1, p.beforeValue)
    requires var w := c + 1 + |p.beforeValue|;
             Stands(s, w, p.value) && At(s, w + Size(p.value), p.after) && ByteAt(s, w + Size(p.value) + |p.after|, close)
    requires close in {COMMA, RBRACE}
    ensures c < |s| && SkipBlanks(s, c + 1) == c + 1 + |p.beforeValue|
    ensures var n := c + 1 + |p.beforeValue| + Size(p.value);
            n <= |s| && Delimited(s, n) && SkipBlanks(s, n) == n + |p.after|
  {
    hide At, Blank, ParseString, SkipBlanks, StringToken, StringValue, Scan, Valid, Stands, Delimited;
    var w := c + 1 + |p.beforeValue|;
    var n := w + Size(p.value);
    FirstByte(s, w, p.value, strtod);
    BlanksSkipped(s, c + 1, p.beforeValue);
    BlanksSkipped(s, n, p.after);
    DelimitedByBlanks(s, n, p.after, close);
  }

  lemma {:induction false} ReadsPair(inp: Input, p: Pair, q: nat, close: byte, depth: int)
    requires ValidPair(p, inp.strtod) && PairStands(inp.s, q, p)
    requires ByteAt(inp.s, q + PairSize(p), close) && close in {COMMA, RBRACE}
    requires depth <= NESTING_LIMIT
    ensures q + |p.before| < |inp.s|
    ensures Reads(ParseMember(inp, q + |p.before|, depth), depth + Depth(p.value) <= NESTING_LIMIT,
                  MemberOf(p, inp.strtod), q + PairSize(p) - |p.after|)
    ensures SkipBlanks(inp.s, q) == q + |p.before| && ByteAt(inp.s, q + |p.before|, QUOTE)
    ensures SkipBlanks(inp.s, q + PairSize(p) - |p.after|) == q + PairSize(p)
    decreases p
  {
    hide At, SkipBlanks, ParseString, ParseValue, Valid, ValueOf, Depth, Stands, StringToken, StringValue, Blank;
    KeyAt(inp.s, p, q);
    MemberValueAt(inp.s, p, q + |p.before| + |p.key| + |p.afterKey|, close, inp.strtod);
    ReadsLayout(inp, p.value, q + |p.before| + |p.key| + |p.afterKey| + 1 + |p.beforeValue|, depth);
  }

  lemma {:induction false} ReadsPairs(inp: Input, ps: Pairs, q: nat, depth: int)
    requires ValidPairs(ps, inp.strtod)
    requires PairsStand(inp.s, q, ps) && ByteAt(inp.s, q + PairsSize(ps), RBRACE)
    requires depth <= NESTING_LIMIT
    ensures q < |inp.s|
    ensures var j := SkipBlanks(inp.s, q);
            && j < |inp.s| && !ByteAt(inp.s, j, RBRACE)
            && Reads(ParseMembers(inp, j, depth), depth + PairsDepth(ps) <= NESTING_LIMIT,
                     MembersOf(ps, inp.strtod), q + PairsSize(ps) + 1)
    decreases ps, 0
  {
    hide At, SkipBlanks, ParseMember, ParseMembers, Reads, ValidPair, PairStands, MemberOf, Depth, PairSize;
    var p, k := ps.p, q + PairSize(ps.p);
    var m, fits := MemberOf(p, inp.strtod), depth + Depth(p.value) <= NESTING_LIMIT;
    ReadsPair(inp, p, q, if ps.LastPair? then RBRACE else COMMA, depth);
    if ps.MorePairs? {
      ReadsPairs(inp, ps.rest, k + 1, depth);
      MembersGoOn(inp, q + |p.before|, depth, fits, m, k - |p.after|, depth + PairsDepth(ps.rest) <= NESTING_LIMIT,
                  MembersOf(ps.rest, inp.strtod), k + 1 + PairsSize(ps.rest) + 1);
    } else {
      MembersEnd(inp, q + |p.before|, depth, fits, m, k - |p.after|);
    }
  }

  /** A member that is read, with the closing brace behind it. */
  lemma {:induction false} MembersEnd(inp: Input, j: nat, depth: int, fits: bool, m: Member, n: nat)
    requires j < |inp.s| && n <= |inp.s| && Reads(ParseMember(inp, j, depth), fits, m, n) && ByteAt(inp.s, SkipBlanks(inp.s, n), RBRACE)
    ensures Reads(ParseMembers(inp, j, depth), fits, [m], SkipBlanks(inp.s, n) + 1)
  {
    hide ParseMember, SkipBlanks;
  }

  /** The same with a comma behind it, and what is read behind that. */
  lemma {:induction false} MembersGoOn(inp: Input, j: nat, depth: int, fits: bool, m: Member, n: nat,
                                       restFits: bool, rest: seq<Member>, next: nat)
    requires j < |inp.s| && n <= |inp.s| && Reads(ParseMember(inp, j, depth), fits, m, n)
    requires var k := SkipBlanks(inp.s, n);
             && ByteAt(inp.s, k, COMMA) && k + 1 < |inp.s| && SkipBlanks(inp.s, k + 1) < |inp.s|
             && Reads(ParseMembers(inp, SkipBlanks(inp.s, k + 1), depth), restFits, rest, next)
    ensures Reads(ParseMembers(inp, j, depth), fits && restFits, [m] + rest, next)
  {
    hide ParseMember, SkipBlanks;
  }

  // ----- Soundness: whatever is read is a layout of the value returned

  /** `l` is a layout of `v` that stands in the buffer from `i` to `next` and nests no deeper than allowed. */
  ghost predicate Lays(inp: Input, l: Layout, i: nat, next: nat, v: Value, depth: int) {
    && Valid(l, inp.strtod) && ValueOf(l, inp.strtod) == v
    && Stands(inp.s, i, l) && i + Size(l) == next
    && depth + Depth(l) <= NESTING_LIMIT
  }

  lemma {:induction false} ValueIsNoBlank(inp: Input, i: nat, depth: int)
    requires i <= |inp.s| && ParseValue(inp, i, depth).Parsed?
    ensures i < |inp.s| && inp.s[i] > SPACE
  {
    if i < |inp.s| {
      assert forall n :: i < n <= |inp.s| ==> inp.s[i..n][0] == inp.s[i];
    }
  }

  lemma {:induction false} FoundLiteral(inp: Input, i: nat, depth: int) returns (l: Layout)
    requires i < |inp.s| && inp.s[i] !in {QUOTE, MINUS, LBRACKET, LBRACE} && !IsDigit(inp.s[i])
    requires depth <= NESTING_LIMIT && ParseValue(inp, i, depth).Parsed?
    ensures inp.s[i] > SPACE
    ensures Lays(inp, l, i, ParseValue(inp, i, depth).next, ParseValue(inp, i, depth).value, depth)
  {
    hide ParseString, ParseNumber, ParseArray, ParseObject, At;
    if At(inp.s, i, NULL_TEXT) {
      AtByte(inp.s, i, NULL_TEXT, 0);
      l := NullLayout;
    } else if At(inp.s, i, FALSE_TEXT) {
      AtByte(inp.s, i, FALSE_TEXT, 0);
      l := BoolLayout(false);
    } else {
      AtByte(inp.s, i, TRUE_TEXT, 0);
      l := BoolLayout(true);
    }
  }

  lemma {:induction false} FoundString(inp: Input, i: nat, depth: int) returns (l: Layout)
    requires i < |inp.s| && inp.s[i] == QUOTE && depth <= NESTING_LIMIT && ParseValue(inp, i, depth).Parsed?
    ensures Lays(inp, l, i, ParseValue(inp, i, depth).next, ParseValue(inp, i, depth).value, depth)
  {
    hide ParseString, StringToken, StringValue, Decode, Scan;
    Dispatch(inp, i, depth);
    hide ParseValue;
    StringFound(inp.s, i);
    l := StringLayout(inp.s[i..ParseString(inp.s, i).next]);
  }

  lemma {:induction false} FoundNumber(inp: Input, i: nat, depth: int) returns (l: Layout)
    requires i < |inp.s| && (inp.s[i] == MINUS || IsDigit(inp.s[i])) && depth <= NESTING_LIMIT
    requires ParseValue(inp, i, depth).Parsed?
    requires ParseValue(inp, i, depth).value.Number? ==> Delimited(inp.s, ParseValue(inp, i, depth).next)
    ensures Lays(inp, l, i, ParseValue(inp, i, depth).next, ParseValue(inp, i, depth).value, depth)
  {
    Dispatch(inp, i, depth);
    hide ParseValue, NumberToken, Delimited, RunLength;
    assert ParseNumber(inp, i).Parsed? ==> ParseNumber(inp, i).value.Number?;
    hide ParseNumber;
    NumberFound(inp, i);
    l := NumberLayout(inp.s[i..ParseNumber(inp, i).next]);
  }

  lemma {:induction false} FoundScalar(inp: Input, i: nat, depth: int) returns (l: Layout)
    requires i < |inp.s| && inp.s[i] != LBRACKET && inp.s[i] != LBRACE && depth <= NESTING_LIMIT
    requires ParseValue(inp, i, depth).Parsed?
    requires ParseValue(inp, i, depth).value.Number? ==> Delimited(inp.s, ParseValue(inp, i, depth).next)
    ensures inp.s[i] > SPACE
    ensures Lays(inp, l, i, ParseValue(inp, i, depth).next, ParseValue(inp, i, depth).value, depth)
  {
    hide ParseValue, Lays, Delimited;
    if inp.s[i] == QUOTE {
      l := FoundString(inp, i, depth);
    } else if inp.s[i] == MINUS || IsDigit(inp.s[i]) {
      l := FoundNumber(inp, i, depth);
    } else {
      l := FoundLiteral(inp, i, depth);
    }
  }

  /** What an array that was read says about its elements. */
  lemma {:induction false} ArrayRead(inp: Input, i: nat, depth: int)
    requires ByteAt(inp.s, i, LBRACKET) && ParseValue(inp, i, depth).Parsed?
    ensures i + 1 < |inp.s| && depth < NESTING_LIMIT
    ensures var j := SkipBlanks(inp.s, i + 1);
            var r := ParseItems(inp, j, depth + 1);
            ParseValue(inp, i, depth) == if ByteAt(inp.s, j, RBRACKET) then Parsed(Arr([]), j + 1)
                                         else if r.Parsed? then Parsed(Arr(r.value), r.next)
                                         else Failed(i)
  {
    Dispatch(inp, i, depth);
    hide At, ParseValue, SkipBlanks, ParseItems;
  }

  lemma {:induction false} ObjectRead(inp: Input, i: nat, depth: int)
    requires ByteAt(inp.s, i, LBRACE) && ParseValue(inp, i, depth).Parsed?
    ensures i + 1 < |inp.s| && depth < NESTING_LIMIT
    ensures var j := SkipBlanks(inp.s, i + 1);
            var r := ParseMembers(inp, j, depth + 1);
            ParseValue(inp, i, depth) == if ByteAt(inp.s, j, RBRACE) then Parsed(Obj([]), j + 1)
                                         else if r.Parsed? then Parsed(Obj(r.value), r.next)
                                         else Failed(i)
  {
    Dispatch(inp, i, depth);
    hide At, ParseValue, SkipBlanks, ParseMembers;
  }

  lemma {:induction false} EmptyLays(inp: Input, i: nat, square: bool, depth: int)
    requires ByteAt(inp.s, i, if square then LBRACKET else LBRACE) && i + 1 < |inp.s| && depth < NESTING_LIMIT
    requires ByteAt(inp.s, SkipBlanks(inp.s, i + 1), if square then RBRACKET else RBRACE)
    ensures var j := SkipBlanks(inp.s, i + 1);
            var blanks := inp.s[i + 1..j];
            if square then Lays(inp, EmptyArray(blanks), i, j + 1, Arr([]), depth)
            else Lays(inp, EmptyObject(blanks), i, j + 1, Obj([]), depth)
  {
    BlanksFound(inp.s, i + 1);
    hide SkipBlanks, Blank, At;
  }

  lemma {:induction false} ArrayLays(inp: Input, es: Elements, i: nat, depth: int)
    requires ByteAt(inp.s, i, LBRACKET) && ElementsStand(inp.s, i + 1, es)
    requires ValidElements(es, inp.strtod) && depth + 1 + ElementsDepth(es) <= NESTING_LIMIT
    requires ByteAt(inp.s, i + 1 + ElementsSize(es), RBRACKET)
    ensures Lays(inp, Array(es), i, i + ElementsSize(es) + 2, Arr(ItemsOf(es, inp.strtod)), depth)
  {
    hide ByteAt, ElementsStand, ValidElements, ElementsDepth, ElementsSize, ItemsOf;
  }

  lemma {:induction false} ObjectLays(inp: Input, ps: Pairs, i: nat, depth: int)
    requires ByteAt(inp.s, i, LBRACE) && PairsStand(inp.s, i + 1, ps)
    requires ValidPairs(ps, inp.strtod) && depth + 1 + PairsDepth(ps) <= NESTING_LIMIT
    requires ByteAt(inp.s, i + 1 + PairsSize(ps), RBRACE)
    ensures Lays(inp, Object(ps), i, i + PairsSize(ps) + 2, Obj(MembersOf(ps, inp.strtod)), depth)
  {
    hide ByteAt, PairsStand, ValidPairs, PairsDepth, PairsSize, MembersOf;
  }

  lemma {:induction false} FoundArray(inp: Input, i: nat, depth: int) returns (l: Layout)
    requires ByteAt(inp.s, i, LBRACKET) && ParseValue(inp, i, depth).Parsed?
    ensures Lays(inp, l, i, ParseValue(inp, i, depth).next, ParseValue(inp, i, depth).value, depth)
    decreases |inp.s| - i, 0
  {
    hide *;
    ArrayRead(inp, i, depth);
    if ByteAt(inp.s, SkipBlanks(inp.s, i + 1), RBRACKET) {
      EmptyLays(inp, i, true, depth);
      l := EmptyArray(inp.s[i + 1..SkipBlanks(inp.s, i + 1)]);
    } else {
      var es := FoundElements(inp, i + 1, depth + 1);
      ArrayLays(inp, es, i, depth);
      l := Array(es);
    }
  }

  lemma {:induction false} FoundObject(inp: Input, i: nat, depth: int) returns (l: Layout)
    requires ByteAt(inp.s, i, LBRACE) && ParseValue(inp, i, depth).Parsed?
    ensures Lays(inp, l, i, ParseValue(inp, i, depth).next, ParseValue(inp, i, depth).value, depth)
    decreases |inp.s| - i, 0
  {
    hide *;
    ObjectRead(inp, i, depth);
    if ByteAt(inp.s, SkipBlanks(inp.s, i + 1), RBRACE) {
      EmptyLays(inp, i, false, depth);
      l := EmptyObject(inp.s[i + 1..SkipBlanks(inp.s, i + 1)]);
    } else {
      var ps := FoundPairs(inp, i + 1, depth + 1);
      ObjectLays(inp, ps, i, depth);
      l := Object(ps);
    }
  }

  lemma {:induction false} FoundLayout(inp: Input, i: nat, depth: int) returns (l: Layout)
    requires i <= |inp.s| && depth <= NESTING_LIMIT && ParseValue(inp, i, depth).Parsed?
    requires ParseValue(inp, i, depth).value.Number? ==> Delimited(inp.s, ParseValue(inp, i, depth).next)
    ensures i < |inp.s| && inp.s[i] > SPACE
    ensures Lays(inp, l, i, ParseValue(inp, i, depth).next, ParseValue(inp, i, depth).value, depth)
    decreases |inp.s| - i, 1
  {
    ValueIsNoBlank(inp, i, depth);
    hide ParseValue, Lays, Delimited;
    if inp.s[i] == LBRACKET {
      l := FoundArray(inp, i, depth);
    } else if inp.s[i] == LBRACE {
      l := FoundObject(inp, i, depth);
    } else {
      l := FoundScalar(inp, i, depth);
    }
  }

  lemma {:induction false} FoundElement(inp: Input, q: nat, depth: int) returns (e: Element)
    requires q <= |inp.s| && depth <= NESTING_LIMIT
    requires ParseValue(inp, SkipBlanks(inp.s, q), depth).Parsed?
    requires var k := SkipBlanks(inp.s, ParseValue(inp, SkipBlanks(inp.s, q), depth).next);
             ByteAt(inp.s, k, COMMA) || ByteAt(inp.s, k, RBRACKET)
    ensures ValidElement(e, inp.strtod) && ElementStands(inp.s, q, e)
    ensures depth + Depth(e.value) <= NESTING_LIMIT
    ensures var r := ParseValue(inp, SkipBlanks(inp.s, q), depth);
            ValueOf(e.value, inp.strtod) == r.value && q + ElementSize(e) == SkipBlanks(inp.s, r.next)
    decreases |inp.s| - q, 2
  {
    hide ParseValue, SkipBlanks, Stands, Valid, ValueOf, Depth, At, Blank, Delimited;
    var j := SkipBlanks(inp.s, q);
    var n := ParseValue(inp, j, depth).next;
    BlanksFound(inp.s, n);
    var l := FoundLayout(inp, j, depth);
    BlanksFound(inp.s, q);
    e := Element(inp.s[q..j], l, inp.s[n..SkipBlanks(inp.s, n)]);
  }

  /** What a list that was read says about its first element and what is behind. */
  lemma {:induction false} ItemsRead(inp: Input, j: nat, depth: int)
    requires j <= |inp.s| && ParseItems(inp, j, depth).Parsed?
    ensures ParseValue(inp, j, depth).Parsed?
    ensures var v := ParseValue(inp, j, depth);
            var k := SkipBlanks(inp.s, v.next);
            && (ByteAt(inp.s, k, COMMA) || ByteAt(inp.s, k, RBRACKET))
            && (ByteAt(inp.s, k, COMMA) ==>
                  var r := ParseItems(inp, SkipBlanks(inp.s, k + 1), depth);
                  r.Parsed? && ParseItems(inp, j, depth) == Parsed([v.value] + r.value, r.next))
            && (ByteAt(inp.s, k, RBRACKET) ==> ParseItems(inp, j, depth) == Parsed([v.value], k + 1))
  {
    hide ParseValue, SkipBlanks;
  }

  lemma {:induction false} FoundElements(inp: Input, q: nat, depth: int) returns (es: Elements)
    requires q <= |inp.s| && depth <= NESTING_LIMIT
    requires ParseItems(inp, SkipBlanks(inp.s, q), depth).Parsed?
    ensures ValidElements(es, inp.strtod) && ElementsStand(inp.s, q, es) && depth + ElementsDepth(es) <= NESTING_LIMIT
    ensures var r := ParseItems(inp, SkipBlanks(inp.s, q), depth);
            && ItemsOf(es, inp.strtod) == r.value
            && ByteAt(inp.s, q + ElementsSize(es), RBRACKET) && q + ElementsSize(es) + 1 == r.next
    decreases |inp.s| - q, 3
  {
    hide ParseValue, ParseItems, SkipBlanks, ElementStands, ValidElement, ElementSize, ValueOf, Depth;
    ItemsRead(inp, SkipBlanks(inp.s, q), depth);
    var e := FoundElement(inp, q, depth);
    var k := q + ElementSize(e);
    if ByteAt(inp.s, k, COMMA) {
      var rest := FoundElements(inp, k + 1, depth);
      es := MoreElements(e, rest);
    } else {
      es := LastElement(e);
    }
  }

  lemma {:induction false} MembersRead(inp: Input, j: nat, depth: int)
    requires j < |inp.s| && ParseMembers(inp, j, depth).Parsed?
    ensures ParseMember(inp, j, depth).Parsed?
    ensures var m := ParseMember(inp, j, depth);
            var k := SkipBlanks(inp.s, m.next);
            && (ByteAt(inp.s, k, COMMA) || ByteAt(inp.s, k, RBRACE))
            && (ByteAt(inp.s, k, COMMA) ==>
                  && k + 1 < |inp.s|
                  && var r := ParseMembers(inp, SkipBlanks(inp.s, k + 1), depth);
                     r.Parsed? && ParseMembers(inp, j, depth) == Parsed([m.value] + r.value, r.next))
            && (ByteAt(inp.s, k, RBRACE) ==> ParseMembers(inp, j, depth) == Parsed([m.value], k + 1))
  {
    hide ParseMember, SkipBlanks;
  }

  lemma {:induction false} FoundPairs(inp: Input, q: nat, depth: int) returns (ps: Pairs)
    requires q < |inp.s| && depth <= NESTING_LIMIT
    requires ParseMembers(inp, SkipBlanks(inp.s, q), depth).Parsed?
    ensures ValidPairs(ps, inp.strtod) && PairsStand(inp.s, q, ps) && depth + PairsDepth(ps) <= NESTING_LIMIT
    ensures var r := ParseMembers(inp, SkipBlanks(inp.s, q), depth);
            && MembersOf(ps, inp.strtod) == r.value
            && ByteAt(inp.s, q + PairsSize(ps), RBRACE) && q + PairsSize(ps) + 1 == r.next
    decreases |inp.s| - q, 3
  {
    hide ParseMember, ParseMembers, SkipBlanks, PairStands, ValidPair, PairSize, MemberOf, Depth;
    MembersRead(inp, SkipBlanks(inp.s, q), depth);
    var p := FoundPair(inp, q, depth);
    var k := q + PairSize(p);
    if ByteAt(inp.s, k, COMMA) {
      var rest := FoundPairs(inp, k + 1, depth);
      ps := MorePairs(p, rest);
    } else {
      ps := LastPair(p);
    }
  }

  /** Where the key, the colon and the value of a member that was read stand. */
  lemma {:induction false} MemberRead(inp: Input, j: nat, depth: int) returns (d: nat, c: nat, w: nat)
    requires j < |inp.s| && ParseMember(inp, j, depth).Parsed?
    ensures j < d <= c < w < |inp.s| && c == SkipBlanks(inp.s, d) && ByteAt(inp.s, c, COLON) && w == SkipBlanks(inp.s, c + 1)
    ensures StringToken(inp.s[j..d]) && At(inp.s, j, inp.s[j..d]) && inp.s[w] > SPACE && inp.s[j] > SPACE
    ensures var v := ParseValue(inp, w, depth);
            v.Parsed? && ParseMember(inp, j, depth) == Parsed(Member(StringValue(inp.s[j..d]), v.value), v.next)
  {
    hide ParseValue, SkipBlanks, StringToken, StringValue;
    d := ParseString(inp.s, j).next;
    c := SkipBlanks(inp.s, d);
    w := SkipBlanks(inp.s, c + 1);
    StringFound(inp.s, j);
    ValueIsNoBlank(inp, w, depth);
  }

  lemma {:induction false} FoundPair(inp: Input, q: nat, depth: int) returns (p: Pair)
    requires q < |inp.s| && depth <= NESTING_LIMIT
    requires ParseMember(inp, SkipBlanks(inp.s, q), depth).Parsed?
    requires var k := SkipBlanks(inp.s, ParseMember(inp, SkipBlanks(inp.s, q), depth).next);
             ByteAt(inp.s, k, COMMA) || ByteAt(inp.s, k, RBRACE)
    ensures ValidPair(p, inp.strtod) && PairStands(inp.s, q, p)
    ensures depth + Depth(p.value) <= NESTING_LIMIT
    ensures var r := ParseMember(inp, SkipBlanks(inp.s, q), depth);
            MemberOf(p, inp.strtod) == r.value && q + PairSize(p) == SkipBlanks(inp.s, r.next)
    decreases |inp.s| - q, 2
  {
    hide ParseValue, SkipBlanks, Stands, Valid, ValueOf, Depth, Blank, Delimited, ParseString, StringToken, StringValue, ParseMember, At;
    var s := inp.s;
    var j := SkipBlanks(s, q);
    var d, c, w := MemberRead(inp, j, depth);
    var n := ParseValue(inp, w, depth).next;
    BlanksFound(s, n);
    var l := FoundLayout(inp, w, depth);
    BlanksFound(s, q);
    BlanksFound(s, d);
    BlanksFound(s, c + 1);
    p := Pair(s[q..j], s[j..d], s[d..c], s[c + 1..w], l, s[n..SkipBlanks(s, n)]);
  }

  // ----- The parser decides the grammar

  /** `l` is a layout of `v`, of the nesting allowed at `depth`, whose text stands from `i` to `next`. */
  ghost predicate LayoutOf(inp: Input, l: Layout, i: nat, next: nat, v: Value, depth: int) {
    && Valid(l, inp.strtod) && ValueOf(l, inp.strtod) == v
    && At(inp.s, i, TextOf(l)) && next == i + |TextOf(l)|
    && depth + Depth(l) <= NESTING_LIMIT
  }

  lemma {:induction false} NumberLayoutIsNumber(l: Layout, strtod: Converter)
    requires Valid(l, strtod)
    ensures l.NumberLayout? ==> ValueOf(l, strtod).Number?
  {
  }

  /**
   * A value is read as `v`, up to `next`, exactly when the bytes up to `next` are a layout of `v` that nests within the
   * limit. Where a number character follows a number, strtod decides alone where the number ends, so that case is set apart.
   */
  lemma {:induction false} ParserDecidesGrammar(inp: Input, i: nat, depth: int, v: Value, next: nat)
    requires i <= |inp.s| && depth <= NESTING_LIMIT && (v.Number? ==> Delimited(inp.s, next))
    ensures ParseValue(inp, i, depth) == Parsed(v, next) <==> exists l :: LayoutOf(inp, l, i, next, v, depth)
  {
    hide ParseValue, TextOf, Valid, ValueOf, Stands, Depth, Size, At, Delimited;
    if ParseValue(inp, i, depth) == Parsed(v, next) {
      var l := FoundLayout(inp, i, depth);
      StandsIffAt(inp.s, i, l);
      assert LayoutOf(inp, l, i, next, v, depth);
    }
    if l :| LayoutOf(inp, l, i, next, v, depth) {
      StandsIffAt(inp.s, i, l);
      NumberLayoutIsNumber(l, inp.strtod);
      ReadsLayout(inp, l, i, depth);
    }
  }

  /** A layout that nests too deeply is rejected, wherever it stands. */
  lemma {:induction false} TooDeepIsRejected(inp: Input, l: Layout, i: nat, depth: int)
    requires Valid(l, inp.strtod) && At(inp.s, i, TextOf(l)) && depth <= NESTING_LIMIT < depth + Depth(l)
    ensures ParseValue(inp, i, depth).Failed?
  {
    StandsIffAt(inp.s, i, l);
    ReadsLayout(inp, l, i, depth);
  }

  /** The grammar is unambiguous: layouts with the same text stand for the same value, however deeply they nest. */
  lemma {:induction false} LayoutsAreUnambiguous(l: Layout, m: Layout, strtod: Converter)
    requires Valid(l, strtod) && Valid(m, strtod) && TextOf(l) == TextOf(m)
    ensures ValueOf(l, strtod) == ValueOf(m, strtod)
  {
    hide Valid, ValueOf, TextOf, Depth;
    var inp := Input(TextOf(l), strtod);
    var depth := NESTING_LIMIT - Max(Depth(l), Depth(m));
    WholeTextIsRead(inp, l, depth);
    WholeTextIsRead(inp, m, depth);
  }

  lemma {:induction false} WholeTextIsRead(inp: Input, l: Layout, depth: int)
    requires Valid(l, inp.strtod) && inp.s == TextOf(l) && depth + Depth(l) <= NESTING_LIMIT
    ensures ParseValue(inp, 0, depth) == Parsed(ValueOf(l, inp.strtod), |inp.s|)
  {
    hide Valid, ValueOf, TextOf, Depth, ParseValue;
    assert At(inp.s, 0, TextOf(l));
    StandsIffAt(inp.s, 0, l);
    ReadsLayout(inp, l, 0, depth);
  }

  // ----- Whole documents

  lemma {:induction false} StartAfterBlanks(s: Text, bom: Text, lead: Text)
    requires bom == [] || (bom == BYTE_ORDER_MARK && 5 <= |s|)
    requires At(s, 0, bom) && At(s, |bom|, lead) && Blank(lead)
    requires |bom| + |lead| < |s| && SPACE < s[|bom| + |lead|] < 0x80
    ensures Start(s) == |bom| + |lead|
  {
    if bom == [] && At(s, 0, BYTE_ORDER_MARK) {
      AtByte(s, 0, BYTE_ORDER_MARK, 0);
      assert s[0] == 0xEF;
      if lead != [] {
        AtByte(s, 0, lead, 0);
      }
      assert false;
    }
    BlanksSkipped(s, |bom|, lead);
  }

  /** Blanks up to the end of the buffer are skipped except for the last one. */
  lemma {:induction false} BlanksToTheEnd(s: Text, i: nat)
    requires i < |s| && forall k :: i <= k < |s| ==> s[k] <= SPACE
    ensures SkipBlanks(s, i) == |s| - 1
  {
  }

  lemma {:induction false} FirstByteIsAscii(s: Text, i: nat, l: Layout, strtod: Converter)
    requires Valid(l, strtod) && Stands(s, i, l)
    ensures i < |s| && SPACE < s[i] < 0x80
  {
    FirstByte(s, i, l, strtod);
    match l
    case NumberLayout(raw) => AtByte(s, i, raw, 0);
    case StringLayout(raw) => AtByte(s, i, raw, 0);
    case NullLayout => AtByte(s, i, NULL_TEXT, 0);
    case BoolLayout(b) => AtByte(s, i, if b then TRUE_TEXT else FALSE_TEXT, 0);
    case _ =>
  }

  lemma {:induction false} PartsStand(s: Text, a: Text, b: Text, c: Text, d: Text)
    requires s == a + (b + (c + d))
    ensures At(s, 0, a) && At(s, |a|, b) && At(s, |a| + |b|, c) && At(s, |a| + |b| + |c|, d)
    ensures |s| == |a| + |b| + |c| + |d|
  {
    assert At(s, 0, a + (b + (c + d)));
    AtSplit(s, 0, a, b + (c + d));
    AtSplit(s, |a|, b, c + d);
    AtSplit(s, |a| + |b|, c, d);
  }

  /**
   * A C string that holds one layout, perhaps behind a byte order mark, with blanks around it: it parses exactly when the
   * nesting is within the limit. Without the demand for a terminator parsing ends right behind the value, with it at the NUL.
   */
  lemma {:induction false} DocumentIsRead(s: Text, bom: Text, lead: Text, l: Layout, trail: Text, strtod: Converter, requireNul: bool)
    requires s == bom + (lead + (TextOf(l) + (trail + [NUL])))
    requires bom == [] || bom == BYTE_ORDER_MARK
    requires Blank(lead) && Blank(trail) && Valid(l, strtod)
    ensures var r := ParseText(Input(s, strtod), requireNul);
            if Depth(l) > NESTING_LIMIT then r.Failed?
            else r == Parsed(ValueOf(l, strtod), if requireNul then |s| - 1 else |bom| + |lead| + |TextOf(l)|)
  {
    hide *;
    PartsStand(s, bom, lead, TextOf(l), trail + [NUL]);
    StandsIffAt(s, |bom| + |lead|, l);
    StandingDocumentIsRead(Input(s, strtod), bom, lead, l, trail, requireNul);
  }

  lemma {:induction false} StandingDocumentIsRead(inp: Input, bom: Text, lead: Text, l: Layout, trail: Text, requireNul: bool)
    requires bom == [] || bom == BYTE_ORDER_MARK
    requires Blank(lead) && Blank(trail) && Valid(l, inp.strtod)
    requires At(inp.s, 0, bom) && At(inp.s, |bom|, lead) && Stands(inp.s, |bom| + |lead|, l)
    requires var n := |bom| + |lead| + Size(l);
             At(inp.s, n, trail + [NUL]) && n + |trail| + 1 == |inp.s|
    ensures var r := ParseText(inp, requireNul);
            if Depth(l) > NESTING_LIMIT then r.Failed?
            else r == Parsed(ValueOf(l, inp.strtod), if requireNul then |inp.s| - 1 else |bom| + |lead| + Size(l))
  {
    var s := inp.s;
    var i := |bom| + |lead|;
    var n := i + Size(l);
    hide At, Valid, Stands, Blank, Start, SkipBlanks, ParseValue, ParseText, ValueOf, Depth, Size;
    FirstByteIsAscii(s, i, l, inp.strtod);
    TrailIsBlank(s, n, trail);
    StartAfterBlanks(s, bom, lead);
    BlanksToTheEnd(s, n);
    ReadsLayout(inp, l, i, 0);
    DocumentOutcome(inp, i, n, ValueOf(l, inp.strtod), Depth(l) <= NESTING_LIMIT, requireNul);
  }

  lemma {:induction false} TrailIsBlank(s: Text, n: nat, trail: Text)
    requires At(s, n, trail + [NUL]) && n + |trail| + 1 == |s| && Blank(trail)
    ensures n < |s| && s[|s| - 1] == NUL && Delimited(s, n)
    ensures forall k :: n <= k < |s| ==> s[k] <= SPACE
  {
    forall k | n <= k < |s| ensures s[k] <= SPACE {
      AtByte(s, n, trail + [NUL], k - n);
    }
    AtByte(s, n, trail + [NUL], |trail|);
  }

  lemma {:induction false} DocumentOutcome(inp: Input, i: nat, n: nat, v: Value, fits: bool, requireNul: bool)
    requires 0 < |inp.s| && Start(inp.s) == i && Reads(ParseValue(inp, i, 0), fits, v, n)
    requires n < |inp.s| && SkipBlanks(inp.s, n) == |inp.s| - 1 && inp.s[|inp.s| - 1] == NUL
    ensures var r := ParseText(inp, requireNul);
            if !fits then r.Failed? else r == Parsed(v, if requireNul then |inp.s| - 1 else n)
  {
    hide ParseValue, SkipBlanks, Start;
  }

  /** The buffer is a layout with blanks around it, perhaps a byte order mark in front, and a NUL at the end. */
  ghost predicate Document(s: Text, bom: Text, lead: Text, l: Layout, trail: Text, strtod: Converter) {
    && s == bom + (lead + (TextOf(l) + (trail + [NUL])))
    && (bom == [] || bom == BYTE_ORDER_MARK)
    && Blank(lead) && Blank(trail) && Valid(l, strtod)
  }

  ghost predicate DocumentOf(s: Text, v: Value, strtod: Converter) {
    exists bom, lead, l, trail :: Document(s, bom, lead, l, trail, strtod) && Depth(l) <= NESTING_LIMIT && ValueOf(l, strtod) == v
  }

  /** When skipping ends at a NUL, there was nothing but blanks up to the end. */
  lemma {:induction false} NulEndsBlanks(s: Text, n: nat)
    requires n <= |s| && SkipBlanks(s, n) < |s| && s[SkipBlanks(s, n)] == NUL
    ensures n < |s| && SkipBlanks(s, n) == |s| - 1 && Blank(s[n..|s| - 1]) && Delimited(s, n)
  {
  }

  lemma {:induction false} FiveParts(s: Text, b: nat, i: nat, n: nat)
    requires b <= i <= n < |s| && s[|s| - 1] == NUL
    ensures s == s[..b] + (s[b..i] + (s[i..n] + (s[n..|s| - 1] + [NUL])))
  {
  }

  /** What a whole buffer that was read says about its value. */
  lemma {:induction false} TextRead(inp: Input)
    requires ParseText(inp, true).Parsed?
    ensures 0 < |inp.s|
    ensures var r := ParseValue(inp, Start(inp.s), 0);
            && r.Parsed? && r.value == ParseText(inp, true).value
            && SkipBlanks(inp.s, r.next) == ParseText(inp, true).next < |inp.s|
            && inp.s[SkipBlanks(inp.s, r.next)] == NUL
  {
    hide ParseValue, SkipBlanks, Start;
  }

  lemma {:induction false} DocumentFound(s: Text, strtod: Converter) returns (bom: Text, lead: Text, l: Layout, trail: Text)
    requires ParseText(Input(s, strtod), true).Parsed?
    ensures Document(s, bom, lead, l, trail, strtod) && Depth(l) <= NESTING_LIMIT
    ensures ParseText(Input(s, strtod), true) == Parsed(ValueOf(l, strtod), |s| - 1)
  {
    var inp := Input(s, strtod);
    hide ParseText, ParseValue, Start, SkipBlanks, TextOf, Valid, ValueOf, Depth, Stands, Size, Blank, Delimited, At;
    TextRead(inp);
    var i := Start(s);
    var n := ParseValue(inp, i, 0).next;
    NulEndsBlanks(s, n);
    l := FoundLayout(inp, i, 0);
    var b := StartFound(s);
    BlanksFound(s, b);
    StandsIffAt(s, i, l);
    TextStands(s, i, n, TextOf(l));
    FiveParts(s, b, i, n);
    bom, lead, trail := s[..b], s[b..i], s[n..|s| - 1];
  }

  lemma {:induction false} StartFound(s: Text) returns (b: nat)
    requires 0 < |s|
    ensures b <= |s| && (s[..b] == [] || s[..b] == BYTE_ORDER_MARK) && Start(s) == SkipBlanks(s, b)
  {
    hide SkipBlanks;
    b := if 5 <= |s| && At(s, 0, BYTE_ORDER_MARK) then 3 else 0;
  }

  lemma {:induction false} TextStands(s: Text, i: nat, n: nat, t: Text)
    requires At(s, i, t) && n == i + |t|
    ensures n <= |s| && s[i..n] == t
  {
  }

  /** With the demand for a terminator a buffer is parsed to a value exactly when it is a document of it within the limit. */
  lemma {:induction false} ParserDecidesDocuments(s: Text, v: Value, strtod: Converter)
    ensures var r := ParseText(Input(s, strtod), true);
            && (r.Parsed? && r.value == v <==> DocumentOf(s, v, strtod))
            && (r.Parsed? ==> r.next == |s| - 1)
  {
    hide ParseText, TextOf, Valid, ValueOf, Depth;
    if ParseText(Input(s, strtod), true).Parsed? {
      var bom, lead, l, trail := DocumentFound(s, strtod);
      assert Document(s, bom, lead, l, trail, strtod);
    }
    if DocumentOf(s, v, strtod) {
      var bom, lead, l, trail :| Document(s, bom, lead, l, trail, strtod) && Depth(l) <= NESTING_LIMIT && ValueOf(l, strtod) == v;
      DocumentIsRead(s, bom, lead, l, trail, strtod, true);
    }
  }
}
