/** Where a parser that fails says that it failed. */
module ParseErrors {
  import opened Ascii
  import opened Values
  import opened StringSpec
  import opened Tokens
  import opened ParseSpec
  import opened Layouts
  import opened Grammar

  /** A byte that starts no value is where the failure is. */
  lemma {:induction false} NoValueStarts(inp: Input, i: nat, depth: int)
    requires i < |inp.s| && inp.s[i] !in {0x22, 0x2D, 0x5B, 0x7B, 0x6E, 0x74, 0x66} && !(0x30 <= inp.s[i] <= 0x39)
    ensures ParseValue(inp, i, depth) == Failed(i)
  {
    assert !At(inp.s, i, NULL_TEXT) && !At(inp.s, i, TRUE_TEXT) && !At(inp.s, i, FALSE_TEXT) by {
      LiteralsStart(inp.s, i);
    }
  }

  lemma {:induction false} LiteralsStart(s: Text, i: nat)
    ensures At(s, i, NULL_TEXT) ==> i < |s| && s[i] == 0x6E
    ensures At(s, i, TRUE_TEXT) ==> i < |s| && s[i] == 0x74
    ensures At(s, i, FALSE_TEXT) ==> i < |s| && s[i] == 0x66
  {
    if At(s, i, NULL_TEXT) {
      AtByte(s, i, NULL_TEXT, 0);
    }
    if At(s, i, TRUE_TEXT) {
      AtByte(s, i, TRUE_TEXT, 0);
    }
    if At(s, i, FALSE_TEXT) {
      AtByte(s, i, FALSE_TEXT, 0);
    }
  }

  /** A string without a closing quote fails right behind its opening quote. */
  lemma {:induction false} OpenStringIsReported(s: Text, i: nat)
    requires i < |s| && s[i] == 0x22 && forall e :: i < e < |s| && s[e] == 0x22 ==> !Closed(s[i + 1..e])
    ensures ParseString(s, i) == Failed(i + 1)
  {
    var e := Scan(s, i + 1);
    if e.Some? {
      ScanCloses(s, i + 1, e.value);
    }
  }

  lemma {:induction false} StuckBehindPieces(raw: Text, k: nat, ps: seq<Piece>)
    requires ValidPieces(ps) && At(raw, k, PiecesText(ps))
    requires var p := k + |PiecesText(ps)|; p + 1 < |raw| && Unit(raw, p) == Stuck
    ensures Decode(raw, k) == Failed(k + |PiecesText(ps)|)
    decreases |ps|
  {
    hide At, PieceText, Unit;
    if ps != [] {
      assert ValidPiece(ps[0]);
      AtSplit(raw, k, PieceText(ps[0]), PiecesText(ps[1..]));
      PieceTextLength(ps[0]);
      UnitOfPiece(raw, k, ps[0]);
      StuckBehindPieces(raw, k + |PieceText(ps[0])|, ps[1..]);
    }
  }

  /** In a string an escape of a letter that there is not fails at its backslash. */
  lemma {:induction false} UnknownEscapeIsReported(ps: seq<Piece>, letter: byte, more: Text)
    requires ValidPieces(ps) && letter !in {0x22, 0x5C, 0x2F, 0x62, 0x66, 0x6E, 0x72, 0x74, 0x75}
    requires Closed(PiecesText(ps) + ([0x5C, letter] + more))
    ensures ParseString(Quoted(PiecesText(ps) + ([0x5C, letter] + more)), 0) == Failed(1 + |PiecesText(ps)|)
  {
    hide Decode, Scan, PiecesText, Closed, Unit;
    var u := PiecesText(ps);
    var t := u + ([0x5C, letter] + more);
    var raw := Quoted(t);
    QuotedParts(raw, t);
    ScanCloses(raw, 1, |raw| - 1);
    var inner := raw[1..|raw|];
    assert inner == t + [QUOTE];
    EscapeBehind(inner, u, letter, more);
    StuckBehindPieces(inner, 0, ps);
  }

  lemma {:induction false} EscapeBehind(inner: Text, u: Text, letter: byte, more: Text)
    requires inner == (u + ([0x5C, letter] + more)) + [QUOTE]
    requires letter !in {0x22, 0x5C, 0x2F, 0x62, 0x66, 0x6E, 0x72, 0x74, 0x75}
    ensures At(inner, 0, u) && |u| + 1 < |inner| && Unit(inner, |u|) == Stuck
  {
    hide Utf16Literal;
    assert inner[0..|u|] == u;
    assert inner[|u|] == 0x5C && inner[|u| + 1] == letter;
  }

  /**
   * Bytes behind a value fail at the first one that is no blank, if a terminator is demanded; otherwise they are left alone.
   */
  lemma {:induction false} TrailingBytesAreReported(s: Text, bom: Text, lead: Text, l: Layout, trail: Text, b: byte, rest: Text, strtod: Converter)
    requires s == bom + (lead + (TextOf(l) + (trail + ([b] + rest))))
    requires bom == [] || bom == [0xEF, 0xBB, 0xBF]
    requires Blank(lead) && Blank(trail) && Valid(l, strtod) && Depth(l) <= NESTING_LIMIT
    requires b > 32 && (l.NumberLayout? && trail == [] ==> !NumberChar(b))
    ensures ParseText(Input(s, strtod), true) == Failed(|bom| + |lead| + |TextOf(l)| + |trail|)
    ensures ParseText(Input(s, strtod), false) == Parsed(ValueOf(l, strtod), |bom| + |lead| + |TextOf(l)|)
  {
    hide TextOf, Valid, Stands, ValueOf, Depth, ParseText, NumberChar, Blank, At, Size;
    FiveStand(s, bom, lead, TextOf(l), trail, b, rest);
    StandsIffAt(s, |bom| + |lead|, l);
    SomeSize(l, strtod);
    StandingValueIsRead(Input(s, strtod), bom, lead, l, trail, b);
  }

  lemma {:induction false} FiveStand(s: Text, bom: Text, lead: Text, t: Text, trail: Text, b: byte, rest: Text)
    requires s == bom + (lead + (t + (trail + ([b] + rest))))
    ensures At(s, 0, bom) && At(s, |bom|, lead) && At(s, |bom| + |lead|, t)
    ensures var n := |bom| + |lead| + |t|; At(s, n, trail) && ByteAt(s, n + |trail|, b)
    ensures |s| == |bom| + |lead| + |t| + |trail| + 1 + |rest|
  {
    hide At;
    PartsStand(s, bom, lead, t, trail + ([b] + rest));
    AtSplit(s, |bom| + |lead| + |t|, trail, [b] + rest);
    AtByte(s, |bom| + |lead| + |t| + |trail|, [b] + rest, 0);
  }

  lemma {:induction false} SomeSize(l: Layout, strtod: Converter)
    requires Valid(l, strtod)
    ensures 0 < Size(l)
  {
    if l.StringLayout? {
      TokensAreRead(l.raw);
    }
    hide StringToken;
  }

  lemma {:induction false} StandingValueIsRead(inp: Input, bom: Text, lead: Text, l: Layout, trail: Text, b: byte)
    requires bom == [] || (bom == [0xEF, 0xBB, 0xBF] && 5 <= |inp.s|)
    requires Blank(lead) && Blank(trail) && Valid(l, inp.strtod) && Depth(l) <= NESTING_LIMIT
    requires b > 32 && (l.NumberLayout? && trail == [] ==> !NumberChar(b))
    requires At(inp.s, 0, bom) && At(inp.s, |bom|, lead) && Stands(inp.s, |bom| + |lead|, l)
    requires var n := |bom| + |lead| + Size(l); At(inp.s, n, trail) && ByteAt(inp.s, n + |trail|, b)
    ensures ParseText(inp, true) == Failed(|bom| + |lead| + Size(l) + |trail|)
    ensures ParseText(inp, false) == Parsed(ValueOf(l, inp.strtod), |bom| + |lead| + Size(l))
  {
    var s := inp.s;
    var i := |bom| + |lead|;
    var n := i + Size(l);
    hide At, Valid, Stands, Blank, Start, SkipBlanks, ParseValue, ParseText, ValueOf, Depth, Size, NumberChar, Delimited;
    FirstByteIsAscii(s, i, l, inp.strtod);
    StartAfterBlanks(s, bom, lead);
    BlanksSkipped(s, n, trail);
    BehindValue(s, n, trail, b, l);
    ReadsLayout(inp, l, i, 0);
    NotTheEnd(inp, i, n, n + |trail|, ValueOf(l, inp.strtod));
  }

  lemma {:induction false} BehindValue(s: Text, n: nat, trail: Text, b: byte, l: Layout)
    requires At(s, n, trail) && Blank(trail) && n + |trail| < |s| && s[n + |trail|] == b
    requires l.NumberLayout? && trail == [] ==> !NumberChar(b)
    ensures l.NumberLayout? ==> Delimited(s, n)
  {
    if trail != [] {
      AtByte(s, n, trail, 0);
    }
  }

  lemma {:induction false} NotTheEnd(inp: Input, i: nat, n: nat, k: nat, v: Value)
    requires 0 < |inp.s| && Start(inp.s) == i && Reads(ParseValue(inp, i, 0), true, v, n)
    requires n <= k < |inp.s| && SkipBlanks(inp.s, n) == k && inp.s[k] > 32
    ensures ParseText(inp, true) == Failed(k) && ParseText(inp, false) == Parsed(v, n)
  {
    hide ParseValue, SkipBlanks, Start;
  }
}
