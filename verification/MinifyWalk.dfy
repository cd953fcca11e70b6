/**
 * Documents in which the minifier loses step: behind a token that ends in a backslash it takes text for strings and strings
 * for text, until a token with an escaped quote brings it back. What that does to the value of a document.
 */
module MinifyWalk {
  import opened Ascii
  import opened Values
  import opened StringSpec
  import opened Tokens
  import opened ParseSpec
  import opened Layouts
  import opened Glyphs
  import opened RoundTrip
  import opened Minifier
  import opened MinifyMeaning
  import Grammar

  // ----- The scan outside and inside of strings

  function View(open: bool, t: Text): Text {
    if open then InString(t) else Minified(t)
  }

  /** Met in state `from`, `a` is minified to `b` and leaves the scan in state `to`, whatever comes behind it. */
  ghost predicate Turns(a: Text, b: Text, from: bool, to: bool) {
    forall rest :: View(from, a + rest) == b + View(to, rest)
  }

  lemma {:induction false} TurnsAt(a: Text, b: Text, from: bool, to: bool, rest: Text)
    requires Turns(a, b, from, to)
    ensures View(from, a + rest) == b + View(to, rest)
  {
    hide View;
  }

  lemma {:induction false} Assoc(a: Text, b: Text, c: Text)
    ensures (a + b) + c == a + (b + c)
  {
  }

  lemma {:induction false} TurnsBoth(a: Text, b: Text, c: Text, d: Text, from: bool, mid: bool, to: bool)
    requires Turns(a, b, from, mid) && Turns(c, d, mid, to)
    ensures Turns(a + c, b + d, from, to)
  {
    forall rest ensures View(from, (a + c) + rest) == (b + d) + View(to, rest) {
      hide Turns, View;
      Assoc(a, c, rest);
      TurnsAt(a, b, from, mid, c + rest);
      TurnsAt(c, d, mid, to, rest);
      Assoc(b, d, View(to, rest));
    }
  }

  lemma {:induction false} BecomesTurns(a: Text, b: Text)
    requires Becomes(a, b)
    ensures Turns(a, b, false, false)
  {
    hide Minified;
    forall rest ensures View(false, a + rest) == b + View(false, rest) {
      assert Minified(a + rest) == b + Minified(rest);
    }
  }

  lemma {:induction false} TurnsBecomes(a: Text, b: Text)
    requires Turns(a, b, false, false)
    ensures Becomes(a, b)
  {
    hide Minified;
    forall rest ensures Minified(a + rest) == b + Minified(rest) {
      TurnsAt(a, b, false, false, rest);
    }
  }

  predicate Harmless(t: Text) {
    forall i :: 0 <= i < |t| ==> t[i] != QUOTE && t[i] != BACKSLASH
  }

  /** What is no quote and no backslash is copied inside a string. */
  lemma {:induction false} HarmlessTurns(t: Text)
    requires Harmless(t)
    ensures Turns(t, t, true, true)
  {
    forall rest ensures View(true, t + rest) == t + View(true, rest) {
      HarmlessIsCopied(t, rest);
    }
  }

  lemma {:induction false} HarmlessIsCopied(t: Text, rest: Text)
    requires Harmless(t)
    ensures InString(t + rest) == t + InString(rest)
  {
    hide Minified;
    if t == [] {
      assert t + rest == rest;
    } else {
      assert (t + rest)[1..] == t[1..] + rest;
      HarmlessIsCopied(t[1..], rest);
      assert [t[0]] + (t[1..] + InString(rest)) == t + InString(rest);
    }
  }

  // ----- A token that is taken for text

  /** What is left of the bytes up to the first quote, and everything from there on. */
  function Wear(t: Text): (r: Text)
    ensures |r| <= |t|
  {
    if t == [] || t[0] == QUOTE then t
    else if Space(t[0]) || t[0] == SLASH then Wear(t[1..])
    else [t[0]] + Wear(t[1..])
  }

  /** No blank and no slash stands before the first quote. */
  predicate Untouched(t: Text) {
    t == [] || t[0] == QUOTE || (!Space(t[0]) && t[0] != SLASH && Untouched(t[1..]))
  }

  /** No comment starts before the first quote. */
  predicate NoComment(t: Text) {
    || t == [] || t[0] == QUOTE
    || (!(t[0] == SLASH && 1 < |t| && (t[1] == SLASH || t[1] == STAR)) && NoComment(t[1..]))
  }

  function AfterQuote(t: Text): (r: Text)
    ensures |r| <= |t|
  {
    if t == [] then [] else if t[0] == QUOTE then t[1..] else AfterQuote(t[1..])
  }

  lemma {:induction false} UntouchedIsKept(t: Text)
    ensures Untouched(t) <==> Wear(t) == t
    ensures Untouched(t) ==> NoComment(t)
  {
    if t != [] && t[0] != QUOTE {
      UntouchedIsKept(t[1..]);
      assert t == [t[0]] + t[1..];
    }
  }

  lemma {:induction false} FrontOf(t: Text, rest: Text)
    requires t != []
    ensures (t + rest)[0] == t[0] && (t + rest)[1..] == t[1..] + rest && t == [t[0]] + t[1..]
    ensures 1 < |t| ==> (t + rest)[1] == t[1]
  {
  }

  /** Outside of strings the scan wears the text down to its first quote, and what is behind that is inside a string. */
  lemma {:induction false} WearOpens(t: Text, rest: Text, out: Text)
    requires QUOTE in t && NoComment(t) && InString(AfterQuote(t) + rest) == AfterQuote(t) + out
    ensures Minified(t + rest) == Wear(t) + out
  {
    hide Minified, InString;
    FrontOf(t, rest);
    if t[0] == QUOTE {
      MinifiedQuote(t + rest);
      Assoc([QUOTE], t[1..], out);
    } else {
      QuoteBehind(t);
      WearOpens(t[1..], rest, out);
      MinifiedStep(t + rest);
      Assoc([t[0]], Wear(t[1..]), out);
    }
  }

  lemma {:induction false} QuoteBehind(t: Text)
    requires QUOTE in t && t[0] != QUOTE
    ensures QUOTE in t[1..] && 1 < |t|
  {
  }

  lemma {:induction false} MinifiedQuote(s: Text)
    requires s != [] && s[0] == QUOTE
    ensures Minified(s) == [QUOTE] + InString(s[1..])
  {
  }

  lemma {:induction false} MinifiedStep(s: Text)
    requires s != [] && s[0] != QUOTE && !(s[0] == SLASH && 1 < |s| && (s[1] == SLASH || s[1] == STAR))
    ensures Minified(s) == if Space(s[0]) || s[0] == SLASH then Minified(s[1..]) else [s[0]] + Minified(s[1..])
  {
  }

  /** The token as it is minified: unchanged outside, worn when its opening quote closes a string. */
  function WalkedToken(raw: Text, open: bool): Text {
    if open && raw != [] then [raw[0]] + Wear(raw[1..]) else raw
  }

  /** Behind a token taken for text the scan is inside a string, unless an escaped quote had brought it back. */
  predicate TokenAfter(raw: Text, open: bool) {
    if open && raw != [] && AfterQuote(raw[1..]) == [] then true else Misread(raw)
  }

  lemma {:induction false} AfterQuoteIs(raw: Text, k: nat) returns (q: nat)
    requires k < |raw| && QUOTE in raw[k..]
    ensures k <= q < |raw| && raw[q] == QUOTE && AfterQuote(raw[k..]) == raw[q + 1..]
    decreases |raw| - k
  {
    assert raw[k..][0] == raw[k] && raw[k..][1..] == raw[k + 1..];
    if raw[k] == QUOTE {
      q := k;
    } else {
      q := AfterQuoteIs(raw, k + 1);
    }
  }

  lemma {:induction false} TokenTurns(raw: Text, open: bool)
    requires StringToken(raw) && (open ==> NoComment(raw[1..]))
    ensures raw != [] && Turns(raw, WalkedToken(raw, open), open, TokenAfter(raw, open))
  {
    hide StringToken;
    TokenQuotesEscaped(raw);
    forall rest ensures View(open, raw + rest) == WalkedToken(raw, open) + View(TokenAfter(raw, open), rest) {
      if open {
        OpenToken(raw, rest);
      } else {
        TokenMinified(raw, rest);
      }
    }
  }

  lemma {:induction false} OpenToken(raw: Text, rest: Text)
    requires QuotesEscaped(raw) && NoComment(raw[1..])
    ensures InString(raw + rest) == WalkedToken(raw, true) + View(TokenAfter(raw, true), rest)
  {
    hide Minified, InString, Wear, NoComment;
    assert raw[1..][|raw| - 2] == QUOTE;
    var q := AfterQuoteIs(raw, 1);
    var out := View(TokenAfter(raw, true), rest);
    if q == |raw| - 1 {
      EmptyFront(rest);
      EmptyFront(out);
    } else {
      InStringToken(raw, q + 1, rest);
    }
    WearOpens(raw[1..], rest, out);
    FrontOf(raw, rest);
    InStringQuote(raw + rest);
    Assoc([QUOTE], Wear(raw[1..]), out);
  }

  lemma {:induction false} EmptyFront(t: Text)
    ensures [] + t == t
  {
  }

  lemma {:induction false} InStringQuote(s: Text)
    requires s != [] && s[0] == QUOTE
    ensures InString(s) == [QUOTE] + Minified(s[1..])
  {
  }

  // ----- Layouts

  function WalkedGap(gap: Text, open: bool): Text {
    if open then gap else Minified(gap)
  }

  function StateAfter(l: Layout, open: bool): bool {
    match l
    case StringLayout(raw) => TokenAfter(raw, open)
    case Array(elements) => ElementsAfter(elements, open)
    case Object(pairs) => PairsAfter(pairs, open)
    case _ => open
  }

  function ElementsAfter(es: Elements, open: bool): bool {
    var next := StateAfter(es.e.value, open);
    if es.LastElement? then next else ElementsAfter(es.rest, next)
  }

  function PairAfter(p: Pair, open: bool): bool {
    StateAfter(p.value, TokenAfter(p.key, open))
  }

  function PairsAfter(ps: Pairs, open: bool): bool {
    if ps.LastPair? then PairAfter(ps.p, open) else PairsAfter(ps.rest, PairAfter(ps.p, open))
  }

  /** The layout as the minifier leaves it. */
  function Walked(l: Layout, open: bool): Layout {
    match l
    case StringLayout(raw) => StringLayout(WalkedToken(raw, open))
    case EmptyArray(gap) => EmptyArray(WalkedGap(gap, open))
    case EmptyObject(gap) => EmptyObject(WalkedGap(gap, open))
    case Array(elements) => Array(WalkedElements(elements, open))
    case Object(pairs) => Object(WalkedPairs(pairs, open))
    case _ => l
  }

  function WalkedElement(e: Element, open: bool): Element {
    Element(WalkedGap(e.before, open), Walked(e.value, open), WalkedGap(e.after, StateAfter(e.value, open)))
  }

  function WalkedElements(es: Elements, open: bool): Elements {
    match es
    case LastElement(e) => LastElement(WalkedElement(e, open))
    case MoreElements(e, rest) => MoreElements(WalkedElement(e, open), WalkedElements(rest, StateAfter(e.value, open)))
  }

  function WalkedPair(p: Pair, open: bool): Pair {
    var inner := TokenAfter(p.key, open);
    Pair(WalkedGap(p.before, open), WalkedToken(p.key, open), WalkedGap(p.afterKey, inner),
         WalkedGap(p.beforeValue, inner), Walked(p.value, inner), WalkedGap(p.after, StateAfter(p.value, inner)))
  }

  function WalkedPairs(ps: Pairs, open: bool): Pairs {
    match ps
    case LastPair(p) => LastPair(WalkedPair(p, open))
    case MorePairs(p, rest) => MorePairs(WalkedPair(p, open), WalkedPairs(rest, PairAfter(p, open)))
  }

  /** What holds of every token, met in the state that the tokens before it lead to. */
  ghost predicate EachToken(l: Layout, open: bool, ok: (Text, bool) -> bool) {
    match l
    case StringLayout(raw) => ok(raw, open)
    case Array(elements) => EachInElements(elements, open, ok)
    case Object(pairs) => EachInPairs(pairs, open, ok)
    case _ => true
  }

  ghost predicate EachInElements(es: Elements, open: bool, ok: (Text, bool) -> bool) {
    EachToken(es.e.value, open, ok) && (es.MoreElements? ==> EachInElements(es.rest, StateAfter(es.e.value, open), ok))
  }

  ghost predicate EachInPair(p: Pair, open: bool, ok: (Text, bool) -> bool) {
    ok(p.key, open) && EachToken(p.value, TokenAfter(p.key, open), ok)
  }

  ghost predicate EachInPairs(ps: Pairs, open: bool, ok: (Text, bool) -> bool) {
    EachInPair(ps.p, open, ok) && (ps.MorePairs? ==> EachInPairs(ps.rest, PairAfter(ps.p, open), ok))
  }

  /** Outside of strings a gap may hold comments; inside, its blanks are copied. */
  predicate WalkableGap(gap: Text, open: bool) {
    if open then Blank(gap) else Gap(gap)
  }

  /** Gaps hold blanks and comments, numbers hold number characters, and no token that is taken for text starts a comment. */
  ghost predicate Walkable(l: Layout, open: bool) {
    match l
    case NumberLayout(raw) => forall i :: 0 <= i < |raw| ==> NumberChar(raw[i])
    case StringLayout(raw) => StringToken(raw) && MildToken(raw, open)
    case EmptyArray(gap) => WalkableGap(gap, open)
    case EmptyObject(gap) => WalkableGap(gap, open)
    case Array(elements) => WalkableElements(elements, open)
    case Object(pairs) => WalkablePairs(pairs, open)
    case _ => true
  }

  ghost predicate WalkableElement(e: Element, open: bool) {
    WalkableGap(e.before, open) && Walkable(e.value, open) && WalkableGap(e.after, StateAfter(e.value, open))
  }

  ghost predicate WalkableElements(es: Elements, open: bool) {
    WalkableElement(es.e, open) && (es.MoreElements? ==> WalkableElements(es.rest, StateAfter(es.e.value, open)))
  }

  ghost predicate WalkablePair(p: Pair, open: bool) {
    var inner := TokenAfter(p.key, open);
    && WalkableGap(p.before, open) && StringToken(p.key) && MildToken(p.key, open) && WalkableGap(p.afterKey, inner)
    && WalkableGap(p.beforeValue, inner) && Walkable(p.value, inner) && WalkableGap(p.after, StateAfter(p.value, inner))
  }

  ghost predicate WalkablePairs(ps: Pairs, open: bool) {
    WalkablePair(ps.p, open) && (ps.MorePairs? ==> WalkablePairs(ps.rest, PairAfter(ps.p, open)))
  }

  // ----- What a token taken for text loses

  predicate MildToken(raw: Text, open: bool) {
    open && raw != [] ==> NoComment(raw[1..])
  }

  /** The minifier takes nothing from the token. */
  predicate KeptToken(raw: Text, open: bool) {
    open && raw != [] ==> Untouched(raw[1..])
  }

  /** No comment starts in what is taken for text, and what is left is a token. */
  ghost predicate FairToken(raw: Text, open: bool) {
    MildToken(raw, open) && StringToken(WalkedToken(raw, open))
  }

  /** And it stands for the same string. */
  ghost predicate SafeToken(raw: Text, open: bool) {
    StringToken(raw) && StringToken(WalkedToken(raw, open)) && StringValue(WalkedToken(raw, open)) == StringValue(raw)
  }

  /** The pieces make up the token, with no escape broken and no slash escaped. */
  predicate Spoken(raw: Text, ps: seq<Piece>) {
    ValidPieces(ps) && LoosePieces(ps) && raw == Quoted(PiecesText(ps)) && Short(SLASH) !in ps
  }

  predicate Worn(p: Piece) {
    p.Plain? && (Space(p.b) || p.b == SLASH)
  }

  /** No blank and no plain slash stands before the first escaped quote or NUL. */
  predicate Safe(ps: seq<Piece>)
    requires LoosePieces(ps)
  {
    ps == [] || ps[0] == Short(QUOTE) || Meaning(ps[0]) == [NUL] || (!Worn(ps[0]) && Safe(ps[1..]))
  }

  /** The pieces that stay of those up to the first escaped quote, and all from there on. */
  function WornPieces(ps: seq<Piece>): (r: seq<Piece>)
    ensures |r| <= |ps|
  {
    if ps == [] || ps[0] == Short(QUOTE) then ps
    else if Worn(ps[0]) then WornPieces(ps[1..])
    else [ps[0]] + WornPieces(ps[1..])
  }

  lemma {:induction false} WearRun(d: Text, more: Text)
    requires forall i :: 0 <= i < |d| ==> d[i] != QUOTE && d[i] != SLASH && !Space(d[i])
    ensures Wear(d + more) == d + Wear(more)
  {
    if d == [] {
      EmptyFront(more);
      EmptyFront(Wear(more));
    } else {
      FrontOf(d, more);
      WearRun(d[1..], more);
      Assoc([d[0]], d[1..], Wear(more));
    }
  }

  lemma {:induction false} WearEscape(d: Text, more: Text)
    requires HexDigits(d)
    ensures Wear((ESCAPE_U + d) + more) == (ESCAPE_U + d) + Wear(more)
  {
    HexBytes(d, 4);
    var e := ESCAPE_U + d;
    assert forall i :: 0 <= i < |e| ==> e[i] == if i == 0 then BACKSLASH else if i == 1 then LOWER_U else d[i - 2];
    hide HexDigits;
    WearRun(e, more);
  }

  lemma {:induction false} WearPiece(p: Piece, more: Text)
    requires ValidPiece(p) && p != Short(SLASH) && p != Short(QUOTE)
    ensures Wear(PieceText(p) + more) == (if Worn(p) then [] else PieceText(p)) + Wear(more)
  {
    match p
    case Plain(b) =>
      FrontOf([b], more);
      EmptyFront(more);
      EmptyFront(Wear(more));
    case Short(letter) =>
      WearRun([BACKSLASH, letter], more);
    case Code(d) => WearEscape(d, more);
    case Surrogates(h, l) =>
      Assoc(ESCAPE_U + h, ESCAPE_U + l, more);
      WearEscape(h, (ESCAPE_U + l) + more);
      WearEscape(l, more);
      Assoc(ESCAPE_U + h, ESCAPE_U + l, Wear(more));
  }

  lemma {:induction false} WearPieces(ps: seq<Piece>)
    requires ValidPieces(ps) && Short(SLASH) !in ps
    ensures Wear(PiecesText(ps) + [QUOTE]) == PiecesText(WornPieces(ps)) + [QUOTE]
    ensures ValidPieces(WornPieces(ps))
  {
    if ps == [] {
      EmptyFront([QUOTE]);
    } else {
      var p, u := ps[0], PiecesText(ps[1..]);
      assert ValidPiece(p) && p in ps;
      var more := u + [QUOTE];
      Assoc(PieceText(p), u, [QUOTE]);
      if p == Short(QUOTE) {
        WearRun([BACKSLASH], [QUOTE] + more);
        Assoc([BACKSLASH], [QUOTE], more);
        assert [BACKSLASH] + [QUOTE] == PieceText(p);
      } else {
        WearPieces(ps[1..]);
        WearPiece(p, more);
        var r := WornPieces(ps[1..]);
        hide Wear, PieceText, ValidPiece, Worn;
        EmptyFront(PiecesText(r) + [QUOTE]);
        Assoc(PieceText(p), PiecesText(r), [QUOTE]);
        assert ([p] + r)[0] == p && ([p] + r)[1..] == r;
      }
    }
  }

  /** A piece means a NUL, or nothing that ends a C string. */
  lemma {:induction false} MeaningEnds(p: Piece)
    requires ValidPiece(p)
    ensures Meaning(p) == [NUL] || (NulFree(Meaning(p)) && Meaning(p) != [])
  {
    match p
    case Code(d) =>
      Hex4Range(d, 0);
      Utf8HasNul(Hex4(d, 0));
    case Surrogates(h, l) => Utf8HasNul(Supplementary(Hex4(h, 0), Hex4(l, 0)));
    case _ =>
  }

  lemma {:induction false} Utf8HasNul(c: nat)
    requires c < 0x11_0000 && !(0xD800 <= c <= 0xDFFF)
    ensures if c == 0 then Utf8(c) == [NUL] else NulFree(Utf8(c)) && Utf8(c) != []
  {
    Utf8IsOctets(c);
    NoNulInOctets(c);
    hide Utf8;
  }

  lemma {:induction false} CStringRun(m: Text, rest: Text)
    requires NulFree(m)
    ensures CString(m + rest) == m + CString(rest)
  {
    if m == [] {
      EmptyFront(rest);
      EmptyFront(CString(rest));
    } else {
      FrontOf(m, rest);
      CStringRun(m[1..], rest);
      Assoc([m[0]], m[1..], CString(rest));
    }
  }

  lemma {:induction false} SameBehind(m: Text, x: Text, y: Text)
    ensures m + x == m + y <==> x == y
  {
    assert (m + x)[|m|..] == x && (m + y)[|m|..] == y;
  }

  /** The worn pieces mean less to C, unless all that was taken stands behind a NUL. */
  lemma {:induction false} WornMeansLess(ps: seq<Piece>)
    requires ValidPieces(ps) && LoosePieces(ps) && Short(SLASH) !in ps
    ensures var r := WornPieces(ps);
            && ValidPieces(r) && LoosePieces(r) && |CString(PiecesMeaning(r))| <= |CString(PiecesMeaning(ps))|
            && (CString(PiecesMeaning(r)) == CString(PiecesMeaning(ps)) <==> Safe(ps))
  {
    if ps != [] && ps[0] != Short(QUOTE) {
      var p := ps[0];
      assert ValidPiece(p);
      LooseStep(ps);
      WornMeansLess(ps[1..]);
      MeaningEnds(p);
      var r := WornPieces(ps[1..]);
      var x, y := PiecesMeaning(ps[1..]), PiecesMeaning(r);
      hide Meaning, CString;
      CStringHead(Meaning(p), x);
      CStringHead(Meaning(p), y);
      if !Worn(p) {
        LooseStep([p] + r);
        assert ([p] + r)[0] == p && ([p] + r)[1..] == r;
        SameBehind(Meaning(p), CString(y), CString(x));
      }
    }
  }

  lemma {:induction false} CStringHead(m: Text, rest: Text)
    ensures m == [NUL] ==> CString(m + rest) == []
    ensures NulFree(m) ==> CString(m + rest) == m + CString(rest)
  {
    if NulFree(m) {
      CStringRun(m, rest);
    } else if m == [NUL] {
      FrontOf(m, rest);
    }
  }

  /**
   * A token of whole pieces is fair if no comment starts in it, and safe exactly when no blank and no plain slash stands before
   * its first escaped quote or NUL.
   */
  lemma {:induction false} WalkedTokenValue(raw: Text, ps: seq<Piece>)
    requires StringToken(raw) && raw != [] && Spoken(raw, ps)
    ensures NoComment(raw[1..]) ==> FairToken(raw, true)
    ensures SafeToken(raw, true) <==> Safe(ps)
  {
    hide StringToken, StringValue;
    SpokenValue(raw, ps);
  }

  /** A token from which nothing is taken is fair and safe. */
  lemma {:induction false} KeptTokenValue(raw: Text, open: bool)
    requires StringToken(raw) && KeptToken(raw, open)
    ensures FairToken(raw, open) && SafeToken(raw, open)
  {
    hide StringToken, StringValue;
    if raw != [] {
      UntouchedIsKept(raw[1..]);
      assert [raw[0]] + raw[1..] == raw;
    }
  }

  lemma {:induction false} SpokenValue(raw: Text, ps: seq<Piece>)
    requires raw != [] && Spoken(raw, ps) && StringToken(raw)
    ensures StringToken(WalkedToken(raw, true))
    ensures StringValue(WalkedToken(raw, true)) == StringValue(raw) <==> Safe(ps)
  {
    hide StringToken, StringValue, Wear;
    var t, r := PiecesText(ps), WornPieces(ps);
    QuotedParts(raw, t);
    WearPieces(ps);
    var worn := WalkedToken(raw, true);
    assert worn == Quoted(PiecesText(r));
    WornMeansLess(ps);
    TokenOfPieces(ps);
    TokenOfPieces(r);
    TokensAreRead(raw);
    TokensAreRead(worn);
  }

  // ----- The walk over a layout

  lemma {:induction false} TextTurns(t: Text, open: bool)
    requires PlainText(t) && Harmless(t)
    ensures Turns(t, t, open, open)
  {
    hide Turns, PlainText, Harmless;
    if open {
      HarmlessTurns(t);
    } else {
      BecomesPlain(t);
      BecomesTurns(t, t);
    }
  }

  lemma {:induction false} GapTurns(gap: Text, open: bool)
    requires WalkableGap(gap, open)
    ensures Turns(gap, WalkedGap(gap, open), open, open) && Blank(WalkedGap(gap, open))
  {
    hide Turns, Gap, Minified, Becomes;
    if open {
      HarmlessTurns(gap);
    } else {
      GapLeavesBlanks(gap);
      GapBecomes(gap);
      BecomesTurns(gap, Minified(gap));
    }
  }

  lemma {:induction false} BlanksStayBlank(gap: Text, open: bool)
    requires Blank(gap)
    ensures WalkableGap(gap, open) && Blank(WalkedGap(gap, open))
  {
    BlanksAreGap(gap);
    hide Blank, Gap, Turns, WalkedGap;
    GapTurns(gap, open);
  }

  lemma {:induction false} BracketsTurn(left: byte, a: Text, b: Text, right: byte, from: bool, to: bool)
    requires left in {LBRACKET, LBRACE} && right in {RBRACKET, RBRACE} && Turns(a, b, from, to)
    ensures Turns([left] + (a + [right]), [left] + (b + [right]), from, to)
  {
    hide Turns;
    TextTurns([left], from);
    TextTurns([right], to);
    TurnsBoth(a, b, [right], [right], from, to, to);
    TurnsBoth([left], [left], a + [right], b + [right], from, from, to);
  }

  lemma {:induction false} ListTurns(a: Text, b: Text, c: Text, d: Text, from: bool, mid: bool, to: bool)
    requires Turns(a, b, from, mid) && Turns(c, d, mid, to)
    ensures Turns(a + ([COMMA] + c), b + ([COMMA] + d), from, to)
  {
    hide Turns;
    TextTurns([COMMA], mid);
    TurnsBoth([COMMA], [COMMA], c, d, mid, mid, to);
    TurnsBoth(a, b, [COMMA] + c, [COMMA] + d, from, mid, to);
  }

  /** The text of a layout is minified to the text of the walked layout. */
  lemma {:induction false} WalkTurns(l: Layout, open: bool)
    requires Walkable(l, open)
    ensures Turns(TextOf(l), TextOf(Walked(l, open)), open, StateAfter(l, open))
    decreases l, 0
  {
    hide Turns, Blank, Minified, StringToken, MildToken, WalkedToken, TokenAfter, WalkedGap;
    hide ElementsText, PairsText, WalkedElements, WalkedPairs, ElementsAfter, PairsAfter;
    hide WalkableElements, WalkablePairs, WalkableGap;
    match l
    case StringLayout(raw) =>
      MildTurns(raw, open);
    case EmptyArray(gap) =>
      GapTurns(gap, open);
      BracketsTurn(LBRACKET, gap, WalkedGap(gap, open), RBRACKET, open, open);
    case EmptyObject(gap) =>
      GapTurns(gap, open);
      BracketsTurn(LBRACE, gap, WalkedGap(gap, open), RBRACE, open, open);
    case Array(es) =>
      ElementsWalk(es, open);
      BracketsTurn(LBRACKET, ElementsText(es), ElementsText(WalkedElements(es, open)), RBRACKET, open, ElementsAfter(es, open));
    case Object(ps) =>
      PairsWalk(ps, open);
      BracketsTurn(LBRACE, PairsText(ps), PairsText(WalkedPairs(ps, open)), RBRACE, open, PairsAfter(ps, open));
    case _ =>
      LiteralTurns(l, open);
  }

  lemma {:induction false} LiteralTurns(l: Layout, open: bool)
    requires Walkable(l, open) && (l.NullLayout? || l.BoolLayout? || l.NumberLayout?)
    ensures Turns(TextOf(l), TextOf(l), open, open)
  {
    hide Turns, Minified;
    TextTurns(TextOf(l), open);
  }

  lemma {:induction false} MildTurns(raw: Text, open: bool)
    requires StringToken(raw) && MildToken(raw, open)
    ensures Turns(raw, WalkedToken(raw, open), open, TokenAfter(raw, open))
  {
    hide StringToken, Turns, NoComment;
    TokenQuotesEscaped(raw);
    TokenTurns(raw, open);
  }

  lemma {:induction false} ElementWalks(e: Element, open: bool)
    requires WalkableElement(e, open)
    ensures Turns(ElementText(e), ElementText(WalkedElement(e, open)), open, StateAfter(e.value, open))
    decreases e, 1
  {
    WalkTurns(e.value, open);
    hide Turns, WalkableGap, WalkedGap, TextOf, Walked, StateAfter, Walkable;
    var next := StateAfter(e.value, open);
    GapTurns(e.before, open);
    GapTurns(e.after, next);
    TurnsBoth(TextOf(e.value), TextOf(Walked(e.value, open)), e.after, WalkedGap(e.after, next), open, next, next);
    TurnsBoth(e.before, WalkedGap(e.before, open), TextOf(e.value) + e.after,
              TextOf(Walked(e.value, open)) + WalkedGap(e.after, next), open, open, next);
  }

  lemma {:induction false} ElementsWalk(es: Elements, open: bool)
    requires WalkableElements(es, open)
    ensures Turns(ElementsText(es), ElementsText(WalkedElements(es, open)), open, ElementsAfter(es, open))
    decreases es, 0
  {
    ElementWalks(es.e, open);
    hide Turns, ElementText, WalkedElement, StateAfter, WalkableElement;
    var mid := StateAfter(es.e.value, open);
    match es
    case LastElement(e) =>
    case MoreElements(e, rest) =>
      ElementsWalk(rest, mid);
      ListTurns(ElementText(e), ElementText(WalkedElement(e, open)), ElementsText(rest), ElementsText(WalkedElements(rest, mid)),
                open, mid, ElementsAfter(rest, mid));
  }

  /** A key and what is behind it; and in front of that what is before the key. */
  lemma {:induction false} KeyTurns(before: Text, b: Text, key: Text, k: Text, rest: Text, r: Text, open: bool, inner: bool, next: bool)
    requires Turns(before, b, open, open) && Turns(key, k, open, inner) && Turns(rest, r, inner, next)
    ensures Turns(before + (key + rest), b + (k + r), open, next)
  {
    hide Turns;
    TurnsBoth(key, k, rest, r, open, inner, next);
    TurnsBoth(before, b, key + rest, k + r, open, open, next);
  }

  lemma {:induction false} ColonTurns(gap: Text, g: Text, rest: Text, r: Text, inner: bool, next: bool)
    requires Turns(gap, g, inner, inner) && Turns(rest, r, inner, next)
    ensures Turns(gap + ([COLON] + rest), g + ([COLON] + r), inner, next)
  {
    hide Turns;
    TextTurns([COLON], inner);
    TurnsBoth([COLON], [COLON], rest, r, inner, inner, next);
    TurnsBoth(gap, g, [COLON] + rest, [COLON] + r, inner, inner, next);
  }

  lemma {:induction false} PairWalks(p: Pair, open: bool)
    requires WalkablePair(p, open)
    ensures Turns(PairText(p), PairText(WalkedPair(p, open)), open, PairAfter(p, open))
    decreases p, 1
  {
    hide Turns, WalkableGap, WalkedGap, TextOf, Walked, StateAfter, Walkable, StringToken, WalkedToken, TokenAfter, MildToken;
    var inner := TokenAfter(p.key, open);
    var next := StateAfter(p.value, inner);
    var l, m := TextOf(p.value), TextOf(Walked(p.value, inner));
    WalkTurns(p.value, inner);
    MildTurns(p.key, open);
    GapTurns(p.before, open);
    GapTurns(p.afterKey, inner);
    GapTurns(p.beforeValue, inner);
    GapTurns(p.after, next);
    var b, k, c := WalkedGap(p.before, open), WalkedToken(p.key, open), WalkedGap(p.afterKey, inner);
    var d, e := WalkedGap(p.beforeValue, inner), WalkedGap(p.after, next);
    TurnsBoth(l, m, p.after, e, inner, next, next);
    TurnsBoth(p.beforeValue, d, l + p.after, m + e, inner, inner, next);
    ColonTurns(p.afterKey, c, p.beforeValue + (l + p.after), d + (m + e), inner, next);
    KeyTurns(p.before, b, p.key, k, p.afterKey + ([COLON] + (p.beforeValue + (l + p.after))), c + ([COLON] + (d + (m + e))),
             open, inner, next);
  }

  lemma {:induction false} PairsWalk(ps: Pairs, open: bool)
    requires WalkablePairs(ps, open)
    ensures Turns(PairsText(ps), PairsText(WalkedPairs(ps, open)), open, PairsAfter(ps, open))
    decreases ps, 0
  {
    PairWalks(ps.p, open);
    hide Turns, PairText, WalkedPair, PairAfter, WalkablePair;
    var mid := PairAfter(ps.p, open);
    match ps
    case LastPair(p) =>
    case MorePairs(p, rest) =>
      PairsWalk(rest, mid);
      ListTurns(PairText(p), PairText(WalkedPair(p, open)), PairsText(rest), PairsText(WalkedPairs(rest, mid)),
                open, mid, PairsAfter(rest, mid));
  }

  // ----- The value of the walked layout

  lemma {:induction false} WalkedValue(l: Layout, open: bool, strtod: Converter)
    requires Valid(l, strtod) && EachToken(l, open, FairToken)
    ensures Walkable(l, open) && Valid(Walked(l, open), strtod) && Depth(Walked(l, open)) == Depth(l)
    ensures ValueOf(Walked(l, open), strtod) == ValueOf(l, strtod) <==> EachToken(l, open, SafeToken)
    decreases l
  {
    hide StringToken, StringValue, MildToken, WalkedToken, TokenAfter, WalkedGap, Blank;
    match l
    case StringLayout(raw) =>
    case EmptyArray(gap) => BlanksStayBlank(gap, open);
    case EmptyObject(gap) => BlanksStayBlank(gap, open);
    case Array(es) => WalkedItems(es, open, strtod);
    case Object(ps) => WalkedMembers(ps, open, strtod);
    case _ =>
  }

  lemma {:induction false} WalkedItems(es: Elements, open: bool, strtod: Converter)
    requires ValidElements(es, strtod) && EachInElements(es, open, FairToken)
    ensures WalkableElements(es, open)
    ensures ValidElements(WalkedElements(es, open), strtod) && ElementsDepth(WalkedElements(es, open)) == ElementsDepth(es)
    ensures ItemsOf(WalkedElements(es, open), strtod) == ItemsOf(es, strtod) <==> EachInElements(es, open, SafeToken)
    decreases es
  {
    var e := es.e;
    var mid := StateAfter(e.value, open);
    assert ValidElement(e, strtod);
    WalkedValue(e.value, open, strtod);
    hide Valid, ValueOf, Depth, Walked, StateAfter, EachToken, WalkedGap, Blank;
    BlanksStayBlank(e.before, open);
    BlanksStayBlank(e.after, mid);
    assert ValidElement(WalkedElement(e, open), strtod);
    if es.MoreElements? {
      WalkedItems(es.rest, mid, strtod);
      SplitList(ValueOf(Walked(e.value, open), strtod), ItemsOf(WalkedElements(es.rest, mid), strtod),
                ValueOf(e.value, strtod), ItemsOf(es.rest, strtod));
    }
  }

  lemma {:induction false} SplitList<T>(x: T, xs: seq<T>, y: T, ys: seq<T>)
    ensures [x] + xs == [y] + ys <==> x == y && xs == ys
  {
    assert ([x] + xs)[0] == x && ([y] + ys)[0] == y;
    assert ([x] + xs)[1..] == xs && ([y] + ys)[1..] == ys;
  }

  lemma {:induction false} WalkedMember(p: Pair, open: bool, strtod: Converter)
    requires ValidPair(p, strtod) && EachInPair(p, open, FairToken)
    ensures WalkablePair(p, open)
    ensures ValidPair(WalkedPair(p, open), strtod) && Depth(WalkedPair(p, open).value) == Depth(p.value)
    ensures MemberOf(WalkedPair(p, open), strtod) == MemberOf(p, strtod) <==> EachInPair(p, open, SafeToken)
    decreases p
  {
    var inner := TokenAfter(p.key, open);
    WalkedValue(p.value, inner, strtod);
    hide Valid, ValueOf, Depth, Walked, StateAfter, EachToken, WalkedGap, Blank, StringToken, StringValue, WalkedToken, TokenAfter;
    hide MildToken;
    BlanksStayBlank(p.before, open);
    BlanksStayBlank(p.afterKey, inner);
    BlanksStayBlank(p.beforeValue, inner);
    BlanksStayBlank(p.after, StateAfter(p.value, inner));
  }

  lemma {:induction false} WalkedMembers(ps: Pairs, open: bool, strtod: Converter)
    requires ValidPairs(ps, strtod) && EachInPairs(ps, open, FairToken)
    ensures WalkablePairs(ps, open)
    ensures ValidPairs(WalkedPairs(ps, open), strtod) && PairsDepth(WalkedPairs(ps, open)) == PairsDepth(ps)
    ensures MembersOf(WalkedPairs(ps, open), strtod) == MembersOf(ps, strtod) <==> EachInPairs(ps, open, SafeToken)
    decreases ps
  {
    var mid := PairAfter(ps.p, open);
    WalkedMember(ps.p, open, strtod);
    hide ValidPair, MemberOf, Depth, WalkedPair, PairAfter, EachInPair;
    if ps.MorePairs? {
      WalkedMembers(ps.rest, mid, strtod);
      SplitList(MemberOf(WalkedPair(ps.p, open), strtod), MembersOf(WalkedPairs(ps.rest, mid), strtod),
                MemberOf(ps.p, strtod), MembersOf(ps.rest, strtod));
    }
  }

  // ----- Documents

  /** The tokens that the minifier takes for text hold no blank and no slash before their first quote. */
  ghost predicate KeepsTokens(l: Layout) {
    EachToken(l, false, KeptToken)
  }

  ghost predicate Fair(l: Layout) {
    EachToken(l, false, FairToken)
  }

  /** What is left of them stands for the same strings. */
  ghost predicate KeepsValues(l: Layout) {
    EachToken(l, false, SafeToken)
  }

  lemma {:induction false} KeptIsFairAndSafe(l: Layout, open: bool, strtod: Converter)
    requires Valid(l, strtod) && EachToken(l, open, KeptToken)
    ensures EachToken(l, open, FairToken) && EachToken(l, open, SafeToken)
    decreases l
  {
    hide StringToken, KeptToken, FairToken, SafeToken;
    match l
    case StringLayout(raw) => KeptTokenValue(raw, open);
    case Array(es) => KeptElements(es, open, strtod);
    case Object(ps) => KeptPairs(ps, open, strtod);
    case _ =>
  }

  lemma {:induction false} KeptElements(es: Elements, open: bool, strtod: Converter)
    requires ValidElements(es, strtod) && EachInElements(es, open, KeptToken)
    ensures EachInElements(es, open, FairToken) && EachInElements(es, open, SafeToken)
    decreases es
  {
    assert ValidElement(es.e, strtod);
    KeptIsFairAndSafe(es.e.value, open, strtod);
    if es.MoreElements? {
      KeptElements(es.rest, StateAfter(es.e.value, open), strtod);
    }
  }

  lemma {:induction false} KeptPairs(ps: Pairs, open: bool, strtod: Converter)
    requires ValidPairs(ps, strtod) && EachInPairs(ps, open, KeptToken)
    ensures EachInPairs(ps, open, FairToken) && EachInPairs(ps, open, SafeToken)
    decreases ps
  {
    hide StringToken, KeptToken, FairToken, SafeToken;
    assert ValidPair(ps.p, strtod);
    KeptTokenValue(ps.p.key, open);
    KeptIsFairAndSafe(ps.p.value, TokenAfter(ps.p.key, open), strtod);
    if ps.MorePairs? {
      KeptPairs(ps.rest, PairAfter(ps.p, open), strtod);
    }
  }

  /** No string and no key ends in a backslash. */
  predicate Readable(l: Layout) {
    match l
    case StringLayout(raw) => !Misread(raw)
    case Array(elements) => ReadableElements(elements)
    case Object(pairs) => ReadablePairs(pairs)
    case _ => true
  }

  predicate ReadableElements(es: Elements) {
    Readable(es.e.value) && (es.MoreElements? ==> ReadableElements(es.rest))
  }

  predicate ReadablePairs(ps: Pairs) {
    !Misread(ps.p.key) && Readable(ps.p.value) && (ps.MorePairs? ==> ReadablePairs(ps.rest))
  }

  /** Where no string ends in a backslash the scan never takes a token for text. */
  lemma {:induction false} ReadableKeepsTokens(l: Layout)
    requires Readable(l)
    ensures KeepsTokens(l) && !StateAfter(l, false)
  {
    hide Misread;
    match l
    case Array(es) => ReadableElementsKeep(es);
    case Object(ps) => ReadablePairsKeep(ps);
    case _ =>
  }

  lemma {:induction false} ReadableElementsKeep(es: Elements)
    requires ReadableElements(es)
    ensures EachInElements(es, false, KeptToken) && !ElementsAfter(es, false)
  {
    hide Misread;
    ReadableKeepsTokens(es.e.value);
    if es.MoreElements? {
      ReadableElementsKeep(es.rest);
    }
  }

  lemma {:induction false} ReadablePairsKeep(ps: Pairs)
    requires ReadablePairs(ps)
    ensures EachInPairs(ps, false, KeptToken) && !PairsAfter(ps, false)
  {
    hide Misread;
    ReadableKeepsTokens(ps.p.value);
    if ps.MorePairs? {
      ReadablePairsKeep(ps.rest);
    }
  }

  lemma {:induction false} WholeTurns(s: Text, t: Text, to: bool)
    requires Turns(s, t, false, to)
    ensures Minified(s) == t
  {
    assert View(false, s + []) == t + View(to, []);
    assert s + [] == s;
  }

  lemma {:induction false} DocumentWalks(bom: Text, lead: Text, l: Layout, trail: Text)
    requires bom == [] || bom == BYTE_ORDER_MARK
    requires Gap(lead) && Walkable(l, false) && WalkableGap(trail, StateAfter(l, false))
    ensures var after := StateAfter(l, false);
            Minified(bom + (lead + (TextOf(l) + trail)))
            == bom + (WalkedGap(lead, false) + (TextOf(Walked(l, false)) + WalkedGap(trail, after)))
    ensures Blank(WalkedGap(lead, false)) && Blank(WalkedGap(trail, StateAfter(l, false)))
  {
    TextTurns(bom, false);
    assert WalkableGap(lead, false);
    hide Turns, TextOf, Walked, StateAfter, Walkable, WalkableGap, Blank, Gap, WalkedGap, Minified;
    var after, m := StateAfter(l, false), TextOf(Walked(l, false));
    var g, h := WalkedGap(lead, false), WalkedGap(trail, after);
    WalkTurns(l, false);
    GapTurns(lead, false);
    GapTurns(trail, after);
    TurnsBoth(TextOf(l), m, trail, h, false, after, after);
    TurnsBoth(lead, g, TextOf(l) + trail, m + h, false, false, after);
    TurnsBoth(bom, bom, lead + (TextOf(l) + trail), g + (m + h), false, false, after);
    WholeTurns(bom + (lead + (TextOf(l) + trail)), bom + (g + (m + h)), after);
  }

  lemma {:induction false} WalkedDepth(l: Layout, open: bool)
    ensures Depth(Walked(l, open)) == Depth(l)
  {
    match l
    case Array(es) => WalkedElementsDepth(es, open);
    case Object(ps) => WalkedPairsDepth(ps, open);
    case _ =>
  }

  lemma {:induction false} WalkedElementsDepth(es: Elements, open: bool)
    ensures ElementsDepth(WalkedElements(es, open)) == ElementsDepth(es)
  {
    WalkedDepth(es.e.value, open);
    if es.MoreElements? {
      WalkedElementsDepth(es.rest, StateAfter(es.e.value, open));
    }
  }

  lemma {:induction false} WalkedPairsDepth(ps: Pairs, open: bool)
    ensures PairsDepth(WalkedPairs(ps, open)) == PairsDepth(ps)
  {
    WalkedDepth(ps.p.value, TokenAfter(ps.p.key, open));
    if ps.MorePairs? {
      WalkedPairsDepth(ps.rest, PairAfter(ps.p, open));
    }
  }

  /**
   * A document with comments, whatever its strings end in: once minified it is read as the value of the walked layout, if that
   * is valid, exactly when the nesting is within the limit.
   */
  lemma {:induction false} MinifiedDocumentIsRead(s: Text, bom: Text, lead: Text, l: Layout, trail: Text, strtod: Converter, requireNul: bool)
    requires s == bom + (lead + (TextOf(l) + trail))
    requires bom == [] || bom == BYTE_ORDER_MARK
    requires Gap(lead) && Walkable(l, false) && WalkableGap(trail, StateAfter(l, false)) && Valid(Walked(l, false), strtod)
    ensures var r := ParseText(Input(Terminated(Minified(s)), strtod), requireNul);
            if Depth(l) > NESTING_LIMIT then r.Failed?
            else r.Parsed? && r.value == ValueOf(Walked(l, false), strtod) && (requireNul ==> r.next == |Minified(s)|)
  {
    hide *;
    DocumentWalks(bom, lead, l, trail);
    WalkedDepth(l, false);
    WithTerminator(Minified(s), bom, WalkedGap(lead, false), TextOf(Walked(l, false)), WalkedGap(trail, StateAfter(l, false)));
    Grammar.DocumentIsRead(Terminated(Minified(s)), bom, WalkedGap(lead, false), Walked(l, false),
                           WalkedGap(trail, StateAfter(l, false)), strtod, requireNul);
    TerminatorIsLast(Minified(s));
  }

  /**
   * A document is parsed after minifying as it is before, if all its tokens are fair; and it has the same value exactly when
   * the minifier takes nothing of what a token means.
   */
  lemma {:induction false} MinifyKeepsValue(s: Text, bom: Text, lead: Text, l: Layout, trail: Text, strtod: Converter, requireNul: bool)
    requires s == bom + (lead + (TextOf(l) + trail))
    requires bom == [] || bom == BYTE_ORDER_MARK
    requires Blank(lead) && Blank(trail) && Valid(l, strtod) && Fair(l)
    ensures var before := ParseText(Input(Terminated(s), strtod), requireNul);
            var after := ParseText(Input(Terminated(Minified(s)), strtod), requireNul);
            && (before.Parsed? <==> after.Parsed?)
            && (before.Parsed? ==> (before.value == after.value <==> KeepsValues(l)))
  {
    WalkedValue(l, false, strtod);
    hide *;
    BlanksStayBlank(trail, StateAfter(l, false));
    BlanksAreGap(lead);
    WithTerminator(s, bom, lead, TextOf(l), trail);
    Grammar.DocumentIsRead(Terminated(s), bom, lead, l, trail, strtod, requireNul);
    MinifiedDocumentIsRead(s, bom, lead, l, trail, strtod, requireNul);
  }

  /** A document from whose tokens nothing is taken keeps its value, whatever its strings hold. */
  lemma {:induction false} MinifyKeepsMeaning(s: Text, bom: Text, lead: Text, l: Layout, trail: Text, strtod: Converter, requireNul: bool)
    requires s == bom + (lead + (TextOf(l) + trail))
    requires bom == [] || bom == BYTE_ORDER_MARK
    requires Blank(lead) && Blank(trail) && Valid(l, strtod) && KeepsTokens(l)
    ensures var before := ParseText(Input(Terminated(s), strtod), requireNul);
            var after := ParseText(Input(Terminated(Minified(s)), strtod), requireNul);
            && (before.Parsed? <==> after.Parsed?)
            && (before.Parsed? ==> before.value == after.value)
  {
    KeptIsFairAndSafe(l, false, strtod);
    hide *;
    MinifyKeepsValue(s, bom, lead, l, trail, strtod, requireNul);
  }

  // ----- Documents whose value is changed

  const TWO_BACKSLASHES: Text := [QUOTE, BACKSLASH, BACKSLASH, QUOTE]

  /** An array of two tokens. */
  function TwoStrings(a: Text, b: Text): Layout {
    Array(MoreElements(Element([], StringLayout(a), []), LastElement(Element([], StringLayout(b), []))))
  }

  lemma {:induction false} PlainPieces(t: Text) returns (ps: seq<Piece>)
    requires Harmless(t)
    ensures ValidPieces(ps) && LoosePieces(ps) && PiecesText(ps) == t && PiecesMeaning(ps) == t
  {
    if t == [] {
      ps := [];
    } else {
      var rest := PlainPieces(t[1..]);
      ps := [Plain(t[0])] + rest;
      LooseStep(ps);
      assert ps[1..] == rest;
    }
  }

  lemma {:induction false} PlainToken(t: Text)
    requires Harmless(t) && NulFree(t)
    ensures StringToken(Quoted(t)) && StringValue(Quoted(t)) == t
  {
    hide StringToken, StringValue;
    var ps := PlainPieces(t);
    TokenOfPieces(ps);
    TokensAreRead(Quoted(t));
    CStringOfNulFree(t);
  }

  lemma {:induction false} BackslashToken()
    ensures StringToken(TWO_BACKSLASHES) && StringValue(TWO_BACKSLASHES) == [BACKSLASH]
  {
    var ps := [Short(BACKSLASH)];
    assert ps[1..] == [] && PieceText(ps[0]) == [BACKSLASH, BACKSLASH] && Meaning(ps[0]) == [BACKSLASH];
    hide StringToken, StringValue, PieceText, Meaning, ParseString;
    TokenOfPieces(ps);
    assert PiecesText(ps) == [BACKSLASH, BACKSLASH] && PiecesMeaning(ps) == [BACKSLASH];
    assert Quoted([BACKSLASH, BACKSLASH]) == TWO_BACKSLASHES;
    TokensAreRead(TWO_BACKSLASHES);
    CStringOfNulFree([BACKSLASH]);
  }

  lemma {:induction false} TwoStringsMean(a: Text, b: Text, strtod: Converter)
    requires StringToken(a) && StringToken(b)
    ensures var l := TwoStrings(a, b);
            Valid(l, strtod) && Depth(l) == 1 && ValueOf(l, strtod) == Arr([Str(StringValue(a)), Str(StringValue(b))])
  {
    var first, last := Element([], StringLayout(a), []), LastElement(Element([], StringLayout(b), []));
    hide StringToken, StringValue;
    assert Valid(StringLayout(a), strtod) && Valid(StringLayout(b), strtod);
    assert Depth(StringLayout(a)) == 0 && Depth(StringLayout(b)) == 0;
    assert ValueOf(StringLayout(a), strtod) == Str(StringValue(a)) && ValueOf(StringLayout(b), strtod) == Str(StringValue(b));
    assert ValidElement(first, strtod) && ValidElement(last.e, strtod);
    assert ValidElement(first, strtod) && ValidElements(last, strtod) && ElementsDepth(last) == 0;
    assert ItemsOf(last, strtod) == [Str(StringValue(b))];
    assert ValidElements(MoreElements(first, last), strtod);
    assert ItemsOf(MoreElements(first, last), strtod) == [Str(StringValue(a))] + [Str(StringValue(b))];
    assert ElementsDepth(MoreElements(first, last)) == 0;
  }

  lemma {:induction false} TwoStringsText(a: Text, b: Text)
    ensures TextOf(TwoStrings(a, b)) == [LBRACKET] + (a + ([COMMA] + (b + [RBRACKET])))
  {
    var first, last := Element([], StringLayout(a), []), LastElement(Element([], StringLayout(b), []));
    assert TextOf(StringLayout(a)) == a && TextOf(StringLayout(b)) == b;
    assert ElementText(first) == a && ElementText(last.e) == b;
    assert ElementsText(last) == b;
    assert ElementsText(MoreElements(first, last)) == a + ([COMMA] + b);
    assert (a + ([COMMA] + b)) + [RBRACKET] == a + ([COMMA] + (b + [RBRACKET]));
  }

  lemma {:induction false} TwoStringsRead(a: Text, b: Text, strtod: Converter)
    requires StringToken(a) && StringToken(b)
    ensures var text := TextOf(TwoStrings(a, b));
            ParseText(Input(Terminated(text), strtod), true) == Parsed(Arr([Str(StringValue(a)), Str(StringValue(b))]), |text|)
  {
    var l := TwoStrings(a, b);
    TwoStringsMean(a, b, strtod);
    hide StringToken, StringValue, ParseText, Valid, ValueOf, Depth, TextOf, TwoStrings;
    assert Terminated(TextOf(l)) == [] + ([] + (TextOf(l) + ([] + [NUL])));
    Grammar.DocumentIsRead(Terminated(TextOf(l)), [], [], l, [], strtod, true);
  }

  /** Two backslashes and a string as the minifier leaves them. */
  lemma {:induction false} TwoStringsWalk(b: Text)
    requires StringToken(b) && NoComment(b[1..])
    ensures Minified(TextOf(TwoStrings(TWO_BACKSLASHES, b))) == TextOf(TwoStrings(TWO_BACKSLASHES, WalkedToken(b, true)))
  {
    var l := TwoStrings(TWO_BACKSLASHES, b);
    BackslashToken();
    TwoStringsWalked(b);
    hide *;
    assert Gap([]) && WalkableGap([], StateAfter(l, false)) by { EmptyGaps(StateAfter(l, false)); }
    DocumentWalks([], [], l, []);
    NothingAround(TextOf(l));
    GapsStayEmpty(false);
    GapsStayEmpty(StateAfter(l, false));
    NothingAround(TextOf(Walked(l, false)));
  }

  lemma {:induction false} TwoStringsWalked(b: Text)
    requires StringToken(b) && b != [] && NoComment(b[1..])
    ensures var l := TwoStrings(TWO_BACKSLASHES, b);
            Walkable(l, false) && StateAfter(l, false) == TokenAfter(b, true)
            && Walked(l, false) == TwoStrings(TWO_BACKSLASHES, WalkedToken(b, true))
  {
    var a, z := StringLayout(TWO_BACKSLASHES), StringLayout(b);
    BackslashTurns();
    GapsStayEmpty(false);
    GapsStayEmpty(true);
    BackslashToken();
    assert MildToken(b, true) && MildToken(TWO_BACKSLASHES, false) && WalkableGap([], true) && WalkableGap([], false);
    hide NoComment, WalkedToken, TokenAfter, MildToken, WalkedGap, WalkableGap, StringToken;
    assert StateAfter(a, false) && Walked(a, false) == a && Walked(z, true) == StringLayout(WalkedToken(b, true));
    var first, last := Element([], a, []), LastElement(Element([], z, []));
    assert WalkableElement(first, false) && WalkableElement(last.e, true);
    assert WalkableElements(last, true) && WalkableElements(MoreElements(first, last), false);
    assert ElementsAfter(last, true) == TokenAfter(b, true) && ElementsAfter(MoreElements(first, last), false) == TokenAfter(b, true);
    assert WalkedElement(first, false) == first && WalkedElement(last.e, true) == Element([], StringLayout(WalkedToken(b, true)), []);
    assert WalkedElements(last, true) == LastElement(WalkedElement(last.e, true));
    assert WalkedElements(MoreElements(first, last), false) == MoreElements(first, WalkedElements(last, true));
  }

  lemma {:induction false} BackslashTurns()
    ensures TokenAfter(TWO_BACKSLASHES, false) && WalkedToken(TWO_BACKSLASHES, false) == TWO_BACKSLASHES
  {
  }

  lemma {:induction false} NothingAround(t: Text)
    ensures [] + ([] + (t + [])) == t
  {
  }

  lemma {:induction false} EmptyGaps(open: bool)
    ensures Gap([]) && WalkableGap([], open)
  {
  }

  lemma {:induction false} GapsStayEmpty(open: bool)
    ensures WalkedGap([], open) == []
  {
  }

  /** ["\\","a b"] is minified to ["\\","ab"], and the second string has lost its blank. */
  lemma {:induction false} BlankIsLost(strtod: Converter)
    ensures var before: Text := [0x5B, 0x22, 0x5C, 0x5C, 0x22, 0x2C, 0x22, 0x61, 0x20, 0x62, 0x22, 0x5D];
            var after: Text := [0x5B, 0x22, 0x5C, 0x5C, 0x22, 0x2C, 0x22, 0x61, 0x62, 0x22, 0x5D];
            && Minified(before) == after
            && ParseText(Input(Terminated(before), strtod), true) == Parsed(Arr([Str([0x5C]), Str([0x61, 0x20, 0x62])]), |before|)
            && ParseText(Input(Terminated(after), strtod), true) == Parsed(Arr([Str([0x5C]), Str([0x61, 0x62])]), |after|)
  {
    var before: Text := [0x5B, 0x22, 0x5C, 0x5C, 0x22, 0x2C, 0x22, 0x61, 0x20, 0x62, 0x22, 0x5D];
    var after: Text := [0x5B, 0x22, 0x5C, 0x5C, 0x22, 0x2C, 0x22, 0x61, 0x62, 0x22, 0x5D];
    var b, c: Text := [0x61, 0x20, 0x62], [0x61, 0x62];
    hide *;
    TwoLetters(b, before);
    TwoLetters(c, after);
    ReadBehindBackslashes(b, before, strtod);
    ReadBehindBackslashes(c, after, strtod);
    WornBlank();
    TwoStringsWalk(Quoted(b));
  }

  lemma {:induction false} TwoLetters(b: Text, s: Text)
    requires (b == [0x61, 0x20, 0x62] && s == [0x5B, 0x22, 0x5C, 0x5C, 0x22, 0x2C, 0x22, 0x61, 0x20, 0x62, 0x22, 0x5D])
          || (b == [0x61, 0x62] && s == [0x5B, 0x22, 0x5C, 0x5C, 0x22, 0x2C, 0x22, 0x61, 0x62, 0x22, 0x5D])
    ensures Harmless(b) && NulFree(b) && FollowsBackslashes(Quoted(b), s)
  {
    assert Quoted(b) == if |b| == 3 then [0x22, 0x61, 0x20, 0x62, 0x22] else [0x22, 0x61, 0x62, 0x22];
  }

  lemma {:induction false} ReadBehindBackslashes(b: Text, s: Text, strtod: Converter)
    requires Harmless(b) && NulFree(b) && FollowsBackslashes(Quoted(b), s)
    ensures StringToken(Quoted(b)) && TextOf(TwoStrings(TWO_BACKSLASHES, Quoted(b))) == s
    ensures ParseText(Input(Terminated(s), strtod), true) == Parsed(Arr([Str([BACKSLASH]), Str(b)]), |s|)
  {
    hide *;
    PlainToken(b);
    BackslashToken();
    BehindBackslashes(Quoted(b), s);
    TwoStringsRead(TWO_BACKSLASHES, Quoted(b), strtod);
  }

  predicate FollowsBackslashes(b: Text, s: Text) {
    && |s| == |b| + 7 && s[0] == LBRACKET && s[1] == QUOTE && s[2] == BACKSLASH && s[3] == BACKSLASH && s[4] == QUOTE
    && s[5] == COMMA && s[|s| - 1] == RBRACKET && forall i :: 0 <= i < |b| ==> s[i + 6] == b[i]
  }

  lemma {:induction false} BehindBackslashes(b: Text, s: Text)
    requires FollowsBackslashes(b, s)
    ensures TextOf(TwoStrings(TWO_BACKSLASHES, b)) == s
  {
    TwoStringsText(TWO_BACKSLASHES, b);
    hide TextOf;
    var c := b + [RBRACKET];
    var d := [COMMA] + c;
    assert forall i :: 0 <= i < |c| ==> c[i] == s[i + 6];
    assert forall i :: 0 <= i < |d| ==> d[i] == s[i + 5];
    assert [LBRACKET] + (TWO_BACKSLASHES + d) == s;
  }

  lemma {:induction false} WornBlank()
    ensures var b := Quoted([0x61, 0x20, 0x62]);
            NoComment(b[1..]) && WalkedToken(b, true) == Quoted([0x61, 0x62])
  {
    var b := Quoted([0x61, 0x20, 0x62]);
    assert b[1..] == [0x61, 0x20, 0x62, 0x22];
    assert [0x61, 0x20, 0x62, 0x22][1..] == [0x20, 0x62, 0x22];
    assert [0x20, 0x62, 0x22][1..] == [0x62, 0x22];
    assert [0x62, 0x22][1..] == [0x22];
    assert Wear([0x22]) == [0x22];
    assert Wear([0x62, 0x22]) == [0x62, 0x22];
    assert Wear([0x20, 0x62, 0x22]) == [0x62, 0x22];
  }

  /** ["\\","//"] is cut off where the minifier sees a comment, so that what is left does not parse. */
  lemma {:induction false} CommentCutsDocument(strtod: Converter)
    ensures var before: Text := [0x5B, 0x22, 0x5C, 0x5C, 0x22, 0x2C, 0x22, 0x2F, 0x2F, 0x22, 0x5D];
            && ParseText(Input(Terminated(before), strtod), true).Parsed?
            && Minified(before) == before[..7]
            && ParseText(Input(Terminated(before[..7]), strtod), true).Failed?
  {
    var before: Text := [0x5B, 0x22, 0x5C, 0x5C, 0x22, 0x2C, 0x22, 0x2F, 0x2F, 0x22, 0x5D];
    var b: Text := [0x2F, 0x2F];
    hide Minified, ParseText, Terminated, StringToken, TextOf, TwoStrings;
    assert Quoted(b) == [0x22, 0x2F, 0x2F, 0x22] && Harmless(b) && NulFree(b);
    ReadBehindBackslashes(b, before, strtod);
    CommentIsCut();
    CutOffFails(strtod);
    assert before[..7] == CUT_OFF;
  }

  const CUT_OFF: Text := [LBRACKET, QUOTE, BACKSLASH, BACKSLASH, QUOTE, COMMA, QUOTE]

  lemma {:induction false} CommentIsCut()
    ensures Minified([0x5B, 0x22, 0x5C, 0x5C, 0x22, 0x2C, 0x22, 0x2F, 0x2F, 0x22, 0x5D]) == CUT_OFF
  {
    CommentDropped();
    hide *;
    CutOffParts([0x22, 0x2F, 0x2F, 0x22, 0x5D]);
    BehindBackslash([0x22, 0x2F, 0x2F, 0x22, 0x5D]);
  }

  lemma {:induction false} BehindBackslash(tail: Text)
    ensures Minified([LBRACKET] + (TWO_BACKSLASHES + ([COMMA] + tail)))
         == [LBRACKET] + (TWO_BACKSLASHES + ([COMMA] + InString(tail)))
  {
    hide *;
    Views(tail);
    Views([LBRACKET] + (TWO_BACKSLASHES + ([COMMA] + tail)));
    BackslashToken();
    BackslashTurns();
    PlainByteTurns();
    TokenTurns(TWO_BACKSLASHES, false);
    TurnsAt([COMMA], [COMMA], true, true, tail);
    TurnsAt(TWO_BACKSLASHES, TWO_BACKSLASHES, false, true, [COMMA] + tail);
    TurnsAt([LBRACKET], [LBRACKET], false, false, TWO_BACKSLASHES + ([COMMA] + tail));
  }

  lemma {:induction false} Views(s: Text)
    ensures View(true, s) == InString(s) && View(false, s) == Minified(s)
  {
    hide InString, Minified;
  }

  lemma {:induction false} PlainByteTurns()
    ensures Turns([LBRACKET], [LBRACKET], false, false) && Turns([COMMA], [COMMA], true, true)
  {
    TextTurns([LBRACKET], false);
    HarmlessTurns([COMMA]);
  }

  lemma {:induction false} CutOffParts(tail: Text)
    requires tail == [0x22, 0x2F, 0x2F, 0x22, 0x5D]
    ensures [LBRACKET] + (TWO_BACKSLASHES + ([COMMA] + tail)) == [0x5B, 0x22, 0x5C, 0x5C, 0x22, 0x2C, 0x22, 0x2F, 0x2F, 0x22, 0x5D]
    ensures [LBRACKET] + (TWO_BACKSLASHES + ([COMMA] + [QUOTE])) == CUT_OFF
  {
    assert [COMMA] + tail == [0x2C, 0x22, 0x2F, 0x2F, 0x22, 0x5D];
    assert [COMMA] + [QUOTE] == [0x2C, 0x22];
  }

  lemma {:induction false} CommentDropped()
    ensures InString([0x22, 0x2F, 0x2F, 0x22, 0x5D]) == [QUOTE]
  {
    var t: Text := [0x2F, 0x2F, 0x22, 0x5D];
    assert [0x22, 0x2F, 0x2F, 0x22, 0x5D][1..] == t;
    assert t[2..] == [0x22, 0x5D] && [0x22, 0x5D][1..] == [0x5D] && [0x5D][1..] == [];
    assert AfterLine([0x5D]) == [];
    assert AfterLine([0x22, 0x5D]) == [];
    assert Minified(t) == [];
  }

  lemma {:induction false} CutOffBytes(s: Text)
    requires s == [LBRACKET, QUOTE, BACKSLASH, BACKSLASH, QUOTE, COMMA, QUOTE, NUL]
    ensures Terminated(CUT_OFF) == s && Start(s) == 0
    ensures SkipBlanks(s, 1) == 1 && SkipBlanks(s, 5) == 5 && SkipBlanks(s, 6) == 6
    ensures At(s, 1, TWO_BACKSLASHES) && ParseString(s, 6).Failed?
  {
    assert s[0..3][0] != BYTE_ORDER_MARK[0];
    assert s[1..5] == TWO_BACKSLASHES;
    assert Scan(s, 7) == None;
  }

  lemma {:induction false} CutOffFails(strtod: Converter)
    ensures ParseText(Input(Terminated(CUT_OFF), strtod), true).Failed?
  {
    var s: Text := [LBRACKET, QUOTE, BACKSLASH, BACKSLASH, QUOTE, COMMA, QUOTE, NUL];
    CutOffBytes(s);
    hide *;
    OpenElementFails(Input(s, strtod));
  }

  lemma {:induction false} OpenElementFails(inp: Input)
    requires |inp.s| == 8 && inp.s[0] == LBRACKET && inp.s[1] == QUOTE && inp.s[5] == COMMA && inp.s[6] == QUOTE && Start(inp.s) == 0
    requires SkipBlanks(inp.s, 1) == 1 && SkipBlanks(inp.s, 5) == 5 && SkipBlanks(inp.s, 6) == 6
    requires At(inp.s, 1, TWO_BACKSLASHES) && ParseString(inp.s, 6).Failed?
    ensures ParseText(inp, true).Failed?
  {
    hide At, Start, SkipBlanks, ParseString, StringToken, StringValue, ParseValue, ParseItems;
    BackslashToken();
    Grammar.Dispatch(inp, 6, 1);
    Grammar.ReadsString(inp, TWO_BACKSLASHES, 1, 1);
    SecondFails(inp);
    if ParseText(inp, true).Parsed? {
      Grammar.ArrayRead(inp, 0, 0);
      Grammar.ItemsRead(inp, 1, 1);
    }
  }

  lemma {:induction false} SecondFails(inp: Input)
    requires 6 <= |inp.s| && ParseValue(inp, 6, 1).Failed?
    ensures ParseItems(inp, 6, 1).Failed?
  {
    hide ParseValue;
  }

  /** "\/\/" loses its slashes, and its backslashes make up one. */
  lemma {:induction false} EscapedSlashesMerge()
    ensures var raw: Text := [QUOTE, BACKSLASH, SLASH, BACKSLASH, SLASH, QUOTE];
            && FairToken(raw, true) && !SafeToken(raw, true) && WalkedToken(raw, true) == TWO_BACKSLASHES
            && StringToken(raw) && StringValue(raw) == [SLASH, SLASH]
  {
    hide StringToken, StringValue, WalkedToken, MildToken, TWO_BACKSLASHES;
    SlashesWear();
    SlashesToken();
    BackslashToken();
    assert [BACKSLASH] != [SLASH, SLASH];
  }

  lemma {:induction false} SlashesWear()
    ensures var raw: Text := [QUOTE, BACKSLASH, SLASH, BACKSLASH, SLASH, QUOTE];
            MildToken(raw, true) && WalkedToken(raw, true) == TWO_BACKSLASHES
  {
    var t: Text := [BACKSLASH, SLASH, BACKSLASH, SLASH, QUOTE];
    var u: Text := [BACKSLASH, SLASH, QUOTE];
    assert t[1..] == [SLASH] + u && ([SLASH] + u)[1..] == u && u[1..] == [SLASH, QUOTE] && [SLASH, QUOTE][1..] == [QUOTE];
    assert Wear([SLASH, QUOTE]) == [QUOTE] && NoComment([SLASH, QUOTE]);
    assert Wear(u) == [BACKSLASH, QUOTE] && NoComment(u);
    assert Wear([SLASH] + u) == Wear(u) && NoComment([SLASH] + u);
    assert Wear(t) == [BACKSLASH, BACKSLASH, QUOTE] && NoComment(t);
    assert [QUOTE, BACKSLASH, SLASH, BACKSLASH, SLASH, QUOTE][1..] == t;
  }

  lemma {:induction false} SlashesToken()
    ensures var raw: Text := [QUOTE, BACKSLASH, SLASH, BACKSLASH, SLASH, QUOTE];
            StringToken(raw) && StringValue(raw) == [SLASH, SLASH]
  {
    hide StringToken, StringValue, ParseString;
    var one := [Short(SLASH)];
    var ps := one + one;
    OnePiece(Short(SLASH));
    PiecesTogether(one, one);
    assert PiecesText(ps) == [BACKSLASH, SLASH, BACKSLASH, SLASH] && PiecesMeaning(ps) == [SLASH, SLASH];
    TokenOfPieces(ps);
    assert Quoted(PiecesText(ps)) == [QUOTE, BACKSLASH, SLASH, BACKSLASH, SLASH, QUOTE];
    CStringOfNulFree([SLASH, SLASH]);
    TokensAreRead([QUOTE, BACKSLASH, SLASH, BACKSLASH, SLASH, QUOTE]);
  }

  /** What is left of "\/" is no token: its backslash escapes the closing quote. */
  lemma {:induction false} EscapedSlashOpens()
    ensures var raw: Text := [QUOTE, BACKSLASH, SLASH, QUOTE];
            StringToken(raw) && !StringToken(WalkedToken(raw, true))
  {
    var raw: Text := [QUOTE, BACKSLASH, SLASH, QUOTE];
    var ps := [Short(SLASH)];
    assert ps[1..] == [] && PieceText(Short(SLASH)) == [BACKSLASH, SLASH];
    assert raw[1..] == [BACKSLASH, SLASH, QUOTE] && [BACKSLASH, SLASH, QUOTE][1..] == [SLASH, QUOTE] && [SLASH, QUOTE][1..] == [QUOTE];
    assert Wear([SLASH, QUOTE]) == [QUOTE];
    var left: Text := [QUOTE, BACKSLASH, QUOTE];
    assert WalkedToken(raw, true) == left && Scan(left, 1) == None;
    hide StringToken, StringValue, PieceText;
    TokenOfPieces(ps);
    assert PiecesText(ps) == [BACKSLASH, SLASH];
    assert Quoted(PiecesText(ps)) == raw;
    TokensAreRead(left);
  }

  /** A blank taken from "\uZZZZ " is not missed, since the string has ended. */
  lemma {:induction false} BrokenHidesLoss()
    ensures var z: Text := ESCAPE_U + [0x5A, 0x5A, 0x5A, 0x5A];
            var raw := Quoted(z + [SPACE]);
            && !KeptToken(raw, true) && WalkedToken(raw, true) == Quoted(z)
            && StringToken(raw) && StringToken(Quoted(z)) && StringValue(raw) == StringValue(Quoted(z)) == []
  {
    hide *;
    var d: Text := [0x5A, 0x5A, 0x5A, 0x5A];
    var z := ESCAPE_U + d;
    BrokenPieceToken(d, []);
    BrokenPieceToken(d, [SPACE]);
    assert z + [] == z;
    BlankBehindRun(z);
  }

  lemma {:induction false} BlankBehindRun(z: Text)
    requires z == ESCAPE_U + [0x5A, 0x5A, 0x5A, 0x5A]
    ensures var raw := Quoted(z + [SPACE]); !KeptToken(raw, true) && WalkedToken(raw, true) == Quoted(z)
  {
    var raw := Quoted(z + [SPACE]);
    assert raw[1..] == z + [SPACE, QUOTE];
    assert [SPACE, QUOTE][1..] == [QUOTE] && Wear([SPACE, QUOTE]) == [QUOTE];
    assert z == [BACKSLASH, LOWER_U, 0x5A, 0x5A, 0x5A, 0x5A];
    hide Wear, Untouched, NoComment;
    WearRun(z, [SPACE, QUOTE]);
    UntouchedIsKept(raw[1..]);
    assert |z + [QUOTE]| < |raw[1..]|;
  }

  lemma {:induction false} BrokenPieceToken(d: Text, t: Text)
    requires d == [0x5A, 0x5A, 0x5A, 0x5A] && (t == [] || t == [SPACE])
    ensures StringToken(Quoted((ESCAPE_U + d) + t)) && StringValue(Quoted((ESCAPE_U + d) + t)) == []
  {
    var rest := PlainPieces(t);
    var ps := [Broken(d)] + rest;
    var text := (ESCAPE_U + d) + t;
    assert HexPrefix(d, 0, 1) == None;
    assert HexPrefix(d, 0, 2) == None;
    assert HexPrefix(d, 0, 3) == None;
    assert ps[1..] == rest;
    LooseStep(ps);
    assert PiecesText(ps) == text && PiecesMeaning(ps) == [NUL] + t;
    assert Closed(t) && Closed(text) by {
      PlainRunIsClosed(t, []);
      assert t + [] == t;
      assert text == [BACKSLASH, LOWER_U] + (d + t);
      PlainRunIsClosed(d, t);
    }
    assert Token(Quoted(text), text, ps);
    assert CString([NUL] + t) == [];
    hide StringToken, StringValue, ParseString, Token;
    TokenIsRead(Quoted(text), text, ps);
    TokensAreRead(Quoted(text));
  }
}
