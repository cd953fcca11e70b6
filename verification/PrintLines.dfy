/**
 * What cJSON_Print makes of cJSON_PrintUnformatted's text: line feeds, tabs and blanks that depend on the bytes of that text alone;
 * and which text a number has.
 */
module PrintLines {
  import opened Ascii
  import opened Values
  import opened ParseSpec
  import opened StringSpec
  import opened Tokens
  import opened Escapes
  import opened Render
  import opened Decimals

  // ----- A formatter that knows nothing of values

  function Indent(n: nat): Text {
    seq(n, _ => 0x09)
  }

  function Up(open: seq<bool>): seq<bool> {
    if open == [] then [] else open[..|open| - 1]
  }

  /**
   * The text with the lines of formatted text, outside of strings; `open` says of every open bracket whether it is a brace. Behind
   * an opening brace and a comma in braces a line starts with a tab for each open bracket, and a closing brace stands on a line of
   * its own; a blank follows a comma in square brackets, and a tab a colon.
   */
  function Lines(t: Text, open: seq<bool>): Text
    decreases |t|
  {
    if t == [] then []
    else if t[0] == 0x22 then [0x22] + InWord(t[1..], open)
    else if t[0] == 0x7B && 1 < |t| && t[1] == 0x7D then ([0x7B, 0x0A] + Indent(|open|) + [0x7D]) + Lines(t[2..], open)
    else if t[0] == 0x7B then ([0x7B, 0x0A] + Indent(|open| + 1)) + Lines(t[1..], open + [true])
    else if t[0] == 0x7D then ([0x0A] + Indent(|Up(open)|) + [0x7D]) + Lines(t[1..], Up(open))
    else if t[0] == 0x5B then [0x5B] + Lines(t[1..], open + [false])
    else if t[0] == 0x5D then [0x5D] + Lines(t[1..], Up(open))
    else if t[0] == 0x2C && open != [] && open[|open| - 1] then ([0x2C, 0x0A] + Indent(|open|)) + Lines(t[1..], open)
    else if t[0] == 0x2C then [0x2C, 0x20] + Lines(t[1..], open)
    else if t[0] == 0x3A then [0x3A, 0x09] + Lines(t[1..], open)
    else [t[0]] + Lines(t[1..], open)
  }

  /** Inside a string, where a backslash takes the byte behind it along. */
  function InWord(t: Text, open: seq<bool>): Text
    decreases |t|
  {
    if t == [] then []
    else if t[0] == 0x22 then [0x22] + Lines(t[1..], open)
    else if t[0] == 0x5C && 1 < |t| then [t[0], t[1]] + InWord(t[2..], open)
    else [t[0]] + InWord(t[1..], open)
  }

  /** Met with the brackets `from` open, `a` comes out as `b` and leaves those of `to` open, whatever comes behind it. */
  ghost predicate Lays(a: Text, b: Text, from: seq<bool>, to: seq<bool>) {
    forall rest :: Lines(a + rest, from) == b + Lines(rest, to)
  }

  lemma {:induction false} LaysAt(a: Text, b: Text, from: seq<bool>, to: seq<bool>, rest: Text)
    requires Lays(a, b, from, to)
    ensures Lines(a + rest, from) == b + Lines(rest, to)
  {
    hide Lines;
  }

  lemma {:induction false} Assoc(a: Text, b: Text, c: Text)
    ensures (a + b) + c == a + (b + c)
  {
  }

  lemma {:induction false} LaysBoth(a: Text, b: Text, c: Text, d: Text, from: seq<bool>, mid: seq<bool>, to: seq<bool>)
    requires Lays(a, b, from, mid) && Lays(c, d, mid, to)
    ensures Lays(a + c, b + d, from, to)
  {
    hide Lines;
    forall rest ensures Lines((a + c) + rest, from) == (b + d) + Lines(rest, to) {
      Assoc(a, c, rest);
      LaysAt(a, b, from, mid, c + rest);
      LaysAt(c, d, mid, to, rest);
      Assoc(b, d, Lines(rest, to));
    }
  }

  lemma {:induction false} NothingLays(open: seq<bool>)
    ensures Lays([], [], open, open)
  {
    hide Lines;
    forall rest: Text ensures Lines([] + rest, open) == [] + Lines(rest, open) {
      assert [] + rest == rest;
    }
  }

  predicate Unmarked(t: Text) {
    forall i :: 0 <= i < |t| ==> t[i] !in {0x22, 0x2C, 0x3A, 0x5B, 0x5D, 0x7B, 0x7D}
  }

  lemma {:induction false} UnmarkedLays(t: Text, open: seq<bool>)
    requires Unmarked(t)
    ensures Lays(t, t, open, open)
  {
    hide Lines;
    forall rest ensures Lines(t + rest, open) == t + Lines(rest, open) {
      UnmarkedIsCopied(t, rest, open);
    }
  }

  lemma {:induction false} UnmarkedIsCopied(t: Text, rest: Text, open: seq<bool>)
    requires Unmarked(t)
    ensures Lines(t + rest, open) == t + Lines(rest, open)
  {
    hide Indent, Up;
    if t == [] {
      assert t + rest == rest;
    } else {
      assert (t + rest)[1..] == t[1..] + rest;
      UnmarkedIsCopied(t[1..], rest, open);
    }
  }

  /** One byte, outside of strings. */
  lemma {:induction false} OneByteLays(b: byte, u: Text, from: seq<bool>, to: seq<bool>)
    requires b != 0x22 && b != 0x7B
    requires to == if b == 0x5B then from + [false] else if b == 0x5D || b == 0x7D then Up(from) else from
    requires u == if b == 0x7D then [0x0A] + Indent(|Up(from)|) + [0x7D]
                  else if b == 0x2C then (if from != [] && from[|from| - 1] then [0x2C, 0x0A] + Indent(|from|) else [0x2C, 0x20])
                  else if b == 0x3A then [0x3A, 0x09] else [b]
    ensures Lays([b], u, from, to)
  {
    hide Up, Indent;
    forall rest ensures Lines([b] + rest, from) == u + Lines(rest, to) {
      assert ([b] + rest)[1..] == rest;
    }
  }

  // ----- Strings

  lemma {:induction false} RunInWord(d: Text, rest: Text, open: seq<bool>)
    requires forall i :: 0 <= i < |d| ==> d[i] != 0x22 && d[i] != 0x5C
    ensures InWord(d + rest, open) == d + InWord(rest, open)
  {
    if d == [] {
      assert d + rest == rest;
    } else {
      assert (d + rest)[1..] == d[1..] + rest;
      RunInWord(d[1..], rest, open);
    }
  }

  lemma {:induction false} PieceInWord(b: byte, rest: Text, open: seq<bool>)
    ensures InWord(PieceText(EscapedByte(b)) + rest, open) == PieceText(EscapedByte(b)) + InWord(rest, open)
  {
    var p := EscapedByte(b);
    hide HexDigits, Hex4, EscapedByte, HexPrefix, Lines;
    match p
    case Plain(c) => RunInWord([c], rest, open);
    case Short(letter) => assert ([BACKSLASH, letter] + rest)[2..] == rest;
    case Code(d) => CodeInWord(d, rest, open);
  }

  lemma {:induction false} CodeInWord(d: Text, rest: Text, open: seq<bool>)
    requires HexDigits(d)
    ensures InWord((ESCAPE_U + d) + rest, open) == (ESCAPE_U + d) + InWord(rest, open)
  {
    HexBytes(d, 4);
    var t := (ESCAPE_U + d) + rest;
    assert t[2..] == d + rest && t[0] == BACKSLASH && t[1] == LOWER_U && 1 < |t|;
    hide HexDigits, Lines;
    RunInWord(d, rest, open);
    Assoc(ESCAPE_U, d, InWord(rest, open));
  }

  lemma {:induction false} EscapedInWord(s: Text, rest: Text, open: seq<bool>)
    ensures InWord(Escaped(s) + rest, open) == Escaped(s) + InWord(rest, open)
  {
    hide InWord, EscapedByte, PieceText;
    if s == [] {
      assert Escaped(s) + rest == rest;
    } else {
      var p := PieceText(EscapedByte(s[0]));
      Assoc(p, Escaped(s[1..]), rest);
      PieceInWord(s[0], Escaped(s[1..]) + rest, open);
      EscapedInWord(s[1..], rest, open);
      Assoc(p, Escaped(s[1..]), InWord(rest, open));
    }
  }

  lemma {:induction false} WordLays(s: Text, open: seq<bool>)
    ensures Lays(Quoted(Escaped(s)), Quoted(Escaped(s)), open, open)
  {
    hide Escaped;
    var e := Escaped(s);
    forall rest ensures Lines(Quoted(e) + rest, open) == Quoted(e) + Lines(rest, open) {
      assert (Quoted(e) + rest)[1..] == e + ([QUOTE] + rest);
      EscapedInWord(s, [QUOTE] + rest, open);
      assert ([QUOTE] + rest)[1..] == rest;
      assert [QUOTE] + (e + ([QUOTE] + Lines(rest, open))) == Quoted(e) + Lines(rest, open);
    }
  }

  // ----- Values

  lemma {:induction false} ScalarLays(v: Value, n: Numerals, open: seq<bool>)
    requires !v.Arr? && !v.Obj?
    ensures Lays(RenderValue(v, Format(false, n), |open|), RenderValue(v, Format(true, n), |open|), open, open)
  {
    hide Lays, Quoted;
    match v
    case Str(s) => WordLays(s, open);
    case Number(d) => UnmarkedLays(NumeralOf(d, n), open);
    case Null => UnmarkedLays(NULL_TEXT, open);
    case Bool(b) => UnmarkedLays(if b then TRUE_TEXT else FALSE_TEXT, open);
  }

  lemma {:induction false} ValueLays(v: Value, n: Numerals, open: seq<bool>)
    ensures Lays(RenderValue(v, Format(false, n), |open|), RenderValue(v, Format(true, n), |open|), open, open)
    decreases v, 0
  {
    hide Lays, RenderItems, RenderMembers;
    match v
    case Arr(items) =>
      ItemsLay(items, n, open + [false]);
      BracketsLay(RenderItems(items, Format(false, n), |open| + 1), RenderItems(items, Format(true, n), |open| + 1), open);
    case Obj(members) =>
      if members == [] {
        EmptyObjectLays(n, open);
      } else {
        MembersLay(members, n, open + [true]);
        ObjectLays(members, n, open);
      }
    case _ => ScalarLays(v, n, open);
  }

  lemma {:induction false} ObjectLays(members: seq<Member>, n: Numerals, open: seq<bool>)
    requires members != []
    requires Lays(RenderMembers(members, Format(false, n), |open| + 1), Body(members, n, |open| + 1), open + [true], open + [true])
    ensures Lays(RenderValue(Obj(members), Format(false, n), |open|), RenderValue(Obj(members), Format(true, n), |open|), open, open)
  {
    hide Lays, RenderMembers, Body, Tabs, Indent;
    var a, body := RenderMembers(members, Format(false, n), |open| + 1), Body(members, n, |open| + 1);
    BodyIsMembers(members, n, |open| + 1);
    MembersStart(members, n, |open| + 1);
    BracesLay(a, body, open);
    ObjectLines(body, |open|);
    PlainObject(a);
  }

  lemma {:induction false} PlainObject(members: Text)
    ensures ([LBRACE] + []) + (members + ([] + [RBRACE])) == [LBRACE] + (members + [RBRACE])
  {
  }

  lemma {:induction false} BracketsLay(a: Text, b: Text, open: seq<bool>)
    requires Lays(a, b, open + [false], open + [false])
    ensures Lays([LBRACKET] + (a + [RBRACKET]), [LBRACKET] + (b + [RBRACKET]), open, open)
  {
    var inner := open + [false];
    assert Up(inner) == open;
    OneByteLays(0x5B, [0x5B], open, inner);
    OneByteLays(0x5D, [0x5D], inner, open);
    hide Lays;
    LaysBoth(a, b, [0x5D], [0x5D], inner, inner, open);
    LaysBoth([0x5B], [0x5B], a + [0x5D], b + [0x5D], open, inner, open);
  }

  lemma {:induction false} EmptyObjectLays(n: Numerals, open: seq<bool>)
    ensures Lays(RenderValue(Obj([]), Format(false, n), |open|), RenderValue(Obj([]), Format(true, n), |open|), open, open)
  {
    var a, b := RenderValue(Obj([]), Format(false, n), |open|), RenderValue(Obj([]), Format(true, n), |open|);
    assert a == [0x7B, 0x7D] && b == [0x7B, 0x0A] + Indent(|open|) + [0x7D];
    forall rest ensures Lines(a + rest, open) == b + Lines(rest, open) {
      assert (a + rest)[2..] == rest;
    }
  }

  lemma {:induction false} BracesLay(a: Text, b: Text, open: seq<bool>)
    requires a != [] && a[0] == QUOTE && Lays(a, b, open + [true], open + [true])
    ensures Lays([LBRACE] + (a + [RBRACE]), ([LBRACE, LF] + Indent(|open| + 1)) + (b + ([LF] + Indent(|open|) + [RBRACE])), open, open)
  {
    var inner := open + [true];
    var tail := [LF] + Indent(|open|) + [RBRACE];
    assert Up(inner) == open;
    OneByteLays(0x7D, tail, inner, open);
    LaysBoth(a, b, [0x7D], tail, inner, inner, open);
    forall rest ensures Lines(([LBRACE] + (a + [RBRACE])) + rest, open)
                        == (([LBRACE, LF] + Indent(|open| + 1)) + (b + tail)) + Lines(rest, open)
    {
      OpensBrace(a + [RBRACE], rest, open);
      hide Lines, Indent;
      LaysAt(a + [RBRACE], b + tail, inner, open, rest);
      Assoc([LBRACE, LF] + Indent(|open| + 1), b + tail, Lines(rest, open));
    }
  }

  lemma {:induction false} OpensBrace(a: Text, rest: Text, open: seq<bool>)
    requires a != [] && a[0] == QUOTE
    ensures Lines(([LBRACE] + a) + rest, open) == ([LBRACE, LF] + Indent(|open| + 1)) + Lines(a + rest, open + [true])
  {
    hide Indent;
    assert (([LBRACE] + a) + rest)[1..] == a + rest;
  }

  lemma {:induction false} ItemsLay(items: seq<Value>, n: Numerals, open: seq<bool>)
    requires open != [] && !open[|open| - 1]
    ensures Lays(RenderItems(items, Format(false, n), |open|), RenderItems(items, Format(true, n), |open|), open, open)
    decreases items
  {
    hide RenderValue, Lays;
    if items == [] {
      NothingLays(open);
    } else {
      var a, b := RenderValue(items[0], Format(false, n), |open|), RenderValue(items[0], Format(true, n), |open|);
      ValueLays(items[0], n, open);
      ItemsLay(items[1..], n, open);
      if |items| == 1 {
        NothingLays(open);
        LaysBoth(a, b, [], [], open, open, open);
      } else {
        OneByteLays(0x2C, [0x2C, 0x20], open, open);
        LaysBoth(a, b, [0x2C], [0x2C, 0x20], open, open, open);
      }
      LaysBoth(RenderElement(items[0], |items| == 1, Format(false, n), |open|), RenderElement(items[0], |items| == 1, Format(true, n), |open|),
               RenderItems(items[1..], Format(false, n), |open|), RenderItems(items[1..], Format(true, n), |open|), open, open, open);
    }
  }

  /** The lines of members, without the tabs in front and the line feed at the end. */
  function Body(members: seq<Member>, n: Numerals, depth: nat): Text
    requires members != []
    decreases members
  {
    var m := members[0];
    (Quoted(Escaped(m.key)) + ([COLON, TAB] + RenderValue(m.value, Format(true, n), depth)))
    + if |members| == 1 then [] else ([COMMA, LF] + Indent(depth)) + Body(members[1..], n, depth)
  }

  lemma {:induction false} TabsAreIndent(depth: nat)
    ensures Tabs(depth) == Indent(depth)
  {
  }

  lemma {:induction false} BodyIsMembers(members: seq<Member>, n: Numerals, depth: nat)
    requires members != []
    ensures RenderMembers(members, Format(true, n), depth) == Indent(depth) + (Body(members, n, depth) + [LF])
    decreases members
  {
    hide RenderValue, Quoted, Escaped, Tabs, Indent;
    TabsAreIndent(depth);
    var key, text := Quoted(Escaped(members[0].key)), RenderValue(members[0].value, Format(true, n), depth);
    if |members| > 1 {
      BodyIsMembers(members[1..], n, depth);
      MoreLines(Indent(depth), key, text, Body(members[1..], n, depth));
    } else {
      assert members[1..] == [];
      LastLine(Indent(depth), key, text);
    }
  }

  lemma {:induction false} MoreLines(tabs: Text, key: Text, text: Text, body: Text)
    ensures (tabs + (key + [COLON, TAB])) + (text + ([COMMA] + [LF])) + (tabs + (body + [LF]))
            == tabs + (((key + ([COLON, TAB] + text)) + (([COMMA, LF] + tabs) + body)) + [LF])
  {
  }

  lemma {:induction false} LastLine(tabs: Text, key: Text, text: Text)
    ensures (tabs + (key + [COLON, TAB])) + (text + ([] + [LF])) + [] == tabs + (((key + ([COLON, TAB] + text)) + []) + [LF])
  {
  }

  lemma {:induction false} MembersStart(members: seq<Member>, n: Numerals, depth: nat)
    requires members != []
    ensures var a := RenderMembers(members, Format(false, n), depth); a != [] && a[0] == QUOTE
  {
    hide RenderValue, Escaped;
  }

  lemma {:induction false} ObjectLines(body: Text, depth: nat)
    ensures ([LBRACE] + [LF]) + ((Indent(depth + 1) + (body + [LF])) + (Tabs(depth) + [RBRACE]))
            == ([LBRACE, LF] + Indent(depth + 1)) + (body + ([LF] + Indent(depth) + [RBRACE]))
  {
    TabsAreIndent(depth);
    hide Tabs, Indent;
  }

  lemma {:induction false} MemberLays(m: Member, n: Numerals, open: seq<bool>)
    ensures Lays(Quoted(Escaped(m.key)) + ([COLON] + RenderValue(m.value, Format(false, n), |open|)),
                 Quoted(Escaped(m.key)) + ([COLON, TAB] + RenderValue(m.value, Format(true, n), |open|)), open, open)
    decreases m, 1
  {
    hide RenderValue, Lays, Quoted, Escaped;
    var key := Quoted(Escaped(m.key));
    var a, b := RenderValue(m.value, Format(false, n), |open|), RenderValue(m.value, Format(true, n), |open|);
    WordLays(m.key, open);
    ValueLays(m.value, n, open);
    OneByteLays(0x3A, [0x3A, 0x09], open, open);
    LaysBoth([COLON], [COLON, TAB], a, b, open, open, open);
    LaysBoth(key, key, [COLON] + a, [COLON, TAB] + b, open, open, open);
  }

  lemma {:induction false} MembersLay(members: seq<Member>, n: Numerals, open: seq<bool>)
    requires members != [] && open != [] && open[|open| - 1]
    ensures Lays(RenderMembers(members, Format(false, n), |open|), Body(members, n, |open|), open, open)
    decreases members
  {
    hide RenderValue, Lays, Quoted, Escaped, Indent;
    var m := members[0];
    var a := Quoted(Escaped(m.key)) + ([COLON] + RenderValue(m.value, Format(false, n), |open|));
    var b := Quoted(Escaped(m.key)) + ([COLON, TAB] + RenderValue(m.value, Format(true, n), |open|));
    MemberLays(m, n, open);
    UnformattedMembers(members, n, |open|);
    if |members| == 1 {
      NothingLays(open);
      LaysBoth(a, b, [], [], open, open, open);
    } else {
      var rest := RenderMembers(members[1..], Format(false, n), |open|);
      MembersLay(members[1..], n, open);
      OneByteLays(0x2C, [0x2C, 0x0A] + Indent(|open|), open, open);
      LaysBoth([COMMA], [COMMA, LF] + Indent(|open|), rest, Body(members[1..], n, |open|), open, open, open);
      LaysBoth(a, b, [COMMA] + rest, ([COMMA, LF] + Indent(|open|)) + Body(members[1..], n, |open|), open, open, open);
    }
  }

  lemma {:induction false} UnformattedMembers(members: seq<Member>, n: Numerals, depth: nat)
    requires members != []
    ensures RenderMembers(members, Format(false, n), depth) ==
            (Quoted(Escaped(members[0].key)) + ([COLON] + RenderValue(members[0].value, Format(false, n), depth)))
            + if |members| == 1 then [] else [COMMA] + RenderMembers(members[1..], Format(false, n), depth)
  {
    hide RenderValue, Quoted, Escaped;
    if |members| == 1 {
      assert members[1..] == [];
    }
  }

  /** The formatted text of any value is what the formatter makes of its unformatted text. */
  lemma {:induction false} FormattingAddsLines(v: Value, n: Numerals)
    ensures RenderValue(v, Format(true, n), 0) == Lines(RenderValue(v, Format(false, n), 0), [])
  {
    ValueLays(v, n, []);
    var a, b := RenderValue(v, Format(false, n), 0), RenderValue(v, Format(true, n), 0);
    hide RenderValue;
    LaysAt(a, b, [], [], []);
    assert a + [] == a;
  }

  // ----- Numbers

  /**
   * Which text a number has: an int that of its digits; any other number the one with fifteen digits, if what is read back differs
   * from it by no more than the epsilon of the larger of both, and else the one with seventeen.
   */
  lemma {:induction false} NumbersArePrinted(d: real, fmt: Format)
    ensures var t := RenderValue(Number(d), fmt, 0);
            var short := fmt.numerals.digits15(d);
            var back := fmt.numerals.scan(short);
            if d == d.Floor as real && -0x8000_0000 <= d.Floor <= 0x7FFF_FFFF then Decimal(t) == Strtod(|t|, d)
            else if back.Some? && Abs(back.value - d) * 4503599627370496.0 <= Larger(Abs(back.value), Abs(d)) then t == short
            else t == fmt.numerals.digits17(d)
  {
    DecimalReadsBack(d.Floor);
  }

  function Larger(a: real, b: real): real {
    if a < b then b else a
  }
}
