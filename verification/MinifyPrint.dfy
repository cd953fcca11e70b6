/** When minifying the formatted text of a value gives its unformatted text: exactly unless a backslash gets in the way. */
module MinifyPrint {
  import opened Ascii
  import opened Values
  import opened Tokens
  import opened Layouts
  import opened Escapes
  import opened Render
  import opened RoundTrip
  import opened Minifier
  import opened MinifyMeaning
  import opened MinifyWalk

  /** What cJSON_Print and cJSON_PrintUnformatted ask for. */
  function Formatted(n: Numerals): Format {
    Format(true, n)
  }

  function Unformatted(n: Numerals): Format {
    Format(false, n)
  }

  predicate EndsInBackslash(s: Text) {
    s != [] && s[|s| - 1] == BACKSLASH
  }

  /** No string and no key ends in a backslash. */
  predicate Clear(v: Value)
    decreases v
  {
    match v
    case Str(s) => !EndsInBackslash(s)
    case Arr(items) => AllClear(items)
    case Obj(members) => MembersClear(members)
    case _ => true
  }

  predicate AllClear(items: seq<Value>)
    decreases items
  {
    items == [] || (Clear(items[0]) && AllClear(items[1..]))
  }

  predicate MembersClear(members: seq<Member>)
    decreases members
  {
    members == [] || (!EndsInBackslash(members[0].key) && Clear(members[0].value) && MembersClear(members[1..]))
  }

  /** A string that ends in a backslash may only stand at the very end, with nothing but closing brackets behind it. */
  predicate MinifiesWell(v: Value)
    decreases v
  {
    match v
    case Arr(items) => ItemsMinifyWell(items)
    case Obj(members) => MembersClear(members)
    case _ => true
  }

  predicate ItemsMinifyWell(items: seq<Value>)
    decreases items
  {
    if items == [] then true
    else if |items| == 1 then MinifiesWell(items[0])
    else Clear(items[0]) && ItemsMinifyWell(items[1..])
  }

  // ----- Values without such strings

  lemma {:induction false} EscapedEnds(s: Text)
    ensures Escaped(s) != [] && Escaped(s)[|Escaped(s)| - 1] == BACKSLASH <==> EndsInBackslash(s)
    ensures s != [] ==> Escaped(s) != []
  {
    if s != [] {
      var p := PieceText(EscapedByte(s[0]));
      EscapedByteEnds(s[0]);
      EscapedEnds(s[1..]);
      assert Escaped(s) == p + Escaped(s[1..]);
    }
  }

  lemma {:induction false} EscapedByteEnds(b: byte)
    ensures var p := PieceText(EscapedByte(b)); p != [] && (p[|p| - 1] == BACKSLASH <==> b == BACKSLASH)
  {
    if EscapedByte(b).Code? {
      assert EscapedByte(b).digits == HexText(b);
    }
  }

  lemma {:induction false} QuotedToken(s: Text)
    ensures var raw := Quoted(Escaped(s)); StringToken(raw) && (Misread(raw) <==> EndsInBackslash(s))
  {
    EscapedIsPieces(s);
    TokenOfPieces(EscapedPieces(s));
    EscapedEnds(s);
  }

  lemma {:induction false} SpacesVanish(t: Text)
    requires forall i :: 0 <= i < |t| ==> Space(t[i])
    ensures Gap(t) && Minified(t) == []
  {
    if t != [] {
      assert Space(t[0]);
      SpacesVanish(t[1..]);
    }
  }

  lemma {:induction false} LineVanishes(depth: nat)
    ensures Gap(Line(true, depth)) && Minified(Line(true, depth)) == []
    ensures Gap(Tabs(depth)) && Minified(Tabs(depth)) == []
    ensures Gap([]) && Minified([]) == []
    ensures Gap([SPACE]) && Minified([SPACE]) == [] && Gap([TAB]) && Minified([TAB]) == []
    ensures Gap([LF]) && Minified([LF]) == []
  {
    SpacesVanish(Line(true, depth));
    SpacesVanish(Tabs(depth));
    SpacesVanish([SPACE]);
    SpacesVanish([TAB]);
    SpacesVanish([LF]);
  }

  lemma {:induction false} ClearLayout(v: Value, depth: nat, n: Numerals)
    requires Clear(v)
    ensures var l := LayoutFor(v, Formatted(n), depth);
            Walkable(l, false) && Walked(l, false) == LayoutFor(v, Unformatted(n), depth) && !StateAfter(l, false)
    decreases v
  {
    hide Gap, Minified, Quoted, Escaped, StringToken, StringValue, Misread, Tabs, EndsInBackslash, NoComment, Wear;
    match v
    case Str(s) => QuotedToken(s);
    case Arr(items) =>
      LineVanishes(depth);
      if items != [] {
        ClearElements(items, [], depth + 1, n);
      }
    case Obj(members) =>
      LineVanishes(depth);
      if members != [] {
        ClearPairs(members, depth, n);
      }
    case _ =>
  }

  lemma {:induction false} ClearElements(items: seq<Value>, before: Text, depth: nat, n: Numerals)
    requires items != [] && AllClear(items) && Gap(before) && Minified(before) == []
    ensures var es := ElementsFor(items, before, Formatted(n), depth);
            && WalkableElements(es, false) && WalkedElements(es, false) == ElementsFor(items, [], Unformatted(n), depth)
            && !ElementsAfter(es, false)
    decreases items
  {
    ClearLayout(items[0], depth, n);
    hide Gap, Minified, LayoutFor, Walked, Walkable, StateAfter, Clear;
    LineVanishes(depth);
    if |items| > 1 {
      ClearElements(items[1..], [SPACE], depth, n);
    }
  }

  lemma {:induction false} ClearPair(m: Member, last: bool, depth: nat, n: Numerals)
    requires !EndsInBackslash(m.key)
    requires var l := LayoutFor(m.value, Formatted(n), depth + 1);
             Walkable(l, false) && Walked(l, false) == LayoutFor(m.value, Unformatted(n), depth + 1) && !StateAfter(l, false)
    ensures var raw := Quoted(Escaped(m.key));
            var p := Pair(Line(true, depth + 1), raw, [], [TAB], LayoutFor(m.value, Formatted(n), depth + 1), if last then Line(true, depth) else []);
            && WalkablePair(p, false) && WalkedPair(p, false) == Pair([], raw, [], [], LayoutFor(m.value, Unformatted(n), depth + 1), [])
            && !PairAfter(p, false)
  {
    hide Gap, Minified, LayoutFor, Walked, Walkable, StateAfter, Quoted, Escaped, StringToken, StringValue, Misread, EndsInBackslash, Line;
    QuotedToken(m.key);
    LineVanishes(depth);
    LineVanishes(depth + 1);
  }

  lemma {:induction false} ClearPairs(members: seq<Member>, depth: nat, n: Numerals)
    requires members != [] && MembersClear(members)
    ensures var ps := PairsFor(members, Formatted(n), depth);
            && WalkablePairs(ps, false) && WalkedPairs(ps, false) == PairsFor(members, Unformatted(n), depth)
            && !PairsAfter(ps, false)
    decreases members
  {
    ClearLayout(members[0].value, depth + 1, n);
    ClearPair(members[0], |members| == 1, depth, n);
    hide Gap, Minified, LayoutFor, Walked, Walkable, Clear, WalkablePair, WalkedPair, PairAfter, Quoted, Escaped, EndsInBackslash, Tabs;
    if |members| > 1 {
      ClearPairs(members[1..], depth, n);
    }
  }

  lemma {:induction false} ClearBecomes(v: Value, depth: nat, n: Numerals)
    requires Clear(v)
    ensures Becomes(RenderValue(v, Formatted(n), depth), RenderValue(v, Unformatted(n), depth))
  {
    hide *;
    ClearLayout(v, depth, n);
    WalkTurns(LayoutFor(v, Formatted(n), depth), false);
    RenderIsLayout(v, Formatted(n), depth);
    RenderIsLayout(v, Unformatted(n), depth);
    TurnsBecomes(RenderValue(v, Formatted(n), depth), RenderValue(v, Unformatted(n), depth));
  }

  // ----- Texts that leave a string open

  /** `a` is minified to `b` but leaves the scan inside a string. */
  ghost predicate Opens(a: Text, b: Text) {
    forall rest :: Minified(a + rest) == b + InString(rest)
  }

  lemma {:induction false} OpensBehind(a: Text, b: Text, c: Text, d: Text)
    requires Becomes(a, b) && Opens(c, d)
    ensures Opens(a + c, b + d)
  {
    hide Minified, InString;
    forall rest ensures Minified((a + c) + rest) == (b + d) + InString(rest) {
      assert (a + c) + rest == a + (c + rest);
      assert Minified(c + rest) == d + InString(rest);
      assert b + (d + InString(rest)) == (b + d) + InString(rest);
    }
  }

  /** In an open string every byte but a quote and a backslash is copied. */
  lemma {:induction false} OpensOn(a: Text, b: Text, x: byte)
    requires Opens(a, b) && x != QUOTE && x != BACKSLASH
    ensures Opens(a + [x], b + [x])
  {
    hide Minified;
    forall rest ensures Minified((a + [x]) + rest) == (b + [x]) + InString(rest) {
      assert (a + [x]) + rest == a + ([x] + rest);
      Cons(x, rest);
      assert b + ([x] + InString(rest)) == (b + [x]) + InString(rest);
    }
  }

  lemma {:induction false} TokenOpens(raw: Text)
    requires StringToken(raw) && Misread(raw)
    ensures Opens(raw, raw)
  {
    hide Minified, InString, StringToken, StringValue, Misread;
    forall rest ensures Minified(raw + rest) == raw + InString(rest) {
      TokenMinified(raw, rest);
    }
  }

  // ----- Texts that go astray

  predicate Differ(x: Text, y: Text) {
    exists k :: 0 <= k < |x| && k < |y| && x[k] != y[k]
  }

  /** Whatever comes behind `a` and behind `b`, what `a` is minified to differs from `b`. */
  ghost predicate Strays(a: Text, b: Text) {
    forall rest :: Differ(Minified(a + rest), b)
  }

  lemma {:induction false} DifferLater(p: Text, x: Text, y: Text)
    requires Differ(x, y)
    ensures Differ(p + x, p + y)
  {
    var k :| 0 <= k < |x| && k < |y| && x[k] != y[k];
    assert (p + x)[|p| + k] != (p + y)[|p| + k];
  }

  lemma {:induction false} DifferLonger(x: Text, y: Text, z: Text)
    requires Differ(x, y)
    ensures Differ(x, y + z)
  {
    var k :| 0 <= k < |x| && k < |y| && x[k] != y[k];
    assert x[k] != (y + z)[k];
  }

  lemma {:induction false} StraysBehind(a: Text, b: Text, c: Text, d: Text)
    requires Becomes(a, b) && Strays(c, d)
    ensures Strays(a + c, b + d)
  {
    hide Minified, Differ;
    forall rest ensures Differ(Minified((a + c) + rest), b + d) {
      assert (a + c) + rest == a + (c + rest);
      DifferLater(b, Minified(c + rest), d);
    }
  }

  lemma {:induction false} StraysBefore(a: Text, b: Text, c: Text, d: Text)
    requires Strays(a, b)
    ensures Strays(a + c, b + d)
  {
    hide Minified, Differ;
    forall rest ensures Differ(Minified((a + c) + rest), b + d) {
      assert (a + c) + rest == a + (c + rest);
      DifferLonger(Minified(a + (c + rest)), b, d);
    }
  }

  /** An open string copies a blank that the unformatted text does not have. */
  lemma {:induction false} OpenStrays(a: Text, b: Text, x: byte, c: Text, d: Text)
    requires Opens(a, b) && x <= SPACE && d != [] && d[0] > SPACE
    ensures Strays(a + ([x] + c), b + d)
  {
    hide Minified, Differ;
    forall rest ensures Differ(Minified((a + ([x] + c)) + rest), b + d) {
      assert (a + ([x] + c)) + rest == a + ([x] + (c + rest));
      Cons(x, c + rest);
      DifferAtOnce([x] + InString(c + rest), d);
      DifferLater(b, [x] + InString(c + rest), d);
    }
  }

  lemma {:induction false} DifferAtOnce(x: Text, y: Text)
    requires x != [] && y != [] && x[0] != y[0]
    ensures Differ(x, y)
  {
  }

  // ----- Values with such strings

  lemma {:induction false} FirstIsNoBlank(v: Value, fmt: Format, depth: nat)
    ensures RenderValue(v, fmt, depth) != [] && RenderValue(v, fmt, depth)[0] > SPACE
  {
    hide Escaped, RenderItems, RenderMembers;
  }

  lemma {:induction false} ValueOpens(v: Value, depth: nat, n: Numerals)
    requires MinifiesWell(v) && !Clear(v)
    ensures Opens(RenderValue(v, Formatted(n), depth), RenderValue(v, Unformatted(n), depth))
    decreases v
  {
    hide Opens, Becomes, Quoted, Escaped, StringToken, StringValue, Misread, EndsInBackslash, RenderItems;
    match v
    case Str(s) =>
      QuotedToken(s);
      TokenOpens(Quoted(Escaped(s)));
    case Arr(items) =>
      ItemsOpen(items, depth + 1, n);
      var a, b := RenderItems(items, Formatted(n), depth + 1), RenderItems(items, Unformatted(n), depth + 1);
      OpensOn(a, b, RBRACKET);
      BecomesPlain([LBRACKET]);
      OpensBehind([LBRACKET], [LBRACKET], a + [RBRACKET], b + [RBRACKET]);
  }

  /** An item that closes its strings, with the comma behind it. */
  lemma {:induction false} ElementBecomesShort(v: Value, depth: nat, n: Numerals)
    requires Clear(v)
    ensures Becomes(RenderElement(v, false, Formatted(n), depth), RenderElement(v, false, Unformatted(n), depth))
  {
    hide Becomes, RenderValue, Minified;
    ClearBecomes(v, depth, n);
    LineVanishes(0);
    GapBecomes([SPACE]);
    BecomesPlain([COMMA]);
    BecomesBoth([COMMA], [COMMA], [SPACE], []);
    assert [COMMA] + [SPACE] == ItemSeparator(true) && [COMMA] + [] == ItemSeparator(false);
    BecomesBoth(RenderValue(v, Formatted(n), depth), RenderValue(v, Unformatted(n), depth), ItemSeparator(true), ItemSeparator(false));
  }

  lemma {:induction false} ItemsOpen(items: seq<Value>, depth: nat, n: Numerals)
    requires ItemsMinifyWell(items) && !AllClear(items)
    ensures Opens(RenderItems(items, Formatted(n), depth), RenderItems(items, Unformatted(n), depth))
    decreases items
  {
    hide Opens, Becomes, RenderValue, ItemSeparator, Clear, MinifiesWell;
    if |items| == 1 {
      ValueOpens(items[0], depth, n);
      Alone(items[0], Formatted(n), depth);
      Alone(items[0], Unformatted(n), depth);
    } else {
      ElementBecomesShort(items[0], depth, n);
      ItemsOpen(items[1..], depth, n);
      OpensBehind(RenderElement(items[0], false, Formatted(n), depth), RenderElement(items[0], false, Unformatted(n), depth),
                  RenderItems(items[1..], Formatted(n), depth), RenderItems(items[1..], Unformatted(n), depth));
    }
  }

  lemma {:induction false} Alone(v: Value, fmt: Format, depth: nat)
    ensures RenderItems([v], fmt, depth) == RenderValue(v, fmt, depth)
  {
    hide RenderValue;
    assert [v][1..] == [];
    assert RenderItems([v][1..], fmt, depth) == [];
  }

  lemma {:induction false} ValueStrays(v: Value, depth: nat, n: Numerals)
    requires !MinifiesWell(v)
    ensures Strays(RenderValue(v, Formatted(n), depth), RenderValue(v, Unformatted(n), depth))
    decreases v
  {
    hide Strays, Becomes, RenderItems, RenderMembers, Tabs;
    match v
    case Arr(items) =>
      ItemsStray(items, depth + 1, n);
      var a, b := RenderItems(items, Formatted(n), depth + 1), RenderItems(items, Unformatted(n), depth + 1);
      StraysBefore(a, b, [RBRACKET], [RBRACKET]);
      BecomesPlain([LBRACKET]);
      StraysBehind([LBRACKET], [LBRACKET], a + [RBRACKET], b + [RBRACKET]);
    case Obj(members) =>
      MembersStray(members, Tabs(depth) + [RBRACE], depth + 1, n);
      BraceBecomes();
      StraysBehind([LBRACE] + [LF], [LBRACE] + [], RenderMembers(members, Formatted(n), depth + 1) + (Tabs(depth) + [RBRACE]),
                   RenderMembers(members, Unformatted(n), depth + 1) + [RBRACE]);
      assert [] + [RBRACE] == [RBRACE];
  }

  lemma {:induction false} BraceBecomes()
    ensures Becomes([LBRACE] + [LF], [LBRACE] + [])
  {
    hide Becomes, Minified;
    LineVanishes(0);
    GapBecomes([LF]);
    BecomesPlain([LBRACE]);
    BecomesBoth([LBRACE], [LBRACE], [LF], []);
  }

  lemma {:induction false} ItemsFirst(items: seq<Value>, depth: nat, n: Numerals)
    requires items != []
    ensures var t := RenderItems(items, Unformatted(n), depth); t != [] && t[0] > SPACE
  {
    hide RenderValue, ItemSeparator;
    FirstIsNoBlank(items[0], Unformatted(n), depth);
  }

  /** An item that leaves its string open, although another one follows. */
  lemma {:induction false} OpenItemStrays(a: Text, b: Text, more: Text, fewer: Text)
    requires Opens(a, b) && fewer != [] && fewer[0] > SPACE
    ensures Strays((a + ItemSeparator(true)) + more, (b + ItemSeparator(false)) + fewer)
  {
    hide Opens, Strays;
    OpensOn(a, b, COMMA);
    OpenStrays(a + [COMMA], b + [COMMA], SPACE, more, fewer);
    assert (a + [COMMA]) + ([SPACE] + more) == (a + ItemSeparator(true)) + more;
  }

  lemma {:induction false} ItemsStray(items: seq<Value>, depth: nat, n: Numerals)
    requires !ItemsMinifyWell(items)
    ensures Strays(RenderItems(items, Formatted(n), depth), RenderItems(items, Unformatted(n), depth))
    decreases items
  {
    hide Strays, Opens, Becomes, RenderValue, ItemSeparator, Clear, MinifiesWell;
    var v := items[0];
    var a, b := RenderValue(v, Formatted(n), depth), RenderValue(v, Unformatted(n), depth);
    if |items| == 1 {
      ValueStrays(v, depth, n);
      Alone(v, Formatted(n), depth);
      Alone(v, Unformatted(n), depth);
    } else {
      var more, fewer := RenderItems(items[1..], Formatted(n), depth), RenderItems(items[1..], Unformatted(n), depth);
      if Clear(v) {
        ElementBecomesShort(v, depth, n);
        ItemsStray(items[1..], depth, n);
        StraysBehind(a + ItemSeparator(true), b + ItemSeparator(false), more, fewer);
      } else if MinifiesWell(v) {
        ValueOpens(v, depth, n);
        ItemsFirst(items[1..], depth, n);
        OpenItemStrays(a, b, more, fewer);
      } else {
        ValueStrays(v, depth, n);
        StraysBefore(a, b, ItemSeparator(true), ItemSeparator(false));
        StraysBefore(a + ItemSeparator(true), b + ItemSeparator(false), more, fewer);
      }
    }
  }

  lemma {:induction false} KeyBecomes(key: Text, depth: nat)
    requires !EndsInBackslash(key)
    ensures Becomes(RenderKey(key, true, depth), RenderKey(key, false, depth))
  {
    hide Becomes, Minified, Quoted, Escaped, StringToken, StringValue, Misread, EndsInBackslash, Tabs;
    var raw := Quoted(Escaped(key));
    QuotedToken(key);
    TokenBecomes(raw);
    LineVanishes(depth);
    GapBecomes(Tabs(depth));
    GapBecomes([TAB]);
    BecomesPlain([COLON]);
    BecomesBoth([COLON], [COLON], [TAB], []);
    assert [COLON] + [TAB] == [COLON, TAB] && [COLON] + [] == [COLON];
    BecomesBoth(raw, raw, [COLON, TAB], [COLON]);
    BecomesBoth(Tabs(depth), [], raw + [COLON, TAB], raw + [COLON]);
  }

  /** The text behind a key that leaves its string open has no blank where the formatted text has its tab. */
  lemma {:induction false} OpenKeyStrays(key: Text, depth: nat, more: Text, fewer: Text)
    requires EndsInBackslash(key) && fewer != [] && fewer[0] > SPACE
    ensures Strays(RenderKey(key, true, depth) + more, RenderKey(key, false, depth) + fewer)
  {
    hide Becomes, Opens, Strays, Minified, Quoted, Escaped, StringToken, StringValue, Misread, EndsInBackslash, Tabs;
    var raw := Quoted(Escaped(key));
    QuotedToken(key);
    TokenOpens(raw);
    LineVanishes(depth);
    GapBecomes(Tabs(depth));
    OpensBehind(Tabs(depth), [], raw, raw);
    OpensOn(Tabs(depth) + raw, [] + raw, COLON);
    OpenStrays((Tabs(depth) + raw) + [COLON], ([] + raw) + [COLON], TAB, more, fewer);
    assert ((Tabs(depth) + raw) + [COLON]) + ([TAB] + more) == RenderKey(key, true, depth) + more;
    assert (([] + raw) + [COLON]) + fewer == RenderKey(key, false, depth) + fewer;
  }

  lemma {:induction false} EndBecomes(last: bool)
    ensures Becomes(MemberEnd(last, true), MemberEnd(last, false))
  {
    hide Becomes, Minified;
    LineVanishes(0);
    GapBecomes([LF]);
    BecomesPlain(if last then [] else [COMMA]);
    BecomesBoth(if last then [] else [COMMA], if last then [] else [COMMA], [LF], []);
  }

  /** A member value that leaves its string open copies the line feed behind it. */
  lemma {:induction false} OpenValueStrays(a: Text, b: Text, last: bool, more: Text, fewer: Text)
    requires Opens(a, b) && fewer != [] && fewer[0] > SPACE
    ensures Strays(a + (MemberEnd(last, true) + more), b + (MemberEnd(last, false) + fewer))
  {
    hide Opens, Strays;
    if last {
      OpenStrays(a, b, LF, more, fewer);
      assert MemberEnd(true, true) + more == [LF] + more;
      assert MemberEnd(true, false) + fewer == fewer;
    } else {
      OpensOn(a, b, COMMA);
      OpenStrays(a + [COMMA], b + [COMMA], LF, more, fewer);
      assert (a + [COMMA]) + ([LF] + more) == a + (MemberEnd(false, true) + more);
      assert (b + [COMMA]) + fewer == b + (MemberEnd(false, false) + fewer);
    }
  }

  /** The unformatted text from a member, or from the closing brace, on. */
  lemma {:induction false} MembersFirst(members: seq<Member>, depth: nat, n: Numerals)
    ensures var t := RenderMembers(members, Unformatted(n), depth) + [RBRACE]; t != [] && t[0] > SPACE
  {
    hide RenderValue, MemberEnd, Escaped;
  }

  lemma {:induction false} MemberSplit(m: Member, last: bool, fmt: Format, depth: nat, more: Text)
    ensures RenderMember(m, last, fmt, depth) + more
         == RenderKey(m.key, fmt.lines, depth) + (RenderValue(m.value, fmt, depth) + (MemberEnd(last, fmt.lines) + more))
  {
    hide RenderKey, RenderValue, MemberEnd;
  }

  lemma {:induction false} MembersStray(members: seq<Member>, tail: Text, depth: nat, n: Numerals)
    requires !MembersClear(members)
    ensures Strays(RenderMembers(members, Formatted(n), depth) + tail, RenderMembers(members, Unformatted(n), depth) + [RBRACE])
    decreases members
  {
    hide Strays, Opens, Becomes, RenderMember, RenderKey, MemberEnd, Clear, MinifiesWell, EndsInBackslash;
    var m, last := members[0], |members| == 1;
    var more, fewer := RenderMembers(members[1..], Formatted(n), depth) + tail, RenderMembers(members[1..], Unformatted(n), depth) + [RBRACE];
    if !EndsInBackslash(m.key) && Clear(m.value) {
      MembersStray(members[1..], tail, depth, n);
    }
    MembersFirst(members[1..], depth, n);
    MemberStrays(m, last, depth, more, fewer, n);
    assert (RenderMember(m, last, Formatted(n), depth) + RenderMembers(members[1..], Formatted(n), depth)) + tail
        == RenderMember(m, last, Formatted(n), depth) + more;
    assert (RenderMember(m, last, Unformatted(n), depth) + RenderMembers(members[1..], Unformatted(n), depth)) + [RBRACE]
        == RenderMember(m, last, Unformatted(n), depth) + fewer;
  }

  lemma {:induction false} MemberStrays(m: Member, last: bool, depth: nat, more: Text, fewer: Text, n: Numerals)
    requires fewer != [] && fewer[0] > SPACE
    requires !EndsInBackslash(m.key) && Clear(m.value) ==> Strays(more, fewer)
    ensures Strays(RenderMember(m, last, Formatted(n), depth) + more, RenderMember(m, last, Unformatted(n), depth) + fewer)
    decreases m
  {
    hide Strays, Opens, Becomes, RenderMember, RenderKey, MemberEnd, Clear, MinifiesWell, EndsInBackslash, RenderValue;
    var a, b := RenderValue(m.value, Formatted(n), depth), RenderValue(m.value, Unformatted(n), depth);
    var restA, restB := MemberEnd(last, true) + more, MemberEnd(last, false) + fewer;
    MemberSplit(m, last, Formatted(n), depth, more);
    MemberSplit(m, last, Unformatted(n), depth, fewer);
    FirstIsNoBlank(m.value, Unformatted(n), depth);
    if EndsInBackslash(m.key) {
      OpenKeyStrays(m.key, depth, a + restA, b + restB);
    } else {
      if Clear(m.value) {
        ClearBecomes(m.value, depth, n);
        EndBecomes(last);
        StraysBehind(MemberEnd(last, true), MemberEnd(last, false), more, fewer);
        StraysBehind(a, b, restA, restB);
      } else if MinifiesWell(m.value) {
        ValueOpens(m.value, depth, n);
        OpenValueStrays(a, b, last, more, fewer);
      } else {
        ValueStrays(m.value, depth, n);
        StraysBefore(a, b, restA, restB);
      }
      KeyBecomes(m.key, depth);
      StraysBehind(RenderKey(m.key, true, depth), RenderKey(m.key, false, depth), a + restA, b + restB);
    }
  }

  // ----- The two formats

  /**
   * Minifying the formatted text of a value gives its unformatted text exactly when no key ends in a backslash and a string
   * that does is followed by nothing but closing brackets.
   */
  lemma {:induction false} MinifyJoinsFormats(v: Value, n: Numerals)
    ensures Minified(RenderValue(v, Formatted(n), 0)) == RenderValue(v, Unformatted(n), 0) <==> MinifiesWell(v)
  {
    var a, b := RenderValue(v, Formatted(n), 0), RenderValue(v, Unformatted(n), 0);
    hide Clear, RenderValue, Minified, MinifiesWell;
    assert a + [] == a;
    if Clear(v) {
      ClearBecomes(v, 0, n);
      WholeText(a, b);
      ClearMinifiesWell(v);
    } else if MinifiesWell(v) {
      ValueOpens(v, 0, n);
      assert Minified(a + []) == b + InString([]);
    } else {
      ValueStrays(v, 0, n);
      assert Differ(Minified(a + []), b);
    }
  }

  lemma {:induction false} ClearMinifiesWell(v: Value)
    requires Clear(v)
    ensures MinifiesWell(v)
  {
    if v.Arr? {
      ClearItemsMinifyWell(v.items);
    }
  }

  lemma {:induction false} ClearItemsMinifyWell(items: seq<Value>)
    requires AllClear(items)
    ensures ItemsMinifyWell(items)
  {
    if |items| == 1 {
      ClearMinifiesWell(items[0]);
    } else if |items| > 1 {
      ClearItemsMinifyWell(items[1..]);
    }
  }

  /** The array of a backslash and a letter: its formatted text keeps the blank behind the comma. */
  lemma {:induction false} BackslashKeepsBlank(n: Numerals)
    ensures var v := Arr([Str([BACKSLASH]), Str([LOWER_B])]);
            Minified(RenderValue(v, Formatted(n), 0)) != RenderValue(v, Unformatted(n), 0)
  {
    var v := Arr([Str([BACKSLASH]), Str([LOWER_B])]);
    MinifyJoinsFormats(v, n);
    assert EndsInBackslash([BACKSLASH]);
    assert !Clear(v.items[0]);
  }
}
