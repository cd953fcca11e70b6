/** Printing and then parsing gives the value back. */
module RoundTrip {
  import opened Ascii
  import opened Values
  import opened Tokens
  import opened StringSpec
  import opened ParseSpec
  import opened Layouts
  import opened Escapes
  import opened Render
  import opened Decimals
  import Grammar

  // ----- The value that is read back

  /** The numbers that are printed as texts which strtod converts as a whole. */
  ghost function Convertible(n: Numerals, strtod: Converter): iset<real> {
    iset d: real | strtod(NumeralOf(d, n)).consumed == |NumeralOf(d, n)|
  }

  /** The value with every number as strtod reads its text. */
  function Reread(v: Value, n: Numerals, strtod: Converter): Value
    decreases v
  {
    match v
    case Number(d) => Number(strtod(NumeralOf(d, n)).value)
    case Arr(items) => Arr(RereadItems(items, n, strtod))
    case Obj(members) => Obj(RereadMembers(members, n, strtod))
    case _ => v
  }

  function RereadItems(items: seq<Value>, n: Numerals, strtod: Converter): (r: seq<Value>)
    ensures |r| == |items|
    decreases items
  {
    if items == [] then [] else [Reread(items[0], n, strtod)] + RereadItems(items[1..], n, strtod)
  }

  function RereadMembers(members: seq<Member>, n: Numerals, strtod: Converter): (r: seq<Member>)
    ensures |r| == |members|
    decreases members
  {
    if members == [] then []
    else [Member(members[0].key, Reread(members[0].value, n, strtod))] + RereadMembers(members[1..], n, strtod)
  }

  // ----- A printed value is a layout

  function Line(lines: bool, depth: nat): Text {
    if lines then [LF] + Tabs(depth) else []
  }

  function LayoutFor(v: Value, fmt: Format, depth: nat): Layout
    decreases v
  {
    match v
    case Null => NullLayout
    case Bool(b) => BoolLayout(b)
    case Number(d) => NumberLayout(NumeralOf(d, fmt.numerals))
    case Str(s) => StringLayout(Quoted(Escaped(s)))
    case Arr(items) => if items == [] then EmptyArray([]) else Array(ElementsFor(items, [], fmt, depth + 1))
    case Obj(members) => if members == [] then EmptyObject(Line(fmt.lines, depth)) else Object(PairsFor(members, fmt, depth))
  }

  function ElementsFor(items: seq<Value>, before: Text, fmt: Format, depth: nat): Elements
    requires items != []
    decreases items
  {
    var e := Element(before, LayoutFor(items[0], fmt, depth), []);
    if |items| == 1 then LastElement(e) else MoreElements(e, ElementsFor(items[1..], if fmt.lines then [SPACE] else [], fmt, depth))
  }

  function PairsFor(members: seq<Member>, fmt: Format, depth: nat): Pairs
    requires members != []
    decreases members
  {
    var last := |members| == 1;
    var value := LayoutFor(members[0].value, fmt, depth + 1);
    var p := Pair(Line(fmt.lines, depth + 1), Quoted(Escaped(members[0].key)), [], if fmt.lines then [TAB] else [], value,
                  if last then Line(fmt.lines, depth) else []);
    if last then LastPair(p) else MorePairs(p, PairsFor(members[1..], fmt, depth))
  }

  lemma {:induction false} RenderIsLayout(v: Value, fmt: Format, depth: nat)
    ensures TextOf(LayoutFor(v, fmt, depth)) == RenderValue(v, fmt, depth)
    ensures Depth(LayoutFor(v, fmt, depth)) == Nesting(v)
    decreases v
  {
    hide Tabs, Quoted, Escaped, NumeralOf;
    match v
    case Arr(items) =>
      if items != [] {
        ItemsAreElements(items, [], fmt, depth + 1);
        assert [] + RenderItems(items, fmt, depth + 1) == RenderItems(items, fmt, depth + 1);
      }
    case Obj(members) =>
      if members != [] {
        MembersArePairs(members, fmt, depth);
      }
      ObjectText(if fmt.lines then [LF] else [], RenderMembers(members, fmt, depth + 1), if fmt.lines then Tabs(depth) else []);
    case _ =>
  }

  lemma {:induction false} ObjectText(lead: Text, members: Text, tail: Text)
    ensures [LBRACE] + ((lead + (members + tail)) + [RBRACE]) == ([LBRACE] + lead) + (members + (tail + [RBRACE]))
    ensures [LBRACE] + ((lead + tail) + [RBRACE]) == ([LBRACE] + lead) + ([] + (tail + [RBRACE]))
  {
  }

  /** One more element in front of the others, and the last one. */
  lemma {:induction false} ElementInFront(before: Text, text: Text, rest: Text, lines: bool)
    ensures (before + (text + [])) + ([COMMA] + ((if lines then [SPACE] else []) + rest)) == before + ((text + ItemSeparator(lines)) + rest)
    ensures before + (text + []) == before + ((text + []) + [])
  {
  }

  lemma {:induction false} ItemsStep(items: seq<Value>, before: Text, fmt: Format, depth: nat)
    requires items != []
    ensures var l, text, gap := LayoutFor(items[0], fmt, depth), RenderValue(items[0], fmt, depth), if fmt.lines then [SPACE] else [];
            if |items| == 1 then
              && ElementsFor(items, before, fmt, depth) == LastElement(Element(before, l, []))
              && RenderItems(items, fmt, depth) == (text + []) + []
            else
              && ElementsFor(items, before, fmt, depth) == MoreElements(Element(before, l, []), ElementsFor(items[1..], gap, fmt, depth))
              && RenderItems(items, fmt, depth) == (text + ItemSeparator(fmt.lines)) + RenderItems(items[1..], fmt, depth)
  {
    hide LayoutFor, RenderValue, ItemSeparator;
  }

  lemma {:induction false} ItemsAreElements(items: seq<Value>, before: Text, fmt: Format, depth: nat)
    requires items != []
    ensures ElementsText(ElementsFor(items, before, fmt, depth)) == before + RenderItems(items, fmt, depth)
    ensures ElementsDepth(ElementsFor(items, before, fmt, depth)) == ItemsNesting(items)
    decreases items
  {
    RenderIsLayout(items[0], fmt, depth);
    ItemsStep(items, before, fmt, depth);
    hide LayoutFor, TextOf, RenderValue, RenderItems, ElementsFor, Depth, Nesting, ItemSeparator;
    var text := RenderValue(items[0], fmt, depth);
    if |items| > 1 {
      ItemsAreElements(items[1..], if fmt.lines then [SPACE] else [], fmt, depth);
      ElementInFront(before, text, RenderItems(items[1..], fmt, depth), fmt.lines);
    } else {
      ElementInFront(before, text, [], fmt.lines);
    }
  }

  lemma {:induction false} MembersArePairs(members: seq<Member>, fmt: Format, depth: nat)
    requires members != []
    ensures PairsText(PairsFor(members, fmt, depth)) ==
            (if fmt.lines then [LF] else []) + (RenderMembers(members, fmt, depth + 1) + if fmt.lines then Tabs(depth) else [])
    ensures PairsDepth(PairsFor(members, fmt, depth)) == MembersNesting(members)
    decreases members
  {
    var m := members[0];
    RenderIsLayout(m.value, fmt, depth + 1);
    hide LayoutFor, TextOf, RenderValue, Depth, Nesting, Quoted, Escaped, Tabs;
    var text := RenderValue(m.value, fmt, depth + 1);
    var key := Quoted(Escaped(m.key));
    if |members| > 1 {
      MembersArePairs(members[1..], fmt, depth);
      MoreMembersText(key, text, RenderMembers(members[1..], fmt, depth + 1), fmt.lines, depth);
    } else {
      LastMemberText(key, text, fmt.lines, depth);
    }
  }

  lemma {:induction false} MoreMembersText(key: Text, text: Text, rest: Text, lines: bool, depth: nat)
    ensures var tail := if lines then Tabs(depth) else [];
            var lead := if lines then [LF] else [];
            Line(lines, depth + 1) + (key + ([] + ([COLON] + ((if lines then [TAB] else []) + (text + [])))))
            + ([COMMA] + (lead + (rest + tail)))
            == lead + (((if lines then Tabs(depth + 1) else []) + (key + if lines then [COLON, TAB] else [COLON]))
                        + (text + MemberEnd(false, lines)) + rest + tail)
  {
    hide Tabs;
  }

  lemma {:induction false} LastMemberText(key: Text, text: Text, lines: bool, depth: nat)
    ensures var tail := if lines then Tabs(depth) else [];
            var lead := if lines then [LF] else [];
            Line(lines, depth + 1) + (key + ([] + ([COLON] + ((if lines then [TAB] else []) + (text + Line(lines, depth))))))
            == lead + (((if lines then Tabs(depth + 1) else []) + (key + if lines then [COLON, TAB] else [COLON]))
                        + (text + MemberEnd(true, lines)) + [] + tail)
  {
    hide Tabs;
  }

  // ----- The layout is valid and stands for the value

  lemma {:induction false} LayoutForIsValid(v: Value, fmt: Format, depth: nat, strtod: Converter)
    requires Printable(v) && NumbersIn(v, Convertible(fmt.numerals, strtod))
    ensures Valid(LayoutFor(v, fmt, depth), strtod) && ValueOf(LayoutFor(v, fmt, depth), strtod) == Reread(v, fmt.numerals, strtod)
    decreases v
  {
    hide StringToken, StringValue, Quoted, Escaped, NumeralOf, Convertible, NumberToken, Line;
    hide ElementsFor, PairsFor, ValidElements, ValidPairs, ItemsOf, MembersOf;
    match v
    case Number(d) => NumeralIsToken(d, fmt.numerals, strtod);
    case Str(s) => EscapedIsRead(s);
    case Arr(items) =>
      if items != [] {
        ElementsForAreValid(items, [], fmt, depth + 1, strtod);
      }
    case Obj(members) =>
      LineIsBlank(fmt.lines, depth);
      if members != [] {
        PairsForAreValid(members, fmt, depth, strtod);
      }
    case _ =>
  }

  lemma {:induction false} NumeralIsToken(d: real, n: Numerals, strtod: Converter)
    requires d in Convertible(n, strtod)
    ensures NumberToken(NumeralOf(d, n), strtod)
  {
    hide NumeralOf;
  }

  lemma {:induction false} ElementsForAreValid(items: seq<Value>, before: Text, fmt: Format, depth: nat, strtod: Converter)
    requires items != [] && Blank(before)
    requires forall i :: 0 <= i < |items| ==> Printable(items[i]) && NumbersIn(items[i], Convertible(fmt.numerals, strtod))
    ensures var es := ElementsFor(items, before, fmt, depth);
            ValidElements(es, strtod) && ItemsOf(es, strtod) == RereadItems(items, fmt.numerals, strtod)
    decreases items
  {
    LayoutForIsValid(items[0], fmt, depth, strtod);
    if |items| > 1 {
      ElementsForAreValid(items[1..], if fmt.lines then [SPACE] else [], fmt, depth, strtod);
    }
  }

  function PairFor(m: Member, last: bool, fmt: Format, depth: nat): Pair {
    Pair(Line(fmt.lines, depth + 1), Quoted(Escaped(m.key)), [], if fmt.lines then [TAB] else [], LayoutFor(m.value, fmt, depth + 1),
         if last then Line(fmt.lines, depth) else [])
  }

  lemma {:induction false} PairForIsValid(m: Member, v: Value, last: bool, fmt: Format, depth: nat, strtod: Converter)
    requires NulFree(m.key)
    requires Valid(LayoutFor(m.value, fmt, depth + 1), strtod) && ValueOf(LayoutFor(m.value, fmt, depth + 1), strtod) == v
    ensures ValidPair(PairFor(m, last, fmt, depth), strtod) && MemberOf(PairFor(m, last, fmt, depth), strtod) == Member(m.key, v)
  {
    hide LayoutFor, Valid, ValueOf, Line, StringToken, StringValue, Quoted, Escaped;
    EscapedIsRead(m.key);
    LineIsBlank(fmt.lines, depth);
    LineIsBlank(fmt.lines, depth + 1);
  }

  lemma {:induction false} LineIsBlank(lines: bool, depth: nat)
    ensures Blank(Line(lines, depth))
  {
  }

  lemma {:induction false} PairsForStep(members: seq<Member>, fmt: Format, depth: nat)
    requires members != []
    ensures var p := PairFor(members[0], |members| == 1, fmt, depth);
            PairsFor(members, fmt, depth) ==
            if |members| == 1 then LastPair(p) else MorePairs(p, PairsFor(members[1..], fmt, depth))
  {
    hide LayoutFor, Quoted, Escaped, Line;
  }

  lemma {:induction false} LastPairIsValid(p: Pair, m: Member, strtod: Converter)
    requires ValidPair(p, strtod) && MemberOf(p, strtod) == m
    ensures ValidPairs(LastPair(p), strtod) && MembersOf(LastPair(p), strtod) == [m]
  {
    hide ValidPair, MemberOf;
  }

  lemma {:induction false} MorePairsAreValid(p: Pair, rest: Pairs, m: Member, ms: seq<Member>, strtod: Converter)
    requires ValidPair(p, strtod) && MemberOf(p, strtod) == m && ValidPairs(rest, strtod) && MembersOf(rest, strtod) == ms
    ensures ValidPairs(MorePairs(p, rest), strtod) && MembersOf(MorePairs(p, rest), strtod) == [m] + ms
  {
    hide ValidPair, MemberOf;
  }

  lemma {:induction false} PairsForAreValid(members: seq<Member>, fmt: Format, depth: nat, strtod: Converter)
    requires members != []
    requires forall i :: 0 <= i < |members| ==> NulFree(members[i].key) && Printable(members[i].value)
    requires forall i :: 0 <= i < |members| ==> NumbersIn(members[i].value, Convertible(fmt.numerals, strtod))
    ensures var ps := PairsFor(members, fmt, depth);
            ValidPairs(ps, strtod) && MembersOf(ps, strtod) == RereadMembers(members, fmt.numerals, strtod)
    decreases members
  {
    hide *;
    var m, last := members[0], |members| == 1;
    var n := fmt.numerals;
    var read := Member(m.key, Reread(m.value, n, strtod));
    LayoutForIsValid(m.value, fmt, depth + 1, strtod);
    PairForIsValid(m, read.value, last, fmt, depth, strtod);
    PairsForStep(members, fmt, depth);
    RereadStep(members, n, strtod);
    if last {
      LastPairIsValid(PairFor(m, last, fmt, depth), read, strtod);
    } else {
      PairsForAreValid(members[1..], fmt, depth, strtod);
      MorePairsAreValid(PairFor(m, last, fmt, depth), PairsFor(members[1..], fmt, depth), read,
                        RereadMembers(members[1..], n, strtod), strtod);
    }
  }

  lemma {:induction false} RereadStep(members: seq<Member>, n: Numerals, strtod: Converter)
    requires members != []
    ensures var read := Member(members[0].key, Reread(members[0].value, n, strtod));
            RereadMembers(members, n, strtod) ==
            if |members| == 1 then [read] else [read] + RereadMembers(members[1..], n, strtod)
  {
    hide Reread;
  }

  // ----- The theorem

  /** The buffer that cJSON_ParseWithOpts hands on: the text with its terminator. */
  function Terminated(text: Text): Text {
    text + [NUL]
  }

  /**
   * A printed value parses, in both formats and whether or not a terminator is demanded, exactly when its containers nest
   * within the limit; what comes back is the value with its numbers as they are read, and parsing ends at the terminator.
   */
  lemma {:induction false} PrintedTextParsesBack(v: Value, fmt: Format, requireNul: bool, strtod: Converter)
    requires Printable(v) && NumbersIn(v, Convertible(fmt.numerals, strtod))
    ensures var text := RenderValue(v, fmt, 0);
            var r := ParseText(Input(Terminated(text), strtod), requireNul);
            if Nesting(v) <= NESTING_LIMIT then r == Parsed(Reread(v, fmt.numerals, strtod), |text|) else r.Failed?
  {
    var l := LayoutFor(v, fmt, 0);
    hide Valid, ValueOf, TextOf, Depth, Nesting, ParseText, LayoutFor, RenderValue, Printable, Convertible, Reread;
    RenderIsLayout(v, fmt, 0);
    LayoutForIsValid(v, fmt, 0, strtod);
    assert Terminated(TextOf(l)) == [] + ([] + (TextOf(l) + ([] + [NUL])));
    Grammar.DocumentIsRead(Terminated(TextOf(l)), [], [], l, [], strtod, requireNul);
  }

  // ----- How close the numbers come

  /** The numbers that are read back exactly. */
  ghost function Exact(n: Numerals, strtod: Converter): iset<real> {
    iset d: real | strtod(NumeralOf(d, n)).value == d
  }

  lemma {:induction false} ExactIsUnchanged(v: Value, n: Numerals, strtod: Converter)
    requires NumbersIn(v, Exact(n, strtod))
    ensures Reread(v, n, strtod) == v
    decreases v
  {
    match v
    case Arr(items) => ExactItems(items, n, strtod);
    case Obj(members) => ExactMembers(members, n, strtod);
    case _ =>
  }

  lemma {:induction false} ExactItems(items: seq<Value>, n: Numerals, strtod: Converter)
    requires forall i :: 0 <= i < |items| ==> NumbersIn(items[i], Exact(n, strtod))
    ensures RereadItems(items, n, strtod) == items
    decreases items
  {
    if items != [] {
      ExactIsUnchanged(items[0], n, strtod);
      ExactItems(items[1..], n, strtod);
    }
  }

  lemma {:induction false} ExactMembers(members: seq<Member>, n: Numerals, strtod: Converter)
    requires forall i :: 0 <= i < |members| ==> NumbersIn(members[i].value, Exact(n, strtod))
    ensures RereadMembers(members, n, strtod) == members
    decreases members
  {
    if members != [] {
      ExactIsUnchanged(members[0].value, n, strtod);
      ExactMembers(members[1..], n, strtod);
    }
  }

  /** The two values differ in their numbers only, and in those by no more than compare_double allows. */
  predicate Close(v: Value, w: Value)
    decreases v
  {
    match v
    case Number(d) => w.Number? && CompareDouble(w.d, d)
    case Arr(items) => w.Arr? && |items| == |w.items| && forall i :: 0 <= i < |items| ==> Close(items[i], w.items[i])
    case Obj(members) =>
      && w.Obj? && |members| == |w.members|
      && forall i :: 0 <= i < |members| ==> members[i].key == w.members[i].key && Close(members[i].value, w.members[i].value)
    case _ => v == w
  }

  /**
   * What the library promises for the numbers of a domain: strtod converts their texts as a whole, reads what sscanf reads and
   * the texts of ints exactly, and for any other number seventeen digits are enough.
   */
  ghost predicate Faithful(n: Numerals, strtod: Converter, domain: iset<real>) {
    && (forall d :: d in domain ==> d in Convertible(n, strtod))
    && (forall t: NumberText :: n.scan(t).Some? ==> strtod(t).value == n.scan(t).value)
    && (forall d :: d in domain && IsInt32(d) ==> strtod(NumeralOf(d, n)).value == d)
    && (forall d :: d in domain ==> strtod(n.digits17(d)).value == d)
  }

  /** Whatever text is chosen for a number, it is read back as one that compares equal. */
  lemma {:induction false} NumeralIsClose(d: real, n: Numerals, strtod: Converter, domain: iset<real>)
    requires Faithful(n, strtod, domain) && d in domain
    ensures CompareDouble(strtod(NumeralOf(d, n)).value, d)
  {
    assert Abs(d - d) <= Abs(d) * EPSILON;
  }

  lemma {:induction false} RereadIsClose(v: Value, n: Numerals, strtod: Converter, domain: iset<real>)
    requires Faithful(n, strtod, domain) && NumbersIn(v, domain)
    ensures Close(v, Reread(v, n, strtod))
    decreases v
  {
    hide CompareDouble, NumeralOf, Faithful;
    match v
    case Number(d) => NumeralIsClose(d, n, strtod, domain);
    case Arr(items) =>
      forall i | 0 <= i < |items| ensures Close(items[i], RereadItems(items, n, strtod)[i]) {
        ItemReread(items, i, n, strtod);
        RereadIsClose(items[i], n, strtod, domain);
      }
    case Obj(members) =>
      forall i | 0 <= i < |members|
        ensures var r := RereadMembers(members, n, strtod)[i]; members[i].key == r.key && Close(members[i].value, r.value)
      {
        MemberReread(members, i, n, strtod);
        RereadIsClose(members[i].value, n, strtod, domain);
      }
    case _ =>
  }

  /** Within the nesting limit printing and parsing changes a value by no more than compare_double lets pass. */
  lemma {:induction false} PrintedNumbersComeClose(v: Value, fmt: Format, requireNul: bool, strtod: Converter, domain: iset<real>)
    requires Printable(v) && Nesting(v) <= NESTING_LIMIT
    requires NumbersIn(v, domain) && Faithful(fmt.numerals, strtod, domain)
    ensures var r := ParseText(Input(Terminated(RenderValue(v, fmt, 0)), strtod), requireNul);
            r.Parsed? && Close(v, r.value)
  {
    NumbersInMore(v, domain, Convertible(fmt.numerals, strtod));
    hide *;
    PrintedTextParsesBack(v, fmt, requireNul, strtod);
    RereadIsClose(v, fmt.numerals, strtod, domain);
  }

  lemma {:induction false} ItemReread(items: seq<Value>, i: nat, n: Numerals, strtod: Converter)
    requires i < |items|
    ensures RereadItems(items, n, strtod)[i] == Reread(items[i], n, strtod)
  {
    hide Reread;
    if i > 0 {
      ItemReread(items[1..], i - 1, n, strtod);
    }
  }

  lemma {:induction false} MemberReread(members: seq<Member>, i: nat, n: Numerals, strtod: Converter)
    requires i < |members|
    ensures RereadMembers(members, n, strtod)[i] == Member(members[i].key, Reread(members[i].value, n, strtod))
  {
    hide Reread;
    if i > 0 {
      MemberReread(members[1..], i - 1, n, strtod);
    }
  }

  // ----- Integers

  /** The 32-bit integers, for which no library but "%d" is asked. */
  ghost const INTEGERS: iset<real> := iset d: real | IsInt32(d)

  lemma {:induction false} DecimalReadsIntegers(n: Numerals, d: real)
    requires d in INTEGERS
    ensures d in Convertible(n, Decimal) && d in Exact(n, Decimal)
  {
    DecimalReadsBack(d.Floor);
  }

  function IntegerNumeral(d: real): NumberText {
    if IsInt32(d) then IntTextLength(d.Floor); IntText(d.Floor) else [DIGIT0]
  }

  /** A library that keeps the promises for integers. */
  const INTEGER_LIBRARY: Numerals := Numerals(IntegerNumeral, IntegerNumeral, t => Some(Decimal(t).value))

  lemma {:induction false} IntegersAreFaithful()
    ensures Faithful(INTEGER_LIBRARY, Decimal, INTEGERS)
  {
    var n := INTEGER_LIBRARY;
    forall d | d in INTEGERS
      ensures d in Convertible(n, Decimal) && Decimal(NumeralOf(d, n)).value == d && Decimal(n.digits17(d)).value == d
    {
      DecimalReadsIntegers(n, d);
      assert NumeralOf(d, n) == IntegerNumeral(d);
    }
    hide Convertible, NumeralOf, IntegerNumeral, Decimal, IsInt32;
  }

  lemma {:induction false} NumbersInMore(v: Value, a: iset<real>, b: iset<real>)
    requires NumbersIn(v, a) && forall d :: d in a ==> d in b
    ensures NumbersIn(v, b)
    decreases v
  {
    match v
    case Arr(items) =>
      forall i | 0 <= i < |items| ensures NumbersIn(items[i], b) {
        NumbersInMore(items[i], a, b);
      }
    case Obj(members) =>
      forall i | 0 <= i < |members| ensures NumbersIn(members[i].value, b) {
        NumbersInMore(members[i].value, a, b);
      }
    case _ =>
  }

  /** With a strtod that reads integers only, values of integers come back without any demand on a library. */
  lemma {:induction false} DecimalTextParsesBack(v: Value, fmt: Format, requireNul: bool)
    requires Printable(v) && NumbersIn(v, INTEGERS)
    ensures var text := RenderValue(v, fmt, 0);
            var r := ParseText(Input(Terminated(text), Decimal), requireNul);
            if Nesting(v) <= NESTING_LIMIT then r == Parsed(v, |text|) else r.Failed?
  {
    forall d | d in INTEGERS ensures d in Convertible(fmt.numerals, Decimal) && d in Exact(fmt.numerals, Decimal) {
      DecimalReadsIntegers(fmt.numerals, d);
    }
    NumbersInMore(v, INTEGERS, Convertible(fmt.numerals, Decimal));
    NumbersInMore(v, INTEGERS, Exact(fmt.numerals, Decimal));
    hide *;
    ExactIsUnchanged(v, fmt.numerals, Decimal);
    PrintedTextParsesBack(v, fmt, requireNul, Decimal);
  }
}
