/**
 * JSON texts as the grammar of RFC 8259 lays them out, but with any bytes up to 32 between tokens, with the string tokens of
 * module Tokens, and with the numbers that strtod converts.
 */
module Layouts {
  import opened Ascii
  import opened Values
  import opened ParseSpec
  import opened Tokens

  datatype Layout =
    | NullLayout
    | BoolLayout(b: bool)
    | NumberLayout(raw: Text)
    | StringLayout(raw: Text)
    | EmptyArray(blanks: Text)
    | Array(elements: Elements)
    | EmptyObject(blanks: Text)
    | Object(pairs: Pairs)

  datatype Element = Element(before: Text, value: Layout, after: Text)
  datatype Elements = LastElement(e: Element) | MoreElements(e: Element, rest: Elements)

  datatype Pair = Pair(before: Text, key: Text, afterKey: Text, beforeValue: Text, value: Layout, after: Text)
  datatype Pairs = LastPair(p: Pair) | MorePairs(p: Pair, rest: Pairs)

  /** The text of a layout. */
  function TextOf(l: Layout): Text {
    match l
    case NullLayout => NULL_TEXT
    case BoolLayout(b) => if b then TRUE_TEXT else FALSE_TEXT
    case NumberLayout(raw) => raw
    case StringLayout(raw) => raw
    case EmptyArray(blanks) => [LBRACKET] + (blanks + [RBRACKET])
    case Array(elements) => [LBRACKET] + (ElementsText(elements) + [RBRACKET])
    case EmptyObject(blanks) => [LBRACE] + (blanks + [RBRACE])
    case Object(pairs) => [LBRACE] + (PairsText(pairs) + [RBRACE])
  }

  function ElementText(e: Element): Text {
    e.before + (TextOf(e.value) + e.after)
  }

  function ElementsText(es: Elements): Text {
    match es
    case LastElement(e) => ElementText(e)
    case MoreElements(e, rest) => ElementText(e) + ([COMMA] + ElementsText(rest))
  }

  function PairText(p: Pair): Text {
    p.before + (p.key + (p.afterKey + ([COLON] + (p.beforeValue + (TextOf(p.value) + p.after)))))
  }

  function PairsText(ps: Pairs): Text {
    match ps
    case LastPair(p) => PairText(p)
    case MorePairs(p, rest) => PairText(p) + ([COMMA] + PairsText(rest))
  }

  predicate Blank(t: Text) {
    forall i :: 0 <= i < |t| ==> t[i] <= SPACE
  }

  predicate NumberToken(raw: Text, strtod: Converter) {
    && 0 < |raw| <= NUMBER_ROOM
    && (raw[0] == MINUS || IsDigit(raw[0]))
    && (forall i :: 0 <= i < |raw| ==> NumberChar(raw[i]))
    && strtod(raw).consumed == |raw|
  }

  ghost predicate Valid(l: Layout, strtod: Converter) {
    match l
    case NullLayout => true
    case BoolLayout(_) => true
    case NumberLayout(raw) => NumberToken(raw, strtod)
    case StringLayout(raw) => StringToken(raw)
    case EmptyArray(blanks) => Blank(blanks)
    case EmptyObject(blanks) => Blank(blanks)
    case Array(elements) => ValidElements(elements, strtod)
    case Object(pairs) => ValidPairs(pairs, strtod)
  }

  ghost predicate ValidElement(e: Element, strtod: Converter) {
    Blank(e.before) && Valid(e.value, strtod) && Blank(e.after)
  }

  ghost predicate ValidElements(es: Elements, strtod: Converter) {
    ValidElement(es.e, strtod) && (es.MoreElements? ==> ValidElements(es.rest, strtod))
  }

  ghost predicate ValidPair(p: Pair, strtod: Converter) {
    && Blank(p.before) && StringToken(p.key) && Blank(p.afterKey)
    && Blank(p.beforeValue) && Valid(p.value, strtod) && Blank(p.after)
  }

  ghost predicate ValidPairs(ps: Pairs, strtod: Converter) {
    ValidPair(ps.p, strtod) && (ps.MorePairs? ==> ValidPairs(ps.rest, strtod))
  }

  /** The value a layout stands for. */
  ghost function ValueOf(l: Layout, strtod: Converter): Value
    requires Valid(l, strtod)
  {
    match l
    case NullLayout => Null
    case BoolLayout(b) => Bool(b)
    case NumberLayout(raw) => Number(strtod(raw).value)
    case StringLayout(raw) => Str(StringValue(raw))
    case EmptyArray(_) => Arr([])
    case EmptyObject(_) => Obj([])
    case Array(elements) => Arr(ItemsOf(elements, strtod))
    case Object(pairs) => Obj(MembersOf(pairs, strtod))
  }

  ghost function ItemsOf(es: Elements, strtod: Converter): seq<Value>
    requires ValidElements(es, strtod)
  {
    assert ValidElement(es.e, strtod);
    var item := ValueOf(es.e.value, strtod);
    if es.LastElement? then [item] else [item] + ItemsOf(es.rest, strtod)
  }

  ghost function MemberOf(p: Pair, strtod: Converter): Member
    requires ValidPair(p, strtod)
  {
    Member(StringValue(p.key), ValueOf(p.value, strtod))
  }

  ghost function MembersOf(ps: Pairs, strtod: Converter): seq<Member>
    requires ValidPairs(ps, strtod)
  {
    assert ValidPair(ps.p, strtod);
    var member := MemberOf(ps.p, strtod);
    if ps.LastPair? then [member] else [member] + MembersOf(ps.rest, strtod)
  }

  /** How deeply the containers of a layout nest. */
  function Depth(l: Layout): nat {
    match l
    case EmptyArray(_) => 1
    case EmptyObject(_) => 1
    case Array(elements) => 1 + ElementsDepth(elements)
    case Object(pairs) => 1 + PairsDepth(pairs)
    case _ => 0
  }

  function ElementsDepth(es: Elements): nat {
    match es
    case LastElement(e) => Depth(e.value)
    case MoreElements(e, rest) => Max(Depth(e.value), ElementsDepth(rest))
  }

  function PairsDepth(ps: Pairs): nat {
    match ps
    case LastPair(p) => Depth(p.value)
    case MorePairs(p, rest) => Max(Depth(p.value), PairsDepth(rest))
  }

  /** No number character follows position `n`. */
  predicate Delimited(s: Text, n: nat) {
    n < |s| ==> !NumberChar(s[n])
  }
}
