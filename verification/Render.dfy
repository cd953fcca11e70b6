/** The text that cJSON_Print and cJSON_PrintUnformatted give a value, as a function of the value. */
module Render {
  import opened Ascii
  import opened Values
  import opened Tokens
  import opened ParseSpec
  import opened Escapes

  function Digits(n: nat): (t: Text)
    ensures 0 < |t| && forall i :: 0 <= i < |t| ==> IsDigit(t[i])
  {
    if n < 10 then [DIGIT0 + n] else Digits(n / 10) + [DIGIT0 + n % 10]
  }

  /** What "%d" writes. */
  function IntText(n: int): (t: Text)
    ensures 0 < |t| && (t[0] == MINUS || IsDigit(t[0])) && forall i :: 0 <= i < |t| ==> NumberChar(t[i])
  {
    if n < 0 then [MINUS] + Digits(-n) else Digits(n)
  }

  function Pow10(k: nat): nat {
    if k == 0 then 1 else 10 * Pow10(k - 1)
  }

  lemma {:induction false} DigitsLength(n: nat, k: nat)
    requires 0 < k && n < Pow10(k)
    ensures |Digits(n)| <= k
  {
    if n >= 10 {
      assert Pow10(k) == 10 * Pow10(k - 1);
      DigitsLength(n / 10, k - 1);
    }
  }

  lemma {:induction false} IntTextLength(n: int)
    requires INT_MIN <= n <= INT_MAX
    ensures |IntText(n)| <= 11
  {
    assert Pow10(2) == 100 && Pow10(4) == 10_000 && Pow10(6) == 1_000_000 && Pow10(8) == 100_000_000;
    assert Pow10(10) == 10_000_000_000;
    DigitsLength(if n < 0 then -n else n, 10);
  }

  // ----- Numbers

  /** The size of number_buffer, without the terminator. */
  const NUMERAL_ROOM: nat := 25

  predicate IsNumeral(t: Text) {
    0 < |t| <= NUMERAL_ROOM && (t[0] == MINUS || IsDigit(t[0])) && forall i :: 0 <= i < |t| ==> NumberChar(t[i])
  }

  /** What sprintf writes for a finite number. */
  type NumberText = t: Text | IsNumeral(t) witness [DIGIT0]

  /** The library: "%1.15g", "%1.17g", and what sscanf makes of a text with "%lg". */
  datatype Numerals = Numerals(digits15: real -> NumberText, digits17: real -> NumberText, scan: NumberText -> Option<real>)

  /** Whether the text is broken into lines and indented, and how its numbers are written. */
  datatype Format = Format(lines: bool, numerals: Numerals)

  /** Fifteen digits are enough if they are read back as a number that compares equal. */
  predicate Fifteen(d: real, n: Numerals) {
    var test := n.scan(n.digits15(d));
    test.Some? && CompareDouble(test.value, d)
  }

  /** What print_number chooses: an int as such, any other number with as many digits as it takes. */
  function NumeralOf(d: real, n: Numerals): NumberText {
    if IsInt32(d) then IntTextLength(d.Floor); IntText(d.Floor)
    else if Fifteen(d, n) then n.digits15(d)
    else n.digits17(d)
  }

  function Tabs(n: nat): (t: Text)
    ensures |t| == n && forall i :: 0 <= i < n ==> t[i] == TAB
  {
    seq(n, _ => TAB)
  }

  /** The text of a value that stands at the given nesting depth. */
  function RenderValue(v: Value, fmt: Format, depth: nat): Text
    decreases v, 0
  {
    match v
    case Null => NULL_TEXT
    case Bool(b) => if b then TRUE_TEXT else FALSE_TEXT
    case Number(d) => NumeralOf(d, fmt.numerals)
    case Str(s) => Quoted(Escaped(s))
    case Arr(items) => [LBRACKET] + (RenderItems(items, fmt, depth + 1) + [RBRACKET])
    case Obj(members) =>
      ([LBRACE] + (if fmt.lines then [LF] else [])) + (RenderMembers(members, fmt, depth + 1) + ((if fmt.lines then Tabs(depth) else []) + [RBRACE]))
  }

  function ItemSeparator(lines: bool): Text {
    if lines then [COMMA, SPACE] else [COMMA]
  }

  /** An item and the separator behind it. */
  function RenderElement(v: Value, last: bool, fmt: Format, depth: nat): Text
    decreases v, 1
  {
    RenderValue(v, fmt, depth) + if last then [] else ItemSeparator(fmt.lines)
  }

  function RenderItems(items: seq<Value>, fmt: Format, depth: nat): Text
    decreases items
  {
    if items == [] then []
    else RenderElement(items[0], |items| == 1, fmt, depth) + RenderItems(items[1..], fmt, depth)
  }

  /** Indentation, key and colon. */
  function RenderKey(key: Text, lines: bool, depth: nat): Text {
    (if lines then Tabs(depth) else []) + (Quoted(Escaped(key)) + (if lines then [COLON, TAB] else [COLON]))
  }

  /** What follows a member: a comma unless it is the last, and a line feed in formatted text. */
  function MemberEnd(last: bool, lines: bool): Text {
    (if last then [] else [COMMA]) + (if lines then [LF] else [])
  }

  function RenderMember(m: Member, last: bool, fmt: Format, depth: nat): Text
    decreases m
  {
    RenderKey(m.key, fmt.lines, depth) + (RenderValue(m.value, fmt, depth) + MemberEnd(last, fmt.lines))
  }

  function RenderMembers(members: seq<Member>, fmt: Format, depth: nat): Text
    decreases members
  {
    if members == [] then []
    else RenderMember(members[0], |members| == 1, fmt, depth) + RenderMembers(members[1..], fmt, depth)
  }
}
