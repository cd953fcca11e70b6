/** What the recursive-descent parser of cJSON.c computes, as a function of the buffer, the offset and the depth. */
module ParseSpec {
  import opened Ascii
  import opened Values
  import opened StringSpec

  const NULL_TEXT: Text := [0x6E, 0x75, 0x6C, 0x6C]
  const TRUE_TEXT: Text := [0x74, 0x72, 0x75, 0x65]
  const FALSE_TEXT: Text := [0x66, 0x61, 0x6C, 0x73, 0x65]
  const BYTE_ORDER_MARK: Text := [0xEF, 0xBB, 0xBF]

  /** The buffer in which parse_number keeps its copy holds 64 bytes, one of them the terminator. */
  const NUMBER_ROOM: nat := 63

  /** How much of a text strtod converted, and the number it read. */
  datatype Strtod = Strtod(consumed: nat, value: real)

  /** strtod is a library function: any that stays inside its argument will do. */
  type Converter = f: Text -> Strtod | forall t :: f(t).consumed <= |t| witness ((t: Text) => Strtod(0, 0.0))

  datatype Input = Input(s: Text, strtod: Converter)

  /** The first position from `i` on that holds no byte up to 32. */
  function FirstNonBlank(s: Text, i: nat): (j: nat)
    requires i <= |s|
    ensures i <= j <= |s|
    ensures forall k :: i <= k < j ==> s[k] <= SPACE
    ensures j < |s| ==> s[j] > SPACE
    decreases |s| - i
  {
    if i == |s| || s[i] > SPACE then i else FirstNonBlank(s, i + 1)
  }

  /** buffer_skip_whitespace: when blanks run to the end of the buffer it steps back onto the last byte. */
  function SkipBlanks(s: Text, i: nat): (j: nat)
    requires i <= |s|
    ensures i <= j <= |s|
    ensures i < |s| ==> j < |s|
  {
    if i == |s| then i
    else
      var j := FirstNonBlank(s, i);
      if j == |s| then j - 1 else j
  }

  predicate NumberChar(b: byte) {
    IsDigit(b) || b == 0x2B || b == MINUS || b == DOT || b == 0x65 || b == 0x45
  }

  /** The length of the run of number characters at `i`, at most `room`. */
  function RunLength(s: Text, i: nat, room: nat): (n: nat)
    requires i <= |s|
    ensures n <= room && i + n <= |s|
    ensures forall k :: i <= k < i + n ==> NumberChar(s[k])
    ensures n < room && i + n < |s| ==> !NumberChar(s[i + n])
    decreases room
  {
    if room == 0 || i == |s| || !NumberChar(s[i]) then 0 else 1 + RunLength(s, i + 1, room - 1)
  }

  lemma {:induction false} RunIs(s: Text, i: nat, n: nat, room: nat)
    requires i + n <= |s| && n <= room
    requires forall k :: i <= k < i + n ==> NumberChar(s[k])
    requires n == room || i + n == |s| || !NumberChar(s[i + n])
    ensures RunLength(s, i, room) == n
    decreases n
  {
    if n > 0 {
      RunIs(s, i + 1, n - 1, room - 1);
    }
  }

  function ParseNumber(inp: Input, i: nat): (r: Outcome<Value>)
    requires i <= |inp.s|
    ensures r.Parsed? ==> i < r.next <= |inp.s|
    ensures r.Failed? ==> r.at == i
  {
    var run := inp.s[i..i + RunLength(inp.s, i, NUMBER_ROOM)];
    var d := inp.strtod(run);
    if d.consumed == 0 then Failed(i) else Parsed(Number(d.value), i + d.consumed)
  }

  /** A depth below 0, which the parser never has, would leave room for more than the limit. */
  function ParseValue(inp: Input, i: nat, depth: int): (r: Outcome<Value>)
    requires i <= |inp.s|
    ensures r.Parsed? ==> i < r.next <= |inp.s|
    ensures r.Failed? ==> r.at <= |inp.s|
    decreases |inp.s| - i, 1
  {
    var s := inp.s;
    if At(s, i, NULL_TEXT) then Parsed(Null, i + 4)
    else if At(s, i, FALSE_TEXT) then Parsed(Bool(false), i + 5)
    else if At(s, i, TRUE_TEXT) then Parsed(Bool(true), i + 4)
    else if i == |s| then Failed(i)
    else if s[i] == QUOTE then
      match ParseString(s, i)
      case Failed(at) => Failed(at)
      case Parsed(t, next) => Parsed(Str(t), next)
    else if s[i] == MINUS || IsDigit(s[i]) then ParseNumber(inp, i)
    else if s[i] == LBRACKET then ParseArray(inp, i, depth)
    else if s[i] == LBRACE then ParseObject(inp, i, depth)
    else Failed(i)
  }

  function ParseArray(inp: Input, i: nat, depth: int): (r: Outcome<Value>)
    requires i < |inp.s|
    ensures r.Parsed? ==> i < r.next <= |inp.s|
    ensures r.Failed? ==> r.at <= |inp.s|
    decreases |inp.s| - i, 0
  {
    if depth >= NESTING_LIMIT then Failed(i)
    else
      var j := SkipBlanks(inp.s, i + 1);
      if j == |inp.s| then Failed(j - 1)
      else if inp.s[j] == RBRACKET then Parsed(Arr([]), j + 1)
      else
        match ParseItems(inp, j, depth + 1)
        case Failed(at) => Failed(at)
        case Parsed(items, next) => Parsed(Arr(items), next)
  }

  /** The elements from the one at `j` to the closing bracket, and the position after it. */
  function ParseItems(inp: Input, j: nat, depth: int): (r: Outcome<seq<Value>>)
    requires j <= |inp.s|
    ensures r.Parsed? ==> j < r.next <= |inp.s|
    ensures r.Failed? ==> r.at <= |inp.s|
    decreases |inp.s| - j, 2
  {
    match ParseValue(inp, j, depth)
    case Failed(at) => Failed(at)
    case Parsed(v, n) =>
      var k := SkipBlanks(inp.s, n);
      if k < |inp.s| && inp.s[k] == COMMA then
        match ParseItems(inp, SkipBlanks(inp.s, k + 1), depth)
        case Failed(at) => Failed(at)
        case Parsed(rest, next) => Parsed([v] + rest, next)
      else if k < |inp.s| && inp.s[k] == RBRACKET then Parsed([v], k + 1)
      else Failed(k)
  }

  function ParseObject(inp: Input, i: nat, depth: int): (r: Outcome<Value>)
    requires i < |inp.s|
    ensures r.Parsed? ==> i < r.next <= |inp.s|
    ensures r.Failed? ==> r.at <= |inp.s|
    decreases |inp.s| - i, 0
  {
    if depth >= NESTING_LIMIT then Failed(i)
    else
      var j := SkipBlanks(inp.s, i + 1);
      if j == |inp.s| then Failed(j - 1)
      else if inp.s[j] == RBRACE then Parsed(Obj([]), j + 1)
      else
        match ParseMembers(inp, j, depth + 1)
        case Failed(at) => Failed(at)
        case Parsed(members, next) => Parsed(Obj(members), next)
  }

  /** A key, its colon and its value. */
  function ParseMember(inp: Input, j: nat, depth: int): (r: Outcome<Member>)
    requires j < |inp.s|
    ensures r.Parsed? ==> j < r.next <= |inp.s|
    ensures r.Failed? ==> r.at <= |inp.s|
    decreases |inp.s| - j, 2
  {
    match ParseString(inp.s, j)
    case Failed(at) => Failed(at)
    case Parsed(key, n) =>
      var c := SkipBlanks(inp.s, n);
      if c == |inp.s| || inp.s[c] != COLON then Failed(c)
      else
        match ParseValue(inp, SkipBlanks(inp.s, c + 1), depth)
        case Failed(at) => Failed(at)
        case Parsed(v, next) => Parsed(Member(key, v), next)
  }

  /** The members from the one at `j` to the closing brace, and the position after it. */
  function ParseMembers(inp: Input, j: nat, depth: int): (r: Outcome<seq<Member>>)
    requires j < |inp.s|
    ensures r.Parsed? ==> j < r.next <= |inp.s|
    ensures r.Failed? ==> r.at <= |inp.s|
    decreases |inp.s| - j, 3
  {
    match ParseMember(inp, j, depth)
    case Failed(at) => Failed(at)
    case Parsed(m, n) =>
      var k := SkipBlanks(inp.s, n);
      if k < |inp.s| && inp.s[k] == COMMA then
        if k + 1 == |inp.s| then Failed(k)
        else
          match ParseMembers(inp, SkipBlanks(inp.s, k + 1), depth)
          case Failed(at) => Failed(at)
          case Parsed(rest, next) => Parsed([m] + rest, next)
      else if k < |inp.s| && inp.s[k] == RBRACE then Parsed([m], k + 1)
      else Failed(k)
  }

  /** Where parsing starts: past a byte order mark, which a buffer of less than five bytes cannot have, and past blanks. */
  function Start(s: Text): (i: nat)
    requires 0 < |s|
    ensures i < |s|
  {
    SkipBlanks(s, if 5 <= |s| && At(s, 0, BYTE_ORDER_MARK) then 3 else 0)
  }

  /** The value of a whole buffer, and where parsing ends: behind the value, or at the NUL if one is demanded. */
  function ParseDocument(inp: Input, requireNul: bool): (r: Outcome<Value>)
    requires 0 < |inp.s|
    ensures r.Parsed? ==> 0 < r.next <= |inp.s|
    ensures r.Failed? ==> r.at <= |inp.s|
  {
    match ParseValue(inp, Start(inp.s), 0)
    case Failed(at) => Failed(at)
    case Parsed(v, n) =>
      if !requireNul then Parsed(v, n)
      else
        var k := SkipBlanks(inp.s, n);
        if k == |inp.s| || inp.s[k] != NUL then Failed(k) else Parsed(v, k)
  }

  /** cJSON_ParseWithLengthOpts: the root, and the offset handed back through return_parse_end, which points into the text. */
  function ParseText(inp: Input, requireNul: bool): (r: Outcome<Value>)
    ensures r.Parsed? ==> 0 < r.next <= |inp.s|
    ensures r.Failed? ==> r.at < |inp.s| || r.at == |inp.s| == 0
  {
    if inp.s == [] then Failed(0)
    else
      match ParseDocument(inp, requireNul)
      case Failed(at) => Failed(if at < |inp.s| then at else |inp.s| - 1)
      case Parsed(v, n) => Parsed(v, n)
  }
}
