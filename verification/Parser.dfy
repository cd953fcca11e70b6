/** The parser of cJSON.c: a cursor over a read-only buffer that builds a tree of items through an allocator. */
module Parser {
  import opened Ascii
  import opened Bits
  import opened Values
  import opened StringSpec
  import opened StringBudget
  import opened ParseSpec
  import opened Items

  // ----- Strings

  /** parse_hex4: the digits shift in one by one, and a malformed one makes the whole 0. */
  method ParseHex4(s: Text, p: nat) returns (h: nat)
    requires p + 4 <= |s|
    ensures h == Hex4(s, p)
  {
    h := 0;
    var i := 0;
    while i < 4
      invariant i <= 4 && HexPrefix(s, p, i).Some?
      invariant h == HexPrefix(s, p, i).value * if 0 < i < 4 then 16 else 1
    {
      var d := HexDigit(s[p + i]);
      assert HexPrefix(s, p, i + 1) == match d case None => None case Some(x) => Some(16 * HexPrefix(s, p, i).value + x);
      if d == None {
        HexStaysBad(s, p, i + 1, 4);
        return 0;
      }
      h := h + d.value;
      if i < 3 {
        h := h * 16;
      }
      i := i + 1;
    }
  }

  lemma {:induction false} HexStaysBad(s: Text, p: nat, n: nat, m: nat)
    requires p + m <= |s| && n <= m && HexPrefix(s, p, n) == None
    ensures HexPrefix(s, p, m) == None
    decreases m
  {
    if n < m {
      HexStaysBad(s, p, n, m - 1);
    }
  }

  /** What is left of a code point, of `length` bytes in all, when `pos` of them are still to be written behind the first. */
  function Room(length: nat, pos: nat): nat {
    if pos == 0 then (if length <= 1 then 0x80 else if length == 2 then 0x20 else if length == 3 then 0x10 else 0x08)
    else 64 * Room(length, pos - 1)
  }

  function Mark(length: nat): nat {
    if length <= 1 then 0 else if length == 2 then 0xC0 else if length == 3 then 0xE0 else 0xF0
  }

  lemma {:induction false} StartsWithinRoom(code: nat)
    requires code < 0x11_0000
    ensures var n := Utf8Length(code);
            1 <= n <= 4 && code < Room(n, n - 1) && Utf8Mark(code) == Mark(n)
  {
    var n := Utf8Length(code);
    assert Room(n, 1) == 64 * Room(n, 0) && Room(n, 2) == 64 * Room(n, 1) && Room(n, 3) == 64 * Room(n, 2);
  }

  /** The loop that writes a code point as UTF-8, from its last byte to its first. */
  method EncodeUtf8(codepoint: nat, output: array<byte>, op: nat)
    requires codepoint < 0x11_0000 && op + Utf8Length(codepoint) <= output.Length
    modifies output
    ensures output[..op + Utf8Length(codepoint)] == old(output[..op]) + Utf8(codepoint)
  {
    hide Shr, Utf8Length, Utf8Mark, ContinuationByte, FirstByte, Room;
    var length := Utf8Length(codepoint);
    var mark := Utf8Mark(codepoint);
    StartsWithinRoom(codepoint);
    var code: nat, pos: nat := codepoint, length - 1;
    ghost var all := Utf8(codepoint);
    while pos > 0
      invariant 0 <= pos < length && output[..op] == old(output[..op])
      invariant code < Room(length, pos)
      invariant all == Utf8Bytes(code, pos, mark) + output[op + pos + 1..op + length]
    {
      ghost var written := output[op + pos + 1..op + length];
      RoomShrinks(code, length, pos);
      output[op + pos] := ContinuationByte(code);
      assert output[op + pos..op + length] == [0x80 + code % 64] + written;
      code, pos := Shr(code, 6), pos - 1;
    }
    assert all[0] == mark + code;
    output[op] := FirstByte(code, mark, length);
  }

  function ContinuationByte(code: nat): (b: byte)
    ensures b == 0x80 + code % 64
  {
    ContinuationBits(code);
    And(Or(code, 0x80), 0xBF)
  }

  function FirstByte(code: nat, mark: nat, length: nat): (b: byte)
    requires length <= 4 && code < Room(length, 0) && mark == Mark(length)
    ensures b == mark + code
  {
    if length > 1 then
      LeadBits(code, mark);
      And(Or(code, mark), 0xFF)
    else
      SevenBits(code);
      And(code, 0x7F)
  }

  lemma {:induction false} RoomShrinks(code: nat, length: nat, pos: nat)
    requires 0 < pos && code < Room(length, pos)
    ensures Shr(code, 6) == code / 64 < Room(length, pos - 1)
  {
    ContinuationBits(code);
  }

  function PairOf(first: nat, second: nat): (codepoint: nat)
    ensures codepoint == 0x1_0000 + first % 0x400 * 0x400 + second % 0x400
  {
    SurrogateBits(first, second);
    0x1_0000 + Or(Shl(And(first, 0x3FF), 10), And(second, 0x3FF))
  }

  /** utf16_literal_to_utf8: a length of 0 says that the literal is malformed. */
  method Utf16LiteralToUtf8(raw: Text, p: nat, output: array<byte>, op: nat) returns (length: nat, next: nat)
    requires p + 1 < |raw|
    requires var step := Utf16Literal(raw, p, |raw| - 1);
             op <= output.Length && (step.Step? ==> op + |step.bytes| <= output.Length)
    modifies output
    ensures match Utf16Literal(raw, p, |raw| - 1)
            case Stuck => length == 0 && next == op && output[..op] == old(output[..op])
            case Step(width, bytes) => length == width && next == op + |bytes| <= output.Length
                                       && output[..next] == old(output[..op]) + bytes
  {
    length, next := 0, op;
    var end := |raw| - 1;
    if end < p + 6 {
      return;
    }
    var first := ParseHex4(raw, p + 2);
    Hex4Range(raw, p + 2);
    hide Hex4, Utf8;
    var codepoint, width := first, 6;
    if 0xDC00 <= first <= 0xDFFF {
      return;
    }
    if 0xD800 <= first <= 0xDBFF {
      width := 12;
      if end < p + 12 || raw[p + 6] != BACKSLASH || raw[p + 7] != LOWER_U {
        return;
      }
      var second := ParseHex4(raw, p + 8);
      if second < 0xDC00 || 0xDFFF < second {
        return;
      }
      codepoint := PairOf(first, second);
    }
    EncodeUtf8(codepoint, output, op);
    length, next := width, op + Utf8Length(codepoint);
  }

  /**
   * The second pass of parse_string over the bytes behind the opening quote, into a buffer of the size that the first pass
   * computed: no write falls outside it.
   */
  method Unescape(raw: Text, output: array<byte>) returns (ok: bool, p: nat, op: nat)
    requires 0 < |raw| && InStep(raw, 0, false) && output.Length == Allotted(raw, 0) + 2
    modifies output
    ensures match Decode(raw, 0)
            case Failed(at) => !ok && p == at
            case Parsed(bytes, next) => ok && p == next <= |raw| && op == |bytes| < output.Length
                                        && output[..op] == bytes && output[op] == NUL
  {
    p, op := 0, 0;
    ghost var half := false;
    AfterNothing(Decode(raw, 0));
    assert output[..0] == [];
    while p + 1 < |raw|
      invariant p <= |raw| && op <= Allotted(raw, 0) && Affords(raw, p, half, Allotted(raw, 0) - op)
      invariant Decode(raw, 0) == After(output[..op], Decode(raw, p))
      decreases |raw| - p
    {
      ghost var step := Unit(raw, p);
      ghost var done := output[..op];
      if step.Step? {
        half := TurnIsPaid(raw, p, half, Allotted(raw, 0) - op);
      }
      var width, op' := Turn(raw, p, output, op);
      if width == 0 {
        return false, p, op;
      }
      AfterBoth(done, step.bytes, Decode(raw, p + width));
      p, op := p + width, op';
    }
    output[op] := NUL;
    ok := true;
  }

  /** One turn of its loop; a width of 0 says that the escape is malformed. */
  method Turn(raw: Text, p: nat, output: array<byte>, op: nat) returns (width: nat, next: nat)
    requires p + 1 < |raw| && op <= output.Length
    requires Unit(raw, p).Step? ==> op + |Unit(raw, p).bytes| <= output.Length
    modifies output
    ensures match Unit(raw, p)
            case Stuck => width == 0
            case Step(w, bytes) => width == w && next == op + |bytes| <= output.Length
                                   && output[..next] == old(output[..op]) + bytes
  {
    width, next := 0, op;
    if raw[p] != BACKSLASH {
      output[op] := raw[p];
      width, next := 1, op + 1;
    } else if raw[p + 1] == LOWER_U {
      width, next := Utf16LiteralToUtf8(raw, p, output, op);
    } else {
      var b := ShortEscape(raw[p + 1]);
      if b.Some? {
        output[op] := b.value;
        width, next := 2, op + 1;
      }
    }
  }

  /** An outcome with more bytes in front. */
  function After(done: Text, r: Outcome<Text>): Outcome<Text> {
    match r
    case Failed(at) => Failed(at)
    case Parsed(rest, next) => Parsed(done + rest, next)
  }

  lemma AfterNothing(r: Outcome<Text>)
    ensures After([], r) == r
  {
    assert r.Parsed? ==> [] + r.value == r.value;
  }

  lemma AfterBoth(a: Text, b: Text, r: Outcome<Text>)
    ensures After(a, After(b, r)) == After(a + b, r)
  {
    assert r.Parsed? ==> a + (b + r.value) == a + b + r.value;
  }

  /** The terminator ends what a C reader sees of the output buffer. */
  lemma {:induction false} CStringEnds(t: Text, n: nat)
    requires n < |t| && t[n] == NUL
    ensures CString(t) == CString(t[..n])
  {
    if n > 0 && t[0] != NUL {
      CStringEnds(t[1..], n - 1);
      assert t[1..][..n - 1] == t[..n][1..];
    }
  }

  // ----- Items under construction

  /** An item as cJSON_New_Item leaves it, except that it may have been given a key. */
  predicate Unfilled(item: Item) {
    item.valuestring == None && item.child == [] && !item.isReference && !item.constKey
  }

  /** `out` is `item` with its value filled in. */
  predicate Filled(out: Item, item: Item) {
    out.id == item.id && out.key == item.key && !out.isReference && !out.constKey
  }

  /** An outcome with more elements in front. */
  function Then<T>(done: seq<T>, r: Outcome<seq<T>>): Outcome<seq<T>> {
    match r
    case Failed(at) => Failed(at)
    case Parsed(rest, next) => Parsed(done + rest, next)
  }

  lemma ThenNothing<T>(r: Outcome<seq<T>>)
    ensures Then([], r) == r
  {
    assert r.Parsed? ==> [] + r.value == r.value;
  }

  lemma ThenBoth<T>(a: seq<T>, b: seq<T>, r: Outcome<seq<T>>)
    ensures Then(a, Then(b, r)) == Then(a + b, r)
  {
    assert r.Parsed? ==> a + (b + r.value) == a + b + r.value;
  }

  /**
   * parse_buffer. Every method promises: success means that no request for memory was refused, that the pure parser
   * accepts at the old offset, and that the item now stands for the value it reads and owns exactly the new blocks.
   * Failure means that the pure parser rejects, with this error offset, or that a request was refused; no block is left.
   */
  class ParseBuffer {
    const content: Text
    const strtod: Converter
    const hooks: Allocator
    var offset: nat
    var depth: nat

    ghost predicate Valid()
      reads this, hooks
    {
      offset <= |content| && hooks.Valid()
    }

    ghost function In(): Input {
      Input(content, strtod)
    }

    constructor (content: Text, strtod: Converter, hooks: Allocator)
      ensures this.content == content && this.strtod == strtod && this.hooks == hooks && offset == 0 && depth == 0
    {
      this.content, this.strtod, this.hooks := content, strtod, hooks;
      offset, depth := 0, 0;
    }

    predicate Sees(b: byte)
      reads this
    {
      offset < |content| && content[offset] == b
    }

    method SkipWhitespace()
      requires offset <= |content|
      modifies this`offset
      ensures offset == SkipBlanks(content, old(offset))
    {
      if offset >= |content| {
        return;
      }
      while offset < |content| && content[offset] <= SPACE
        invariant offset <= |content|
        invariant FirstNonBlank(content, offset) == FirstNonBlank(content, old(offset))
      {
        offset := offset + 1;
      }
      if offset == |content| {
        offset := offset - 1;
      }
    }

    /** The first pass of parse_string, from behind the opening quote. */
    method SizeString() returns (end: Option<nat>, skipped: nat)
      requires offset < |content|
      ensures end == Scan(content, offset + 1)
      ensures end.Some? ==> Allotted(content[offset + 1..end.value + 1], 0) + skipped == end.value - (offset + 1)
    {
      var p := offset + 1;
      skipped := 0;
      ghost var begin := p;
      while p < |content| && content[p] != QUOTE
        invariant begin <= p
        invariant p <= |content| && Scan(content, p) == Scan(content, begin)
        invariant Scan(content, begin).Some? ==>
                    var raw := content[begin..Scan(content, begin).value + 1];
                    Allotted(raw, p - begin) + (p - begin) == Allotted(raw, 0) + skipped
        decreases |content| - p
      {
        if content[p] == BACKSLASH {
          if p + 1 >= |content| {
            return None, skipped;
          }
          skipped, p := skipped + 1, p + 1;
        }
        p := p + 1;
      }
      end := if p < |content| then Some(p) else None;
    }

    /** What every parse_* method promises about its item; `rest` is all that is live besides it. */
    ghost predicate Gave(r: Outcome<Value>, ok: bool, out: Item, item: Item, rest: multiset<nat>, failuresBefore: nat)
      reads this, hooks
    {
      if ok then
        && r.Parsed? && offset == r.next && hooks.failures == failuresBefore
        && Filled(out, item) && Represents(out, r.value) && hooks.live == rest + Owned(out)
      else
        && hooks.live == rest + Owned(item)
        && (hooks.failures > failuresBefore || (hooks.failures == failuresBefore && r.Failed? && offset == r.at))
    }

    /** parse_string: the first pass sizes the buffer, the second fills it. */
    method ParseString(item: Item, ghost rest: multiset<nat>) returns (ok: bool, out: Item)
      requires Valid() && offset < |content| && Unfilled(item) && hooks.live == rest + Owned(item)
      modifies this`offset, hooks
      ensures Valid() && Gave(StringOutcome(old(offset)), ok, out, item, rest, old(hooks.failures))
      ensures ok ==> out.child == []
    {
      hide Owned, Decode, Scan, InStep, Allotted, CString, StringOutcome, StringSpec.ParseString, Represents, Filled;
      OutcomeOfString(offset);
      out := item;
      if content[offset] != QUOTE {
        offset := offset + 1;
        return false, item;
      }
      var end, skipped := SizeString();
      if end == None {
        offset := offset + 1;
        return false, item;
      }
      var allocationLength := end.value - offset - skipped;
      ok, out := StringUpTo(item, end.value, allocationLength, rest);
    }

    /** The rest of parse_string: a block of that length and what the second pass makes of the bytes. */
    method StringUpTo(item: Item, end: nat, allocationLength: nat, ghost rest: multiset<nat>) returns (ok: bool, out: Item)
      requires Valid() && offset < |content| && Unfilled(item) && hooks.live == rest + Owned(item)
      requires content[offset] == QUOTE && Scan(content, offset + 1) == Some(end)
      requires allocationLength == Allotted(content[offset + 1..end + 1], 0) + 1
      modifies this`offset, hooks
      ensures Valid() && Gave(StringOutcome(old(offset)), ok, out, item, rest, old(hooks.failures))
      ensures ok ==> out.child == []
    {
      hide Owned, Decode, Scan, InStep, Allotted, CString, StringOutcome, StringSpec.ParseString, Represents, Filled;
      OutcomeOfString(offset);
      var id := hooks.Allocate();
      if id == None {
        offset := offset + 1;
        return false, item;
      }
      var begin := offset + 1;
      var raw := content[begin..end + 1];
      SecondPassFits(content, offset, end);
      var p, value;
      ok, p, value := FillString(raw, allocationLength + 1);
      if !ok {
        hooks.Deallocate(id.value, rest + Owned(item));
        offset := begin + p;
        return false, item;
      }
      var text := Block(id.value, value);
      StringMade(item, text, rest);
      out := item.(kind := StringKind, valuestring := Some(text));
      offset := end + 1;
    }

    /** The second pass on a buffer of the size computed by the first, and what a C reader sees of it afterwards. */
    method FillString(raw: Text, size: nat) returns (ok: bool, p: nat, value: Text)
      requires 0 < |raw| && InStep(raw, 0, false) && size == Allotted(raw, 0) + 2
      ensures match Decode(raw, 0)
              case Failed(at) => !ok && p == at
              case Parsed(bytes, _) => ok && value == CString(bytes)
    {
      var output := new byte[size];
      var op;
      ok, p, op := Unescape(raw, output);
      value := [];
      if ok {
        CStringEnds(output[..], op);
        assert output[..][..op] == output[..op];
        value := CString(output[..]);
      }
    }

    lemma {:induction false} StringMade(item: Item, text: Block, rest: multiset<nat>)
      requires Unfilled(item)
      ensures var out := item.(kind := StringKind, valuestring := Some(text));
              && Filled(out, item) && Represents(out, Str(text.text)) && out.child == []
              && rest + Owned(out) == rest + Owned(item) + multiset{text.id}
    {
      hide Owned;
      OwnedWithText(item.(kind := StringKind), Some(text));
      OwnedAsKind(item, StringKind);
      Reassociate(rest, Owned(item), OneBlock(Some(text)));
    }

    lemma {:induction false} OutcomeOfString(i: nat)
      requires i < |content|
      ensures StringOutcome(i) ==
              if content[i] != QUOTE then Failed(i + 1)
              else
                match Scan(content, i + 1)
                case None => Failed(i + 1)
                case Some(e) =>
                  match Decode(content[i + 1..e + 1], 0)
                  case Failed(at) => Failed(i + 1 + at)
                  case Parsed(bytes, _) => Parsed(Str(CString(bytes)), e + 1)
    {
      hide Scan, Decode, CString;
    }

    ghost function StringOutcome(i: nat): Outcome<Value>
      requires i < |content|
    {
      match StringSpec.ParseString(content, i)
      case Failed(at) => Failed(at)
      case Parsed(t, next) => Parsed(Str(t), next)
    }

    /** The copy that parse_number makes for strtod: the run of number characters, as far as the buffer goes. */
    method CopyNumber() returns (numberCString: array<byte>, i: nat)
      requires offset <= |content|
      ensures i == RunLength(content, offset, NUMBER_ROOM) < numberCString.Length
      ensures numberCString[..i] == content[offset..offset + i] && numberCString[i] == NUL
    {
      hide RunLength, NumberChar;
      numberCString := new byte[64];
      i := 0;
      while i < 63 && offset + i < |content| && NumberChar(content[offset + i])
        invariant i <= 63 && offset + i <= |content|
        invariant forall k :: 0 <= k < i ==> numberCString[k] == content[offset + k]
        invariant forall k :: offset <= k < offset + i ==> NumberChar(content[k])
      {
        numberCString[i] := content[offset + i];
        i := i + 1;
      }
      RunIs(content, offset, i, NUMBER_ROOM);
      numberCString[i] := NUL;
    }

    /** The copy is the run that the specification hands to strtod. */
    lemma {:induction false} NumberConverted(n: nat, copy: Text)
      requires offset <= |content| && n == RunLength(content, offset, NUMBER_ROOM) && copy == content[offset..offset + n]
      ensures var number := strtod(copy);
              ParseSpec.ParseNumber(In(), offset) ==
              if number.consumed == 0 then Failed(offset) else Parsed(Number(number.value), offset + number.consumed)
    {
      hide RunLength;
    }

    /** parse_number: a bounded copy goes to strtod, and the offset moves by what was converted. */
    method ParseNumber(item: Item, ghost rest: multiset<nat>) returns (ok: bool, out: Item)
      requires Valid() && Unfilled(item) && hooks.live == rest + Owned(item)
      modifies this`offset
      ensures Valid() && Gave(ParseSpec.ParseNumber(In(), old(offset)), ok, out, item, rest, old(hooks.failures))
    {
      var numberCString, n := CopyNumber();
      var number := strtod(numberCString[..n]);
      NumberConverted(n, numberCString[..n]);
      hide RunLength, ParseSpec.ParseNumber, Owned;
      if number.consumed == 0 {
        return false, item;
      }
      var valueint := Saturated(number.value);
      out := item.(valuedouble := number.value, valueint := valueint, kind := NumberKind);
      OwnedAsNumber(item, valueint, number.value);
      OwnedAsKind(item.(valuedouble := number.value, valueint := valueint), NumberKind);
      offset := offset + number.consumed;
      ok := true;
    }

    method ParseValue(item: Item, ghost rest: multiset<nat>) returns (ok: bool, out: Item)
      requires Valid() && Unfilled(item) && hooks.live == rest + Owned(item)
      modifies this, hooks
      ensures Valid() && (ok ==> depth == old(depth))
      ensures Gave(ParseSpec.ParseValue(In(), old(offset), old(depth)), ok, out, item, rest, old(hooks.failures))
      decreases |content| - offset, 1
    {
      hide Owned, ParseItems, ParseMembers, StringSpec.ParseString, ParseSpec.ParseNumber;
      if At(content, offset, NULL_TEXT) {
        OwnedAsKind(item, NullKind);
        ok, out := true, item.(kind := NullKind);
        offset := offset + 4;
      } else if At(content, offset, FALSE_TEXT) {
        OwnedAsKind(item, FalseKind);
        ok, out := true, item.(kind := FalseKind);
        offset := offset + 5;
      } else if At(content, offset, TRUE_TEXT) {
        OwnedAsKind(item, TrueKind);
        OwnedAsNumber(item.(kind := TrueKind), 1, item.valuedouble);
        ok, out := true, item.(kind := TrueKind, valueint := 1);
        offset := offset + 4;
      } else if Sees(QUOTE) {
        ok, out := ParseString(item, rest);
      } else if Sees(MINUS) || (offset < |content| && IsDigit(content[offset])) {
        ok, out := ParseNumber(item, rest);
      } else if Sees(LBRACKET) {
        ok, out := ParseArray(item, rest);
      } else if Sees(LBRACE) {
        ok, out := ParseObject(item, rest);
      } else {
        ok, out := false, item;
      }
    }

    /** The part of cJSON_ParseWithLengthOpts that works on the buffer. */
    method ParseDocument(item: Item, requireNullTerminated: bool, ghost rest: multiset<nat>) returns (ok: bool, out: Item)
      requires Valid() && 0 < |content| && offset == 0 && depth == 0 && Unfilled(item) && hooks.live == rest + Owned(item)
      modifies this, hooks
      ensures Valid() && hooks.live == rest + Owned(out)
      ensures var r := ParseSpec.ParseDocument(In(), requireNullTerminated);
              if ok then r.Parsed? && offset == r.next && hooks.failures == old(hooks.failures) && Represents(out, r.value)
              else hooks.failures > old(hooks.failures)
                   || (hooks.failures == old(hooks.failures) && r.Failed? && offset == r.at)
    {
      hide Owned, Represents, ParseSpec.ParseValue, SkipBlanks, At;
      if 4 < |content| && At(content, 0, BYTE_ORDER_MARK) {
        offset := 3;
      }
      SkipWhitespace();
      ok, out := ParseValue(item, rest);
      if !ok {
        out := item;
      } else if requireNullTerminated {
        SkipWhitespace();
        ok := Sees(NUL);
      }
    }

    // ----- Arrays

    method ParseArray(item: Item, ghost rest: multiset<nat>) returns (ok: bool, out: Item)
      requires Valid() && Sees(LBRACKET) && Unfilled(item) && hooks.live == rest + Owned(item)
      modifies this, hooks
      ensures Valid() && (ok ==> depth == old(depth))
      ensures Gave(ParseSpec.ParseArray(In(), old(offset), old(depth)), ok, out, item, rest, old(hooks.failures))
      decreases |content| - offset, 0
    {
      hide Owned, OwnedAll, ParseItems, Represents, SkipBlanks;
      out := item;
      if depth >= NESTING_LIMIT {
        return false, item;
      }
      depth := depth + 1;
      offset := offset + 1;
      SkipWhitespace();
      var children := [];
      if Sees(RBRACKET) {
        ok := true;
      } else if offset >= |content| {
        offset := offset - 1;
        return false, item;
      } else {
        SkipsAgain(content, old(offset) + 1);
        offset := offset - 1;
        ok, children := ParseElements(rest + Owned(item));
        if !ok {
          return false, item;
        }
      }
      depth := depth - 1;
      OwnedWithChildren(item, ArrayKind, children, rest);
      RepresentsArray(item.(kind := ArrayKind, child := children));
      out := item.(kind := ArrayKind, child := children);
      offset := offset + 1;
    }

    /** What the loop over the elements is to find behind the byte at `i`. */
    ghost function ItemsBehind(i: nat, depth: nat): Outcome<seq<Value>>
      requires i < |content|
    {
      ParseItems(In(), SkipBlanks(content, i + 1), depth)
    }

    /** What is left to find at `k`, where an element and the blanks behind it end. */
    ghost function ItemsAt(k: nat, depth: nat): Outcome<seq<Value>> {
      if k >= |content| then Failed(k)
      else if content[k] == COMMA then ItemsBehind(k, depth)
      else if content[k] == RBRACKET then Parsed([], k + 1)
      else Failed(k)
    }

    lemma {:induction false} ItemsStep(items: seq<Value>, i: nat, depth: nat)
      requires i < |content|
      ensures Then(items, ItemsBehind(i, depth)) ==
              match ParseSpec.ParseValue(In(), SkipBlanks(content, i + 1), depth)
              case Failed(at) => Failed(at)
              case Parsed(v, n) => Then(items + [v], ItemsAt(SkipBlanks(content, n), depth))
    {
      hide ParseSpec.ParseValue, SkipBlanks;
      var r := ParseSpec.ParseValue(In(), SkipBlanks(content, i + 1), depth);
      if r.Parsed? {
        assert [r.value] + [] == [r.value];
        ThenBoth(items, [r.value], ItemsAt(SkipBlanks(content, r.next), depth));
      }
    }

    /** The loop over the elements of an array, from the byte in front of the first to the closing bracket. */
    method ParseElements(ghost rest: multiset<nat>) returns (ok: bool, children: seq<Item>)
      requires Valid() && offset < |content| && hooks.live == rest
      modifies this, hooks
      ensures Valid() && (ok ==> depth == old(depth))
      ensures var r := ItemsBehind(old(offset), old(depth));
              if ok then
                && r.Parsed? && offset + 1 == r.next && hooks.failures == old(hooks.failures)
                && RepresentItems(children, r.value) && hooks.live == rest + OwnedAll(children)
              else
                && hooks.live == rest
                && (hooks.failures > old(hooks.failures) || (hooks.failures == old(hooks.failures) && r.Failed? && offset == r.at))
      decreases |content| - offset - 1, 3
    {
      hide Owned, OwnedAll, Represents, ParseSpec.ParseValue, SkipBlanks, ItemsBehind;
      ghost var total := ItemsBehind(offset, depth);
      ghost var items := [];
      ThenNothing(total);
      OwnedAllNone(rest);
      ok, children := true, [];
      var more := true;
      while more
        invariant Valid() && (ok ==> old(offset) <= offset) && hooks.live == rest + OwnedAll(children)
        invariant more ==> ok && offset < |content|
        invariant ok ==> depth == old(depth) && hooks.failures == old(hooks.failures) && RepresentItems(children, items)
        invariant ok ==> total == Then(items, if more then ItemsBehind(offset, depth) else ItemsAt(offset, depth))
        invariant ok && !more ==> !Sees(COMMA)
        invariant !ok ==> hooks.failures > old(hooks.failures)
                          || (hooks.failures == old(hooks.failures) && total.Failed? && offset == total.at)
        decreases if more then |content| - offset else 0, more
      {
        ghost var i := offset;
        ItemsStep(items, i, depth);
        var added;
        ok, added := NextElement(rest + OwnedAll(children));
        OwnedAllTogether(rest, children, added);
        children := children + added;
        more := ok && Sees(COMMA);
        if ok {
          items := items + [ParseSpec.ParseValue(In(), SkipBlanks(content, i + 1), depth).value];
        }
      }
      if ok && !Sees(RBRACKET) {
        ok := false;
      }
      if !ok {
        Delete(children, hooks, rest);
        children := [];
      }
    }

    // ----- Objects

    method ParseObject(item: Item, ghost rest: multiset<nat>) returns (ok: bool, out: Item)
      requires Valid() && Sees(LBRACE) && Unfilled(item) && hooks.live == rest + Owned(item)
      modifies this, hooks
      ensures Valid() && (ok ==> depth == old(depth))
      ensures Gave(ParseSpec.ParseObject(In(), old(offset), old(depth)), ok, out, item, rest, old(hooks.failures))
      decreases |content| - offset, 0
    {
      hide Owned, OwnedAll, ParseMembers, Represents, SkipBlanks;
      out := item;
      if depth >= NESTING_LIMIT {
        return false, item;
      }
      depth := depth + 1;
      offset := offset + 1;
      SkipWhitespace();
      var children := [];
      if Sees(RBRACE) {
        ok := true;
      } else if offset >= |content| {
        offset := offset - 1;
        return false, item;
      } else {
        SkipsAgain(content, old(offset) + 1);
        offset := offset - 1;
        ok, children := ParsePairs(rest + Owned(item));
        if !ok {
          return false, item;
        }
      }
      depth := depth - 1;
      OwnedWithChildren(item, ObjectKind, children, rest);
      RepresentsObject(item.(kind := ObjectKind, child := children));
      out := item.(kind := ObjectKind, child := children);
      offset := offset + 1;
    }

    /** What the loop over the members is to find behind the byte at `i`. */
    ghost function MembersBehind(i: nat, depth: nat): Outcome<seq<Member>>
      requires i < |content|
    {
      if i + 1 == |content| then Failed(i) else ParseMembers(In(), SkipBlanks(content, i + 1), depth)
    }

    ghost function MemberBehind(i: nat, depth: nat): (r: Outcome<Member>)
      requires i < |content|
      ensures r.Parsed? ==> i < r.next <= |content|
    {
      if i + 1 == |content| then Failed(i) else ParseSpec.ParseMember(In(), SkipBlanks(content, i + 1), depth)
    }

    ghost function MembersAt(k: nat, depth: nat): Outcome<seq<Member>> {
      if k >= |content| then Failed(k)
      else if content[k] == COMMA then MembersBehind(k, depth)
      else if content[k] == RBRACE then Parsed([], k + 1)
      else Failed(k)
    }

    lemma {:induction false} MembersStep(members: seq<Member>, i: nat, depth: nat)
      requires i < |content|
      ensures Then(members, MembersBehind(i, depth)) ==
              match MemberBehind(i, depth)
              case Failed(at) => Failed(at)
              case Parsed(m, n) => Then(members + [m], MembersAt(SkipBlanks(content, n), depth))
    {
      hide ParseSpec.ParseMember, SkipBlanks;
      var r := MemberBehind(i, depth);
      if r.Parsed? {
        assert [r.value] + [] == [r.value];
        ThenBoth(members, [r.value], MembersAt(SkipBlanks(content, r.next), depth));
      }
    }

    /** The loop over the members of an object, from the byte in front of the first to the closing brace. */
    method ParsePairs(ghost rest: multiset<nat>) returns (ok: bool, children: seq<Item>)
      requires Valid() && offset < |content| && hooks.live == rest
      modifies this, hooks
      ensures Valid() && (ok ==> depth == old(depth))
      ensures var r := MembersBehind(old(offset), old(depth));
              if ok then
                && r.Parsed? && offset + 1 == r.next && hooks.failures == old(hooks.failures)
                && RepresentMembers(children, r.value) && hooks.live == rest + OwnedAll(children)
              else
                && hooks.live == rest
                && (hooks.failures > old(hooks.failures) || (hooks.failures == old(hooks.failures) && r.Failed? && offset == r.at))
      decreases |content| - offset - 1, 4
    {
      hide Owned, OwnedAll, RepresentsMember, ParseSpec.ParseMember, SkipBlanks, MembersBehind, MemberBehind;
      ghost var total := MembersBehind(offset, depth);
      ghost var members := [];
      ThenNothing(total);
      OwnedAllNone(rest);
      ok, children := true, [];
      var more := true;
      while more
        invariant Valid() && (ok ==> old(offset) <= offset) && hooks.live == rest + OwnedAll(children)
        invariant more ==> ok && offset < |content|
        invariant ok ==> depth == old(depth) && hooks.failures == old(hooks.failures) && RepresentMembers(children, members)
        invariant ok ==> total == Then(members, if more then MembersBehind(offset, depth) else MembersAt(offset, depth))
        invariant ok && !more ==> !Sees(COMMA)
        invariant !ok ==> hooks.failures > old(hooks.failures)
                          || (hooks.failures == old(hooks.failures) && total.Failed? && offset == total.at)
        decreases if more then |content| - offset else 0, more
      {
        ghost var i := offset;
        MembersStep(members, i, depth);
        var added;
        ok, added := NextPair(rest + OwnedAll(children));
        OwnedAllTogether(rest, children, added);
        children := children + added;
        more := ok && Sees(COMMA);
        if ok {
          members := members + [MemberBehind(i, depth).value];
        }
      }
      if ok && !Sees(RBRACE) {
        ok := false;
      }
      if !ok {
        Delete(children, hooks, rest);
        children := [];
      }
    }

    /** A new item at the end of the list, its key and its value. */
    method NextPair(ghost rest: multiset<nat>) returns (ok: bool, added: seq<Item>)
      requires Valid() && offset < |content| && hooks.live == rest
      modifies this, hooks
      ensures Valid() && |added| <= 1 && hooks.live == rest + OwnedAll(added)
      ensures var r := MemberBehind(old(offset), old(depth));
              if ok then
                && r.Parsed? && offset == SkipBlanks(content, r.next) && hooks.failures == old(hooks.failures) && depth == old(depth)
                && |added| == 1 && RepresentsMember(added[0], r.value)
              else
                || hooks.failures > old(hooks.failures)
                || (hooks.failures == old(hooks.failures) && r.Failed? && offset == r.at)
      decreases |content| - offset - 1, 3
    {
      hide Represents, ParseSpec.ParseMember, Owned, OwnedAll, SkipBlanks;
      var id := hooks.Allocate();
      if id == None {
        OwnedAllNone(rest);
        return false, [];
      }
      var item := BlankItem(id.value);
      OwnedBare(item);
      OwnedOne(item);
      if offset + 1 >= |content| {
        return false, [item];
      }
      offset := offset + 1;
      SkipWhitespace();
      ok, item := ParseMember(item, rest);
      added := [item];
      OwnedOne(item);
      if ok {
        SkipWhitespace();
      }
    }

    /** The key, the colon and the value of a member; what the item owns when this fails is deleted with it. */
    method ParseMember(item: Item, ghost rest: multiset<nat>) returns (ok: bool, out: Item)
      requires Valid() && offset < |content| && Unfilled(item) && item.key == None && hooks.live == rest + Owned(item)
      modifies this, hooks
      ensures Valid() && hooks.live == rest + Owned(out)
      ensures var r := ParseSpec.ParseMember(In(), old(offset), old(depth));
              if ok then
                && r.Parsed? && offset == r.next && hooks.failures == old(hooks.failures) && depth == old(depth)
                && RepresentsMember(out, r.value)
              else
                || hooks.failures > old(hooks.failures)
                || (hooks.failures == old(hooks.failures) && r.Failed? && offset == r.at)
      decreases |content| - offset, 2
    {
      hide Owned, ParseSpec.ParseValue, StringSpec.ParseString;
      ok, out := ParseString(item, rest);
      if !ok {
        out := item;
        return;
      }
      SkipWhitespace();
      OwnedAsKey(out);
      out := out.(key := out.valuestring, valuestring := None);
      if !Sees(COLON) {
        return false, out;
      }
      offset := offset + 1;
      SkipWhitespace();
      var named := out;
      ok, out := ParseValue(named, rest);
      if !ok {
        out := named;
      }
    }

    /** A new item at the end of the list, and the value it gets. */
    method NextElement(ghost rest: multiset<nat>) returns (ok: bool, added: seq<Item>)
      requires Valid() && offset < |content| && hooks.live == rest
      modifies this, hooks
      ensures Valid() && |added| <= 1 && hooks.live == rest + OwnedAll(added)
      ensures var r := ParseSpec.ParseValue(In(), SkipBlanks(content, old(offset) + 1), old(depth));
              if ok then
                && r.Parsed? && offset == SkipBlanks(content, r.next) && hooks.failures == old(hooks.failures) && depth == old(depth)
                && |added| == 1 && Represents(added[0], r.value)
              else
                || hooks.failures > old(hooks.failures)
                || (hooks.failures == old(hooks.failures) && r.Failed? && offset == r.at)
      decreases |content| - offset - 1, 2
    {
      hide Represents, ParseSpec.ParseValue, SkipBlanks, Owned;
      var id := hooks.Allocate();
      if id == None {
        OwnedAllNone(rest);
        return false, [];
      }
      var item := BlankItem(id.value);
      OwnedBare(item);
      offset := offset + 1;
      SkipWhitespace();
      ok, item := ParseValue(item, rest);
      added := [item];
      OwnedOne(item);
      if ok {
        SkipWhitespace();
      } else {
        added := [BlankItem(id.value)];
        OwnedOne(BlankItem(id.value));
      }
    }
  }

  /** Skipping blanks twice is skipping them once. */
  lemma {:induction false} SkipsAgain(s: Text, i: nat)
    requires i < |s|
    ensures SkipBlanks(s, SkipBlanks(s, i)) == SkipBlanks(s, i)
  {
  }

  /**
   * cJSON_ParseWithLengthOpts. A root is returned only if the pure parser accepts, and then stands for the value it reads
   * and owns exactly the blocks that are new; otherwise nothing stays allocated, and unless a request for memory was refused
   * the pure parser rejects. The offset handed back through return_parse_end is the pure parser's in both cases.
   */
  method ParseWithLengthOpts(value: Text, strtod: Converter, hooks: Allocator, requireNullTerminated: bool)
    returns (root: Option<Item>, parseEnd: nat)
    requires hooks.Valid()
    modifies hooks
    ensures hooks.Valid() && (parseEnd < |value| || parseEnd == |value| == 0 || root.Some?)
    ensures var r := ParseText(Input(value, strtod), requireNullTerminated);
            match root
            case Some(item) => r.Parsed? && Represents(item, r.value) && parseEnd == r.next
                               && hooks.live == old(hooks.live) + Owned(item) && hooks.failures == old(hooks.failures)
            case None => hooks.live == old(hooks.live)
                         && (hooks.failures > old(hooks.failures) || (r.Failed? && parseEnd == r.at))
  {
    hide Owned, Represents, ParseSpec.ParseDocument;
    if |value| == 0 {
      return None, 0;
    }
    ghost var rest := hooks.live;
    var buffer := new ParseBuffer(value, strtod, hooks);
    var id := hooks.Allocate();
    if id == None {
      return None, 0;
    }
    var item := BlankItem(id.value);
    OwnedBare(item);
    var ok, out := buffer.ParseDocument(item, requireNullTerminated, rest);
    parseEnd := buffer.offset;
    if ok {
      return Some(out), parseEnd;
    }
    OwnedOne(out);
    Delete([out], hooks, rest);
    parseEnd := if parseEnd < |value| then parseEnd else |value| - 1;
    root := None;
  }

  /** Parsing and then deleting what came back releases every block that parsing took, whatever the input and the refusals. */
  method ParseThenDelete(value: Text, strtod: Converter, hooks: Allocator, requireNullTerminated: bool) returns (parsed: bool)
    requires hooks.Valid()
    modifies hooks
    ensures hooks.Valid() && hooks.live == old(hooks.live)
    ensures parsed ==> ParseText(Input(value, strtod), requireNullTerminated).Parsed?
    ensures !parsed && hooks.failures == old(hooks.failures) ==> ParseText(Input(value, strtod), requireNullTerminated).Failed?
  {
    ghost var rest := hooks.live;
    var root, parseEnd := ParseWithLengthOpts(value, strtod, hooks, requireNullTerminated);
    parsed := root.Some?;
    if parsed {
      OwnedOne(root.value);
      Delete([root.value], hooks, rest);
    }
  }
}
