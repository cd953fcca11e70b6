/** The printer of cJSON.c: text written into a buffer that grows, or that the caller has sized. */
module Printer {
  import opened Ascii
  import opened Values
  import opened Tokens
  import opened ParseSpec
  import opened Escapes
  import opened Render
  import opened Items
  import opened Powers

  /** Whether there is a buffer, its length, whether that was cut to what an int can hold, and the requests refused so far. */
  datatype Costs = Costs(present: bool, length: nat, capped: bool, failures: nat)

  /**
   * printbuffer. `others` are the live blocks besides the buffer; `limit` is what the buffer may come to hold: the size
   * that the caller gave, or as much as an int can count. `regrows` counts the times it was enlarged from `base` bytes.
   */
  class PrintBuffer {
    var buffer: array?<byte>
    var length: nat
    var offset: nat
    var depth: nat
    var block: Option<nat>
    const noalloc: bool
    const format: Format
    const reallocates: bool
    const hooks: Allocator
    const given: array<byte>
    const limit: nat
    const base: nat
    ghost const others: multiset<nat>
    ghost var regrows: nat
    ghost var capped: bool

    /** A buffer of the caller's has no block of ours, and may not grow. */
    constructor (buffer: array<byte>, block: Option<nat>, format: Format, reallocates: bool, hooks: Allocator,
                 ghost others: multiset<nat>)
      requires hooks.Valid() && hooks.live == others + (match block case None => multiset{} case Some(b) => multiset{b})
      requires buffer.Length <= INT_MAX && (buffer.Length == 0 ==> block == None || reallocates)
      ensures Valid() && this.buffer == buffer && offset == 0 && depth == 0
      ensures given == buffer && this.noalloc == (block == None) && this.format == format && this.hooks == hooks && this.others == others
      ensures limit == (if block == None then buffer.Length else INT_MAX) && base == buffer.Length && regrows == 0 && !capped
    {
      this.buffer, this.length, this.offset, this.depth, this.block := buffer, buffer.Length, 0, 0, block;
      this.noalloc, this.format, this.reallocates, this.hooks := block == None, format, reallocates, hooks;
      this.given := buffer;
      this.limit := if block == None then buffer.Length else INT_MAX;
      this.base, this.others, this.regrows, this.capped := buffer.Length, others, 0, false;
    }

    ghost predicate Valid()
      reads `buffer, `length, `offset, `block, `regrows, `capped, hooks
    {
      && hooks.Valid() && limit <= INT_MAX
      && hooks.live == others + (match block case None => multiset{} case Some(b) => multiset{b})
      && (if noalloc then buffer == given && block == None && length == limit else limit == INT_MAX)
      && (buffer != null ==>
            && (noalloc || block.Some?)
            && buffer.Length == length <= limit
            && (offset < length || (offset == length == 0 && (noalloc || reallocates)))
            && (!capped ==> base * Pow2(regrows) <= length))
      && (buffer == null ==> !noalloc && block == None && length == 0)
    }

    /** The buffer starts with `t`. */
    ghost predicate Holds(t: Text)
      reads `buffer, buffer
    {
      buffer != null && |t| <= buffer.Length && buffer[..|t|] == t
    }

    /** The C string in the buffer is `t`. */
    ghost predicate HoldsString(t: Text)
      reads `buffer, buffer
    {
      Holds(t) && |t| < buffer.Length && buffer[|t|] == NUL
    }

    /** What an attempt may change besides the text. */
    ghost function Now(): Costs
      reads `buffer, `length, `capped, hooks
    {
      Costs(buffer != null, length, capped, hooks.failures)
    }

    /**
     * The outcome of an attempt that needs no more than `demand` bytes in all: it fails only if they exceed the limit or a
     * request for memory is refused, and the buffer never grows beyond twice the demand.
     */
    ghost predicate AtMost(ok: bool, demand: nat, before: Costs, after: Costs) {
      && (if ok then after.present && after.failures == before.failures
          else after.failures > before.failures || (after.failures == before.failures && demand > limit))
      && (noalloc ==> after.failures == before.failures)
      && (after.length <= before.length || after.length <= 2 * demand)
      && (after.capped ==> before.capped || demand > INT_MAX / 2)
    }

    /** The same for an attempt that needs exactly `demand` bytes: it succeeds only if they are within the limit. */
    ghost predicate Within(ok: bool, demand: nat, before: Costs, after: Costs) {
      AtMost(ok, demand, before, after) && (ok ==> demand <= limit)
    }

    /** A part of an attempt: when it fails so does the whole, and otherwise the whole is as good as what follows. */
    lemma PartSpent(ok: bool, part: nat, demand: nat, before: Costs, mid: Costs)
      requires (AtMost(ok, part, before, mid) || Within(ok, part, before, mid)) && part <= demand
      ensures !ok ==> AtMost(false, demand, before, mid) && Within(false, demand, before, mid)
      ensures ok ==> AtMost(true, demand, before, mid)
      ensures ok ==> forall rest, after :: AtMost(rest, demand, mid, after) ==> AtMost(rest, demand, before, after)
      ensures ok ==> forall rest, after :: Within(rest, demand, mid, after) ==> Within(rest, demand, before, after)
    {
    }

    lemma AlsoAtMost(ok: bool, demand: nat, before: Costs, mid: Costs, after: Costs)
      requires AtMost(true, demand, before, mid) && AtMost(ok, demand, mid, after)
      ensures AtMost(ok, demand, before, after)
    {
    }

    lemma NothingSpent(demand: nat, t: Text)
      requires Holds(t)
      ensures AtMost(true, demand, Now(), Now())
    {
    }

    /** ensure: room for `needed` bytes behind the offset and one more. */
    method Ensure(needed: nat, ghost prefix: Text) returns (ok: bool)
      requires Valid() && Holds(prefix) && |prefix| == offset
      modifies this, hooks, buffer
      ensures Valid() && offset == old(offset) && depth == old(depth)
      ensures buffer == null || buffer == old(buffer) || fresh(buffer)
      ensures ok ==> Holds(prefix) && offset + needed + 1 <= length
      ensures Within(ok, old(offset) + needed + 1, old(Now()), Now())
    {
      if length > 0 && offset >= length {
        return false;
      }
      if needed > INT_MAX {
        return false;
      }
      var demand := needed + offset + 1;
      if demand <= length {
        return true;
      }
      if noalloc {
        return false;
      }
      var newsize;
      if demand > INT_MAX / 2 {
        if demand <= INT_MAX {
          newsize, capped := INT_MAX, true;
        } else {
          return false;
        }
      } else {
        newsize := demand * 2;
      }
      ok := Grow(newsize, prefix);
    }

    /**
     * The second half of ensure: a new block takes over what realloc keeps, which is everything, or what is copied without
     * it, which is the text and one byte more. A refusal costs the old block as well.
     */
    method Grow(newsize: nat, ghost prefix: Text) returns (ok: bool)
      requires hooks.Valid() && limit == INT_MAX && block.Some? && hooks.live == others + multiset{block.value} && !noalloc
      requires buffer != null && buffer.Length == length < newsize <= limit && Holds(prefix) && |prefix| == offset
      requires offset < length || (offset == length == 0 && reallocates)
      requires !capped ==> base * Pow2(regrows) <= length && 2 * length <= newsize
      modifies this, hooks
      ensures Valid() && offset == old(offset) && depth == old(depth) && capped == old(capped)
      ensures buffer == null || fresh(buffer)
      ensures if ok then Holds(prefix) && length == newsize && regrows == old(regrows) + 1 && hooks.failures == old(hooks.failures)
              else buffer == null && hooks.failures > old(hooks.failures)
    {
      Doubles(base, regrows, length);
      hide Pow2;
      var newblock := hooks.Allocate();
      if newblock == None {
        LoseBuffer();
        return false;
      }
      var newbuffer := CopyOf(newsize, if reallocates then length else offset + 1, prefix);
      ReleaseOld(block.value, newblock.value);
      length, buffer, block, regrows := newsize, newbuffer, newblock, regrows + 1;
      ok := true;
    }

    method LoseBuffer()
      requires hooks.Valid() && limit == INT_MAX && block.Some? && hooks.live == others + multiset{block.value} && !noalloc
      modifies this, hooks
      ensures Valid() && buffer == null && offset == old(offset) && depth == old(depth) && capped == old(capped)
      ensures hooks.failures == old(hooks.failures)
    {
      hooks.Deallocate(block.value, others);
      length, buffer, block := 0, null, None;
    }

    method ReleaseOld(old_: nat, new_: nat)
      requires hooks.Valid() && hooks.live == others + multiset{old_} + multiset{new_}
      modifies hooks
      ensures hooks.Valid() && hooks.live == others + multiset{new_} && hooks.failures == old(hooks.failures)
    {
      assert hooks.live == (others + multiset{new_}) + multiset{old_};
      hooks.Deallocate(old_, others + multiset{new_});
    }

    lemma Doubles(base: nat, k: nat, length: nat)
      ensures base * Pow2(k) <= length ==> base * Pow2(k + 1) <= 2 * length
    {
      assert base * Pow2(k + 1) == 2 * (base * Pow2(k));
    }

    /** memcpy of the first `count` bytes into a new buffer. */
    method CopyOf(newsize: nat, count: nat, ghost prefix: Text) returns (newbuffer: array<byte>)
      requires Holds(prefix) && |prefix| <= count <= buffer.Length && count <= newsize
      ensures fresh(newbuffer) && newbuffer.Length == newsize && newbuffer[..|prefix|] == prefix
    {
      newbuffer := new byte[newsize];
      var i := 0;
      while i < count
        invariant i <= count && newbuffer[..i] == buffer[..i]
      {
        newbuffer[i] := buffer[i];
        i := i + 1;
      }
      assert newbuffer[..|prefix|] == newbuffer[..count][..|prefix|];
      assert buffer[..|prefix|] == buffer[..count][..|prefix|];
    }

    /** update_offset: on to the terminator. */
    method UpdateOffset(ghost t: Text)
      requires HoldsString(t) && offset <= |t| && forall k :: offset <= k < |t| ==> t[k] != NUL
      modifies this`offset
      ensures offset == |t|
    {
      assert forall k :: offset <= k < |t| ==> buffer[..|t|][k] != NUL;
      var n := 0;
      while buffer[offset + n] != NUL
        invariant offset + n <= |t|
        decreases |t| - n
      {
        n := n + 1;
      }
      offset := offset + n;
    }

    /** Writes bytes behind the offset, and a terminator if asked to. */
    method Put(bytes: Text, terminate: bool, ghost prefix: Text)
      requires buffer != null && Holds(prefix) && |prefix| == offset
      requires offset + |bytes| + (if terminate then 1 else 0) <= buffer.Length
      modifies buffer
      ensures Holds(prefix + bytes) && (terminate ==> HoldsString(prefix + bytes))
    {
      var i := 0;
      while i < |bytes|
        invariant i <= |bytes| && buffer[..offset] == prefix && buffer[offset..offset + i] == bytes[..i]
      {
        buffer[offset + i] := bytes[i];
        i := i + 1;
      }
      if terminate {
        buffer[offset + |bytes|] := NUL;
      }
      assert buffer[offset..offset + |bytes|] == bytes;
      assert buffer[..offset + |bytes|] == buffer[..offset] + buffer[offset..offset + |bytes|];
    }

    /** What print does in the end: a block of just the size of the text replaces the buffer. */
    method Shrink(ghost text: Text) returns (printed: array?<byte>, newblock: Option<nat>)
      requires Valid() && !noalloc && HoldsString(text) && offset <= |text| && NulFree(text)
      modifies this, hooks
      ensures hooks.Valid()
      ensures if printed == null then newblock == None && hooks.live == others && hooks.failures > old(hooks.failures)
              else fresh(printed) && newblock.Some? && hooks.live == others + multiset{newblock.value}
                   && hooks.failures == old(hooks.failures) && printed[..] == text + [NUL]
    {
      hide Pow2;
      UpdateOffset(text);
      newblock := hooks.Allocate();
      if newblock == None {
        hooks.Deallocate(block.value, others);
        return null, None;
      }
      printed := CopyOf(offset + 1, offset, text);
      printed[offset] := NUL;
      ReleaseOld(block.value, newblock.value);
      assert printed[..] == printed[..|text|] + [NUL];
    }

    /**
     * print_number: "%d" for a number that valueint holds; otherwise fifteen digits, and seventeen if what sscanf reads back
     * does not compare equal. The number is finite.
     */
    method PrintNumber(d: real, ghost prefix: Text) returns (ok: bool)
      requires Valid() && Holds(prefix) && |prefix| == offset
      modifies this, hooks, buffer
      ensures Valid() && (buffer == null || buffer == old(buffer) || fresh(buffer)) && depth == old(depth)
      ensures var text := NumeralOf(d, format.numerals);
              && (ok ==> HoldsString(prefix + text) && offset == |prefix + text|)
              && Within(ok, |prefix + text| + 2, old(Now()), Now())
    {
      hide NumeralOf, Pow2, AtMost, Within, CompareDouble, Holds, HoldsString;
      var text := NumberBuffer(d);
      if |text| > NUMERAL_ROOM {
        return false;
      }
      ok := PrintWord(text, prefix);
      if ok {
        Advance(|text|, prefix + text);
      }
    }

    /** The offset moves on, and not beyond the terminator. */
    method Advance(n: nat, ghost t: Text)
      requires Valid() && HoldsString(t) && offset + n == |t|
      modifies this`offset
      ensures Valid() && HoldsString(t) && offset == |t| && Now() == old(Now())
    {
      hide Pow2;
      offset := offset + n;
    }

    /** What goes into number_buffer. */
    method NumberBuffer(d: real) returns (text: NumberText)
      ensures text == NumeralOf(d, format.numerals)
    {
      var valueint := Saturated(d);
      if d == valueint as real {
        IntTextLength(valueint);
        text := IntText(valueint);
      } else {
        text := format.numerals.digits15(d);
        var test := format.numerals.scan(text);
        if test.None? || !CompareDouble(test.value, d) {
          text := format.numerals.digits17(d);
        }
      }
    }

    /** The first loop of print_string_ptr: how many bytes the escapes add. */
    method EscapeCharacters(t: Text) returns (n: nat)
      ensures |Escaped(t)| == |t| + n
    {
      n := 0;
      var i := 0;
      while i < |t|
        invariant i <= |t| && |Escaped(t)| == n + i + |Escaped(t[i..])|
      {
        assert t[i..][0] == t[i] && t[i..][1..] == t[i + 1..];
        if t[i] in {QUOTE, BACKSLASH, 0x08, 0x0C, LF, CR, TAB} {
          n := n + 1;
        } else if t[i] < 32 {
          n := n + 5;
        }
        i := i + 1;
      }
    }

    /** The second loop: the escape of each byte in turn, behind the opening quote at `start`. */
    method PutEscaped(t: Text, start: nat)
      requires buffer != null && start + |Escaped(t)| <= buffer.Length
      modifies buffer
      ensures buffer[..start + |Escaped(t)|] == old(buffer[..start]) + Escaped(t)
    {
      hide PieceText, EscapedByte;
      var i, at := 0, start;
      ghost var all := Escaped(t);
      while i < |t|
        invariant i <= |t| && start <= at && at + |Escaped(t[i..])| == start + |all|
        invariant buffer[..at] + Escaped(t[i..]) == old(buffer[..start]) + all
      {
        assert t[i..][0] == t[i] && t[i..][1..] == t[i + 1..];
        var piece := PieceText(EscapedByte(t[i]));
        ghost var done := buffer[..at];
        PutPiece(piece, at);
        assert done + (piece + Escaped(t[i + 1..])) == (done + piece) + Escaped(t[i + 1..]);
        i, at := i + 1, at + |piece|;
      }
    }

    method PutPiece(piece: Text, at: nat)
      requires buffer != null && at + |piece| <= buffer.Length
      modifies buffer
      ensures buffer[..at + |piece|] == old(buffer[..at]) + piece
    {
      var k := 0;
      while k < |piece|
        invariant k <= |piece| && buffer[..at + k] == old(buffer[..at]) + piece[..k]
      {
        buffer[at + k] := piece[k];
        k := k + 1;
      }
    }

    /** print_string_ptr; the caller moves the offset. */
    method PrintString(t: Text, ghost prefix: Text) returns (ok: bool)
      requires Valid() && Holds(prefix) && |prefix| == offset
      modifies this, hooks, buffer
      ensures Valid() && (buffer == null || buffer == old(buffer) || fresh(buffer)) && depth == old(depth)
      ensures ok ==> HoldsString(prefix + Quoted(Escaped(t))) && offset == |prefix|
      ensures Within(ok, |prefix + Quoted(Escaped(t))| + 2, old(Now()), Now())
    {
      hide Escaped;
      var escapeCharacters := EscapeCharacters(t);
      var outputLength := |t| + escapeCharacters;
      ok := Ensure(outputLength + 3, prefix);
      if !ok {
        return;
      }
      if escapeCharacters == 0 {
        NothingEscaped(t);
        Put(Quoted(t), true, prefix);
      } else {
        PutQuoted(t, outputLength, prefix);
      }
    }

    method PutQuoted(t: Text, outputLength: nat, ghost prefix: Text)
      requires Holds(prefix) && |prefix| == offset && |Escaped(t)| == outputLength && offset + outputLength + 2 < buffer.Length
      modifies buffer
      ensures HoldsString(prefix + Quoted(Escaped(t)))
    {
      hide Escaped;
      PutPiece([QUOTE], offset);
      PutEscaped(t, offset + 1);
      PutPiece([QUOTE, NUL], offset + 1 + outputLength);
      ghost var all := (prefix + [QUOTE]) + Escaped(t) + [QUOTE, NUL];
      assert buffer[..offset + outputLength + 3] == all;
      assert all == (prefix + Quoted(Escaped(t))) + [NUL];
      assert buffer[..offset + outputLength + 2] == all[..offset + outputLength + 2];
      assert buffer[offset + outputLength + 2] == all[offset + outputLength + 2];
    }

    lemma {:induction false} NothingEscaped(t: Text)
      requires |Escaped(t)| == |t|
      ensures Escaped(t) == t
    {
      if t != [] {
        EscapedGrows(t[1..]);
        NothingEscaped(t[1..]);
      }
    }

    lemma {:induction false} EscapedGrows(t: Text)
      ensures |t| <= |Escaped(t)|
    {
      if t != [] {
        EscapedGrows(t[1..]);
      }
    }

    /** A string, and then update_offset. */
    method PrintStringAndAdvance(t: Text, ghost prefix: Text) returns (ok: bool)
      requires Valid() && Holds(prefix) && |prefix| == offset && NulFree(t)
      modifies this, hooks, buffer
      ensures Valid() && (buffer == null || buffer == old(buffer) || fresh(buffer)) && depth == old(depth)
      ensures ok ==> Holds(prefix + Quoted(Escaped(t))) && offset == |prefix + Quoted(Escaped(t))|
      ensures Within(ok, |prefix + Quoted(Escaped(t))| + 2, old(Now()), Now())
    {
      hide Quoted, Escaped, Pow2;
      ok := PrintString(t, prefix);
      if ok {
        QuotedIsNulFree(t);
        UpdateOffset(prefix + Quoted(Escaped(t)));
      }
    }

    // ----- Values

    method PrintValue(v: Value, ghost prefix: Text) returns (ok: bool)
      requires Valid() && Holds(prefix) && |prefix| == offset && Printable(v)
      modifies this, hooks, buffer
      ensures Valid() && (buffer == null || buffer == old(buffer) || fresh(buffer))
      ensures var text := RenderValue(v, format, old(depth));
              && (ok ==> HoldsString(prefix + text) && |prefix| <= offset <= |prefix + text| && depth == old(depth))
              && Within(ok, |prefix + text| + 2, old(Now()), Now())
      decreases v, 1
    {
      hide Valid, Holds, HoldsString, AtMost, Within, RenderItems, RenderMembers, Quoted, Escaped, NumeralOf, Pow2;
      match v
      case Null => ok := PrintWord(NULL_TEXT, prefix);
      case Bool(b) => ok := PrintWord(if b then TRUE_TEXT else FALSE_TEXT, prefix);
      case Number(d) => ok := PrintNumber(d, prefix);
      case Str(s) => ok := PrintString(s, prefix);
      case Arr(items) => ok := PrintArray(items, prefix);
      case Obj(members) => ok := PrintObject(members, prefix);
    }

    /** A name, a number or what closes a container; the caller moves the offset. */
    method PrintWord(word: Text, ghost prefix: Text) returns (ok: bool)
      requires Valid() && Holds(prefix) && |prefix| == offset
      modifies this, hooks, buffer
      ensures Valid() && (buffer == null || buffer == old(buffer) || fresh(buffer)) && depth == old(depth)
      ensures ok ==> HoldsString(prefix + word) && offset == |prefix|
      ensures Within(ok, |prefix + word| + 2, old(Now()), Now())
    {
      ok := Ensure(|word| + 1, prefix);
      if ok {
        Put(word, true, prefix);
      }
    }

    /** Room for the bytes and some more; then the bytes, and a terminator if asked for; then the offset moves behind the bytes. */
    method Append(bytes: Text, spare: nat, terminate: bool, ghost prefix: Text) returns (ok: bool)
      requires Valid() && Holds(prefix) && |prefix| == offset && (terminate ==> 0 < spare)
      modifies this, hooks, buffer
      ensures Valid() && (buffer == null || buffer == old(buffer) || fresh(buffer)) && depth == old(depth)
      ensures ok ==> Holds(prefix + bytes) && offset == |prefix + bytes|
      ensures Within(ok, |prefix + bytes| + spare + 1, old(Now()), Now())
    {
      hide HoldsString, AtMost, Within, Pow2;
      ok := Ensure(|bytes| + spare, prefix);
      if ok {
        Put(bytes, terminate, prefix);
        offset := offset + |bytes|;
      }
    }

    /** A value, and then update_offset. */
    method PrintAndAdvance(v: Value, ghost prefix: Text) returns (ok: bool)
      requires Valid() && Holds(prefix) && |prefix| == offset && Printable(v)
      modifies this, hooks, buffer
      ensures Valid() && (buffer == null || buffer == old(buffer) || fresh(buffer))
      ensures var text := RenderValue(v, format, old(depth));
              && (ok ==> Holds(prefix + text) && offset == |prefix + text| && depth == old(depth))
              && Within(ok, |prefix + text| + 2, old(Now()), Now())
      decreases v, 2
    {
      hide RenderValue, Printable, Pow2;
      ok := PrintValue(v, prefix);
      if ok {
        RenderIsNulFree(v, format, old(depth));
        UpdateOffset(prefix + RenderValue(v, format, old(depth)));
      }
    }

    // ----- Arrays

    /** An element of an array and the separator behind it. */
    method PrintElement(v: Value, last: bool, ghost prefix: Text) returns (ok: bool)
      requires Valid() && Holds(prefix) && |prefix| == offset && Printable(v)
      modifies this, hooks, buffer
      ensures Valid() && (buffer == null || buffer == old(buffer) || fresh(buffer))
      ensures var text := RenderElement(v, last, format, old(depth));
              && (ok ==> Holds(prefix + text) && offset == |prefix + text| && depth == old(depth))
              && Within(ok, |prefix + text| + 2, old(Now()), Now())
      decreases v, 3
    {
      hide RenderValue, RenderElement, ItemSeparator, Printable, Pow2, AtMost, Within, Valid, Holds, HoldsString;
      ghost var text := prefix + RenderValue(v, format, depth);
      ghost var demand := |prefix + RenderElement(v, last, format, depth)| + 2;
      ghost var start := Now();
      ElementParts(v, last, format, depth, prefix);
      ok := PrintAndAdvance(v, prefix);
      PartSpent(ok, |text| + 2, demand, start, Now());
      if ok && !last {
        ok := Append(ItemSeparator(format.lines), 1, true, text);
      }
    }

    static lemma {:induction false} ElementParts(v: Value, last: bool, fmt: Format, depth: nat, prefix: Text)
      ensures var text := prefix + RenderValue(v, fmt, depth);
              var all := prefix + RenderElement(v, last, fmt, depth);
              |text| <= |all| && all == if last then text else text + ItemSeparator(fmt.lines)
    {
      hide RenderValue, ItemSeparator;
    }

    method PrintArray(items: seq<Value>, ghost prefix: Text) returns (ok: bool)
      requires Valid() && Holds(prefix) && |prefix| == offset
      requires forall i :: 0 <= i < |items| ==> Printable(items[i])
      modifies this, hooks, buffer
      ensures Valid() && (buffer == null || buffer == old(buffer) || fresh(buffer))
      ensures var text := RenderValue(Arr(items), format, old(depth));
              && (ok ==> HoldsString(prefix + text) && |prefix| <= offset <= |prefix + text| && depth == old(depth))
              && Within(ok, |prefix + text| + 2, old(Now()), Now())
      decreases items, 1
    {
      hide Printable, Pow2, Valid, Holds, HoldsString, RenderValue, RenderItems;
      hide AtMost, Within;
      ghost var inner := prefix + [LBRACKET] + RenderItems(items, format, depth + 1);
      ghost var demand := |prefix + RenderValue(Arr(items), format, depth)| + 2;
      ghost var start := Now();
      ArrayParts(prefix, items, format, depth);
      ok := Append([LBRACKET], 0, false, prefix);
      PartSpent(ok, |prefix| + 2, demand, start, Now());
      if ok {
        depth := depth + 1;
        ghost var mid := Now();
        ok := PrintElements(items, prefix + [LBRACKET]);
        PartSpent(ok, |inner| + 2, demand, mid, Now());
      }
      if ok {
        ok := PrintWord([RBRACKET], inner);
      }
      if ok {
        depth := depth - 1;
      }
    }

    static lemma {:induction false} ArrayParts(prefix: Text, items: seq<Value>, fmt: Format, depth: nat)
      ensures var text := prefix + [LBRACKET];
              var inner := text + RenderItems(items, fmt, depth + 1);
              var all := prefix + RenderValue(Arr(items), fmt, depth);
              inner + [RBRACKET] == all && |prefix| < |text| <= |inner| < |all|
    {
    }

    /** The loop over the elements. */
    method PrintElements(items: seq<Value>, ghost prefix: Text) returns (ok: bool)
      requires Valid() && Holds(prefix) && |prefix| == offset
      requires forall i :: 0 <= i < |items| ==> Printable(items[i])
      modifies this, hooks, buffer
      ensures Valid() && (buffer == null || buffer == old(buffer) || fresh(buffer))
      ensures var text := RenderItems(items, format, old(depth));
              && (ok ==> Holds(prefix + text) && offset == |prefix + text| && depth == old(depth))
              && AtMost(ok, |prefix + text| + 2, old(Now()), Now())
      decreases items, 0
    {
      hide Printable, Pow2, RenderItems, ItemsFrom, Valid, Holds, HoldsString, Leaves, AtMost, Within;
      ghost var start := Now();
      ghost var all := prefix + RenderItems(items, format, depth);
      ghost var text := prefix;
      NothingSpent(|all| + 2, prefix);
      LeavesAll(prefix, RenderItems(items, format, depth));
      ItemsFromEnds(items, format, depth);
      ok := true;
      var i := 0;
      while i < |items|
        invariant i <= |items| && Valid() && (buffer == old(buffer) || fresh(buffer)) && depth == old(depth)
        invariant Holds(text) && |text| == offset && Leaves(text, ItemsFrom(items, i, format, depth), all)
        invariant AtMost(true, |all| + 2, start, Now())
      {
        ghost var mid := Now();
        ok, text := NextElement(items, i, text, all);
        AlsoAtMost(ok, |all| + 2, start, mid, Now());
        if !ok {
          return;
        }
        i := i + 1;
      }
      LeavesNothing(text, all);
    }

    /** One turn of the loop: `text` grows by one more part of `all`. */
    method NextElement(items: seq<Value>, i: nat, ghost text: Text, ghost all: Text) returns (ok: bool, ghost next: Text)
      requires Valid() && Holds(text) && |text| == offset && i < |items|
      requires forall k :: 0 <= k < |items| ==> Printable(items[k])
      requires Leaves(text, ItemsFrom(items, i, format, depth), all)
      modifies this, hooks, buffer
      ensures Valid() && (buffer == null || buffer == old(buffer) || fresh(buffer))
      ensures ok ==> Holds(next) && offset == |next| && depth == old(depth) && Leaves(next, ItemsFrom(items, i + 1, format, depth), all)
      ensures AtMost(ok, |all| + 2, old(Now()), Now())
      decreases items[i], 4
    {
      hide Printable, Pow2, RenderElement, ItemsFrom, Valid, Holds, HoldsString, Leaves, AtMost, Within;
      ghost var start := Now();
      var last := i + 1 == |items|;
      ItemsStep(items, i, format, depth);
      next := text + RenderElement(items[i], last, format, depth);
      LeavesLess(text, RenderElement(items[i], last, format, depth), ItemsFrom(items, i + 1, format, depth), all);
      ok := PrintElement(items[i], last, text);
      PartSpent(ok, |next| + 2, |all| + 2, start, Now());
    }

    /** Behind `text`, `rest` is left of `all`. */
    static predicate Leaves(text: Text, rest: Text, all: Text) {
      text + rest == all
    }

    lemma LeavesAll(text: Text, rest: Text)
      ensures Leaves(text, rest, text + rest)
    {
    }

    lemma LeavesLess(text: Text, part: Text, rest: Text, all: Text)
      requires Leaves(text, part + rest, all)
      ensures Leaves(text + part, rest, all) && |text + part| <= |all|
    {
    }

    lemma LeavesNothing(text: Text, all: Text)
      requires Leaves(text, [], all)
      ensures text == all
    {
    }

    ghost function ItemsFrom(items: seq<Value>, i: nat, fmt: Format, depth: nat): Text
      requires i <= |items|
    {
      RenderItems(items[i..], fmt, depth)
    }

    lemma {:induction false} ItemsFromEnds(items: seq<Value>, fmt: Format, depth: nat)
      ensures ItemsFrom(items, 0, fmt, depth) == RenderItems(items, fmt, depth) && ItemsFrom(items, |items|, fmt, depth) == []
    {
      assert items[0..] == items;
    }

    lemma {:induction false} ItemsStep(items: seq<Value>, i: nat, fmt: Format, depth: nat)
      requires i < |items|
      ensures ItemsFrom(items, i, fmt, depth) ==
              RenderElement(items[i], i + 1 == |items|, fmt, depth) + ItemsFrom(items, i + 1, fmt, depth)
    {
      hide RenderElement;
      assert items[i..][1..] == items[i + 1..];
    }

    // ----- Objects

    method PrintKey(key: Text, ghost prefix: Text) returns (ok: bool)
      requires Valid() && Holds(prefix) && |prefix| == offset && NulFree(key)
      modifies this, hooks, buffer
      ensures Valid() && (buffer == null || buffer == old(buffer) || fresh(buffer)) && depth == old(depth)
      ensures var text := RenderKey(key, format.lines, depth);
              && (ok ==> Holds(prefix + text) && offset == |prefix + text|)
              && Within(ok, |prefix + text| + 1, old(Now()), Now())
    {
      hide Pow2, Quoted, Escaped, Valid, Holds, HoldsString, Tabs, RenderKey, AtMost, Within;
      ghost var start := Now();
      ghost var text := prefix;
      ghost var quoted := Quoted(Escaped(key));
      var colon := if format.lines then [COLON, TAB] else [COLON];
      ghost var all := prefix + RenderKey(key, format.lines, depth);
      ghost var demand := |all| + 1;
      KeyParts(key, format.lines, depth, prefix);
      NothingSpent(demand, prefix);
      PartSpent(true, demand, demand, start, start);
      ok := true;
      if format.lines {
        ok := Append(Tabs(depth), 0, false, prefix);
        text := prefix + Tabs(depth);
        PartSpent(ok, |text| + 1, demand, start, Now());
      }
      if ok {
        ghost var mid := Now();
        ok := PrintStringAndAdvance(key, text);
        PartSpent(ok, |text + quoted| + 2, demand, mid, Now());
      }
      if ok {
        ok := Append(colon, 0, false, text + quoted);
      }
    }

    static lemma {:induction false} KeyParts(key: Text, fmt: bool, depth: nat, prefix: Text)
      ensures var text := if fmt then prefix + Tabs(depth) else prefix;
              var inner := text + Quoted(Escaped(key));
              var all := prefix + RenderKey(key, fmt, depth);
              all == inner + (if fmt then [COLON, TAB] else [COLON]) && |text| < |inner| < |all|
    {
      hide Escaped, Tabs;
    }

    /** A member and what stands behind it. */
    method PrintMember(m: Member, last: bool, ghost prefix: Text) returns (ok: bool)
      requires Valid() && Holds(prefix) && |prefix| == offset && NulFree(m.key) && Printable(m.value)
      modifies this, hooks, buffer
      ensures Valid() && (buffer == null || buffer == old(buffer) || fresh(buffer))
      ensures var text := RenderMember(m, last, format, old(depth));
              && (ok ==> Holds(prefix + text) && offset == |prefix + text| && depth == old(depth))
              && Within(ok, |prefix + text| + 2, old(Now()), Now())
      decreases m, 3
    {
      hide RenderKey, RenderValue, Printable, Pow2, Valid, Holds, HoldsString, AtMost, Within;
      ghost var start := Now();
      ghost var key := RenderKey(m.key, format.lines, depth);
      ghost var value := RenderValue(m.value, format, depth);
      var end := MemberEnd(last, format.lines);
      assert ((prefix + key) + value) + end == prefix + (key + (value + end));
      ghost var demand := |((prefix + key) + value) + end| + 2;
      ok := PrintKey(m.key, prefix);
      PartSpent(ok, |prefix + key| + 1, demand, start, Now());
      if ok {
        ghost var mid := Now();
        ok := PrintAndAdvance(m.value, prefix + key);
        PartSpent(ok, |(prefix + key) + value| + 2, demand, mid, Now());
      }
      if ok {
        ok := Append(end, 1, true, (prefix + key) + value);
      }
    }

    method PrintObject(members: seq<Member>, ghost prefix: Text) returns (ok: bool)
      requires Valid() && Holds(prefix) && |prefix| == offset
      requires forall i :: 0 <= i < |members| ==> NulFree(members[i].key) && Printable(members[i].value)
      modifies this, hooks, buffer
      ensures Valid() && (buffer == null || buffer == old(buffer) || fresh(buffer))
      ensures var text := RenderValue(Obj(members), format, old(depth));
              && (ok ==> HoldsString(prefix + text) && |prefix| <= offset <= |prefix + text| && depth == old(depth))
              && Within(ok, |prefix + text| + 2, old(Now()), Now())
      decreases members, 2
    {
      hide Printable, Pow2, Valid, Holds, HoldsString, RenderValue, RenderMembers, Tabs, Opening, Closing, AtMost, Within;
      ghost var start := Now();
      ghost var inner := prefix + Opening(format.lines) + RenderMembers(members, format, depth + 1);
      var close := Closing(format.lines, depth);
      ObjectParts(prefix, members, format, depth);
      ok := PrintInside(members, prefix);
      PartSpent(ok, |inner| + 2, |inner + close| + 2, start, Now());
      if ok {
        ok := PrintWord(close, inner);
        depth := if ok then depth - 1 else depth;
      }
    }

    /** The opening brace and the members, one level deeper. */
    method PrintInside(members: seq<Member>, ghost prefix: Text) returns (ok: bool)
      requires Valid() && Holds(prefix) && |prefix| == offset
      requires forall i :: 0 <= i < |members| ==> NulFree(members[i].key) && Printable(members[i].value)
      modifies this, hooks, buffer
      ensures Valid() && (buffer == null || buffer == old(buffer) || fresh(buffer))
      ensures var text := prefix + Opening(format.lines) + RenderMembers(members, format, old(depth) + 1);
              && (ok ==> Holds(text) && offset == |text| && depth == old(depth) + 1)
              && AtMost(ok, |text| + 2, old(Now()), Now())
      decreases members, 1
    {
      hide Printable, Pow2, Valid, Holds, HoldsString, RenderMembers, Opening, AtMost, Within;
      ghost var start := Now();
      ghost var inner := prefix + Opening(format.lines) + RenderMembers(members, format, depth + 1);
      ok := Append(Opening(format.lines), 1, false, prefix);
      PartSpent(ok, |prefix + Opening(format.lines)| + 2, |inner| + 2, start, Now());
      if ok {
        depth := depth + 1;
        ok := PrintMembers(members, prefix + Opening(format.lines));
      }
    }

    static function Opening(fmt: bool): Text {
      [LBRACE] + if fmt then [LF] else []
    }

    static function Closing(fmt: bool, depth: nat): Text {
      (if fmt then Tabs(depth) else []) + [RBRACE]
    }

    static lemma {:induction false} ObjectParts(prefix: Text, members: seq<Member>, fmt: Format, depth: nat)
      ensures var text := prefix + Opening(fmt.lines);
              var inner := text + RenderMembers(members, fmt, depth + 1);
              var all := prefix + RenderValue(Obj(members), fmt, depth);
              inner + Closing(fmt.lines, depth) == all && |prefix| < |text| <= |inner| < |all|
    {
      hide RenderMembers, Tabs;
    }

    /** The loop over the members. */
    method PrintMembers(members: seq<Member>, ghost prefix: Text) returns (ok: bool)
      requires Valid() && Holds(prefix) && |prefix| == offset
      requires forall i :: 0 <= i < |members| ==> NulFree(members[i].key) && Printable(members[i].value)
      modifies this, hooks, buffer
      ensures Valid() && (buffer == null || buffer == old(buffer) || fresh(buffer))
      ensures var text := RenderMembers(members, format, old(depth));
              && (ok ==> Holds(prefix + text) && offset == |prefix + text| && depth == old(depth))
              && AtMost(ok, |prefix + text| + 2, old(Now()), Now())
      decreases members, 0
    {
      hide Printable, Pow2, RenderMembers, MembersFrom, Valid, Holds, HoldsString, Leaves, AtMost, Within;
      ghost var start := Now();
      ghost var all := prefix + RenderMembers(members, format, depth);
      ghost var text := prefix;
      NothingSpent(|all| + 2, prefix);
      LeavesAll(prefix, RenderMembers(members, format, depth));
      MembersFromEnds(members, format, depth);
      ok := true;
      var i := 0;
      while i < |members|
        invariant i <= |members| && Valid() && (buffer == old(buffer) || fresh(buffer)) && depth == old(depth)
        invariant Holds(text) && |text| == offset && Leaves(text, MembersFrom(members, i, format, depth), all)
        invariant AtMost(true, |all| + 2, start, Now())
      {
        ghost var mid := Now();
        ok, text := NextMember(members, i, text, all);
        AlsoAtMost(ok, |all| + 2, start, mid, Now());
        if !ok {
          return;
        }
        i := i + 1;
      }
      LeavesNothing(text, all);
    }

    /** One turn of the loop: `text` grows by one more part of `all`. */
    method NextMember(members: seq<Member>, i: nat, ghost text: Text, ghost all: Text) returns (ok: bool, ghost next: Text)
      requires Valid() && Holds(text) && |text| == offset && i < |members|
      requires forall k :: 0 <= k < |members| ==> NulFree(members[k].key) && Printable(members[k].value)
      requires Leaves(text, MembersFrom(members, i, format, depth), all)
      modifies this, hooks, buffer
      ensures Valid() && (buffer == null || buffer == old(buffer) || fresh(buffer))
      ensures ok ==> Holds(next) && offset == |next| && depth == old(depth) && Leaves(next, MembersFrom(members, i + 1, format, depth), all)
      ensures AtMost(ok, |all| + 2, old(Now()), Now())
      decreases members[i], 4
    {
      hide Printable, Pow2, RenderMember, MembersFrom, Valid, Holds, HoldsString, Leaves, AtMost, Within;
      ghost var start := Now();
      var last := i + 1 == |members|;
      MembersStep(members, i, format, depth);
      next := text + RenderMember(members[i], last, format, depth);
      LeavesLess(text, RenderMember(members[i], last, format, depth), MembersFrom(members, i + 1, format, depth), all);
      ok := PrintMember(members[i], last, text);
      PartSpent(ok, |next| + 2, |all| + 2, start, Now());
    }

    ghost function MembersFrom(members: seq<Member>, i: nat, fmt: Format, depth: nat): Text
      requires i <= |members|
    {
      RenderMembers(members[i..], fmt, depth)
    }

    lemma {:induction false} MembersFromEnds(members: seq<Member>, fmt: Format, depth: nat)
      ensures MembersFrom(members, 0, fmt, depth) == RenderMembers(members, fmt, depth)
      ensures MembersFrom(members, |members|, fmt, depth) == []
    {
      assert members[0..] == members;
    }

    lemma {:induction false} MembersStep(members: seq<Member>, i: nat, fmt: Format, depth: nat)
      requires i < |members|
      ensures MembersFrom(members, i, fmt, depth) ==
              RenderMember(members[i], i + 1 == |members|, fmt, depth) + MembersFrom(members, i + 1, fmt, depth)
    {
      hide RenderMember;
      assert members[i..][1..] == members[i + 1..];
    }
  }

  // ----- The entry points

  /**
   * cJSON_PrintPreallocated: for every value and both formats it succeeds exactly when the buffer holds the text and two
   * bytes more, which is sharper than the five bytes that the header asks for.
   */
  method PrintPreallocated(v: Value, buffer: array<byte>, length: int, format: Format, hooks: Allocator) returns (ok: bool)
    requires hooks.Valid() && Printable(v) && length <= INT_MAX && (0 <= length ==> buffer.Length == length)
    modifies buffer, hooks
    ensures ok <==> length >= |RenderValue(v, format, 0)| + 2
    ensures ok ==> buffer[..|RenderValue(v, format, 0)| + 1] == RenderValue(v, format, 0) + [NUL]
    ensures hooks.Valid() && hooks.live == old(hooks.live) && hooks.failures == old(hooks.failures)
  {
    hide RenderValue, Printable, Pow2;
    if length < 0 {
      return false;
    }
    var p := new PrintBuffer(buffer, None, format, false, hooks, hooks.live);
    ok := p.PrintValue(v, []);
    ghost var text := RenderValue(v, format, 0);
    assert [] + text == text;
    if ok {
      assert buffer[..|text| + 1] == buffer[..|text|] + [buffer[|text|]];
    }
  }

  /** A new buffer with the value printed into it; a failure leaves no block behind. */
  method PrintInto(v: Value, size: nat, format: Format, reallocates: bool, hooks: Allocator) returns (p: PrintBuffer?)
    requires hooks.Valid() && Printable(v) && size <= INT_MAX && (size == 0 ==> reallocates)
    modifies hooks
    ensures hooks.Valid()
    ensures var text := RenderValue(v, format, 0);
            if p == null then
              hooks.live == old(hooks.live) && (hooks.failures > old(hooks.failures) || |text| + 2 > INT_MAX)
            else
              && fresh(p) && p.buffer != null && fresh(p.buffer) && p.Valid() && p.HoldsString(text)
              && p.offset <= |text| && !p.noalloc && p.hooks == hooks && p.others == old(hooks.live) && p.base == size
              && hooks.failures == old(hooks.failures)
              && (p.length <= size || p.length <= 2 * |text| + 4)
              && (|text| + 2 <= INT_MAX / 2 ==> !p.capped)
  {
    hide RenderValue, Printable, Pow2;
    ghost var others := hooks.live;
    var block := hooks.Allocate();
    if block == None {
      return null;
    }
    var buffer := new byte[size];
    p := new PrintBuffer(buffer, block, format, reallocates, hooks, others);
    ghost var text := RenderValue(v, format, 0);
    assert [] + text == text;
    var ok := p.PrintValue(v, []);
    if !ok {
      if p.block.Some? {
        hooks.Deallocate(p.block.value, others);
      }
      p := null;
    }
  }

  /**
   * cJSON_PrintBuffered: the buffer that comes back holds the text as a C string and is no longer than asked for or than
   * twice the text and four bytes. Without a refused request it fails only for texts that an int cannot measure.
   */
  method PrintBuffered(v: Value, prebuffer: int, format: Format, reallocates: bool, hooks: Allocator)
    returns (printed: array?<byte>, block: Option<nat>, ghost regrows: nat)
    requires hooks.Valid() && Printable(v) && prebuffer <= INT_MAX && (prebuffer == 0 ==> reallocates)
    modifies hooks
    ensures hooks.Valid()
    ensures var text := RenderValue(v, format, 0);
            if printed == null then
              && block == None && hooks.live == old(hooks.live)
              && (prebuffer < 0 || hooks.failures > old(hooks.failures) || |text| + 2 > INT_MAX)
            else
              && fresh(printed) && block.Some? && hooks.live == old(hooks.live) + multiset{block.value}
              && |text| < printed.Length && printed[..|text|] == text && printed[|text|] == NUL
              && (printed.Length <= prebuffer || printed.Length <= 2 * |text| + 4)
              && (|text| + 2 <= INT_MAX / 2 && regrows > 0 ==> prebuffer * Pow2(regrows) <= 2 * |text| + 4)
  {
    hide RenderValue, Printable, Pow2;
    if prebuffer < 0 {
      return null, None, 0;
    }
    var p := PrintInto(v, prebuffer, format, reallocates, hooks);
    if p == null {
      return null, None, 0;
    }
    if !p.capped {
      GrowthIsBounded(prebuffer, p.regrows, p.length, 2 * |RenderValue(v, format, 0)| + 4);
    }
    return p.buffer, p.block, p.regrows;
  }

  lemma {:induction false} GrowthIsBounded(base: nat, k: nat, length: nat, bound: nat)
    requires base * Pow2(k) <= length && (length <= base || length <= bound)
    ensures k > 0 ==> base * Pow2(k) <= bound
  {
    if k > 0 && base > 0 {
      PowPositive(k - 1);
      assert base * Pow2(k) == base * Pow2(k - 1) + base * Pow2(k - 1);
      assert base * Pow2(k - 1) >= base;
    }
  }

  /** cJSON_Print and cJSON_PrintUnformatted: the text in a block of just its size. */
  method Print(v: Value, format: Format, reallocates: bool, hooks: Allocator) returns (printed: array?<byte>, block: Option<nat>)
    requires hooks.Valid() && Printable(v)
    modifies hooks
    ensures hooks.Valid()
    ensures var text := RenderValue(v, format, 0);
            if printed == null then
              && block == None && hooks.live == old(hooks.live)
              && (hooks.failures > old(hooks.failures) || |text| + 2 > INT_MAX)
            else
              && fresh(printed) && block.Some? && hooks.live == old(hooks.live) + multiset{block.value}
              && hooks.failures == old(hooks.failures) && printed[..] == text + [NUL]
  {
    hide RenderValue, Printable, Pow2, NulFree;
    ghost var text := RenderValue(v, format, 0);
    var p := PrintInto(v, 256, format, reallocates, hooks);
    if p == null {
      return null, None;
    }
    RenderIsNulFree(v, format, 0);
    printed, block := p.Shrink(text);
  }

  // ----- Printed text has no NUL

  lemma {:induction false} QuotedIsNulFree(t: Text)
    requires NulFree(t)
    ensures NulFree(Quoted(Escaped(t)))
  {
    EscapedIsNulFree(t);
  }

  lemma {:induction false} EscapedIsNulFree(t: Text)
    requires NulFree(t)
    ensures NulFree(Escaped(t))
  {
    if t != [] {
      EscapedIsNulFree(t[1..]);
    }
  }

  lemma {:induction false} RenderIsNulFree(v: Value, fmt: Format, depth: nat)
    requires Printable(v)
    ensures NulFree(RenderValue(v, fmt, depth))
    decreases v
  {
    match v
    case Str(s) => QuotedIsNulFree(s);
    case Arr(items) => ItemsAreNulFree(items, fmt, depth + 1);
    case Obj(members) => MembersAreNulFree(members, fmt, depth + 1);
    case _ =>
  }

  lemma {:induction false} ItemsAreNulFree(items: seq<Value>, fmt: Format, depth: nat)
    requires forall i :: 0 <= i < |items| ==> Printable(items[i])
    ensures NulFree(RenderItems(items, fmt, depth))
    decreases items
  {
    if items != [] {
      RenderIsNulFree(items[0], fmt, depth);
      ItemsAreNulFree(items[1..], fmt, depth);
    }
  }

  lemma {:induction false} MembersAreNulFree(members: seq<Member>, fmt: Format, depth: nat)
    requires forall i :: 0 <= i < |members| ==> NulFree(members[i].key) && Printable(members[i].value)
    ensures NulFree(RenderMembers(members, fmt, depth))
    decreases members
  {
    if members != [] {
      QuotedIsNulFree(members[0].key);
      RenderIsNulFree(members[0].value, fmt, depth);
      MembersAreNulFree(members[1..], fmt, depth);
    }
  }
}
