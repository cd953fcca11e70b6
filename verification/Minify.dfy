/** cJSON_Minify: the text it leaves, as a function of the text it is given, and the rewriting in place. */
module Minifier {
  import opened Ascii

  predicate Space(b: byte) {
    b == SPACE || b == TAB || b == CR || b == LF
  }

  /** skip_oneline_comment: what is left behind the line feed. */
  function AfterLine(s: Text): (t: Text)
    ensures |t| <= |s|
  {
    if s == [] then []
    else if s[0] == LF then s[1..]
    else AfterLine(s[1..])
  }

  /** skip_multiline_comment: what is left behind the closing mark. */
  function AfterBlock(s: Text): (t: Text)
    ensures |t| <= |s|
  {
    if s == [] then []
    else if s[0] == STAR && 1 < |s| && s[1] == SLASH then s[2..]
    else AfterBlock(s[1..])
  }

  function Minified(s: Text): (t: Text)
    ensures |t| <= |s|
    decreases |s|
  {
    if s == [] then []
    else if Space(s[0]) then Minified(s[1..])
    else if s[0] == SLASH then
      if 1 < |s| && s[1] == SLASH then Minified(AfterLine(s[2..]))
      else if 1 < |s| && s[1] == STAR then Minified(AfterBlock(s[2..]))
      else Minified(s[1..])
    else if s[0] == QUOTE then [QUOTE] + InString(s[1..])
    else [s[0]] + Minified(s[1..])
  }

  /** Inside a string, which ends at the first quote that no backslash stands right before. */
  function InString(s: Text): (t: Text)
    ensures |t| <= |s|
    decreases |s|
  {
    if s == [] then []
    else if s[0] == QUOTE then [QUOTE] + Minified(s[1..])
    else if s[0] == BACKSLASH && 1 < |s| && s[1] == QUOTE then [BACKSLASH] + ([QUOTE] + InString(s[2..]))
    else [s[0]] + InString(s[1..])
  }

  // ----- Minifying twice

  lemma {:induction false} Cons(x: byte, t: Text)
    ensures ([x] + t)[0] == x && ([x] + t)[1..] == t && |[x] + t| == |t| + 1
  {
  }

  /** Minifying a second time changes nothing. */
  lemma {:induction false} MinifyIsIdempotent(s: Text)
    ensures Minified(Minified(s)) == Minified(s)
    decreases |s|
  {
    if s == [] {
    } else if Space(s[0]) {
      MinifyIsIdempotent(s[1..]);
    } else if s[0] == SLASH {
      MinifyIsIdempotent(if 1 < |s| && s[1] == SLASH then AfterLine(s[2..])
                         else if 1 < |s| && s[1] == STAR then AfterBlock(s[2..]) else s[1..]);
    } else if s[0] == QUOTE {
      InStringIsKept(s[1..]);
      Cons(QUOTE, InString(s[1..]));
    } else {
      MinifyIsIdempotent(s[1..]);
      Cons(s[0], Minified(s[1..]));
    }
  }

  lemma {:induction false} InStringIsKept(s: Text)
    ensures InString(InString(s)) == InString(s)
    decreases |s|
  {
    if s == [] {
    } else if s[0] == QUOTE {
      MinifyIsIdempotent(s[1..]);
      Cons(QUOTE, Minified(s[1..]));
    } else if s[0] == BACKSLASH && 1 < |s| && s[1] == QUOTE {
      InStringIsKept(s[2..]);
      var t := InString(s[2..]);
      Cons(BACKSLASH, [QUOTE] + t);
      Cons(QUOTE, t);
      assert ([BACKSLASH] + ([QUOTE] + t))[2..] == t;
    } else {
      InStringIsKept(s[1..]);
      Cons(s[0], InString(s[1..]));
      if s[0] == BACKSLASH && 1 < |s| {
        InStringKeepsFirst(s[1..]);
      }
    }
  }

  lemma {:induction false} InStringKeepsFirst(s: Text)
    requires 0 < |s|
    ensures 0 < |InString(s)| && InString(s)[0] == s[0]
  {
  }

  // ----- In place

  /** From `i` on the array still holds the text `s` and its terminator, and the writer at `o` is not ahead of the reader. */
  predicate Ahead(a: array<byte>, s: Text, o: nat, i: nat)
    reads a
  {
    && o <= i <= |s| < a.Length
    && (forall k :: i <= k < |s| ==> a[k] == s[k] != NUL)
    && a[|s|] == NUL
  }

  lemma {:induction false} Tail(s: Text, i: nat)
    requires i <= |s|
    ensures s[i..] == [] <==> i == |s|
    ensures i < |s| ==> s[i..][0] == s[i] && s[i..][1..] == s[i + 1..]
    ensures i + 1 < |s| ==> s[i..][1] == s[i + 1] && s[i..][2..] == s[i + 2..]
    ensures |s[i..]| == |s| - i
  {
  }

  /** What the reader sees at `i`. */
  lemma {:induction false} Look(a: array<byte>, s: Text, o: nat, i: nat)
    requires Ahead(a, s, o, i)
    ensures i <= |s| < a.Length && (a[i] == NUL <==> i == |s|)
    ensures i < |s| ==> a[i] == s[i] && Ahead(a, s, o, i + 1)
    ensures i < |s| ==> if i + 1 < |s| then a[i + 1] == s[i + 1] && Ahead(a, s, o, i + 2) else a[i + 1] == NUL
  {
  }

  /** AfterLine, AfterBlock and InString, one byte at a time. */
  lemma {:induction false} LineStep(s: Text, i: nat)
    requires i <= |s|
    ensures AfterLine(s[i..]) == if i == |s| then [] else if s[i] == LF then s[i + 1..] else AfterLine(s[i + 1..])
  {
    Tail(s, i);
  }

  lemma {:induction false} BlockStep(s: Text, i: nat)
    requires i <= |s|
    ensures AfterBlock(s[i..]) ==
            if i == |s| then []
            else if s[i] == STAR && i + 1 < |s| && s[i + 1] == SLASH then s[i + 2..]
            else AfterBlock(s[i + 1..])
  {
    Tail(s, i);
  }

  lemma {:induction false} StringStep(s: Text, i: nat)
    requires i <= |s|
    ensures InString(s[i..]) ==
            if i == |s| then []
            else if s[i] == QUOTE then [QUOTE] + Minified(s[i + 1..])
            else if s[i] == BACKSLASH && i + 1 < |s| && s[i + 1] == QUOTE then [BACKSLASH] + ([QUOTE] + InString(s[i + 2..]))
            else [s[i]] + InString(s[i + 1..])
  {
    Tail(s, i);
  }

  lemma {:induction false} TextStep(s: Text, i: nat)
    requires i <= |s|
    ensures Minified(s[i..]) ==
            if i == |s| then []
            else if Space(s[i]) then Minified(s[i + 1..])
            else if s[i] == SLASH then
              if i + 1 < |s| && s[i + 1] == SLASH then Minified(AfterLine(s[i + 2..]))
              else if i + 1 < |s| && s[i + 1] == STAR then Minified(AfterBlock(s[i + 2..]))
              else Minified(s[i + 1..])
            else if s[i] == QUOTE then [QUOTE] + InString(s[i + 1..])
            else [s[i]] + Minified(s[i + 1..])
  {
    Tail(s, i);
  }

  method SkipOnelineComment(a: array<byte>, ghost s: Text, ghost o: nat, start: nat) returns (i: nat)
    requires Ahead(a, s, o, start) && start + 2 <= |s|
    ensures start < i && Ahead(a, s, o, i)
    ensures s[i..] == AfterLine(s[start + 2..])
  {
    hide AfterLine, Ahead;
    Look(a, s, o, start);
    i := start + 2;
    Look(a, s, o, i);
    while a[i] != NUL
      invariant start < i <= |s| < a.Length && Ahead(a, s, o, i) && (a[i] == NUL <==> i == |s|)
      invariant AfterLine(s[i..]) == AfterLine(s[start + 2..])
      decreases |s| - i
    {
      Look(a, s, o, i);
      LineStep(s, i);
      if a[i] == LF {
        i := i + 1;
        return;
      }
      i := i + 1;
      Look(a, s, o, i);
    }
    LineStep(s, i);
  }

  method SkipMultilineComment(a: array<byte>, ghost s: Text, ghost o: nat, start: nat) returns (i: nat)
    requires Ahead(a, s, o, start) && start + 2 <= |s|
    ensures start < i && Ahead(a, s, o, i)
    ensures s[i..] == AfterBlock(s[start + 2..])
  {
    hide AfterBlock, Ahead;
    Look(a, s, o, start);
    i := start + 2;
    Look(a, s, o, i);
    while a[i] != NUL
      invariant start < i <= |s| < a.Length && Ahead(a, s, o, i) && (a[i] == NUL <==> i == |s|)
      invariant AfterBlock(s[i..]) == AfterBlock(s[start + 2..])
      decreases |s| - i
    {
      Look(a, s, o, i);
      BlockStep(s, i);
      if a[i] == STAR && a[i + 1] == SLASH {
        i := i + 2;
        return;
      }
      i := i + 1;
      Look(a, s, o, i);
    }
    BlockStep(s, i);
  }

  /** The bytes written so far and those still to come make up `all`. */
  ghost predicate Halfway(a: array<byte>, o: nat, rest: Text, all: Text)
    reads a
  {
    o <= a.Length && a[..o] + rest == all
  }

  /** Writing a byte brings it from the front of what is to come to the end of what is done. */
  lemma {:induction false} Written(done: Text, x: byte, more: Text, rest: Text, all: Text)
    requires done + ([x] + rest) == all && more == done + [x]
    ensures more + rest == all
  {
    assert done + ([x] + rest) == (done + [x]) + rest;
  }

  method Put(a: array<byte>, ghost s: Text, o: nat, i: nat, ghost rest: Text, ghost all: Text)
    requires i < |s| && Ahead(a, s, o, i) && Halfway(a, o, [s[i]] + rest, all)
    modifies a
    ensures Ahead(a, s, o + 1, i + 1) && Halfway(a, o + 1, rest, all)
    ensures forall k :: |s| <= k < a.Length ==> a[k] == old(a[k])
  {
    ghost var done := a[..o];
    a[o] := a[i];
    assert a[..o + 1] == done + [s[i]];
    Written(done, s[i], a[..o + 1], rest, all);
  }

  method PutTwo(a: array<byte>, ghost s: Text, o: nat, i: nat, ghost rest: Text, ghost all: Text)
    requires i + 1 < |s| && Ahead(a, s, o, i) && Halfway(a, o, [s[i]] + ([s[i + 1]] + rest), all)
    modifies a
    ensures Ahead(a, s, o + 2, i + 2) && Halfway(a, o + 2, rest, all)
    ensures forall k :: |s| <= k < a.Length ==> a[k] == old(a[k])
  {
    hide Ahead, Halfway;
    Put(a, s, o, i, [s[i + 1]] + rest, all);
    Put(a, s, o + 1, i + 1, rest, all);
  }

  method MinifyString(a: array<byte>, ghost s: Text, start: nat, into: nat, ghost all: Text) returns (i: nat, o: nat)
    requires Ahead(a, s, into, start) && start < |s| && s[start] == QUOTE
    requires Halfway(a, into, Minified(s[start..]), all)
    modifies a
    ensures start < i && Ahead(a, s, o, i) && Halfway(a, o, Minified(s[i..]), all)
    ensures forall k :: |s| <= k < a.Length ==> a[k] == old(a[k])
  {
    hide Minified, InString, Halfway, Ahead;
    TextStep(s, start);
    Put(a, s, into, start, InString(s[start + 1..]), all);
    i, o := start + 1, into + 1;
    Look(a, s, o, i);
    while a[i] != NUL
      invariant start < i <= |s| < a.Length && (a[i] == NUL <==> i == |s|)
      invariant Ahead(a, s, o, i) && Halfway(a, o, InString(s[i..]), all)
      invariant forall k :: |s| <= k < a.Length ==> a[k] == old(a[k])
      decreases |s| - i
    {
      Look(a, s, o, i);
      StringStep(s, i);
      if a[i] == QUOTE {
        Put(a, s, o, i, Minified(s[i + 1..]), all);
        i, o := i + 1, o + 1;
        return;
      } else if a[i] == BACKSLASH && a[i + 1] == QUOTE {
        PutTwo(a, s, o, i, InString(s[i + 2..]), all);
        i, o := i + 1, o + 1;
      } else {
        Put(a, s, o, i, InString(s[i + 1..]), all);
      }
      i, o := i + 1, o + 1;
      Look(a, s, o, i);
    }
    StringStep(s, i);
    TextStep(s, i);
  }

  lemma {:induction false} AfterIsTail(s: Text)
    ensures AfterLine(s) == s[|s| - |AfterLine(s)|..]
    ensures AfterBlock(s) == s[|s| - |AfterBlock(s)|..]
  {
    if s != [] {
      AfterIsTail(s[1..]);
    }
  }

  lemma {:induction false} NulFreeTail(s: Text, n: nat)
    requires NulFree(s) && n <= |s|
    ensures NulFree(s[n..])
  {
  }

  lemma {:induction false} MinifiedHasNoNul(s: Text)
    requires NulFree(s)
    ensures NulFree(Minified(s))
    decreases |s|
  {
    hide NulFree, AfterLine, AfterBlock;
    if s == [] {
    } else if Space(s[0]) || s[0] == SLASH {
      var t := if s[0] == SLASH && 1 < |s| && s[1] == SLASH then AfterLine(s[2..])
               else if s[0] == SLASH && 1 < |s| && s[1] == STAR then AfterBlock(s[2..])
               else s[1..];
      if s[0] == SLASH && 1 < |s| {
        AfterIsTail(s[2..]);
      }
      assert t == s[|s| - |t|..];
      NulFreeTail(s, |s| - |t|);
      MinifiedHasNoNul(t);
    } else {
      NulFreeTail(s, 1);
      if s[0] == QUOTE {
        InStringHasNoNul(s[1..]);
        NulFreeCons(QUOTE, InString(s[1..]));
      } else {
        MinifiedHasNoNul(s[1..]);
        NulFreeHead(s);
        NulFreeCons(s[0], Minified(s[1..]));
      }
    }
  }

  lemma {:induction false} NulFreeHead(s: Text)
    requires NulFree(s) && s != []
    ensures s[0] != NUL
  {
  }

  lemma {:induction false} NulFreeCons(x: byte, t: Text)
    requires x != NUL && NulFree(t)
    ensures NulFree([x] + t)
  {
  }

  lemma {:induction false} InStringHasNoNul(s: Text)
    requires NulFree(s)
    ensures NulFree(InString(s))
    decreases |s|
  {
    hide NulFree;
    if s != [] {
      NulFreeHead(s);
      NulFreeTail(s, 1);
      if s[0] == QUOTE {
        MinifiedHasNoNul(s[1..]);
        NulFreeCons(QUOTE, Minified(s[1..]));
      } else if s[0] == BACKSLASH && 1 < |s| && s[1] == QUOTE {
        NulFreeTail(s, 2);
        InStringHasNoNul(s[2..]);
        NulFreeCons(QUOTE, InString(s[2..]));
        NulFreeCons(BACKSLASH, [QUOTE] + InString(s[2..]));
      } else {
        InStringHasNoNul(s[1..]);
        NulFreeCons(s[0], InString(s[1..]));
      }
    }
  }

  lemma {:induction false} CStringIs(t: Text, n: nat)
    requires n < |t| && NulFree(t[..n]) && t[n] == NUL
    ensures CString(t) == t[..n]
    decreases n
  {
    if n > 0 {
      assert t[0] == t[..n][0];
      assert t[1..][..n - 1] == t[..n][1..];
      CStringIs(t[1..], n - 1);
    }
  }

  lemma {:induction false} AtTheStart(a: array<byte>, s: Text)
    requires NUL in a[..] && s == CString(a[..])
    ensures NulFree(s) && Ahead(a, s, 0, 0) && Halfway(a, 0, Minified(s[0..]), Minified(s))
  {
    assert s[0..] == s;
    forall k | 0 <= k < |s| ensures a[k] == s[k] != NUL {
      assert a[..][..|s|][k] == s[k];
    }
  }

  method Terminate(a: array<byte>, ghost s: Text, o: nat)
    requires NulFree(s) && Ahead(a, s, o, |s|) && Halfway(a, o, Minified([]), Minified(s))
    modifies a
    ensures NUL in a[..] && CString(a[..]) == Minified(s)
    ensures forall k :: |s| < k < a.Length ==> a[k] == old(a[k])
  {
    MinifiedHasNoNul(s);
    assert a[..o] == Minified(s);
    a[o] := NUL;
    assert a[..][..o] == a[..o] && a[..][o] == NUL;
    CStringIs(a[..], o);
  }

  /** cJSON_Minify: the string in the array becomes the minified string, and nothing behind the old terminator changes. */
  method Minify(a: array<byte>)
    requires NUL in a[..]
    modifies a
    ensures NUL in a[..] && CString(a[..]) == Minified(old(CString(a[..])))
    ensures forall k :: |old(CString(a[..]))| < k < a.Length ==> a[k] == old(a[k])
  {
    hide Minified, AfterLine, AfterBlock, InString, Halfway, CString, Ahead;
    ghost var s := CString(a[..]);
    var i: nat, o: nat := 0, 0;
    AtTheStart(a, s);
    Look(a, s, o, i);
    while a[i] != NUL
      invariant i <= |s| < a.Length && (a[i] == NUL <==> i == |s|)
      invariant Ahead(a, s, o, i) && Halfway(a, o, Minified(s[i..]), Minified(s))
      invariant forall k :: |s| <= k < a.Length ==> a[k] == old(a[k])
      decreases |s| - i
    {
      Look(a, s, o, i);
      TextStep(s, i);
      if Space(a[i]) {
        i := i + 1;
      } else if a[i] == SLASH {
        if a[i + 1] == SLASH {
          i := SkipOnelineComment(a, s, o, i);
        } else if a[i + 1] == STAR {
          i := SkipMultilineComment(a, s, o, i);
        } else {
          i := i + 1;
        }
      } else if a[i] == QUOTE {
        i, o := MinifyString(a, s, i, o, Minified(s));
      } else {
        Put(a, s, o, i, Minified(s[i + 1..]), Minified(s));
        i, o := i + 1, o + 1;
      }
      Look(a, s, o, i);
    }
    Tail(s, i);
    Terminate(a, s, o);
  }
}
