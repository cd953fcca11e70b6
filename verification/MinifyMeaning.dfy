/** What minifying does to the parts of a JSON text: gaps lose their comments and blanks, tokens stay. */
module MinifyMeaning {
  import opened Ascii
  import opened Tokens
  import opened StringSpec
  import opened Layouts
  import opened RoundTrip
  import opened Minifier

  // ----- Texts that minify on their own

  /** `a` is minified to `b` and leaves the scan outside strings, whatever comes behind it. */
  ghost predicate Becomes(a: Text, b: Text) {
    forall rest :: Minified(a + rest) == b + Minified(rest)
  }

  lemma {:induction false} BecomesBoth(a: Text, b: Text, c: Text, d: Text)
    requires Becomes(a, b) && Becomes(c, d)
    ensures Becomes(a + c, b + d)
  {
    hide Minified;
    forall rest ensures Minified((a + c) + rest) == (b + d) + Minified(rest) {
      assert (a + c) + rest == a + (c + rest);
      assert Minified(c + rest) == d + Minified(rest);
      assert b + (d + Minified(rest)) == (b + d) + Minified(rest);
    }
  }

  predicate PlainByte(b: byte) {
    !Space(b) && b != SLASH && b != QUOTE
  }

  predicate PlainText(t: Text) {
    forall i :: 0 <= i < |t| ==> PlainByte(t[i])
  }

  lemma {:induction false} BecomesPlain(t: Text)
    requires PlainText(t)
    ensures Becomes(t, t)
  {
    if t == [] {
      forall rest ensures Minified(t + rest) == t + Minified(rest) {
        assert t + rest == rest;
      }
    } else {
      assert PlainByte(t[0]);
      BecomesPlain(t[1..]);
      forall rest ensures Minified([t[0]] + rest) == [t[0]] + Minified(rest) {
        Cons(t[0], rest);
      }
      BecomesBoth([t[0]], [t[0]], t[1..], t[1..]);
      assert [t[0]] + t[1..] == t;
    }
  }

  // ----- Gaps between tokens: blanks and comments

  predicate BlockEnds(t: Text) {
    1 < |t| && ((t[0] == STAR && t[1] == SLASH) || BlockEnds(t[1..]))
  }

  /** Bytes up to 32, comments to the end of a line, and comments between marks. */
  predicate Gap(t: Text)
    decreases |t|
  {
    || t == []
    || (t[0] <= SPACE && Gap(t[1..]))
    || (1 < |t| && t[0] == SLASH && t[1] == SLASH && LF in t[2..] && Gap(AfterLine(t[2..])))
    || (1 < |t| && t[0] == SLASH && t[1] == STAR && BlockEnds(t[2..]) && Gap(AfterBlock(t[2..])))
  }

  lemma {:induction false} BlanksAreGap(t: Text)
    requires Blank(t)
    ensures Gap(t)
  {
    if t != [] {
      BlanksAreGap(t[1..]);
    }
  }

  lemma {:induction false} LineIsLocal(t: Text, rest: Text)
    requires LF in t
    ensures AfterLine(t + rest) == AfterLine(t) + rest
  {
    assert (t + rest)[1..] == t[1..] + rest;
    if t[0] != LF {
      LineIsLocal(t[1..], rest);
    }
  }

  lemma {:induction false} BlockIsLocal(t: Text, rest: Text)
    requires BlockEnds(t)
    ensures AfterBlock(t + rest) == AfterBlock(t) + rest
  {
    assert (t + rest)[1..] == t[1..] + rest;
    assert (t + rest)[2..] == t[2..] + rest;
    if !(t[0] == STAR && t[1] == SLASH) {
      BlockIsLocal(t[1..], rest);
    }
  }

  lemma {:induction false} GapMinified(t: Text, rest: Text)
    requires Gap(t)
    ensures Minified(t + rest) == Minified(t) + Minified(rest)
    decreases |t|
  {
    var s := t + rest;
    if t == [] {
      assert s == rest;
    } else if t[0] <= SPACE {
      assert s[1..] == t[1..] + rest;
      GapMinified(t[1..], rest);
    } else {
      assert s[2..] == t[2..] + rest;
      if t[1] == SLASH {
        LineIsLocal(t[2..], rest);
        GapMinified(AfterLine(t[2..]), rest);
      } else {
        BlockIsLocal(t[2..], rest);
        GapMinified(AfterBlock(t[2..]), rest);
      }
    }
  }

  lemma {:induction false} GapBecomes(t: Text)
    requires Gap(t)
    ensures Becomes(t, Minified(t))
  {
    hide Minified, Gap;
    forall rest ensures Minified(t + rest) == Minified(t) + Minified(rest) {
      GapMinified(t, rest);
    }
  }

  /** What is left of a gap are the control bytes that the minifier does not take for blanks. */
  lemma {:induction false} GapLeavesBlanks(t: Text)
    requires Gap(t)
    ensures Blank(Minified(t))
    decreases |t|
  {
    if t == [] {
    } else if t[0] <= SPACE {
      GapLeavesBlanks(t[1..]);
    } else {
      GapLeavesBlanks(if t[1] == SLASH then AfterLine(t[2..]) else AfterBlock(t[2..]));
    }
  }

  // ----- String tokens

  /** Inside a token every quote stands behind a backslash. */
  predicate QuotesEscaped(raw: Text) {
    && 2 <= |raw| && raw[0] == QUOTE && raw[|raw| - 1] == QUOTE
    && forall k :: 1 <= k < |raw| - 1 && raw[k] == QUOTE ==> 1 < k && raw[k - 1] == BACKSLASH
  }

  lemma {:induction false} ScanSkipsEscapedQuotes(s: Text, k: nat, p: nat)
    requires Scan(s, k).Some? && k <= p < Scan(s, k).value && s[p] == QUOTE
    ensures k < p && s[p - 1] == BACKSLASH
    decreases |s| - k
  {
    if s[k] == BACKSLASH {
      if p > k + 1 {
        ScanSkipsEscapedQuotes(s, k + 2, p);
      }
    } else {
      ScanSkipsEscapedQuotes(s, k + 1, p);
    }
  }

  lemma {:induction false} TokenQuotesEscaped(raw: Text)
    requires StringToken(raw)
    ensures QuotesEscaped(raw)
  {
    TokensAreRead(raw);
    assert Scan(raw, 1) == Some(|raw| - 1);
    forall k | 1 <= k < |raw| - 1 && raw[k] == QUOTE ensures 1 < k && raw[k - 1] == BACKSLASH {
      ScanSkipsEscapedQuotes(raw, 1, k);
    }
  }

  /** The minifier takes the closing quote of such a token for an escaped one. */
  predicate Misread(raw: Text) {
    2 <= |raw| && raw[|raw| - 2] == BACKSLASH
  }

  /** What the minifier makes of `rest` behind a token. */
  function Behind(raw: Text, rest: Text): Text {
    if Misread(raw) then InString(rest) else Minified(rest)
  }

  lemma {:induction false} TokenTail(raw: Text, k: nat, rest: Text)
    requires k < |raw|
    ensures var t := raw[k..] + rest;
            && 0 < |t| && t[0] == raw[k] && t[1..] == raw[k + 1..] + rest
            && (k + 1 < |raw| ==> 1 < |t| && t[1] == raw[k + 1] && t[2..] == raw[k + 2..] + rest)
  {
  }

  /** Bytes of the token put back in front of what is behind them. */
  lemma {:induction false} TokenHead(raw: Text, k: nat, rest: Text)
    requires k < |raw|
    ensures [raw[k]] + (raw[k + 1..] + rest) == raw[k..] + rest
    ensures k + 1 < |raw| ==> [raw[k]] + ([raw[k + 1]] + (raw[k + 2..] + rest)) == raw[k..] + rest
    ensures raw[|raw|..] + rest == rest
  {
  }

  lemma {:induction false} InStringToken(raw: Text, k: nat, rest: Text)
    requires QuotesEscaped(raw) && 1 <= k < |raw|
    requires raw[k] == QUOTE ==> k == |raw| - 1 && !Misread(raw)
    ensures InString(raw[k..] + rest) == raw[k..] + Behind(raw, rest)
    decreases |raw| - k
  {
    hide Minified;
    TokenTail(raw, k, rest);
    TokenHead(raw, k, Behind(raw, rest));
    TokenHead(raw, k, rest);
    if k < |raw| - 1 {
      if raw[k] == BACKSLASH && raw[k + 1] == QUOTE {
        if k + 2 < |raw| {
          InStringToken(raw, k + 2, rest);
        }
      } else {
        InStringToken(raw, k + 1, rest);
      }
    }
  }

  lemma {:induction false} TokenMinified(raw: Text, rest: Text)
    requires StringToken(raw)
    ensures Minified(raw + rest) == raw + Behind(raw, rest)
  {
    TokenQuotesEscaped(raw);
    assert (raw + rest)[1..] == raw[1..] + rest;
    InStringToken(raw, 1, rest);
    hide *;
    assert [QUOTE] + (raw[1..] + Behind(raw, rest)) == raw + Behind(raw, rest);
  }

  lemma {:induction false} TokenBecomes(raw: Text)
    requires StringToken(raw) && !Misread(raw)
    ensures Becomes(raw, raw)
  {
    hide Minified, StringToken, StringValue, Misread;
    forall rest ensures Minified(raw + rest) == raw + Minified(rest) {
      TokenMinified(raw, rest);
    }
  }

  // ----- Whole texts

  lemma {:induction false} WithTerminator(s: Text, a: Text, b: Text, c: Text, d: Text)
    requires s == a + (b + (c + d))
    ensures Terminated(s) == a + (b + (c + (d + [NUL])))
  {
  }

  lemma {:induction false} TerminatorIsLast(s: Text)
    ensures |Terminated(s)| == |s| + 1
  {
  }

  lemma {:induction false} WholeText(s: Text, t: Text)
    requires Becomes(s, t)
    ensures Minified(s) == t
  {
    assert Minified(s + []) == t + Minified([]);
    assert s + [] == s;
  }
}
