/** Bytes, C strings and the positions of one text inside another. */
module Ascii {
  datatype Option<+T> = None | Some(value: T)

  type byte = b: int | 0 <= b < 256
  type Text = seq<byte>

  const NUL: byte := 0x00
  const TAB: byte := 0x09
  const LF: byte := 0x0A
  const CR: byte := 0x0D
  const SPACE: byte := 0x20
  const QUOTE: byte := 0x22
  const STAR: byte := 0x2A
  const COMMA: byte := 0x2C
  const MINUS: byte := 0x2D
  const DOT: byte := 0x2E
  const SLASH: byte := 0x2F
  const DIGIT0: byte := 0x30
  const DIGIT9: byte := 0x39
  const COLON: byte := 0x3A
  const LBRACKET: byte := 0x5B
  const BACKSLASH: byte := 0x5C
  const RBRACKET: byte := 0x5D
  const LOWER_B: byte := 0x62
  const LOWER_F: byte := 0x66
  const LOWER_N: byte := 0x6E
  const LOWER_R: byte := 0x72
  const LOWER_T: byte := 0x74
  const LOWER_U: byte := 0x75
  const LBRACE: byte := 0x7B
  const RBRACE: byte := 0x7D

  predicate IsDigit(b: byte) {
    DIGIT0 <= b <= DIGIT9
  }

  /** A C string holds no NUL before its terminator. */
  predicate NulFree(t: Text) {
    NUL !in t
  }

  /** What a C reader sees of a block: the bytes before the first NUL. */
  function CString(t: Text): (r: Text)
    ensures NulFree(r)
    ensures r <= t
    ensures r == t || t[|r|] == NUL
  {
    if t == [] || t[0] == NUL then [] else [t[0]] + CString(t[1..])
  }

  lemma CStringOfNulFree(t: Text)
    requires NulFree(t)
    ensures CString(t) == t
  {
    if t != [] {
      CStringOfNulFree(t[1..]);
    }
  }

  /** `t` stands at position `i` of `s`. */
  predicate At(s: Text, i: nat, t: Text) {
    i + |t| <= |s| && s[i..i + |t|] == t
  }

  lemma AtSplit(s: Text, i: nat, a: Text, b: Text)
    ensures At(s, i, a + b) <==> At(s, i, a) && At(s, i + |a|, b)
  {
    if At(s, i, a + b) {
      var w := s[i..i + |a + b|];
      assert s[i..i + |a|] == w[..|a|];
      assert s[i + |a|..i + |a| + |b|] == w[|a|..];
    }
    if At(s, i, a) && At(s, i + |a|, b) {
      assert s[i..i + |a + b|] == s[i..i + |a|] + s[i + |a|..i + |a| + |b|];
    }
  }

  lemma AtByte(s: Text, i: nat, t: Text, k: nat)
    requires At(s, i, t) && k < |t|
    ensures i + k < |s| && s[i + k] == t[k]
  {
    assert s[i..i + |t|][k] == s[i + k];
  }
}
