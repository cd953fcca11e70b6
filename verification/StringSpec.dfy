/** What parse_string accepts and produces: the sizing scan, the UTF-16 literals and the unescaping walk. */
module StringSpec {
  import opened Ascii

  /** First pass: the position of the closing quote, when every backslash takes the byte after it along. */
  function Scan(s: Text, k: nat): (r: Option<nat>)
    ensures r.Some? ==> k <= r.value < |s| && s[r.value] == QUOTE
    decreases |s| - k
  {
    if k >= |s| then None
    else if s[k] == QUOTE then Some(k)
    else if s[k] == BACKSLASH then (if k + 1 >= |s| then None else Scan(s, k + 2))
    else Scan(s, k + 1)
  }

  function HexDigit(b: byte): (r: Option<nat>)
    ensures r.Some? ==> r.value < 16
  {
    if DIGIT0 <= b <= DIGIT9 then Some(b - DIGIT0)
    else if 0x41 <= b <= 0x46 then Some(10 + b - 0x41)
    else if 0x61 <= b <= 0x66 then Some(10 + b - 0x61)
    else None
  }

  /** The number that the first n of the four digits at `p` spell, or None if one of them is not hexadecimal. */
  function HexPrefix(s: Text, p: nat, n: nat): (r: Option<nat>)
    requires p + n <= |s|
  {
    if n == 0 then Some(0)
    else
      match HexPrefix(s, p, n - 1)
      case None => None
      case Some(h) =>
        match HexDigit(s[p + n - 1])
        case None => None
        case Some(d) => Some(16 * h + d)
  }

  /** Malformed digits read as 0. */
  function Hex4(s: Text, p: nat): nat
    requires p + 4 <= |s|
  {
    match HexPrefix(s, p, 4)
    case None => 0
    case Some(h) => h
  }

  /** `k` continuation bytes of six bits each behind a lead byte that carries `mark`. */
  function Utf8Bytes(code: nat, k: nat, mark: nat): (r: seq<int>)
    ensures |r| == k + 1
  {
    if k == 0 then [mark + code] else Utf8Bytes(code / 64, k - 1, mark) + [0x80 + code % 64]
  }

  function Utf8Length(code: nat): nat {
    if code < 0x80 then 1 else if code < 0x800 then 2 else if code < 0x1_0000 then 3 else 4
  }

  function Utf8Mark(code: nat): nat {
    if code < 0x80 then 0 else if code < 0x800 then 0xC0 else if code < 0x1_0000 then 0xE0 else 0xF0
  }

  lemma {:induction false} Utf8BytesAreBytes(code: nat, k: nat, mark: nat, top: nat)
    requires code < top
    requires k == 0 ==> mark + top <= 256
    requires k == 1 ==> mark + top / 64 <= 256 && top % 64 == 0
    requires k == 2 ==> mark + top / 4096 <= 256 && top % 4096 == 0
    requires k == 3 ==> mark + top / 262144 <= 256 && top % 262144 == 0
    requires k <= 3
    ensures forall i :: 0 <= i <= k ==> 0 <= Utf8Bytes(code, k, mark)[i] < 256
  {
    if k > 0 {
      Utf8BytesAreBytes(code / 64, k - 1, mark, top / 64);
    }
  }

  /** The UTF-8 encoding of a code point (RFC 3629, section 3). */
  function Utf8(code: nat): (r: Text)
    requires code < 0x11_0000
    ensures |r| == Utf8Length(code)
  {
    var k := Utf8Length(code) - 1;
    var mark := Utf8Mark(code);
    Utf8BytesAreBytes(code, k, mark, if k == 0 then 0x80 else if k == 1 then 0x800 else if k == 2 then 0x1_0000 else 0x14_0000);
    Utf8Bytes(code, k, mark)
  }

  datatype Step = Stuck | Step(width: nat, bytes: Text)

  /** The literal at `p` of a body that ends at `end`: one sequence, or two that form a surrogate pair. */
  function Utf16Literal(s: Text, p: nat, end: nat): (r: Step)
    requires end <= |s|
    ensures r.Step? ==> (r.width == 6 || r.width == 12) && p + r.width <= end && 1 <= |r.bytes|
    ensures r.Step? ==> |r.bytes| <= r.width / 2
  {
    if end < p + 6 then Stuck
    else
      var first := Hex4(s, p + 2);
      Hex4Range(s, p + 2);
      if 0xDC00 <= first <= 0xDFFF then Stuck
      else if 0xD800 <= first <= 0xDBFF then
        if end < p + 12 || s[p + 6] != BACKSLASH || s[p + 7] != LOWER_U then Stuck
        else
          var second := Hex4(s, p + 8);
          if second < 0xDC00 || 0xDFFF < second then Stuck
          else Step(12, Utf8(0x1_0000 + first % 0x400 * 0x400 + second % 0x400))
      else Step(6, Utf8(first))
  }

  lemma HexPrefixRange(s: Text, p: nat, n: nat)
    requires p + n <= |s| && n <= 4
    ensures HexPrefix(s, p, n).Some? ==>
              HexPrefix(s, p, n).value < if n == 0 then 1 else if n == 1 then 16 else if n == 2 then 256 else if n == 3 then 4096 else 65536
  {
    if n > 0 {
      HexPrefixRange(s, p, n - 1);
    }
  }

  lemma Hex4Range(s: Text, p: nat)
    requires p + 4 <= |s|
    ensures Hex4(s, p) < 65536
  {
    HexPrefixRange(s, p, 4);
  }

  /** The byte a one-letter escape stands for. */
  function ShortEscape(c: byte): Option<byte> {
    if c == LOWER_B then Some(0x08)
    else if c == LOWER_F then Some(0x0C)
    else if c == LOWER_N then Some(LF)
    else if c == LOWER_R then Some(CR)
    else if c == LOWER_T then Some(TAB)
    else if c == QUOTE || c == BACKSLASH || c == SLASH then Some(c)
    else None
  }

  /** One turn of the second pass at `p`. The last byte of `raw` is the closing quote. */
  function Unit(raw: Text, p: nat): (r: Step)
    requires p + 1 < |raw|
    ensures r.Step? ==> 1 <= r.width && 1 <= |r.bytes|
  {
    if raw[p] != BACKSLASH then Step(1, [raw[p]])
    else if raw[p + 1] == LOWER_U then Utf16Literal(raw, p, |raw| - 1)
    else
      match ShortEscape(raw[p + 1])
      case None => Stuck
      case Some(b) => Step(2, [b])
  }

  datatype Outcome<+T> = Failed(at: nat) | Parsed(value: T, next: nat)

  /** Second pass from `p`: all the bytes written, and where the read pointer ends. */
  function Decode(raw: Text, p: nat): (r: Outcome<Text>)
    requires 0 < |raw|
    ensures r.Failed? ==> p <= r.at < |raw|
    decreases |raw| - p
  {
    if p + 1 >= |raw| then Parsed([], p)
    else
      match Unit(raw, p)
      case Stuck => Failed(p)
      case Step(width, bytes) =>
        match Decode(raw, p + width)
        case Failed(at) => Failed(at)
        case Parsed(rest, next) => Parsed(bytes + rest, next)
  }

  /** parse_string at `i`: the C string read, and the position after the closing quote. */
  function ParseString(s: Text, i: nat): (r: Outcome<Text>)
    requires i < |s|
    ensures r.Parsed? ==> i < r.next <= |s|
    ensures r.Failed? ==> r.at <= |s|
  {
    if s[i] != QUOTE then Failed(i + 1)
    else
      match Scan(s, i + 1)
      case None => Failed(i + 1)
      case Some(end) =>
        match Decode(s[i + 1..end + 1], 0)
        case Failed(at) => Failed(i + 1 + at)
        case Parsed(bytes, _) => Parsed(CString(bytes), end + 1)
  }
}
