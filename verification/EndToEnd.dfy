/** The entry points one behind the other: printing, minifying and parsing through buffers. */
module EndToEnd {
  import opened Ascii
  import opened Values
  import opened ParseSpec
  import opened Items
  import opened Render
  import opened RoundTrip
  import opened Minifier
  import opened MinifyPrint
  import Parser
  import Printer

  /**
   * cJSON_Print or cJSON_PrintUnformatted, and then cJSON_ParseWithLengthOpts on the buffer: as long as no request for memory is
   * refused and the text fits an int, a tree of the value with its numbers as they are read comes back, exactly when the nesting
   * is within the limit.
   */
  method PrintThenParse(v: Value, format: Format, strtod: Converter, requireNul: bool, reallocates: bool, hooks: Allocator)
    returns (root: Option<Item>)
    requires hooks.Valid() && Printable(v) && NumbersIn(v, Convertible(format.numerals, strtod))
    modifies hooks
    ensures hooks.Valid()
    ensures root.Some? ==> Represents(root.value, Reread(v, format.numerals, strtod)) && Nesting(v) <= NESTING_LIMIT
    ensures root.None? ==> hooks.failures > old(hooks.failures) || |RenderValue(v, format, 0)| + 2 > INT_MAX || Nesting(v) > NESTING_LIMIT
  {
    hide Printable, NumbersIn, Convertible, Reread, RenderValue, Represents, ParseText, Owned;
    var printed, block := Printer.Print(v, format, reallocates, hooks);
    if printed == null {
      return None;
    }
    PrintedTextParsesBack(v, format, requireNul, strtod);
    assert printed[..] == Terminated(RenderValue(v, format, 0));
    var parseEnd;
    root, parseEnd := Parser.ParseWithLengthOpts(printed[..], strtod, hooks, requireNul);
  }

  /**
   * cJSON_Print and then cJSON_Minify on the buffer: it holds what cJSON_PrintUnformatted would have written exactly when no
   * backslash gets in the way.
   */
  method PrintThenMinify(v: Value, n: Numerals, reallocates: bool, hooks: Allocator) returns (printed: array?<byte>)
    requires hooks.Valid() && Printable(v)
    modifies hooks
    ensures printed != null ==> NUL in printed[..] && (CString(printed[..]) == RenderValue(v, Unformatted(n), 0) <==> MinifiesWell(v))
    ensures printed == null ==> hooks.failures > old(hooks.failures) || |RenderValue(v, Formatted(n), 0)| + 2 > INT_MAX
  {
    hide Printable, RenderValue, CString, MinifiesWell, Minified;
    var block;
    printed, block := Printer.Print(v, Formatted(n), reallocates, hooks);
    if printed != null {
      ghost var text := RenderValue(v, Formatted(n), 0);
      Printer.RenderIsNulFree(v, Formatted(n), 0);
      assert printed[..][..|text|] == text && printed[..][|text|] == NUL;
      CStringIs(printed[..], |text|);
      MinifyJoinsFormats(v, n);
      Minifier.Minify(printed);
    }
  }
}
