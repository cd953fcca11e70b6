# Verification of the ioemnetd DNS client

This project models the parts of the repository that carry its logic and proves what they promise. `dafny verify dfyconfig.toml`
checks the whole of it (Dafny 4.11).

**cJSON** (`cJSON.c`). Parser and printer are classes with the fields of `parse_buffer` and `printbuffer`; their methods are proved
against pure functions, and the theorems are about those.

- `Ascii`, `Values`, `Bits`: bytes, C strings, JSON values, and the bit operations of C as arithmetic. A number is the real that its
  `double` denotes.
- `StringSpec`, `StringBudget`, `Tokens`: what `parse_string` does, why its first pass sizes the buffer well enough for the second
  even when a malformed `\u` puts the two out of step, and, independently of it, the string tokens that it accepts and which of
  them RFC 8259 has.
- `ParseSpec`, `Layouts`, `Grammar`, `ParseErrors`: the recursive-descent parser as a function, concrete syntax trees, and the
  theorem that the parser accepts exactly those; where it reports failures. The trees are those of RFC 8259 but for three things:
  any bytes up to 32 may stand between tokens, strings are the tokens of `Tokens`, and numbers are what `strtod` converts.
- `Rfc8259`, `Glyphs`: the texts of RFC 8259 byte by byte, with strings as Unicode text in any spelling, as an independent account of
  what is to be read; and that the parser reads them. Their bytes, digits and blanks are written out and not those of the parser.
- `Render`, `Escapes`, `RoundTrip`, `Decimals`: the printed text as a function of the value, with the formats of `print_number`
  as parameters; what the printer escapes; the round trip, and a converter for which it holds without assumptions.
- `PrintLines`, `RfcPrint`: formatted text as unformatted text with lines added by a scan of its bytes, which number has which
  text, and that what is printed is a text of the RFC.
- `Items`, `Duplicates`, `Parser`, `Printer`: trees with the blocks they own, an allocator that may refuse any request, and the
  methods that parse, print, copy and delete.
- `Minifier`, `MinifyMeaning`, `MinifyWalk`, `MinifyPrint`: `cJSON_Minify` in place, and what it does to documents, with comments
  and with strings that make it lose step, and to printed text; `RfcMinify` for texts of the RFC.
- `ChildList`, `Links`: the doubly linked list of children, whose first node points back at the last, and how the parser and
  `cJSON_Duplicate` build trees of such lists and the parser gives them up.
- `Comparison`, `CompareMeaning`: `cJSON_Compare` and the equality that it decides.
- `EndToEnd`: the entry points one behind the other.

**ip2region** (`xdb_searcher.c`): `XdbSpec` and `XdbSearcher` for the search over its three kinds of storage, `IpText` for dotted
addresses, `Powers` for logarithms.

**Packet queue** (`queue.c`, `queue.h`, `dns_client.c`): `QueueSteps` has the two threads as programs of one statement a step over
explicit memory, `QueueProof` the invariant of all interleavings, `QueueSafety` the guarantees, and `QueueProgress` what gets done.

## Where the code is not what it is said to be

- `parse_string` accepts more than RFC 8259, section 7: a `\u` without four hexadecimal digits is read as NUL
  (`Tokens.BrokenEscapeIsRead`), and control characters are read as themselves (`Tokens.ControlCharacterIsRead`). It accepts less
  as well: a string of the RFC is a token exactly when its surrogates come in pairs (`Tokens.RfcStrings`). Between tokens any byte
  up to 32 is a blank (`Rfc8259.ControlByteIsBlank`).
- `cJSON_Minify` changes values. It takes the closing quote of a string that ends in a backslash for an escaped one, and then strings
  for text: `["\\","a b"]` becomes `["\\","ab"]` (`MinifyWalk.BlankIsLost`), and `["\\","//"]` is cut off
  (`MinifyWalk.CommentCutsDocument`). A string taken for text also loses the slash of `\/`: `"\/\/"` becomes `"\\"`
  (`MinifyWalk.EscapedSlashesMerge`), and what is left of `"\/"` is no token (`MinifyWalk.EscapedSlashOpens`).
  `MinifyWalk.MinifyKeepsValue` says exactly when the value stays the same, for all documents in which no comment starts in a string
  taken for text and what is left of every string is a token.
- For the same reason it does not always turn formatted into unformatted text. `MinifyPrint.MinifyJoinsFormats` says exactly when it
  does, and `MinifyPrint.BackslashKeepsBlank` has a value for which it does not.
- A duplicate need not compare equal to its original: it does exactly when every member of an object compares equal to the first
  member of its name (`CompareMeaning.DuplicateComparesEqual`). `{"a":1,"a":2}` does not (`CompareMeaning.ClashingNamesDiffer`);
  `{"a":1,"a":1+e}`, with e the epsilon of a double, does, although it gives one name two values
  (`CompareMeaning.NearNamesakesCompareEqual`).
- Comparing numbers within an epsilon is not transitive (`CompareMeaning.NearNumbersCompareEqual`), and comparing trees is transitive
  exactly where comparing their numbers is (`CompareMeaning.TransitiveExactly`). Whole numbers are told apart below 2^52 and no further
  (`CompareMeaning.WholeNumbersAreSpaced`).
- An item that is a child already, or that still points at a next one, is added without complaint, and the list is no list any more
  (`ChildList.AddItemToArray`, `ChildList.InsertItemInArray`). So it is with another child as a replacement, but for one case: the
  first child in place of the last of three or more is left alone, and all the others are lost (`ChildList.ReplaceItemViaPointer`).
- The header asks for five spare bytes in a preallocated buffer (cJSON.h:162); two are enough and necessary.
- The range of slots that `xdb_search` looks through includes the one at its end pointer, which belongs to the next block. An address
  above the records of its block is then answered with the region of the next block (`XdbSpec.NextBlockAnswers`), or with an error at
  the end of the image (`XdbSpec.AboveLastBlockFails`). `XdbSpec.SearchIsOwnScan` and `XdbSearcher.SearchAnswersFromBlock` say exactly
  when the slot does no harm.
- The queue is checked against 1000 packets but may hold 1001 (`QueueSafety.QueueIsBounded`, `QueueProgress.BoundIsReached`).
- `main_loop` reads a packet as a C string although its block ends with the packet: its walk over the bytes leaves the block exactly when a
  packet holds no NUL (`QueueSafety.BoundsAreKept`, with a run in `QueueProgress.BlanksAreOverread`). The NUL that `udp_server_loop` writes
  behind a packet of 1024 bytes lies past its buffer.

## Model

| member | source | states |
|---|---|---|
| Grammar.ParserDecidesGrammar | cJSON.c:1325-1377 | At any offset and depth the parser reads a value, and stops at a position, if and only if the bytes up to there are a layout of that value that nests within the limit; what follows matters only to a number |
| Tokens.TokensAreRead | cJSON.c:781-908 | A text is read by parse_string up to its end if and only if it is pieces between quotes: plain bytes, short escapes, codes, surrogate pairs, and broken codes that stand for NUL; and it is read as the C string of what the pieces mean |
| Tokens.UnbrokenTokens | cJSON.c:660-778 | The tokens in which every code has its four digits are exactly the sequences of valid pieces between quotes |
| Tokens.RfcStrings | cJSON.c:660-778 | A string of RFC 8259 section 7 is such a token if and only if every high surrogate is followed by a low one and every low one follows a high one |
| Tokens.RfcTokens | cJSON.c:781-908 | Of the tokens, exactly those with valid pieces and no unescaped control character are strings of RFC 8259 |
| Tokens.BrokenEscapeIsRead | cJSON.c:623-658 | A code of four letters Z is read as a string that is empty to C, and is no string of RFC 8259 |
| Tokens.ControlCharacterIsRead | cJSON.c:828-835 | A line feed between quotes is read as a line feed, and is no string of RFC 8259 |
| Grammar.TooDeepIsRejected | cJSON.c:1459-1463 | A layout whose containers nest beyond the limit is rejected wherever it stands |
| Grammar.LayoutsAreUnambiguous | cJSON.c:1325-1377 | Two layouts with the same text stand for the same value, however deeply they nest |
| Grammar.ParserDecidesDocuments | cJSON.c:1104-1181 | With the demand for a terminator a buffer parses to a value if and only if it is an optional byte order mark, blanks, a layout of that value within the limit, blanks and one NUL at its end |
| Grammar.DocumentIsRead | cJSON.c:1104-1181 | With and without that demand such a buffer parses exactly within the limit, and where parsing then ends |
| Rfc8259.RfcTextsAreRead | cJSON.c:1104-1181 | A JSON text of RFC 8259, given byte by byte, with numbers of at most 63 bytes and a strtod that converts the numbers of the RFC as a whole, is read as the value it stands for if and only if it nests no deeper than 1000, with and without a byte order mark and the demand for a terminator |
| Rfc8259.NumeralIsRead | cJSON.c:307-381 | A number of the RFC of at most 63 bytes is read to its end wherever it stands with a blank, a comma, a closing bracket or brace, or the end behind it |
| Rfc8259.RunHoldsNumberBytes | cJSON.c:324-346 | What is handed to strtod are digits, signs, points and the letter e in either case, all of them up to the first other byte, or the first 63 |
| Rfc8259.ControlByteIsBlank | cJSON.c:1047-1070 | Any byte up to 32 may stand between brackets |
| ParseErrors.TrailingBytesAreReported | cJSON.c:1128-1178 | Bytes behind a value make parsing fail, at the first one that is no blank, if a terminator is demanded; otherwise the value is read |
| ParseErrors.UnknownEscapeIsReported | cJSON.c:876-907 | A string fails at the backslash of the first escape that there is not, behind any valid pieces |
| ParseErrors.OpenStringIsReported | cJSON.c:794-812 | A string without a closing quote fails right behind its opening one |
| ParseErrors.NoValueStarts | cJSON.c:1325-1377 | A byte that starts no value is where the failure is reported |
| Grammar.ReadsElements | cJSON.c:1454-1549 | The elements of a layout, with their gaps, are read as the items they stand for, despite the steps back of the skips, exactly within the limit |
| Grammar.ReadsPairs | cJSON.c:1614-1729 | The same for the members of an object |
| ParseSpec.SkipBlanks | cJSON.c:1047-1070 | Skipping moves forward within the buffer and never leaves it, as the step back keeps it on the last byte |
| ParseSpec.ParseValue | cJSON.c:1325-1377 | Every success strictly advances the offset and stays within the buffer; every failure reports a position in it |
| Parser.ParseBuffer.SkipWhitespace | cJSON.c:1047-1070 | The loop moves the offset to where the specification says, and nothing else |
| Parser.ParseBuffer.SizeString | cJSON.c:794-826 | The first pass finds the closing quote that the scan finds, or fails where it fails, and computes the size of the buffer |
| StringBudget.TurnIsPaid | cJSON.c:828-882 | One turn of the second pass writes no more than the first pass allotted to the bytes it consumes, also when a malformed escape has put the passes out of step |
| StringBudget.SecondPassFits | cJSON.c:781-908 | For every input the bytes written and the terminator fit the buffer that the first pass sized, and the read pointer ends at most one past the closing quote |
| Parser.Unescape | cJSON.c:828-885 | The in-place second pass writes exactly the decoded bytes and a NUL inside a buffer of that size, or stops where the decoding fails |
| Parser.ParseHex4 | cJSON.c:623-658 | Four digits are read as their number, and anything else as 0 |
| Parser.EncodeUtf8 | cJSON.c:722-772 | The bytes that the masks and shifts store, from the last to the first, are the UTF-8 encoding of the code point |
| Parser.Utf16LiteralToUtf8 | cJSON.c:660-778 | The bytes written and the width consumed are those of the specification, over all malformed and lone surrogates |
| Tokens.SurrogateOffsets | cJSON.c:715-715 | The masks, the shift and the or of the code put a surrogate pair together to the supplementary code point of RFC 2781 section 2.2 |
| Bits.ContinuationBits | cJSON.c:756-761 | Setting and clearing the two highest bits of a byte and shifting by six give the continuation bytes of RFC 3629 section 3 |
| Bits.LeadBits | cJSON.c:763-770 | The mark of a first byte stands above the bits of what is left of the code point |
| Tokens.TokenOfPieces | cJSON.c:828-882 | Any sequence of plain bytes, short escapes, codes and surrogate pairs is a token, read as the concatenation of what its pieces mean |
| Escapes.HexDigitsAreThese | cJSON.c:623-658 | The bytes that are read as hexadecimal digits are those of a table, in either letter case, and each is read as its place in it |
| Escapes.SpelledIsRead | cJSON.c:623-658 | The four digits of any number are read as the number, whatever the letter case at each place |
| Escapes.HexDigitsAreSpelled | cJSON.c:623-658 | And four bytes are taken for digits if and only if they spell a number so |
| Glyphs.UnicodeTextsAreRead | cJSON.c:660-908 | Any Unicode text, each character as it is in UTF-8, by the letter of a short escape, or by the digits of one code or of a surrogate pair in any letter case, is read as the C string of its UTF-8 encoding (the table of RFC 3629 section 3), from which decoding gives the text back |
| Escapes.EscapedIsRead | cJSON.c:981-1026 | What the printer escapes, the parser reads back, for every string without NUL |
| Escapes.UntroubledIsPrinted | cJSON.c:984-990 | A text of bytes above 31 that are neither quotes nor backslashes is printed as it is, between quotes |
| Escapes.ShortEscapesAre | cJSON.c:995-1016 | Each of seven bytes is printed as a backslash and its letter |
| Escapes.ControlIsSpelled | cJSON.c:1017-1021 | Any other byte below 32 is printed as its number in four lower-case digits |
| Escapes.EscapedLength | cJSON.c:938-961 | Escaping adds one byte for each of the seven and five for each other byte below 32 |
| Parser.ParseBuffer.ParseString | cJSON.c:781-908 | The outcome is that of the specification; on failure nothing stays allocated, on success exactly the string is new |
| Parser.ParseBuffer.ParseNumber | cJSON.c:307-381 | At most 63 number characters go to strtod, the offset moves by what it converted, and the integer is saturated |
| Parser.ParseBuffer.ParseValue | cJSON.c:1325-1377 | The imperative parser fills the item with a tree of the specification's value or leaves offset and blocks as the specification and the allocator demand |
| Parser.ParseBuffer.ParseArray | cJSON.c:1454-1549 | The same for arrays, with the depth restored on success |
| Parser.ParseBuffer.ParseObject | cJSON.c:1614-1729 | The same for objects |
| Parser.ParseBuffer.ParseMember | cJSON.c:1675-1702 | Key, colon and value of one member, with the ownership of the key moved from the value field |
| Parser.ParseWithLengthOpts | cJSON.c:1104-1181 | For every input and every schedule of refused allocations: a root stands for the value read and owns exactly the new blocks; without a root nothing stays allocated, and then either a request was refused or the specification rejects; the end handed back is the specification's |
| Parser.ParseThenDelete | cJSON.c:253-276 | Parsing and deleting leaves the set of live blocks as it was, whatever the input and the refusals |
| Items.Delete | cJSON.c:253-276 | Deleting a chain of items releases every block it owns once and no other, with references and constant keys respected |
| Items.ReferenceIsShallow | cJSON.c:1953-1972 | A reference owns no block but its own, and stands for the value of its item |
| Items.ReferThenDelete | cJSON.c:253-276 | Making a reference and deleting it leaves the blocks of the item, and all others, live |
| Duplicates.Duplicate | cJSON.c:2729-2810 | A copy has the content of the item and owns exactly the new blocks; it fails if and only if a request is refused, and then leaves nothing behind |
| Duplicates.CopiesRepresent | cJSON.c:2729-2810 | A copy of all levels stands for the same value |
| Links.LinkValue | cJSON.c:1488-1536 | The loops of parse_array and parse_object leave a tree of new nodes, none of them twice, in which the children of every node are linked in both directions, the first one pointing back at the last, with a node for every value inside the value |
| Links.GiveUp | cJSON.c:1488-1548 | A loop that gives up behind some items, or within the value of one, at any depth: as many nodes are found over the links of the unfinished list as were made, each of them new and none twice, and nothing older is touched |
| Links.Release | cJSON.c:253-276 | The walk of cJSON_Delete over next and child, which is all it needs of a list, reaches the nodes of the trees from the leaves up |
| Links.OrderHolds | cJSON.c:253-276 | It reaches only nodes of the trees, and none twice if none stands in them twice |
| Links.OrderHoldsAll | cJSON.c:253-276 | It reaches every one of them |
| Links.DuplicateLinks | cJSON.c:2773-2801 | The copy of a linked tree is a linked tree of new nodes of the same shape, and the original is not touched |
| Render.IntTextLength | cJSON.c:558-576 | The decimal text of an int has at most 11 characters |
| RoundTrip.RenderIsLayout | cJSON.c:1380-1843 | Printed text is the text of a layout that nests as deeply as the value, in both formats, at every depth and with any texts of numbers |
| RoundTrip.LayoutForIsValid | cJSON.c:1380-1843 | That layout is valid and stands for the value with its numbers as strtod reads them, if it converts their texts as a whole |
| RoundTrip.PrintedTextParsesBack | cJSON.c:1104-1843 | A printed value parses back to itself, with its numbers as strtod reads their texts, in both formats and with or without the demand for a terminator, if and only if its nesting is within the limit; parsing ends at the terminator |
| RoundTrip.PrintedNumbersComeClose | cJSON.c:553-620 | If strtod reads what sscanf reads and seventeen digits are enough, every number that is printed and parsed compares equal to the number it was, and all else is the same |
| RoundTrip.ExactIsUnchanged | cJSON.c:568-589 | A value whose numbers are read back exactly comes back as it was |
| RoundTrip.DecimalTextParsesBack | cJSON.c:1104-1843 | With a converter of decimal integers the round trip of values with 32-bit integers holds without any demand on a library |
| RoundTrip.IntegersAreFaithful | cJSON.c:553-620 | There is a library that keeps the promises asked for, for integers |
| Printer.PrintBuffer.Ensure | cJSON.c:447-530 | Room is made, or the buffer is given up, with the contents kept, over reallocation and copying; it fails only for too large a demand or a refused request, and the new size is at most twice the demand |
| Printer.PrintBuffer.UpdateOffset | cJSON.c:533-543 | The offset lands just past the text, wherever in it the value printer had left it |
| Printer.PrintBuffer.PrintString | cJSON.c:911-1036 | The buffer holds the old prefix, the quoted and escaped string and a NUL, written into exactly the room that was counted |
| Printer.PrintBuffer.PrintNumber | cJSON.c:553-620 | For every finite number the buffer holds the old prefix and the text chosen for the number |
| Printer.PrintBuffer.NumberBuffer | cJSON.c:558-589 | The branches choose the decimal text of an int, else fifteen digits when what they read back as compares equal, else seventeen |
| Printer.PrintBuffer.PrintValue | cJSON.c:1380-1451 | For every value, capacity and growth path the buffer holds the old prefix, the rendering and a NUL, the depth is restored on success, and the demand is exactly the text and two bytes |
| Printer.PrintBuffer.PrintArray | cJSON.c:1552-1611 | The same for arrays |
| Printer.PrintBuffer.PrintObject | cJSON.c:1732-1843 | The same for objects |
| Printer.PrintPreallocated | cJSON.c:1305-1322 | It succeeds if and only if the length is at least that of the text plus two, and then holds the text and a NUL; nothing is allocated |
| Printer.PrintBuffered | cJSON.c:1274-1302 | The text is in the buffer, whose size is at most that asked for or twice the text plus four, and k regrows imply prebuffer times 2^k is at most that; a failure leaves nothing behind |
| Printer.Print | cJSON.c:1196-1261 | The text and a NUL come back in a block of just that size, or nothing stays allocated |
| PrintLines.FormattingAddsLines | cJSON.c:1552-1843 | For every value: the formatted text is what a scan over the bytes of the unformatted text makes of it, which knows only which brackets are open: a line with a tab for each of them behind an opening brace and behind a comma in braces, a closing brace on a line of its own, a blank behind a comma in brackets, a tab behind a colon |
| PrintLines.NumbersArePrinted | cJSON.c:553-620 | A 32-bit integer is printed in digits that are read back as it; another number with fifteen digits if these are read back as a number that differs by at most the epsilon of the larger one, else with seventeen |
| RfcPrint.PrintedTextsAreRfc | cJSON.c:1380-1843 | The text of a value with strings in UTF-8, and with a library that writes numbers of the RFC, is a text of RFC 8259 in both formats, as deep as the value; unformatted, nothing stands between its tokens |
| EndToEnd.PrintThenParse | cJSON.c:1104-1322 | Printing into a buffer and parsing it gives a tree of the same value, with its numbers as they are read, unless the nesting is beyond the limit, a request was refused, or the text is beyond an int |
| Minifier.Minify | cJSON.c:2861-2907 | The string in the array becomes the minified string in place, the writer never passes the reader, and nothing behind the old terminator changes |
| Minifier.MinifyString | cJSON.c:2839-2859 | The string part of it, with the look at one byte ahead |
| Minifier.MinifyIsIdempotent | cJSON.c:2812-2907 | Minifying a second time changes nothing, for every text |
| RfcMinify.CommentsAreRemoved | cJSON.c:2812-2907 | A text of RFC 8259 with blanks and comments of both kinds between its tokens, none of whose strings ends in an escaped backslash, is minified to its tokens and nothing else |
| RfcMinify.CommentedTextsAreRead | cJSON.c:2812-2907 | And what is left is read as the value of the text, exactly within the nesting limit |
| RfcMinify.OpenCommentSwallows | cJSON.c:2812-2837 | A comment of either kind that does not end takes the rest of the text along |
| RfcMinify.OpenStringIsKept | cJSON.c:2839-2859 | A string that does not end is kept, with all that is behind it |
| RfcMinify.LoneSlashIsDropped | cJSON.c:2881-2894 | A slash that starts no comment is dropped |
| MinifyMeaning.TokenMinified | cJSON.c:2839-2859 | A string token is copied byte for byte; the scan takes its closing quote for an escaped one if and only if the byte before it is a backslash |
| MinifyWalk.WalkTurns | cJSON.c:2839-2907 | What the minifier makes of a layout with comments in its gaps: a walk over its tokens that takes them for strings or for text, as the tokens before have left it; no token taken for text is to start a comment |
| MinifyWalk.MinifiedDocumentIsRead | cJSON.c:2812-2907 | A document with comments and blanks between its tokens, whatever its strings end in, once minified parses to the value of its walked layout, if that is a valid one, exactly within the nesting limit |
| MinifyWalk.WalkedTokenValue | cJSON.c:2839-2907 | A token that is taken for text, and in which no comment starts, no slash is escaped and no code is broken, is left a token; and any token without the last two is left one for the same string if and only if no blank and no slash stands in it before its first escaped quote or NUL |
| MinifyWalk.KeptTokenValue | cJSON.c:2839-2907 | A token from which nothing is taken is left a token for the same string, whatever it holds |
| MinifyWalk.MinifyKeepsValue | cJSON.c:2812-2907 | A document in which no comment starts in a token taken for text, and what is left of every such token is a token, parses before minifying if and only if it does after, and to the same value if and only if every token is left one for the same string |
| MinifyWalk.MinifyKeepsMeaning | cJSON.c:2812-2907 | Any document from whose tokens the walk takes nothing keeps its value, whatever its strings end in |
| MinifyWalk.ReadableKeepsTokens | cJSON.c:2852-2858 | That is so for every document in which no string and no key ends in a backslash |
| MinifyWalk.BlankIsLost | cJSON.c:2852-2858 | An array of two strings whose second one loses its blank |
| MinifyWalk.CommentCutsDocument | cJSON.c:2812-2822 | An array of two strings that is cut off where a string is taken for a comment, and does not parse any more |
| MinifyWalk.EscapedSlashesMerge | cJSON.c:2868-2898 | A token of two escaped slashes that is left one of a backslash |
| MinifyWalk.EscapedSlashOpens | cJSON.c:2868-2898 | A token of one escaped slash of which what is left is no token |
| MinifyWalk.BrokenHidesLoss | cJSON.c:2868-2898 | A token that loses a blank but not its value, since a broken code before it reads as NUL |
| MinifyPrint.MinifyJoinsFormats | cJSON.c:2839-2907 | For every value: the minified formatted text is the unformatted text if and only if no key ends in a backslash and a string that does is followed by closing brackets only |
| MinifyPrint.BackslashKeepsBlank | cJSON.c:2853-2857 | A value for which the two texts differ |
| EndToEnd.PrintThenMinify | cJSON.c:2861-2907 | Through real buffers: printing formatted and minifying in place leaves the unformatted text under exactly that condition |
| ChildList.ChildrenAreUnique | cJSON.c:1974-2005 | The links determine the sequence of children |
| ChildList.ChainIsDistinct | cJSON.c:1974-2005 | A list that keeps the link invariant has no node twice |
| ChildList.GetArrayItem | cJSON.c:1869-1886 | The walk over the links finds the child at the index, or none |
| ChildList.AddItemToArray | cJSON.c:1974-2005 | The links come to stand for the sequence with the item behind it, exactly if the list is empty or the item is neither in it nor points at a next one; otherwise they stand for no sequence. They stay as they were for null and for the list itself |
| ChildList.DetachItemViaPointer | cJSON.c:2205-2239 | They come to stand for the sequence without the item, which points at nothing any more |
| ChildList.InsertItemInArray | cJSON.c:2281-2313 | They come to stand for the sequence with the item at the position, exactly if the item is not in it, or at the end, exactly as above; otherwise they stand for no sequence |
| ChildList.ReplaceItemViaPointer | cJSON.c:2315-2362 | They come to stand for the sequence with the replacement in the item's place, the single child and the item itself included, exactly if the replacement is the item or no child; for another child they stand for no sequence, but for the replacement alone if it is the first child and the item the last of three or more |
| ChildList.Run | cJSON.c:1974-2372 | Over every sequence of additions, insertions, detachments and replacements the links stand for the sequence that the edits make |
| Comparison.EqualIgnoringCase | cJSON.c:133-153 | The loop decides equality of the lower-case names |
| Comparison.SameNames | cJSON.c:133-153 | Two names are the same without case if and only if they agree byte by byte but for the case of letters from A to Z |
| Comparison.GetObjectItem | cJSON.c:1898-1928 | The search finds the first child of the name; an exact one ends at a child without a name |
| Comparison.FindsFirst | cJSON.c:1898-1928 | Found is a child if and only if it has the name and none before it has; if the search is exact, none before it may be nameless |
| Comparison.Compare | cJSON.c:3009-3132 | The mutual recursion over both trees terminates and decides the relation below |
| Comparison.EqualsItself | cJSON.c:3016-3036 | An item is equal to itself, whatever names clash in it, unless its kind is invalid |
| CompareMeaning.CompareDecides | cJSON.c:3009-3132 | On trees without a common item, whatever their numbers: true if and only if the values are alike, that is equal but for numbers that compare equal, with every member of an object matched to the first one of its name in the other, both ways |
| CompareMeaning.EqualIsAlike | cJSON.c:3009-3132 | Values that are equal with objects read as maps, and give no name two different values, are alike, whatever their numbers |
| CompareMeaning.EqualExactly | cJSON.c:3009-3132 | On the values with numbers of a set, alike and equal in that sense are the same if and only if no two different numbers of the set compare equal |
| CompareMeaning.CompareIsSymmetric | cJSON.c:3009-3132 | Two trees compare the same in either order, whatever they hold |
| CompareMeaning.CompareIsTransitive | cJSON.c:3009-3132 | With numbers of a set on which comparing numbers is transitive, comparing trees is |
| CompareMeaning.TransitiveExactly | cJSON.c:3009-3132 | Being alike is transitive on the values with numbers of a set if and only if comparing the numbers of the set is |
| CompareMeaning.NearNumbersCompareEqual | cJSON.c:546-550 | Three numbers an epsilon apart of which the first and the last do not compare equal |
| CompareMeaning.WholeNumbersAreSpaced | cJSON.c:546-550 | No two whole numbers below 2^52 compare equal, and at 2^52 two do |
| CompareMeaning.DuplicateComparesEqual | cJSON.c:2729-2810 | A recursive copy is equal to its original if and only if every member of an object is alike to the first one of its name, whatever the numbers; hence always when names differ, or namesakes have one value |
| CompareMeaning.SettledIsConsistent | cJSON.c:3009-3132 | With numbers of a set no two different ones of which compare equal, that is so if and only if no object gives one name two different values |
| CompareMeaning.ClashingNamesDiffer | cJSON.c:3092-3122 | An object that is not equal to its own copy |
| CompareMeaning.NearNamesakesCompareEqual | cJSON.c:3092-3122 | An object that gives one name two different values, and is equal to its own copy |
| CompareMeaning.DuplicateThenCompare | cJSON.c:2729-2810 | The same through the allocator, which itself keeps the two trees apart |
| XdbSpec.FoundCovers | xdb_searcher.c:102-126 | On any image, in order or not, what the search finds stands in one of the slots and covers the address |
| XdbSpec.ProbeFinds | xdb_searcher.c:102-126 | A record that covers the address is found, if the slots before a slot n are in order; slot n may be in the range of the search but is not read |
| XdbSpec.SearchIsScan | xdb_searcher.c:99-126 | The binary search over slots 0 to h, both included, answers as the linear scan; when a record before the last slot covers the address this needs order only before it, and the last slot is never read |
| XdbSpec.SearchIsOwnScan | xdb_searcher.c:99-126 | With the slots of the block in order, and against a scan of these alone, the end slot left out: the two agree if and only if a record of the block covers the address, or the address is not above the last record, or the end slot can be read and does not cover it; otherwise nothing is found in the block and the search answers from the end slot or fails |
| XdbSpec.NextBlockAnswers | xdb_searcher.c:99-126 | An image in which an address above its block is answered from the record behind it |
| XdbSpec.AboveLastBlockFails | xdb_searcher.c:99-126 | An image that ends with a block, in which an address above it is answered with an error |
| XdbSpec.WrittenRecordIsFound | xdb_searcher.c:99-126 | In an image below 4 GiB in which records stand in order between the two pointers of a block, the search finds the record that covers the address and does not read the slot at the end pointer |
| XdbSpec.RecordIsAnswered | xdb_searcher.c:70-147 | In an image whose vector index points at a block of records in order, a record that covers the address is answered with exactly the bytes it points at; with nothing for a length of 0, with 1 if they do not fit the buffer, whose length is taken for an int, and with 32 if the image ends before them |
| XdbSpec.UncoveredIsEmpty | xdb_searcher.c:102-133 | An address between or below the records of its block is answered with nothing |
| XdbSpec.MissingSlotFails | xdb_searcher.c:102-113 | For such an image the code is 22 if and only if the address is above the block and the image ends before the end slot does |
| XdbSpec.ShortIndexFails | xdb_searcher.c:88-92 | The code is 12 if and only if the image ends before the entry of the address in the vector index |
| XdbSpec.LastSlotIsCut | xdb_searcher.c:101-101 | The number of the last slot is the distance of the two pointers over 14, towards zero in either direction |
| XdbSpec.LittleEndianIs | xdb_searcher.c:337-352 | The bytes of a number, with their weights |
| XdbSpec.EncodedIsDecoded | xdb_searcher.c:337-352 | The 14 bytes that a record is written as, lowest byte first, are decoded to the record |
| XdbSpec.UintIsWord | xdb_searcher.c:337-344 | The shifts, masks and ors put four chars together to the number of their bytes, also when their signs are extended |
| XdbSpec.VectorIsRowMajor | xdb_searcher.c:79-81 | By its shifts and masks the vector index has an entry of eight bytes for every value of the upper half of an address |
| XdbSpec.ProbesAreFew | xdb_searcher.c:102-126 | At most floor(log2 n) + 1 of n slots are read, on any image |
| XdbSearcher.Searcher.Read | xdb_searcher.c:149-167 | The bytes come from the content or from the file, which may run out; only the file is counted |
| XdbSearcher.Searcher.FindSegment | xdb_searcher.c:99-126 | The loop has the result of the specified search and reads as often |
| XdbSearcher.Searcher.Search | xdb_searcher.c:70-147 | Code, region and terminator in the buffer and the I/O count are those of the specification, for all three kinds of storage, with the codes 1, 12, 22 and 32 |
| XdbSearcher.VectorIndexAgrees | xdb_searcher.c:79-96 | The cached vector index leads to the answer that the file leads to |
| XdbSearcher.SearchThreeWays | xdb_searcher.c:37-167 | One image searched through all three kinds of storage: the same code and region, and at most floor(log2 n) + 1 probes plus 2, plus 1, and no reads at all |
| XdbSearcher.SearchWritten | xdb_searcher.c:37-167 | Through all three kinds of storage: code 0, and in the buffer exactly the bytes that the record of the address points at, with a NUL behind them |
| XdbSearcher.SearchAnswersByScan | xdb_searcher.c:70-147 | The answer for an address is the region of the record that a linear scan of its slots finds |
| XdbSearcher.SearchAnswersFromBlock | xdb_searcher.c:70-147 | With the slots of the block in order it is the region that a scan of these alone finds if and only if the end slot does no harm, or covers the address with an empty region |
| IpText.CheckIp | xdb_searcher.c:356-386 | The nested loops, which or the shifted parts together, return the address or the code of the specification |
| IpText.DottedIsRead | xdb_searcher.c:356-386 | A dotted text is read as the sum of its parts in their places, and a part above 255 is answered with 2 |
| IpText.AddressesAreDotted | xdb_searcher.c:356-386 | A text is read as an address if and only if it is four parts of digits, perhaps empty, none above 255, with dots between them and no digit behind |
| IpText.AddressComesBack | xdb_searcher.c:388-391 | Every address is read back from the text that xdb_long2ip writes |
| IpText.SearchByString | xdb_searcher.c:60-68 | A text that is no address answers 11 or 12, any other what the search answers |
| QueueProof.RunsKeepInv | queue.c:16-198 | The invariant of memory, lock, ownership, order and size holds after every interleaving of producer and consumer, statement by statement |
| QueueProof.PushStep | queue.h:43-60 | One statement of LIST_RPUSH keeps the queue between the old and the longer list |
| QueueProof.PopStep | queue.h:99-112 | One statement of LIST_LPOP keeps it between the old and the shorter list |
| QueueSafety.MutualExclusion | queue.c:16-45 | The critical sections exclude each other, and the lock word says whether a thread is in one |
| QueueSafety.FreeQueueIsList | queue.c:82-186 | Whenever the lock is free, size is the number of nodes, len the sum of their lengths, and next and prev mirror each other from head to tail |
| QueueSafety.FirstInFirstOut | queue.c:82-186 | The packets accepted are those delivered, the one in hand and those queued, in this order |
| QueueSafety.NoFault | queue.c:82-186 | No statement follows a null pointer or a pointer to a freed block |
| QueueSafety.BoundsAreKept | dns_client.c:160-166 | In every reachable state: the walk of the consumer over the bytes of a packet has left its block if and only if a packet without a NUL was walked over, and the index of a terminator was beyond the buffer of the producer if and only if a packet of 1024 bytes arrived |
| QueueSafety.OnlyReceivedIsAccepted | dns_client.c:160-184 | Nothing is enqueued that was not received |
| QueueProgress.ArrivalsAreAccepted | queue.c:82-123 | Over every run: the packets enqueued, and the one at work behind them, are those that arrived, in their order, without those let go; and let go is a packet exactly if its length is not from 20 to 1024, more than 1000 packets were seen, or malloc found no block |
| QueueProgress.SeenIsSize | dns_client.c:168-172 | What was seen is the number of packets in the queue at that moment |
| QueueProgress.Enqueues | dns_client.c:160-184 | Any packet of 20 to 1024 bytes that arrives at a queue of at most 1000 packets at rest comes to stand behind the others |
| QueueProgress.ConsumerDrains | dns_client.c:330-357 | From every reachable state in which the producer is in no critical section, the consumer alone, left to run, reads all packets that were enqueued |
| QueueSafety.TerminatedPacketsAreSafe | dns_client.c:351-357 | As long as every packet received holds a NUL the consumer stays inside its blocks |
| QueueProgress.BlanksAreOverread | dns_client.c:351-357 | A run in which a packet of twenty blanks is read past the end of its block |
| QueueSafety.NoBlockIsLost | queue.c:82-186 | Every allocated node is in the queue or with exactly one of the threads |
| QueueSafety.PopNeverFails | queue.c:155-186 | After the queue was seen not to be empty, taking a packet out does not fail, although the check is a critical section of its own |
| QueueSafety.QueueIsBounded | dns_client.c:168-184 | In every reachable state size is at most 1001 and len at most 1024 times that, whatever the consumer does between check and push |
| QueueProgress.BoundIsReached | dns_client.c:168-184 | A run in which the queue holds 1001 packets |
| QueueSafety.LockIsGivenBack | queue.c:16-45 | A thread with the lock gives it back after at most nine steps of its own |
| QueueSafety.Destroy | queue.h:145-156 | Destroying a queue at rest frees exactly the nodes in it and the queue, and leaves a size of -1 and a length of 0 |

## Left out

- Rfc8259.RfcTextsAreRead: has no surrogates without their other half, which the RFC allows and the parser rejects (Tokens.RfcStrings), and no numbers above 63 bytes, of which only the first 63 are looked at.
- Grammar.ParserDecidesGrammar: sets apart a number that a number character follows, since where it ends is then up to strtod alone.
- MinifyWalk.MinifyKeepsValue: sets apart documents in which a comment starts in a token that is taken for text, as it takes any number of tokens along (MinifyWalk.CommentCutsDocument), and those in which what is left of a token is none, so that its string runs on into what follows (MinifyWalk.EscapedSlashOpens). Where no comment starts MinifyWalk.MinifiedDocumentIsRead still says what is read.
- IpText.CheckIp: does not say what happens when a part does not fit an int, which C leaves undefined; DottedIsRead says when that is.
- Printer.PrintBuffered: does not cover a size of 0 without a reallocating allocator, where the source reads a buffer of no bytes.
- XdbSearcher.Searcher.Search: does not have fseek fail (codes 11, 21 and 31), which it does not on a regular file with a 64-bit long.
- XdbSearcher.Searcher.Read: does not say what a content buffer answers beyond its end, where the source does not look at the length.
- ChildList.ReplaceItemViaPointer: leaves the replaced item without links; that deleting it releases its blocks is Items.Delete.
- Floating-point text and its rounding: strtod, sscanf and the two formats of sprintf are parameters, the formats any functions to texts of at most 25 number characters. Locales and their decimal points, not-a-number and infinities are not part of this model.
- Raw items, items of invalid type and null strings in the theorems about values; the flags for references and constant keys matter only to ownership.
- Parser, printer and comparison work on trees in which an item lists its children. The links between children are in ChildList and Links, whose nodes have nothing but links. There the parser is driven by what it reads instead of by the bytes, and a copy is not refused memory; the blocks of a parse or copy that is given up are in Parser and Duplicates.
- size_t does not wrap around: buffers are shorter than that.
- NULL passed for a buffer, a hook or an item to the entry points of the parser, printer, minifier and comparison.
- cJSON_ParseWithOpts and the other wrappers, cJSON_Create*, cJSON_Add*ToObject, cJSON_Is*, the hooks and the global error pointer, which repeats the offset handed back.
- Opening and closing the database, its header, and timing; a load that fails for want of memory.
- Several producers or consumers: dns_client.c has one of each. Instructions within one statement are not interleaved, which matters only outside the lock, where both threads touch nothing shared but the lock word.
- The log lines of the producer read the length without the lock, for display only.
- Sockets, signals, threads and sleeping, PCRE2 matching, selog, Binder and netd, command lines and rule files.
- LIST_RPOP, LIST_LPUSH, LIST_GET, LIST_JUDGE_IN and LIST_REMOVE_NODE, which queue.c does not use.
