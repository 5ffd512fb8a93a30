# The VME JSON engine and byte buffer, verified

Everything the VANTIQ SDK sends or receives passes through two C files: `src/vme/cjson.c`, a recursive-descent JSON
parser, a printer into a growing buffer, an in-place minifier, a mutable tree with copy and comparison; and
`src/vme/buf.c`, a growable byte buffer. This project models both and proves what their parts promise each other.

Verify it with `dafny verify dfyconfig.toml`.

## How it is laid out

| file | what it holds |
|---|---|
| `Text.dfy` | bytes, C strings, `strlen`, `memcpy` |
| `StringCodec.dfy`, `StringStandard.dfy` | the two passes of `parse_string`, the escaping of `print_string_ptr`, and both against section 7 of RFC 8259, section 3 of RFC 3629 and section 2.1 of RFC 2781 |
| `Numbers.dfy`, `NumberStandard.dfy` | the span `strtod` takes, the exact value of it, its rounding, and the printing of integers; both against numbers as they are spelled |
| `Values.dfy`, `Grammar.dfy`, `Language.dfy`, `Faults.dfy` | values, concrete syntax with gaps, the parser as a function with its error positions, the language it accepts, and how and where it rejects everything else |
| `Rendering.dfy`, `RoundTrip.dfy`, `PrintedForm.dfy` | the text the printer must produce, that the parser undoes it, and that text byte by byte |
| `Minification.dfy`, `MinifiedForm.dfy`, `Minifier.dfy` | `cJSON_Minify` as a function and what it keeps, the pieces of a string that it leaves, and the loop with two cursors on an array |
| `Nodes.dfy` | items on the heap, an allocator that may refuse any request and knows which blocks are live, `cJSON_Delete` |
| `StringParser.dfy`, `JsonParser.dfy` | the parser as it is written, cursor and all, refining the functions of `Grammar.dfy` |
| `Printer.dfy` | the print buffer and the printer as it is written, refining `Render` |
| `Lists.dfy`, `ListRuns.dfy`, `ObjectEdits.dfy`, `Copies.dfy` | the operations on child lists by index, runs of them with the items the caller holds beside the list, the operations by name, `cJSON_Duplicate` |
| `Comparison.dfy`, `ItemComparison.dfy` | what `cJSON_Compare` decides, and the method that decides it |
| `Engine.dfy` | printing, parsing, comparing and deleting in a row |
| `VmeBuf.dfy` | the byte buffer |

Three ideas recur. A ghost `Tree` records which items and string blocks make up an item; `Shaped` says that the heap
agrees with it, `Means` says which value it denotes, `Separate` that no block occurs twice. The allocator answers
request number n by an arbitrary function `grants`, so every contract covers allocation failing at any point; `live`
is the set of blocks handed out and not freed, freeing needs the block to be live, and so a contract about `live` is a
statement about leaks and double frees. And every imperative method is tied to a function on byte sequences or values,
about which the theorems are proved.

A function that a method shares with its specification says nothing about the method on its own. So the leaves of the
model are pinned to statements in literal bytes, in terms of their own: `StringStandard`, `NumberStandard`,
`PrintedForm`, `MinifiedForm`, `Faults` and the names of `Comparison`.

A few calls that the sources accept leave the defined part of C. No precondition hides them: a ghost result of the
method says that it has happened, and the contract says for which inputs, in both directions. "What a caller may not
expect" lists them.

Numbers are reals. `ExactValue` is the number a decimal text spells, and `NumberValue` is that number under a fixed
rounding of which only one thing is known: it keeps the integers below 10^15 in size. Every theorem holds for every such
rounding, so also for the one of `strtod`. Printing is modelled for those integers, which `%1.15g` prints as plain
decimals.

## Model

| member | source | states |
|---|---|---|
| `StringCodec.ScanFinds` | src/vme/cjson.c:708-731 | the first pass stops at the first quote that no backslash takes with it |
| `StringCodec.DecodedFits` | src/vme/cjson.c:695-821 | from any point of the second pass, even out of phase with the first, what is still written fits what the first pass sets aside |
| `StringCodec.AllocationSuffices` | src/vme/cjson.c:708-735 | for every accepted literal, malformed `\u` included, decoded bytes and terminator are fewer than the allocated bytes |
| `StringCodec.TurnFits` | src/vme/cjson.c:743-796 | one turn of the second pass keeps the phase relation and writes no more than its share of the spare bytes |
| `StringCodec.EscapeSize` | src/vme/cjson.c:850-892 | the length the first pass of the printer computes is exact, and at zero extra bytes the fast path copies what the loop would write |
| `StringCodec.UnescapeEscape` | src/vme/cjson.c:695-821 | at any position of a text, the parser's passes read an escaped string back |
| `StringCodec.StringRoundTrip` | src/vme/cjson.c:824-943 | every NUL-free byte string is escaped to a literal that parses back to it |
| `StringStandard.Hex4ReadsBack` | src/vme/cjson.c:537-570 | four digits of the tables 0-9A-F and 0-9a-f, in any mixture, read as the number below 0x10000 that they write, and anything else reads as 0 |
| `StringStandard.ShortEscapeIs` | src/vme/cjson.c:750-776 | the letters of the two-character escapes and what they stand for are those of section 7 of RFC 8259 |
| `StringStandard.JoinIs` | src/vme/cjson.c:584-627 | two code units are joined exactly when they are the halves of a code point by section 2.1 of RFC 2781, and to that code point |
| `StringStandard.Utf8Reads` | src/vme/cjson.c:637-686 | the octets that are written read as the code point by the table of section 3 of RFC 3629, whatever follows |
| `StringStandard.Utf8Unique` | src/vme/cjson.c:637-686 | no other octets do |
| `StringStandard.CopyPlain` | src/vme/cjson.c:743-747 | bytes other than quotes and backslashes are copied, control bytes included |
| `StringStandard.EscapeByteIs` | src/vme/cjson.c:894-938 | what each of the 256 bytes is escaped to, in literal bytes |
| `StringStandard.DecodesToUtf8` | src/vme/cjson.c:574-692 | at any position of a literal of section 7 of RFC 8259 the second pass yields the UTF-8 of the denoted code points, pairs joined, or fails for a surrogate on its own |
| `StringStandard.LiteralDecoding` | src/vme/cjson.c:537-692 | such a literal is accepted if and only if it stands for a text, its surrogates in pairs, and the octets stored are read as that text by the table of RFC 3629 |
| `Numbers.StrtodOfPrefix` | src/vme/cjson.c:263-337 | what strtod takes from a text it takes whole when it stands alone |
| `Numbers.WindowOfLexeme` | src/vme/cjson.c:263-306 | the window of bytes copied for strtod ends where the number ends, unless a number byte follows |
| `Numbers.DigitsRoundTrip` | src/vme/cjson.c:471-534 | the decimal digits of a natural number have that number as their value |
| `Numbers.PrintIntRoundTrip` | src/vme/cjson.c:471-534 | an integer below 10^15 in size prints in at most 16 bytes, as a number whose value is that integer |
| `NumberStandard.StrtodIsLongest` | src/vme/cjson.c:263-312 | strtod takes the longest spelled number that the text starts with: sign, digits with an optional point, optional power with sign and digits; nothing when there is none |
| `NumberStandard.LexemeIs` | src/vme/cjson.c:263-337 | the numbers of the grammar are the spelled numbers of at most 63 bytes that start with a minus or a digit |
| `NumberStandard.ValueOfSpelled` | src/vme/cjson.c:311-318 | the value of a spelled number: ten times itself for each digit behind the point, it is what the digits write, ten times as often as the power says, or the other way round for a negative power |
| `NumberStandard.IntegerText` | src/vme/cjson.c:471-534 | an integer is printed as an optional minus and decimal digits without a leading zero that write its size |
| `NumberStandard.NumberBytes` | src/vme/cjson.c:273-301 | the bytes that are copied for strtod, one by one |
| `Grammar.SkipGap` | src/vme/cjson.c:960-978 | skipping stays inside a terminated buffer and never moves back |
| `Language.SkipGapIs` | src/vme/cjson.c:960-978 | skipping goes over bytes 1 to 32, up to the first visible byte or the final NUL |
| `Grammar.ParseString` | src/vme/cjson.c:695-821 | success strictly advances the cursor and leaves it inside the buffer; an error position is inside or at its end |
| `Grammar.ParseValue` | src/vme/cjson.c:1209-1261 | the same for values, at every nesting budget; the recursion ends because the remaining bytes shrink |
| `Grammar.ParseText` | src/vme/cjson.c:997-1074 | the parse end is inside the buffer, and the reported error position lies within the text or at its NUL |
| `Language.ValueSound` | src/vme/cjson.c:1209-1261 | what is read spells the bytes it was read from, is well formed, and nests within the budget |
| `Language.ElemsSound` | src/vme/cjson.c:1372-1410 | the same for the loop over elements |
| `Language.FieldsSound` | src/vme/cjson.c:1526-1582 | the same for the loop over members |
| `Language.ValueComplete` | src/vme/cjson.c:1209-1261 | every well-formed value within the budget that stands in the text is read exactly, to its last byte and no further |
| `Language.ElemsComplete` | src/vme/cjson.c:1372-1410 | every spelled list of elements is read back with its gaps |
| `Language.FieldsComplete` | src/vme/cjson.c:1526-1582 | every spelled list of members is read back with its gaps |
| `Language.StrictSound` | src/vme/cjson.c:1022-1042 | a strictly accepted text is a document of the grammar, to its last byte |
| `Language.StrictComplete` | src/vme/cjson.c:997-1074 | every document of the grammar within the nesting limit is accepted |
| `Language.StrictIff` | src/vme/cjson.c:997-1074 | the strict parser accepts exactly the documents within the nesting limit, each in one reading |
| `Language.OneReading` | src/vme/cjson.c:1209-1261 | no two texts of the grammar are spelled alike, however deeply they nest |
| `Language.TooDeep` | src/vme/cjson.h:118-122 | a document nested deeper than the limit is rejected |
| `Language.LooseComplete` | src/vme/cjson.c:997-1042 | without the strict option a document may be followed by anything that does not prolong a number, and the parse ends where the document does |
| `Language.LooseIff` | src/vme/cjson.c:997-1042 | without the strict option the parser accepts exactly the texts that start with a document within the nesting limit whose number is not prolonged, in that one reading |
| `Faults.RejectedAt` | src/vme/cjson.c:997-1073 | a text is rejected if and only if it breaks off in one of the listed ways, at a missing or too deep value, inside a string or escape, at a separator, colon, close or end, and the reported position is the one behind what was taken in, clipped to the final NUL |
| `Rendering.RenderIsSpelling` | src/vme/cjson.c:1264-1335 | what the printer writes spells a syntax tree of the grammar, formatted or not, at every depth; its gaps are in the next row |
| `PrintedForm.PrintedGaps` | src/vme/cjson.c:1455-1714 | in every reading of the printed text: formatted, a member stands behind one byte 10 and one byte 9 for each container around it, a colon is followed by one byte 9, a comma between elements by one byte 32, a closing brace stands behind one byte 10 and one byte 9 fewer; unformatted, all gaps are empty |
| `PrintedForm.RenderIsText` | src/vme/cjson.c:1264-1714 | for every value and depth the rendering is the text composed of literal bytes: words, brackets, quoted escaped strings, and elements and members joined by their separators |
| `RoundTrip.LayoutMeans` | src/vme/cjson.c:1432-1491 | that syntax tree is well formed, denotes the printed value and nests as deeply as it |
| `RoundTrip.PrintThenParse` | src/vme/cjson.c:1084-1147 | strict parsing of the printed text gives the value back and stops at the NUL, if and only if the value nests at most 1000 deep |
| `RoundTrip.LayoutIndependence` | src/vme/cjson.c:960-978 | texts with the same tokens and any bytes 1 to 32 between them are accepted together and denote the same |
| `Minification.CarriesSyntax` | src/vme/cjson.c:2626-2694 | over any syntax tree of the grammar minifying removes blanks from gaps only, whatever follows |
| `Minification.MinifyDocument` | src/vme/cjson.c:2626-2694 | minifying a document is stripping its gaps, and no string or comment of it is left open |
| `Minification.MinifyKeepsMeaning` | src/vme/cjson.c:2626-2694 | a minified accepted text is accepted, denotes the same, and minifying it again changes nothing |
| `Minification.PrettyAndCompact` | src/vme/cjson.c:1603-1714 | minifying the formatted print gives the unformatted print byte for byte |
| `MinifiedForm.MinifyIsKeeping` | src/vme/cjson.c:2634-2690 | a string is closed if and only if it divides into blanks (bytes 9, 10, 13, 32), line comments up to a byte 10, block comments, literals and plain bytes, and the minified string is its literals and plain bytes in order |
| `MinifiedForm.MinifiedGaps` | src/vme/cjson.c:2626-2694 | the strict parser reads the same tokens in a minified document, and between them the old gaps without the bytes 9, 10, 13 and 32 |
| `Minifier.MinifyLoop` | src/vme/cjson.c:2634-2690 | for every string: the read cursor passes the NUL if and only if a literal or block comment is open; otherwise in front of the write cursor stands the minified string, and from there on the old text, so nothing is overwritten before it is read |
| `Minifier.MinifyInPlace` | src/vme/cjson.c:2626-2694 | for every string: the NUL is passed if and only if the string does not divide into pieces; otherwise the block holds the literals and plain bytes of every such division and a NUL, and nothing behind that NUL is touched |
| `Minifier.OpenTexts` | src/vme/cjson.c:2648-2685 | a lone quote and an open comment are strings on which the NUL is passed |
| `Nodes.Heap.NewItem` | src/vme/cjson.c:199-208 | a granted request yields a new zeroed item that is live; a refused one changes nothing |
| `Nodes.Delete` | src/vme/cjson.c:211-232 | an item list is freed with everything below it, each block while it is live, and nothing else |
| `Nodes.DeleteOne` | src/vme/cjson.c:214-231 | the same for one item of the list |
| `StringParser.SkipWhitespace` | src/vme/cjson.c:960-978 | the cursor loop with its step back computes `SkipGap` |
| `StringParser.MeasureString` | src/vme/cjson.c:708-731 | the first pass finds the closing quote and counts the skipped backslashes, without reading past the buffer |
| `StringParser.ParseHex4` | src/vme/cjson.c:537-570 | four bytes give the number that they write as hexadecimal digits of either case, or 0 when one of them is no digit |
| `StringParser.ReadUtf16Literal` | src/vme/cjson.c:584-635 | one or two `\u` sequences give a code point, or fail exactly when a surrogate is unpaired |
| `StringParser.Utf8Length` | src/vme/cjson.c:637-667 | the number of bytes the code point takes, with the mark of its first byte |
| `StringParser.WriteUtf8` | src/vme/cjson.c:669-686 | the bytes written are the UTF-8 form of the code point, and read as it by the table of RFC 3629 |
| `StringParser.BitForms` | src/vme/cjson.c:610-686 | the shifts and masks of the sources are the quotients, remainders and sums used here |
| `StringParser.DecodeString` | src/vme/cjson.c:741-796 | the second pass writes the decoded bytes inside its block, or stops at the offending sequence |
| `StringParser.ParseStringInto` | src/vme/cjson.c:695-821 | success if and only if the literal is valid and memory is granted; then one new live block spells the text; otherwise nothing is live that was not |
| `JsonParser.ParseWordInto` | src/vme/cjson.c:1217-1240 | a word is read exactly where it stands; true leaves 1 beside it |
| `JsonParser.CollectNumber` | src/vme/cjson.c:263-306 | the bytes copied for strtod are the window of number bytes at the cursor |
| `JsonParser.ParseNumberInto` | src/vme/cjson.c:263-337 | the item gets what strtod returns for the span, the exact value (`NumberStandard.ValueOfSpelled`) under an arbitrary rounding that keeps plain numbers, with its saturated integer, and the cursor moves behind the span; a failure leaves both |
| `JsonParser.SaturatedTruncates` | src/vme/cjson.c:317-331 | the integer beside a number is the nearest one on the side of zero, and 2147483647 or -2147483648 for numbers out of range |
| `JsonParser.SaturatedKeepsOrder` | src/vme/cjson.c:317-331 | that integer keeps the order of numbers, and every int |
| `JsonParser.ElemsPendingStep` | src/vme/cjson.c:1373-1410 | one turn of the element loop leads to the outcome of the whole list, in value, end and error position |
| `JsonParser.FieldsPendingStep` | src/vme/cjson.c:1527-1582 | one turn of the member loop leads to the outcome of the whole list |
| `JsonParser.ArrayOpens` | src/vme/cjson.c:1343-1371 | the opening of an array: too deep, empty, or a step back in front of the first element |
| `JsonParser.ObjectOpens` | src/vme/cjson.c:1499-1525 | the opening of an object: too deep, empty, or a step back in front of the first member |
| `JsonParser.ParseValueInto` | src/vme/cjson.c:1209-1261 | success if and only if the text has a value within the nesting limit and memory is granted; then the tree denotes it, cursor and depth are right, and the new live blocks are exactly the tree's; otherwise everything is freed and the error position is exact; no call goes deeper than the limit |
| `JsonParser.ParseArrayInto` | src/vme/cjson.c:1338-1429 | the same for arrays |
| `JsonParser.ParseElements` | src/vme/cjson.c:1372-1410 | the loop builds a well-linked list that denotes the elements, or frees all of it |
| `JsonParser.ParseObjectInto` | src/vme/cjson.c:1494-1600 | the same for objects |
| `JsonParser.ParseMembers` | src/vme/cjson.c:1526-1582 | the loop builds a well-linked list that denotes the members, or frees all of it |
| `JsonParser.ParseNameInto` | src/vme/cjson.c:1550-1572 | the name moves from valuestring to string, and stays owned by the item when the colon is missing |
| `JsonParser.SkipBom` | src/vme/cjson.c:981-994 | the byte order mark is skipped exactly when a fifth byte exists |
| `JsonParser.RootIsDeletable` | src/vme/cjson.c:211-232 | a successful parse leaves what cJSON_Delete asks for, so deleting the root frees exactly its tree |
| `JsonParser.ParseDocument` | src/vme/cjson.c:1022-1038 | an item is filled from a whole text and can be deleted whether or not that succeeds |
| `JsonParser.ParseWithOpts` | src/vme/cjson.c:997-1074 | for every text, strictness and pattern of allocation failures: an item exactly for accepted texts, denoting them, with exact end or error position; a failed call leaves the live blocks as they were |
| `Printer.Ensure` | src/vme/cjson.c:370-455 | room is made if and only if the total stays within the limit and memory is granted; a block that grows gets twice the total, or INT_MAX; the text below the offset survives, with the copy of offset + 1 bytes as well; that copy reads a byte that is not there exactly when an empty block grows by hand |
| `Printer.UpdateOffset` | src/vme/cjson.c:458-468 | the offset moves to the terminator of the pending text |
| `Printer.MeasureEscapes` | src/vme/cjson.c:851-875 | the first pass counts the bytes and the extra bytes |
| `Printer.WriteEscapes` | src/vme/cjson.c:894-938 | the loop with two pointers writes exactly the escaped string |
| `Printer.PrintStringPtr` | src/vme/cjson.c:824-943 | the buffer holds the quoted, escaped string behind what was there, exactly when it fits with two bytes to spare |
| `Printer.PrintNumber` | src/vme/cjson.c:471-534 | the same for integers; the offset is already behind them |
| `Printer.PrintRaw` | src/vme/cjson.c:1305-1321 | the same for raw text, copied with its terminator |
| `Printer.RenderElemsStep` | src/vme/cjson.c:1455-1479 | the rest of an array's rendering, one turn of the loop later |
| `Printer.RenderMembersStep` | src/vme/cjson.c:1630-1694 | the rest of an object's rendering, one turn of the loop later |
| `Printer.PrintValue` | src/vme/cjson.c:1264-1335 | the buffer holds the old text and the rendering, depth is restored, other blocks are untouched, and it succeeds if and only if text, terminator and a spare byte fit the limit and memory is granted |
| `Printer.PrintElements` | src/vme/cjson.c:1455-1479 | the loop emits the rendering of all elements, which `PrintedForm.RenderIsText` spells out; no request on the way exceeds the final one |
| `Printer.PrintMembers` | src/vme/cjson.c:1630-1694 | the same for members, each on its line behind its tabs when formatted |
| `Printer.PrintArray` | src/vme/cjson.c:1432-1491 | the rendering of an array |
| `Printer.PrintObject` | src/vme/cjson.c:1603-1714 | the rendering of an object, the closing brace behind one tab fewer |
| `Printer.Print` | src/vme/cjson.c:1084-1157 | a new block with exactly the rendering, in literal bytes, and its NUL, if and only if that has two bytes to spare in an int and memory is granted; otherwise nothing stays live |
| `Printer.PrintBuffered` | src/vme/cjson.c:1159-1187 | the same into a block that keeps its size, for every first size and every hook; a byte of an empty block is read exactly when the first size is 0, there is no realloc hook, and both requests are granted for a value whose first piece fits |
| `Printer.NullCopiesFromNothing` | src/vme/cjson.c:440-449 | printing null with first size 0 and custom hooks reads that byte |
| `Printer.PrintPreallocated` | src/vme/cjson.c:1189-1206 | true if and only if the block has two bytes more than the rendering, and then it holds the same text; no memory is requested |
| `Lists.GetArrayItem` | src/vme/cjson.c:1740-1767 | the item at an index, or none |
| `Lists.GetArraySize` | src/vme/cjson.c:1717-1738 | the length of the list, truncated to an int |
| `Lists.AddItemToArray` | src/vme/cjson.c:1841-1868 | the list becomes the old one with the item at its end |
| `Lists.InsertItemInArray` | src/vme/cjson.c:2138-2165 | the list becomes the old one with the item at the index, or at the end; a missing item is followed exactly when there is an item at the index |
| `Lists.PlacedAt` | src/vme/cjson.c:2138-2165 | an insertion at an index keeps what is in front and moves the rest by one, and past the end it appends |
| `Lists.DetachItemViaPointer` | src/vme/cjson.c:2068-2096 | the list loses the item, which keeps everything below it and no link |
| `Lists.DetachItemFromArray` | src/vme/cjson.c:2098-2106 | the same by index; an index outside the list changes nothing |
| `Lists.DeleteItemFromArray` | src/vme/cjson.c:2108-2111 | the same, and exactly the item's blocks are freed |
| `Lists.ReplaceItemViaPointer` | src/vme/cjson.c:2167-2200 | the replacement takes the item's place and the item's blocks are freed |
| `Lists.ReplaceItemInArray` | src/vme/cjson.c:2202-2210 | the same by index |
| `ListRuns.Perform` | src/vme/cjson.c:2068-2210 | any call keeps the links inverse and the items apart, has the effect of its sequence operation, moves a detached item to those the caller holds, unlinked and whole, takes a brought one from there, leaves one without a place there, and frees exactly what it deletes or replaces |
| `ListRuns.RunCalls` | src/vme/cjson.c:1841-2210 | the same over any run of append, insert, replace, detach and delete at any index, in which detached items may be brought back any number of times |
| `ListRuns.RunConserves` | src/vme/cjson.c:1841-2210 | over any run the items of the list, of the caller and of those freed are together the same as before, each as often |
| `ListRuns.DetachThenInsert` | src/vme/cjson.c:2098-2165 | detaching an item and inserting it at its index restores the list and what the caller holds |
| `ListRuns.InsertThenDetach` | src/vme/cjson.c:2098-2165 | inserting an item and detaching it at its place restores the list, and the caller holds the same items |
| `ObjectEdits.AddItemToObject` | src/vme/cjson.c:1892-1932 | the object gets a last member of the copied name, also beside one of that name; the item's old name is freed; a refused copy changes nothing |
| `ObjectEdits.DetachItemFromObject` | src/vme/cjson.c:2113-2125 | the first member whose name matches comes out, the others keep their order |
| `ObjectEdits.DeleteItemFromObject` | src/vme/cjson.c:2127-2135 | the same, and exactly the member's blocks are freed |
| `ObjectEdits.ReplaceItemInObject` | src/vme/cjson.c:2212-2240 | the first member of the name is replaced and freed; success is reported without one, too; the object keeps a name for every member if and only if the copy of the name was granted; the name is copied from a freed block if and only if it is the replacement's own name block |
| `ObjectEdits.ReplaceUnderOwnName` | src/vme/cjson.c:2220-2226 | passing the replacement's own name is such a call |
| `Copies.StrDup` | src/vme/cjson.c:146-165 | a granted copy is a new block with the same C string |
| `Copies.CopyItem` | src/vme/cjson.c:2559-2584 | a new item with the same fields and copied strings, deletable at every point where it can fail |
| `Copies.Duplicate` | src/vme/cjson.c:2547-2624 | an all-new tree like the original if and only if memory is granted; a failure frees all partial work; only allocator state is written |
| `Copies.CopyChildren` | src/vme/cjson.c:2590-2614 | the copied children are linked both ways below the copy, also when the loop stops halfway |
| `Copies.AlikeMeans` | src/vme/cjson.c:2547-2624 | a tree like another denotes the same value |
| `Comparison.FoldAlike` | src/vme/cjson.c:94-115 | without regard to case two names are one if and only if they have the same length and at each index the same byte, or a letter 65 to 90 and that byte plus 32; with regard to case if and only if they are equal |
| `Comparison.FirstLikeIs` | src/vme/cjson.c:1769-1795 | a search yields the first member of the same name in that sense, or none |
| `Comparison.CompareByName` | src/vme/cjson.c:2878-2911 | objects are equal if and only if every member of either equals the first member of its name in the other |
| `Comparison.CompareIff` | src/vme/cjson.c:2796-2919 | on all values: equal if and only if both denote the same, objects read as finite maps from folded names, and neither has like-named members that differ |
| `Comparison.CompareOnDistinct` | src/vme/cjson.c:2854-2914 | with distinct names comparison is equality of denotations, so member order is ignored |
| `Comparison.CompareSymmetric` | src/vme/cjson.c:2854-2914 | comparison is symmetric on all values |
| `Comparison.CompareTransitive` | src/vme/cjson.c:2854-2914 | comparison is transitive on all values |
| `Comparison.CompareCopy` | src/vme/cjson.c:2796-2919 | a value compares equal to its copy exactly when it has no like-named members that differ |
| `Comparison.ContradictionEqualsNothing` | src/vme/cjson.c:1769-1795 | an object with like-named members that differ compares equal to nothing |
| `Comparison.CopyMayDiffer` | src/vme/cjson.c:2878-2896 | the smallest object that does not compare equal to its copy |
| `ItemComparison.StrCmp` | src/vme/cjson.c:2841-2852 | zero exactly for equal C strings |
| `ItemComparison.CaseInsensitiveStrcmp` | src/vme/cjson.c:94-115 | zero exactly when both strings are there and the same up to the case of the letters A to Z |
| `ItemComparison.GetObjectItem` | src/vme/cjson.c:1769-1795 | the first child whose name is the same, exactly or up to the case of letters, or none; the search without regard to case passes over children without a name, and the other hands a missing name to strcmp if and only if one stands in front of the first match |
| `ItemComparison.NamelessFirst` | src/vme/cjson.c:1769-1795 | a list whose first child has no name is one where the search with regard to case does that |
| `ItemComparison.GetMember` | src/vme/cjson.c:1769-1795 | among children that all have names it finds the first match |
| `ItemComparison.CompareItems` | src/vme/cjson.c:2796-2919 | true for one item, and for two items, also when one lies below the other, exactly when their values compare equal; the argument-swapping recursion ends |
| `ItemComparison.CompareElements` | src/vme/cjson.c:2854-2876 | the pairwise loop decides the comparison of arrays |
| `ItemComparison.CompareMembers` | src/vme/cjson.c:2878-2911 | one loop decides whether every member has an equal partner |
| `Engine.PrintedBlockParses` | src/vme/cjson.c:997-1157 | the strict parser accepts a printed block up to the nesting limit and reads the value back |
| `Engine.CopyComparesEqual` | src/vme/cjson.c:2547-2919 | a recursive copy denotes the same and compares equal when names are distinct |
| `Engine.PrintParseCompare` | src/vme/cjson.c:997-2919 | printing, parsing, comparing and deleting go through exactly within the limits and leave the live blocks as they were |
| `VmeBuffer.EnsureSize` | src/vme/buf.c:31-55 | the block has at least 64 bytes and what is asked for, and shrinks exactly from a megabyte or more to a kilobyte or less; the live bytes survive unless that cuts them, and the condition for it is stated |
| `VmeBuffer.CutLiveBytes` | src/vme/buf.c:31-55 | a request for nothing cuts 100 live bytes in a block of a megabyte |
| `VmeBuffer.EnsureIncrSize` | src/vme/buf.c:17-22 | asking for more than the live bytes never cuts them |
| `VmeBuffer.VmeBuf.Push` | src/vme/buf.c:57-64 | the contents grow by one byte, in a block for 64 bytes more than the old contents |
| `VmeBuffer.VmeBuf.Concat` | src/vme/buf.c:66-76 | the contents grow by the source bytes, in a block for one and a half times as many |
| `VmeBuffer.VmeBuf.ToStr` | src/vme/buf.c:78-89 | a new block with the contents and a NUL |
| `VmeBuffer.SinceLastTruncate` | src/vme/buf.c:24-29 | a run ends with everything added since its last truncation |
| `VmeBuffer.Run` | src/vme/buf.c:17-89 | any run of operations, the shrinking branch included, refines the byte sequence and keeps the buffer valid |

## What a caller may not expect

- `src/vme/cjson.h:143-145` advises five spare bytes for a preallocated buffer; two are necessary and sufficient.
- `cJSON_Compare` is documented as recursive equality, but a structural copy of an object with like-named members that
  differ compares unequal; `Comparison.CompareCopy` gives the exact condition.
- `cJSON_ReplaceItemInObject` stores a member without a name when the copy of the name is refused, and leaves the
  replacement with the caller when no member has the name; `ObjectEdits.ReplaceItemInObject` gives the exact conditions.
- `cJSON_ReplaceItemInObject(object, item->string, item)` frees the name before it copies it;
  `ObjectEdits.ReplaceItemInObject` shows that no other name does this.
- `cJSON_PrintBuffered(item, 0, fmt)` without a realloc hook copies one byte out of an empty block; the text is right all
  the same. `Printer.PrintBuffered` gives the exact condition.
- `cJSON_Minify` steps over the NUL of a text whose last literal or block comment is open; `Minifier.MinifyInPlace`
  shows that it does so on no other text.
- `cJSON_GetObjectItemCaseSensitive` hands a missing name to `strcmp` when a child without a name stands in front of the
  first match, which is what a refused copy in `cJSON_ReplaceItemInObject` leaves behind; the search without regard to
  case passes over such a child.
- `cJSON_InsertItemInArray` follows a missing new item when there is an item at the index.
- `cJSON_Minify` takes a slash, a star and a slash for a whole comment: the star that opens it may end it.
- The position reported for an open string is behind its first quote, for a missing quote behind the byte in its place,
  and for a bad escape at its backslash; `Faults.RejectedAt` lists all cases.
- `vmebuf_ensure_size` can cut live bytes when asked for less than it holds; its callers never do, and
  `VmeBuffer.CutLiveBytes` is such a call.

## Left out

- Numbers.Rounded: which double `strtod` yields is not modelled, because strtod is not part of the sources; its result is an arbitrary rounding, and infinity is a number like any other. The span it takes is modelled byte by byte.
- Printer.PrintNumber: covers integers below 10^15 in size; other doubles, negative zero, NaN and infinity go through library formatting.
- The integer form `valueint` beside a number: `JsonParser.ParseNumberInto` states it, the denotation of an item does not mention it.
- ItemComparison.CompareItems: objects whose members all have names, as every parsed object has; `ItemComparison.GetObjectItem` covers the others.
- Comparison.Lower: `tolower` in the C locale.
- Items marked as references or with constant names (`cJSON_IsReference`, `cJSON_StringIsConst`): they share blocks on purpose, which ownership excludes.
- Items whose type and fields disagree, such as a string item without text; printing a missing string is covered by `Printer.PrintStringPtr`.
- Raw items in round trips: raw text can be anything. They are printed, copied and compared here.
- Wrap-around of `size_t`: texts are shorter than the address space.
- The `cJSON_Create*`, `cJSON_Is*` and `cJSON_Add*ToObject` functions, `cJSON_InitHooks`, `cJSON_Version` and the locale's decimal point: wrappers around one allocation, one test or a run of appends.
- The global error record: its position is an out-parameter of the parser.
- `realloc` never returns the same block here; that only makes stale pointers easier to catch.
- VmeBuffer.VmeBuf.Concat: takes its source by value, so a source inside the buffer itself, which a reallocation would free, is not modelled.
- Failing `malloc` in `buf.c`: its asserts rule it out.
- `src/vme/vantiq_client.c`, `src/vme/vme.c`, `src/vme/config.c`, `src/vme/utils.c`, `src/vme/log.c`, `src/vipo` and `src/vmeTest`: network, files, logging and integration programs.
