# Verification of the JSON library and the UART link

This project models two parts of the firmware and proves what they are for.

**The JSON library (`tool/cJSON.c`).** `Json`, `Numbers`, `Unicode`, `StringLiteral`, `Parsing`,
`Printing` and `Minify` say what the texts are: the grammar the parser accepts with its exact
treatment of escapes and left-over text, the two printed forms, the minified form. `Grammar` is
JSON as RFC 8259 has it, written down on its own with every byte spelled out: syntax trees, their
text, their meaning, with comments if wanted. `GrammarParse` and `GrammarReject` say what the
parser accepts and refuses in its terms, `GrammarPrint` which of its texts are printed,
`GrammarMinify` what minifying does to them, and `MinifyClean` what it does to any text. `RoundTrip`,
`MinifyMeaning` and `MinifyPrinted` relate them: parsing undoes printing, minifying keeps the
meaning, minifying either printed form gives the unformatted one. On top of that the code itself
is modelled on arrays and nodes: `Tree` names the nodes of an item with its children (a
first-child/next-sibling tree) and their value; `Parser`, `Chains` and `TreeParser` read
C strings into linked items; `CStrings` and `Printer` are the printer that sizes, allocates and
composes; `Growth` and `BufferedPrinter` the one that writes into a growing buffer; `Lifetime`
deletes, duplicates and parses whole documents, `Blocks` keeps the allocator's account of items,
`TextMemory` that of printed texts; `Passes` compares the two passes over a literal;
`ChildList` edits child lists; `Documents` prints and parses again. Both printers
return the same specified text, so the second refines the first.

**The UART link (`uart/uart_communicat.c`, `uart/uart_protocol.c`, `tool/list.c`,
`tool/buf_factory.c`).** `Frame` lays out, builds and checks frames; `Receiver` is the
byte-at-a-time receiver with its static variables. `LinkModel` is the send side as a transition
system over buffer numbers, `Runs` its runs, `Requests` the life of a request in them, `ScanModel`
a whole scan of the send list. `List` is the intrusive circular list, and `Link` puts everything on the
heap: buffers, their two list nodes, the pool, the send list and the mailbox; each of its methods
is one step of the transition system, or a few. `ReceiveTask` joins receiver and send side.

`Bytes` and `Sequences` hold what both parts share.

## How to read it

A text is a `seq<byte>`; a C string in memory is an `array<byte>` that `HoldsAt` an index. A tree
on the heap is given by a ghost `Shape` naming its nodes; `Follows` says that the child and next
pointers visit exactly these, `Chain` that they are also cross-linked, distinct and own what hangs
below them. `Snap` is what the nodes hold, `ValueOf` the JSON value that is. A ring is given by
the sequence of its nodes. `Blocks.Memory.live` is what has been allocated and not freed.
`Link.System.Valid` ties the heap to the ghost state `s`; the invariant over all runs is
`LinkModel.Inv`, and with zero blocks at first also `LinkModel.Clean`.

The steps of the link are guarded as the scheduling makes them: one visit of the scan to an entry
(posting and unlinking included) is one step; the send task, which has the highest priority
(uart/uart_communicat.c:284-286), empties the mailbox before the poll task or the receive task go
on; builders and acknowledgements wait for the mutex; an acknowledgement finds a request that has
been posted since it was enqueued. `AckGuardExact` shows that the two guards on acknowledgements
are exactly what is needed.

## What the code does not do

- The copy of an item with a constant name keeps the flag although the name was duplicated, so
  that name is never freed (tool/cJSON.c:719-721): `CopyIsReleased` gives the exact condition,
  `ConstNameLeak` the least example.
- An acknowledgement that reaches a request before its first posting, or while a posting is still
  in the mailbox, makes the pool hand out a buffer that is still in use: `AckGuardExact`, and
  `NeverSentReachable` and `PendingReachable` for runs that get there.
- The pool memory comes from `malloc` and is not cleared by `create_buf_factory`
  (tool/buf_factory.c:41). A block that happens to hold a set flag and a zero counter of sendings,
  or the greatest counter and no flag, can make its buffer be recycled while it is listed; by
  `ConservationExact` no other content does. The counts of `RunConserves` and `RequestLife` are for
  blocks that start out zero, which every recycling re-establishes.
- The passes of `parse_string` may part at a `\u` with a quote or backslash among its four bytes:
  `PassesExact` says exactly when.
- `uart_send_info_t` has room for 128 payload bytes, but a frame with more than 124 is refused by
  a receiver of the same kind (uart/uart_communicat.h:15, where the limit is `128+1` on the
  length field plus one): `FitsUpTo124`.
- `cJSON_Minify` takes `/*/` for a complete comment (tool/cJSON.c:747), and two slashes it brings
  together become a comment: `BlockDroppedIff`, `CleanIff`.
- A text cannot show names that elements of an array may carry: `ItemRoundTrip`.
- The test for a length of zero (uart/uart_communicat.c:107-113) can never succeed, because one
  has just been added.

## Model

| member | source | states |
|---|---|---|
| `RoundTrip.PrintParse` | tool/cJSON.c:359-371 | For every printable value, formatted or not, parsing the printed text gives the value back and leaves nothing over, with and without the null-termination requirement. |
| `RoundTrip.ValueRoundTrip` | tool/cJSON.c:374-433 | The same in any context: a value printed at any depth and followed by any text that cannot extend a number parses to the value, and the parser stops exactly at the following text. |
| `RoundTrip.PrintInjective` | tool/cJSON.c:374-405 | Two printable values with the same text are equal: nesting, order, duplicate and empty keys and every byte of a string can be read off the text. |
| `GrammarPrint.PrintedDenotes` | tool/cJSON.c:374-405 | Every printed text, at every depth and in both formats, is a JSON text of RFC 8259, written down byte by byte in Grammar, and stands for the printed value. |
| `GrammarPrint.LayoutWritten` | tool/cJSON.c:374-405 | And it is this text, byte for byte: a space behind the comma between elements; each member on its own line behind as many tabs as it is deep, a tab behind the colon, the closing brace on a line with one tab less; or no blank at all. |
| `GrammarPrint.CharLaid` | tool/cJSON.c:286-303 | Quote, backslash and the five control bytes with a letter are escaped by a backslash and that letter, the other control bytes by \u00 and two lower-case digits; every other byte is written as it is. |
| `GrammarPrint.NumberLaid` | tool/cJSON.c:159-164 | An integer is written as its decimal digits without leading zeros, behind a minus if it is negative. |
| `GrammarParse.Accepted` | tool/cJSON.c:325-371 | Every JSON text of RFC 8259 without \u0000 and unpaired surrogates is accepted, with the value it stands for and with nothing left over. |
| `GrammarParse.ValueRead` | tool/cJSON.c:359-371 | The same for every value in front of any text that cannot extend a number, with the text left over. |
| `GrammarParse.NumeralRead` | tool/cJSON.c:98-117 | A numeral of section 6 of RFC 8259 is read as all its digits without the dot, times ten to the power of its exponent less the length of its fraction. |
| `GrammarParse.CharRead` | tool/cJSON.c:207-243 | A character of section 7 of RFC 8259, raw, as an escaped letter, or as one or two \u escapes in any case, is decoded to its bytes. |
| `GrammarPrint.OneMeaning` | tool/cJSON.c:325-371 | No text of the grammar stands for two values. |
| `GrammarParse.TrailingRejected` | tool/cJSON.c:336 | If null termination is required, a JSON text with anything visible behind it is refused. |
| `GrammarReject.TextRefused` | tool/cJSON.c:362-370 | A text that does not start with a quote, a minus, a digit, an opening bracket or brace, or one of the three words is refused. |
| `GrammarReject.ArrayUnfinished` | tool/cJSON.c:422-432 | An array whose elements are followed by neither comma nor bracket is refused. |
| `GrammarReject.ArrayTrailingComma` | tool/cJSON.c:422-428 | So is one with a comma that no value follows. |
| `GrammarReject.ObjectUnfinished` | tool/cJSON.c:534-548 | An object whose members are followed by neither comma nor brace is refused. |
| `GrammarReject.ObjectTrailingComma` | tool/cJSON.c:534-540 | So is one with a comma that no key follows. |
| `GrammarReject.KeyMissing` | tool/cJSON.c:527 | And one whose first key is no string. |
| `GrammarReject.ColonMissing` | tool/cJSON.c:530 | And one whose key no colon follows. |
| `GrammarReject.MemberValueMissing` | tool/cJSON.c:531 | And one whose colon no value follows. |
| `GrammarReject.ControlsSkipped` | tool/cJSON.c:322 | Any bytes from 1 to 32 in front of a text change nothing. |
| `Documents.ItemRoundTrip` | tool/cJSON.c:325-405 | For everything the printers accept, parsing the printed text gives the value without the names of array elements, and so the very value if and only if there are none. |
| `Documents.ItemIsJson` | tool/cJSON.c:374-405 | For everything the printers accept, the printed text is a JSON text that stands for that value. |
| `Documents.NameLost` | tool/cJSON.c:374-405 | The least example where it does not: an array of one named null. |
| `Documents.PrintAndParse` | tool/cJSON.c:325-345 | The same on the heap: the text printed from one tree is parsed into a fresh tree with that value, which the printers accept again: its numbers are C ints held alike in both fields. |
| `Documents.HeldReady` | tool/cJSON.c:114 | Any parsed tree whose numbers are C ints has valueint equal to valuedouble, a name on every member and a text in every string. |
| `Printing.ValueNulFree` | tool/cJSON.c:374-405 | The printed text of any value has no terminator inside, so it is one C string. |
| `Numbers.NumberRoundTrip` | tool/cJSON.c:98-117 | Every integer printed with %d parses back to itself and the parser stops at the first byte behind it. |
| `Numbers.NumberLocal` | tool/cJSON.c:98-117 | A text that cannot extend a number does not change how the number in front of it is read, whether or not the number has a fraction and an exponent. |
| `Numbers.IntLength` | tool/cJSON.c:159-164 | The text of a C int has at most 11 bytes, so it fits the 21 that are allocated. |
| `StringLiteral.PassesAgree` | tool/cJSON.c:199-247 | For every literal whose escapes are complete, hex digits or not, both passes stop at the same closing quote, and the count of the first is at least the number of bytes the second writes. |
| `Passes.PassesExact` | tool/cJSON.c:199-245 | On any text at all, the two passes stop at the same quote, or both at the end, if and only if one scan over it says so: at the first quote where either would stop, both would. |
| `Passes.QuoteInUnit` | tool/cJSON.c:219 | They part, for example, on a \u followed by a quote: the first pass stops there, the second skips it. |
| `Passes.DecodeIsStop` | tool/cJSON.c:205-245 | Wherever the decoding of the model is defined, it stops where the pass does, and the passes meet. |
| `Passes.CountIsStop` | tool/cJSON.c:199 | The counting of the model stops, or runs past the end, exactly where the first pass does. |
| `StringLiteral.CountTurn` | tool/cJSON.c:199-245 | One turn of the decoding loop moves the counting pass over exactly the same bytes, and counts at least what the turn writes, dropped surrogates and \u0000 included. |
| `StringLiteral.DecodedNulFree` | tool/cJSON.c:205-246 | A decoded string has no NUL inside: \u0000 is dropped, so the string ends where its terminator is written. |
| `StringLiteral.EscapeDecodes` | tool/cJSON.c:218-240 | Every scalar value from U+0001 to U+10FFFF, spelled as \u and four hex digits, most significant first, or as two such units for a surrogate pair, each digit in either case, is decoded to UTF-8 bytes that decode to that value and are the shortest that do, and decoding goes on behind the escape. |
| `StringLiteral.OtherStandsForItself` | tool/cJSON.c:210-241 | A backslash in front of any byte but b, f, n, r, t and u stands for that byte: quote, backslash, slash, and every unknown letter. |
| `StringLiteral.LoneSurrogateDropped` | tool/cJSON.c:221-225 | \u0000, a low surrogate, and a high surrogate that no \u follows contribute nothing to the decoded string. |
| `StringLiteral.NoDigitsDropped` | tool/cJSON.c:219-221 | Neither does \u with four bytes that are not all hex digits: it is skipped with them. |
| `StringLiteral.BrokenPairDropped` | tool/cJSON.c:226-227 | A high surrogate followed by a unit that is not a low surrogate is dropped together with that unit, even if the unit alone stands for a character. |
| `StringLiteral.EscapeRoundTrip` | tool/cJSON.c:254-309 | Any NUL-free byte string, escaped and quoted, decodes to itself, and decoding stops behind its closing quote whatever follows. |
| `Unicode.Utf8RoundTrip` | tool/cJSON.c:231-239 | Reading the written bytes as UTF-8 (section 3 of RFC 3629) gives the code point back. |
| `Unicode.Utf8Shortest` | tool/cJSON.c:231 | No shorter byte sequence stands for the same code point. |
| `Unicode.CombineSplit` | tool/cJSON.c:228 | Joining the two halves of a surrogate pair (section 2.2 of RFC 2781) gives the code point that was split. |
| `Unicode.TailBits` | tool/cJSON.c:234-236 | The bit operations that make a continuation byte are the arithmetic used in the model. |
| `Unicode.LeadBits` | tool/cJSON.c:237 | The bit operations that make a lead byte are the arithmetic used in the model. |
| `Unicode.CombineBits` | tool/cJSON.c:228 | The bit operations that join surrogates are the arithmetic used in the model. |
| `Parser.ParseHex4` | tool/cJSON.c:179-190 | Four hex digits in either case are read as their value, and four bytes that are not all digits as zero. |
| `StringLiteral.SpelledUnit` | tool/cJSON.c:179-190 | That value is the number whose digits the tables 0-9a-f and 0-9A-F spell. |
| `Parser.ReadUnits` | tool/cJSON.c:218-229 | One or two \u units are read into the code point whose UTF-8 form the specification writes, 0 standing for none. |
| `Parser.WriteUtf8` | tool/cJSON.c:231-239 | The backwards writing loop leaves the UTF-8 bytes behind the existing output and touches nothing in front of it. |
| `Parser.DecodeInto` | tool/cJSON.c:207-243 | One turn of the decoding loop appends what the specification says and moves on by as much. |
| `Parser.CountLiteral` | tool/cJSON.c:199 | The counting loop computes the count that PassesAgree compares. |
| `Parser.ParseStringItem` | tool/cJSON.c:194-251 | parse_string on a real text: the allocated block suffices, the item gets the decoded text, and the position behind the closing quote is returned. |
| `Parser.ParseNumberItem` | tool/cJSON.c:98-117 | parse_number on a real text: the item gets the exact decimal value (NumeralRead says which) and the int nearest to it towards zero, and the position behind the numeral is returned. |
| `Parser.Truncate` | tool/cJSON.c:114 | The conversion to int rounds towards zero: it differs from the number by less than one, and never has the opposite sign or the greater magnitude. |
| `Parser.SkipAt` | tool/cJSON.c:322 | The returned position is the first byte above 32, or the end. |
| `TreeParser.ParseValueItem` | tool/cJSON.c:359-371 | parse_value builds, from fresh nodes, a doubly linked tree whose value is the one the grammar gives, returns the position behind it, and fails exactly where the grammar does. Every number has both fields alike up to truncation, every string its text, true the number one. |
| `TreeParser.ParseArrayItem` | tool/cJSON.c:408-433 | The same for parse_array: every chain of items is cross-linked, with open ends, and no node occurs twice. |
| `TreeParser.ParseObjectItem` | tool/cJSON.c:516-549 | The same for parse_object: keys go to the name field, values to their own items; by MembersRead these are the keys and values of the members of RFC 8259, in order. |
| `GrammarParse.MembersRead` | tool/cJSON.c:516-549 | Members of the grammar are read with their keys and values, in order, up to the closing brace. |
| `GrammarParse.ElementsRead` | tool/cJSON.c:408-433 | Elements of the grammar are read in order, up to the closing bracket. |
| `TreeParser.ParseChildren` | tool/cJSON.c:417-431 | The loop that links items one by one yields the items of the list in the order of the text. |
| `TreeParser.ItemsByHead` | tool/cJSON.c:417-431 | The recursive grammar for lists is what the loop does: one item, then a comma or the closing bracket. |
| `Chains.LinkAfter` | tool/cJSON.c:425-426 | Linking a new item behind the last one keeps the chain cross-linked and changes neither the items before it nor what hangs below them. |
| `Lifetime.ParseWithOpts` | tool/cJSON.c:325-339 | A result comes back exactly when the text is in the grammar (and, if required, nothing but blanks follows); it is the parsed tree, and its nodes and strings are all that has been allocated and not freed; after a rejection every node and string made on the way has been freed. |
| `Blocks.NewItem` | tool/cJSON.c:75-81 | A zeroed node that did not exist before, and one block more on the allocator's account. |
| `Printer.PrintValueItem` | tool/cJSON.c:374-405 | print_value without a buffer returns a fresh C string that is the text of the tree, at every depth and in both formats, and it is the only text left allocated. |
| `Printer.PrintArrayItem` | tool/cJSON.c:471-511 | print_array: size, allocate and compose; the composed text is the specified one, every write is inside the allocated block, and the texts of the elements have been freed, each once. |
| `Printer.PrintObjectItem` | tool/cJSON.c:610-658 | print_object: the same, with keys, tabs and line breaks; the texts of names and values have been freed. |
| `Printer.ComposeElems` | tool/cJSON.c:501-508 | The composing loop writes the joined texts; with the terminators written in between it stays inside the block that the sizing loop asked for. |
| `Printer.ComposeMembers` | tool/cJSON.c:643-654 | The same for objects: names, separators and indentation included. |
| `Printer.JoinElemsIsPrint` | tool/cJSON.c:471-511 | Joining separately printed elements is the recursive text of the list. |
| `Printer.JoinMembersIsPrint` | tool/cJSON.c:610-658 | Joining separately printed keys and values is the recursive text of the members. |
| `Printer.PrintStringPtr` | tool/cJSON.c:254-309 | The allocated block is exactly one byte longer than the escaped literal, which it holds. |
| `Printer.PrintNumberItem` | tool/cJSON.c:149-177 | The 2 or 21 allocated bytes hold the text of the number. |
| `CStrings.NeedsEscaping` | tool/cJSON.c:258 | The flag is set if and only if some byte needs an escape, and without it the string is its own escaped form. |
| `CStrings.LiteralSize` | tool/cJSON.c:280 | The sizing loop counts exactly the bytes of the escaped string. |
| `CStrings.EscapeInto` | tool/cJSON.c:290-304 | The escape of one byte is appended and nothing in front of it changes; the terminator of sprintf is inside the block too. |
| `CStrings.LiteralInto` | tool/cJSON.c:265-308 | Both ways of writing a literal, copied or escaped, leave the quoted string and its terminator. |
| `CStrings.Strlen` | tool/cJSON.c:140-146 | The length of a C string is found by walking to its terminator. |
| `Tree.CountEntries` | tool/cJSON.c:445 | The counting loop counts the items of the list, and finds none exactly when the list is empty. |
| `BufferedPrinter.PrintBuffered` | tool/cJSON.c:347-355 | For every tree, format and initial size the returned buffer holds the very text of the unbuffered printer and is the only one left allocated; its size is the initial one or less than twice the largest request; and by the record of its capacities all growths together copied fewer bytes than the initial and the final capacity. |
| `BufferedPrinter.PrintValueB` | tool/cJSON.c:378-390 | Printing into the buffer appends the text of the value to what was counted, perhaps with its end not yet counted, and requests at most a constant more than the text. |
| `BufferedPrinter.PrintArrayB` | tool/cJSON.c:455-470 | The buffered array printer appends the same text as the unbuffered one. |
| `BufferedPrinter.PrintObjectB` | tool/cJSON.c:572-609 | The buffered object printer appends the same text as the unbuffered one. |
| `BufferedPrinter.PrintStringB` | tool/cJSON.c:254-309 | The literal is written behind the counted text; the count is left to the caller. |
| `BufferedPrinter.PrintBuffer.Ensure` | tool/cJSON.c:123-138 | There is room for the request and what was counted is kept; if it did not fit, the new capacity is the least power of two for it and is added to the record of capacities, and the old buffer is freed; otherwise nothing changes. |
| `BufferedPrinter.PrintBuffer.Update` | tool/cJSON.c:140-146 | After update the offset is the length of the text emitted so far, uncounted closing brackets included. |
| `BufferedPrinter.GrowthSum` | tool/cJSON.c:130-137 | Over any record of capacities, an initial one and then ever larger powers of two, copying each capacity that is left costs less than the first and the last together. |
| `Growth.Pow2gt` | tool/cJSON.c:119 | pow2gt(x) is the least power of two that is at least x, and less than 2x, for 1 <= x <= 2^30. |
| `Growth.Smear` | tool/cJSON.c:119 | One shift-and-or step doubles the run of ones at the top and keeps the number of bits. |
| `Growth.LeastFromBits` | tool/cJSON.c:119 | The least power of two not below x is determined by the bits of x - 1. |
| `MinifyMeaning.MinifyKeepsValue` | tool/cJSON.c:737-752 | Every accepted text whose literals are closed parses to the same value after minifying. |
| `MinifyMeaning.ValueMinified` | tool/cJSON.c:737-752 | Minifying a value and the text behind it: the value is the same, and what is left over is the minified left-over. |
| `MinifyMeaning.StringMinified` | tool/cJSON.c:748 | A string literal keeps its text and its extent under minifying, and what follows it is minified on its own. |
| `MinifyMeaning.NumberMinified` | tool/cJSON.c:749 | A number keeps its value: dropping blanks does not join it with what follows. |
| `MinifyMeaning.SkipMinified` | tool/cJSON.c:742-745 | Skipping blanks and minifying commute. |
| `MinifyPrinted.MinifyPrintedText` | tool/cJSON.c:737-752 | Minifying either printed form of any value, objects inside objects and escaped strings included, gives the unformatted text byte for byte. |
| `MinifyPrinted.LeavesValue` | tool/cJSON.c:737-752 | The same in any context: between any two texts, whatever the depths. |
| `Minify.MinifyInPlace` | tool/cJSON.c:737-752 | The in-place loop leaves the minified text in the front of its own input, never writing ahead of what it still has to read, and leaves everything behind the old terminator alone. |
| `Minify.CopyLiteral` | tool/cJSON.c:748 | The inner loop copies a literal with its escapes down over bytes that were read already and keeps the rest of the input. |
| `Minify.MinifiedNulFree` | tool/cJSON.c:737-752 | Minifying never lengthens a text and brings no terminator into it. |
| `GrammarMinify.DocumentMinified` | tool/cJSON.c:737-752 | JSON with blanks, line comments and block comments between any of its tokens is minified to its tokens, byte for byte; the result is JSON without comments for the same value, and is accepted with it. |
| `GrammarMinify.GapsDoNotMatter` | tool/cJSON.c:737-752 | So two texts with the same tokens are minified to the same text: what is inserted between tokens changes nothing. |
| `GrammarMinify.DocumentClean` | tool/cJSON.c:737-752 | And no blank and no comment is left outside its literals. |
| `GrammarMinify.BlockDroppedIff` | tool/cJSON.c:747 | A block comment is dropped as a whole if and only if its text does not start with a slash: to the code /*/ is a complete comment. |
| `MinifyClean.CleanIff` | tool/cJSON.c:737-752 | For any text at all: the result has neither blank nor comment outside literals, if and only if no slash that starts no comment comes to stand in front of a slash or a star. |
| `MinifyClean.FixedIffClean` | tool/cJSON.c:737-752 | Minifying leaves a text as it is if and only if it has neither blank nor comment outside its literals. |
| `MinifyClean.TwiceIsOnceIff` | tool/cJSON.c:737-752 | So minifying twice is minifying once, with the same exception. |
| `MinifyClean.SlashesMeet` | tool/cJSON.c:737-752 | The least example of it: two slashes with a blank between them. |
| `Documents.MinifyAndParse` | tool/cJSON.c:737-752 | On the heap: after minifying in place, JSON with comments is parsed into a fresh tree with its value. |
| `Lifetime.Duplicate` | tool/cJSON.c:710-735 | The copy is made of fresh nodes, has open ends, is cross-linked on every level, and equals the source with the reference flag cleared; without recurse it has no children. What has been allocated is exactly its nodes and their strings. The source is not modified. |
| `Lifetime.UnreferencedValue` | tool/cJSON.c:719 | Clearing the reference flags does not change the value of a tree. |
| `Lifetime.CopyIsReleased` | tool/cJSON.c:710-735 | Deleting a copy is always possible, and leaves allocated just what was before copying if and only if no item of the source has a constant name: the flag is copied, but so is the name, which is then never freed. |
| `Lifetime.ConstNameLeak` | tool/cJSON.c:719-721 | The least example of a leak: one item with a constant name, copied and deleted, leaves one block behind. |
| `Lifetime.OwnedOfAllocated` | tool/cJSON.c:88-91 | Without references, what cJSON_Delete releases is every block except the names flagged constant. |
| `Lifetime.Delete` | tool/cJSON.c:83-95 | Each node of the tree and each string it owns is freed exactly once and nothing else; children of references and constant names are left alone. |
| `ChildList.AddItemToArray` | tool/cJSON.c:673 | Appends the item to the sequence of children; a null item changes nothing. |
| `ChildList.DetachItemFromArray` | tool/cJSON.c:679-680 | Takes the item out of the sequence and returns it with open ends; out of range, it returns null and changes nothing; a negative index counts as the first. |
| `ChildList.InsertItemInArray` | tool/cJSON.c:686-687 | Inserts in front of the item at the index; past the end, appends. |
| `ChildList.ReplaceItemInArray` | tool/cJSON.c:688-690 | Puts the item in the place of the old one, which is released with all that it owns; out of range, nothing changes. |
| `ChildList.GetArraySize` | tool/cJSON.c:663 | The number of children. |
| `ChildList.GetArrayItem` | tool/cJSON.c:664 | The child at the index, the first for a negative one, null past the end. |
| `Sequences.InsertUndoesRemove` | tool/cJSON.c:679-687 | Detaching an item and inserting it where it was restores the order. |
| `Sequences.RemoveUndoesInsert` | tool/cJSON.c:679-687 | Inserting an item and detaching it again restores the order. |
| `ChildList.RowFollows` | tool/cJSON.c:679-690 | After any of these edits the children with all that hangs below them are again a tree that can be printed and copied. |
| `ChildList.RowReaches` | tool/cJSON.c:679-690 | And deleted: cJSON_Delete reaches every node of it once. |
| `ChildList.DetachAndInsert` | tool/cJSON.c:679-687 | On the heap, detaching an item and inserting it at the same index restores the list. |
| `ChildList.ChainIsRow` | tool/cJSON.c:408-433 | The chains built by the parser and by cJSON_Duplicate are rows that these edits accept. |
| `List.ListAddTail` | tool/list.c:25-28 | The ring with the entry at its end; both directions stay consistent. |
| `List.ListAdd` | tool/list.c:20-23 | The ring with the entry at its front. |
| `List.AddBetween` | tool/list.c:12-18 | Inserting between two neighbours gives the ring with the entry between them. |
| `List.ListDel` | tool/list.c:30-41 | The ring without the entry, whose own pointers become null. |
| `List.ListEmpty` | tool/list.c:43-46 | True exactly for the empty ring. |
| `List.InitListHead` | tool/list.c:5-10 | A head on its own is the empty ring. |
| `Frame.BuiltAccepted` | uart/uart_protocol.c:428-459 | A frame as laid out by the builders is complete and accepted by the check, and its sequence number, product type, command and payload can be read back. |
| `Frame.AcceptedIffBuilt` | uart/uart_protocol.c:442-459 | Conversely, the accepted frames with status 0 are exactly the built ones. |
| `Frame.ChangeDetected` | uart/uart_protocol.c:442-459 | Replacing any one byte behind the length field of an accepted frame, the checksum included, makes the check fail unless the byte is the same. |
| `Frame.SumUpdate` | uart/uart_protocol.c:428-440 | Changing one byte changes the sum by the difference. |
| `Frame.FrameSpelled` | uart/uart_protocol.c:66-82 | Byte for byte: 0xD0 or 0xC0, two bytes of length, a zero, number, product type, command, payload, and the sum of number, product type, command and payload modulo 256. |
| `Frame.SumJoin` | uart/uart_protocol.c:428-440 | The sum of two pieces is the sum of their sums; with SumOne this determines it. |
| `Frame.CheckSumCal` | uart/uart_protocol.c:428-440 | The low byte of the sum of the bytes. |
| `Frame.ProcotolCheck` | uart/uart_protocol.c:442-459 | Accepts exactly the frames whose length field is at least 4 and whose last byte is the sum. |
| `Frame.BuildCommand` | uart/uart_protocol.c:67-82 | The frame left in the buffer is the one specified for the message. |
| `Frame.BuildResponse` | uart/uart_protocol.c:514-531 | The response carries the sequence number and product type of the request, the ackword, and whatever the callback produced. |
| `Receiver.StreamDelivered` | uart/uart_communicat.c:84-141 | Frames with head 0xC0 and length field up to 128, separated by bytes other than 0xC0, are delivered exactly and in order wherever failed reads split the stream, whatever bytes their payloads hold; the receiver ends up hunting. |
| `Receiver.FeedIsDecode` | uart/uart_communicat.c:84-141 | For arbitrary input, byte-at-a-time reception with failed reads anywhere finds the same frames as cutting up the whole stream, and is left with the same unfinished beginning. |
| `Receiver.StreamDecodes` | uart/uart_communicat.c:84-141 | Cutting up a stream of frames and noise gives back the frames. |
| `Receiver.FitsUpTo124` | uart/uart_communicat.h:15 | A built frame fits the receiver if and only if its payload has at most 124 bytes, though the builder takes 128. |
| `Receiver.OverlongIsDropped` | uart/uart_communicat.c:104-120 | Whatever two bytes were collected: if the third makes the announced length too large, the receiver is hunting again, and the stream behind the header is decoded as if nothing had come before it. |
| `Receiver.MessagesDelivered` | uart/uart_communicat.c:84-157 | Built messages, fed with noise and failed reads in between, arrive one frame each, all accepted, with every field recovered. |
| `Receiver.Uart.GetData` | uart/uart_communicat.c:84-141 | For arbitrary input: consumes reads up to a failed one, an over-long header or a delivered frame, which is then in the buffer at exactly getresplen bytes; the write index stays inside the 136 bytes. |
| `Receiver.Uart.TakeByte` | uart/uart_communicat.c:95-139 | One byte takes the three static variables and the buffer to the state of the specification. |
| `ReceiveTask.RecvTask` | uart/uart_communicat.c:146-157 | The receive task with uart_protocol_parse, on any bytes and failed reads: the send side ends in the state that the reactions to the frames found in the stream lead to, taken in order, and the receiver holds what is left over. |
| `ReceiveTask.ReactionsRun` | uart/uart_protocol.c:484-562 | These reactions together are a run of the transition system: an answer is a Produce and an Enqueue, an acknowledgement an Ack, anything else no step. |
| `ReceiveTask.RecvTurn` | uart/uart_communicat.c:148-156 | One turn: reads up to a delivered frame, and the reaction to it. |
| `Receiver.FeedSplit` | uart/uart_communicat.c:84-141 | Reception may be interrupted and resumed anywhere. |
| `Runs.RunConserves` | uart/uart_communicat.c:37-71 | In every state of every run that starts with zero blocks each of the pool buffers is in exactly one of pool, builder, send list and mailbox, and at most once in it; free buffers have a zero block; an unacknowledged request has been posted once for each of its scans 1, 101 and 201, so three times at most. |
| `Runs.ConservationExact` | tool/buf_factory.c:41 | The pool memory is not cleared, and the counters are 32 bits wide. All runs conserve the buffers if and only if no block holds a zero counter of sendings with a set flag, and none the greatest counter without it. |
| `Runs.FlaggedRunLoses` | tool/buf_factory.c:41 | For any block of the first kind, a run that loses its buffer: produce up to it, enqueue it as a request, scan, send; it is in the pool and in the list. |
| `Runs.WrappingRunLoses` | uart/uart_communicat.c:217-236 | For any block of the second kind, whatever its delay: scan until it is posted and its counter wraps around to zero, send, acknowledge, scan, send; it is posted as if for the first time, and recycled while it is listed. |
| `LinkModel.StepKeepsInv` | uart/uart_communicat.c:159-246 | Every step of producing, enqueueing, scanning, sending and acknowledging keeps each buffer in one place, and what that rests on, whatever else the 32-bit counters hold. |
| `LinkModel.StepKeepsClean` | uart/uart_communicat.c:190-241 | Every step keeps, from zero blocks on: times <= 3, delay < 500 and a multiple of 5, times = 0 implies delay = 0, free blocks zero, and every unacknowledged block as old as its scans. |
| `Runs.InitialInv` | uart/uart_communicat.c:249-288 | The initial state is conserved whatever the blocks hold, and satisfies the invariants according to what they hold. |
| `Requests.RequestLife` | uart/uart_communicat.c:190-241 | A request in an arbitrary run, whatever else is produced, enqueued, scanned, sent and acknowledged, as long as no acknowledgement finds its entry: after n complete scans it is listed only if n <= 300, and was written (or is in the mailbox) once for each of its visits 1, 101 and 201; otherwise n >= 300, it was written exactly three times, and its buffer is in the pool, or already with its next builder, with a zero block. |
| `Requests.ResponseLife` | uart/uart_communicat.c:175-189 | A response in an arbitrary run, whatever its buffer held before: written once, and no more until its buffer is enqueued again; after a complete scan it is out of the list and on the line or in the mailbox; once the mailbox is empty it has been written, and its buffer, with a zero block, is in the pool or with its next builder. |
| `Requests.ResponsesInOrder` | uart/uart_communicat.c:168-244 | Responses leave in the order in which they were enqueued: in any run, as long as the earlier one is listed, the later one has not been posted. |
| `Requests.OneVisitEach` | uart/uart_communicat.c:172-243 | One scan, from its beginning to its end, visits every listed entry exactly once, with any producing and sending in between. |
| `Requests.CountedFrom` | uart/uart_communicat.c:172-243 | Along any run an entry has been visited once for each complete scan, and once more if the running one has passed it. |
| `Requests.UnansweredRun` | uart/uart_communicat.c:190-241 | The invariant of the run behind this. |
| `Requests.Answered` | uart/uart_protocol.c:541-557 | A request that an acknowledgement finds, within the guards, is not written again in any run until its buffer is enqueued anew, and after the next complete scan the buffer has left the list, with a zero block. |
| `Requests.NotSentAgain` | uart/uart_communicat.c:206-215 | The invariant of the run behind this, for any buffer that is out of the mailbox and, if listed, acknowledged. |
| `Requests.PostedOnce` | uart/uart_communicat.c:55-63 | No posting is lost or doubled: in every step the frames on the line and in the mailbox grow by what is posted. |
| `LinkModel.Retransmission` | uart/uart_communicat.c:190-241 | An unacknowledged request is posted on scans 1, 101 and 201, only ages on the others, and is recycled on scan 301. |
| `LinkModel.AckGuardExact` | uart/uart_protocol.c:541-557 | The scheduling guards are exact: acknowledge any listed entry in any good state, let the send task run and the entry be scanned; the buffers are conserved if and only if the entry was not a request with a zero counter of sendings and had no posting left in the mailbox. With zero blocks at first the counter is zero exactly if the request was never posted. |
| `LinkModel.NeverSentIsLost` | uart/uart_protocol.c:549-553 | An acknowledged request that was never sent ends up both in the pool and in the send list. |
| `Runs.NeverSentReachable` | uart/uart_protocol.c:549-553 | A run that ends with such a request in the list. |
| `LinkModel.PendingIsLost` | uart/uart_communicat.c:65-69 | An acknowledged entry whose posting is still in the mailbox is recycled twice. |
| `Runs.PendingReachable` | uart/uart_communicat.c:65-69 | A run that ends with such an entry, the scan being over. |
| `LinkModel.ScanKeepsInv` | uart/uart_communicat.c:172-243 | Every branch of the scan keeps the invariant. |
| `LinkModel.SendKeepsInv` | uart/uart_communicat.c:48-70 | Sending one message, recycling included, keeps the invariant. |
| `LinkModel.FirstWith` | uart/uart_protocol.c:543-555 | The position found is that of the first entry with the sequence number. |
| `ScanModel.ScanRefines` | uart/uart_communicat.c:170-243 | One scan visits every entry once: the survivors keep their order, the posted frames reach the line in list order, the leaving buffers reach the pool in list order, each block becomes what one visit makes of it. |
| `ScanModel.OneEntry` | uart/uart_communicat.c:174-242 | One entry and the sending that follows it, as one change of the state. |
| `Link.CreateBufFactory` | tool/buf_factory.c:18-70 | Whatever the new memory holds, all buffers are in the ring of the pool, in order, and no two share a node, a block or a frame. |
| `Link.System.constructor` | uart/uart_communicat.c:249-288 | The heap after initialisation is new and holds the initial state with the blocks as they were allocated, and so, by what they hold, the invariants. |
| `Link.System.Produce` | tool/buf_factory.c:72-89 | The step Produce on the heap: the first buffer of the pool is unlinked and returned. |
| `Link.System.Recycle` | tool/buf_factory.c:91-100 | The buffer joins the pool at its end and nothing else changes. |
| `Link.System.PollEntry` | uart/uart_communicat.c:172-243 | The loop body with all its branches, unlinking while walking, is the step PollEntry, and the walk stands at the entry the model says. |
| `Link.System.ScanRequest` | uart/uart_communicat.c:190-241 | The branches for requests: first posting, acknowledged, ageing, reposting, giving up. |
| `Link.System.ScanResponse` | uart/uart_communicat.c:175-189 | The branch for responses: flag, post, unlink. |
| `Link.System.PollScan` | uart/uart_communicat.c:168-244 | A whole round on the circular list terminates, leaves a well-formed ring and refines the map and filter of ScanRefines; the bytes written are the frames of the posted entries, in list order. |
| `Link.System.SendTask` | uart/uart_communicat.c:48-70 | The step Send on the heap; the bytes written are the whole frame of the first message. |
| `Link.System.Acknowledge` | uart/uart_protocol.c:542-555 | The walk sets the flag of the first entry with the sequence number and of no other. |
| `Link.System.Dispose` | uart/uart_protocol.c:50-92 | The steps Produce and Enqueue in one: the buffer holds the frame built for the arguments and the running sequence number, no other frame changes, and the buffer is at the end of the send list. |
| `Link.System.Respond` | uart/uart_protocol.c:507-539 | The same for a response to a request. |
| `Link.System.Parse` | uart/uart_protocol.c:484-562 | A frame that fails the check or has an unknown command changes nothing; a command with an ackword is answered; any other acknowledges. |
| `Link.LookupIs` | uart/uart_protocol.c:500-502 | The table walk finds the first row for a command. |
| `ReceiveTask.MessageReaction` | uart/uart_protocol.c:484-562 | For any message that fits: the first row of the table for its command byte decides. Without such a row the state stays; with an ackword a response under the number of the message is enqueued; otherwise its number is acknowledged. |
| `ReceiveTask.ParseMessage` | uart/uart_protocol.c:484-562 | The same on the heap: an answer is a frame with the ackword, the number and the product type of the message, at the end of the send list; otherwise no frame changes. |
| `ReceiveTask.OneMessage` | uart/uart_communicat.c:84-157 | A message between any noise, read with any failed reads, is delivered as its one frame. |
| `ReceiveTask.AnswerHeard` | uart/uart_protocol.c:541-557 | From the line to the end of retransmission: when the answer to a listed request has been received, the request is never written again, and after the next complete scan it is out of the list with a zero block. |

## Left out

Of the JSON library:

- Parser.ParseNumberItem: a number is parsed to its exact decimal value as a `real`; rounding to a double, and overflow of the exponent counter and of the conversion to int, are not modelled.
- Printer.PrintValueItem: numbers are C ints held alike in both fields; `%f`, `%e`, `%.0f` and the DBL_EPSILON tests are floating point and are not modelled. This holds for every printer, buffered or not.
- Allocation always succeeds; hooks, the error pointer and null arguments are not modelled.
- Sizes, offsets and depths are unbounded integers, except in the print buffer, where requests stay within 2^30.
- Parser.ParseStringItem: requires the escapes of a literal to be complete: a byte behind every backslash, and four behind \u that are neither quotes nor backslashes. Otherwise the two passes of the code may stop at different quotes, or read past the end; `Passes` says where they stop, but what they then write is not modelled. The parsers above it share this precondition. A literal that ends with the text is modelled.
- Minify.MinifyInPlace: requires literals and block comments to be closed; otherwise the code moves past the terminator.
- MinifyMeaning.MinifyKeepsValue: requires closed literals and comments, for the same reason.
- BufferedPrinter.PrintBuffered: requires 20 bytes below the limit of 2^30 for the text, because an integer asks for 21 bytes whatever it needs.
- GrammarParse.Accepted: the grammar leaves out \u0000 and unpaired surrogates, which stand for no character of a C string; `LoneSurrogateDropped` and `BrokenPairDropped` say what becomes of them. What the parser accepts beyond the grammar (other control bytes as blanks, leading zeros, unknown escapes) is given by `Parsing`.
- GrammarMinify.DocumentMinified: a line comment at the very end of the text, without a line feed, is not in the grammar; `CleanIff` covers it.
- Strings of an item are values, not arrays; the block of each is named by the item that owns it, so that releasing can be stated. The pointer arrays that hold the texts of children while printing are sequences, and are not tracked.
- parse_array and parse_object share one loop in the model, with a flag for the key, and the four blank characters of Minify share one branch.
- Lookups and edits by name (`GetObjectItem` and the like, which ignore case), references made by `AddItemReferenceTo…`, and the constructors `Create…` would only add easy members.

Of the UART link:

- A frame is written to the line in one piece: partial and failed writes (uart/uart_communicat.c:55-63) are not modelled, nor is the size of the mailbox.
- Runs.RunConserves: is about runs under the guards described above; what unguarded acknowledgements do is the subject of AckGuardExact. Producing from an empty pool ends the program and is not a step.
- ReceiveTask.RecvTask: requires that the reactions may be taken, that is, that an answer finds a free buffer and an acknowledgement keeps to the guards; other tasks do not run between the frames of one call.
- Sequence numbers may repeat; an acknowledgement goes to the first entry that matches, and nothing is claimed about wrap-around.
- The command callbacks are a parameter: any reply of up to 128 bytes. Splitting a payload into arguments is not modelled.
- The list nodes, mailbox, pool and frames are shared by several threads in the program; here the tasks are steps of one system, taken under the mutexes and priorities described.
- uart.c, mailbox.c, thread.c, and the network, USB and application layers are not part of this model.
