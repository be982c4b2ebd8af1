# A verified model of the cHTTPX core

This project models the parts of cHTTPX that carry state, pointers and arithmetic, and proves what
they promise. It covers four components.

* **The JSON library** (`lib/cjson/cJSON.c`): nodes on the heap with their doubly linked child lists
  (the head's `prev` is the tail), the parser over an offset cursor, the two-pass string unescaper,
  the printer that writes into a growing buffer and finds its offset again with `strlen`, copying and
  comparison. The parser accepts exactly the documents of a grammar that is a little wider than the
  standard's, nested at most 1000 deep, each as the value it denotes; the printer writes such a
  document, so printing followed by parsing is the identity up to that depth.
* **The WebSocket engine** (`src/websocket.c`): the incremental frame parser, the frame sender, the
  streaming hash and base64 of the handshake, and the connection pool. However the byte stream is cut
  into reads, a connection behaves as if it had been read at once.
* **Routing** (`src/params.c`, with the searches of `src/response.c` and `src/websocket.c`): the
  template matcher is sound for every template, and recovers the substituted values exactly from the
  templates whose placeholders are each followed by a slash or the end.
* **The rate limiter** (`src/middlewares.c`): the direct-mapped table refines a per-client window
  exactly when no two clients share a slot, and any window's worth of seconds admits at most twice the
  limit, which is attained, while a client that keeps within the limit is never refused.

## How the model is organised

`Bytes` holds bytes and the C-string vocabulary, `Bits` the bitwise operators. `JsonString`,
`JsonValue`, `JsonNumber`, `JsonText` and `JsonGrammar` are the pure readings of strings, numbers,
the printer and the parser; `JsonDocument` is the grammar of documents and what they denote,
`JsonReading` shows that the parser reads them, `JsonAccepted` that it reads nothing else, and
`JsonRoundTrip` that the printer writes one. `JsonDecimal` says what numbers are worth in terms of
their digits alone, `JsonStandard` that the printed text is the standard's and as short as can be, and
`JsonExamples` spells out texts.
`JsonItem` is the node class and its invariant, `JsonList` the child-list operations, `JsonEdit`
those operations anywhere inside a tree, `JsonLexer` and `JsonParser` the parser, `JsonPrinter` the
printer, `JsonCompare` the meaning of comparison, `JsonTree` look-up, comparison and copying on
nodes, `JsonTheorems` the results about whole trees. `WsFrame` is the frame format and the meaning
of a byte stream, `WsConnection` the read buffer, `WsSend` the sender, `WsPool` the pool and
`WsSweep` the facts behind it; `WsLayout` describes frames byte by byte, without the functions of
`WsFrame`, and holds the example frames of RFC 6455. `Sha1Bits` is the block function of FIPS 180-4
as a relation on bits, which the model is shown to compute. `Sha1`, `Sha1Stream`, `Base64` and
`Handshake` are the upgrade.
`Routes` is the matcher and what it means, `Dispatch` its cursor loop and its users. `RateLimit` is
the per-client window, `RateLimiter` the table.

Bytes are integers from 0 to 255 and words integers below 2^32. The bitwise operators of C are the
functions of `Bits`, defined bit by bit; `Bits.Machine` shows that on bytes they are the machine's.
Shifts are multiplications and divisions by powers of two. Machine words are wrapped explicitly
wherever they can overflow.

Where the source departs from a standard, the model follows the source:

* `sha1_final` writes the low length word before the high one (`src/websocket.c:172-173`), the opposite
  of section 5.1.1 of FIPS 180-4. `Sha1Stream.StandardIffWordsEqual` says exactly when the padded
  messages coincide, and `Handshake.NeverStandardPadding` that no upgrade is such a case.
* `parse_hex4` answers 0 for invalid hex digits, and the second pass of `parse_string` still skips six
  bytes, so the two passes may disagree about where an escape starts. The output fits all the same
  (`JsonString.OutputFits`).
* The parser takes more than the standard allows: any byte up to 32 as a blank, leading zeros, digits
  on one side of the point only, raw control bytes, and any four bytes after `\u`. The grammar of
  `JsonDocument` says exactly what; three lemmas at the end of `JsonAccepted` give inputs.
* `add_item_to_array` does not clear the new item's `next` when the list is not empty, and no list
  operation looks whether the item is in a list already. `JsonList.LinkLast` says exactly when the list
  stays well formed; `JsonList.AppendLinkedItem` and `JsonList.AppendOwnChild` are calls after which it
  is not. `cJSON_DetachItemViaPointer` and `cJSON_ReplaceItemViaPointer` do not look whose child the
  item is; `JsonList.Unlink` and `JsonList.Relink` say exactly what survives.
* `cJSON_Compare` can tell an object from its own copy when two of its members have matching keys and
  different meanings. On integer trees this is the only way: `JsonCompare.CompareOnCopy` is an
  equivalence. A repeated key alone does no harm (`JsonCompare.RepeatedKeyHarmless`).
* `ws_send_frame` takes a `send` that returns 0 for success. `WsSend.Socket.SendFrame` says exactly
  when it then reports a frame that is not whole on the wire; `WsSend.ZeroSendCutsHeader` shows the
  payload sent after a header cut short.
* Clients that share a slot evict each other, so one of them can exceed its limit.
  `RateLimiter.FaithfulIffNoSharing` says that on quiet runs, with fewer than 2^32 requests in any
  window, sharing is the only cause; a busier window wraps the counter. `RateLimiter.AddressesShare`
  gives two addresses that share.

## Model

| member | source | states |
|---|---|---|
| JsonTheorems.PrintAndParse | lib/cjson/cJSON.c:1142-1309 | for every tree in memory whose numbers are 32-bit integers, printing and parsing gives a fresh well-formed tree with the same value, if and only if the text fits and the nesting is at most 1000 |
| JsonTheorems.ParseDocument | lib/cjson/cJSON.c:1142-1219 | what becomes of a document between blanks, with or without a byte order mark: NULL exactly when it is nested more than 1000 deep, a required NUL is missing, or the mark and the document are four bytes in all; otherwise a fresh well-formed tree holding the value it denotes |
| JsonTheorems.ParseExactly | lib/cjson/cJSON.c:1142-1219 | on any buffer, with the NUL required, a tree is returned if and only if the buffer holds an acceptable document, and it holds the value of that document |
| JsonTheorems.DuplicateAndCompare | lib/cjson/cJSON.c:2769-3180 | the copy succeeds exactly up to depth 10000; it compares equal whenever the tree is consistent, and on integer trees exactly then; distinct keys make a tree consistent |
| JsonTheorems.ValidPrintable | lib/cjson/cJSON.c:819-946 | strings and keys of a well-formed tree are NUL-free, so only its numbers can keep it from round-tripping |
| JsonAccepted.AcceptedExactly | lib/cjson/cJSON.c:1142-1219 | with the NUL required, the buffers accepted are exactly those that hold a document of the grammar between blanks, nested at most CJSON_NESTING_LIMIT deep, and end in a NUL; the value returned is the one the document denotes |
| JsonAccepted.InputTaken | lib/cjson/cJSON.c:1142-1219 | whatever is accepted, with or without the NUL required, starts with a document nested at most CJSON_NESTING_LIMIT deep whose value is returned, and the end is where it ends |
| JsonAccepted.DocTaken | lib/cjson/cJSON.c:1363-1881 | whatever the value parser accepts anywhere in a buffer is the text of a document that denotes the value returned |
| JsonAccepted.PointWithoutDigits | lib/cjson/cJSON.c:307-408 | `1.` is read as 1 |
| JsonAccepted.UnitWithoutDigits | lib/cjson/cJSON.c:661-694 | a `\u` without hex digits is read as a NUL and ends the string |
| JsonAccepted.ClosingQuoteTaken | lib/cjson/cJSON.c:832-923 | a literal in which the second pass takes the closing quote for an escaped one |
| JsonReading.DocumentParses | lib/cjson/cJSON.c:1085-1881 | a document of the grammar in section 2 of RFC 8259, in any buffer that holds it between blanks, is accepted unless it is nested more than CJSON_NESTING_LIMIT deep, a required NUL is missing, or a byte order mark stands before a single byte; its value is returned and the end is where it or its NUL is |
| JsonReading.DocParses | lib/cjson/cJSON.c:1363-1881 | wherever it stands, the text of a document parses to its value and exactly the text is consumed |
| JsonReading.OneMeaning | lib/cjson/cJSON.c:1363-1881 | the grammar is unambiguous: two documents with one text denote one value |
| JsonReading.ItemsParse | lib/cjson/cJSON.c:1492-1587 | the element loop reads the elements of any document array through any blanks and stops after the bracket |
| JsonReading.MembersParse | lib/cjson/cJSON.c:1652-1767 | the member loop reads keys and values of any document object through any blanks and stops after the brace |
| JsonDocument.NumberReads | lib/cjson/cJSON.c:307-408 | every number of section 6 of RFC 8259, and those with digits on one side of the point only, is read whole, as the sign, digits, fraction and exponent it spells |
| JsonDocument.NumberTaken | lib/cjson/cJSON.c:307-408 | whatever number is found where one may start is a number of the grammar with the value it spells |
| JsonDecimal.PlainValue | lib/cjson/cJSON.c:307-408 | the value of a number without exponent times one followed by as many zeros as the fraction has digits is plus or minus the number its digits write |
| JsonDecimal.PowerValueIs | lib/cjson/cJSON.c:307-408 | an exponent of k multiplies the value by one followed by k zeros, an exponent of -k divides by it |
| JsonDecimal.FractionDigit | lib/cjson/cJSON.c:307-408 | one more digit after the point adds that digit at its place, and a zero adds nothing |
| JsonDecimal.HundredTwice | lib/cjson/cJSON.c:307-408 | `1e2` and `100` are both 100, each read whole |
| JsonDecimal.HalfTwice | lib/cjson/cJSON.c:307-408 | `-1.5` and `-1.50` are both minus one and a half |
| JsonDecimal.TwoAndAHalf | lib/cjson/cJSON.c:307-408 | `25E-1` is two and a half |
| JsonRoundTrip.PrintParse | lib/cjson/cJSON.c:1142-1309 | parsing the printed document gives back the value, formatted or not, NUL required or not, if and only if it is nested at most CJSON_NESTING_LIMIT deep |
| JsonRoundTrip.RoundTrip | lib/cjson/cJSON.c:1363-1881 | a printed value parses back to itself wherever it stands in a buffer, and the offset lands right after it |
| JsonRoundTrip.DocText | lib/cjson/cJSON.c:1418-1881 | what the printer writes is the text of a document of the grammar |
| JsonRoundTrip.DocValue | lib/cjson/cJSON.c:1418-1881 | that document denotes the value printed |
| JsonStandard.PrintsStandard | lib/cjson/cJSON.c:591-1881 | what is printed is a document of RFC 8259 proper: no leading zero, only the four blanks and the escapes of the standard, no raw control byte; unformatted it holds no blank |
| JsonStandard.ShortestText | lib/cjson/cJSON.c:1418-1881 | the unformatted text is no longer than any document of RFC 8259 with the same value and no exponents |
| JsonStandard.ShortestInteger | lib/cjson/cJSON.c:597-632 | the text of an integer is the shortest of all the numbers without exponent that are worth as much |
| JsonStandard.ShortestString | lib/cjson/cJSON.c:949-1068 | a printed string is no longer than any literal of section 7 of RFC 8259 that denotes it |
| JsonStandard.StandardWellFormed | lib/cjson/cJSON.c:1363-1881 | every document of RFC 8259 is a document of the grammar the parser accepts |
| JsonExamples.MembersText | lib/cjson/cJSON.c:1770-1881 | an object formatted puts each member on a line one tab deeper, with a colon and a tab after the key; unformatted only the colon and the commas remain |
| JsonExamples.PairText | lib/cjson/cJSON.c:1590-1650 | a formatted array stands on one line with a comma and a space between elements |
| JsonExamples.EmptyText | lib/cjson/cJSON.c:1590-1881 | empty containers; a formatted empty object takes two lines |
| JsonExamples.StringText | lib/cjson/cJSON.c:976-1063 | each byte of a string is written as itself, as one of the seven short escapes, or as `\u00` and two lower-case hex digits |
| JsonExamples.CodePoints | lib/cjson/cJSON.c:698-816 | the code points of section 7 of RFC 3629 and the surrogate pair of section 7 of RFC 8259 become the bytes given there |
| JsonExamples.DocumentRead | lib/cjson/cJSON.c:1142-1219 | a document with every kind of bracket, written as text, and its value |
| JsonExamples.MarkRead | lib/cjson/cJSON.c:1111-1219 | a byte order mark, a blank, a number, a line feed and the NUL |
| JsonGrammar.MoreRoom | lib/cjson/cJSON.c:1497-1501 | a successful parse does not depend on how much nesting was left |
| JsonGrammar.NestWithinRoom | lib/cjson/cJSON.c:1497-1661 | no accepted value is nested deeper than the limit allowed |
| JsonGrammar.StrayByte | lib/cjson/cJSON.c:1363-1415 | a byte above 32 that starts no value makes whatever follows it unreadable |
| JsonString.OutputFits | lib/cjson/cJSON.c:832-923 | for every input, what the second pass writes fits the bytes counted by the first |
| JsonString.HexTable | lib/cjson/cJSON.c:661-694 | the sixteen hex digits in either case have the values 0 to 15 |
| JsonString.EscapeLetters | lib/cjson/cJSON.c:876-911 | the eight letters after a backslash and what they stand for, and no others |
| JsonString.StepBudget | lib/cjson/cJSON.c:867-923 | one turn of the second pass emits at most the units it walks over, wherever in an escape it starts |
| JsonString.UnitsStep | lib/cjson/cJSON.c:832-857 | starting one byte later changes the first pass's count by at most one |
| JsonString.UnitsMonotone | lib/cjson/cJSON.c:832-857 | starting later never counts more |
| JsonString.LiteralReads | lib/cjson/cJSON.c:819-946 | every literal the two passes can read parses to the C string it denotes and consumes exactly itself |
| JsonString.LiteralTaken | lib/cjson/cJSON.c:819-946 | whatever the string parser accepts is such a literal, and what it leaves is what the literal denotes |
| JsonString.StandardReadable | lib/cjson/cJSON.c:698-946 | the literals of section 7 of RFC 8259 are among them, as they are spelled |
| JsonString.LiteralParses | lib/cjson/cJSON.c:698-946 | every well-formed literal of section 7 of RFC 8259 parses to the UTF-8 bytes it denotes and consumes exactly itself |
| JsonString.Utf8RoundTrip | lib/cjson/cJSON.c:761-808 | the bytes written for a scalar value decode to it under section 3 of RFC 3629 |
| JsonString.EscapedLength | lib/cjson/cJSON.c:976-1017 | the escape count is the exact growth of the output, and zero means the text is copied verbatim |
| JsonString.QuotedRoundTrip | lib/cjson/cJSON.c:819-1068 | a printed NUL-free string parses back to its own bytes and nothing after it is consumed |
| JsonString.EmbeddedNulIsLost | lib/cjson/cJSON.c:925-935 | an escaped NUL cuts the parsed C string short, so NUL-freeness is needed |
| JsonNumber.IntRoundTrip | lib/cjson/cJSON.c:307-408 | reading the decimal text of an integer gives the integer and uses all of the text |
| JsonNumber.IntTextLength | lib/cjson/cJSON.c:597-632 | the text of a 32-bit integer never overruns the 26-byte number buffer |
| JsonNumber.TokenEndAt | lib/cjson/cJSON.c:325-356 | the token of a number ends at the first byte that cannot belong to one |
| JsonText.PrintNulFree | lib/cjson/cJSON.c:571-581 | no printed text contains a NUL, so `strlen` finds its end |
| JsonItem.Item.constructor | lib/cjson/cJSON.c:241-250 | a new node is unlinked and owns nothing |
| JsonItem.KindIsValue | lib/cjson/cJSON.c:1363-1415 | the kind of a well-formed node tells what its value is |
| JsonItem.Neighbours | lib/cjson/cJSON.c:1984-1989 | in a well-formed list `prev` undoes `next`, and the head's `prev` is the tail |
| JsonItem.Distinct | lib/cjson/cJSON.c:2012-2043 | no node occurs twice among the children |
| JsonItem.AttachNew | lib/cjson/cJSON.c:1529-1548 | a new node is linked after the last one of a list under construction |
| JsonItem.ChainGrown | lib/cjson/cJSON.c:1536-1558 | a parsed node completes the chain it was linked into, sharing no node with the others |
| JsonItem.CloseChain | lib/cjson/cJSON.c:1569-1571 | pointing the head's `prev` at the last node turns the chain into a well-formed child list |
| JsonList.GetArrayItem | lib/cjson/cJSON.c:1907-1924 | walking `index` links gives child `index`, or NULL past the end |
| JsonList.LinkLast | lib/cjson/cJSON.c:2012-2043 | whatever the item, the pointer writes of append give the list with the item at the end if and only if it was not in the list and the list was empty or the item's `next` was NULL; a child added again makes the chain endless |
| JsonList.AddItemToArray | lib/cjson/cJSON.c:2012-2043 | whatever the item, the result is a child list if and only if the item was not in it and the list was empty or the item's `next` was NULL; a separate tree then is appended to the sequence of children and to the value and the heap invariant is kept; NULL and self-insertion are refused |
| JsonList.NeverEnds | lib/cjson/cJSON.c:2012-2043 | an endless chain is the child list of no nodes at all |
| JsonList.AppendLinkedItem | lib/cjson/cJSON.c:2012-2043 | appending the first node of another list of two to a list of one leaves a chain that is not a list |
| JsonList.AppendOwnChild | lib/cjson/cJSON.c:2012-2043 | adding the only child of an array to it again leaves `next` pointing at itself |
| JsonList.LinkedInsert | lib/cjson/cJSON.c:2319-2351 | the link pattern after an insertion is a well-formed list of the extended sequence |
| JsonList.LinkBefore | lib/cjson/cJSON.c:2337-2349 | whatever the item, the pointer writes of insertion before child `w` give the list with the item inserted if and only if it was not in the list |
| JsonList.InsertItemInArray | lib/cjson/cJSON.c:2319-2351 | whatever the item, the result is a child list if and only if the item was not in it and, past the end, could be appended; a separate tree is then inserted in sequence and value; a container inserted before its own child becomes one of its children |
| JsonList.LinkedRemove | lib/cjson/cJSON.c:2243-2277 | the link pattern after a removal is a well-formed list of the shortened sequence |
| JsonList.Unlink | lib/cjson/cJSON.c:2251-2274 | the pointer writes of detach realise removal of child `w`, head, middle or tail, and clear the item's links; for a child of another list they do so if and only if it is neither first nor last there, and they spoil this list if and only if it is last |
| JsonList.DetachItemViaPointer | lib/cjson/cJSON.c:2243-2277 | detach removes exactly that child from sequence and value, hands it back whole, and changes nothing when it fails; for an item of another container it says exactly when each of the two lists survives |
| JsonList.LinkedReplace | lib/cjson/cJSON.c:2353-2400 | the link pattern after a replacement is a well-formed list of the updated sequence |
| JsonList.Relink | lib/cjson/cJSON.c:2365-2397 | the pointer writes of replace realise the update of child `w`, including a list of one, with the same exactness for a child of another list |
| JsonList.ReplaceItemViaPointer | lib/cjson/cJSON.c:2353-2400 | replace updates exactly that child in sequence and value, if and only if the replacement is not a child already, and is a no-op on the item itself; for an item of another container it says exactly when each of the two lists survives |
| JsonList.AddItemToObject | lib/cjson/cJSON.c:2067-2102 | adding under a key names the item and appends it under the condition of append, as a member with that key and the item's value |
| JsonList.InsertRemoveInverse | lib/cjson/cJSON.c:2243-2351 | detaching undoes inserting and inserting undoes detaching |
| JsonEdit.Apply | lib/cjson/cJSON.c:2279-2410 | inserting, detaching or replacing by index changes the value as the index says, does nothing past the end except append, and keeps the container valid |
| JsonEdit.EditAt | lib/cjson/cJSON.c:2279-2410 | an edit of the container at any path below a root keeps the whole tree valid and changes its value at that path only |
| JsonLexer.SkipWhitespace | lib/cjson/cJSON.c:1085-1108 | the cursor stops at the first byte above 32, or one byte before the end |
| JsonLexer.ParseNumber | lib/cjson/cJSON.c:307-408 | the node holds the number the token denotes, with the saturated integer, and the cursor passes what was read |
| JsonLexer.ParseHex4 | lib/cjson/cJSON.c:661-694 | four hex digits give their number and any invalid one gives 0 |
| JsonLexer.Utf8Bytes | lib/cjson/cJSON.c:793-808 | a sequence is six bits per byte from the end and the rest under the length mark |
| JsonLexer.ContinuationByte | lib/cjson/cJSON.c:797 | setting and masking gives the low six bits under the mark of a continuation byte |
| JsonLexer.FirstByte | lib/cjson/cJSON.c:799-808 | the OR with the length mark adds it to the bits that are left |
| JsonLexer.SurrogatePair | lib/cjson/cJSON.c:753 | masking, shifting and joining a surrogate pair gives its code point less 0x10000 |
| JsonLexer.EncodeUtf8 | lib/cjson/cJSON.c:761-808 | the bytes written by the shifts and masks are the UTF-8 of the code point and nothing before them changes |
| JsonLexer.Utf16LiteralToUtf8 | lib/cjson/cJSON.c:698-816 | lone low surrogates, short input and unpaired high surrogates fail; otherwise the bytes of the code point are written |
| JsonLexer.FindClosingQuote | lib/cjson/cJSON.c:832-857 | the first pass finds the closing quote and counts exactly the bytes less the escapes |
| JsonLexer.UnescapeOne | lib/cjson/cJSON.c:867-923 | one turn writes the bytes of one escape or plain byte inside the buffer |
| JsonLexer.UnescapeInto | lib/cjson/cJSON.c:865-923 | the second pass writes the whole unescaped text and never leaves the allocation of the first |
| JsonLexer.ParseString | lib/cjson/cJSON.c:819-946 | the node holds the C string the literal denotes and the cursor passes the closing quote, or the parse fails as the grammar says |
| JsonParser.ParseElement | lib/cjson/cJSON.c:1527-1558 | one element is allocated, linked and parsed, and the cursor stands on what follows it |
| JsonParser.ParseElements | lib/cjson/cJSON.c:1524-1564 | the loop builds a list of fresh disjoint trees holding the elements of the grammar |
| JsonParser.ParseArray | lib/cjson/cJSON.c:1492-1587 | succeeds exactly when the grammar does, restores the depth, and refuses to open container 1001 |
| JsonParser.ParseMemberKey | lib/cjson/cJSON.c:1708-1733 | the key moves from the string field to the name and the cursor passes the colon |
| JsonParser.ParseMember | lib/cjson/cJSON.c:1685-1740 | one member is allocated, linked and parsed |
| JsonParser.ParseAllMembers | lib/cjson/cJSON.c:1682-1745 | the loop builds a list of fresh disjoint trees holding the members of the grammar |
| JsonParser.ParseObject | lib/cjson/cJSON.c:1652-1767 | succeeds exactly when the grammar does and restores the depth |
| JsonParser.ParseValue | lib/cjson/cJSON.c:1363-1415 | total on every buffer: the tree, the end offset and success are those of the grammar, reads stay inside the buffer, the offset advances |
| JsonParser.SkipUtf8Bom | lib/cjson/cJSON.c:1111-1124 | a byte order mark at the start of a buffer longer than four bytes is skipped |
| JsonParser.ParseWithLengthOpts | lib/cjson/cJSON.c:1142-1219 | a fresh well-formed tree with the document's value, or NULL exactly when the document is rejected |
| JsonPrinter.Ensure | lib/cjson/cJSON.c:485-568 | succeeds exactly when the request fits the limit, and growing keeps every byte |
| JsonPrinter.UpdateOffset | lib/cjson/cJSON.c:571-581 | the offset lands on the NUL that ends the text just written |
| JsonPrinter.Write | lib/cjson/cJSON.c:1429-1454 | a short text is written after what is there, inside the buffer, or fails for lack of room |
| JsonPrinter.CountEscapes | lib/cjson/cJSON.c:976-1000 | the first pass counts exactly the extra bytes |
| JsonPrinter.EscapeInto | lib/cjson/cJSON.c:1019-1063 | the second pass writes the escaped text after what is there |
| JsonPrinter.PrintStringPtr | lib/cjson/cJSON.c:949-1068 | the quoted text appears after the entry offset, NUL-terminated, exactly when it and two bytes fit |
| JsonPrinter.PrintNumber | lib/cjson/cJSON.c:591-658 | a number that equals its stored integer is printed in decimal, exactly when it fits |
| JsonPrinter.PrintElements | lib/cjson/cJSON.c:1613-1637 | the loop writes the elements with their separators |
| JsonPrinter.PrintArray | lib/cjson/cJSON.c:1590-1649 | the buffer shows the text of the array after the unchanged earlier bytes |
| JsonPrinter.PrintKey | lib/cjson/cJSON.c:1799-1832 | tabs, key, colon and tab of a member |
| JsonPrinter.PrintMemberOf | lib/cjson/cJSON.c:1799-1860 | one member with its comma and line feed |
| JsonPrinter.PrintAllMembers | lib/cjson/cJSON.c:1797-1861 | the loop writes the members in order |
| JsonPrinter.PrintObject | lib/cjson/cJSON.c:1770-1881 | the buffer shows the text of the object after the unchanged earlier bytes |
| JsonPrinter.PrintValue | lib/cjson/cJSON.c:1418-1489 | success is exactly a matter of room, the text follows the untouched earlier bytes through every reallocation, and every write is below the length |
| JsonPrinter.PrintText | lib/cjson/cJSON.c:1234-1299 | the result holds exactly the text and its NUL, or is NULL exactly when the text is too long |
| JsonPrinter.PrintPreallocated | lib/cjson/cJSON.c:1343-1360 | succeeds exactly when the caller's buffer has two bytes more than the text |
| JsonCompare.CompareDecides | lib/cjson/cJSON.c:3057-3180 | on integer trees, whatever their keys, comparison holds exactly when both are consistent (members whose keys match mean the same) and the values are equal with objects read as maps |
| JsonCompare.ObjectMeaning | lib/cjson/cJSON.c:3138-3175 | consistent objects mean the same exactly when every member of each has a member of the other with a matching key and the same meaning |
| JsonCompare.PlainMeaning | lib/cjson/cJSON.c:3057-3136 | values without objects mean the same only when they are equal |
| JsonCompare.KeysMatch | lib/cjson/cJSON.c:133-154 | keys match byte by byte, and with case only when they are equal |
| JsonCompare.CaseJoins | lib/cjson/cJSON.c:133-154 | without case two bytes match when they are equal or the two cases of one Latin letter, and not otherwise |
| JsonCompare.CompareOnCopy | lib/cjson/cJSON.c:3057-3180 | a value compares equal to a copy of itself if it is consistent, and on integer trees only then |
| JsonCompare.CompareSymmetric | lib/cjson/cJSON.c:3057-3180 | comparison of integer trees is symmetric |
| JsonCompare.CompareTransitive | lib/cjson/cJSON.c:3057-3180 | comparison of integer trees is transitive |
| JsonCompare.AlikeCompares | lib/cjson/cJSON.c:3057-3180 | consistent values with one meaning compare equal, whatever their numbers |
| JsonCompare.DistinctIsConsistent | lib/cjson/cJSON.c:3139-3175 | distinct keys make a value consistent |
| JsonCompare.RepeatedKeyHarmless | lib/cjson/cJSON.c:3143-3156 | a repeated key alone does not make a value differ from its copy |
| JsonCompare.RepeatedKeyAtOdds | lib/cjson/cJSON.c:3143-3156 | two members at odds under one key do |
| JsonCompare.CoversInto | lib/cjson/cJSON.c:3139-3156 | one pass over an object finds every key in the other with the same meaning and shows no two of its own members at odds |
| JsonCompare.MapInto | lib/cjson/cJSON.c:3139-3175 | then its map is contained in the other's |
| JsonCompare.SameMapCovers | lib/cjson/cJSON.c:3139-3175 | equal maps pass both loops |
| JsonCompare.MapLookup | lib/cjson/cJSON.c:1936-1966 | when members under one key agree, each is the map's entry |
| JsonCompare.CloseIntegers | lib/cjson/cJSON.c:584-588 | the tolerance of `compare_double` separates all 32-bit integers |
| JsonCompare.ToleranceAddsUp | lib/cjson/cJSON.c:584-588 | beyond 32 bits comparison is not transitive: three consecutive integers from 2^52 on |
| JsonTree.CaseInsensitiveStrcmp | lib/cjson/cJSON.c:133-154 | the result is 0 exactly when the lower-cased strings are equal |
| JsonTree.GetObjectItem | lib/cjson/cJSON.c:1936-1966 | the first child, of a node of any kind, whose key matches under the chosen case rule, or NULL; the case-sensitive search stops at a child without a key |
| JsonTree.CompareArrays | lib/cjson/cJSON.c:3115-3137 | the walk over two lists decides comparison of the arrays |
| JsonTree.CompareInto | lib/cjson/cJSON.c:3143-3156 | one pass says whether every member has an equal namesake |
| JsonTree.Compare | lib/cjson/cJSON.c:3057-3180 | the pointer walk gives the value comparison whenever the nodes share nothing or the value is consistent, and a tree always equals itself |
| JsonTree.DuplicateChildren | lib/cjson/cJSON.c:2818-2847 | the loop copies every child in order into fresh disjoint trees, or fails exactly at the depth limit |
| JsonTree.Duplicate | lib/cjson/cJSON.c:2774-2858 | the copy is fresh, well formed and has the same value; it fails exactly when a node with children lies too deep |
| WsFrame.VerdictStable | src/websocket.c:531-560 | once the one-frame parser has a verdict, more bytes never change it |
| WsFrame.IncompleteFits | src/websocket.c:28-29 | an incomplete frame is at most 65542 bytes, so at least 10 of the 65552 stay free |
| WsFrame.XorTwice | src/websocket.c:565-570 | masking a byte twice gives it back |
| WsFrame.XorIsMachine | src/websocket.c:569 | the exclusive or of the model is the machine's |
| WsFrame.MaskTwice | src/websocket.c:565-570 | unmasking a masked payload gives the payload |
| WsFrame.DrainLeavesIncomplete | src/websocket.c:634-643 | what is left after a drain is an incomplete frame |
| WsFrame.DrainAppend | src/websocket.c:602-646 | draining in two goes has the outcome of draining in one |
| WsFrame.ChunkingIrrelevant | src/websocket.c:531-646 | for every stream and every cut the messages, PONGs, connected flag and leftover are those of one read |
| WsFrame.ChunkingsAgree | src/websocket.c:531-646 | two cuts of the same stream have the same outcome |
| WsFrame.EncodeParse | src/websocket.c:250-273 | a sent frame parses back to its opcode and payload and consumes exactly itself before any following data |
| WsFrame.EncodeMaskedParse | src/websocket.c:531-570 | the masked form of a frame unmasks to the same payload |
| WsFrame.ShortestForm | src/websocket.c:252-266 | frames use two header bytes up to 125 and four beyond, and no frame that parses to the same is shorter |
| WsLayout.PayloadBytes | src/websocket.c:531-570 | of every complete frame, payload byte i is the byte on the wire, under byte i mod 4 of the mask if there is one |
| WsLayout.ShortFrame | src/websocket.c:531-566 | when a frame with a one-byte length is complete, and then its size, opcode and payload length |
| WsLayout.LongFrame | src/websocket.c:531-566 | the same for a two-byte length, high byte first |
| WsLayout.RefusedExactly | src/websocket.c:542-556 | a frame is refused if and only if its second byte announces an eight-byte length |
| WsLayout.WireBytes | src/websocket.c:250-273 | what goes out: the FIN bit, reserved bits of 0 and the opcode in the first byte, no mask, the length in one byte or after 126 in two, then the payload as it is |
| WsLayout.HeaderBytes | src/websocket.c:250-268 | the same of the header alone |
| WsLayout.PingAnswered | src/websocket.c:572-584 | draining a PING sends one frame, final and unmasked, that parses to a PONG with the same payload |
| WsLayout.PayloadReturnable | src/websocket.c:250-273 | every payload that arrives is short enough to be sent back |
| WsLayout.MessageDelivered | src/websocket.c:572-584 | a text or binary frame reaches the callback once with its own opcode and payload |
| WsLayout.OthersDropped | src/websocket.c:572-584 | a CLOSE ends the connection unanswered and every other frame is dropped |
| WsLayout.UnmaskedText | src/websocket.c:250-570 | the unmasked "Hello" of section 5.7 of RFC 6455, received and sent |
| WsLayout.MaskedText | src/websocket.c:531-570 | the masked "Hello" of that section |
| WsLayout.FragmentedText | src/websocket.c:250-570 | its fragmented message, fragment by fragment |
| WsLayout.PingAndPong | src/websocket.c:250-570 | its PING received and the unmasked PONG sent |
| WsLayout.BinaryOf256 | src/websocket.c:250-570 | its 256 bytes of binary data, received and sent |
| WsLayout.BinaryOf65536 | src/websocket.c:250-556 | its 64 kilobytes: neither sent nor accepted |
| WsConnection.Connection.constructor | src/websocket.c:406-440 | a new connection holds no bytes and is up |
| WsConnection.Connection.Unmask | src/websocket.c:565-570 | the payload is unmasked in place and no other byte changes |
| WsConnection.FrameParts | src/websocket.c:531-560 | where header, mask and payload of a complete frame lie |
| WsConnection.Connection.UnmaskFrame | src/websocket.c:562-570 | after unmasking, the buffer holds the frame's payload and the bytes after the frame are untouched |
| WsConnection.Connection.Consume | src/websocket.c:586-597 | the frame is dropped and what follows moves to the front |
| WsConnection.Connection.ReadHeader | src/websocket.c:531-560 | the masks and shifts of the header checks give the parser's verdict, size and opcode |
| WsConnection.Connection.Act | src/websocket.c:572-584 | CLOSE clears the flag, PING is answered with the same payload, text and binary reach the callback |
| WsConnection.Connection.TryProcessOneFrame | src/websocket.c:531-600 | nothing changes on an incomplete or invalid frame; a complete one is consumed with exactly its effects |
| WsConnection.Connection.DrainBuffer | src/websocket.c:634-643 | the loop ends and has the effects of draining all complete frames |
| WsConnection.Connection.ReadAndParse | src/websocket.c:602-646 | one read extends the stream as specified, and the buffer-full disconnect is never reached |
| WsConnection.ReadAll | src/websocket.c:602-646 | over a whole life with any cuts the connection ends as if the stream had been read at once, holding at most 65542 bytes at offset 0 |
| WsSend.FrameHeader | src/websocket.c:252-266 | the masks and shifts build the header of the frame, or refuse a payload over 65535 |
| WsSend.ClaimsIs | src/websocket.c:250-273 | that condition is the same as both parts meeting no error and not both being whole |
| WsSend.WillingPlays | src/websocket.c:237-248 | enough positive results carry everything |
| WsSend.SteadyPlays | src/websocket.c:237-248 | without a result of 0 no part stops at 0 |
| WsSend.Socket.SendAll | src/websocket.c:237-248 | the bytes taken, the results left and the result returned are those of playing the script; however positive sends split the bytes they reach the wire whole and in order, otherwise a proper prefix does |
| WsSend.Socket.SendFrame | src/websocket.c:250-273 | what goes out and what is returned, for every script of results; the length is returned for a frame that is not whole on the wire if and only if a `send` of 0 cut the header and the payload then met no error, or cut the payload after a whole header; longer than 65535 is refused with nothing sent |
| WsSend.ZeroSendCutsFrame | src/websocket.c:243-273 | a `send` that returns 0 loses an empty frame and the call still reports success |
| WsSend.ZeroSendCutsHeader | src/websocket.c:243-273 | for every payload, a `send` of 0 after one byte of header lets the payload follow that byte and success be reported |
| WsSweep.SwapRemoveIds | src/websocket.c:399-404 | swap-remove takes out exactly one connection |
| WsSweep.UniqueIffMultiset | src/websocket.c:399-404 | no repetition is the same as every count being at most one |
| WsSweep.LeftValid | src/websocket.c:384-404 | after a removal the leaver is gone, nobody is held twice, and nobody was closed twice |
| WsSweep.ProgressTurn | src/websocket.c:708-733 | one turn of the sweep keeps what its loop knows of everyone examined, removed and still to come |
| WsSweep.SweepEnds | src/websocket.c:708-733 | at the end everyone present or added was examined once and each is in the pool exactly if it was up and its turn left it up |
| WsSweep.RemovalOrderPermutes | src/websocket.c:756-771 | taking out index 0 over and over takes everyone once |
| WsSweep.ClosingsExactly | src/websocket.c:384-397 | closing a set of members is heard of exactly by those still connected |
| WsPool.Pool.AddConnection | src/websocket.c:406-440 | a new identity is appended at the returned slot, through any growth |
| WsPool.Pool.CloseConnection | src/websocket.c:384-397 | a connected one gets one CLOSE frame and at most one callback, a disconnected one nothing |
| WsPool.Pool.RemoveConnection | src/websocket.c:399-404 | close and swap-remove keep the invariant that over the whole run everyone gets at most one CLOSE and one `on_close` |
| WsPool.Pool.Process | src/websocket.c:717-724 | while the lock is free the connection reads and others are added behind everyone; nobody present is otherwise touched |
| WsPool.Pool.Examine | src/websocket.c:709-732 | one turn keeps the connection at the index exactly if it was connected and the turn left it so, and leaves those before it in place and those behind it unchanged |
| WsPool.Pool.Sweep | src/websocket.c:708-733 | everyone present or added meanwhile is examined exactly once; the one examined at turn `k` is still in the pool if and only if it was connected at the start or added, and was not readable or stayed alive; whoever is in the pool is connected and otherwise unchanged |
| WsPool.Pool.Shutdown | src/websocket.c:756-771 | the pool empties and what is sent is exactly the closings of its members in removal order: a CLOSE frame and callback for those still connected and nothing for the others |
| Sha1.ChWithOr | src/websocket.c:110 | the source's OR form of the first round function is Ch of section 4.1.1 of FIPS 180-4 |
| Sha1.MajWithOr | src/websocket.c:114 | the source's OR form of the third round function is Maj |
| Sha1.SumOrder | src/websocket.c:109-117 | the source's grouping of the round's sum is the sum of step 3 of section 6.1.2 of FIPS 180-4 |
| Sha1.BigEndianIs | src/websocket.c:95-96 | four bytes joined by shifts and ORs are the big-endian number they write |
| Sha1.RotLMoves | src/websocket.c:117-120 | the pair of shifts moves the high bits below the others and loses none |
| Sha1.Schedule | src/websocket.c:94-99 | the two loops compute the message schedule of section 6.1.2 |
| Sha1.Mix | src/websocket.c:109-116 | the branches compute the round function plus the round constant |
| Sha1.Transform | src/websocket.c:88-130 | the block function is that of section 6.1.2 of FIPS 180-4 |
| Sha1.FoldPrefix | src/websocket.c:142-165 | appending bytes leaves the state of the earlier blocks alone |
| Sha1Bits.CompressExactly | src/websocket.c:88-131 | a block is compressed to a state in the sense of section 6.1.2 of FIPS 180-4, stated bit by bit and by sums without the operators of the model, if and only if the model computes that state |
| Sha1Bits.BlocksInOrder | src/websocket.c:88-165 | the blocks of a message are so compressed in order from the initial state |
| Sha1Bits.RoundConstants | src/websocket.c:107-115 | the round constants are the square roots of 2, 3, 5 and 10 in units of 2^-30, rounded down |
| Sha1Bits.InitialOctets | src/websocket.c:133-140 | the octets of the initial state count up, down and down again |
| Sha1Bits.FBits | src/websocket.c:107-115 | the round functions choose, add and vote on each bit |
| Sha1Bits.Rotations | src/websocket.c:96-118 | bit i of a rotated word is the bit as many places below |
| Sha1Bits.ScheduleBits | src/websocket.c:94-99 | each bit of a later word of the schedule is the parity of four bits one place below |
| Sha1Stream.CarryStep | src/websocket.c:147-150 | the two-word addition with carry counts bits modulo 2^64 |
| Sha1Stream.Buffered | src/websocket.c:145 | a shift and the mask 63 of the low word give the number of buffered bytes |
| Sha1Stream.FullButLength | src/websocket.c:176 | the mask 504 tells whether 56 bytes are buffered |
| Sha1Stream.Context.constructor | src/websocket.c:132-140 | the initial state hashes the empty message |
| Sha1Stream.Context.Count | src/websocket.c:147-150 | the counter words become those of the longer message |
| Sha1Stream.Context.Update | src/websocket.c:142-165 | state, buffered tail and bit count depend only on all bytes so far, never on how they were cut |
| Sha1Stream.ChunkingIrrelevant | src/websocket.c:142-165 | two contexts fed the same bytes in different pieces are indistinguishable |
| Sha1Stream.LastBytes | src/websocket.c:152-164 | the closing copy leaves exactly the tail at the front of the buffer |
| Sha1Stream.Context.FinalCount | src/websocket.c:172-173 | the eight count bytes are the low word's, then the high word's |
| Sha1Stream.ByteOf | src/websocket.c:173-181 | shift and mask give a byte of a word |
| Sha1Stream.RoomAt | src/websocket.c:176-177 | zeros are appended exactly until 56 bytes are buffered |
| Sha1Stream.Context.Final | src/websocket.c:167-182 | terminates with message, 0x80, zeros and length words compressed as whole blocks, and the digest of that state |
| Sha1Stream.DigestReadsBack | src/websocket.c:179-181 | read as big-endian words, the digest is the final state |
| Sha1Stream.DigestDetermines | src/websocket.c:179-181 | two final states have one digest only if they are one state |
| Sha1Stream.HashChunks | src/websocket.c:217-219 | initialise, any updates, finish: the hash of the concatenation |
| Sha1Stream.PaddedIsWhole | src/websocket.c:175-178 | the padded message is whole blocks and less than two blocks longer |
| Sha1Stream.PaddingBytes | src/websocket.c:172-178 | after the message stand 0x80, zeros and the length in bits as two big-endian words, the low one first, where the standard has the high one first |
| Sha1Stream.StandardIffWordsEqual | src/websocket.c:172-178 | the padded message is that of section 5.1.1 of FIPS 180-4 if and only if the two length words are equal |
| Sha1Stream.StandardDigest | src/websocket.c:167-182 | where the two length words agree the digest is that of section 6.1 of FIPS 180-4 |
| Sha1Stream.ShortMessages | src/websocket.c:172-178 | below 2^29 bytes only the empty message is padded as the standard says |
| Sha1Stream.EqualWordsExist | src/websocket.c:172-178 | a longer message whose length words agree is padded as the standard says |
| Base64.EncodedLength | src/websocket.c:184-208 | the output is four bytes for every three of input, rounded up, without a NUL |
| Base64.GroupNumber | src/websocket.c:191-199 | the four symbols of a group spell its 24 bits in base 64 |
| Base64.Alphabet | src/websocket.c:184-199 | the symbols are those of Table 1 of RFC 4648 |
| Base64.Vectors | src/websocket.c:184-208 | the seven examples of section 10 of RFC 4648 |
| Base64.DecodeEncode | src/websocket.c:184-208 | decoding the output gives the input, for every length |
| Base64.EncodeDecode | src/websocket.c:184-208 | the decoder accepts nothing but encodings, so texts and byte strings correspond one to one |
| Base64.FilledEncode | src/websocket.c:201-207 | overwriting the filler symbols of the last group with padding gives the encoding of section 4 of RFC 4648 |
| Base64.Triple | src/websocket.c:194 | three bytes joined by shifts and ORs are the 24-bit group |
| Base64.EncodeInto | src/websocket.c:184-208 | the buffer receives the encoding and a NUL and is untouched beyond |
| Handshake.ComputeAcceptKey | src/websocket.c:210-222 | the accept key is the encoding of the hash of key and identifier cut to 255 bytes; a short buffer is left alone |
| Handshake.JoinedKey | src/websocket.c:210-216 | the hashed text is a key of up to 219 bytes followed by the whole identifier of section 1.3 of RFC 6455, and the first 255 bytes of the two for a longer one |
| Handshake.NeverStandardPadding | src/websocket.c:172-222 | no upgrade hashes a message padded as section 5.1.1 of FIPS 180-4 says |
| Handshake.AcceptKeyDecodes | src/websocket.c:210-222 | the key is 28 symbols and decodes to the 20-byte hash |
| Routes.MatchSound | src/params.c:29-77 | for every template a match substitutes back to the path exactly, values are slash-free and below 1024 bytes, names and count are the template's |
| Routes.MatchComplete | src/params.c:29-77 | in a separated template a path made from values that fit matches and captures those values |
| Routes.CapturesFit | src/params.c:29-77 | the captures of a match are values that fit |
| Routes.MatchesExactly | src/params.c:29-77 | a separated template matches exactly the paths obtained by substituting fitting values for at most 64 placeholders |
| Routes.Unambiguous | src/params.c:29-77 | a path comes from at most one list of values |
| Routes.RecoversIffSeparated | src/params.c:29-77 | for ordinary values the matcher recovers what was substituted if and only if every placeholder is followed by a slash or the end |
| Routes.NotSeparatedFails | src/params.c:52-61 | a placeholder followed by anything else takes too much |
| Routes.AdjacentHoles | src/params.c:52-61 | a concrete template and path that show the separator is needed |
| Routes.SegmentPlain | src/params.c:52-57 | what a placeholder takes is a slash-free prefix of the path below the clamp |
| Routes.Hole | src/params.c:39-61 | a placeholder in braces takes what stands before the next slash or the end, whatever follows |
| Routes.UserPosts | src/params.c:29-77 | `/users/{id}/posts` matches `/users/42/posts` with `id` bound to `42` |
| Dispatch.MatchPath | src/params.c:29-77 | the loop ends with the captures of the specification in the leading parameters and the rest untouched; on failure the count is untouched |
| Dispatch.Request.Get | src/params.c:86-100 | the value of the first parameter of that name, or NULL |
| Dispatch.FindRoute | src/response.c:42-64 | the first route in table order that has the request's method and matches its path, with the captures of a fresh match of it alone; NULL if and only if there is none |
| Dispatch.WsTable.constructor | src/websocket.c:308-330 | an empty table |
| Dispatch.WsTable.Register | src/websocket.c:308-330 | registration appends, through any growth, doubling from four |
| Dispatch.WsTable.FindWsRoute | src/websocket.c:344-359 | the first registered route that matches, with the captures of a fresh match |
| Dispatch.LookupBound | src/params.c:86-100 | with distinct short names each look-up gives its own value |
| Dispatch.HandlerReadsValues | src/params.c:29-100 | end to end, a handler reads back every value substituted into the template |
| RateLimit.AtMostTwice | src/middlewares.c:114-150 | over any run with a monotone clock any window's worth of consecutive seconds admits at most twice the limit of one client's requests, one fewer when the clock does not tick inside a request |
| RateLimit.AtMostOnce | src/middlewares.c:114-150 | with a window of one second at most the limit is admitted in any second |
| RateLimit.WithinLimit | src/middlewares.c:114-150 | a request is never refused while its client made at most the limit of requests in the window of seconds it ends |
| RateLimit.CounterHonest | src/middlewares.c:130-140 | the counter never runs ahead of the requests made since the window started |
| RateLimit.BudgetHolds | src/middlewares.c:114-150 | the counting invariant behind the bound holds after every run |
| RateLimit.BudgetStep | src/middlewares.c:130-140 | serving one request keeps the counting invariant |
| RateLimit.StartsApart | src/middlewares.c:132-136 | successive windows of a client start at least the window length apart |
| RateLimit.StartsInPast | src/middlewares.c:126-136 | a window never starts after the latest reading |
| RateLimit.TwiceReached | src/middlewares.c:114-150 | for every positive limit and every window of two seconds or more a run attains twice the limit |
| RateLimit.SteadyReached | src/middlewares.c:114-150 | and one attains twice the limit less one with a clock that does not tick inside a request |
| RateLimit.ZeroLimit | src/middlewares.c:138-146 | a limit that truncates to zero refuses everything |
| RateLimit.ZeroWindow | src/middlewares.c:132-136 | a window that truncates to zero seconds refuses nothing |
| RateLimiter.ShiftAndAdd | src/middlewares.c:109-110 | the shift-and-add of the hash is multiplication by 33 modulo 2^64, signed characters included |
| RateLimiter.Hash | src/middlewares.c:104-112 | the loop computes the slot of an address |
| RateLimiter.ShortSlots | src/middlewares.c:104-112 | the slots of the empty address, of one letter, and of a byte that counts as negative |
| RateLimiter.AgreeStep | src/middlewares.c:114-150 | one request keeps table and map in agreement and gets the same verdict from both |
| RateLimiter.TableAgrees | src/middlewares.c:114-150 | over whole runs the table gives the verdicts of the unbounded per-client map, while no two clients share a slot and no window sees 2^32 requests |
| RateLimiter.FaithfulIffNoSharing | src/middlewares.c:114-150 | for every set of clients, the table gives the map's verdict on every quiet run of theirs if and only if no two of them share a slot |
| RateLimiter.SharersUnfaithful | src/middlewares.c:121-128 | two clients of one slot taking turns: the map refuses the last request and the table admits it |
| RateLimiter.TurnsNeverRefused | src/middlewares.c:121-128 | two clients of one slot taking turns are never refused again by the table |
| RateLimiter.AddressesShare | src/middlewares.c:104-112 | "1.0.2.1" and "1.1.0.2" both fall in slot 1971 |
| RateLimiter.LetThroughBounded | src/middlewares.c:114-150 | verdicts that are the map's let at most twice the limit of one client through in any window's worth of seconds, and at most the limit when the window is one second |
| RateLimiter.ModestAdmitted | src/middlewares.c:114-150 | verdicts that are the map's never refuse a client that keeps within the limit |
| RateLimiter.Limiter.constructor | src/middlewares.c:49-71 | zeroed tables and five requests a second |
| RateLimiter.Limiter.Configure | src/middlewares.c:161-169 | the limits are truncated to 8 and 16 bits |
| RateLimiter.Limiter.Admit | src/middlewares.c:114-150 | exactly one slot changes, to the client and its window after this request, and the verdict compares the counter with the limit |
| RateLimiter.Limiter.AdmitAll | src/middlewares.c:114-150 | a run of requests on a fresh table gets the verdicts of the per-client map, so with a monotone clock it lets at most twice the limit of each client through in any window's worth of seconds, and at most the limit when the window is one second; a client that keeps within the limit is never refused |

## Left out

- JsonList.AddItemToArray: for an ancestor of the list, or a node deeper below it, only the pointers of this list are stated, not what becomes of the tree or of the list the node was in; likewise insertion.
- JsonList.DetachItemViaPointer: the last item of another list while the parent is empty is left out, because the source then follows a NULL pointer.
- JsonList.ReplaceItemViaPointer: for an item of another container, the replacement is in neither list.
- JsonAccepted.InputTaken: without a required NUL it says that a document comes first, not which bytes may follow one that is a number.
- JsonCompare.CompareDecides: holds for integer numbers of 32 bits; beyond them comparison is not transitive (`JsonCompare.ToleranceAddsUp`).
- JsonTree.Compare: for two different nodes that share nodes and hold members at odds under one key, only termination is stated.
- JsonPrinter.PrintNumber: covers the `%d` path only; `%g` text, the locale's decimal point, NaN and infinity are not modelled.
- JsonLexer.ParseNumber: reads decimals exactly; rounding and overflow of doubles are not modelled.
- JsonParser.ParseWithLengthOpts: the error position reported on failure is not modelled.
- RateLimiter.FaithfulIffNoSharing: is about positive limits and windows; with a zero one the verdict is constant (`RateLimit.ZeroLimit`, `RateLimit.ZeroWindow`) and sharing does not matter.
- WsPool.Pool.Sweep: connections are known by identity, not by address; pointers held across the unlock while the pool may be reallocated, and the unreachable exit for an index past the end, are not modelled.
- Raw items, reference and constant-string flags, custom allocators, allocation failure and freeing.
- Leaf nodes that are given children, and strings that are NULL in a node of string kind.
- `cJSON_Minify`, the typed constructors, and the object variants of insert, detach and replace, which only look up a key and call the operations above.
- Fragmented messages: continuation frames are dropped and FIN and RSV are ignored by the source.
- That `on_close` runs exactly once: the source may skip it for a peer-closed connection, so only "at most once" is claimed; the order of `on_open` is not modelled either.
- Broadcasts, upgrade headers, route prefixes, CORS, ETag, i18n, header, cookie, query, body and media handling, recovery and logging.
- Sockets, `select`, timeouts, threads and mutexes: `recv` is any chunk that fits, `send` any script of results, the lock makes its sections atomic, and clock readings are parameters.
