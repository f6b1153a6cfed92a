# Verified model of the camera firmware's core logic

The project models five parts of an IP camera firmware and proves what they promise.

- **JSON engine** (`common/cJSON/cJSON.c`): the parser over a NUL-terminated buffer, the printer over a
  growing or preallocated buffer, the string codec, the linked node structure, comparison, duplication and
  the in-place minifier.
- **Message queue** (`common/buffer/msg_buffer.c`) and its consumer (`server/aliyun/aliyun.c`): a
  power-of-two ring of messages that own their payload blocks, and the consumer that lets system and
  response messages overtake while it is locked.
- **Stepper driver** (`module/hi_ptz/hi_ptz.c`): the timer tick and the ioctl.
- **Configuration map** (`common/config/rwio.c`): typed variables saved as JSON and loaded again.
- **Frame-rate decimator** (`gmp/include/math_fun.h`).

## How it is built

Code that changes state in the source is a class or a method over arrays here (`ParseBuffer.Parser`,
`PrintBuffer.Printer`, `NodeList.Item`, `NodePool.Pool`, `MessageBuffer.Queue`, `AliyunServer.Server`, `Stepper.Driver`,
`ConfigMap.CjsonToDataByMap`, `FrameRate.FpsCtrl`, `Minify.MinifyInPlace`). Each method is proved to compute a
function of the old state; the laws are lemmas about those functions, and tie each of them to something that is
said without it: a grammar, a table of characters, a relation, an inverse.

| files | content |
|---|---|
| `Bytes`, `Unicode`, `Numbers`, `NumberTexts`, `NumberValues`, `Arithmetic` | byte strings, UTF-8 and UTF-16, number conversion, number texts and what they are worth, remainders and masks |
| `StringCodec`, `StringReader`, `Literals`, `LiteralErrors` | string literals: printing, reading, the two passes of the reader, what a literal means, and where one is rejected |
| `Json`, `JsonParser`, `JsonGrammar`, `JsonAcceptance`, `JsonErrors`, `JsonDialect`, `JsonRoundTrip`, `JsonDocument` | trees, serialiser, parser function, grammar, what is accepted and where the rest is rejected, differences from RFC 8259, round trips |
| `ParseBuffer`, `PrintBuffer`, `NodeRoundTrip` | the parser and the printer as machines over linked nodes, and one after the other |
| `Minify`, `MinifyMeaning`, `MinifyFormat` | the minifier, what it keeps of a text, and what it undoes |
| `Compare`, `NodeList`, `NodeCompare` | the comparison of documents, the linked nodes and duplication, comparison over linked nodes |
| `NodePool`, `NodeBuilder` | the blocks of nodes and their release, and lists under construction |
| `Messages`, `MessageBuffer` | payload ownership and the ring |
| `MessageConsumer`, `AliyunServer` | runs of the queue, and the server's code as steps of a run |
| `Stepper`, `ConfigMap`, `ConfigMeaning`, `FrameRate` | the three smaller parts |

Where the code departs from what its documentation or a standard suggests, the model follows the code:

- `cJSON.h` advises 5 bytes more than the text for a preallocated buffer; two are enough, and necessary.
- `\u` with malformed digits is read as U+0000, not rejected; an embedded zero byte then ends the C string.
- The minifier takes `\"` for an escape even behind another backslash, so it does not always undo formatting;
  `MinifyFormat.MinifyUndoesFormatting` gives the exact condition.
- Skipping blanks consumes control characters and the terminating NUL, and then steps back by one.
- A string may contain raw control characters, which RFC 8259 does not allow; `Literals.RfcStringIff` says which
  accepted literals are its strings.
- `strtod` decides where a number ends, so forms RFC 8259 does not allow (leading zeros, a bare point) are accepted; `NumberTexts.RfcNumberIff` says which.

## Model

| member | source | states |
|---|---|---|
| Unicode.Utf8RoundTrip | common/cJSON/cJSON.c:656-703 | the UTF-8 bytes of a character decode to that character alone, for every Unicode scalar value |
| Unicode.Utf8Only | common/cJSON/cJSON.c:656-703 | and no other bytes decode to it, by the grammar of section 4 of RFC 3629 |
| Unicode.Utf16RoundTrip | common/cJSON/cJSON.c:604-654 | the UTF-16 code units of any text decode to the text: surrogate pairs are built and taken apart consistently |
| Unicode.Utf16Pair | common/cJSON/cJSON.c:604-654 | a pair carries the number above U+FFFF ten bits at a time, and the character it decodes to is written as that pair |
| Unicode.Utf16Examples | common/cJSON/cJSON.c:604-654 | the ends of the range that takes surrogate pairs, and the example of RFC 2781 |
| StringCodec.StringRoundTrip | common/cJSON/cJSON.c:714-962 | for every NUL-free byte string, reading the printed literal gives the string back and stops right behind the closing quote |
| StringCodec.QuotedInjective | common/cJSON/cJSON.c:843-962 | different strings have different literals |
| StringCodec.ControlEscaped | common/cJSON/cJSON.c:926-954 | a control character without a letter of its own is written as \u00 and its two lower-case digits |
| Literals.PrintsShortest | common/cJSON/cJSON.c:843-962 | no string of RFC 8259 with the same meaning is shorter than the printed one: nothing is escaped that need not be, and nothing longer than it must |
| StringCodec.Hex4Spelled | common/cJSON/cJSON.c:556-591 | four hexadecimal digits, each of either case, give the code unit they stand for; with any other byte among them the result is 0 |
| StringCodec.ShortEscapes | common/cJSON/cJSON.c:779-803 | the eight letters that may follow a backslash and the bytes they stand for, and no others |
| Literals.ShortLiterals | common/cJSON/cJSON.c:759-803 | a literal of plain bytes and one-character escapes is read byte for byte, each escape as the byte it stands for |
| Literals.LiteralReads | common/cJSON/cJSON.c:714-840 | what parse_string makes of any literal, taken apart into plain bytes, short escapes, \u groups with whatever four bytes, and escapes the end cuts off: the value the pieces mean, or failure if they mean none |
| Literals.ReadsIffDenotes | common/cJSON/cJSON.c:714-840 | at any place of any buffer a string with that value and end is read if and only if a closed literal with that meaning stands there |
| Literals.AcceptedIff | common/cJSON/cJSON.c:593-840 | a closed literal is accepted if and only if each of its pieces is sensible where it stands: no unknown or cut-off escape, and every surrogate paired |
| Literals.LoneSurrogateRejected | common/cJSON/cJSON.c:593-655 | a low surrogate without a high one in front, or a high one without a low one behind, makes parse_string fail, whatever else the literal contains |
| Literals.UnicodeLiterals | common/cJSON/cJSON.c:593-815 | a literal of \uXXXX groups, with digits of either case taken from the two rows of sixteen, is accepted if and only if the code units they spell are well-formed UTF-16, and then its value is their UTF-8 form |
| Literals.UnicodeText | common/cJSON/cJSON.c:593-815 | every sequence of Unicode scalar values whose UTF-16 code units are spelled digit by digit, in either case, arrives in UTF-8 (section 3 of RFC 3629, section 2.2 of RFC 2781) |
| Literals.BadDigitsReadAsNul | common/cJSON/cJSON.c:556-591 | anywhere in a literal a \u group with a malformed digit has the effect of \u0000: same value, or same failure |
| Literals.RfcStringIff | common/cJSON/cJSON.c:714-840 | of the literals parse_string accepts, exactly those without raw control characters and malformed digits are strings of section 7 of RFC 8259 |
| Literals.RfcStringReads | common/cJSON/cJSON.c:714-840 | every string of RFC 8259 closes where it should and is accepted if and only if none of its surrogates is alone |
| LiteralErrors.StringFailsIff | common/cJSON/cJSON.c:714-840 | parse_string fails at a position if and only if that is the first piece of the closed literal that stands for nothing, or the place behind the first byte where no closed literal begins |
| StringReader.ParseHex4 | common/cJSON/cJSON.c:556-591 | the loop computes the code unit that four hexadecimal digits of either case spell, and 0 if one of the bytes is not a digit |
| StringReader.Utf16LiteralToUtf8 | common/cJSON/cJSON.c:593-711 | writes exactly the UTF-8 form of the literal behind what is there and reports the input used, or writes nothing for an invalid literal |
| StringReader.EncodeUtf8 | common/cJSON/cJSON.c:656-703 | the byte loop that fills the sequence from its end writes exactly the UTF-8 form |
| StringReader.SizeLiteral | common/cJSON/cJSON.c:727-757 | the sizing pass finds the closing quote of the literal and counts the backslashes it steps over, or reports that there is none |
| StringReader.Room | common/cJSON/cJSON.c:727-757 | one turn of the decoding pass writes no more than the sizing pass allowed for the bytes it consumes, also when bad \u digits put the two passes out of step |
| StringReader.DecodeLiteral | common/cJSON/cJSON.c:759-818 | in a buffer of exactly the allocated size the decoding pass stays in bounds, terminates the text, and gives the literal's value or the error position |
| PrintBuffer.CountEscapes | common/cJSON/cJSON.c:866-894 | the counting loop of the string printer yields exactly the number of extra bytes the escaped text has |
| PrintBuffer.Printer.WriteLiteral | common/cJSON/cJSON.c:896-962 | the plain copy and the escaping loop both write the quoted literal and its NUL into the bytes counted beforehand |
| Numbers.IntTextRead | common/cJSON/cJSON.c:280-355 | the decimal text of an integer is converted back to it, all of its bytes used |
| NumberValues.IntTextIs | common/cJSON/cJSON.c:490-553 | the printed text of an integer is the number of RFC 8259 worth it: its digits and nothing else, without a leading zero, behind a minus sign exactly if it is negative |
| Numbers.IntTextLength | common/cJSON/cJSON.c:490-553 | the text of an integer below 10^15 in magnitude fits the number buffers of printer and parser |
| NumberTexts.StrtodIsLongest | common/cJSON/cJSON.c:280-334 | the conversion takes the longest front part that is a number text (sign, digits with an optional point among or around them, exponent), and nothing if there is none |
| NumberTexts.StrtodPrefix | common/cJSON/cJSON.c:334-355 | its value depends on the bytes it takes and on no others |
| NumberValues.ConvertsIffWorth | common/cJSON/cJSON.c:280-334 | a text is converted as a whole to a value if and only if it is a number text worth that value: each digit by its place left or right of the point, times the power of ten of the exponent, with both signs |
| NumberTexts.RfcNumberIff | common/cJSON/cJSON.c:280-355 | a number text without a plus sign in front is a number of section 6 of RFC 8259 if and only if it has no leading zero and no point without digits on both sides |
| JsonRoundTrip.RoundTripAt | common/cJSON/cJSON.c:1228-1734 | wherever the printed text of a tree stands in a buffer, at whatever print depth and nesting depth, the parser returns the tree and the offset behind the text, unless it nests too deeply, and then it fails |
| JsonDocument.DocumentRoundTrip | common/cJSON/cJSON.c:1016-1734 | parsing the formatted or unformatted print of a tree of null, booleans, plain integers, NUL-free strings, arrays and objects gives the tree back, members in order, and stops at the end of the text, if and only if the tree has at most 1000 container levels |
| JsonAcceptance.ParsesIffDerives | common/cJSON/cJSON.c:1228-1620 | on any terminated buffer the parser returns a tree and an offset if and only if the bytes up to there are a text of that tree in the grammar: brackets, commas, colons, blanks between tokens, at most 1000 levels; a string token is a closed literal with its meaning, a number token the longest number text within 63 bytes, for what its digits are worth |
| JsonAcceptance.AcceptsIff | common/cJSON/cJSON.c:1016-1093 | a document is accepted with a tree and an end if and only if its buffer is a mark, blanks, a text of the tree and, where the end is required, only blanks: everything else is rejected |
| JsonErrors.StuckIff | common/cJSON/cJSON.c:1228-1620 | parsing a value fails at a position if and only if the text leaves the grammar there: at a value that is none, inside a string, at a name, at a missing colon, behind an element that neither a comma nor the closing bracket follows, or at the bracket that is one level too deep |
| JsonErrors.RejectsIff | common/cJSON/cJSON.c:1016-1093 | a document is rejected with a position if and only if that is where its value goes wrong, or, where the end is required, the first thing behind the value that is no blank |
| JsonDialect.RfcNumberParses | common/cJSON/cJSON.c:280-355 | a number of RFC 8259 of at most 63 bytes that no further number byte follows is parsed whole, for what its digits are worth |
| JsonDialect.LeadingZeroAccepted | common/cJSON/cJSON.c:295-334 | 01 is accepted as 1, though RFC 8259 does not allow it |
| JsonDialect.BarePointAccepted | common/cJSON/cJSON.c:295-334 | so is 1. without digits behind the point |
| JsonDialect.MalformedGroupAccepted | common/cJSON/cJSON.c:556-591 | a string with a malformed \u group is accepted, as the empty C string |
| JsonDialect.ControlCharacterAccepted | common/cJSON/cJSON.c:759-764 | a string with a raw newline in it is accepted, though RFC 8259 does not allow it |
| JsonDocument.SerialInjective | common/cJSON/cJSON.c:1283-1734 | two trees with the same text, in whatever format, are equal |
| JsonDocument.SerialNulFree | common/cJSON/cJSON.c:1283-1734 | printed text is a C string |
| Json.NameLayout | common/cJSON/cJSON.c:1283-1320 | null, false and true are printed as these words |
| Json.ArrayLayout | common/cJSON/cJSON.c:1452-1511 | an array is printed as its elements between brackets, with a comma, and in a formatted text one space, between any two |
| Json.ObjectLayout | common/cJSON/cJSON.c:1623-1734 | an object is printed as its members between braces, separated by commas; in a formatted text each on a line of its own, indented by one tab a level, with a tab behind the colon |
| JsonDocument.ParsedShape | common/cJSON/cJSON.c:1228-1620 | every accepted value has NUL-free texts and names and at most the 1000 levels, whatever the input |
| JsonDocument.ReprintStable | common/cJSON/cJSON.c:1016-1734 | any accepted text with plain integers can be printed and parsed again without a change of its tree |
| ParseBuffer.Parser.SkipWhitespace | common/cJSON/cJSON.c:979-997 | the offset ends on the first byte above a blank, or is rewound onto the terminating NUL |
| ParseBuffer.Parser.ReadNumber | common/cJSON/cJSON.c:280-355 | the collected bytes convert as the specification says, within the 64-byte buffer, and become the node's value |
| ParseBuffer.Parser.ReadText | common/cJSON/cJSON.c:714-840 | value, offset and error offset as specified; the string's block is live on success and released after a failure |
| ParseBuffer.Parser.ParseValue | common/cJSON/cJSON.c:1228-1280 | a given node becomes a tree of new linked nodes for the value the parser function finds, at the offset it finds, the nesting depth restored and exactly the blocks of the tree allocated; or it fails at the same offset with nothing left over |
| ParseBuffer.Parser.ParseItemList | common/cJSON/cJSON.c:1358-1449 | the same for an array, the depth limit included |
| ParseBuffer.Parser.ParseMemberList | common/cJSON/cJSON.c:1514-1620 | the same for an object |
| ParseBuffer.Parser.ReadItems | common/cJSON/cJSON.c:1385-1448 | the element loop with its offset rewinds chains one new node per element; after an error every block is released |
| ParseBuffer.Parser.ReadMembers | common/cJSON/cJSON.c:1541-1619 | the member loop chains one new node per member under its name; after an error every block is released |
| ParseBuffer.Parser.ParseWithOpts | common/cJSON/cJSON.c:1016-1093 | an accepted document yields a root with a tree of new nodes, prev, next and child consistent throughout, that stands for the parsed value, and the end offset; a rejected one the error position and no block left |
| JsonParser.Parse | common/cJSON/cJSON.c:1228-1280 | parsing terminates on every terminated buffer, and a success moves strictly forward and stays inside it |
| PrintBuffer.Printer.Ensure | common/cJSON/cJSON.c:389-474 | room for the request with the text so far kept, or a refusal exactly when no buffer the printer may have is large enough; a buffer that grows becomes twice as large as needed, or as large as possible |
| PrintBuffer.Printer.UpdateOffset | common/cJSON/cJSON.c:477-487 | from anywhere inside the last text the offset moves to its end |
| PrintBuffer.Printer.PrintString | common/cJSON/cJSON.c:843-968 | the literal of the string, terminated |
| PrintBuffer.Printer.PrintNumber | common/cJSON/cJSON.c:490-553 | the decimal digits of a plain integer, terminated |
| PrintBuffer.Printer.PrintValue | common/cJSON/cJSON.c:1283-1355 | over linked nodes: behind what was printed before stands the serialised document and a NUL, with the offset somewhere inside; it succeeds exactly when text and two bytes fit, whatever the capacity was |
| PrintBuffer.Printer.PrintArray | common/cJSON/cJSON.c:1452-1511 | the same for an array, along the chain of its elements |
| PrintBuffer.Printer.PrintObject | common/cJSON/cJSON.c:1623-1734 | the same for an object, along the chain of its members, depth restored |
| PrintBuffer.Print | common/cJSON/cJSON.c:1103-1176 | the serialised text of a tree, complete, unless it exceeds the largest buffer |
| PrintBuffer.PrintBuffered | common/cJSON/cJSON.c:1178-1205 | the caller's guess at the size never shows in the text |
| PrintBuffer.PrintPreallocated | common/cJSON/cJSON.c:1208-1225 | succeeds exactly when the buffer has two bytes more than the text, and then holds the terminated text |
| NodeRoundTrip.PrintAndParse | common/cJSON/cJSON.c:1016-1176 | printing a tree and parsing the text gives a second tree for the same document on new nodes if and only if it has at most 1000 levels, and else leaves no block |
| Minify.MinifyTwice | common/cJSON/cJSON.c:2652-2747 | minifying a second time changes nothing, for every text |
| MinifyMeaning.MinifyIff | common/cJSON/cJSON.c:2652-2747 | minifying gives a result if and only if the text is made of parts (solid bytes, blanks, line and block comments, literals, lone slashes) of which the solid bytes and the literals, in order and unchanged, are that result |
| MinifyMeaning.BlanksDropped | common/cJSON/cJSON.c:2710-2742 | without quotation marks and slashes every space, tab, carriage return and newline is dropped, and every other byte kept as often as it occurs |
| MinifyMeaning.OutsideAppend | common/cJSON/cJSON.c:2710-2742 | and such a stretch is minified apart from what follows it, so the order is kept |
| Minify.MinifyInPlace | common/cJSON/cJSON.c:2701-2747 | the in-place run leaves the scanner's output and a NUL, reads only what it has not yet overwritten, and touches nothing behind the text; what the output is, MinifyIff says |
| Minify.MinifyString | common/cJSON/cJSON.c:2679-2699 | copies a literal, taking any backslash-quote pair as an escape |
| Minify.SkipLine | common/cJSON/cJSON.c:2652-2663 | stops on the newline or at the end of the text |
| Minify.SkipBlock | common/cJSON/cJSON.c:2665-2677 | stops behind the closing mark or at the end of the text |
| MinifyFormat.MinifyUndoesFormatting | common/cJSON/cJSON.c:1623-1734 | minifying the formatted print gives the unformatted print if and only if no string or name but the very last thing in the tree ends in a backslash |
| MinifyFormat.CleanIsUnformattable | common/cJSON/cJSON.c:2679-2699 | in particular whenever no string or name in the tree ends in a backslash |
| MinifyFormat.MinifyKeepsABlank | common/cJSON/cJSON.c:2693 | a tree for which it does not: a string that ends in a backslash, followed by another element |
| NodeCompare.CompareItems | common/cJSON/cJSON.c:2849-2972 | over linked nodes: NULL equals nothing, a node equals itself, and two different nodes, of one tree or of separate ones, compare equal exactly if all members below them have names and their documents compare equal |
| NodeCompare.CompareElements | common/cJSON/cJSON.c:2906-2929 | the loop along two chains of elements |
| NodeCompare.CompareOneWay | common/cJSON/cJSON.c:2931-2947 | one pass over the members of an object, each looked up in the other |
| NodeCompare.CompareWithDuplicate | common/cJSON/cJSON.c:2572-2972 | a tree and its duplicate compare equal if and only if every member has a name and duplicate names carry equal values; in particular whenever the names in every object are distinct |
| Compare.Find | common/cJSON/cJSON.c:1789-1819 | the first member with that name, and none only if no name matches |
| Compare.SameNameIff | common/cJSON/cJSON.c:108-128 | two names are the same if and only if they are equal or, without regard to case, have the same length and differ at most between the two cases of a letter of the alphabet |
| Compare.FindIff | common/cJSON/cJSON.c:1789-1819 | so a lookup finds a member if and only if its name agrees in that sense and no earlier one does |
| Compare.CompareSymmetric | common/cJSON/cJSON.c:2849-2972 | comparison is symmetric, with or without regard to case, also with duplicate names |
| Compare.CompareTransitive | common/cJSON/cJSON.c:2849-2972 | comparison is transitive, also with duplicate names |
| Compare.CompareReflexive | common/cJSON/cJSON.c:2849-2972 | a tree compares equal to its copy if and only if duplicate names carry equal values |
| Compare.UnequalToItself | common/cJSON/cJSON.c:2849-2972 | an object with two equal names and different values, which does not compare equal to its copy |
| Compare.DistinctReflexive | common/cJSON/cJSON.c:2849-2972 | in particular whenever the names in every object are distinct |
| Compare.CompareMeaning | common/cJSON/cJSON.c:2849-2972 | with or without regard to case, comparison holds exactly between trees equal up to the order of members and the case of names in which duplicate names agree |
| Compare.FoldIff | common/cJSON/cJSON.c:108-128 | where two names count as one exactly if they agree letter by letter up to case |
| Compare.ReorderedMembers | common/cJSON/cJSON.c:2931-2965 | an object with distinct names compares equal to any reordering of itself |
| NodeList.AddItemToArray | common/cJSON/cJSON.c:1865-1892 | append: prev and next stay mutually inverse and NULL-ended, the chain is the sequence with the item at the end |
| NodeList.GetArrayItem | common/cJSON/cJSON.c:1760-1777 | the child at the index, or NULL |
| NodeList.ChainUnique | common/cJSON/cJSON.c:1760-1777 | only one sequence of nodes hangs from a parent |
| NodeList.CaseInsensitiveStrcmp | common/cJSON/cJSON.c:108-128 | the loop finds two names equal exactly if they agree letter by letter up to case |
| NodeList.GetObjectItem | common/cJSON/cJSON.c:1789-1819 | the first child whose name agrees, letter by letter and up to case where that is ignored, or NULL if there is none; a nameless child ends a case-sensitive search and is passed over by the other |
| NodeList.SearchIsFind | common/cJSON/cJSON.c:1789-1819 | with every child named this is the first member of that name |
| NodeList.DetachItemViaPointer | common/cJSON/cJSON.c:2092-2120 | removal at any position; the node ends up detached |
| NodeList.DetachItemFromArray | common/cJSON/cJSON.c:2122-2130 | removal by index; nothing changes when there is none |
| NodeList.InsertItemInArray | common/cJSON/cJSON.c:2162-2189 | insertion before the index, or at the end when there is none; without a new item nothing happens |
| NodeList.ApplyAll | common/cJSON/cJSON.c:1865-2234 | any run of append, insert, detach and replace with nodes of their own: the chain is what the same run makes of a sequence, every node that is not in it at the end has null links, and no other node is written |
| NodeList.AddItemToObject | common/cJSON/cJSON.c:1916-1956 | the item under its new name is the last member of the document, all other members are as before, and the whole is a tree again |
| NodePool.Pool.Delete | common/cJSON/cJSON.c:228-249 | the walk along next and down child releases the node, name and string of every node of the chain and below it, each block while it is live and hence once, and no other |
| NodePool.OwnedIff | common/cJSON/cJSON.c:228-249 | what a tree owns: the node, the name and the string of each of its nodes, and nothing else |
| NodePool.Pool.ReplaceItemViaPointer | common/cJSON/cJSON.c:2191-2224 | the replacement takes the place in the chain, and exactly the blocks of the replaced subtree are released |
| NodePool.Pool.ReplaceItemInArray | common/cJSON/cJSON.c:2226-2234 | the same by index; nothing changes when there is none |
| NodePool.Pool.DeleteItemFromArray | common/cJSON/cJSON.c:2132-2135 | the chain loses the child at the index, and exactly its blocks are released |
| NodeList.Duplicate | common/cJSON/cJSON.c:2572-2650 | a recursive duplicate has the same nodes throughout (content, name or absence of one, children in order), and so the same document, on nodes that did not exist before; a shallow one has no children |
| NodeList.CopyChildren | common/cJSON/cJSON.c:2611-2639 | the loop that links the copies of the children |
| Arithmetic.MaskIsModulo | common/buffer/msg_buffer.c:49-59 | masking with size - 1 is the remainder for every power of two, for negative differences of the indices too |
| Messages.ReplaceAt | common/buffer/msg_buffer.c:65-102 | when one message gives up its blocks and takes fresh ones, no two messages come to share a block, no other block changes, and only that message says something new |
| Messages.ReadIff | common/buffer/msg_buffer.c:65-102 | when two messages in whatever memories say the same: equal headers, numbers and sizes, and payloads equal byte by byte or, where they are no blocks, the same pointer |
| MessageBuffer.Heap.DeepCopy | common/buffer/msg_buffer.c:65-102 | the target's blocks are freed, the copy says what the source says with blocks of its own |
| MessageBuffer.Heap.MsgFree | common/buffer/msg_buffer.c:277-291 | frees exactly what the message owns, clears size and pointer of each payload it frees, and nothing else of the message |
| MessageBuffer.Queue.constructor | common/buffer/msg_buffer.c:104-130 | an empty queue whose slots own nothing, for every power-of-two size |
| MessageBuffer.OneSlotLoses | common/buffer/msg_buffer.c:237-271 | what Push says of a ring of one slot: a push that overwrites is reported as accepted with overflow, and nothing is queued |
| MessageBuffer.Queue.NumItems | common/buffer/msg_buffer.c:57-59 | the number of queued messages, across wrap-around |
| MessageBuffer.Queue.IsEmpty | common/buffer/msg_buffer.c:49-51 | whether nothing is queued |
| MessageBuffer.Queue.IsFull | common/buffer/msg_buffer.c:53-55 | whether size - 1 messages are queued |
| MessageBuffer.Queue.ProbeItem | common/buffer/msg_buffer.c:169-180 | the message at the position counted around the ring; the free slot behind the last one reads as absent |
| MessageBuffer.Queue.Push | common/buffer/msg_buffer.c:237-271 | outcome and contents under both overflow policies: appended with the next sequence number, the oldest dropped and freed when full, rejected without effect otherwise, for every power-of-two size down to a single slot; memory not owned by the queue is untouched |
| MessageBuffer.Queue.Pop | common/buffer/msg_buffer.c:215-235 | the oldest message moves to the caller with its payloads copied, its slot owns nothing, and every other block is untouched |
| MessageBuffer.Queue.SwapItem | common/buffer/msg_buffer.c:33-44 | two slots exchange what they say; the temporary copy is freed again |
| MessageBuffer.Queue.Swap | common/buffer/msg_buffer.c:196-213 | a rotation: the item at dest moves to org, those between move back by one, for any place of the tail; contents and ownership of all else are kept |
| MessageBuffer.PromotedAt | common/buffer/msg_buffer.c:196-213 | what that rotation puts at each position |
| MessageBuffer.Queue.Release | common/buffer/msg_buffer.c:139-160 | every block of the queue is freed and no other |
| MessageConsumer.UrgentIds | common/buffer/msg_buffer.c:293-305 | which message ids are system messages, which are responses, and that both and no others are urgent |
| MessageConsumer.StepKeeps | server/aliyun/aliyun.c:724-794 | every push, lock change and take keeps conservation, arrival order and capacity |
| MessageConsumer.RunKeeps | server/aliyun/aliyun.c:724-1035 | over every interleaving of producers, consumer and lock: accepted = delivered + dropped + queued as multisets; at rest the queue is in arrival order; ordinary and urgent messages are each delivered in arrival order; drops are the oldest; sequence numbers follow the pushes |
| MessageConsumer.TakeDeliversEarliest | server/aliyun/aliyun.c:724-794 | after any run in which the last change of the lock set it, a take delivers the earliest queued system or response message, or nothing if there is none; after any other run the earliest of all; nothing else changes |
| MessageConsumer.LockIs | server/aliyun/aliyun.c:836-841 | the server is locked if and only if the last change of the lock set it |
| MessageConsumer.LockOnly | server/aliyun/aliyun.c:836-841 | and a change of the lock touches no message |
| MessageConsumer.PostQueues | server/aliyun/aliyun.c:1011-1035 | after any run a post puts the message behind the others, or is refused by a full queue without effect, or, where overflow is allowed, pushes out the oldest |
| AliyunServer.Server.MessageBlock | server/aliyun/aliyun.c:724-764 | the search past the first message finds the first urgent one and promotes it, or blocks; the rest keeps its order |
| AliyunServer.Server.Receive | server/aliyun/aliyun.c:775-794 | block, promote and pop in one critical section are one take step of the run |
| AliyunServer.Server.Post | server/aliyun/aliyun.c:1011-1035 | a producer's call is one push step of the run, and nothing before the queue is set up; it reports a failure exactly if nothing changed, and an overflow exactly if a message was dropped |
| AliyunServer.Server.SetUp | server/aliyun/aliyun.c:975-976 | from the set-up on the queue takes messages |
| AliyunServer.Server.SetLock | server/aliyun/aliyun.c:836-841 | the lock is what it was set to, by one lock step of the run |
| Stepper.Driver.HiPtzRunning | module/hi_ptz/hi_ptz.c:52-178 | the timer handler is one tick of the machine |
| Stepper.Driver.HiPtzCtrlIoctl | module/hi_ptz/hi_ptz.c:262-309 | run, stop, failed copies and unknown requests are the steps of the machine |
| Stepper.StepSafe | module/hi_ptz/hi_ptz.c:52-309 | over any interleaving: running implies an armed timer, work left implies running, and without the timer both motors rest with all lines low |
| Stepper.RunLoads | module/hi_ptz/hi_ptz.c:262-309 | a run request replaces the command of each axis it enables and of no other, moves no line, and leaves the timer armed |
| Stepper.StopRests | module/hi_ptz/hi_ptz.c:262-309 | a stop request clears both commands at once, and the next tick takes all eight lines down and disarms the timer |
| Stepper.OtherArms | module/hi_ptz/hi_ptz.c:262-309 | an unknown request, or one that cannot be read, only arms the timer |
| Stepper.Patterns | module/hi_ptz/hi_ptz.c:33-90 | which of the four lines are high in each of the four patterns, forward and backward |
| Stepper.AxesTick | module/hi_ptz/hi_ptz.c:52-135 | a tick treats each axis as if the other were not there |
| Stepper.RunLength | module/hi_ptz/hi_ptz.c:52-178 | an axis with s steps and phase k is energised for exactly 4s - k more ticks, pattern after pattern, and the timer is disarmed with all eight lines low by the tick after the longer axis |
| Stepper.PatternTurns | module/hi_ptz/hi_ptz.c:33-34 | an energised tick turns the rotor by a quarter step at most, in the direction asked for |
| Stepper.AxisTracked | module/hi_ptz/hi_ptz.c:73-118 | at every moment of a run, rotor position, phase and remaining steps account for the steps asked for |
| Stepper.NoDrift | module/hi_ptz/hi_ptz.c:52-309 | through any interleaving that lets each run of an axis complete, the whole steps made are exactly the signed sum of those asked for |
| ConfigMap.DataToJsonByMap | common/config/rwio.c:229-292 | adds the member of every entry to the linked object, in order, behind what it had |
| ConfigMap.CjsonToDataByMap | common/config/rwio.c:143-227 | the loop writes each variable from its member or its default, and reports unknown types |
| ConfigMap.WriteConfigFile | common/config/rwio.c:43-59 | the formatted text of the saved object, complete, unless it exceeds the largest print buffer |
| ConfigMap.ReadConfigFile | common/config/rwio.c:31-41 | without a file, or with one that does not parse, every variable is loaded as if its member were missing |
| ConfigMeaning.LoadedMeans | common/config/rwio.c:143-227 | loading any tree, or none: an integer variable gets the valueint of the first member of its name if that is in range, and the default otherwise, reduced to its type; a string with room gets its member's text, or the default; every other variable keeps its value |
| ConfigMeaning.NoFile | common/config/rwio.c:31-41 | at the first start, without a file or with one that does not parse, every integer variable and every string with room gets its default |
| ConfigMeaning.SavedMeans | common/config/rwio.c:229-292 | what is saved: one member for every entry of a known type, in the order of the table, with the variable's text, or its value as an int, or the default if that is out of range |
| ConfigMeaning.CastIff | common/config/rwio.c:153-196 | the cast to each of the six integer types gives the one value of the type that is congruent to the int |
| ConfigMeaning.ValueIntIff | common/cJSON/cJSON.c:337-349 | valueint is the number without its fraction, saturated at the ends of the range of an int; 1 for true, 0 for anything else |
| ConfigMap.SavedFound | common/cJSON/cJSON.c:1789-1819 | with names distinct without regard to case, the saved object holds each entry's own value under its name |
| ConfigMap.SaveLoad | common/config/rwio.c:143-292 | saving and loading keeps every variable that is in range, sets the others to their defaults, cast to their types, and touches no other variable |
| ConfigMap.SaveLoadTwice | common/config/rwio.c:143-292 | doing it twice changes nothing more, even where a default is itself out of range or does not fit its type |
| ConfigMap.FileReload | common/config/rwio.c:31-59 | through the file, whatever the variables hold when it is loaded: every integer and every string with room gets back what was saved, or its default where that was out of range, and no other variable changes |
| ConfigMap.FileRoundTrip | common/config/rwio.c:31-59 | the text written to the file parses to the very tree that was saved |
| ConfigMeaning.FileLayout | common/config/rwio.c:43-59 | the file has one line for each saved member, indented by a tab, between braces |
| ConfigMeaning.FileTree | common/config/rwio.c:124-141 | a file is loaded as a tree if and only if it begins with a text of that tree, a mark and blanks aside, whatever follows |
| FrameRate.FpsCtrl.InitFps | gmp/include/math_fun.h:194-200 | no frame counted, accumulator 0 |
| FrameRate.FpsCtrl.FpsControl | gmp/include/math_fun.h:202-214 | one more call of the run, with 32-bit wrap-around |
| FrameRate.ExactIff | gmp/include/math_fun.h:194-214 | after every number n of calls exactly floor(nT/F) have returned true and the accumulator is nT mod F, if and only if T <= F and F - gcd(T, F) + T is below 2^32 |
| FrameRate.SmallRatesFit | gmp/include/math_fun.h:194-214 | which holds for 0 < T <= F <= 2^31 |
| FrameRate.WrapsAround | gmp/include/math_fun.h:202-214 | with F = 2^31 + 1 and T = 2^31 the second call wraps around and the promise is broken |
| FrameRate.KeyReaches | gmp/include/math_fun.h:202-214 | the accumulator does reach F - gcd(T, F), so the condition cannot be weakened |
| FrameRate.NoFullRate | gmp/include/math_fun.h:202-214 | with F = 0 every call returns true |
| FrameRate.NextCall | gmp/include/math_fun.h:202-214 | one call at any rates: what the sum loses to the 32-bit wrap-around and to the full rate, and when the frame passes |
| FrameRate.AllPass | gmp/include/math_fun.h:202-214 | with T >= F every frame passes until the sum wraps around, and the accumulator grows by T - F a call |
| FrameRate.WrapDrops | gmp/include/math_fun.h:202-214 | and the frame with which it wraps passes exactly if at least F is left of the sum |

## Left out

- Allocation failure everywhere; in `msg_deep_copy` it would leave a half-copied message.
- Growing the print buffer by allocate, copy and free instead of `realloc`, the path taken with custom allocation hooks; `cJSON_Print` and `cJSON_PrintBuffered` are modelled with `realloc`.
- Numbers.IntTextRead: values are exact decimals; rounding to double, negative zero, NaN, infinities, fractions in the printer and the locale's decimal point are not modelled. Printed numbers are integers below 10^15 in magnitude.
- PrintBuffer.Printer.PrintNumber: other numbers than plain integers are outside its precondition, for the same reason.
- Raw, property, reference and constant-key nodes: their type flags make them print unlike the rest.
- NodeCompare.CompareItems: two trees that share nodes without one being inside the other, as reference nodes would make them, are outside the precondition.
- AddItemToObject for an item that has a name already, whose string the code frees, and the other create and add helpers: they only combine modelled steps.
- MessageBuffer.Queue.Swap: org above dest, or dest beyond the queued messages, would rotate free slots into the queue; no caller does so.
- MessageBuffer.Queue.Push: the message's payload pointers refer to the start of readable blocks.
- The shallow copy a probe returns shares its payload pointers with the queue; the consumer only reads the message id from it.
- AliyunServer.Server.Receive: the wait on the condition variable before the critical section, the message filter behind it and the handling of the message are not modelled.
- Stepper.Driver.HiPtzRunning: kernel timers and spin locks are an armed flag and atomic steps; the device's `write` switch and module set-up are left out, and a run request always carries an address to copy from.
- ConfigMap.CjsonToDataByMap: `cfg_float` is left out, the number a default text stands for is part of the entry, string buffers are taken to be large enough (the code does not check), and a string entry whose member is not a string is outside the precondition, since the code would follow a NULL pointer.
- ConfigMap.DataToJsonByMap: there is no kind for `cfg_float`, whose conversions round.
- ConfigMap.WriteConfigFile: without a text from the printer (it exceeds 2 GB) the code passes NULL to strlen; the model ends with no text.
- ConfigMap.ReadConfigFile: the file is a C string; reading and writing it is not modelled.
- FrameRate.FpsCtrl.FpsControl: the other macros and helpers of the header are expressions without state.
- Files, sockets, flash, GPIO and every other input or output; the status machine of the servers; colour conversion, H.264 and time helpers.
