# JSON engine, thread protocols and CRC: a Dafny model

This project models three parts of the repository and proves what they are for.

1. **The JSON engine** (`seance6/project/cJSON.c`). The parser, the printer, the
   minifier, the list edits, the deep copy and the array constructor are imperative
   Dafny over heap nodes, byte buffers and an allocator that may refuse any request
   and keeps a ledger of what is live. Beside them stand specifications on values:
   a grammar (`Grammar`), the printed text (`PrintedText`), UTF-8 and the escapes
   (`Utf`, `UtfMeaning`, `StringCodec`), the minifier's filter (`Minify`) and the
   comparison (`Comparison`). The methods are proved against those, and the
   theorems about round trips, minifying and comparing are proved of them.
   What JSON is stands apart from all that: `Json` and `JsonStrings` give the texts of
   RFC 8259 by their structure and what each stands for, in characters and numbers, and
   `JsonDecoded`, `JsonAccepted`, `JsonRejected`, `JsonPrinted` and `JsonCommented` prove
   that these are what the parser takes, where it stops in anything else, what the
   printer writes and what the minifier leaves.
2. **The thread protocols**: the pool with draining shutdown
   (`seance6/lab35_threadpool.c`), the bounded ring
   (`seance6/lab_multithreading_debug.c`), the one-word register
   (`seance6/producer_consumer2.c`) and the hand-over of the configuration
   (`seance6/project/main.c`). Each is a state machine with one program counter per
   thread, the mutex, spurious wakeups and, for ring and register, the signal
   handler step by step. The theorems hold in every state of every run
   (`Runs.Run`), for any number of workers, tasks and places.
3. **The bitwise CRC** (`lab4_toolchain/lib.c`) on bit-vectors, for messages of any
   length; `CrcPolynomial` states it in polynomials.

A tree in the heap is a ghost value `Trees.Tree`. `Shape` says that the nodes have
its fields and links, `Separate` that no block is owned twice, `Foot` is the set of
its blocks, and `ItemOf` is the JSON item that it denotes. A reference owns its node
and its key alone; `Readable` says that what it borrows can be read, too, and `Reach` is all that
is then read. Reading (printing, copying, comparing) asks for `Readable`, deleting and
editing for `Shape`. `mem.live` is what is
allocated and not yet freed, and `mem.refusals` counts the requests refused, so
"nothing else went wrong" reads `mem.refusals > old(mem.refusals)`.

## Model

| member | source | states |
|---|---|---|
| JsonAccepted.TextAccepted | seance6/project/cJSON.c:1147-1224 | Every JSON text (the structure of RFC 8259, with white space anywhere, perhaps behind a byte order mark, nested to 1000 levels) is accepted for what it stands for, and consumed |
| JsonAccepted.TextTakes | seance6/project/cJSON.c:1147-1224 | If the end of the text is required, nothing else is: whatever is accepted is such a text, and only white space follows it. Laxer than the RFC are the control characters taken for white space and what `JsonStrings.Lax` names |
| JsonAccepted.ValueAccepted | seance6/project/cJSON.c:1368-1777 | The same for a value at any depth, in front of anything that does not go on with a number |
| JsonAccepted.ValueTakes | seance6/project/cJSON.c:1368-1777 | And the converse for values |
| JsonDecoded.StandardStringTaken | seance6/project/cJSON.c:824-951 | Every string of section 7 of RFC 8259 (plain characters, the eight one-letter escapes, `\u` escapes, surrogate pairs) is taken for the bytes that it stands for, in UTF-8 by the table of RFC 3629, and what follows it is left |
| JsonDecoded.StringTaken | seance6/project/cJSON.c:824-951 | The same for the laxer strings that the parser takes |
| JsonDecoded.StringTakes | seance6/project/cJSON.c:824-951 | And it takes no others |
| JsonDecoded.EscapeDecoded | seance6/project/cJSON.c:703-821 | In front of any further text of a literal the escape of a scalar value becomes that value's UTF-8 bytes, and the rest decodes as it would alone |
| JsonDecoded.EscapeParses | seance6/project/cJSON.c:824-951 | A literal that is such an escape, of a value other than 0, is read as bytes in which an independent reader finds that value |
| JsonDecoded.Utf8IsTable | seance6/project/cJSON.c:757-805 | The bytes of a code point are those of the table in section 3 of RFC 3629 |
| JsonDecoded.FourDigitsMean | seance6/project/cJSON.c:666-699 | Four bytes have the value of the hexadecimal number that they are, in either case, or 0 if they are none |
| JsonRejected.TextFails | seance6/project/cJSON.c:1172-1224 | However deep in arrays and objects a value is due and cannot be parsed, the text fails with the error position of that value; the lemmas below say which |
| JsonRejected.NoValue | seance6/project/cJSON.c:1368-1420 | At the first byte, if no value begins with it |
| JsonRejected.TooDeep | seance6/project/cJSON.c:1502-1505 | At a bracket inside 1000 others |
| JsonRejected.NoComma | seance6/project/cJSON.c:1562-1569 | At the first byte behind an element or member that is neither a comma nor the closing bracket |
| JsonRejected.NoKey | seance6/project/cJSON.c:1723-1729 | One byte behind where the key is due, if there is no quote |
| JsonRejected.NoColon | seance6/project/cJSON.c:1730-1739 | At the first byte behind a key that is no colon |
| JsonRejected.NoQuote | seance6/project/cJSON.c:838-856 | Behind the opening quote, if no quote closes the string |
| JsonRejected.NoEscape | seance6/project/cJSON.c:867-951 | At a backslash that starts no escape |
| JsonRejected.NoEnd | seance6/project/cJSON.c:1178-1186 | If the end is required, at the first byte behind the value that is no white space |
| JsonPrinted.PrintSpells | seance6/project/cJSON.c:1462-1896 | The printed text, formatted or not, is the item laid out as a JSON text: each member of an object on a line of its own, indented by one tab for each level, a tab behind its colon, the closing brace on its own line; a space behind the commas of arrays; no white space in compact text |
| JsonPrinted.EscapeIsUnits | seance6/project/cJSON.c:953-1080 | The bytes of a string are written by the table of escapes (one letter for `"`, `\`, backspace, form feed, line feed, return and tab, `\u00` and two lower-case digits for other control characters, all else as it is), and these are standard escapes that stand for those bytes |
| JsonPrinted.IntegersPrinted | seance6/project/cJSON.c:596-663 | A 32-bit integer is printed in the number grammar of section 6 of RFC 8259: `0` alone, or a minus exactly if it is negative and digits without a zero in front whose positional sum is its absolute value |
| JsonPrinted.OthersPrinted | seance6/project/cJSON.c:596-663 | Any other number is printed as the library renders it |
| JsonPrinted.PrintsExactly | seance6/project/cJSON.c:1422-1494 | The printer accepts an item exactly if nothing in it is invalid, no raw text is missing, no number takes more than 25 bytes and it is nested to 1000 levels at most |
| RoundTrip.TextRoundTrip | seance6/project/cJSON.c:1147-1224 | For every tree that can be printed, is within the nesting limit and has numbers that read back, the printed text, formatted or compact, parses to what a text keeps of the tree, with or without the terminator being demanded, and is consumed to its end |
| RoundTrip.IntTreeRoundTrip | seance6/project/cJSON.c:1368-1896 | Every tree of null, booleans, 32-bit integers, strings, arrays and named members within the nesting limit comes back unchanged |
| RoundTrip.ParsePrintParse | seance6/project/cJSON.c:1368-1896 | Whatever text was parsed, printing the result and parsing that gives the same tree, if its numbers can be printed so that they read back |
| RoundTrip.ValueParsed | seance6/project/cJSON.c:1368-1420 | What the parser returns has nothing that a text would not keep, and no container deeper than the limit |
| RoundTrip.ValueParses | seance6/project/cJSON.c:1368-1494 | At any depth, in front of any text that does not go on with a number byte, a printed value is parsed exactly to its end |
| EndToEnd.PrintAndParse | seance6/project/cJSON.c:1147-1315 | In the heap: a tree printed by walking its nodes and parsed again is the same tree in new nodes, the text is freed; if not, nothing is left allocated, and a refusal or a text too long for an `int` is to blame |
| Parsing.ParseWithLengthOpts | seance6/project/cJSON.c:1147-1224 | On any bytes and under any refusals: a tree in the heap that denotes what the grammar says, its blocks being all that was added; or nothing added, and either a refusal or the grammar's error at the reported position |
| Parsing.ParseAndDelete | seance6/project/cJSON.c:253-276 | A parse and the deletion of its result leave the ledger as it was, each block freed once |
| Parser.ParseBuffer.ReadText | seance6/project/cJSON.c:1177-1201 | The entry point's use of the buffer: byte order mark, white space, value, terminator; the offset stays inside the input and the depth within the limit |
| Parser.ParseBuffer.ReadValue | seance6/project/cJSON.c:1368-1420 | The value and the offset are those of the grammar, the depth is restored, and never beyond the limit even on failure; a failure leaves the node without a value and frees all it allocated |
| Parser.ParseBuffer.ReadArray | seance6/project/cJSON.c:1497-1592 | The same for an array, its children linked with the head leading to the tail |
| Parser.ParseBuffer.ReadObject | seance6/project/cJSON.c:1662-1777 | The same for an object with its keys |
| Parser.ParseBuffer.ReadElements | seance6/project/cJSON.c:1531-1570 | The loop over elements: the list built is the grammar's, and on failure it is still one that can be deleted |
| Parser.ParseBuffer.ReadString | seance6/project/cJSON.c:824-951 | The decoded bytes in a block of their own, the offset behind the quote; or the offset at the bad escape and nothing allocated |
| Parser.ParseBuffer.DecodeInto | seance6/project/cJSON.c:867-928 | The second pass stays inside the block that the first pass sized, for malformed escapes, too, and writes what the literal stands for |
| Parser.ParseBuffer.ReadNumber | seance6/project/cJSON.c:307-408 | The number that `strtod` finds in the longest run of number bytes, the temporary block freed |
| Parser.ParseBuffer.BufferSkipWhitespace | seance6/project/cJSON.c:1090-1113 | Past all white space, with a step back when that runs to the end, so that the last byte is seen again |
| StringCodec.SizeSuffices | seance6/project/cJSON.c:837-866 | After any number of turns of the second pass, in step with the first pass or not, and whether or not the literal turns out bad, what is written fits with its terminator in what the first pass reserved |
| StringCodec.PassDecodes | seance6/project/cJSON.c:867-928 | The second pass, turn by turn, computes the recursive decoding |
| StringCodec.ParseQuoted | seance6/project/cJSON.c:824-951 | A printed literal parses to its bytes up to the first NUL and leaves what follows it |
| StringCodec.DecodeEscape | seance6/project/cJSON.c:867-928 | Decoding the escaped bytes gives any byte string back |
| StringCodec.EscapeLength | seance6/project/cJSON.c:976-1003 | The first pass of the encoder counts exactly the bytes that the second pass writes |
| StringCodec.FindCloseEscape | seance6/project/cJSON.c:838-856 | The scan for the closing quote of a printed literal ends at that quote |
| Utf.ParseHex4 | seance6/project/cJSON.c:666-699 | The add-and-shift loop gives the number the four digits spell, and zero for anything else |
| Utf.Utf16LiteralToUtf8 | seance6/project/cJSON.c:703-821 | The bytes of the escape's code point, written from the last one back inside the output, or a failure that writes nothing |
| UtfMasks.ContinuationMask | seance6/project/cJSON.c:798-804 | On the bits of a 32-bit word, the mask for a continuation byte is the byte of the specification, and the shift behind it the division |
| UtfMasks.LeadMask | seance6/project/cJSON.c:805-813 | So is the lead byte, of each length |
| UtfMasks.SurrogateMask | seance6/project/cJSON.c:757-758 | So is the code point of a surrogate pair |
| UtfMeaning.Utf8Decodes | seance6/project/cJSON.c:757-805 | Read by the table of section 3 of RFC 3629, the bytes written for any code point up to 0x10FFFF give that code point |
| UtfMeaning.Utf8Shortest | seance6/project/cJSON.c:757-785 | No bytes that read as the code point are fewer |
| UtfMeaning.Utf8Injective | seance6/project/cJSON.c:757-805 | Distinct code points are written as distinct bytes |
| UtfMeaning.EscapeReads | seance6/project/cJSON.c:703-756 | Every escape of a scalar value, one unit or a surrogate pair (section 2.1 of RFC 2781), in digits of either case, is accepted and stands for that value, whatever follows |
| UtfMeaning.EscapeExists | seance6/project/cJSON.c:703-756 | Every scalar value has such an escape |
| UtfMeaning.EitherCase | seance6/project/cJSON.c:666-699 | Digits above nine read the same in either case |
| UtfMeaning.EscapeMeansItsBytes | seance6/project/cJSON.c:703-805 | The bytes that such an escape is turned into read back as its value |
| UtfMeaning.SurrogatesPaired | seance6/project/cJSON.c:717-756 | A low surrogate by itself, and a high one that no low one follows right behind, are rejected |
| UtfMeaning.MalformedIsNul | seance6/project/cJSON.c:666-699 | Digits that are none are taken for U+0000 |
| Printing.Print | seance6/project/cJSON.c:1239-1315 | The tree's text and a terminator in a block of just that size; or nothing, and it says why |
| Printing.PrintBuffered | seance6/project/cJSON.c:1317-1346 | The same text, in the buffer that it grew, for any `prebuffer` that is an `int`; when it succeeds, a byte that is not there has been read exactly if the buffer started empty and there is no `realloc` |
| Printing.PrintPreallocated | seance6/project/cJSON.c:1348-1365 | Succeeds exactly if the tree can be printed and two bytes more than its text are there, writes the same text, and nothing behind the stated length |
| PrintBuffers.PrintBuffer.PrintValue | seance6/project/cJSON.c:1423-1494 | Walking the nodes from `child` through `next`, any buffer strategy writes the text of the item that the tree denotes behind what was there, or fails for want of room or of memory |
| PrintBuffers.PrintBuffer.PrintArray | seance6/project/cJSON.c:1595-1659 | The same for an array, the depth restored |
| PrintBuffers.PrintBuffer.PrintObject | seance6/project/cJSON.c:1780-1896 | The same for an object |
| PrintBuffers.PrintBuffer.Ensure | seance6/project/cJSON.c:490-573 | What is asked for is reserved, growth keeps the text, no other block is touched, and a supplied buffer is never replaced |
| PrintBuffers.PrintBuffer.Grow | seance6/project/cJSON.c:536-573 | The text moved to a larger block, all else as it was; a byte behind the old block is read exactly if the block is empty and must be copied by hand |
| PrintBuffers.PrintBuffer.PrintStringPtr | seance6/project/cJSON.c:954-1073 | The quoted, escaped string, its closing quote where the second pass ends |
| PrintBuffers.PrintBuffer.UpdateOffset | seance6/project/cJSON.c:576-586 | The offset ends behind what was just written, because no text has a NUL in it |
| PrintBuffers.TextHasNoNul | seance6/project/cJSON.c:1423-1896 | No printed text has a NUL in it |
| Minify.MinifyInPlace | seance6/project/cJSON.c:2924-2970 | On any terminated text, in place, the writing never passing the reading, the result is the filter of the original text, and nothing behind the terminator changes |
| MinifyMeaning.TextMinified | seance6/project/cJSON.c:2875-2960 | A text cut into white space (space, tab, line feed, return), line comments, block comments, lone slashes, string literals and other bytes, perhaps ending inside a comment or literal, is minified to its literals and other bytes |
| MinifyMeaning.Cut | seance6/project/cJSON.c:2875-2960 | Every text can be cut so |
| MinifyMeaning.PiecesMinified | seance6/project/cJSON.c:2875-2960 | In front of any text such pieces are dropped or kept, and the text is minified as it would be alone |
| JsonCommented.CommentsGone | seance6/project/cJSON.c:2924-2960 | White space and comments between the tokens of a JSON text go, and nothing else, if no string in it ends in a backslash |
| JsonCommented.CommentedTextParses | seance6/project/cJSON.c:2924-2960 | So a JSON text with comments, minified and parsed, is what it stands for |
| Minify.MinifiedTwice | seance6/project/cJSON.c:2875-2970 | Minifying twice is minifying once |
| MinifyPrinted.MinifyAgrees | seance6/project/cJSON.c:2902-2970 | Minified formatted text equals compact text if and only if no printed string or key ends in a backslash, save for a string behind which only closing brackets follow |
| MinifyPrinted.BackslashKeepsSpace | seance6/project/cJSON.c:2902-2922 | An input for which they differ |
| MinifyPrinted.StringEndFound | seance6/project/cJSON.c:2902-2922 | The scanner finds the end of a printed string, whatever follows, if and only if the string does not end in a backslash |
| Trees.Delete | seance6/project/cJSON.c:253-276 | Every node, string and key that a list owns is freed, each once, and nothing else: not what references borrow, which may be gone already, and no constant key |
| Siblings.GetArrayItem | seance6/project/cJSON.c:1922-1939 | The node at the index, or none |
| Siblings.GetArraySize | seance6/project/cJSON.c:1899-1920 | The length of the list |
| Siblings.AddItemToArray | seance6/project/cJSON.c:2027-2058 | The sibling list, head leading to tail, with the item at its end |
| Siblings.InsertItemInArray | seance6/project/cJSON.c:2334-2366 | The list with the item at the index, or at the end; when it fails, the list as it was |
| Siblings.InsertedAt | seance6/project/cJSON.c:2334-2366 | Position by position, what the list is after an insertion |
| Siblings.InsertedRemoved | seance6/project/cJSON.c:2258-2366 | Detaching what was inserted gives the list back |
| Siblings.DetachItemViaPointer | seance6/project/cJSON.c:2258-2292 | The list without the item, and the item without links |
| Siblings.ReplaceLinks | seance6/project/cJSON.c:2368-2411 | The list with another node in the item's place |
| TreeEdits.Append | seance6/project/cJSON.c:2027-2058 | The tree with one more child, the rest of the heap's shape kept, denotes the item with one more element |
| TreeEdits.Insert | seance6/project/cJSON.c:2334-2366 | The same for insertion, which fails for a negative index alone |
| TreeEdits.Detach | seance6/project/cJSON.c:2258-2292 | The tree without the child and the child by itself share nothing |
| TreeEdits.Replace | seance6/project/cJSON.c:2368-2415 | The child makes room for another tree and is freed, each block once; replacing it by itself changes nothing |
| CreateArray.CreateIntArray | seance6/project/cJSON.c:2621-2659 | A well-formed list of the numbers, or nothing left allocated and a refusal, a NULL array or a negative count to blame |
| Duplication.LimitIs | seance6/project/cJSON.c:2789-2858 | The copy's limit is ten thousand generations below the item |
| Duplication.DuplicateRec | seance6/project/cJSON.c:2789-2873 | Of any tree that can be read, references included, a copy without references in new blocks that denotes the same item, constant keys kept as they are, the source untouched; or nothing left allocated, and a refusal or the depth limit to blame |
| Reading.CreateReference | seance6/project/cJSON.c:2006-2025 | A node that reads as the item does, without its key, and owns nothing but itself |
| Reading.DeleteReference | seance6/project/cJSON.c:253-276 | Deleting a reference frees its node alone |
| Additions.AddReference | seance6/project/cJSON.c:2130-2138 | One more element, which reads as the item does, and for which the array owns one node more |
| Additions.AddToObject | seance6/project/cJSON.c:2082-2117 | One more member with the key, copied or constant, its old key freed; or nothing changed, for want of memory |
| Trees.CopyString | seance6/project/cJSON.c:188-207 | The string in a new block |
| Comparison.CaseInsensitiveStrcmp | seance6/project/cJSON.c:133-154 | 0 exactly if the strings are of one length and at each position have the same byte or one letter in its two cases; else the difference of the first bytes that differ but for case, the terminator included, and 1 if a string is NULL |
| Comparison.OrderMeans | seance6/project/cJSON.c:133-154 | That difference is zero for equal strings alone, its sign is the order of the dictionary, and swapping the strings negates it |
| Comparison.LookupFinds | seance6/project/cJSON.c:1951-1981 | The first member whose key is the name, or without case has the same bytes but for letters (65 to 90 and 97 to 122) that differ by 32; none if there is none. With case a member without a key ends the search |
| Comparison.FoldedSame | seance6/project/cJSON.c:133-154 | Without case exactly such keys are the same |
| Comparison.LettersBehind | seance6/project/cJSON.c:133-154 | Letters of either case are ordered behind the bytes 91 to 96 |
| Comparison.CompareDoubleMeans | seance6/project/cJSON.c:588-593 | Two numbers are equal if they differ by no more than 1 / 2^52 of one of them |
| NodeComparison.FindMember | seance6/project/cJSON.c:1951-1981 | Along the nodes, the first member whose key is the name, as `LookupFinds` has it, a member without a key ending the search with case |
| NodeComparison.CompareNodes | seance6/project/cJSON.c:3072-3195 | Along the nodes: items that compare equal are found equal, and in trees without a common node no others; NULL equals nothing, and a node of a valid kind equals itself |
| CompareMeaning.Symmetric | seance6/project/cJSON.c:3072-3195 | The order of the arguments makes no difference |
| CompareMeaning.CompareIsEquality | seance6/project/cJSON.c:3072-3195 | On integer trees whose keys differ under the chosen case mode, comparing decides equality of values, objects being finite maps |
| CompareMeaning.LookupIsTable | seance6/project/cJSON.c:1951-1981 | With keys that differ, looking up a key is looking it up in the map |
| CompareMeaning.EqualsItself | seance6/project/cJSON.c:3072-3195 | For every item: it equals itself if and only if it is valid, its strings are there, and in each object a first member with a key equals itself and a later one equals the first |
| CompareMeaning.Reflexive | seance6/project/cJSON.c:3072-3195 | Strings that are there and keys that differ are enough for that |
| CompareMeaning.RepeatedKey | seance6/project/cJSON.c:3154-3190 | With one key repeated, exactly when the second member equals the first |
| CompareMeaning.RepeatedKeyFails | seance6/project/cJSON.c:3154-3190 | An object that is not equal to itself |
| CompareMeaning.DuplicateCompares | seance6/project/cJSON.c:2784-2873 | A copy is compared with its source, node by node, and is equal exactly if the source equals itself |
| ThreadPool.AnySleeperWakes | seance6/lab35_threadpool.c:104-163 | Any sleeper may wake without a reason, and a signal may wake any one of them |
| ThreadPool.StepKeeps | seance6/lab35_threadpool.c:77-203 | Every step keeps mutual exclusion, order, conservation of tasks, the wakeup condition and the order of shutdown |
| ThreadPool.FirstInFirstOut | seance6/lab35_threadpool.c:77-166 | In every state of every run what was taken is the beginning of what was accepted, and the queue is the rest and within its size; if some worker sleeps, there are no more tasks than workers on the way to them, one more being about to be signalled; and if there are tasks, some worker is on its way or at work, or about to be signalled |
| ThreadPool.NothingDropped | seance6/lab35_threadpool.c:77-97 | Up to as many tasks as the queue has places, all are accepted on every run |
| ThreadPool.Overfull | seance6/lab35_threadpool.c:77-97 | With more tasks than that there is a run that drops one |
| ThreadPool.NoMoreSleep | seance6/lab35_threadpool.c:130-133 | After the broadcast nobody sleeps or goes to sleep |
| ThreadPool.Drains | seance6/lab35_threadpool.c:104-203 | After the request every step brings the end closer |
| ThreadPool.ShutdownBounded | seance6/lab35_threadpool.c:104-203 | From the request on a run has at most `Measure` more steps |
| ThreadPool.Progress | seance6/lab35_threadpool.c:104-203 | Until every worker has exited some thread can move, without a spurious wakeup |
| ThreadPool.RunsToTheEnd | seance6/lab35_threadpool.c:104-258 | A run that can go no further has stopped every worker and executed every accepted task once, in order |
| ThreadPool.TaskQueue.SubmitTask | seance6/lab35_threadpool.c:77-97 | The array update under the mutex is the step `Submit` |
| ThreadPool.TaskQueue.CheckQueue | seance6/lab35_threadpool.c:130-163 | The tests and the removal by shifting are the step `Check` |
| Ring.AnytimeSteps | seance6/lab_multithreading_debug.c:50-145 | A sleeper may wake without a reason, and the handler may run between any two steps |
| Ring.StepKeeps | seance6/lab_multithreading_debug.c:80-159 | Every step keeps mutual exclusion, the order of the items, the indices in range and the reasons for waiting |
| Ring.HandsOverInOrder | seance6/lab_multithreading_debug.c:80-159 | In every state of every run the consumer has read 0, 1, 2, ..., is behind by at most the capacity, and the tail is where head and count put it |
| Ring.NeverBothAsleep | seance6/lab_multithreading_debug.c:80-159 | The two threads are never both asleep |
| Ring.NoDeadlock | seance6/lab_multithreading_debug.c:80-159 | While they run one of them can move, without a spurious wakeup |
| Ring.StopBounded | seance6/lab_multithreading_debug.c:50-59 | Once the flag is cleared every step but another signal brings the end closer |
| Ring.StopsExactly | seance6/lab_multithreading_debug.c:50-116 | After the handler's return, both threads end if and only if, at that return, neither is between its test and its sleep, and one that sleeps is about to be signalled |
| Ring.LostWakeup | seance6/lab_multithreading_debug.c:50-59 | A run on which the signal comes in that gap |
| Ring.RingQueue.ProducerCheck | seance6/lab_multithreading_debug.c:89-104 | The producer's test and array update are its step `Check` |
| Ring.RingQueue.ConsumerCheck | seance6/lab_multithreading_debug.c:130-145 | The consumer's test and array update are its step `Check` |
| Register.StepRefines | seance6/producer_consumer2.c:61-131 | Each step of the register is that step of a ring with one place, and exactly one flag stays set |
| Register.HandsOverInOrder | seance6/producer_consumer2.c:61-131 | In every state of every run one flag is set, the values arrive in order, at most one behind, and the two are not both asleep |
| Register.StopsExactly | seance6/producer_consumer2.c:37-131 | When the two end after the handler's return, as for the ring |
| ConfigNotify.NoLostUpdate | seance6/project/main.c:152-240 | In every state of every run, a server that works with another configuration than the stored one has an event coming, pending or being handled |
| ConfigNotify.CanDeliver | seance6/project/main.c:350-470 | While the monitor is idle such a server has a step to take |
| ConfigNotify.Delivers | seance6/project/main.c:350-470 | Each such step brings it closer to the stored configuration |
| ConfigNotify.LastParsedServed | seance6/project/main.c:152-240 | On every run, once the monitor is idle and nothing is in flight, the server works with the last configuration that was parsed |
| ConfigNotify.NeverTorn | seance6/project/main.c:350-470 | On every run the server's period is that of a configuration that was stored, and its version that of the same one or of a later one |
| ConfigNotify.TimerShows | seance6/project/main.c:445-454 | When the timer has gone off, the server holds the version stored then and the period as it was applied |
| Crc.ComputeCrc32 | lab4_toolchain/lib.c:4-23 | The loop computes the register of the specification, inverted |
| CrcPolynomial.RegisterIsRemainder | lab4_toolchain/lib.c:4-23 | The register from zero, its lowest bit read as the coefficient of x^31, is the remainder of the message times x^32 modulo the generator with the exponents 32, 26, 23, 22, 16, 12, 11, 10, 8, 7, 5, 4, 2, 1 and 0 |
| CrcPolynomial.ChecksumIsRemainder | lab4_toolchain/lib.c:4-23 | The checksum is that remainder with every bit inverted |
| CrcPolynomial.RemainderUnique | lab4_toolchain/lib.c:4-23 | There is one such remainder |
| CrcPolynomial.CollideExactly | lab4_toolchain/lib.c:4-23 | Two messages of one length have the same checksum if and only if the generator divides their difference times x^32 |
| Crc.RegisterIsBits | lab4_toolchain/lib.c:4-23 | Byte by byte is the same as bit by bit |
| Crc.RegisterLinear | lab4_toolchain/lib.c:4-23 | The register of the bitwise sum of two messages is the sum of their registers |
| Crc.LeadingZerosUnseen | lab4_toolchain/lib.c:4-23 | Zero bytes in front of a message leave the register as it is |
| Crc.BurstsAreDetected | lab4_toolchain/lib.c:4-23 | Messages of equal length that differ only within 32 consecutive bits, at any bit position, have different CRCs |
| Crc.FourBytesAreDetected | lab4_toolchain/lib.c:4-23 | In particular any change within four consecutive bytes |

## Findings

What the code does where a reader might expect otherwise; each is a lemma above.

- **More than JSON** (`cJSON.c:1090-1113`, `307-408`, `824-951`): every control character, NUL
  included, counts as white space; a number is whatever `strtod` reads of the bytes that
  numbers are made of, `01` for one; strings may hold control characters. `Json.Valid` says
  exactly what is taken, `TextAccepted` and `TextTakes` prove it.
- **Error position** (`cJSON.c:824-836`, `1723-1729`): where a key is missing, the position is one
  byte behind the byte that is in its place (`JsonRejected.NoKey`).
- **Trailing backslash** (`cJSON.c:2902-2922`): `minify_string` takes a backslash and
  a quote for an escape even if the backslash is itself escaped, so formatted text in
  which a string or key ends in a backslash keeps white space behind it.
  `MinifyAgrees` is the exact condition.
- **Repeated key** (`cJSON.c:3154-3190`): an object with a repeated key may differ from
  itself, hence from its copy. `EqualsItself` is the exact condition.
- **Malformed digits** (`cJSON.c:666-699`): `\u` with digits that are none is not an
  error; it stands for U+0000 and so ends the C string.
- **Empty buffer** (`cJSON.c:566`): without `realloc`, `cJSON_PrintBuffered` with
  `prebuffer == 0` copies one byte from a block of none, whenever it prints
  anything. `PrintBuffered` says so exactly; the byte is overwritten, and the text is right.
- **Stopping the ring and the register** (`lab_multithreading_debug.c:50-59`,
  `producer_consumer2.c:37-46`): the handler clears the flag and wakes the sleepers
  without the mutex. A thread that has just tested the flag goes to sleep afterwards,
  and nobody wakes it; `main` then waits for it forever. `StopsExactly` is the exact
  condition.
- **Full queue** (`lab35_threadpool.c:8-10`): the program submits 300 tasks to a queue of
  256 and does not look whether they are accepted. `NothingDropped` and `Overfull` show
  that the size of the queue is the exact bound.
- **CRC** (`lib.c:7`): the register starts from 0, where the usual CRC-32 starts from
  all ones, so zero bytes in front of a message go unseen (`LeadingZerosUnseen`).

## Left out

- `strtod`, `sprintf` and `sscanf` are parameters: any functions for which reading `%d` undoes printing it. Fractions round-trip if they do so under these functions (`Numbers.Renders`).
- The position of a number that `strtod` refuses has no lemma in `JsonRejected`; it depends on that library alone.
- Numbers are reals: NaN, infinities and rounding in `compare_double` are not modelled. `valueint` is not a field of the node; `Numbers.IntOf` says what it would be.
- The edits through object keys, and the reference variant for objects, come down to the edits modelled. The flag for a constant key without a key, which `create_reference` can leave, has no effect and is not kept.
- NULL arguments where the model has a node: they return NULL or false at once.
- The NULL content pointer of the parser is the empty input. `global_error` is the returned position.
- Insertion, append and replacement are of an item in no list, as the documentation demands; an item that is in another list is not modelled.
- Size overflow in `needed += p->offset + 1`: sizes are mathematical, and the `INT_MAX` guards are as in the code.
- The C strings of nodes are read as values while they are printed; no other thread writes to them.
- The pool's tasks are taken to end, and `main`'s failure to create a thread is not modelled. The final loop of `main` is left out.
- Delays, log output and the periodic thread of the ring. A second signal while its handler runs.
- The stop flag and Ctrl+C of `main.c`, and sockets, timers and inotify but for the step they enable. The timer refreshes the version alone.
- Hook configuration, type predicates, the one-line `Create` and `AddXToObject` wrappers and the version string.
- The other labs, which are simpler instances of these or deliberate failures.
