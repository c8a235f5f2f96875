# PHY6212 SDK core, modelled and proved in Dafny

This project models the parts of the SDK that carry state across calls, interrupts, tasks and power failures, and
proves what they promise.

- **Flash translation layer** (`Bytes`, `NorFlash`, `FtlVolume`, `FtlIndex`, `FtlSpare`, `FtlSteps`, `Ftl`, `FtlFlat`,
  `FtlAddresses`, `FtlRuns`, `FtlFlatRuns`). Logical 500-byte pages live on 512-byte NOR pages with a 12-byte tag.
  Writes go to a fresh page: data with a blank tag, then the tag with the next version, then the erase of the old
  copy. The flash device is a class with an oracle that decides at which call the power goes and what a torn program
  leaves. `FtlRuns.Run` proves atomicity over whole runs, by page and by address, `FtlFlatRuns.FlatRun` that
  error-free runs refine a flat byte array.
- **cJSON** (`Json*`). The parser is a function of buffer, offset and depth, and a class whose methods move the offset
  and are proved against it; the printer is a function of the tree, and a class that grows and fills a buffer; the
  minifier is a function of the text, and a method that rewrites the buffer in place. Proved about them: which
  documents are accepted, by a grammar apart from the parser (`JsonGrammar`, `JsonAccepts`), the round trip, the
  bounds of both passes over strings, UTF-16 escapes and UTF-8, exactly when printing into a given buffer succeeds,
  the layout of formatted output (`JsonFormat`), that minifying formatted print gives unformatted print and keeps the
  meaning of every accepted document, and what comparison decides, with and without regard to case
  (`JsonCompareKeys`). `JsonNodes` and `JsonCompareNodes` have the linked nodes that copying, deleting and comparing
  walk over. `JsonOnto` carries proofs: printed text in front of a continuation.
- **uService RPC** (`Rpc`, `RpcPayload`). Callers and services hand a heap buffer over through a cache in the task:
  the first `rpc_deinit` parks it, the second frees it. All interleavings of any number of calls are runs of one state
  machine in which addresses are reused after free. The payload is a class over its buffer.
- **UART ring buffer** (`RingBuffer`). The receive interrupt is a method that the reader calls between any two of its
  statements, any number of times, with a script that decides whether it strikes and what it brings.
- **BLE OTA receiver** (`Ota`, `OtaRuns`, `OtaPackets`, `OtaCommands`, `OtaTransfer`, `ByteBits`). The handlers of the
  receiver are methods; each is proved to take the receiver where a function of the event says. `OtaRuns` is about
  every sequence of events, `OtaPackets` about the fragments of one packet, `OtaCommands` about the bytes of the
  protocol, `OtaTransfer` about transfers that succeed.
- **Event loop** (`DList`, `Timers`, `EventQueue`). Timers and events are heap nodes in doubly linked rings; the ring
  operations rewrite the pointers.
- **CRC-16** (`Crc16`). The table-driven code against the bitwise shift register.

Where the code does less than a reader may expect, the code is kept and the exact condition is proved: a logical erase
survives a remount if and only if no superseded copy is left (`EraseSurvivesRemount`, and `ErasedPageComesBack` for a
run in which one is); erasing part of a page changes nothing (`EraseBlanksRangeIff`); tag programs have to be atomic
(`TornTagIsHarmful`); a failed parse leaves the offset one past the terminator if and only if a member name is due
there (`ParsingStaysInBuffer`); malformed `\u` digits are read as U+0000 (`BadDigitsAreNul`), and they can make the
decoder take the closing quote for an escaped one (`DecodeSpells`); a copy of a tree compares equal to it if and only
if no object repeats a key with different meanings (`CopyComparesEqual`); an RPC buffer stays in the cache for good if
and only if its request was not delivered or not replied to (`LeaksIffUnanswered`); an interrupt that overflows the
ring announces nothing (`OverflowIsSilent`); receiving 0 bytes can store one in front of the target (`Recv`); a stream
of RPC arguments is kept if and only if it is shorter than 65536 bytes without the last one (`PutAll`); a firmware
that is a whole number of packets never completes (`RunDelivers`); the count of packets has 16 bits, so the image with
which the device restarts is complete if and only if fewer than 65536 packets carry it (`TransferCompletes`, and
`WrappedCountStopsShort` for a transfer that stops after one byte); a packet whose first fragment holds some payload
gets through if and only if no later fragment looks like a control frame (`PacketDecides`), and its number is not
compared with the request (`AnyPacketIsFlashed`); a packet size of 0 is divided by (`ZeroPacketSizeFaults`).

The modules assume: `first_page_base` and flash start are page aligned, the erase block is one page, fewer than 65535
pages, and versions below 2^32; JSON numbers are the texts `print_number` gives for them, and `strtod` is a function
that says how much of a text it accepts; allocation and flash failures, the clock and the peer are parameters or
scripts.

## Model

| member | source | states |
|---|---|---|
| FtlRuns.Run | drivers/flash/eftl.c:321-509 | Power-fail atomicity over whole runs: for every script of protected writes, reads and remounts, and every choice of flash calls at which the power goes (inside garbage collection, with torn data programs, any number of times), one history of logical contents explains all replies; a page whose write was interrupted is wholly old or wholly new, every other page is untouched; exactly as many commands are interrupted as the power went, so none without a loss; and with a spare page no write is refused for want of space; seen by address, every read returns for each address the byte of the last write whose range covers it, or the byte that was there before the run |
| FtlAddresses.ReadsAreLatest | drivers/flash/eftl.c:567-636 | In every run of a memory that obeys its commands, each byte read is that of the last write whose addresses cover it, no later one having surely written there, or the byte of the start |
| FtlRuns.AddressesFit | drivers/flash/eftl.c:520-533 | A request is accepted if and only if its addresses lie in the 500 data bytes of one of the pages, which start every 512 addresses from the base on; and page and offset are those of the address |
| FtlRuns.ExplainsObeys | drivers/flash/eftl.c:567-636 | What a command does to the pages is, by address, what it should do to the memory: a write changes the addresses in its range and no others |
| FtlRuns.ImageShows | drivers/flash/eftl.c:567-636 | Byte j of page k is at address `base + 512 * k + j`, and there is nothing at other addresses |
| FtlFlatRuns.FlatRun | drivers/flash/eftl.c:723-894 | Refinement over whole runs: on blank flash without failing calls, every answer of the unprotected read, write and erase loops is the one a flat byte array that starts as 0xFF gives, at any address and size; afterwards the tables hold that array and a fresh mount rebuilds the same map |
| FtlFlatRuns.FlatIsLatest | drivers/flash/eftl.c:723-894 | After any run of the byte array each byte is that of the last write that covers it, 0xFF if an erase of its whole page came later, or the one of the start |
| FtlSpare.SpareIsEnough | drivers/flash/eftl.c:230-274 | If there is one physical page more than logical pages the search has a candidate, although its second loop never looks at the page just before `last_free_page` |
| FtlSpare.FullVolumeRefusesWrites | drivers/flash/eftl.c:230-274 | The spare page is necessary: a write ends with no space (or a flash failure), never with success, once every page is in use, and without a spare page as soon as every logical page is written |
| FtlSpare.FullWhenWritten | drivers/flash/eftl.c:230-274 | With as many pages as logical pages, every page is in use if and only if every logical page is written |
| FtlRuns.OnePageVolumeFills | drivers/flash/eftl.c:230-274 | A full volume is reachable when the page counts are equal: on one page the first write succeeds and the second is refused |
| FtlRuns.RemountRebuildsMap | drivers/flash/eftl.c:190-220 | A fresh mount of a durable volume gives exactly the live `map_tbl` and the same logical contents |
| FtlRuns.Mount | drivers/flash/eftl.c:1055-1172 | Mounting any well-formed volume leaves tables that agree with it; if the volume stores some contents, the map reads exactly those |
| FtlRuns.Step | drivers/flash/eftl.c:567-636 | One command, with a remount after a loss of power: the reply and the new contents are ones the command allows, it is interrupted exactly if it used up a loss of power, and the spare page stays reachable; the same by address |
| FtlRuns.StepWrite | drivers/flash/eftl.c:602-636 | A protected write commits the new page, or reports no space and changes nothing, or, exactly if the power went during it, is interrupted with the page wholly old or wholly new |
| Ftl.Partition.CreateTable | drivers/flash/eftl.c:190-220 | The mount scan maps each logical page to its highest version, marks exactly the mapped pages used, leaves no page free, and unmapped logical pages have no copy; the next search starts behind the last used page |
| Ftl.Partition.ScanPage | drivers/flash/eftl.c:195-217 | One page of the scan extends "newest version among the pages seen so far" by that page |
| Ftl.Partition.GarbageCollect | drivers/flash/eftl.c:152-181 | Dirty pages are erased and become free, also when cut short no other page changes |
| Ftl.Partition.SearchOnce | drivers/flash/eftl.c:238-261 | One search returns the first free page from `last_free_page` on, or else the first from the start that is not just before it, or there is none |
| Ftl.Partition.FindFreePage | drivers/flash/eftl.c:230-274 | The search fails with EIO exactly when no page but the skipped one is free or dirty; otherwise it returns an erased page, and only dirty pages were erased on the way |
| Ftl.Partition.ReadData | drivers/flash/eftl.c:287-308 | A read returns the bytes of the mapped page, or 0xFF if the logical page has none |
| Ftl.Partition.ProgramCopy | drivers/flash/eftl.c:339-386 | After any interruption the chosen page has a blank tag or is the complete new copy |
| Ftl.Partition.WriteEmptyPage | drivers/flash/eftl.c:321-397 | First write of a logical page: on success the tables agree with the flash again and only this page changed; however it ends the volume stores the old or the new contents |
| Ftl.Partition.ReplaceCopy | drivers/flash/eftl.c:435-509 | From the first program call of an update on: the same, with the old copy erased last |
| Ftl.Partition.UpdatePage | drivers/flash/eftl.c:410-509 | Rewrite of a mapped logical page: the unwritten bytes keep their old values, and the volume stores the old or the new contents at every point |
| Ftl.Partition.WritePage | drivers/flash/eftl.c:611-636 | The write of one page, first or not |
| Ftl.Partition.ErasePage | drivers/flash/eftl.c:845-890 | A whole-page erase unmaps the logical page and erases its physical page |
| FtlVolume.StoresIsFunctional | drivers/flash/eftl.c:190-220 | A volume stores at most one logical contents |
| FtlVolume.DropSuperseded | drivers/flash/eftl.c:152-181 | Replacing any page that is not the newest copy of its logical page by an untagged one changes no contents |
| FtlVolume.CommitTag | drivers/flash/eftl.c:360-386 | Programming a tag newer than all tags of its logical page commits that page and touches no other |
| FtlIndex.MapIsInjective | drivers/flash/eftl.c:190-220 | No physical page is mapped twice |
| FtlIndex.DurableStores | drivers/flash/eftl.c:190-220 | A map that follows the newest versions reads what the volume stores |
| FtlIndex.DurableMapIsUnique | drivers/flash/eftl.c:190-220 | Two durable maps of the same volume are equal |
| FtlIndex.ReclaimKeeps | drivers/flash/eftl.c:152-181 | Garbage collection, complete or cut short, keeps map, contents and durability |
| FtlIndex.EraseSurvivesRemount | drivers/flash/eftl.c:829-894 | An erased logical page is still unmapped after a remount if and only if no superseded copy of it is on the volume |
| FtlRuns.ErasedPageComesBack | drivers/flash/eftl.c:829-894 | The bad case is reachable: a page is written and rewritten, the power goes at the erase of the old copy, after a mount the page is erased, and the next mount reads the first data again |
| FtlRuns.StrandOldCopy | drivers/flash/eftl.c:488-509 | Power lost at the last erase of an update leaves the old copy beside the newer one |
| FtlSteps.ScanComplete | drivers/flash/eftl.c:190-220 | A complete scan indexes the volume and finds the map the volume determines |
| FtlSteps.WriteInFlight | drivers/flash/eftl.c:321-509 | Every volume a write passes through before the old copy is erased stores the old contents or the new ones |
| FtlSteps.OldCopyErased | drivers/flash/eftl.c:488-509 | The erase that ends an update, done or not, keeps what the tag has committed |
| FtlFlat.NoProtRead | drivers/flash/eftl.c:723-763 | A read of any range returns that range of the pages laid end to end, or EINVAL outside the partition |
| FtlFlat.NoProtWrite | drivers/flash/eftl.c:772-820 | A write of any range overlays it on the pages laid end to end; it stops early only without a spare page, after a prefix |
| FtlFlat.NoProtErase | drivers/flash/eftl.c:829-894 | An erase blanks the pages wholly inside the range and leaves the bytes of partly covered pages |
| FtlFlat.EraseBlanksRangeIff | drivers/flash/eftl.c:131-143 | The erase loop blanks its whole range if and only if the bytes in partly covered pages were blank before: programming 0xFF clears no bits, so those bytes stay |
| FtlFlat.NextChunk | drivers/flash/eftl.c:737-745 | Each turn of the loops takes a non-empty piece up to the end of the range or the page |
| NorFlash.FlashDevice.Program | drivers/flash/eftl.c:339-386 | The flash model: a program call clears bits inside its range, may be torn if longer than a tag, and nothing else changes |
| NorFlash.FlashDevice.Erase | drivers/flash/eftl.c:152-181 | The flash model: an erase blanks one page or does nothing |
| NorFlash.TornKeepsTagBlank | drivers/flash/eftl.c:339-350 | A data program cut short never produces a tag |
| NorFlash.ProgramTag | drivers/flash/eftl.c:360-378 | Programming the tag over a blank one stores it and leaves the data alone |
| NorFlash.TornTagIsHarmful | drivers/flash/eftl.c:360-378 | Why tag programs have to be atomic: one cut short after its first word has a matching head and logical page 0xFFFFFFFF |
| Crc16.ComputeCrc16 | libs/misc/crc16.c:54-61 | The table loop computes the bitwise reflected shift register with polynomial 0xA001, for every message and start value |
| Crc16.TableIsRegister | libs/misc/crc16.c:6-44 | The table-driven byte step folded over a message equals the bitwise register |
| Crc16.TableEntry | libs/misc/crc16.c:6-39 | Each of the 256 table entries is eight clocks of its index |
| Crc16.Continues | libs/misc/crc16.c:54-61 | The checksum of a concatenation continues from the checksum of the first part |
| Crc16.DetectsOneByteChange | libs/misc/crc16.c:54-61 | Any change of one byte of a message of any length changes the checksum |
| Crc16.DetectsTwoByteChange | libs/misc/crc16.c:54-61 | Any change confined to two adjacent bytes changes the checksum |
| Crc16.TailKeepsDifference | libs/misc/crc16.c:54-61 | Two different registers stay different whatever is fed to both |
| JsonRoundTrip.DocumentRoundTrip | libs/misc/cJSON.c:1212-1717 | For every tree with C strings and accepted number texts: if it has at most 1000 levels, parsing its formatted or unformatted print gives the same tree and stops at the terminator; if it has more, parsing the print fails |
| JsonGrammar.DeepFails | libs/misc/cJSON.c:1212-1264 | Parsing fails on every text of the grammar that nests deeper than the limit allows, whatever parses in front of the place |
| JsonRoundTrip.StringRoundTrip | libs/misc/cJSON.c:698-946 | A printed string, wherever it stands, parses to the string |
| JsonRoundTrip.NumberRoundTrip | libs/misc/cJSON.c:266-340 | A number text that `strtod` accepts whole parses to itself when no number byte follows |
| JsonRoundTrip.PrintedIs | libs/misc/cJSON.c:1267-1338 | Printed text of any tree, wherever it stands, is a text of the grammar |
| JsonGrammar.ParsesExactly | libs/misc/cJSON.c:1212-1264 | `parse_value` accepts exactly the texts of the grammar that are not nested too deep, with their value and end |
| JsonAccepts.AcceptsExactly | libs/misc/cJSON.c:1000-1077 | A document is accepted with a value if and only if it is a text of the JSON grammar with that value, behind an optional byte order mark and white space, nested at most 1000 deep and, if asked for, with only white space up to the terminator |
| JsonAccepts.ReadsLiterals | libs/misc/cJSON.c:698-824 | `parse_string` accepts exactly a quote, pieces of the literal grammar and the first quote that an even number of backslashes precedes; the result is the meaning of the pieces up to a zero byte |
| JsonAccepts.ReadsNumbersAt | libs/misc/cJSON.c:266-340 | `parse_number` accepts exactly what `strtod` takes of the longest run, up to 63 bytes, of digits, signs, points and exponent letters |
| JsonGrammar.ParsedIs | libs/misc/cJSON.c:1212-1264 | Everything that is accepted is a text of the grammar with the value returned |
| JsonGrammar.IsParsed | libs/misc/cJSON.c:1212-1264 | Every text of the grammar that is not nested too deep is accepted with its value |
| JsonParseEnd.ParsingStaysInBuffer | libs/misc/cJSON.c:1000-1077 | Parsing any C string stops; the offset stays inside the buffer, except that a failure leaves it one past the terminator if and only if the text ends inside an object where a member name has to come; that never happens when the last byte that is not white space is neither an opening brace nor a comma |
| JsonParseEnd.FailureCanPassTheEnd | libs/misc/cJSON.c:1497-1603 | The exception occurs: the text "{" leaves the offset at the length |
| JsonParseEnd.PassesTheEndIff | libs/misc/cJSON.c:1497-1603 | The offset ends past the terminator exactly if a member name is due there |
| JsonParseEnd.MembersEnd | libs/misc/cJSON.c:1526-1586 | The loop over members passes the end exactly if a name is due in it |
| JsonParse.ParseValue | libs/misc/cJSON.c:1212-1264 | A successful parse moves forward and stays in front of the terminator |
| JsonReader.ParseBuffer.ReadValue | libs/misc/cJSON.c:1212-1264 | The recursive method moves the offset, restores the depth and returns the tree exactly as the parsing function says, failures included |
| JsonReader.ParseBuffer.ReadArray | libs/misc/cJSON.c:1341-1432 | `parse_array` with its depth limit: same result, offset and failure as the function |
| JsonReader.ParseBuffer.ReadItems | libs/misc/cJSON.c:1370-1416 | The do-while loop over elements returns the elements in order |
| JsonReader.ParseBuffer.ReadObject | libs/misc/cJSON.c:1497-1603 | `parse_object` with its depth limit: same result, offset and failure as the function |
| JsonReader.ParseBuffer.ReadMembers | libs/misc/cJSON.c:1526-1586 | The do-while loop over members returns keys and values in order |
| JsonReader.ParseBuffer.ReadString | libs/misc/cJSON.c:698-824 | `parse_string` returns the decoded text and the offset behind the quote, or the offset of the failure; the output array is never overrun |
| JsonReader.ParseBuffer.ReadNumber | libs/misc/cJSON.c:266-340 | `parse_number` collects at most 63 number bytes and moves by what `strtod` accepts |
| JsonReader.ParseBuffer.SkipWhitespace | libs/misc/cJSON.c:963-981 | The offset moves to the first byte above 32, or to the last byte |
| JsonReader.ParseBuffer.ParseWithOpts | libs/misc/cJSON.c:1000-1077 | The whole entry point; the position it reports is always inside the text |
| JsonString.TurnWithinEstimate | libs/misc/cJSON.c:711-802 | Each turn of the decode loop stays within the first pass's size estimate, also when malformed digits put the two passes out of step |
| JsonString.NextBoundary | libs/misc/cJSON.c:715-730 | Wherever the decoder stands, the scan has a token boundary there or one byte on |
| JsonText.DecodeLoop | libs/misc/cJSON.c:747-802 | The decode loop writes the decoded bytes into an array of the estimated size plus one without leaving it |
| JsonText.ScanLoop | libs/misc/cJSON.c:712-737 | The first pass finds the closing quote and counts the escapes |
| JsonText.DecodeTurn | libs/misc/cJSON.c:749-801 | One turn writes the bytes of one character or escape at the output position and nothing else |
| JsonText.Utf16LiteralToUtf8 | libs/misc/cJSON.c:577-695 | The escape decoder writes the UTF-8 of the code point and returns 6 or 12, or writes nothing and returns 0 |
| JsonText.WriteUtf8 | libs/misc/cJSON.c:635-686 | The loop that writes last byte first gives the UTF-8 of the code point |
| JsonText.ParseHex4 | libs/misc/cJSON.c:540-573 | Four hexadecimal digits of either case give their value, anything else 0 |
| JsonUnicode.DecodeReads | libs/misc/cJSON.c:747-802 | A literal made of plain bytes, one-letter escapes and escaped scalar values (surrogate pairs included, section 7 of RFC 8259) decodes to those bytes, with the UTF-8 of each scalar value; so does one with garbled digits |
| JsonUnicode.DecodeSpells | libs/misc/cJSON.c:747-802 | The converse: whatever is decoded is made of such pieces, so every other escape is refused |
| JsonUnicode.ScanCloses | libs/misc/cJSON.c:712-737 | The first pass stops at the first quote with an even number of backslashes in front of it, and nowhere else |
| JsonUnicode.Utf8Encodes | libs/misc/cJSON.c:635-686 | The encoding read back by the grammar of section 4 of RFC 3629 gives the code point, exactly for scalar values |
| JsonUnicode.Utf8IsUnique | libs/misc/cJSON.c:635-686 | Every well-formed UTF-8 sequence is the encoding of its value |
| JsonUnicode.SurrogatesCombine | libs/misc/cJSON.c:600-632 | The surrogate formula inverts the split of a supplementary code point |
| JsonUnicode.SurrogatesSplit | libs/misc/cJSON.c:600-632 | and the split inverts the formula |
| JsonUnicode.LoneSurrogateIsRefused | libs/misc/cJSON.c:594-628 | An escaped surrogate is accepted if and only if it is a high one followed by an escaped low one |
| JsonUnicode.BadDigitsAreNul | libs/misc/cJSON.c:540-573 | An escape with a non-hexadecimal digit is not refused: it is read as U+0000 |
| JsonWriter.PrintPreallocated | libs/misc/cJSON.c:1192-1209 | Printing into a caller's buffer succeeds if and only if it has room for the text and two bytes more, and then holds the text and a terminator |
| JsonWriter.PrintText | libs/misc/cJSON.c:1087-1149 | Printing with a growing buffer returns the printed text and its terminator, with `realloc` and without; if none of the allocations is refused, the first and the last included, it succeeds exactly when the text and two bytes fit in an `int` |
| JsonWriter.PrintBuffer.Ensure | libs/misc/cJSON.c:373-458 | Room for the request and one byte more, the text so far kept, exactly when the capacity allows it, in a block of twice the size if it has to grow |
| JsonWriter.PrintBuffer.UpdateOffset | libs/misc/cJSON.c:461-471 | The offset moves to the terminator |
| JsonWriter.PrintBuffer.WriteString | libs/misc/cJSON.c:827-946 | The two passes write the quoted and escaped string |
| JsonWriter.EstimateIsExact | libs/misc/cJSON.c:849-876 | The size the first pass computes is exactly the size of the escaped text |
| JsonUnicode.EscapeIsShortest | libs/misc/cJSON.c:886-944 | No spelling of a byte that RFC 8259 allows is shorter than what the printer writes |
| JsonUnicode.EscapeIsSpelled | libs/misc/cJSON.c:886-944 | and what it writes is such a spelling |
| JsonWriter.PrintBuffer.WriteValue | libs/misc/cJSON.c:1267-1338 | The text of the tree and a terminator follow the text already there |
| JsonWriter.PrintBuffer.WriteArray | libs/misc/cJSON.c:1435-1494 | the same for arrays |
| JsonWriter.PrintBuffer.WriteObject | libs/misc/cJSON.c:1606-1717 | the same for objects, with indentation in formatted output |
| JsonNulFree.PrintIsNulFree | libs/misc/cJSON.c:1267-1338 | Printed text contains no terminator, so `update_offset` finds its end |
| JsonFormat.FormattedIsLaid | libs/misc/cJSON.c:1606-1717 | Formatted output is the unformatted output with line ends around the members of objects, a tab for every bracket and brace open at the start of a line, a tab behind each colon and a space behind each comma in an array, and nothing else added |
| JsonFormat.ValueIsLaid | libs/misc/cJSON.c:1267-1338 | The same for a tree in any context |
| JsonMinify.MinifyOfPrint | libs/misc/cJSON.c:2629-2697 | Minifying formatted print gives the unformatted print byte for byte, and leaves unformatted print as it is |
| JsonMinify.ValueMinifies | libs/misc/cJSON.c:2629-2697 | The same for a tree in any context |
| JsonMinifyInPlace.MinifyInPlace | libs/misc/cJSON.c:2629-2697 | On every terminated text: the read pointer stays in front of the terminator if and only if every block comment and string literal ends there; then the loop leaves the minified text and a terminator at the start of the buffer and no other byte changed |
| JsonMinifyClosed.ClosedIffMinified | libs/misc/cJSON.c:2629-2697 | The loop stays inside the text if and only if, scanned byte by byte, the terminator comes outside every string literal and block comment |
| JsonMinifyClosed.MinifiedIsKept | libs/misc/cJSON.c:2629-2697 | What is left of a text is what the byte-by-byte scan places inside string literals, or outside comments and is not white space |
| JsonMinifyInPlace.MinifyStep | libs/misc/cJSON.c:2638-2693 | One turn of the loop: what is written so far followed by the minified rest is always the whole result, or the read pointer is about to pass the terminator and there is none |
| JsonMinifyInPlace.CopyString | libs/misc/cJSON.c:2672-2687 | String literals are copied with their escapes |
| JsonMinifyDocument.MinifyKeepsMeaning | libs/misc/cJSON.c:2629-2697 | Every document the parser accepts up to its terminator parses, minified, to the same tree |
| JsonMinifyDocument.TrailingTextCanChangeMeaning | libs/misc/cJSON.c:1000-1077 | Without the check for the terminator that fails: "1 2" is read as 1, minified as 12 |
| JsonMinifyKeeps.ValueKeeps | libs/misc/cJSON.c:1212-1264 | The minified image of any parsed value reads as that value wherever it stands |
| JsonCompare.CompareIsMeaning | libs/misc/cJSON.c:2799-2922 | Comparison holds if and only if both trees are consistent and mean the same, an object meaning the map of its first members |
| JsonCompare.CompareIsEquality | libs/misc/cJSON.c:2799-2922 | On trees with pairwise different keys comparison is equality up to the order of members |
| JsonCompare.CopyComparesEqual | libs/misc/cJSON.c:2550-2627 | A copy compares equal to its source if and only if no object repeats a key with different meanings |
| JsonCompare.RepeatedKeyBreaksCopy | libs/misc/cJSON.c:2550-2627 | A tree with a repeated key that does not compare equal to its copy |
| JsonCompare.FindIsLookup | libs/misc/cJSON.c:1772-1798 | Looking up a key finds exactly what the object means at that key |
| JsonCompare.CaseInsensitiveEqual | libs/misc/cJSON.c:97-118 | Keys are equal without regard to case exactly when their lower-case forms are |
| JsonCompareKeys.CompareIsSame | libs/misc/cJSON.c:2799-2922 | If no object has the same key twice, comparison is equality up to the order of members, with keys that agree byte for byte, or position by position up to the case of the letters A to Z |
| JsonCompareKeys.NormIsName | libs/misc/cJSON.c:97-118 | The two ways of telling keys apart are byte equality, and equality up to 0x20 on the bytes 0x41 to 0x5A |
| JsonNodes.Duplicate | libs/misc/cJSON.c:2550-2627 | Copying builds a tree of new nodes that holds the same, node by node, and changes no old node (one bare node when not recursive), exactly if every request it makes of the allocator is granted; otherwise it returns nothing and every node it had allocated has been freed |
| JsonNodes.DuplicateChildren | libs/misc/cJSON.c:2593-2616 | The walk links the copies of the children in order, forwards and backwards, behind the first, up to the first that fails |
| JsonNodes.AppendKid | libs/misc/cJSON.c:2602-2608 | Linking one more child keeps the chain whole and its trees apart |
| JsonNodes.NewNode | libs/misc/cJSON.c:2557-2588 | A node with copies of its strings, or nothing and nothing left allocated |
| JsonNodes.Delete | libs/misc/cJSON.c:214-236 | Every node of the chain and below it is freed exactly once |
| JsonCompareNodes.GetObjectItem | libs/misc/cJSON.c:1772-1798 | The walk along the children returns the first one whose name is the same, byte for byte or up to the case of letters as asked, or null when there is none |
| JsonCompareNodes.CompareNodes | libs/misc/cJSON.c:2799-2922 | Nodes of the same valid type are equal if they are the same node or hold the same: equal text, equal elements in order, or members found and equal both ways; trees may share nodes |
| JsonCompareNodes.CompareAny | libs/misc/cJSON.c:2799-2922 | A null pointer compares unequal to everything; two trees of valid types that share no nodes and repeat no key compare equal if and only if they are the same up to the order of members, with or without regard to case as asked |
| JsonCompareNodes.EqualIsCompare | libs/misc/cJSON.c:2799-2922 | On linked trees of valid types that share no nodes the comparison is that of the values they stand for |
| JsonCompareNodes.CompareArrays | libs/misc/cJSON.c:2857-2879 | The loop over elements compares them in order and rejects different lengths |
| JsonCompareNodes.FindAllNodes | libs/misc/cJSON.c:2881-2917 | Each loop over members checks that all are found in the other object and equal there |
| JsonCompareNodes.CopyAndCompare | libs/misc/cJSON.c:2550-2627 | A recursive copy, if it could be made, compares equal to its source if and only if no object repeats a key with different meanings, on the nodes |
| Rpc.NoUseAfterFree | kernel/uService/rpc.c:65-129 | In every interleaving of any number of callers and services, with addresses reused after free, no step is made by a side whose buffer was freed or belongs to another call, and every buffer in the cache that `rpc_deinit` walks along is allocated and belongs to a call one side has left |
| Rpc.FreedExactlyOnce | kernel/uService/rpc.c:81-111 | In every reachable state a buffer has been freed once if both sides have called `rpc_deinit` and never otherwise; before that it is allocated and in the cache exactly while one has; after that it is neither allocated nor in the cache, unless a later call was given its address |
| Rpc.LeaksIffUnanswered | kernel/uService/uservice.c:42-120 | When a call is over, its buffer has been freed and has left the cache if and only if the request was delivered and replied to; otherwise it stays in the cache |
| Rpc.OnlyUnansweredLeak | kernel/uService/uservice.c:42-120 | When all calls are over, cache and heap hold exactly the buffers of the unanswered ones |
| Rpc.CacheIsParked | kernel/uService/rpc.c:94-108 | An address is in the cache exactly if one side of its call is done, and allocated exactly if some call owns it |
| Rpc.ReadsAfterReply | kernel/uService/uservice.c:70-96 | A caller that reads a result reads it after the reply |
| Rpc.SyncOutlastsReply | kernel/uService/uservice.c:70-96 | A caller that waits without limit for a delivered request goes on only after the reply |
| Rpc.NeverStuck | kernel/uService/utask.c:58-118 | Until its buffer is freed, a call that is delivered and not turned down has a step to make |
| Rpc.StepKeeps | kernel/uService/rpc.c:65-129 | Every step of every side keeps the invariant |
| Rpc.RunKeeps | kernel/uService/rpc.c:65-129 | The invariant holds after every run |
| Rpc.HandoverMembers | kernel/uService/rpc.c:94-108 | `rpc_deinit` toggles one address in the cache and moves no other |
| Rpc.Task.RpcDeinit | kernel/uService/rpc.c:81-111 | The search loop frees and unlinks a cached buffer, or parks it at the end of the cache |
| RpcPayload.RoundTrip | kernel/uService/rpc.c:131-271 | For every list of non-empty byte strings whose stream without the last one is shorter than 65536 bytes the gets return the puts in order, and again after `rpc_get_reset`; after `rpc_put_reset` the same holds of the new ones, whatever was put before |
| RpcPayload.RpcBuffer.PutBuffer | kernel/uService/rpc.c:192-214 | The block becomes the bytes kept and one frame; the 16-bit size wraps; as long as what was there is shorter than 65536 bytes, the block holds the byte strings put before and the new one; an error changes none of them |
| RpcPayload.PutAll | kernel/uService/rpc.c:131-214 | After any list of puts the block holds their stream if and only if the stream without the last one is shorter than 65536 bytes |
| RpcPayload.RpcBuffer.GetBuffer | kernel/uService/rpc.c:256-271 | The next byte string that was put and not got, and the position behind it; a null pointer if nothing was ever put; and when all have been got, a frame that does not lie in the block, which the source does not check |
| RpcPayload.RpcBuffer.NeedSize | kernel/uService/rpc.c:131-150 | A larger block with the old bytes in front, or nothing changed |
| RpcPayload.RpcBuffer.GetReset | kernel/uService/rpc.c:163-168 | Reading starts again at the first byte string |
| RpcPayload.RpcBuffer.PutReset | kernel/uService/rpc.c:152-161 | Nothing is left |
| RpcPayload.FrameAt | kernel/uService/rpc.c:256-271 | The k-th frame of a stream holds the k-th byte string |
| RpcPayload.OverflowDropsFrames | kernel/uService/rpc.c:131-150 | When the stream reaches 65536 bytes the next put drops what was there |
| RingBuffer.Run | drivers/uart/uart_drv.c:234-266 | Any number of receive calls with the interrupts of a line striking between any two reader statements, any number of them in each gap, and during waits: the bytes handed out and then those left in the ring are the bytes the interrupts stored, each storing exactly what fitted beside the bytes unread at that moment; each call that returns short has waited as often as it may or until a wait timed out, a wait times out if and only if nothing was announced since the one before, and it has handed out all that was stored when its last read began; without an overflow these are all bytes that arrived, and a ring larger than all of them never overflows |
| RingBuffer.Uart.Recv | drivers/uart/uart_drv.c:234-266 | A receive call returns the next bytes in order and leaves the rest of the target alone; it waits while it is short, may wait and is notified, and returns short only then, with everything stored by its last read; what it leaves behind has been announced or overflowed. Called with size 0 it returns -1, or stores one byte in front of the target and returns 0 |
| RingBuffer.Uart.RecvSome | drivers/uart/uart_drv.c:234-266 | The same for sizes above 0 |
| RingBuffer.Uart.Wait | drivers/uart/uart_drv.c:254-261 | A wait is notified if and only if the event was set or an interrupt that strikes during it sets it; one that starts on an empty ring or with the event set and times out ends on an empty ring, unless the ring has overflowed |
| RingBuffer.Uart.Read | libs/misc/ringbuffer.c:85-119 | `ringbuffer_read` preempted anywhere copies the next bytes in order; what it leaves behind has been announced or overflowed |
| RingBuffer.Uart.Take | libs/misc/ringbuffer.c:107-115 | One turn of the copy loop, with interrupts also between `head++` and its wrap-around |
| RingBuffer.Uart.Copy | libs/misc/ringbuffer.c:107-115 | The copy loop takes the next bytes in order |
| RingBuffer.LoggedOnce | drivers/uart/uart_drv.c:95-135 | One more interrupt: it stores exactly what fits, loses bytes only in an overflow, and that takes more bytes than the ring holds |
| RingBuffer.Uart.Available | libs/misc/ringbuffer.c:47-61 | The computed space lies between the bytes unread at the start and at the end |
| RingBuffer.SpaceIsPending | libs/misc/ringbuffer.c:47-61 | The space formula gives the number of unread bytes, also while `head` is one past the end |
| RingBuffer.Uart.Write | libs/misc/ringbuffer.c:63-83 | `ringbuffer_write` accepts exactly the bytes that fit, in order |
| RingBuffer.Uart.Isr | drivers/uart/uart_drv.c:95-135 | The receive interrupt stores what fits and announces it exactly if everything fitted |
| RingBuffer.Uart.Gap | drivers/uart/uart_drv.c:95-135 | Any number of interrupts between two statements of the reader: they store in order what fits and move nothing the reader owns |
| RingBuffer.OverflowIsSilent | drivers/uart/uart_drv.c:113-124 | An overflowing interrupt announces nothing, not even the bytes it stored |
| OtaRuns.Run | modules/ble_profiles/ota_server.c:188-309 | For every sequence of events (connections, lost, damaged and fragmented packets, control frames, time-outs, processing turns) the receiver ends where the events take it, with at most 10 requests between flashed packets and 10 per packet in all and lengths within 8192. When all packets of its count are flashed, on flash erased at the start, with only requested packets taken, no checksum fooled and a last packet that is not full, the partition is the firmware behind two sectors and erased elsewhere if and only if fewer than 65536 packets carry it; otherwise the 16-bit count wrapped around and it holds the first `(count - 1) * ps + fw % ps` bytes only |
| OtaRuns.RunDelivers | modules/ble_profiles/ota_server.c:188-494 | The same of the events alone; a session whose count wrapped around to 0 takes no packet; and with a firmware that is a whole number of packets no session counts them all |
| OtaRuns.EventKeeps | modules/ble_profiles/ota_server.c:224-527 | Every event keeps counters, lengths and image sound |
| OtaTransfer.TransferCompletes | modules/ble_profiles/ota_server.c:224-520 | A transfer succeeds: for every device without a session on erased flash, every firmware whose last packet is not full, every supported packet size for which the 16-bit count is not 0, up to nine requests per packet that fail by silence, by a part of an answer or by a checksum that does not match, and answers in any tidy fragments, all packets of the count are flashed and the device restarts; the partition is then the firmware behind two sectors if and only if fewer than 65536 packets carry it, and the part that the wrapped count asks for otherwise |
| OtaTransfer.CompletesAfterDisconnect | modules/ble_profiles/ota_server.c:174-186 | Whatever has happened to a device that still runs, after the peer has disconnected a transfer completes as on a new one |
| OtaTransfer.WrappedCountStopsShort | modules/ble_profiles/ota_server.c:242-270 | 131073 bytes in packets of two are 65537 packets, of which the receiver counts on one: it takes one byte and restarts with it |
| OtaPackets.PacketDecides | modules/ble_profiles/ota_server.c:188-222 | A packet that answers a request, with some payload in its first fragment, is taken if and only if no fragment that starts inside its payload is a stop or a complete command; otherwise the first such fragment stops or completes the session. With no payload in the first fragment and no other fragment that looks like a frame, nothing changes |
| OtaPackets.StopCommand | modules/ble_profiles/ota_server.c:272-278 | FF 02 FE clears counters, lengths and received bytes and keeps the partition; the next turn makes the device idle and does not restart it |
| OtaPackets.CompleteCommand | modules/ble_profiles/ota_server.c:279-285 | FF 04 FE keeps counters, packet and partition; the next turn restarts the device |
| OtaCommands.StartCommand | modules/ble_profiles/ota_server.c:242-270 | FF 01, three bytes of firmware size, two of packet size, a time and FE: refused, divided by zero, or a session with these sizes and the rounded-up number of packets modulo 65536 |
| OtaCommands.IdleMindsOnlyStart | modules/ble_profiles/ota_server.c:242-270 | An idle device minds no other bytes |
| OtaCommands.NumberOutOfRange | modules/ble_profiles/ota_server.c:286-294 | A packet whose number is not below the count changes nothing |
| OtaCommands.RequestTurn | modules/ble_profiles/ota_server.c:460-478 | Ten requests between two packets, each clearing what was received and starting the timer; then the session ends and the partition is kept |
| OtaCommands.FlashTurn | modules/ble_profiles/ota_server.c:480-494 | The turn that flashes a packet programs its bytes at their place, counts it and asks for the next or completes |
| OtaCommands.TimerTurn | modules/ble_profiles/ota_server.c:522-527 | The timer leads back to the request and clears what was received |
| OtaCommands.LostConnection | modules/ble_profiles/ota_server.c:174-186 | A lost connection ends the session and leaves every byte of the partition 0xFF |
| OtaPackets.AttemptFails | modules/ble_profiles/ota_server.c:188-222 | After a part of an answer, or one whose checksum does not match, the receiver asks again and nothing else has changed |
| OtaPackets.OnePiece | modules/ble_profiles/ota_server.c:286-304 | Every packet can be sent: written in one piece with its checksum it is tidy |
| OtaPackets.AnyPacketIsFlashed | modules/ble_profiles/ota_server.c:286-304 | The packet number is not compared with the request: another packet is flashed in the place of the requested one |
| OtaTransfer.ZeroPacketSizeFaults | modules/ble_profiles/ota_server.c:242-268 | A start frame with packet size 0 passes the checks and leads to the division by it |
| Ota.SessionFacts | modules/ble_profiles/ota_server.c:432-494 | The bounds and the image follow from the invariant of a session; all of the firmware is there if and only if the count did not wrap around |
| Ota.FlashKeeps | modules/ble_profiles/ota_server.c:480-494 | Flashing a packet extends the image by its payload |
| Ota.ImageStep | modules/ble_profiles/ota_server.c:157-167 | Programming the next payload behind the others keeps everything else erased |
| Ota.HeadKeeps | modules/ble_profiles/ota_server.c:286-304 | A packet header sets the expected length of its packet |
| Ota.StartKeeps | modules/ble_profiles/ota_server.c:242-270 | A start frame opens a session |
| Ota.RequestKeeps | modules/ble_profiles/ota_server.c:460-478 | A request uses up one retry |
| Ota.OtaServer.CharWrite | modules/ble_profiles/ota_server.c:224-321 | What each written value does to the receiver: start, stop, complete, packet header, fragment, a fault, or nothing |
| Ota.OtaServer.RecvData | modules/ble_profiles/ota_server.c:188-222 | Fragments are reassembled in order up to the expected length; the complete packet is taken to flash exactly if its checksum matches |
| Ota.OtaServer.OnHeader | modules/ble_profiles/ota_server.c:286-304 | The first fragment of a packet |
| Ota.OtaServer.OnStart | modules/ble_profiles/ota_server.c:242-270 | A start frame that fits starts a session, with packet size 0 it faults, any other changes nothing |
| Ota.OtaServer.Process | modules/ble_profiles/ota_server.c:432-520 | What a turn of the processing task does in each state |
| Ota.OtaServer.FlashPacket | modules/ble_profiles/ota_server.c:480-494 | The payload goes to its place in the partition and is counted |
| Ota.OtaServer.SendRequest | modules/ble_profiles/ota_server.c:417-430 | A request clears the receive buffer and starts the timer |
| Ota.OtaServer.Timeout | modules/ble_profiles/ota_server.c:522-527 | The timer leads back to the request |
| Ota.OtaServer.Reset | modules/ble_profiles/ota_server.c:127-138 | The session is closed |
| Ota.OtaServer.Connection | modules/ble_profiles/ota_server.c:174-186 | A lost connection closes the session and erases the partition |
| Ota.DamageIsNoticed | modules/ble_profiles/ota_server.c:204-213 | A packet damaged in one byte or in two adjacent bytes does not pass the check |
| DList.Link | include/aos/list.h:36-43 | Linking a node between two neighbours of a ring gives the ring with it in that place, both ways around |
| DList.Del | include/aos/list.h:66-73 | Unlinking a node gives the ring without it |
| DList.Init | include/aos/list.h:75-78 | A node linked to itself is a ring |
| DList.AddFirst | include/aos/list.h:56-59 | The node becomes the first |
| DList.AddLast | include/aos/list.h:61-64 | The node becomes the last |
| DList.DelFirst | include/aos/list.h:66-73 | The first node is taken out |
| Timers.Run | kernel/eventloop/evtloop_main.c:133-261 | For every interleaving of posts, cancellations and loop turns, with callbacks that post and cancel: the callbacks made, and the timers left in the ring, are those the script calls for; the ring stays sorted by deadline with ties in posting order, every callback was due and preceded all others pending, and every action posted is pending, called or cancelled exactly once; the nodes that are allocated are those in the ring |
| Timers.EventLoop.Post | kernel/eventloop/evtloop_main.c:201-234 | A new timer goes in front of the first later deadline, or an error changes nothing |
| Timers.EventLoop.Add | kernel/eventloop/evtloop_main.c:212-228 | The new node is linked in where the search stopped |
| Timers.EventLoop.FindLater | kernel/eventloop/evtloop_main.c:223-227 | The search walks the ring to the first strictly later deadline, or to the head |
| Timers.EventLoop.Cancel | kernel/eventloop/evtloop_main.c:236-261 | The first timer with this action and parameter, and with this delay unless it is negative, is removed, and its node freed; if there is none nothing changes |
| Timers.EventLoop.Turn | kernel/eventloop/evtloop_main.c:154-165 | The first timer is taken out and called if and only if it is due; then the callback's posts and cancellations apply, and the node is freed |
| Timers.EventLoop.Destroy | kernel/eventloop/evtloop_main.c:193-198 | Every timer is freed, and the ring is empty |
| Timers.EventLoop.Delay | kernel/eventloop/evtloop_main.c:139-150 | The poll sleeps until the first deadline, not at all if that has passed, and without limit only if nothing is pending |
| Timers.EventLoop.Perform | kernel/eventloop/evtloop_main.c:201-261 | Posts and cancellations take effect one after the other |
| Timers.InsertKeepsOrder | kernel/eventloop/evtloop_main.c:223-228 | Insertion keeps the order by deadline and posting |
| Timers.FireKeeps | kernel/eventloop/evtloop_main.c:154-164 | Calling the first timer of a sorted ring is timely and keeps the books |
| Timers.TurnsDrain | kernel/eventloop/evtloop_main.c:133-165 | Once everything pending is due, as many turns as there are timers call them all in the order of the ring |
| Timers.NotBeforeItsDelay | kernel/eventloop/evtloop_main.c:154-234 | Every callback of every run was posted by some event of the script, and comes no earlier than its delay after that |
| Timers.RunKeeps | kernel/eventloop/evtloop_main.c:133-261 | Order, timeliness and accounts hold after every script |
| Timers.EffectsInOrder | kernel/eventloop/evtloop_main.c:201-261 | The calls of a callback compose |
| EventQueue.Run | kernel/eventloop/evtloop_device.c:85-149 | For every sequence of writes and reads every step is answered as the steps before it demand, and what was accepted and not read is pending in order |
| EventQueue.FirstInFirstOut | kernel/eventloop/evtloop_device.c:85-149 | The read after j successful reads returns the j-th payload accepted in the whole run, cut to the length asked for, that is its first bytes |
| EventQueue.GrantedIsAccepted | kernel/eventloop/evtloop_device.c:85-118 | While the allocator delivers, every payload written is accepted, in order |
| EventQueue.LastReadIsReused | kernel/eventloop/evtloop_device.c:90-149 | After a read, a write of the same size needs no memory |
| EventQueue.Queue.Write | kernel/eventloop/evtloop_device.c:85-118 | The payload is queued last, in a recycled node whose buffer has its size or a new one; every node stays in exactly one place and every payload fills its buffer |
| EventQueue.Queue.Read | kernel/eventloop/evtloop_device.c:120-149 | The oldest payload, cut; its node is recycled while fewer than four are kept, else freed |
| EventQueue.Queue.Obtain | kernel/eventloop/evtloop_device.c:90-103 | The node comes from the cache exactly if its first node has the size, else from the allocator |
| EventQueue.Queue.Deinit | kernel/eventloop/evtloop_device.c:59-83 | All nodes ever allocated have been freed |
| EventQueue.Chain.TakeFirst | kernel/eventloop/evtloop_device.c:132-133 | The first node leaves its ring and its counter is kept |
| EventQueue.Chain.PutLast | kernel/eventloop/evtloop_device.c:105-109 | A node joins its ring at the end |
| EventQueue.Chain.PutFirst | kernel/eventloop/evtloop_device.c:137-140 | A node joins its ring at the front |

## Left out

- FtlRuns.Run: logical erases are not among its commands, because an erase can be undone by a stale copy after a crash; that condition is `FtlIndex.EraseSurvivesRemount`.
- FtlFlatRuns.FlatRun: starts from a volume without tags and assumes fewer than 2^32 bytes written, which bounds the page versions.
- OtaRuns.Run: the image is stated for sessions that started on erased flash, took only requested packets and met no checksum collision; `faithful` and `Truthful` record these.
- OtaPackets.PacketDecides: of a packet with no payload in its first fragment it says what happens only if no later fragment looks like a frame of its own, because such a fragment is taken for one.
- RingBuffer.Uart.Recv: of a call with size 0 only the result and the byte stored are described, not how it waits.
- JsonMinifyInPlace.MinifyInPlace: stops where the source reads on past the terminator; what the source makes of the bytes behind it is not modelled.
- RpcPayload.RpcBuffer.GetBuffer: a frame outside the block is reported, not read; the source reads what is there.
- Rpc.NoUseAfterFree: the service side may process several requests at once, which is more than the one service thread does.
- cJSON nodes as heap objects: only copying, deleting, looking up and comparing work on linked nodes; the parser, the printer and the functions that edit trees do not.
- JsonNodes.Duplicate: of what it allocates only the nodes are accounted for; the strings are part of their node.
- cJSON doubles (`strtod`, `sprintf`), Raw nodes, references, constant and NULL strings, and the manual reallocation path of `ensure`.
- Bit operations on code points in the UTF-8 encoder are written as the arithmetic they amount to.
- Sizes that overflow `size_t` in the JSON printer and parser.
- The protected-mode erase loop of the flash translation layer, its locks, poll-mode wrappers, device look-up and allocation failures.
- UART notification callbacks, the `event_state` bits, the transmit path, and the overflow interrupt that clears the ring.
- RPC handlers that attach data to a request that had none; the retry loop of `uservice_call` appears only as delivered or not delivered.
- BLE connection parameters, notifications to the peer and the reboot itself; flash write errors that the receiver ignores.
- The semaphore polling of the event loop, `aos_post_event` and the mutex of the event queue, which has a single reader.
- Everything else in the SDK: drivers, Bluetooth profiles, AT commands, key-value store, command line and the kernel wrappers.
