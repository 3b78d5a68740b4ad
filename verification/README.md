# Wireless tools, verified

A Dafny 4.11 model of the decoders, encoders, parsers and small state machines inside `iw` 4.0,
`wireless_tools` 25 and the argp part of glibc 2.3, with proofs of what they do on every input.
`dafny verify dfyconfig.toml` checks the whole project.

| file | component |
|---|---|
| CText.dfy | `strtoul`, `strchr` splitting, `strtok` tokens, two-digit hexadecimal |
| Numerals.dfy | numbers as people write them, and what `strtoul` makes of them |
| Octets.dfy | 16-bit fields and flag words |
| BitMask.dfy | masks packed little-endian into bytes |
| PacketPattern.dfy | `parse_hex_mask`, the pattern printers, and which packets a pattern matches |
| NlMessage.dfy | netlink messages as token sequences with nests; `[offset+]pattern` arguments |
| NetDetect.dfy, NetDetectGrammar.dfy | the net-detect state machine, and the language it accepts |
| Wowlan.dfy | `handle_wowlan_enable` around net-detect and the pattern list |
| Coalesce.dfy | `handle_coalesce_enable` |
| EventStream.dfy | the wireless event stream and the loop over it |
| FmtStream.dfy | the argp formatted stream |
| RsnElement.dfy | the RSN element (section 7.3.2.25 of IEEE 802.11-2007) |
| ElementWalk.dfy | the walks over information elements (section 7.3.2 of IEEE 802.11-2007), P2P and WPS attributes |
| Frequency.dfy | the mantissa/exponent frequency format, both build variants |
| DbmPower.dfy | dBm and milliwatts |
| KeyTable.dfy, PowerManagement.dfy | the two sample drivers |
| KeyText.dfy, SsidText.dfy, McsList.dfy | printed forms and reading them back |

How the model stands to the code:

- Code that works step by step is a method with the code's own loop, cursor, buffer or fields, and is
  proved equal to a function; the laws are then lemmas about that function. Objects whose fields the
  code updates are classes (`NetDetect.Parser`, `EventStream.Stream`, `FmtStream.Stream`, the two
  drivers).
- Where C leaves behaviour undefined (a store outside a buffer, a null string, a read past the end),
  the model has an outcome of its own for it, and a lemma says exactly on which inputs it occurs.
- `unsigned long` has 64 bits, `int` 32 bits, 16-bit fields are little-endian. 8-bit lengths are
  reduced modulo 256 where the code reduces them. `strtoul` follows glibc 2.3 with blanks, sign, `0x`
  prefix and saturation.
- `iw_event` prefix and point sizes differ between 32-bit and 64-bit machines and are parameters.

Results that differ from what the code or its help text promises, each with its exact condition and,
where that condition is not an input itself, with an input that fails:

- Net-detect followed by another argument, which the usage line allows, loses its frequency and match
  lists (`NetDetectGrammar.ListsKeptIff`, `NetDetectGrammar.FrequencyLost`, `Wowlan.FrequencyNotSent`).
- Pattern texts with empty elements can run over the parser's buffers, also where they would have been
  refused (`PacketPattern.DefinedIff`, `PacketPattern.EmptyElementsOverrun`,
  `PacketPattern.OverrunBeforeRefusal`, `PacketPattern.FourteenColons`, `Wowlan.CommandUndefinedIff`,
  `Coalesce.CommandUndefinedIff`). A pattern argument of plus signs alone is passed on as null by the WoWLAN
  handler (`NlMessage.ArgumentIff`, `Wowlan.UndefinedIff`); the coalesce handler refuses it.
- A wildcard stands for one byte; the help text's second example packet has two in its place
  (`PacketPattern.MatchesIff`, `PacketPattern.HelpTextPackets`).
- A coalesce file whose first line has fewer than five characters makes the handler search bytes that
  were never written (`Coalesce.CommandUndefinedIff`, `Coalesce.ShortLine`).
- Comment lines in a coalesce file are never skipped (`Coalesce.CommentsRejected`).
- A point event too short for its fixed part, or longer than the buffer, is delivered with a payload
  that is not in the buffer (`EventStream.PayloadOffsetIff`, `EventStream.PayloadOutside`): the
  subtraction that decides about the payload is unsigned, and no length is compared with the buffer.
- When a left margin does not fit into the buffer, its blanks overtake the text in front of it
  (`FmtStream.ScanExactIff`; `FmtStream.MarginOvertakes` and `FmtStream.PrintTwoLines` with one print
  to a new stream). Nothing else is ever lost or reordered (`FmtStream.ScanKeeps`).
- The element and WPS walks do not count the item header in their length test
  (`ElementWalk.StaysInsideIff`, `ElementWalk.HeaderNotCounted`, `ElementWalk.LeavesTheBuffer`).
- The two `iw_freq2float` variants disagree on negative exponents (`Frequency.DecodersAgreeIff`), and
  the two `iw_float2freq` variants keep nine and seven digits (`Frequency.VariantsAgreeIff`,
  `Frequency.VariantsDisagree`).
- 1, 2, 3 and 6 dBm and all negative values do not survive the way to milliwatts and back
  (`DbmPower.LossyValues`).
- A period set as minimum and maximum at once is stored as minimum and read as maximum
  (`PowerManagement.GetWhatWasSet`, `PowerManagement.BothBoundsLost`).
- The MCS list writes a lone index twice unless it comes last (`McsList.ReadsBackIff`,
  `McsList.LoneIndexDoubled`).

The worked example of the mask layout in nl80211.h comes out as written
(`PacketPattern.DocumentedMask`).

## Model

| member | source | states |
|---|---|---|
| CText.LowerHexNumeral | glibc-2.3/sysdeps/generic/strtol.c:234-565 | `strtoul` in base 16 reads every byte printed with `%.2x` back, over its whole length |
| CText.SplitJoin | iw-4.0/util.c:86-125 | cutting a text at each colon gives back the pieces it was joined from |
| CText.JoinSplit | iw-4.0/util.c:86-125 | the pieces of any text, joined again, are that text |
| Numerals.WrittenNumeral | glibc-2.3/sysdeps/generic/strtol.c:234-565 | every number written in base 10 or 16, in either letter case, behind any blanks, sign, prefix and zeros, is read as itself; negative ones wrap around, those from 2^64 on saturate |
| Numerals.NumeralIff | glibc-2.3/sysdeps/generic/strtol.c:234-565 | a text is read to its end iff it is blanks, a sign, a prefix and digits, each but the digits optional, or empty |
| PacketPattern.ParseHexMask | iw-4.0/util.c:59-132 | the loop over the two allocated buffers fills exactly the bytes and mask bits of the elements read, zero elsewhere; it rejects, or runs out of bounds, exactly when the element-by-element reading says so |
| PacketPattern.ConvertPattern | iw-4.0/wowlan.c:539-547 | the bytes and mask bytes later sent are those of the elements, or the text is refused, or copying them runs over the buffers |
| PacketPattern.DefinedIff | iw-4.0/util.c:62-125 | every text: it runs over the buffers iff a piece that is no wildcard stands at or past the capacity with all pieces up to it readable, or all are readable and too many; it is sent iff all are readable and no more than the capacity |
| PacketPattern.NonEmptyElementsFit | iw-4.0/util.c:62-125 | with no empty element every store and every later copy is inside the allocated sizes, accepted or not, with or without mask |
| PacketPattern.EmptyElementsOverrun | iw-4.0/util.c:62-125 | n colons and nothing else run over the buffers iff n is at least 3 |
| PacketPattern.OverrunBeforeRefusal | iw-4.0/util.c:86-125 | n empty elements and one that cannot be read run over the buffers iff n is more than the capacity, and are refused otherwise |
| PacketPattern.PrintPattern | iw-4.0/wowlan.c:726-741 | the printing loop gives one two-character element per byte, a number where the mask bit is set and a wildcard where not, separated by colons |
| PacketPattern.ReadPrinted | iw-4.0/util.c:59-132 | every non-empty pattern, printed, parses to itself inside the buffers |
| PacketPattern.PrintThenParse | iw-4.0/coalesce.c:286-305 | printing any stored pattern and parsing it again keeps length, mask bits and compared bytes (zero elsewhere), and so the set of packets matched at every offset |
| PacketPattern.ParsePrintParse | iw-4.0/util.c:59-132 | on every accepted text, however spelled, parse then print then parse gives the same bytes and mask |
| PacketPattern.PrintedPlain | iw-4.0/wowlan.c:730-739 | a printed pattern is never empty and has no plus sign or comma in it |
| PacketPattern.MatchesIff | iw-4.0/nl80211.h:3636-3643 | every pattern and packet: a match is one packet byte per element, equal to it unless it is a wildcard |
| PacketPattern.TextMatchesIff | iw-4.0/wowlan.c:571-578 | the same on every accepted text: each of its pieces is a wildcard or the number of the packet byte at its place |
| PacketPattern.ReadHex | iw-4.0/util.c:94-118 | a hexadecimal number, however written, is an element iff it is a byte, counted in 32 bits |
| PacketPattern.SpelledSent | iw-4.0/util.c:86-125 | elements written as numbers in any form or as any of the three wildcards are sent as those elements |
| BitMask.MaskExtensional | iw-4.0/nl80211.h:3636-3643 | two masks of one length that agree in every bit are equal |
| NlMessage.ReadPatternArg | iw-4.0/wowlan.c:523-542 | an argument is cut at plus signs into offset and pattern; it is accepted, refused, missing or undefined as the pieces are |
| NlMessage.PrintedPatternReenters | iw-4.0/coalesce.c:119-149 | what the status command prints for a pattern is accepted as an argument, alone or behind any numeral offset, and matches the same packets |
| NlMessage.ArgumentIff | iw-4.0/wowlan.c:523-547 | every argument: its pattern is null iff it has no character but plus signs, leaves defined behaviour iff its pattern text runs over the buffers, and is good iff that text can be read and fits |
| NlMessage.GivenRead | iw-4.0/wowlan.c:523-547 | a number, plus signs and a printed pattern, with plus signs around them, are read as that offset and that pattern |
| NlMessage.GivenNumbered | iw-4.0/wowlan.c:536-552 | what is put for a list of offsets and patterns is the mask, the bytes and the offset of each, numbered in order |
| NlMessage.NumberPatternsBalanced | iw-4.0/wowlan.c:544-550 | the tokens of any list of patterns start and end the same nests |
| NetDetect.Parser.Parse | iw-4.0/wowlan.c:256-415 | the loop over argc and argv ends on every argument list, with the result, arguments left and message of the state machine |
| NetDetect.ParseNetDetect | iw-4.0/wowlan.c:220-429 | the whole parser: its cursor stays inside argv and moves by what was consumed, and its message is one nest |
| NetDetect.Turn | iw-4.0/wowlan.c:257-408 | every turn of the switch gives back no argument, and either stops or lowers twice argc plus one for not being at top level |
| NetDetect.RunLeavesSuffix | iw-4.0/wowlan.c:425-428 | what any run leaves is a suffix of what it was given: argv moves by exactly the drop in argc |
| NetDetectGrammar.SentenceAccepted | iw-4.0/wowlan.c:309-415 | every sentence of options is accepted whole; scalars come in the order given, then the frequency and SSID lists exactly as given, numbered from 0 |
| NetDetectGrammar.AcceptedIsSentence | iw-4.0/wowlan.c:256-415 | whatever is not refused starts with such a sentence, at whose end the parser stops; the lemma constructs it |
| NetDetectGrammar.SentenceRead | iw-4.0/wowlan.c:309-415 | a sentence with anything behind it at which the parser stops is read up to there and the rest is handed back |
| NetDetectGrammar.AcceptedIff | iw-4.0/wowlan.c:256-415 | every argument list: it is not refused iff it is a sentence and a rest at which the parser stops; then that rest is left, and the message is the sentence's, less its lists if the rest is not empty |
| NetDetectGrammar.ListsKeptIff | iw-4.0/wowlan.c:330-335 | on every run that is not refused the message is the one asked for iff nothing is handed back or no list was given |
| NetDetectGrammar.NumbersSent | iw-4.0/wowlan.c:262-415 | interval, delay and frequencies given as decimal numbers below 2^32 are put as those numbers, frequencies and SSIDs numbered from 0 |
| NetDetectGrammar.RefusedAsInvalid | iw-4.0/wowlan.c:262-398 | every run returns 0 or -EINVAL |
| Wowlan.HandleEnable | iw-4.0/wowlan.c:431-569 | the handler's loop, which goes on without moving only after net-detect, ends on every argv with the specified result |
| Wowlan.PatternsNumbered | iw-4.0/wowlan.c:522-562 | after "patterns" every argument is a pattern: all are put, numbered on from those before, or the command fails |
| Wowlan.PatternCommand | iw-4.0/wowlan.c:522-562 | behind any valid triggers a pattern list succeeds iff every pattern is good, and then the patterns are numbered 1 to n in order; otherwise it is refused or leaves defined behaviour, and which is decided |
| Wowlan.CommandAccepted | iw-4.0/wowlan.c:452-564 | every command (flags, tcp and net-detect in any order, then a pattern list or none) is accepted with exactly its message |
| Wowlan.CommandAcceptedIff | iw-4.0/wowlan.c:431-569 | every argument list: the handler accepts it iff it is a command, and then the message is that command's |
| Wowlan.CommandUndefinedIff | iw-4.0/wowlan.c:522-547 | every argument list: the handler leaves defined behaviour iff its pattern list does, behind valid triggers |
| Wowlan.PatternsGiven | iw-4.0/wowlan.c:522-562 | a list of offsets and patterns is sent as given, numbered from 1 |
| Wowlan.EveryFlag | iw-4.0/wowlan.c:455-475 | each of the seven words puts its own trigger |
| Wowlan.EnableErrors | iw-4.0/wowlan.c:452-568 | every run returns 0, 1, what net-detect returns or what reading a TCP file returns |
| Wowlan.TriggersRead | iw-4.0/wowlan.c:452-521 | triggers in any order are read one by one, each puts its own message, net-detect without its lists unless it comes last, and the handler goes on with what is behind them |
| Wowlan.UndefinedIff | iw-4.0/wowlan.c:522-547 | the pattern list leaves defined behaviour iff, after good patterns, one has no character but plus signs or a text that runs over its buffers |
| Wowlan.EnableBalanced | iw-4.0/wowlan.c:447-564 | on success every nest started has been ended, whatever the arguments |
| Coalesce.HandleCoalesce | iw-4.0/coalesce.c:26-193 | the line loop with its state, rule and pattern counters gives the specified result, undefined where it searches unwritten bytes |
| Coalesce.ReadPatterns | iw-4.0/coalesce.c:108-165 | the inner loop over comma-separated patterns reads each piece once, in order |
| Coalesce.AcceptedIff | iw-4.0/coalesce.c:63-185 | from any point between rules: accepted iff the lines left are complete valid rules, and then numbering goes on |
| Coalesce.CommandAcceptedIff | iw-4.0/coalesce.c:40-193 | a file is accepted iff its lines are zero or more delay, condition, patterns triples with valid contents; rules are numbered from 1, patterns consecutively across rules, and all nests are closed |
| Coalesce.EolCut | iw-4.0/coalesce.c:53-61 | the end of a line, of either kind or missing, is cut off and nothing else |
| Coalesce.FileAccepted | iw-4.0/coalesce.c:47-193 | every file written from rules is accepted, and what is put is exactly those rules: delays, conditions and offsets as numbers, patterns as elements, all numbered from 1 |
| Coalesce.RunErrors | iw-4.0/coalesce.c:26-193 | every run returns 0 or 1 |
| Coalesce.UndefinedIff | iw-4.0/coalesce.c:108-149 | from any point between rules: the run leaves defined behaviour iff, behind complete valid rules, a rule with valid delay and condition has a pattern that runs over its buffers, behind good ones |
| Coalesce.CommandUndefinedIff | iw-4.0/coalesce.c:26-149 | a file leaves defined behaviour iff its first line has fewer than five characters or a rule does so |
| Coalesce.CommentsRejected | iw-4.0/coalesce.c:173-177 | no file with a line starting with # is accepted |
| EventStream.Stream.constructor | wireless_tools.25/iwlib.c:1580-1590 | the stream starts at the first byte with no current value |
| EventStream.Stream.ExtractEvent | wireless_tools.25/iwlib.c:1596-1704 | return value, event (its prefix also on -1 and -2) and both cursors of one call are those of the specification, on every buffer and cursor |
| EventStream.ExtractAdvances | wireless_tools.25/iwlib.c:1596-1704 | every positive return keeps a set value pointer inside a known event that is not a point event with one more whole value there, and moves on by at least four bytes; of the other returns only -2 with a value pointer set can break this |
| EventStream.Scan | wireless_tools.25/iwlist.c:1008-1016 | on every buffer the extract-while-positive loop ends, after at most a quarter as many calls as bytes, plus one |
| EventStream.DeliversOnlyTheBuffer | wireless_tools.25/iwlib.c:1618-1703 | every run on any buffer ends with 0, -1 or -2, and each result is a prefix and a value that stand in the buffer: the value first behind the prefix or later and wholly inside its event, a payload offset right behind it; every point or unknown event but the last result ends inside the buffer |
| EventStream.DecodeOne | wireless_tools.25/iwlib.c:1641-1703 | a well-formed event at any offset yields one result per value, one for a point event, one return of 2 if unknown, and leaves the cursor behind it |
| EventStream.DecodeThen | wireless_tools.25/iwlib.c:1596-1704 | whatever stands behind well-formed events, they deliver exactly their values in order, and decoding goes on behind them |
| EventStream.DecodeAll | wireless_tools.25/iwlib.c:1596-1704 | any concatenation of well-formed events, with slack in events and too few bytes behind them, yields exactly the encoded values in order and then 0 |
| EventStream.DecodeBroken | wireless_tools.25/iwlib.c:1624-1671 | an event behind them that is too short for its prefix ends the run with -1, one whose fixed part is missing with -2, after everything before it has been delivered |
| EventStream.CommandTypes | wireless_tools.25/iwlib.c:1497-1562 | the type of every 16-bit command |
| EventStream.EncodedStreamDecodes | wireless_tools.25/iwlist.c:1006-1016 | the same from the start of a buffer |
| EventStream.PayloadOffsetIff | wireless_tools.25/iwlib.c:1677-1685 | by the length and command at the cursor: a point event has a payload offset unless its length is just the fixed part; the payload is inside the buffer iff the length covers the fixed part and ends inside the buffer |
| FmtStream.IndentConcat | glibc-2.3/argp/argp-fmtstream.c:127-190 | indenting text in two pieces, the second from the column where the first ended, is indenting it in one |
| FmtStream.NoMargin | glibc-2.3/argp/argp-fmtstream.c:132-161 | without a left margin nothing is put in |
| FmtStream.ScanIndents | glibc-2.3/argp/argp-fmtstream.c:127-190 | with room for the margins an update puts exactly the margin in front of each line, nothing else, and bypasses no text |
| FmtStream.ScanKeeps | glibc-2.3/argp/argp-fmtstream.c:127-190 | with or without room an update ends in the right column, adds as many characters as the indented text has, and keeps all but blanks in order |
| FmtStream.ScanExactIff | glibc-2.3/argp/argp-fmtstream.c:132-161 | an update shows the indented text iff all margins fit, or only the first line's is due and nothing but blanks waits in front of it |
| FmtStream.Stream.PutMargin | glibc-2.3/argp/argp-fmtstream.c:132-161 | the margin is moved into the buffer in place, or written to the file, and the text behind it is unchanged |
| FmtStream.Stream.Update | glibc-2.3/argp/argp-fmtstream.c:120-190 | file, buffer and column after the in-place loop are those of the line-by-line specification |
| FmtStream.Stream.Flush | glibc-2.3/argp/argp-fmtstream.c:365-387 | in every state and whatever the file takes: the laid out text goes to the file as far as that takes it, the rest is moved to the front; no character is lost; an exact stream stays exact iff it had room; done iff the buffer is empty |
| FmtStream.Stream.Ensure | glibc-2.3/argp/argp-fmtstream.c:360-407 | succeeds iff there was space, or the file took all that waited and the buffer is large enough or memory is granted, by exactly the amount asked for; no character is lost; exactness is kept iff there was room or no need to flush |
| FmtStream.Stream.Printf | glibc-2.3/argp/argp-fmtstream.c:410-434 | fails iff a write it needs is short or memory it needs is refused; otherwise the text is added whole, after at most two tries; an exact stream stays exact iff it had room or did not have to flush |
| FmtStream.Stream.Write | glibc-2.3/argp/argp-fmtstream.h:199-209 | fails iff there is no space and a write is short or memory is refused; otherwise the text is added whole; an exact stream stays exact iff it had room or did not have to flush |
| FmtStream.Stream.Free | glibc-2.3/argp/argp-fmtstream.c:95-112 | in every state the file holds what was printed in order, apart from blanks, and all of it in its full length iff the write was complete; from an exact stream a complete file is the indented text iff there was room for what was left |
| FmtStream.NothingLost | glibc-2.3/argp/argp-fmtstream.c:360-434 | with left margin 0 there is always room, and the file and the buffer together are the text printed |
| FmtStream.RoomFor | glibc-2.3/argp/argp-fmtstream.c:132-161 | with any margin there is room while all that was printed, indented, is shorter than the buffer |
| FmtStream.RoomAfterWindow | glibc-2.3/argp/argp-fmtstream.c:410-434 | with any margin there is room after a print if the text and the margins of all lines waiting with it fit behind the 50 characters that can be in the first buffer before it |
| FmtStream.LinesAreSafe | glibc-2.3/argp/argp-fmtstream.c:360-434 | any number of single lines meets that condition at every print if a line and the margins of as many lines as 50 characters hold, and one more, are less than 150 characters |
| FmtStream.ShortAreSafe | glibc-2.3/argp/argp-fmtstream.c:360-434 | so does any number of texts of any shape that are short enough for 50 margins and their own; this leaves margins 1 and 2 |
| FmtStream.Output | glibc-2.3/argp/argp-fmtstream.c:58-112 | a stream from constructor to free over any list of texts of whole lines and any answers of file and allocator: no character of those that went through is lost or reordered; with no left margin, with texts that meet the condition on waiting lines, in any number, or with less than a buffer in all, the file is exactly the indented text, as far as it was written; if no write is short and no memory refused, all texts go through and are written |
| RsnElement.DecodeRsn | iw-4.0/scan.c:542-722 | on every body of 2 to 255 bytes the cursor code, with its 8-bit length, reads only inside the body and gives the specified fields and tail |
| RsnElement.DecodeEncode | iw-4.0/scan.c:542-722 | an element complete or cut behind any field decodes to just those fields, with what stands behind them as tail |
| RsnElement.EncodeDecode | iw-4.0/scan.c:542-722 | every body is its decoded fields, encoded, and then its tail |
| RsnElement.DecodesIff | iw-4.0/scan.c:542-722 | a body decodes to given fields and tail iff it is their encoding and the tail does not start another field |
| ElementWalk.WalkElements | iw-4.0/scan.c:1741-1767 | the loop of `print_ies` visits the items of the specification, or leaves the buffer where that does |
| ElementWalk.WalkP2p | iw-4.0/scan.c:1575-1654 | for every payload of up to 255 bytes the 8-bit length never wraps, and items and tail add up to the payload |
| ElementWalk.WalkWps | iw-4.0/scan.c:1372-1560 | the WPS loop visits the items of the specification, or leaves the buffer where that does |
| ElementWalk.WalkSound | iw-4.0/scan.c:1744-1765 | every walk has found well-formed items that, with the bytes at which it ends, are the whole buffer |
| ElementWalk.WalkComplete | iw-4.0/scan.c:1744-1765 | every concatenation of well-formed items is visited item by item, in order, up to bytes at which the walk stops or leaves the buffer |
| ElementWalk.StaysInsideIff | iw-4.0/scan.c:1744-1765 | a walk stays inside its buffer iff the buffer is well-formed items and a tail at which the loop stops |
| ElementWalk.P2pStaysInside | iw-4.0/scan.c:1575-1580 | the P2P walk stays inside every buffer |
| ElementWalk.HeaderNotCounted | iw-4.0/scan.c:1372-1377 | a walk leaves its buffer iff that is well-formed items and then one that declares more than is left behind its header but not more than is left with it; never for P2P |
| ElementWalk.NamedWalk | iw-4.0/scan.c:1372-1376 | walking the bytes of any list of identifiers and payloads, written in the format's own byte order, finds exactly those identifiers and payloads in order |
| Frequency.Float2FreqLoop | wireless_tools.25/iwlib.c:631-640 | the dividing loop gives the mantissa and exponent of the recursive form |
| Frequency.Freq2FloatLoop | wireless_tools.25/iwlib.c:663-671 | the multiplying loop gives mantissa times ten to the exponent, and the mantissa for negative exponents |
| Frequency.LoopBounds | wireless_tools.25/iwlib.c:631-640 | mantissa at most 10^9, at least 10^8 once scaled, and an error of at least 0 and less than one unit |
| Frequency.LoopNegative | wireless_tools.25/iwlib.c:631-640 | negative numbers are cut toward zero and never scaled |
| Frequency.LoopRelativeError | wireless_tools.25/iwlib.c:631-640 | relative error below 10^-8 when the exponent is positive |
| Frequency.LibmValue | wireless_tools.25/iwlib.c:641-654 | from 10^9 on: mantissa from 10^8 to below 10^9, a multiple of 100, decoding to the number cut to seven digits |
| Frequency.LibmRelativeError | wireless_tools.25/iwlib.c:641-654 | from 10^9 on a relative error of at least 0 and below 10^-6 |
| Frequency.SmallAgree | wireless_tools.25/iwlib.c:628-655 | below 10^9 both variants give the whole part and exponent 0 |
| Frequency.VariantsAgreeIff | wireless_tools.25/iwlib.c:628-676 | from 10^9 on the decoded values differ by less than a millionth, and agree iff the last two of nine leading digits are zero |
| Frequency.LoopIdempotent | wireless_tools.25/iwlib.c:628-676 | encoding a decoded value again changes nothing, in the variant without libm |
| Frequency.LibmIdempotent | wireless_tools.25/iwlib.c:628-676 | the same in the variant with libm, from 1 on |
| Frequency.DecodersAgreeIff | wireless_tools.25/iwlib.c:661-676 | the two decoders agree iff the exponent is not negative or the mantissa is zero |
| DbmPower.Galois | wireless_tools.25/iwlib.c:756-768 | for w of at least 1 and every d: w is at most the milliwatts of d iff the dBm of w are at most d |
| DbmPower.Monotone | wireless_tools.25/iwlib.c:756-768 | both conversions are monotone |
| DbmPower.RoundTrips | wireless_tools.25/iwlib.c:756-768 | to dBm and back never loses milliwatts; to milliwatts and back never gains dBm |
| DbmPower.ExactTens | wireless_tools.25/iwlib.c:756-768 | 10 k dBm and 10^k mW convert into each other exactly |
| DbmPower.SurvivesIff | wireless_tools.25/iwlib.c:756-768 | a dBm value survives the way there and back iff one dBm less is fewer milliwatts |
| DbmPower.LossyValues | wireless_tools.25/iwlib.c:756-768 | of all integers exactly the negative ones and 1, 2, 3 and 6 dBm do not survive |
| KeyTable.Driver.SetEncode | wireless_tools.25/sample_enc.c:18-62 | the table after a set is the specified one; it returns 0 iff the request is accepted |
| KeyTable.Driver.GetEncode | wireless_tools.25/sample_enc.c:64-94 | get replies with the state's flags, the slot number and exactly the key of that slot |
| KeyTable.Set | wireless_tools.25/sample_enc.c:18-62 | sizes and the current index stay in range, and a refused set changes nothing |
| KeyTable.RunIsSane | wireless_tools.25/sample_enc.c:18-62 | over every run a current index other than 0 names a slot with a key, and encryption is on only if some slot has one |
| KeyTable.RunIsHistory | wireless_tools.25/sample_enc.c:18-62 | over every run each slot holds the key last stored for it, the current index is the slot last selected, and on and open are the modes last given, all read off the requests alone |
| KeyTable.SetWhatGetReplied | wireless_tools.25/sample_enc.c:18-94 | setting what get replied changes nothing, and is accepted iff the slot holds a key |
| KeyTable.GetWhatWasSet | wireless_tools.25/sample_enc.c:18-94 | get gives back the key just stored and, for every other slot, the one it had |
| KeyTable.SlotNamed | wireless_tools.25/sample_enc.c:22-40 | a key is stored in slot n - 1 for a low byte n from 1 to 8, and in the current slot for any other |
| PowerManagement.Driver.SetPower | wireless_tools.25/sample_pm.c:28-96 | the settings after a set are the specified ones; it returns 0 iff disabling or in a known mode |
| PowerManagement.Driver.GetPower | wireless_tools.25/sample_pm.c:98-144 | get replies with the period, bound or timeout asked for, and is refused iff a bound is asked for and the period is fixed |
| PowerManagement.RunIsBounded | wireless_tools.25/sample_pm.c:57-92 | over every run of 32-bit requests stored periods and timeouts stay within bounds |
| PowerManagement.GetStaysIn32Bits | wireless_tools.25/sample_pm.c:111-135 | over every such run the multiplications of get stay inside 32 bits |
| PowerManagement.Set | wireless_tools.25/sample_pm.c:28-96 | a refused set changes nothing; a disabling one only switches off; any other switches on iff it gives a period or a timeout, or on it was |
| PowerManagement.RunIsHistory | wireless_tools.25/sample_pm.c:28-96 | over every run all eight settings are the ones last given, read off the requests alone |
| PowerManagement.ModeDigit | wireless_tools.25/sample_pm.c:39-55 | a request is in a known mode iff the third hexadecimal digit of its flags is 0, 1 or 3 |
| PowerManagement.SetWhatGetReplied | wireless_tools.25/sample_pm.c:28-144 | setting what get replied keeps every setting; only the commit mark may come on |
| PowerManagement.GetWhatWasSet | wireless_tools.25/sample_pm.c:28-144 | after every accepted set, get of the timeout gives it back cut to milliseconds, and get of the period cut to seconds iff it was not set as minimum and maximum at once, or the maximum was already that |
| KeyText.PrintKey | wireless_tools.25/iwlib.c:927-939 | the loop prints two digits a byte in groups of two bytes |
| KeyText.ReadKey | wireless_tools.25/iwlib.c:962-1016 | the token loop, the string form and the passphrase form give the specified key or error, on every text |
| KeyText.ReadPrintedKey | wireless_tools.25/iwlib.c:927-1016 | a printed key of any length reads back as its first 32 bytes |
| KeyText.PrintedAt | wireless_tools.25/iwlib.c:927-939 | the two digits of byte i stand at 5 (i / 2) + 2 (i mod 2), with a dash in front of every second byte but the first |
| KeyText.ReadSeparatedKey | wireless_tools.25/iwlib.c:986-1011 | bytes separated by any of the five separators read as the first 32 of them |
| KeyText.ForeignCharacter | wireless_tools.25/iwlib.c:993-1004 | any other character behind a byte, neither digit, blank nor sign, makes the key an error |
| KeyText.ReadStringKey | wireless_tools.25/iwlib.c:970-984 | behind "s:" a key is its own characters, at most 32; behind "p:" nothing is a key |
| SsidText.PrintSsid | iw-4.0/util.c:358-373 | the loop escapes each byte by its value and place |
| SsidText.PrintedReadsBack | iw-4.0/util.c:358-373 | an independent reader gets every SSID back from its printed form |
| SsidText.Injective | iw-4.0/util.c:358-373 | different SSIDs print differently |
| SsidText.NoBlankEnds | iw-4.0/util.c:358-373 | no printed SSID starts or ends with a blank |
| SsidText.AsItselfIff | iw-4.0/util.c:363-371 | a byte is printed as itself iff it is visible ASCII but the backslash, or a blank inside; any other as an escape |
| SsidText.PrintedVisible | iw-4.0/util.c:358-373 | only blanks and visible ASCII characters are ever printed |
| McsList.RunsExact | iw-4.0/util.c:523-549 | the runs are exactly the set bits, in order, with a clear bit between any two |
| McsList.IndexesShown | iw-4.0/util.c:523-531 | of the 80 bits exactly those from 0 to 76 count |
| McsList.PrintMcsIndex | iw-4.0/util.c:519-555 | the loop with its two carried variables prints a fixed text per maximal run |
| McsList.ListReads | iw-4.0/util.c:533-552 | an independent reader gets every printed list as the runs, with each lone index before the last run doubled |
| McsList.ReadsBackIff | iw-4.0/util.c:519-555 | the list reads back as the runs iff every run but the last has two or more indexes or is index 0 alone |

## Left out

- FmtStream.Stream.Update: requires that every line fits the right margin; truncation and word wrap (glibc-2.3/argp/argp-fmtstream.c:192-350) do not keep the text and are not part of the model.
- FmtStream.Stream.Printf: the formatter is deterministic and never reports an error; wide streams are not part of the model.
- FmtStream.Output: each text is whole lines, so that it fits whether or not the texts before it went through; `FmtStream.Stream.Printf` itself takes any text.
- RsnElement.DecodeRsn: keeps suite selectors and PMKIDs as bytes; their names and the capability bits printed from them are table lookups.
- DbmPower.Galois: numbers are unbounded; results beyond 32 bits (from 94 dBm on) and floating-point rounding of `pow` and `log10` are not part of the model.
- Frequency.LoopBounds: real numbers instead of `double`, so rounding and the 16-bit width of the exponent are not part of the model; the libm variant starts above 0, where the logarithm exists.
- KeyText.PrintKey: keys that are not present, printed as stars or "on".
- Netlink, ioctl, socket, file and DNS calls, allocation failures, full message buffers and output streams: messages and texts are sequences, how much the file takes of a write and whether the stream buffer may grow are parameters.
- The TCP configuration file of WoWLAN: its result is a parameter.
- The payload printers of P2P and WPS attributes and of the other information elements: only the walks are modelled.
- Matching of packets is the kernel's; it is stated as the interface header describes it.
- Channel and frequency tables, MAC address text, mesh parameters, reason and status tables, capability printers: table lookups that would add only easy members.
- `LinkCatcher` of iwevent.c and the option parser of iwconfig.c.
