# VE.Direct protocol core in Dafny

This project models the protocol logic of a set of Python scripts that talk
to a Victron solar charge controller over VE.Direct, and proves properties of
that model. VE.Direct carries two protocols on one serial line:

- the **text protocol**: the device pushes frames of `Key<TAB>Value<CR><LF>`
  lines. Each frame ends with a `Checksum<TAB>` field whose raw byte brings the
  frame's byte sum to 0 modulo 256;
- the **hex protocol**: a command line `':' + hex digits + checksum + '\n'` is
  sent, and the device echoes the command header followed by a hex-encoded
  reply.

Modules, leaves first:

| module | file | what it models |
|---|---|---|
| `Options` | options.dfy | `Option<T>`: `None` stands for a Python `None` or a caught exception |
| `Bytes` | bytes.dfy | byte sums as unbounded `int`s, clamped Python slices, `endswith`, `int.from_bytes(…, 'little')` |
| `Hex` | hex.dfy | `bytes_to_hex_string` and `bytes.fromhex` (whitespace before a digit pair skipped, anything else malformed gives `None`) |
| `TextFrame` | text_frame.dfy | `Vedirect.input`: the six-state text-frame decoder with its running byte sum and field map |
| `HexCommand` | hex_command.dfy | `calculate_checksum`, the history Get command for a day offset, and the `hist_list` table |
| `HistoryRecord` | history_record.dfy | `parse_history_record`: a length guard, hex decoding, and 17 little-endian fields at fixed offsets |
| `ResponseFramer` | response_framer.dfy | the WAIT_HEADER / WAIT_CR / FOUND loop that waits for a history reply |
| `HistoryFetch` | history_fetch.dfy | the ten-day loops of the CSV script and of the day-sequence probing script |
| `SolarHistory` | solar_history.dfy | `SolarHistory.process_byte` (framer plus GET_DAY) and the cursor of `get_history` |

Serial reads are modelled as a finite `seq<Option<byte>>`, where `None` is a
read that timed out. The decoder and the framer are pure step functions
folded over these sequences. Writes to the port become values the model
returns: the command `process_byte` sends, and the rows the CSV script writes.

The model keeps the code's quirks rather than fixing them:

- the text decoder never empties its field map;
- a hex echo's text stays in the value buffer;
- bytes of a Get echo count towards the text checksum;
- `str(50 + day)` names register `0x1050 + day` only below day 10;
- the length guard of `parse_history_record` looks at the raw text, not at the decoded bytes;
- the reply's own checksum is never verified;
- `process_byte` returns two results per reply, so a `get_history` call starting in GET_DAY asks only for even day offsets;
- `get_history` resets only `current_day`: after a call that stops at an odd `days` the object is left in FOUND, and the next call's first result is the old reply's value;
- an exception from `process_byte` leaves the changes it made before raising: in GET_DAY the byte stays in the buffer and `base_command` holds the new day's text, in WAIT_CR the object is already in FOUND with the reply line in its buffer.

Where the code's own comments state an intent the code does not carry out, the model follows the code:

- src/ve_direct_history2csv.py:109-111 speaks of 30 days and registers 0x1050..0x106E. The loop runs 10 days, and `str(50 + day)` names register `0x1050 + day` only below day 10: `HistoryFetch.CsvDays`, `HexCommand.RegisterMatchesDayIffBelowTen`.
- src/ve_direct_history2csv.py:37 calls the reply a 34-byte payload. The guard at line 39 compares the raw text's length with 34, and `bytes.fromhex` skips whitespace, so a reply that decodes to as few as 0 bytes (34 spaces, say) passes it and parses; a field past its end reads as 0 and one it cuts through reads its partial slice: `HistoryRecord.ShortReplyReadsZero`, `HistoryRecord.PartialDaySequence`.
- src/solar_history.py:3 promises the last 10 days. `get_history` counts two results per reply, so it asks only for even day offsets: `SolarHistory.Paired`, `SolarHistory.GetHistory`.

## Model

| member | source | states |
|---|---|---|
| TextFrame.Step | src/vedirect.py:23-86 | `input` returns a map exactly when it is in IN_CHECKSUM and the sum including this byte is 0 mod 256, and the map returned is the live field map |
| TextFrame.StepCases | src/vedirect.py:23-86 | per state: the checksum byte (a ':' included) resets to WAIT_HEADER with empty buffers and sum 0; ':' elsewhere starts HEX with value ":" and sum 0; WAIT_HEADER adds the byte and moves to IN_KEY on LF; TAB ends a key, to IN_CHECKSUM for "Checksum" and IN_VALUE otherwise, any other byte is appended; CR stores key→value and clears both; HEX and IN_GET append, IN_GET stores the line under "Get" on LF; the map's keys only grow and only those two bytes change it |
| TextFrame.Run | src/vedirect.py:97-103 | feeding bytes one by one returns at most one map per byte |
| TextFrame.RunMapGrows | src/vedirect.py:48-83 | over any byte sequence the map's key set only grows; every map handed back lies between the starting and the final map, and later ones contain earlier ones |
| TextFrame.RunKeepsInv | src/vedirect.py:69-83 | in HEX the value buffer starts with ':', in IN_GET with ":7", whatever bytes are fed |
| TextFrame.GetEchoStored | src/vedirect.py:78-83 | the LF ending a Get echo stores under "Get" the echoed line, starting ":7" and ending with the LF |
| TextFrame.CharsAscii | src/vedirect.py:46 | `chr` of each byte of an encoded ASCII string gives the string back |
| TextFrame.AsciiChars | src/vedirect.py:46-56 | on ASCII bytes `chr` stays below 128, and encoding the characters gives the bytes back: the key and value text is what was sent |
| TextFrame.QuietPrefix | src/vedirect.py:97-103 | feeding a prefix that returns nothing and then the rest is feeding the rest to the decoder the prefix left |
| TextFrame.QuietCons | src/vedirect.py:97-103 | the same for a single byte that returns nothing |
| TextFrame.KeyBytes | src/vedirect.py:38-47 | key bytes (no TAB, no ':') are appended to the key and added to the sum, returning nothing |
| TextFrame.KeyPrefix | src/vedirect.py:38-47 | key bytes followed by anything continue from the decoder with the extended key and sum |
| TextFrame.ValueBytes | src/vedirect.py:48-57 | value bytes (no CR, no ':') are appended to the value and added to the sum, returning nothing |
| TextFrame.ValuePrefix | src/vedirect.py:48-57 | value bytes followed by anything continue from the decoder with the extended value and sum |
| TextFrame.TabToValue | src/vedirect.py:38-44 | TAB after a key other than "Checksum" moves to IN_VALUE, adding 9 to the sum |
| TextFrame.CrLfStores | src/vedirect.py:30-57 | CR LF after a value stores key→value and leaves IN_KEY with empty buffers, the sum grown by 23 |
| TextFrame.KeyThenTab | src/vedirect.py:38-47 | a key that is not "Checksum" and its TAB leave IN_VALUE with that key |
| TextFrame.ValueThenCrLf | src/vedirect.py:30-57 | a value and its CR LF store under the current key whatever the value buffer held followed by the value |
| TextFrame.OneField | src/vedirect.py:30-57 | one well-formed field line stores its key with the value buffer's old text followed by its value, empties the buffer, adds its bytes to the sum and returns nothing |
| TextFrame.ManyFields | src/vedirect.py:30-57 | well-formed field lines store their pairs in order and add their bytes to the sum, returning nothing |
| TextFrame.ChecksumKeyBytesOk | src/vedirect.py:41 | the bytes of "Checksum" are recognised as the checksum key |
| TextFrame.ChecksumTab | src/vedirect.py:38-67 | TAB after "Checksum", then any byte: WAIT_HEADER with sum 0, returning the map exactly when the total is 0 mod 256; a failed checksum keeps the map |
| TextFrame.ChecksumField | src/vedirect.py:38-67 | the whole checksum field returns the map exactly when the running sum with its bytes is 0 mod 256, and resets the decoder |
| TextFrame.FrameHead | src/vedirect.py:30-37 | CR LF in WAIT_HEADER moves to IN_KEY, adding both bytes to the sum |
| TextFrame.FieldsThen | src/vedirect.py:30-57 | field lines followed by anything continue from the decoder with the fields stored and their bytes summed |
| TextFrame.ApplyNoStale | src/vedirect.py:30-57 | with an empty value buffer, storing fields after stale text is storing them plainly |
| TextFrame.FirstFieldThen | src/vedirect.py:30-57 | one field line after stale value text stores its value behind that text and empties the buffer, whatever follows |
| TextFrame.StaleFieldsThen | src/vedirect.py:30-57 | from IN_KEY with any value buffer, field lines followed by anything store the first field's value behind the buffer's old text, the rest plainly, and sum their bytes |
| TextFrame.DecodeFrame | src/vedirect.py:23-67 | from WAIT_HEADER with any value buffer, a well-formed frame stores every field (the first behind the buffer's old text), resets the decoder, and returns the map exactly when the frame's bytes bring the sum to 0 mod 256 (a corrupted byte returns nothing) |
| TextFrame.CheckedFrame | src/vedirect.py:58-65 | a well-formed frame whose bytes bring the running sum to 0 mod 256 is returned, holding its fields (the first behind any stale value text) |
| TextFrame.FrameChecksum | src/vedirect.py:58-65 | the checksum byte a sender appends makes the frame's byte sum 0 mod 256 |
| TextFrame.EncodeDecodeFrame | src/vedirect.py:23-67 | a frame written with its checksum and decoded from a fresh decoder returns exactly one map: the previous map with every field stored |
| TextFrame.GetEcho | src/vedirect.py:23-83 | an echoed Get line returns nothing, stores ":7…\n" under "Get", leaves that text in the value buffer and only the bytes after ":7" in the sum |
| TextFrame.GetBody | src/vedirect.py:78-83 | bytes of a Get echo before its LF are appended to the value and added to the sum |
| TextFrame.QuietThenFrame | src/vedirect.py:23-67 | after any bytes that return nothing and leave WAIT_HEADER, a frame returns the map with the stale value text in front of its first field exactly when the sum carried over plus the frame's bytes is 0 mod 256 |
| TextFrame.EchoThenFrame | src/vedirect.py:23-83 | a Get echo followed by a frame: the echo leaves ":7…\n" in the value buffer and under "Get", its bytes after ":7" stay in the sum, and the frame returns its map, with the first field's value prefixed by the echo text, exactly when that carried sum plus the frame's bytes is 0 mod 256 |
| TextFrame.Chars | src/vedirect.py:46-56 | `chr` of each received byte gives one character per byte; `TextFrame.CharsAscii` and `TextFrame.AsciiChars` prove it inverts `str.encode` on ASCII |
| Hex.UpperDigit | src/ve_direct_history2csv.py:32 | the `02X` digit of a nibble is an upper-case hex digit whose value is the nibble |
| Hex.ToHex | src/ve_direct_history2csv.py:30-32 | `bytes_to_hex_string` gives two upper-case hex digits per byte |
| Hex.ToHexAppend | src/ve_direct_history2csv.py:30-32 | hex spelling distributes over concatenation |
| Hex.ToHexAt | src/ve_direct_history2csv.py:30-32 | byte i is spelled by digits 2i and 2i+1, high nibble first |
| Hex.FromHex | src/ve_direct_history2csv.py:34-35 | `bytes.fromhex` succeeds only on hex digits and whitespace, giving one byte per two digits |
| Hex.FromHexToHex | src/ve_direct_history2csv.py:30-35 | `hex_to_bytes` inverts `bytes_to_hex_string` |
| Hex.FromHexPair | src/ve_direct_history2csv.py:34-35 | a leading digit pair decodes to one byte in front of the rest, and the rest's failure is the whole's |
| Hex.FromHexPairsThen | src/ve_direct_history2csv.py:34-35 | digit pairs followed by anything decode to their bytes followed by the rest's, failing exactly when the rest fails |
| Hex.FromHexPairsAt | src/ve_direct_history2csv.py:34-35 | the byte at j of decoded digit pairs is 16·digit(2j) + digit(2j+1) |
| Hex.FromHexTrailingSpace | src/ve_direct_history2csv.py:44-46 | trailing whitespace such as the reply's LF changes nothing |
| Hex.FromHexAllDigits | src/ve_direct_history2csv.py:34-35 | a string of hex digits decodes exactly when its length is even |
| Bytes.Ascii | src/ve_direct_history2csv.py:119 | `str.encode` of an ASCII string keeps each code point as a byte; `TextFrame.CharsAscii` and `TextFrame.AsciiChars` prove `chr` its inverse |
| Bytes.Slice | src/ve_direct_history2csv.py:49-65 | Python slicing clamps both bounds: the length is the overlap with the sequence, element i is s[lo+i] |
| Bytes.EndsWith | src/ve_direct_history2csv.py:138-143 | `bytes.endswith`, false when the suffix is longer; `ResponseFramer.SeekHeader` and `ResponseFramer.ReadLine` state what the framer does with it |
| Bytes.LittleEndian | src/ve_direct_history2csv.py:49-65 | `int.from_bytes(…, 'little')`, least significant byte first; `Bytes.LittleEndianBound` bounds it and `Bytes.LittleEndianRoundTrip` proves `Bytes.ToLittleEndian` its inverse |
| Bytes.ToLittleEndian | src/ve_direct_history2csv.py:49-65 | the encoder partner of `int.from_bytes(…, 'little')` writes exactly `width` bytes |
| Bytes.LittleEndianBound | src/ve_direct_history2csv.py:49-65 | a little-endian value of n bytes is below 256^n |
| Bytes.LittleEndianRoundTrip | src/ve_direct_history2csv.py:49-65 | reading back a value written little-endian in a width it fits gives the value |
| HexCommand.Checksum | src/ve_direct_history2csv.py:21-28 | `calculate_checksum` returns one byte c with (Σmessage + c) mod 256 = 0x55 |
| HexCommand.ChecksumUnique | src/ve_direct_history2csv.py:21-28 | that byte is the only one with this property |
| HexCommand.ChecksumExample | src/ve_direct_history2csv.py:20-28 | 0x55 − 0x08 − 0xF0 − 0xED − 0x00 − 0x64 − 0x00 = 0x0C |
| HexCommand.Decimal | src/ve_direct_history2csv.py:114 | `str(n)` is a non-empty string of decimal digits |
| HexCommand.DecimalRoundTrip | src/ve_direct_history2csv.py:114 | the decimal digits `str` writes read back as the number |
| HexCommand.TwoDigitDecimal | src/ve_direct_history2csv.py:114 | a number from 10 to 99 is written as its tens digit and its units digit |
| HexCommand.BaseCommand | src/ve_direct_history2csv.py:114 | `base_command` is '7', the digits of `str(50 + day)`, then "1000": five bytes more than those digits, every one a decimal (so hex) digit |
| HexCommand.HistoryCommand | src/ve_direct_history2csv.py:114-119 | the command exists exactly when `'0' + base_command` has an even digit count (otherwise `bytes.fromhex` raises); it is ':' + base_command + two checksum digits + LF |
| HexCommand.DecodeCommand | src/vedirecthex1.py:60-75 | a line reads back as a command only if it starts with ':' and ends with LF |
| HexCommand.GetDigitsDecode | src/ve_direct_history2csv.py:114-116 | the padded digits of a Get of register 0x10xx decode to 07, xx, 10, 00 |
| HexCommand.DecodeCommandOf | src/vedirecthex1.py:60-75 | a line whose padded digits decode to bytes summing to 0x55 splits into opcode, little-endian register, flags, data and checksum |
| HexCommand.GetBodyDecodes | src/ve_direct_history2csv.py:114-119 | the padded digits of a Get line, checksum included, decode to the message and its checksum, which sum to 0x55 |
| HexCommand.GetLineDecodes | src/ve_direct_history2csv.py:114-119 | a Get line reads back as opcode 7 of register 0x1000 + its low byte, flags 0, no data |
| HexCommand.HistoryCommandIsGetLine | src/ve_direct_history2csv.py:114-119 | below day 50 the command is the Get line whose low-byte digits are the two decimal digits of 50 + day |
| HexCommand.HistoryCommandDecodes | src/ve_direct_history2csv.py:111-119 | below day 50 the command exists and reads back as a Get of the register `str(50 + day)` spells |
| HexCommand.RegisterMatchesDayIffBelowTen | src/ve_direct_history2csv.py:110-114 | that register is 0x1050 + day exactly when day < 10 |
| HexCommand.GetLineFifty | src/vedirect.py:120-124 | the Get line of register 0x1050 + i is ":75", the digit of i, "1000", the checksum 0xEE − i in hex, LF |
| HexCommand.HistLineShape0 | src/vedirect.py:120 | table entries 0 to 3 have that shape |
| HexCommand.HistLineShape4 | src/vedirect.py:121 | table entries 4 to 7 have that shape |
| HexCommand.HistLineShape8 | src/vedirect.py:122 | table entries 8 to 11 have that shape |
| HexCommand.HistLineShape12 | src/vedirect.py:123 | table entries 12 to 15 have that shape |
| HexCommand.HistLineIsGetLine | src/vedirect.py:120-124 | table entry i is the Get line of register 0x1050 + i |
| HexCommand.HistoryCommandMatchesTable | src/ve_direct_history2csv.py:114-120 | for day offsets 0 to 9 the built command equals the table entry, e.g. ":7501000EE\n" for day 0 |
| HexCommand.HistoryCommandLeavesTable | src/vedirect.py:120-124 | for day offsets 10 to 15 the built command differs from the table entry |
| HexCommand.SetLineShape | src/vedirecthex1.py:57 | the documented Set line is ':', its thirteen digits, LF |
| HexCommand.SetBytesHex | src/vedirecthex1.py:60-75 | the bytes 08 F0 ED 00 64 00 0C are spelled "08F0ED0064000C" |
| HexCommand.SetDigitsDecode | src/vedirecthex1.py:60-75 | the padded digits of the Set line decode to 08 F0 ED 00 64 00 0C |
| HexCommand.DocumentedSetDecodes | src/vedirecthex1.py:57-75 | ":8F0ED0064000C\n" reads back as a Set of register 0xEDF0, flags 0, data 64 00, with a valid checksum |
| HistoryRecord.FieldAt | src/ve_direct_history2csv.py:49-65 | a field of width w is below 256^w, and reads as 0 when the payload ends before it |
| HistoryRecord.DecodePayload | src/ve_direct_history2csv.py:48-85 | every field is below 2^8, 2^16 or 2^32 by its width; yield, consumed, the battery voltages and the PV voltage are divided by 100, the battery current by 10 |
| HistoryRecord.ParseHistoryRecord | src/ve_direct_history2csv.py:38-88 | `None` when the raw text is shorter than 34 bytes (before decoding); otherwise a record exactly when the text hex-decodes, which needs hex digits and whitespace only and an even digit count |
| HistoryRecord.Raw | src/ve_direct_history2csv.py:67-85 | a record has one raw value per field of the layout |
| HistoryRecord.Pack | src/ve_direct_history2csv.py:49-65 | values written little-endian in their widths take the sum of the widths |
| HistoryRecord.EncodePayload | src/ve_direct_history2csv.py:49-65 | the payload a device sends for a record is 34 bytes |
| HistoryRecord.PackField | src/ve_direct_history2csv.py:49-65 | field i of packed values reads back as value i, whatever follows |
| HistoryRecord.LayoutOffsets | src/ve_direct_history2csv.py:49-65 | the script's slice offsets 0, 1, 5, 9, …, 32, 34 are the running sums of the field widths |
| HistoryRecord.EncodedField | src/ve_direct_history2csv.py:49-65 | field i of an encoded record, read at the layout's offsets, is its raw value |
| HistoryRecord.DecodeEncode | src/ve_direct_history2csv.py:48-85 | decoding an encoded record, whatever follows it, gives back the record |
| HistoryRecord.ParseReply | src/ve_direct_history2csv.py:38-88 | a reply of the payload and a checksum in hex, then LF, parses to the record |
| HistoryRecord.ChecksumNotVerified | src/ve_direct_history2csv.py:44-65 | any two checksum digit pairs after the same payload parse to the same record |
| HistoryRecord.PrefixDecode | src/ve_direct_history2csv.py:48-65 | only the first 34 payload bytes are read |
| HistoryRecord.ShortReplyReadsZero | src/ve_direct_history2csv.py:39-65 | a reply of 34 to 65 characters that hex-decodes passes the guard, parses, and has day sequence 0 |
| HistoryRecord.PartialDaySequence | src/ve_direct_history2csv.py:65 | a 33-byte payload gives the day sequence from the single byte its slice holds |
| HistoryRecord.ScaledYield | src/ve_direct_history2csv.py:50 | a raw yield of 12345 is 123.45 kWh |
| ResponseFramer.Step | src/ve_direct_history2csv.py:132-148 | an empty read changes nothing; a reply is produced exactly at an LF in WAIT_CR and is the buffer with it; WAIT_HEADER moves to WAIT_CR with an empty buffer exactly when the buffer ends with the header; FOUND only appends |
| ResponseFramer.Done | src/ve_direct_history2csv.py:132 | the negation of the loop condition: FOUND with at least 80 bytes buffered; `ResponseFramer.Drive` and `ResponseFramer.AwaitReply` state that the loop stops early exactly there |
| ResponseFramer.Drive | src/ve_direct_history2csv.py:132-148 | the loop stops early only when FOUND with at least 80 bytes; FOUND is absorbing; it reaches FOUND from elsewhere exactly when a reply is seen |
| ResponseFramer.DriveAppend | src/ve_direct_history2csv.py:132-135 | a run that used all its reads continues with the next ones from where it stopped |
| ResponseFramer.EmptyReads | src/ve_direct_history2csv.py:133-134 | reads that return nothing change nothing |
| ResponseFramer.SeekHeader | src/ve_direct_history2csv.py:137-141 | bytes pile up until the buffer first ends with the header, which empties it and moves to WAIT_CR |
| ResponseFramer.ReadLine | src/ve_direct_history2csv.py:142-146 | in WAIT_CR, bytes up to the first LF pile up and the LF yields them as the reply |
| ResponseFramer.FrameReply | src/ve_direct_history2csv.py:129-146 | the reply is exactly the bytes after the first occurrence of the header up to the next LF, whatever is read afterwards |
| ResponseFramer.AwaitLine | src/ve_direct_history.py:69-82 | the loop up to the reply: it ends in FOUND with the reply as buffer, or uses every read without one |
| ResponseFramer.DriveSplit | src/ve_direct_history.py:69-82 | the whole loop is the loop up to the reply followed by the loop after it |
| ResponseFramer.AwaitReply | src/ve_direct_history2csv.py:129-148 | the loop as written ends where the fold `Drive` does, done or out of reads |
| HistoryFetch.Probe | src/ve_direct_history.py:84-87 | the day sequence from characters 64..68 is below 65536, and 0 for a buffer of at most 64 bytes |
| HistoryFetch.ProbeDigits | src/ve_direct_history.py:84-87 | with four hex digits there, it is their little-endian 16-bit value |
| HistoryFetch.RecordDigits | src/ve_direct_history2csv.py:46-65 | `parse_history_record`'s day sequence comes from the same four digits |
| HistoryFetch.ProbeMatchesRecord | src/ve_direct_history.py:84-87 | the probe and `parse_history_record` agree on the day sequence of the same reply |
| HistoryFetch.CsvDays | src/ve_direct_history2csv.py:110-171 | the CSV loop sends the command of at least one and at most 10 days, and sends fewer than all remaining days only when the reads run out |
| HistoryFetch.RowsCons | src/ve_direct_history2csv.py:149-171 | a day's row, if any, goes in front of the later days' rows in day order |
| HistoryFetch.CsvRowsStep | src/ve_direct_history2csv.py:110-171 | a finished day keeps the rows in day order |
| HistoryFetch.CsvRowsOrdered | src/ve_direct_history2csv.py:110-171 | at most one row per day, in increasing day order, only for days whose command was sent |
| HistoryFetch.DayRow | src/ve_direct_history2csv.py:142-171 | a day writes at most one row, tagged with that day; `HistoryFetch.CsvRowsAreParsed` states it is the row of the parsed reply |
| HistoryFetch.CsvRowsAreParsed | src/ve_direct_history2csv.py:142-171 | the first row is the day's row holding `rec` exactly when the framer found that day's reply and it parses to `rec`, a row written at the LF even when the reads then run out |
| HistoryFetch.CsvDaysRest | src/ve_direct_history2csv.py:110-171 | the rows are the first day's row, then, when the framer finished that day, the later days' rows on the reads it left, and nothing more when the reads ran out |
| HistoryFetch.Replies | src/ve_direct_history2csv.py:129-148 | reference decomposition, framing first: one framed reply (or none) per day whose command was sent, at most one per remaining day |
| HistoryFetch.RowsOf | src/ve_direct_history2csv.py:149-171 | then one row per reply that parses, tagged with its day: at most one row per reply |
| HistoryFetch.RowsOfMember | src/ve_direct_history2csv.py:149-171 | day `k` has a row holding `rec` exactly when its reply is there and parses to `rec` |
| HistoryFetch.CsvRowsOfReplies | src/ve_direct_history2csv.py:110-171 | the loop writes exactly the rows of the replies framed day by day, and frames one reply per day whose command it sent |
| HistoryFetch.CsvRowsAreReplies | src/ve_direct_history2csv.py:110-171 | for every day, not only the first: day `k` has a row holding `rec` exactly when its command was sent and the reply framed for it on the reads the earlier days left parses to `rec` |
| HistoryFetch.CsvRowOfReply | src/ve_direct_history2csv.py:129-171 | reads holding the day's header and then a reply line that parses give that day a row with the parsed record, whatever follows |
| HistoryFetch.ProbeDays | src/ve_direct_history.py:47-91 | one outcome per day, in order; a failed probe ends that day and the loop goes on; it stops early only when the reads run out; sequences are below 65536 |
| HistoryFetch.ProbeDayHasOutcome | src/ve_direct_history.py:47-91 | the first day has an outcome exactly when the framer saw its reply before the reads ran out |
| HistoryFetch.ProbeDayFails | src/ve_direct_history.py:84-91 | a probe that raises makes the day `Failed`, and the next day starts with the read after the reply |
| HistoryFetch.ProbeDaySucceeds | src/ve_direct_history.py:69-91 | a probe that succeeds makes the day `Sequence` with the probed value; the next day starts where the framer loop stopped, or there is none when the reads ran out |
| HistoryFetch.ProbeFirstOutcome | src/ve_direct_history.py:69-91 | the first outcome is `Sequence(day, v)` exactly when the framer saw a reply whose probe gives `v`, and `Failed(day)` exactly when the reply's probe raises |
| HistoryFetch.ProbeDayIsFramerLoop | src/ve_direct_history.py:69-82 | when the probe succeeds the day takes exactly the reads of the whole framer loop |
| SolarHistory.ProcessByte | src/solar_history.py:56-96 | an empty read changes nothing; in GET_DAY any byte sends the day's command and sets `base_command`, empties the buffer and moves to WAIT_HEADER, or, when the command cannot be built, raises with the byte appended and the new `base_command` kept; outside GET_DAY `base_command` is untouched; WAIT_HEADER moves to WAIT_CR exactly when the buffer ends with the base command; LF in WAIT_CR moves to FOUND and returns the probe, or raises having already moved to FOUND with the LF buffered; FOUND returns the same value again once the buffer reaches 80 and moves to GET_DAY; the stored day sequence changes only at a WAIT_CR LF that returns a result |
| SolarHistory.FramerAgreement | src/solar_history.py:75-94 | outside GET_DAY `process_byte` is the framer loop's body: same state and buffer, a raise exactly when the framer's reply has a probe that fails, a result with its reply, back to GET_DAY when the framer is done |
| SolarHistory.PairedAppend | src/solar_history.py:103-111 | repeating the last result of an odd-length sequence keeps results in equal pairs |
| SolarHistory.CursorSend | src/solar_history.py:62-73 | sending in GET_DAY keeps the cursor invariant with the command for day 2k as the k-th sent |
| SolarHistory.CursorQuiet | src/solar_history.py:75-96 | a read without result or command keeps the cursor invariant |
| SolarHistory.CursorFirstResult | src/solar_history.py:81-89 | the result at a reply's LF counts one day |
| SolarHistory.CursorSecondResult | src/solar_history.py:91-94 | the repeated result at 80 bytes counts another day with the same value |
| SolarHistory.CursorStep | src/solar_history.py:98-111 | one read of `get_history` keeps the cursor invariant |
| SolarHistory.GetHistory | src/solar_history.py:98-115 | from any state the day counter equals the number of results and never exceeds `days`; from GET_DAY results come in equal pairs, the k-th command sent is the one for day 2k, and ending at `days` without an exception took ⌈days/2⌉ commands and leaves the object in GET_DAY when `days` is even and in FOUND when it is odd; an exception leaves the object in GET_DAY or FOUND |

## Left out

- Serial I/O: opening, reading, writing and closing the port, `connect` and `disconnect`, and the `finally`. Reads are a finite sequence of optional bytes; writes are returned values.
- `time.sleep`, all `print` logging, the `__main__` blocks, and `read_data_single` / `read_data_callback` beyond the fold `TextFrame.Run`.
- The CSV file, its header, the row formatting and the estimated date from `datetime.now()`: file I/O and the wall clock.
- src/vedirect_print.py and src/victron_data.py: line reads from the port and floating-point unit conversions.
- The command-line forwarding of src/vedirecthex1.py; only its documented Set line is used, as a test vector.
- Floating point: `/ 100.0` and `/ 10.0` are kept as a raw integer plus a divisor; `Scaled.Value` is the exact quotient, not a rounded float.
- Object identity: `input` returns the live dict, so a caller sees later mutations. The model returns the map's value at that moment.
- The `else: raise AssertionError()` branch of `input`: the six phases are a datatype with six constructors, so that branch cannot be written.
- `current_day` before `get_history` sets it: `process_byte` takes the day as a parameter.
- UTF-8 decoding: `decode('utf-8')` followed by `bytes.fromhex` is modelled on bytes; a byte of 0x80 or more makes both `FromHex` and the record parse `None`, as either step raising would.
- SolarHistory.GetHistory: the source loop reads forever; the model stops when its finite reads run out, so the postcondition allows an end with fewer than `days` results.
- TextFrame.Step: its contract states only when a map is returned; the transitions of each state are stated by `TextFrame.StepCases`.
- TextFrame.Run: its contract bounds the number of maps; what the maps hold is stated by `TextFrame.RunMapGrows` and `TextFrame.DecodeFrame`.
- HistoryFetch.CsvDays: its contract bounds the days sent and the reads; which rows it writes, for every day, is stated by `HistoryFetch.CsvRowsOfReplies` and `HistoryFetch.CsvRowsAreReplies`, their order by `HistoryFetch.CsvRowsOrdered`.
- HexCommand.DecodeCommand: no script reads command lines back; this reference reader is the inverse the command encoder is proved against. Its own contract states only the line's framing; what it reads back is stated by `HexCommand.DecodeCommandOf`.
