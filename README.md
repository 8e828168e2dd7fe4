# dtacan core in Dafny

A model of the core of dtacan, a header-only C++ library for the Lawicel
(SLCAN) ASCII protocol that CAN-to-serial adapters speak. The library has
two sides.

- **Encoder** (`Encoder.h`, with `BaudRate.h`). It turns commands into wire
  lines, each ending in CR. The commands are open channel (`O`), close
  channel (`C`), set bit rate (`S0`..`S8`) and data frames. A standard data
  line is `t` + 3 address digits + a length digit + 2 hex digits per byte.
  An extended data line is `T` + 8 address digits + the same fields.
  `transmitData` picks the line type by address and splits a payload longer
  than 8 bytes into lines of 8 bytes and a shorter last line. The result goes
  to a sink: `handleEncodedData`, which `StringEncoder` appends to a string.
- **Parser** (`Parser.h`). It is fed the bytes coming from the adapter in
  pieces of any size (`acceptData`). It reports each complete data line
  through `handleData`, and each run of bytes it cannot use, up to the next
  CR, through `handleJunk`. At the first line it cannot judge yet it stops
  and keeps the text from there for the next call. That text can also hold
  complete lines after the first; they wait with it.
- **Hex codec** (`Util.h`). Both sides share it: nibble to upper-case digit
  and back, one byte as two digits, and fixed-width 3- and 8-digit addresses.

The model has five modules.

- `Hex` models `Util.h`. It has reference definitions of fixed-width
  big-endian digits (`HexDigits`, `HexValue`) and the writers into a
  character array, as methods on `array<char>`.
- `Encoding` models `Encoder.h`, `BaudRate.h` and the string sink.
  - `Encoder` is a class whose `output` field is everything handed to the
    sink.
  - Each line is specified by a function (`StdLine`, `ExtLine`, `DataLines`).
  - `transmitData`'s buffer for a long payload is an `array<char>` of exactly
    the size the source allocates, filled by a loop.
- `Parsing` models `Parser.h`.
  - `Step` is one pass of the loop of `acceptData` at the head of the unread
    text, `Scan` runs the loop to the end, and `Accept` is one call.
  - `Parser` is a class whose `buffer` is the kept text and whose `received`
    field is the events handed to the owner. `AcceptData` walks a cursor
    over the buffer with the same branches as the source and is proved equal
    to `Accept`.
- `RoundTrip` connects the two sides. The lines of valid frames are read back
  as exactly those frames, however they are cut into pieces. Whatever
  `transmitData` sends is read back as the original payload.
- `Vectors` restates the repository's encoder and parser test cases as
  lemmas about the model.

The model follows the code. Where the code departs from the protocol's prose
description, the model does what the code does:

- The extended address is written as all 32 bits of the address, eight
  digits. Addresses above 0x1FFFFFFF are refused before it is written.
- Junk with no CR after it is reported in the same call, and the kept text
  is cleared. A later call can then see the rest of that line as a new line
  (`Vectors.JunkDependsOnChunking`).
- A data event carries no standard/extended flag, only the address and the
  payload.
- `transmitStdFrame` and `transmitExtFrame` refuse a payload of more than
  8 bytes, as well as an address out of range.

## Model

| member | source | states |
|---|---|---|
| Hex.NibbleToChar | src/dtacan/Util.h:8-45 | a nibble becomes an upper-case hex digit: '0' + n below 10, 'A' + (n - 10) from 10 on |
| Hex.CharToNibble | src/dtacan/Util.h:47-84 | the result is below 16 exactly for '0'..'9' and 'A'..'F', with the digit's value; every other character, lower case included, gives 0xFF |
| Hex.NibbleRoundTrip | src/dtacan/Util.h:8-84 | decoding the digit of a nibble gives the nibble back |
| Hex.CharRoundTrip | src/dtacan/Util.h:8-84 | encoding the nibble of a valid digit gives the digit back |
| Hex.HexByte | src/dtacan/Util.h:86-90 | a byte is two hex digits whose nibbles, high first, make up the byte |
| Hex.HexStream | src/dtacan/Util.h:111-116 | a byte stream becomes twice as many hex digits |
| Hex.HexDigits | src/dtacan/Util.h:92-109 | reference definition of a fixed-width address field: exactly w characters, all of them hex digits |
| Hex.HexValue | src/dtacan/Parser.h:62-77 | reference definition of the value of a digit run: below 16 to the power of its length |
| Hex.AddressHex | src/dtacan/Util.h:92-97 | the standard address field is three hex digits |
| Hex.ExtAddressHex | src/dtacan/Util.h:99-109 | the extended address field is eight hex digits |
| Hex.HexStreamAt | src/dtacan/Util.h:111-116 | byte i of the stream sits at digits 2i and 2i + 1 |
| Hex.HexStreamAppend | src/dtacan/Util.h:111-116 | the digits of two streams back to back are the digits of each, in order |
| Hex.ValueOfDigits | src/dtacan/Util.h:92-109 | the value of the w-digit big-endian rendering of a number below 16^w is that number |
| Hex.DigitsOfValue | src/dtacan/Util.h:92-109 | a run of hex digits is the rendering of its own value at its own width |
| Hex.HexValueInjective | src/dtacan/Util.h:92-109 | two digit runs of one width with one value are equal |
| Hex.AddressHexIsDigits | src/dtacan/Util.h:92-97 | the standard address field is the 3-digit big-endian rendering of the address's low 12 bits |
| Hex.ExtAddressHexIsDigits | src/dtacan/Util.h:99-109 | the extended address field is the 8-digit big-endian rendering of all 32 bits |
| Hex.EncodeHexByte | src/dtacan/Util.h:86-90 | writes the byte's two digits at the destination and changes nothing else in the array |
| Hex.EncodeAddress | src/dtacan/Util.h:92-97 | writes the three address digits at the destination and changes nothing else |
| Hex.EncodeExtendedAddress | src/dtacan/Util.h:99-109 | writes the eight address digits at the destination and changes nothing else |
| Hex.EncodeHexStream | src/dtacan/Util.h:111-116 | the loop writes the digits of the whole stream at the destination and changes nothing else |
| Encoding.BaudRateToChar | src/dtacan/Encoder.h:47-71 | the code is a digit '0'..'8', and it is the rate's position in the enumeration of src/dtacan/BaudRate.h |
| Encoding.BaudRateCodesDistinct | src/dtacan/Encoder.h:47-71 | distinct rates get distinct codes |
| Encoding.LengthDigit | src/dtacan/Encoder.h:101 | the length digit is a digit that decodes back to the payload length |
| Encoding.Line | src/dtacan/Encoder.h:96-117 | a data line starts with its verb, ends with CR and is 3 + address width + 2 per byte long |
| Encoding.Tail | src/dtacan/Encoder.h:101-103 | the part after the address is the length digit, two digits per byte and a final CR |
| Encoding.StdLine | src/dtacan/Encoder.h:96-105 | a standard line is 6 + 2 per byte long, at most the 22 bytes of the source's buffer |
| Encoding.ExtLine | src/dtacan/Encoder.h:107-117 | an extended line is 11 + 2 per byte long, at most the 27 bytes of the source's buffer |
| Encoding.Chunks | src/dtacan/Encoder.h:184-213 | a payload is cut into at least one piece, none longer than 8 bytes |
| Encoding.ChunksFlatten | src/dtacan/Encoder.h:184-213 | the pieces put back together are the payload: nothing lost, nothing reordered |
| Encoding.ChunksShape | src/dtacan/Encoder.h:156-157 | there are ceil(size / 8) pieces (one for an empty payload), and piece k is bytes 8k up to 8k + 8 or the end |
| Encoding.LinesOf | src/dtacan/Encoder.h:184-213 | the lines for one or more pieces start with the verb and end with CR |
| Encoding.DataLines | src/dtacan/Encoder.h:139-218 | what `transmitData` emits for an accepted address is non-empty, starts with 'T' above 0x7FF and 't' otherwise, and ends with CR |
| Encoding.DataLinesShort | src/dtacan/Encoder.h:143-152 | a payload of at most 8 bytes goes out as the single line of the frame type the address calls for |
| Encoding.DataLinesLength | src/dtacan/Encoder.h:160-178 | the lines of a long payload fill exactly the buffer size the source computes: 22 (27) per full line plus 6 + 2r (11 + 2r) for a remainder r |
| Encoding.LinesOfLength | src/dtacan/Encoder.h:184-213 | the lines for k pieces take k times (address width + 3) characters plus two per byte |
| Encoding.LinesOfSnoc | src/dtacan/Encoder.h:184-213 | one more piece adds exactly its own line after the lines so far |
| Encoding.FillStdLine | src/dtacan/Encoder.h:96-103 | writing 't', the address, the length digit, the payload digits and CR into the 22-character buffer leaves the standard line at its head |
| Encoding.FillExtLine | src/dtacan/Encoder.h:107-115 | the same for 'T' and the 27-character buffer: the head is the extended line |
| Encoding.PutFullPiece | src/dtacan/Encoder.h:185-198 | one turn of the full-line loop extends the lines already in the buffer by the line of piece i |
| Encoding.Encoder.constructor | src/dtacan/StringEncoder.h:9-33 | a new encoder has emitted nothing |
| Encoding.Encoder.HandleEncodedData | src/dtacan/StringEncoder.h:11-14 | the sink appends what it is handed |
| Encoding.Encoder.SetBaudrate | src/dtacan/Encoder.h:73-81 | emits 'S', the rate code and CR |
| Encoding.Encoder.OpenCanChannel | src/dtacan/Encoder.h:83-87 | emits "O\r" |
| Encoding.Encoder.CloseCanChannel | src/dtacan/Encoder.h:89-93 | emits "C\r" |
| Encoding.Encoder.EncodeStdFrame | src/dtacan/Encoder.h:96-105 | fills a 22-character buffer and emits its head, which is the standard line of the frame |
| Encoding.Encoder.EncodeExtFrame | src/dtacan/Encoder.h:107-117 | fills a 27-character buffer and emits its head, which is the extended line of the frame |
| Encoding.Encoder.TransmitStdFrame | src/dtacan/Encoder.h:119-127 | succeeds exactly when the payload has at most 8 bytes and the address is at most 0x7FF; emits the standard line then, and nothing otherwise |
| Encoding.Encoder.TransmitExtFrame | src/dtacan/Encoder.h:129-137 | succeeds exactly when the payload has at most 8 bytes and the address is at most 0x1FFFFFFF; emits the extended line then, and nothing otherwise |
| Encoding.Encoder.TransmitData | src/dtacan/Encoder.h:139-218 | succeeds exactly when the address is at most 0x1FFFFFFF; then emits one line per piece of the payload, extended above 0x7FF, and otherwise emits nothing |
| Encoding.Encoder.EmitLines | src/dtacan/Encoder.h:180-216 | allocates a buffer of the computed size, fills it and hands exactly the lines of all pieces to the sink |
| Encoding.WriteLines | src/dtacan/Encoder.h:184-213 | after the full lines and the remainder line, the buffer holds exactly the lines of all pieces |
| Encoding.WriteFullLines | src/dtacan/Encoder.h:184-199 | the loop writes one 8-byte line per full piece; the cursor ends at the count of full pieces times the line length, and the data pointer at size / 8 * 8 |
| Encoding.PutLine | src/dtacan/Encoder.h:185-197 | verb, copied address digits, length digit, payload digits and CR are written at the cursor, and the array before the cursor is unchanged |
| Encoding.PutTail | src/dtacan/Encoder.h:191-196 | writes the length digit, the payload digits and the CR, and nothing else |
| Encoding.MemCopy | src/dtacan/Encoder.h:188 | the first n characters of the source are copied to the cursor, and nothing else changes |
| Parsing.CrFrom | src/dtacan/Parser.h:55-57 | the first CR at or after the start, or the end of the text when there is none |
| Parsing.JunkFrom | src/dtacan/Parser.h:53-60 | one junk event whose span is the text from the start of the line up to the first CR at or after the given position, or to the end of the text, and which consumes exactly that span |
| Parsing.FirstBadPair | src/dtacan/Parser.h:143-156 | every pair before the result is two hex digits, and the result is a bad pair or the count |
| Parsing.DecodePayload | src/dtacan/Parser.h:143-156 | bytes exactly when all n pairs are hex digits, and then n bytes whose digits are the text; otherwise the even offset of the first pair that is not two hex digits, all pairs before it being valid |
| Parsing.PairValues | src/dtacan/Parser.h:143-156 | reference definition of the bytes of n valid pairs: n bytes whose digits are the first 2n characters |
| Parsing.NextPair | src/dtacan/Parser.h:143-155 | a valid next pair extends the valid prefix by one and appends high * 16 + low to the bytes |
| Parsing.DecodeStops | src/dtacan/Parser.h:143-153 | the first pair that is not two hex digits is the bad pair, at twice its index |
| Parsing.DecodeAll | src/dtacan/Parser.h:143-156 | when every pair is valid the payload is the reference bytes |
| Parsing.AddressValue | src/dtacan/Parser.h:62-77 | digits that are all hex give a value below 16 to the power of their count, whose rendering at that width is the digits; any other digits give 0xFFFFFFFF |
| Parsing.Step | src/dtacan/Parser.h:93-173 | a pass that goes on consumes at least one and at most all of the unread text |
| Parsing.FrameStep | src/dtacan/Parser.h:119-165 | a frame block waits only on text shorter than the longest line, reports exactly one event otherwise, and a data event it reports has an address within the limit and reads a whole line |
| Parsing.BodyStep | src/dtacan/Parser.h:137-164 | waits exactly when the text is shorter than the line the length digit asks for; a data event carries the address, n bytes whose digits are the payload field, and is followed by CR |
| Parsing.BodyReadsAs | src/dtacan/Parser.h:119-164 | a data event of the body block reads the whole line: address digits, length digit, payload digits and CR |
| Parsing.CloseStep | src/dtacan/Parser.h:143-164 | always one event; a data event exactly when the pairs decode and the CR is in place, and then it carries the decoded bytes and consumes the whole line |
| Parsing.StepData | src/dtacan/Parser.h:112-164 | every data event of a pass is a 't' line with an address up to 0x7FF or a 'T' line with an address up to 0x1FFFFFFF, read field by field |
| Parsing.Scan | src/dtacan/Parser.h:93-173 | what the loop keeps is nothing or text at which it stops to wait for more |
| Parsing.ScanKeepsTail | src/dtacan/Parser.h:93-173 | what the loop keeps is a suffix of the text: the cursor only moves forward |
| Parsing.Accept | src/dtacan/Parser.h:80-175 | an empty piece reports nothing and changes nothing; otherwise what one call keeps is a suffix of the old kept text plus the new piece, and it keeps the kept text's shape |
| Parsing.DeferShape | src/dtacan/Parser.h:99-141 | the loop stops to wait only at a lone 'z', or at text of at most 21 characters starting with 't' or of at most 26 starting with 'T' |
| Parsing.DeferExactly | src/dtacan/Parser.h:99-141 | a pass waits exactly at a lone 'z', at a 't' (or 'T') text shorter than its address and length digit, or at one whose address is in range and length digit at most 8 but which is shorter than the line it announces |
| Parsing.HeaderJunk | src/dtacan/Parser.h:125-136 | once the address and length digit are there, an address out of range (a non-hex digit included) or a length digit above 8 is junk up to the line's CR, never a wait |
| Parsing.ZCrSilent | src/dtacan/Parser.h:99-111 | "z" followed by CR is consumed without any event |
| Parsing.ZJunk | src/dtacan/Parser.h:106-107 | a 'z' followed by anything but CR is junk up to the line's CR |
| Parsing.ZKept | src/dtacan/Parser.h:100-104 | a 'z' that ends the text is kept as exactly "z" after the events before it |
| Parsing.AcceptRetains | src/dtacan/Parser.h:80-175 | if the kept text has that shape before a call, it has it after, and it is never longer than 26 characters |
| Parsing.StepJunkSpan | src/dtacan/Parser.h:53-60 | every junk event of a pass is the non-empty text from the start of the line up to its first CR |
| Parsing.StepJunk | src/dtacan/Parser.h:99-167 | a pass that reports junk consumes exactly the junk it reports, from every junk branch of the loop |
| Parsing.FrameJunk | src/dtacan/Parser.h:119-136 | a bad address or length digit is reported as the whole line up to its CR |
| Parsing.BodyJunk | src/dtacan/Parser.h:143-162 | a bad payload pair or a missing CR is reported as the whole line up to its CR |
| Parsing.ScanJunkClean | src/dtacan/Parser.h:93-173 | every junk event of a call is non-empty and holds no CR |
| Parsing.CrFromUnique | src/dtacan/Parser.h:55-57 | any position with no CR before it that is a CR or the end is the one the search finds |
| Parsing.ShlAdd | src/dtacan/Parser.h:66-75 | adding the next nibble, shifted, below the digits accumulated so far is the big-endian accumulation of one more digit |
| Parsing.Parser.constructor | src/dtacan/Parser.h:14-28 | a new parser keeps nothing and has reported nothing |
| Parsing.Parser.HandleData | tests/ParserTest.cpp:49-52 | a data event is appended to what was reported; the kept text is unchanged |
| Parsing.Parser.HandleJunk | tests/ParserTest.cpp:54-57 | a junk event is appended to what was reported; the kept text is unchanged |
| Parsing.Parser.SkipJunk | src/dtacan/Parser.h:53-60 | reports the junk from the line start up to the next CR and returns the CR's position, which is what the junk search specifies |
| Parsing.Parser.ParseAddress | src/dtacan/Parser.h:62-77 | the shift-and-or loop returns the big-endian value of the digits, or 0xFFFFFFFF at the first non-hex digit |
| Parsing.Parser.ReadPayload | src/dtacan/Parser.h:142-156 | the pair loop fills the data array with the decoded bytes, or stops at the first bad pair |
| Parsing.Parser.ParseFrame | src/dtacan/Parser.h:119-165 | the frame block does what the frame step specifies: it waits, reports junk or reports a data event, and moves the cursor to match |
| Parsing.Parser.ParseBody | src/dtacan/Parser.h:137-164 | the payload and CR part of the frame block does what the body step specifies |
| Parsing.Parser.CloseFrame | src/dtacan/Parser.h:143-164 | a bad pair or a missing CR is junk from there, and otherwise a data event; as the close step specifies |
| Parsing.Parser.Pass | src/dtacan/Parser.h:94-168 | one turn of the switch does what `Step` specifies at the cursor |
| Parsing.Parser.AcceptData | src/dtacan/Parser.h:80-175 | one call reports the events of `Accept` on the kept text and the piece, keeps what `Accept` keeps, and keeps the kept text's shape |
| Parsing.Parser.Consume | src/dtacan/Parser.h:93-174 | the loop over the buffer reports exactly the events of `Scan` and keeps exactly what it keeps |
| RoundTrip.FrameLine | src/dtacan/Encoder.h:96-137 | the line of a frame starts with 't' or 'T' by its type, ends with CR and is 6 (11) + 2 per byte long |
| RoundTrip.Feed | src/dtacan/Parser.h:80-175 | a sequence of calls keeps the kept text's shape |
| RoundTrip.DecodeHexStream | src/dtacan/Parser.h:143-156 | the payload loop reads the encoder's digits of a payload back as that payload |
| RoundTrip.AddressOnLine | src/dtacan/Parser.h:62-77 | the address digits the encoder writes parse back to the address |
| RoundTrip.AddressHexValue | src/dtacan/Util.h:92-97 | the three digits written for any address parse back to its low 12 bits |
| RoundTrip.ExtAddressHexValue | src/dtacan/Util.h:99-109 | the eight digits written for any address parse back to the address |
| RoundTrip.LowDigits | src/dtacan/Util.h:92-97 | a w-digit rendering depends only on the number modulo 16 to the power w |
| RoundTrip.StepOnLine | src/dtacan/Parser.h:112-164 | the line of a valid frame, followed by anything, is consumed whole as exactly that frame's data event |
| RoundTrip.StepOnPrefix | src/dtacan/Parser.h:121-141 | a non-empty proper head of such a line is kept whole for the next call |
| RoundTrip.ScanWire | src/dtacan/Parser.h:93-173 | the lines of valid frames, back to back, are read as those frames in order, with nothing kept |
| RoundTrip.AcceptWire | src/dtacan/Parser.h:80-175 | one call with those lines reports those frames and keeps nothing |
| RoundTrip.ChunkingInvariance | src/dtacan/Parser.h:80-175 | however the lines of valid frames are cut into pieces, feeding the pieces one call each gives the same as one call with the whole text |
| RoundTrip.ByteByByte | src/dtacan/Parser.h:80-175 | the lines handed over one character per call are read back as their frames, with nothing kept |
| RoundTrip.LineRoundTrip | src/dtacan/Encoder.h:96-137 | the line the encoder writes for a frame it accepts is read back by the parser as that frame |
| RoundTrip.DataIsLine | src/dtacan/Parser.h:112-164 | conversely, every data event the parser reports was read from a whole line that is exactly the encoder's line for a valid frame of that address and payload |
| RoundTrip.Resync | src/dtacan/Parser.h:93-173 | after any junk line the parser reports, with its CR, the lines of valid frames that follow are read as those frames, with nothing kept |
| RoundTrip.ResyncUnknown | src/dtacan/Parser.h:166-167 | a line starting with anything but CR, 'z', 't' or 'T' is junk up to its CR, and the frames after it are read |
| RoundTrip.LinesOfWire | src/dtacan/Encoder.h:184-213 | the lines for the pieces are the lines of valid frames, one per piece |
| RoundTrip.DataLinesWire | src/dtacan/Encoder.h:139-218 | what `transmitData` emits is the lines of valid frames |
| RoundTrip.PayloadsOfFrames | src/dtacan/Encoder.h:184-213 | reading the frames of the pieces gives back the pieces, all at the one address |
| RoundTrip.DataRoundTrip | src/dtacan/Encoder.h:139-218 | whatever `transmitData` emits, cut into any pieces, is read back as data events at the address whose payloads put together are the payload, with nothing kept |
| RoundTrip.SendAndReceive | src/dtacan/Encoder.h:139-218 | a fresh encoder feeding a fresh parser: the payload comes back at its address for every address the encoder accepts, and nothing at all otherwise |
| Vectors.EncodeStdEmpty | tests/EncoderTest.cpp:53-57 | an empty payload at 0x7FF is "t7FF0\r" |
| Vectors.EncodeStdOneMsg | tests/EncoderTest.cpp:59-64 | three bytes at 0x0F0 are "t0F03AABBCC\r" |
| Vectors.EncodeStdOneFullMsg | tests/EncoderTest.cpp:66-71 | eight bytes at 0x111 are one line |
| Vectors.EncodeStdTwoMsgs | tests/EncoderTest.cpp:73-78 | ten bytes at 0x033 are a full line and a 2-byte line |
| Vectors.EncodeStdTwoFullMsgs | tests/EncoderTest.cpp:80-85 | sixteen bytes at 0x056 are two full lines and no empty third line |
| Vectors.EncodeExtEmpty | tests/EncoderTest.cpp:87-91 | an empty payload at 0x1FFFFFFF is "T1FFFFFFF0\r" |
| Vectors.EncodeExtOneMsg | tests/EncoderTest.cpp:93-98 | three bytes at 0x8FF take an extended line "T000008FF3F62691\r" |
| Vectors.EncodeExtOneFullMsg | tests/EncoderTest.cpp:100-105 | eight bytes at 0x10203040 are one extended line |
| Vectors.ParseStdEmpty | tests/ParserTest.cpp:99-103 | "t0010\r" is an empty frame at address 1 |
| Vectors.ParseStdWrongAddress | tests/ParserTest.cpp:111-115 | "t8FF0\r" is junk "t8FF0" |
| Vectors.ParseStdWrongDataSize | tests/ParserTest.cpp:117-121 | "t7FF9123\r" is junk "t7FF9123" |
| Vectors.ParseStdMissingCr | tests/ParserTest.cpp:123-127 | "t7FF21233t" is junk in full, and nothing is kept |
| Vectors.ParseStdFrame | tests/ParserTest.cpp:129-134 | "t7FA2AABB\r" is the frame 0x7FA [AA, BB] |
| Vectors.ParseStdThenZ | src/dtacan/Parser.h:99-105 | "t0010\rz" is the empty frame at address 1, and "z" is kept |
| Vectors.ParseStdSeveral | tests/ParserTest.cpp:143-152 | three lines in one call are three frames, in order |
| Vectors.ParseStdJunkPlusOne | tests/ParserTest.cpp:165-171 | "asd\r" before a line costs only the junk "asd" |
| Vectors.JunkThenLine | tests/ParserTest.cpp:165-171 | any junk line not starting with 'z', 't' or 'T', with its CR, followed by a valid frame's line, gives that junk and then the frame |
| Vectors.ParseStdWrongDataSizeInTwoCalls | tests/ParserTest.cpp:117-121 | "t7FF" then "9123\r" in two calls: the first is kept, the second completes the junk line "t7FF9123" |
| Vectors.KeepsLaterLines | src/dtacan/Parser.h:137-141 | "t0018AA\rt0010\r" reports nothing and keeps everything: the length digit asks for more text than there is, and the complete line after it waits too |
| Vectors.ParseExtFrame | tests/ParserTest.cpp:203-208 | "T012345673284756\r" is the frame 0x01234567 [28, 47, 56] |
| Vectors.ParseExtWrongAddress | tests/ParserTest.cpp:185-189 | "T2FFFFFFF0\r" is junk "T2FFFFFFF0" |
| Vectors.ParseExtWrongDataSize | tests/ParserTest.cpp:191-195 | "T11111111a123\r" is junk "T11111111a123" |
| Vectors.ParseExtMissingCr | tests/ParserTest.cpp:197-201 | "T0101010121233T" is junk in full, and nothing is kept |
| Vectors.ParseExtJunkPlusOne | tests/ParserTest.cpp:239-245 | "xxxxxxxxx\r" before an extended line costs only that junk, and the frame 0x8800 [57] follows |
| Vectors.JunkDependsOnChunking | src/dtacan/Parser.h:166-173 | "t8FF0t0010\r" in one call is one junk line, but cut after "t8FF0" it is junk and then a frame at address 1 |

## Left out

- The CRTP callbacks (`base().handleData`, `base().handleJunk`, `base().handleEncodedData`) are modelled as appends to the `received` and `output` fields. The model's sinks are the string sink of `StringEncoder.h` and the recording fixture of the parser tests. The library's default handlers, which drop everything, are not modelled.
- `StringEncoder::clear` and `result` are not modelled; `output` stands for the string.
- `malloc` and `free` in `transmitData` become a fresh `array<char>` of the computed size. The unchecked null result of `malloc` is not modelled.
- Pointer arithmetic, `std::find_if` and `_buffer.erase` are modelled as indices into a `seq<char>`.
- `assert(false)` in `nibbleToChar` and `baudRateToChar` is a precondition (`n < 16`) or is ruled out by the datatype. No input of the model reaches it.
- Hex.NibbleToChar and Hex.CharToNibble are written arithmetically instead of as the source's `switch` tables: 16 case labels each, with `assert(false)` after the switch in `nibbleToChar` and a default return of 0xFF in `charToNibble`. Their contracts pin down every case.
- Parsing.ShlAdd: `address |= n << shift` (src/dtacan/Parser.h:73) is modelled as adding the shifted nibble below the digits already accumulated. The bits are disjoint, so the sum equals the or.
- Parsing.Parser.ParseAddress: `n << shift` on a promoted `int` is modelled as an unsigned shift. For an 8-digit address with a top nibble of 8 or more, the C++ shift into the sign bit is formally undefined; the model takes the value every common compiler produces.
- The parser's byte pointers (`const void*`, `const uint8_t*`) are modelled as `seq<char>` and `seq<byte>`. Lengths come from the sequences instead of a separate `size`.
- Integer widths: `size_t` sizes and lengths are unbounded `nat`. `uint32_t` addresses and `uint8_t` bytes are subset types, so no wrap-around arises in what is modelled.
- These parser tests are not restated as concrete lemmas: empty at the maximum address, maximum size, the extended empty/several/byte-by-byte cases, and the standard byte-by-byte case. The general lemmas cover them: RoundTrip.LineRoundTrip, RoundTrip.AcceptWire and RoundTrip.ByteByByte. The byte-by-byte tests also feed the string's trailing NUL, which ends up as junk. That part is not modelled.
- The bit-rate tests (tests/EncoderTest.cpp:108-160), `open` and `close` (162-172) follow directly from the contracts of SetBaudrate, OpenCanChannel and CloseCanChannel. They are not restated.
