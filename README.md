# Hex2Bin converter core, in Dafny

`h2bNh.py` converts an Intel HEX image into one binary file per memory segment
plus one C source file that holds each segment as an array of `0xHH, ` tokens.
Its class `H2B` works line by line:

- it reads the fields of a record by character position (`peak_*`);
- it checks the record checksum;
- it decides whether a data record continues the open segment, which is padded
  up to the record's address, or opens a new one (`sigment_pad_begin`);
- it feeds the payload to both outputs, keeping a running custom CRC-24;
- at the end-of-file record it pads a lone segment to the target size,
  optionally appends the CRC, and closes the files.

This project models that class. The modules are:

- `Hex`: hex digits, strict parsing of a field (`int(s, 16)`), and the
  fixed-width upper-case formatting used by the output.
- `Crc24`: the `crc24` step and `calc_crc24` as a fold over unbounded
  naturals, the way Python computes it, masked to 24 bits at the end. The loop
  itself is the method `CalcCrc24`.
- `Record`: the record types, the positional field readers, the checksum loop
  of `segment_feed` (methods with loops proved equal to the functions
  `HeadSum`, `DataBytes` and `DecodePayload`), `strip()`, and an encoder of
  records used to state round trips.
- `Emitter`: the text written for each byte (`text_feed`), the array header
  and trailer lines, and the output file names.
- `Engine`: the state of `H2B` as a value (`State`, with the settings in
  `Config`), and one function per method of the class, down to `run`
  (`RunLines`, `Convert`).
- `Segments`: properties of those functions. They cover the counters and
  outputs staying consistent (`Inv`), what a data record does in each case
  (continuing, gap, new segment, closed file), the address records, and the
  end-of-file step.
- `Converter`: the class `H2B` itself. Its fields are updated in place, and
  its two outputs are sequence fields: `binOut` holds one byte sequence per
  binary file and `text` holds the text file. Every method is proved to leave
  the object in the state the matching `Engine` function computes, and to
  report the same outcome.

A byte is a natural number below 256 (`Hex.byte`); the pad value is taken to
be one, and the command-line base address a natural number (see "Left out" for
what the code does otherwise). An exception
raised while converting becomes a `Failed` status, which ends `run` at that
line, as `run`'s `try` does.

Some behaviour of the code is kept as written:

- An extended linear address record sets the base to its value shifted left by
  8 (`base << 8`), not 16.
- An extended segment or linear address record only marks a new segment
  pending. The segment opens at the next data record.
- The end-of-file pad size is `targetSize - segCount`, minus 3 when the CRC is
  appended, not `targetSize - segSize`.
- The three CRC bytes are fed with `calCrc` left on, so they are folded into
  the CRC written in the trailer.
- The gap step (padding or a new segment) runs before the checksum is checked.
  A record with a bad checksum therefore still pads or opens a segment before
  the run stops.
- Only data records are checksummed. An address record with a bad checksum is
  accepted.
- Every data record read while no segment exists re-initialises the base
  address from the command line, overriding a preceding address record.
- A row width of 0 keeps the default of 16 (`if align > 0`); it does not turn
  row wrapping off.
- `text_end` clears the binary file handle instead of the text one. The closed
  text file therefore still counts as present, and any later write to it
  raises. This is modelled as the sink state `Closed` and the error
  `SinkClosed`, so data after the end-of-file record stops the run.
- Fields are read through Python slices, which are cut short at the end of the
  line. A field cut to one character still parses if that character is a hex
  digit, and only an empty or non-hex field is an error.

## Model

| member | source | states |
|---|---|---|
| Hex.Value | h2bNh.py:134-135 | the value of `n` hex digits is below 16^n |
| Hex.Parse | h2bNh.py:134-135 | a field of `n` characters that parses has a value below 16^n |
| Hex.Format | h2bNh.py:238 | the formatted number has at least `width` digits (and at least one), all hex digits and none of them lower-case, as `X` gives, and no leading zero beyond the width: a result longer than `width` starts with a nonzero digit |
| Hex.Decimal | h2bNh.py:200 | the decimal rendering of the size is non-empty, all decimal digits, its digits denote the size (`DecimalValue`), and it has no leading zero unless it is `0` itself |
| Hex.ValueAppend | h2bNh.py:134-135 | the value of two digit strings side by side is the first scaled by 16^(length of the second) plus the second |
| Hex.ParseFormat | h2bNh.py:134-135 | parsing a formatted number gives the number back (round trip of `{:0NX}` and `int(s, 16)`) |
| Hex.FormatLength | h2bNh.py:238 | a number below 16^w is formatted in exactly w digits |
| Hex.ParseTwoBytes | h2bNh.py:146-147 | two bytes written as four hex digits parse to the big-endian 16-bit word |
| Crc24.Padded | h2bNh.py:177-179 | the padded buffer has even length |
| Crc24.FoldAppend | h2bNh.py:181-182 | folding two even-length buffers one after the other equals folding their concatenation |
| Crc24.XorBound | h2bNh.py:162 | the XOR of two numbers below 2^k is below 2^k |
| Crc24.XorHigh | h2bNh.py:162 | XOR leaves bits at and above bit k alone when the other operand is below 2^k |
| Crc24.StepLow | h2bNh.py:159-167 | the low 24 bits of a `crc24` step depend only on the low 24 bits of the seed |
| Crc24.FoldLow | h2bNh.py:169-173 | the same holds for a whole fold over an even-length buffer ("only bit[0~23] is valid") |
| Crc24.CalcCompose | h2bNh.py:174-187 | `calc_crc24(calc_crc24(c, A), B) == calc_crc24(c, A + B)` for even-length A |
| Crc24.CalcOddPadding | h2bNh.py:177-179 | an odd-length buffer gives the same CRC as the buffer with a 0 byte appended |
| Crc24.CalcCrc24 | h2bNh.py:174-187 | the loop over a copy of the buffer returns `Calc`, a value below 2^24; the caller's buffer is a value and is not changed |
| Record.Code | h2bNh.py:105-111 | the record type codes are 0 to 5 |
| Record.Slice | h2bNh.py:134-135 | a Python slice is at most `size` characters, and exactly `s[st..st+size]` when the line is long enough |
| Record.Peak | h2bNh.py:134-135 | a field of `size` digits reads as a value below 16^size |
| Record.DataBytes | h2bNh.py:284-288 | when every data field reads, the payload has exactly `n` bytes |
| Record.ReadHeadSum | h2bNh.py:280-282 | the loop over the four header bytes gives their sum, or fails as soon as one field does not parse |
| Record.ReadData | h2bNh.py:284-288 | the loop over the data fields collects exactly the payload, and its running total is the payload's sum |
| Record.ReadPayload | h2bNh.py:273-293 | header sum, then payload, then checksum field, then the checksum test, in the order of `segment_feed`; the result is `DecodePayload` |
| Record.DecodeShape | h2bNh.py:273-293 | proof step: once the length field reads, the payload verdict depends only on the header sum, the data fields and the checksum field |
| Record.DataBytesStep | h2bNh.py:284-288 | one more data field extends the payload by that byte and its sum by its value |
| Record.HeadFailureSticks | h2bNh.py:280-282 | once a header field fails to parse, the whole header read fails |
| Record.DataFailureSticks | h2bNh.py:284-288 | once a data field fails to parse, the whole payload read fails |
| Record.TrimStart | h2bNh.py:372 | `strip()` removes exactly the leading whitespace |
| Record.TrimEnd | h2bNh.py:372 | `strip()` removes exactly the trailing whitespace |
| Record.Strip | h2bNh.py:372 | a stripped line neither starts nor ends with whitespace |
| Record.HexBytes | h2bNh.py:134-157 | encoding bytes as hex gives two hex digits per byte |
| Record.Line | h2bNh.py:134-157 | an encoded record line is one leading character plus two digits per byte |
| Record.HexBytesAt | h2bNh.py:140-141 | byte j of an encoded line sits at characters 2j..2j+2 of the hex part |
| Record.FieldAt | h2bNh.py:140-141 | `peak_head` at character 1 + 2j reads byte j back |
| Record.SumAppend | h2bNh.py:280-288 | the checksum sum distributes over concatenation |
| Record.LineFields | h2bNh.py:140-157 | every two-digit field of an encoded line reads back its byte |
| Record.ByteOfField | h2bNh.py:152-153 | `peak_data(i)` is byte 4 + i of the record |
| Record.DataBytesOf | h2bNh.py:284-288 | the payload read is exactly bytes 4 .. 4 + n of the record |
| Record.HeaderOf | h2bNh.py:143-150 | the length and type fields and the header sum are the record's bytes 0, 3 and the sum of bytes 0..3 |
| Record.SumOfHeader | h2bNh.py:280-282 | the header sum is count + address high + address low + type |
| Record.WordAt | h2bNh.py:146-147 | a four-digit field is the big-endian word of two bytes |
| Record.OffsetOfLine | h2bNh.py:146-147 | `peak_offset` reads the 16-bit address of an encoded record |
| Record.AddressWordOfLine | h2bNh.py:376 | `peak_data(0, 4)` reads the first two payload bytes as one word |
| Record.AddressLine | h2bNh.py:376-383 | an encoded address record yields its 16-bit value to `peak_data(0, 4)` |
| Record.StripLine | h2bNh.py:372 | an encoded record line is unchanged by `strip()` |
| Record.ChecksumOf | h2bNh.py:155-157 | `peak_checksum` reads the byte after the payload |
| Record.ChecksumFieldMissing | h2bNh.py:155-157 | a line too short to hold any checksum character, or whose checksum field starts with a non-hex character, is `Malformed` |
| Record.DataFieldMalformed | h2bNh.py:284-286 | a data field that does not parse makes the record `Malformed`, whatever the checksum |
| Record.PartialChecksumRead | h2bNh.py:134-135 | a line that ends one hex digit into its checksum field is still checked, with that one digit as the checksum |
| Record.OneDigitField | h2bNh.py:134-135 | a field cut short to one last hex digit reads as that digit |
| Record.VerdictOn | h2bNh.py:290-293 | once every field has parsed, the verdict depends only on the sum of the record's bytes |
| Record.DecodeFields | h2bNh.py:273-293 | for the fields of any well-sized record: accepted with exactly its payload iff the low byte of the sum of all its bytes is 0, otherwise `ChecksumMismatch` |
| Record.DecodeLine | h2bNh.py:268-293 | the same for an encoded line, together with its offset, length and type |
| Record.SumOfRecord | h2bNh.py:290-293 | the checksum sum is header + payload + checksum byte |
| Record.CheckByte | h2bNh.py:290-293 | the checksum byte makes the sum of all bytes 0 modulo 256 |
| Record.RecordBytes | h2bNh.py:290-293 | an encoded record has its count, address, type and payload in place and a valid checksum |
| Record.BadChecksumLine | h2bNh.py:292-293 | a record whose bytes do not sum to 0 modulo 256 is rejected with `ChecksumMismatch` |
| Record.EncodeDecode | h2bNh.py:134-157 | decoding an encoded record gives back its address, type and payload (round trip) |
| Record.DecodeEncoded | h2bNh.py:134-157 | the same for any bytes laid out as a record with a valid checksum |
| Record.WrongChecksumRejected | h2bNh.py:292-293 | changing only the checksum byte of a valid record makes it rejected |
| Emitter.Column | h2bNh.py:236 | the column of a byte in its row is below the row width |
| Emitter.RowsColumnSum | h2bNh.py:306-312 | full rows times the width plus the remainder give the size back |
| Emitter.RowsColumn | h2bNh.py:306-312 | full rows and remainder are Python's `//` and `%` |
| Emitter.ByteToken | h2bNh.py:238 | a token is six characters |
| Emitter.TokenRoundTrip | h2bNh.py:238 | a token is `0x`, the byte's two digits, then `, `, and the digits parse back to the byte |
| Emitter.Tokens | h2bNh.py:238 | the tokens of `d` take six characters per byte |
| Emitter.BinFileName | h2bNh.py:194 | a binary file name starts with the hex file's name and ends in `.bin` |
| Emitter.BinFileNameFields | h2bNh.py:194 | after the hex file's name and `_Sig_0x` a binary file name holds the base's hex digits, `_(`, the offset's hex digits and `h`, and each field parses back to its number |
| Emitter.BinFileNameDistinct | h2bNh.py:194-195 | two segments of one conversion get the same file name exactly when they have the same base and the same offset |
| Emitter.TextFileName | h2bNh.py:204 | the text file name is the hex file's name plus `.h` |
| Emitter.TextRowsAppend | h2bNh.py:233-243 | feeding `a` then `b` writes the same text as feeding `a + b`: the layout depends only on each byte's index in the segment |
| Emitter.TextRowsOne | h2bNh.py:235-243 | the text of one byte is its tabs, token and newline |
| Emitter.TextRowsPrefix | h2bNh.py:235-243 | the text of `i + 1` bytes is the text of `i` bytes followed by that of byte `i` |
| Emitter.RowTail | h2bNh.py:235-243 | the bytes that finish a started row are their tokens and one newline |
| Emitter.FullRow | h2bNh.py:235-243 | a row-aligned run of `align` bytes is two tabs, the tokens and a newline |
| Emitter.NextIndex | h2bNh.py:236-241 | the next byte's column is one more, wrapping to 0 after the last column |
| Emitter.TokenAt | h2bNh.py:238 | token i of the tokens of `d` is the token of byte i |
| Emitter.HeaderFields | h2bNh.py:207 | for any base and offset the array header is `Sig_0x`, the base's hex digits, `_(`, the offset's hex digits and `h)[] = {` with a newline, and each field parses back to its number |
| Emitter.HeaderColumns | h2bNh.py:207 | for a 16-bit base and offset the header is 25 characters and its fields at 6..10 and 12..16 parse back to the base and the offset |
| Emitter.TrailerFields | h2bNh.py:200 | the trailer holds the size's decimal digits, which denote the size, and then the CRC in six hex digits, which parse back to it |
| Engine.Configure | h2bNh.py:354-361 | the row width changes only for a positive `align` |
| Engine.AppendLast | h2bNh.py:226-230 | writing to the binary file extends only the last segment, by exactly `d` |
| Engine.Fill | h2bNh.py:306-314 | `[pad] * n` is `n` bytes |
| Engine.CrcBytes | h2bNh.py:321-323 | `crc.to_bytes(3, 'big')`: three bytes whose big-endian value is the CRC |
| Engine.AppendLastTwice | h2bNh.py:226-230 | two writes to the binary file equal one write of both |
| Engine.TextAppend | h2bNh.py:233-243 | two text feeds equal one feed of both |
| Engine.WrittenTwice | h2bNh.py:246-253 | two feeds into open files equal one feed of both, with the later CRC |
| Engine.WrittenNothing | h2bNh.py:246-253 | feeding nothing into open files changes nothing |
| Engine.FeedSplit | h2bNh.py:246-253 | two `sigment_feed_data` calls write the same as one; for an even-length first part the CRC is the same too |
| Engine.FillAppend | h2bNh.py:306-314 | m pad bytes then n pad bytes are m + n pad bytes |
| Engine.PadStep | h2bNh.py:306-314 | feeding more pad bytes after a padded state extends the padding and folds the CRC |
| Engine.PadChunksStep | h2bNh.py:306-309 | one more full row of padding adds `alignText` pad bytes |
| Engine.PadChunksFill | h2bNh.py:306-309 | `count` full rows write exactly `count * alignText` pad bytes, with the row-by-row CRC |
| Engine.RowsCrcEven | h2bNh.py:306-309 | for an even row width the row-by-row CRC is the CRC of all the pad bytes at once |
| Engine.PadFill | h2bNh.py:301-314 | `_sigment_pad(size)` into open files writes exactly max(size, 0) pad bytes to both outputs |
| Engine.PadCrcEven | h2bNh.py:301-314 | for an even row width the padding's CRC is that of the pad bytes as one buffer |
| Engine.CalcFills | h2bNh.py:311-314 | the CRC of an even number of pad bytes and then the rest is the CRC of all of them |
| Segments.SaveAndCreateOpens | h2bNh.py:198-219 | opening a segment writes the old trailer with the old size and CRC (only if the text file exists), adds the header and an empty binary file, resets crc, segSize, dataOffset and newSeg, and increments segCount |
| Segments.FeedKeepsInv | h2bNh.py:246-253 | `sigment_feed_data` appends exactly `d` to the current segment only; on the closed text file it raises iff `d` is non-empty and writes nothing |
| Segments.PadChunksKeepInv | h2bNh.py:306-309 | full rows of padding keep the segment counters consistent with the outputs |
| Segments.PadKeepsInv | h2bNh.py:301-314 | padding keeps them consistent |
| Segments.PadBeginKeepsInv | h2bNh.py:256-265 | the gap step keeps them consistent |
| Segments.SegmentFeedKeepsInv | h2bNh.py:268-298 | a data record keeps them consistent |
| Segments.SegmentEndKeepsInv | h2bNh.py:340-342 | closing keeps them consistent |
| Segments.FinalizeKeepsInv | h2bNh.py:392-405 | the end-of-file step keeps them consistent |
| Segments.StepKeepsInv | h2bNh.py:371-405 | each line keeps them consistent |
| Segments.RunKeepsInv | h2bNh.py:371-405 | the whole loop keeps them consistent |
| Segments.ConvertKeepsInv | h2bNh.py:345-410 | after any run: one binary output (a name and its bytes) per segment opened, and `segSize` is the size of the last one |
| Segments.FailureStops | h2bNh.py:406-407 | once a line raises, the lines after it are never processed |
| Segments.EncodedLine | h2bNh.py:372-373 | an encoded record survives `strip()` and decodes to its type, address and payload |
| Segments.DataDispatch | h2bNh.py:386-391 | proof step: a data line goes to `segment_feed`, after `segment_init(-a)` while no segment exists |
| Segments.RunOne | h2bNh.py:371-405 | proof step: `run` over one line is that line's step |
| Segments.SegmentFeedBeginFails | h2bNh.py:270-271 | when the gap step raises, `segment_feed` raises the same and nothing else happens |
| Segments.SegmentFeedRejects | h2bNh.py:268-293 | a bad record raises after the gap step: its padding or new segment stays, and none of its payload is written and the offset is not updated |
| Segments.SegmentFeedFeedFails | h2bNh.py:295-296 | when feeding the payload raises, that is the outcome |
| Segments.AppendToEmpty | h2bNh.py:226-230 | writing to a fresh binary file makes it hold exactly `d` |
| Segments.SegmentFeedShape | h2bNh.py:268-298 | proof step: an accepted record is fed and the next offset is its address plus its length |
| Segments.FeedAfterGap | h2bNh.py:256-298 | padding by a gap g then feeding writes max(g, 0) pad bytes followed by the payload |
| Segments.PadBeginGap | h2bNh.py:262-265 | proof step: a gap below the threshold (or with the threshold off) is padded |
| Segments.PadBeginNew | h2bNh.py:257-263 | proof step: a pending segment, or a gap reaching a non-zero threshold, opens a new segment |
| Segments.ContiguousData | h2bNh.py:256-314 | within an open segment and below the threshold, a record at gap g writes exactly max(g, 0) pad bytes then its payload to both outputs, the running CRC folds the padding and then the payload, the next offset is its end, and the names, base address, open handles and cleared `newSeg` stay as they were |
| Segments.BackwardData | h2bNh.py:256-314 | a record at an address below the current offset, in an open segment, writes no padding: only its payload, appended after the bytes already written with earlier segments untouched, the CRC folds only the payload, the next offset is its end, and the names, base address, handles and `newSeg` stay as they were |
| Segments.WrittenShape | h2bNh.py:246-253 | bytes fed into open files extend only the last segment and the text, and keep the counters consistent |
| Segments.NewSegmentData | h2bNh.py:256-263 | a record that opens a new segment writes the old trailer, the header, and a binary file holding exactly its payload with no padding; the new CRC is the payload's CRC from 0, the base address is kept and `newSeg` is cleared |
| Segments.FeedStarted | h2bNh.py:246-253 | feeding a freshly opened segment gives its CRC from 0 |
| Segments.FirstDataRecord | h2bNh.py:386-391 | the first data record of a file without address records opens segment 1 at the command-line base, holding its payload |
| Segments.AddressRecord | h2bNh.py:374-385 | type 2 sets the base to value << 4, type 4 to value << 8, and only marks a new segment pending |
| Segments.OtherRecordsIgnored | h2bNh.py:371-405 | types 3, 5 and unknown types change nothing |
| Segments.ShortLineMalformed | h2bNh.py:372-373 | a line of at most 7 characters after `strip()` has no type field and raises as `Malformed` |
| Segments.FinalizeOneSegment | h2bNh.py:392-405 | with one segment, the end-of-file step pads `targetSize - 1` bytes (3 fewer with the CRC), then appends the three CRC bytes of the padded CRC, folds them in, writes the trailer with the final size and CRC, and closes |
| Segments.EndWritten | h2bNh.py:332-337 | closing after a feed writes the trailer with the final size and CRC |
| Segments.FinalizeWritten | h2bNh.py:396-405 | the end-of-file step with one segment is one feed of padding and CRC bytes and then `segment_end` |
| Segments.FinalizeOtherCounts | h2bNh.py:396-405 | with no segment nothing happens; with several, only the trailer is written and the files are closed, with no padding |
| Segments.PadChunksClosed | h2bNh.py:306-309 | after the files are closed, a row of padding raises |
| Segments.PadClosed | h2bNh.py:301-314 | after the files are closed, padding raises unless the size is not positive |
| Segments.ClosedEndFails | h2bNh.py:332-337 | a second end-of-file record raises on the closed text file |
| Segments.ClosedFeedNoGap | h2bNh.py:246-253 | after the close, a record that needs no gap step raises when its payload is written |
| Segments.ClosedFeedNew | h2bNh.py:198-201 | after the close, a record that opens a segment raises on the trailer write |
| Segments.ClosedFeedGap | h2bNh.py:301-314 | after the close, a record after a positive gap raises on the padding |
| Segments.ClosedFeedFails | h2bNh.py:256-298 | after the close, every data record with a payload raises and changes nothing |
| Segments.ClosedRejectsData | h2bNh.py:332-337 | after the end-of-file record, a data line raises instead of writing |
| Converter.TextRowsSnoc | h2bNh.py:235-243 | one more iteration of the `text_feed` loop extends the text by that byte's tabs, token and newline |
| Converter.PadChunksFailureSticks | h2bNh.py:306-309 | once a row of padding raises, the later rows are not attempted |
| Converter.RunLinesSnoc | h2bNh.py:371-405 | proof step: the loop of `run` over one more line is one more line step |
| Converter.RunLinesStop | h2bNh.py:406-407 | a line that raises ends `run` |
| Converter.SaveAndCreateSteps | h2bNh.py:211-219 | proof step: `segment_save_and_create` is the text step, then the binary step, then the counter reset |
| Converter.H2B.constructor | h2bNh.py:116-129 | a new converter has the initial field values and no output |
| Converter.H2B.SegmentInit | h2bNh.py:221-223 | marks a new segment pending at `base` and changes nothing else |
| Converter.H2B.TextSaveAndCreate | h2bNh.py:198-208 | the trailer (or the creation of the text file), then the header; raises on the closed text file |
| Converter.H2B.BinSaveAndCreate | h2bNh.py:190-195 | one more binary file, named after the base and offset, and empty |
| Converter.H2B.SaveAndCreate | h2bNh.py:211-219 | leaves the object as `Engine.SaveAndCreate` computes |
| Converter.H2B.NextSegment | h2bNh.py:215-219 | resets crc, segSize, dataOffset and newSeg and increments segCount |
| Converter.H2B.BinFeed | h2bNh.py:226-230 | the loop appends exactly `d` to the last binary file when the files are open, and nothing else changes |
| Converter.H2B.TextFeed | h2bNh.py:233-243 | the loop appends the row layout of `d` from index segSize to the text; raises at the first byte on the closed file; nothing else changes |
| Converter.H2B.FeedData | h2bNh.py:246-253 | leaves the object as `Engine.Feed` computes |
| Converter.H2B.Pad | h2bNh.py:301-314 | the loop over full rows and then the rest leaves the object as `Engine.Pad` computes, stopping at the first row that raises |
| Converter.H2B.PadBegin | h2bNh.py:256-265 | leaves the object as `Engine.PadBegin` computes |
| Converter.H2B.SegmentFeed | h2bNh.py:268-298 | leaves the object as `Engine.SegmentFeed` computes |
| Converter.H2B.SetOffset | h2bNh.py:131-132 | sets `dataOffset` and nothing else |
| Converter.H2B.FeedRecord | h2bNh.py:295-298 | feeds the payload if there is one, then sets the next offset |
| Converter.H2B.SegmentCrc | h2bNh.py:321-323 | feeds the three big-endian CRC bytes with the CRC folding on |
| Converter.H2B.SegmentEnd | h2bNh.py:326-342 | writes the last trailer and closes; raises on the closed text file |
| Converter.H2B.LineStep | h2bNh.py:372-405 | the dispatch on the record type leaves the object as `Engine.LineStep` computes |
| Converter.H2B.Finish | h2bNh.py:392-405 | the end-of-file branch leaves the object as `Engine.Finalize` computes |
| Converter.H2B.ReadLines | h2bNh.py:371-407 | the loop over the lines leaves the object as `Engine.RunLines` computes, stopping at the first line that raises |
| Converter.H2B.Run | h2bNh.py:354-407 | takes the settings from the arguments, then runs the lines |
| Converter.Convert | h2bNh.py:345-407 | a fresh converter run over the lines ends as `Engine.Convert` computes |

## Left out

- The command-line interface, `main`, the help text and the version (h2bNh.py:42-102, 412-432). `run` takes the already resolved values (file name, pad, align, gap threshold, base address, target size, CRC flag) as `Engine.Args`. Reading them with `int(…, 16)` is not modelled.
- The existence check and the reading of the hex file (h2bNh.py:349-370). `Run` takes the file's lines, so the "file not found" path is not modelled.
- Real files. The binary files and the text file are sequence fields. Opening and closing them is not modelled, except that the closed text file still counts as present (see above). The name of the text file is a function (`Emitter.TextFileName`) but is not recorded in the state.
- The printing of the exception at h2bNh.py:406-407. The error becomes the `Failed` status and its `Error` value. The message text is not modelled.
- The leniency of Python's `int(s, 16)`: an `0x` prefix, surrounding whitespace, underscores and a sign are accepted there. The model parses only plain hex digits.
- `peak_off` (h2bNh.py:137-138), which the code never calls.
- Pad values outside a byte and negative base addresses. `Engine.Args` gives the pad as a byte and the base address as a natural number. The code reads both with `int(…, 16)`, which accepts any integer. A pad outside 0..255 then raises in `struct.pack('B', v)` (h2bNh.py:229) when the first pad byte is written. A negative base is formatted with a minus sign in the names and headers. Neither path is modelled.
- Files that share a name. `open(newfile, 'wb')` (h2bNh.py:195) truncates an existing file. So when two segments have the same base and offset, the second file replaces the first on disk (`Emitter.BinFileNameDistinct` says exactly when the names coincide). The model keeps one `binOut` entry per segment opened, and the earlier entry stays there.
- Record.Peak: states only the bound on the value. The exact value of a field is given by `Hex.Parse`, and what each field reads for an encoded record is stated by the lemmas of `Record`.
