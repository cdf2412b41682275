# Intel HEX image receiver of the pico-flashloader demo application

This project models the core of `app.c` in pico-flashloader's demo
application. That application listens on a UART for an Intel HEX file,
assembles the image in a 64 KiB RAM buffer, and hands the image to the
flashloader. It does so by writing a header in front of the image (two magic
words, the length and a CRC-32) and storing header plus image in flash.

The model covers four pieces of `app.c`.

- The bitwise CRC-32 (`crc32`). Polynomial 0x04C11DB7, most significant bit
  first, seed supplied by the caller, no reflection, no final exclusive-or.
  With seed 0xFFFFFFFF this is the CRC-32/MPEG-2 parameter set.
  Module `Crc`, file `crc32.dfy`.
- The record decoder (`hex2nibble`, `parseHex`, `processRecord`).
  Module `HexRecord`, file `hexrecord.dfy`. Worked lines are in `HexExamples`
  (`hexexamples.dfy`).
- The record dispatcher: the `switch` in `readIntelHex`, fed one line at a
  time. Module `Assembler`, file `assembler.dfy`. Whole lines through the
  dispatcher are in `Scenarios` (`scenarios.dfy`).
- The computational part of `flashImage`: the header fields, the CRC over the
  image, and the erase and program lengths. Module `FlashImage`, file
  `flashimage.dfy`.

`bytes.dfy` (module `Bytes`) holds the byte types. It also holds C's `|`,
written out on naturals as `BitOr`, with the lemmas that let the model reason
about `<<` and `|` the way the C code uses them.

How the model represents the C code:

- Bytes of text and data are integers in 0..255.
- A line is the buffer the line reader filled. Its text ends at the first NUL
  byte, as a C string does, and every read past the end sees the
  terminator.
- `processRecord` has three outcomes:
  - `Rejected`;
  - `Accepted` with a record;
  - `Unfilled`: the checksum test passed but fewer than `4 + count` bytes
    were decoded, so part of the record is copied from scratch bytes that
    were never written. With at least four bytes decoded, only the payload
    is affected: count, address and type were all decoded.
- A dispatcher step has four outcomes:
  - `Receiving`: waiting for the next line;
  - `Finished`: the image is handed to `flashImage` with length `offset`;
  - `Overrun`: a Data record whose payload would be copied past the end of
    the buffer;
  - `Indeterminate`: what the firmware does depends on unset scratch bytes.
    That is an `Unfilled` line with fewer than four bytes, or a Data line
    whose payload is partly unset. Any other `Unfilled` line is dispatched
    on its count, address and type, which is all the `switch` reads for
    types other than Data.
- The header size and the two magic words come from `flashloader.h`, which is
  not part of this model. They are the parameters of `FlashImage.Layout`.

Where the code and its descriptions disagree, the model follows the code.

- Characters: the code accepts every ASCII letter as a digit, not only a-f and
  A-F. See Findings.
- Stopping: the decoding loop stops silently after 261 bytes (256 payload bytes
  plus 5 framing bytes), and the line is then judged by its checksum like any
  other. Reaching the limit is not in itself a failure.
- Record length: the decoder never compares the number of decoded bytes with
  the count byte. See Findings.

One consequence of the code is shown by `Scenarios.FullBufferFinishesEmpty`.
A Data record that fills the buffer to its last byte wraps `offset` to 0, so a
following EOF record hands the image over with length 0.

## Model

| member | source | states |
|---|---|---|
| Crc.Crc32 | app.c:74-89 | the checksum of no bytes is the seed the caller passed |
| Crc.ComputeCrc32 | app.c:74-89 | the C loop over `len` bytes computes the left fold of the byte update over `data[..len]`; with `len` 0 it returns the seed |
| Crc.FeedByte | app.c:78-86 | one pass of the outer loop (byte into the top eight bits, then eight shift rounds) is the byte update `UpdateByte` |
| Crc.ShiftRoundCarry | app.c:80-85 | after one round of the inner loop, bit 0 is set exactly when a one left bit 31 |
| Crc.ShiftRoundInjective | app.c:80-85 | two different accumulators never give the same result after a round |
| Crc.RoundsLast | app.c:80-86 | of `n` rounds, the last runs on what the first `n - 1` left, as the loop runs them |
| Crc.RoundsInjective | app.c:80-86 | any number of rounds keeps different accumulators different |
| Crc.UpdateByteSeedInjective | app.c:78-86 | for one byte, different accumulators give different accumulators after the update |
| Crc.Crc32Append | app.c:76-87 | the checksum of a concatenation is the checksum of the second part seeded with the checksum of the first |
| Crc.Crc32SeedInjective | app.c:76-87 | different seeds give different checksums over the same bytes |
| Crc.UpdateByteByteInjective | app.c:78-86 | from one accumulator, different bytes give different accumulators |
| Crc.SingleByteErrorDetected | app.c:74-89 | changing any one byte to a different value changes the checksum, for every seed |
| Crc.SingleBitFlipDetected | app.c:74-89 | every single flipped bit changes the checksum |
| Crc.CheckValue | app.c:74-89 | with seed 0xFFFFFFFF the checksum of "123456789" is 0x0376E6E7 |
| HexRecord.CString | app.c:144-147 | the text of a line is the part before its first NUL byte, and the byte after it is NUL |
| HexRecord.FindColon | app.c:144-147 | the scan finds the first ':' of the text, or reports that there is none |
| HexRecord.DigitValue | app.c:100-114 | accepted characters have values 0 to 35, and a value is below 16 exactly for genuine hexadecimal digits |
| HexRecord.ForceBit5 | app.c:108 | `c \| 32` maps an upper-case letter to its lower-case form, leaves a lower-case letter alone, and lands in 'a'..'z' only from a letter |
| HexRecord.ForceBit5IsOr | app.c:108 | the closed form of `c \| 32` equals the bitwise or on every byte |
| HexRecord.ShiftIn | app.c:102-112 | for a digit below 16, `<<= 4` then `\|=` on the eight-bit value gives `16 * value + d` modulo 256, and the old low nibble becomes the high one |
| HexRecord.Hex2Nibble | app.c:96-118 | success exactly for '0'-'9' and every ASCII letter; on success the value becomes `(value << 4) \| digit` truncated to eight bits; on failure it is unchanged |
| HexRecord.HexDigitShift | app.c:100-114 | a genuine hexadecimal digit is shifted in as the new low nibble |
| HexRecord.ParseHex | app.c:123-131 | succeeds exactly when both characters are accepted; fails with value 0 when the first is not; two genuine digits give `16 * hi + lo` |
| HexRecord.ParseHexAfterFirst | app.c:127-128 | after an accepted first character, the second conversion starts from the value the first left |
| HexRecord.HexPairValue | app.c:123-131 | two genuine digits land in the high and low nibble |
| HexRecord.ParseHexCaseInsensitive | app.c:108-112 | folding either character to lower case never changes the outcome, for every pair of bytes |
| HexRecord.DecodeRun | app.c:149-154 | the decoding loop stores at most as many bytes as it has room for |
| HexRecord.DecodeRunValue | app.c:149-154 | stored byte k is the value of the character pair at offset 2k |
| HexRecord.DecodeRunStop | app.c:149-154 | the loop stops before the buffer is full only at a pair that fails to convert |
| HexRecord.DecodeRunUnique | app.c:149-154 | any byte sequence with the two properties above is the loop's result |
| HexRecord.DecodedBytes | app.c:141-155 | at most 261 bytes are decoded from the pairs after the first ':' |
| HexRecord.Extract | app.c:161-164 | count is byte 0, address is `256 * byte1 + byte2`, type is byte 3, payload is bytes 4 to 4+count |
| HexRecord.AddressBytes | app.c:162 | `data[2] \| (data[1] << 8)` is the big-endian address |
| HexRecord.ProcessRecord | app.c:136-169 | the line is rejected exactly when no byte was decoded or the eight-bit sum is not 0; otherwise the record is the extracted fields, or the line is `Unfilled` when fewer than 4+count bytes arrived |
| HexRecord.ChecksumRunning | app.c:152 | adding a decoded byte to the eight-bit counter gives the checksum of the longer sequence, modulo 256 |
| HexRecord.CharAtReadsBuffer | app.c:128 | reading position `i` of the line's C string gives the buffer's byte `i` when no NUL comes first; at the terminator both give 0 |
| HexRecord.BadChecksumRejected | app.c:157-159 | a line whose decoded bytes do not sum to 0, or that has no ':', is rejected |
| HexRecord.EncodeByte | app.c:123-131 | a byte is written as two hexadecimal digits whose values give it back |
| HexRecord.ParseEncodedByte | app.c:123-131 | decoding the two digits of a byte gives the byte |
| HexRecord.CheckByte | app.c:157-159 | the checksum byte makes the sum of a record's bytes 0 modulo 256 |
| HexRecord.FrameSumsToZero | app.c:157-159 | the bytes of an encoded record sum to 0 modulo 256 |
| HexRecord.ExtractFrame | app.c:161-164 | extracting the fields of an encoded record gives the record back |
| HexRecord.DecodeHexText | app.c:149-154 | hex text running to the end of the line decodes to its bytes when they fit |
| HexRecord.DecodeHexLine | app.c:144-155 | ':' followed by the hex text of at most 261 bytes decodes to exactly those bytes |
| HexRecord.DecodeEncodedFrame | app.c:144-155 | the bytes decoded from an encoded line are the record's frame |
| HexRecord.DecodeEncodedLine | app.c:136-169 | the line encoding any well-formed record is accepted as that record |
| HexRecord.HighNibbleBleed | app.c:108-114 | as written, after a genuine digit a letter beyond 'f' is accepted, and the excess of its value (16 to 35) is or-ed into the high nibble |
| HexRecord.ShiftInBleed | app.c:111-112 | shifting in a digit value of 16 or more or-s its excess into the high nibble |
| HexRecord.StrictHex2Nibble | app.c:96-118 | corrected: success exactly for 0-9, a-f, A-F; on those it agrees with the as-written conversion; on every other character it fails and leaves the value unchanged |
| HexRecord.StrictParseHex | app.c:123-131 | corrected: success exactly for two genuine digits, value `16 * hi + lo` |
| HexRecord.StrictParseHexInvertsEncodeByte | app.c:123-131 | the corrected decoder inverts the byte encoder |
| HexRecord.EncodeByteInvertsStrictParseHex | app.c:123-131 | re-encoding what the corrected decoder accepts gives the same digits, up to case |
| HexRecord.StrictParseHexAgrees | app.c:123-131 | on genuine digits the corrected and the as-written decoder agree |
| HexRecord.ProcessRecordChecked | app.c:159-166 | corrected: never `Unfilled`; an accepted record's frame is exactly the decoded bytes; a rejected line decoded no bytes, or a number other than count+5, or bytes not summing to 0 |
| HexRecord.FrameOfChecked | app.c:159-166 | bytes of the right length with sum 0 are the frame of their extracted record |
| HexRecord.CheckedDecoderRoundTrip | app.c:136-169 | the corrected decoder accepts every encoded well-formed record as itself |
| HexExamples.DataLineExample | app.c:136-169 | `:0300300002337A1E` is accepted as count 3, address 0x0030, type 0, payload 02 33 7A |
| HexExamples.CorruptLineExample | app.c:157-159 | `:0300300002337A1F` is rejected |
| HexExamples.EofLineExample | app.c:136-169 | `:00000001FF` is accepted as the end-of-file record |
| HexExamples.ShortLineAccepted | app.c:159-165 | `:00` passes the checksum test although no record fields arrived |
| HexExamples.ShortEofLineAccepted | app.c:159-164 | `:02000001FD` passes with count 2, address 0 and type 01 decoded and no payload |
| HexExamples.ShortUpperLineAccepted | app.c:159-164 | `:02000004FA` passes with count 2, address 0 and type 04 decoded and no payload |
| HexExamples.ShortLineRejectedWhenChecked | app.c:159-165 | the corrected decoder rejects `:00` |
| HexExamples.LetterGShiftsIn | app.c:108-114 | 'g' converts with value 16, which lands in the high nibble |
| HexExamples.TrailingLetterG | app.c:123-131 | "0g" decodes to 0x10, the same byte as "10" |
| HexExamples.LeadingLetterG | app.c:123-131 | "g0" decodes to 0x00, the same byte as "00" |
| Assembler.Place | app.c:250 | the payload lands at `[at, at+len)` and every other byte is unchanged |
| Assembler.Step | app.c:247-274 | Data within the buffer copies the payload to `[offset, offset+count)`, leaves the rest alone and sets `offset` to `(offset+count) % 65536`; Data past the end is an overrun; EOF finishes with the state as it is; type 04 moves `offset` to 0; every other type changes nothing |
| Assembler.StepKeepsValid | app.c:249-270 | every step keeps the buffer at 65536 bytes and `offset` below 65536 |
| Assembler.StepIgnoresAddress | app.c:249-252 | the record's address field plays no part in where data goes |
| Assembler.EmptyDataIsNoOp | app.c:250-252 | a Data record with count 0 changes nothing |
| Assembler.ExactFitWraps | app.c:251-252 | a Data record ending at byte 65536 wraps `offset` to 0 |
| Assembler.Feed | app.c:245-274 | a rejected line leaves the state unchanged; an accepted line is dispatched as its record; an `Unfilled` line with its four header bytes and a type other than Data finishes, moves `offset` to 0 or changes nothing, by its type; any other `Unfilled` line is indeterminate |
| Assembler.StepIgnoresPayload | app.c:247-274 | for every type other than Data, the step does not depend on the payload |
| Assembler.ShortFrameDispatched | app.c:245-274 | a short frame of a type other than Data is dispatched as every record with its count, address and type, whatever its payload |
| Assembler.RunRecords | app.c:241-277 | the receiving loop keeps the state valid |
| Assembler.RunLines | app.c:241-277 | the receiving loop over lines keeps the state valid |
| Assembler.RunEncodedLines | app.c:241-277 | sending the encoded lines has the same outcome as dispatching the records |
| Assembler.FeedEncodedLine | app.c:245 | an encoded line is dispatched as the record it encodes |
| Assembler.DataStep | app.c:249-252 | a Data record below the end of the buffer copies its payload and advances `offset` by its count |
| Assembler.PlaceTwice | app.c:250-251 | two copies side by side are one copy of the concatenation |
| Assembler.DataRecordsStageImage | app.c:249-252 | an image sent in Data records that fits below the end of the buffer is copied to `offset`, which advances by the image size |
| Assembler.RecordsStageImage | app.c:249-259 | an image sent in Data records from offset 0, then EOF, finishes with the image at the front of the buffer, the rest untouched, and length = image size |
| Assembler.TransferStagesImage | app.c:241-277 | the same for the encoded text lines |
| Assembler.RunRecordsThen | app.c:241-277 | after a prefix that leaves the receiver in state `mid`, the rest runs from `mid` |
| Assembler.PlaceAgain | app.c:250 | copying the same payload to the same place twice is copying it once |
| Assembler.UpperResets | app.c:267-270 | a type 04 record after a run moves `offset` back to 0 and keeps the buffer |
| Assembler.RetransmissionHarmless | app.c:249-270 | resending an image after a type 04 record gives the same outcome as sending it once |
| Assembler.DataAsWritten | app.c:250-252 | as written: the payload is copied to `offset` whatever its length, and `offset` becomes `(offset+count) % 65536` |
| Assembler.DataAsWrittenEscapes | app.c:250-252 | as written, at offset 65535 a two-byte payload writes its second byte at 65536, past the buffer |
| Assembler.StepStaysInBuffer | app.c:249-255 | corrected: a step overruns exactly when `offset + count > 65536`, and then changes nothing |
| Scenarios.CorruptLineDropped | app.c:245 | a line with a wrong checksum leaves the receiver as it was |
| Scenarios.DataLinePlaced | app.c:245-255 | `:0300300002337A1E` puts 02 33 7A at the current offset, whatever its address says, and advances the offset by three modulo 65536, so a line ending exactly at the end of the buffer wraps it to 0 |
| Scenarios.EofLineFinishes | app.c:257-259 | `:00000001FF` finishes with the state as it is |
| Scenarios.ShortEofLineFinishes | app.c:257-258 | `:02000001FD` hands the buffer over although its payload never arrived |
| Scenarios.ShortUpperLineResets | app.c:267-270 | `:02000004FA` moves `offset` to 0 although its payload never arrived |
| Scenarios.ShortLineIndeterminate | app.c:159-165 | `:00` is accepted and the record acted on is not determined by the line |
| Scenarios.FullBufferFinishesEmpty | app.c:251-258 | a Data record ending at byte 65536 followed by EOF hands over length 0 |
| FlashImage.MaskClearsLowBits | app.c:180 | `x & 0xfffff000` on 32 bits is `x - x % 4096` |
| FlashImage.EraseLength | app.c:177-180 | the erase length is a multiple of 4096 below 2^32; for totals up to 2^32-4096 it lies in `[total, total+4096)`; above that the 32-bit sum wraps and it is 0 |
| FlashImage.EraseLengthIsLeast | app.c:180 | the erase length is at most every multiple of 4096 that covers the total |
| FlashImage.PrepareImage | app.c:174-186 | the header holds both magic words, the length and the CRC-32 (seed 0xFFFFFFFF) of exactly the first `length` bytes; header plus image is programmed; the erase length is computed from that total |
| FlashImage.CorruptedImageRejected | app.c:183-186 | a header that describes an image does not describe any copy that differs in one byte |
| FlashImage.EraseCoversProgram | app.c:177-180 | for images the buffer can hold, the erase covers header plus image with less than one sector to spare |
| FlashImage.OneByteImageErasesOneSector | app.c:177-180 | a one-byte image behind a header shorter than 4096 bytes erases exactly 4096 bytes |
| FlashImage.ExtraSectorErasesOneMore | app.c:177-180 | 4096 more bytes of image erase exactly one more sector |
| FlashImage.EraseLengthExamples | app.c:180 | totals 0, 1, 4096, 4097 and 2^32-1 erase 0, 4096, 4096, 8192 and 0 bytes |
| FlashImage.TransferHandsOverImage | app.c:241-259 | after a transfer of Data lines and EOF, the bytes handed to `flashImage` are exactly the transmitted image, and the header built from them (magic words, `offset`, CRC with seed 0xFFFFFFFF) describes that image |

## Left out

- UART input and output (`getLine`, `uart_puts`, the "Received block" notices), `main`, the LED timer callback and its GPIO toggling: they are I/O with no effect on the modelled state.
- The flash erase and program calls, interrupt masking, the watchdog scratch registers and the reboot: they are hardware operations. `FlashImage.PrepareImage` stops at the lengths passed to them.
- The page-size requirements of the flash routines: the routines are not part of this model.
- The `count` counter in `readIntelHex`: it is written but never read.
- `getLine` writing past its 1024-byte buffer on long lines: lines are modelled as sequences of any length.
- The `1L << 31` test at app.c:82: on a target where `long` is 32 bits this shift overflows a signed type. The model reads it as the intended bit-31 mask `TopBit`, 0x80000000.
- The sign of `*data++ << 24` in `crc32`: for bytes of 128 and more, C promotes to a signed `int` and the shift overflows. The model uses the unsigned 32-bit shift the code evidently relies on.
- Assembler.RunLines: the receiving loop runs forever in C; the model runs a finite sequence of lines and stops at the first outcome other than `Receiving`.
- Assembler.RunRecords: finite in the same way.
- Assembler.Step: what the C code does after an overrun (memory past the buffer is overwritten) is not modelled. The model stops with `Overrun`.
- Assembler.Feed: an `Unfilled` line with fewer than four decoded bytes (count, address or type unset), or an `Unfilled` Data line (payload partly unset), is not followed further. The model stops with `Indeterminate`, because what the firmware does then depends on stack contents.
- Assembler.DataRecordsStageImage: stated for images strictly smaller than the buffer. The exact-fill case is stated separately by `Scenarios.FullBufferFinishesEmpty`.
- FlashImage.EraseLength: it is written with the remainder form of the mask. `FlashImage.MaskClearsLowBits` proves the two agree on 32-bit values.
- FlashImage.EraseLength: the least-multiple property holds only for totals up to 2^32-4096. Above that, the wrap to 0 is what is stated.
- The rest of the receiver keeps the as-written decoder (`HexRecord.ProcessRecord`), so that the dispatcher model shows what the firmware does with every line. The corrected decoders are stated and proved on their own.

## Findings

| source | as written | input that shows it | evidently intended | confidence | as-written member | corrected member |
|---|---|---|---|---|---|---|
| app.c:108-114 | after `c \|= 32` every letter 'a'..'z' is accepted, with values 10 to 35; values of 16 and more are or-ed into the high nibble | `"0g"` decodes to 0x10 and `"g0"` to 0x00 | only 0-9, a-f and A-F convert, as the function's comment says | not executed | HexRecord.HighNibbleBleed | HexRecord.StrictParseHex |
| app.c:159-165 | a line is accepted when its bytes sum to 0, whatever the count byte says; the fields are then read from bytes that were never decoded | `:00` is accepted with count 0 and unset address, type and payload | accept only when exactly `count + 5` bytes were decoded | not executed | HexExamples.ShortLineAccepted | HexRecord.ProcessRecordChecked |
| app.c:250-252 | the payload is copied to `offset` before any bound check; the wrap modulo 65536 happens after the copy | offset 65535 and a Data record with count 2 | check `offset + count <= 65536` before copying | not executed | Assembler.DataAsWrittenEscapes | Assembler.StepStaysInBuffer |
