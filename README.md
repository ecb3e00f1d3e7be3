# ATmega328PB flasher: Intel HEX decoding and ISP programming, in Dafny

This project models the core of an ESP32 firmware that programs an
ATmega328PB over SPI from an Intel HEX file kept on the ESP32's flash file
system.

It covers two source files:

- `lib/atmega328_flasher/src/hex_file_reader.h` is the HEX reader adapted
  from avrdude. It has three parts:
  - its own `fgets`, which reads one character at a time from the file;
  - `ihex_readrec`, which reads the fixed-width fields of one record with
    `strtoul` and computes the record's checksum in an `unsigned char`;
  - `ihex2b`, which reads the file line by line, checks every record and
    lays the data records out in a memory buffer. It handles segment and
    linear base addresses and returns the highest address written.
- `lib/atmega328_flasher/src/atmega328_flasher.cpp` is the serial
  programming sequence:
  - `get_fuses` and `set_fuses` (three write-and-read-back attempts);
  - `enable_program_mode` (at most 66 tries);
  - `flash_file`. It enables programming and checks the signature. It sets
    the fuses when they differ from the desired ones and erases the chip.
    Then it decodes the file into `flash_mem`, loads and flushes every
    byte page by page, reads every byte back, and finally checks that the
    fuses did not drift.

The model is split into five modules:

- `Basics` holds bytes, 16- and 32-bit words, `Option` and `Result`.
- `HexRecord` holds `strtoul` in base 16, `ihex_readrec` (the method
  `ReadRec`, proved against the function `ParseRecord`), and a writer for
  records (`EncodeRecord`) with the round trip between the two.
- `HexLines` holds the custom `fgets` (the method `ReadLine`, proved
  against `LineLength`) and the split of a whole file into lines
  (`Lines`).
- `HexDecode` holds `ihex2b`:
  - the method `Ihex2b` updates a memory `array` in place;
  - it is proved equal to `Decode`, a function over the file's lines that
    runs one step per line (`ApplyLine`);
  - `Decode` carries the decoder state: line number, base address,
    highest address, the `ihex.data` buffer, which keeps its bytes from
    one record to the next, and the memory contents.
- `IspProtocol` and `Flasher` hold the programming side:
  - The part is an abstract `Device`: a function from the history of
    every 4-byte command sent so far to the 4-byte answer.
  - `IspProtocol` states, as functions of the device, which commands each
    step sends and what it concludes. Examples are `EnableTries`,
    `FuseAttempts`, `WriteTrace`, `FirstMismatch`, `EnsureFuses` and
    `FlashSession`.
  - `Flasher.Programmer` is a class over the source's static buffers
    `cmd`, `res` and `flash_mem`, plus the history of commands sent. Each
    of its methods is proved to send exactly the commands and return
    exactly the status that `IspProtocol` prescribes.

A file that does not exist is `None`. Otherwise the file is its contents,
`seq<char>`. The initial contents of the uninitialised `ihex.data` buffer
are a parameter (`junk`).

## Model

| member | source | states |
|---|---|---|
| HexRecord.DigitsValue | lib/atmega328_flasher/src/hex_file_reader.h:86-88 | The digit loop of `strtoul` in base 16 gives the positional value of one to eight hexadecimal digits. |
| HexRecord.HexFieldAccepted | lib/atmega328_flasher/src/hex_file_reader.h:86-88 | A field made only of hexadecimal digits passes `strtoul` plus the `e == buf \|\| *e != 0` test, and reads as its value. |
| HexRecord.AcceptedFieldEndsInDigit | lib/atmega328_flasher/src/hex_file_reader.h:86-88 | Whatever `strtoul` accepts as a whole field is non-empty and ends in a hexadecimal digit. |
| HexRecord.StrToULAccepts | lib/atmega328_flasher/src/hex_file_reader.h:86-88 | `strtoul` plus the `e == buf \|\| *e != 0` test accepts a field if and only if it is white space, an optional sign, an optional `0x` or `0X`, then one or more hexadecimal digits reaching the end of the field. |
| HexRecord.FieldStep | lib/atmega328_flasher/src/hex_file_reader.h:81-88 | One field step of `ihex_readrec` gives -1 (None) when the line ends before the field is complete. Otherwise it succeeds exactly for the shape above, and a field made only of hexadecimal digits reads as its value. |
| HexRecord.ReadData | lib/atmega328_flasher/src/hex_file_reader.h:113-124 | The data loop yields exactly the `reclen` byte fields after the header, or fails when one is missing or malformed. The running `unsigned char` checksum is the wrapped sum of the bytes read. |
| HexRecord.ByteSumIsLowByte | lib/atmega328_flasher/src/hex_file_reader.h:110-124 | Adding into an `unsigned char` one byte at a time leaves the low byte of the true sum. |
| HexRecord.RunningChecksum | lib/atmega328_flasher/src/hex_file_reader.h:110-136 | `-cksum & 0xff`, taken over the running sum, is the two's complement of the low byte of the sum of all fields except the checksum. |
| HexRecord.ReadRec | lib/atmega328_flasher/src/hex_file_reader.h:67-139 | `ihex_readrec` returns -1 exactly when `ParseRecord` rejects the line. Otherwise it fills the record with the parsed fields and returns the computed checksum. |
| HexRecord.ParseRecord | lib/atmega328_flasher/src/hex_file_reader.h:67-139 | A parsed record holds `reclen` data bytes, and its line has at least the 11 + 2·`reclen` characters the fields need. |
| HexRecord.ShortLineRejected | lib/atmega328_flasher/src/hex_file_reader.h:81-82 | A line shorter than an empty record (11 characters) is always rejected. |
| HexRecord.PrefixRejected | lib/atmega328_flasher/src/hex_file_reader.h:81-134 | Every `offset + n > len` test together: no line cut short inside a record's fields can be read. |
| HexRecord.TrailingCharsIgnored | lib/atmega328_flasher/src/hex_file_reader.h:76-134 | Characters after the checksum field (a `\r`, a comment) do not change the record read, since `len` is used only for bounds. |
| HexRecord.FieldsEndInDigits | lib/atmega328_flasher/src/hex_file_reader.h:86-133 | In a record that was read, the last character of every field is a hexadecimal digit: header fields, data bytes and checksum. |
| HexRecord.ChecksumMatchesIffZeroSum | lib/atmega328_flasher/src/hex_file_reader.h:136 | The computed checksum equals the stored one if and only if all bytes of the record, checksum included, add up to a multiple of 256. |
| HexRecord.EncodeThenParse | lib/atmega328_flasher/src/hex_file_reader.h:67-139 | Round trip: the line a HEX writer emits for a well-formed record reads back as that record, whatever follows it. |
| HexRecord.TruncatedEncodingRejected | lib/atmega328_flasher/src/hex_file_reader.h:81-134 | A written record cut anywhere inside its fields is rejected. |
| HexLines.ReadLine | lib/atmega328_flasher/src/hex_file_reader.h:46-64 | The custom `fgets` returns NULL only at the end of the file. Otherwise it consumes and returns exactly one line of `LineLength` characters. |
| HexLines.LineLengthUnique | lib/atmega328_flasher/src/hex_file_reader.h:49-63 | A line ends at its first `\n`, after 255 characters, or at the end of the file, and only there. |
| HexLines.LinesCoverFile | lib/atmega328_flasher/src/hex_file_reader.h:171 | Reading line after line neither loses nor adds characters: the lines put together are the file. |
| HexLines.LinesShape | lib/atmega328_flasher/src/hex_file_reader.h:46-64 | Every line is non-empty, fits the 256-byte buffer, and holds a `\n` only as its last character. |
| HexLines.NewlineEndsLine | lib/atmega328_flasher/src/hex_file_reader.h:52-54 | A line of fewer than 255 characters followed by `\n` is read whole by one call. |
| HexLines.LinesOfTerminated | lib/atmega328_flasher/src/hex_file_reader.h:171 | A file written line by line with `\n` splits back into those lines when each fits the buffer. |
| HexDecode.CString | lib/atmega328_flasher/src/hex_file_reader.h:174 | `strlen`: the text is the buffer up to its first NUL, and contains no NUL. |
| HexDecode.CopyData | lib/atmega328_flasher/src/hex_file_reader.h:219-221 | The copy loop writes the record's bytes at `nextaddr` and changes no other byte of `memory`. |
| HexDecode.DispatchRecord | lib/atmega328_flasher/src/hex_file_reader.h:198-254 | The `switch (ihex.rectyp)` updates memory, `baseaddr` and `maxaddr` exactly as `ApplyRecord` says, with the intended bounds test (see Findings). It stops with the value `ihex2b` returns exactly when `ApplyRecord` finishes. |
| HexDecode.ProcessLine | lib/atmega328_flasher/src/hex_file_reader.h:172-254 | One pass of the loop body (count the line, strip the `\n`, skip non-records, read, check the checksum, dispatch) does what `ApplyLine` says. |
| HexDecode.Ihex2b | lib/atmega328_flasher/src/hex_file_reader.h:155-265 | `ihex2b` returns, and leaves in `memory`, exactly what `Decode` gives for the file and the memory's previous contents, with the intended bounds test (see Findings). |
| HexDecode.Stripped | lib/atmega328_flasher/src/hex_file_reader.h:174-176 | The text has no NUL and is a prefix of the buffer. It is the C string with its one trailing `\n` removed when there is one, and the C string itself otherwise. |
| HexDecode.ApplyRecord | lib/atmega328_flasher/src/hex_file_reader.h:198-254 | A record that ends the decode leaves memory as it was, and it ends it successfully only when it is an end-of-file record, returning `maxaddr`. A record after which the decode goes on keeps the line number, the `ihex.data` buffer and the size of memory. |
| HexDecode.ApplyLine | lib/atmega328_flasher/src/hex_file_reader.h:171-254 | A line that ends the decode is a record line and leaves memory as it was. It ends it successfully only as a parsed end-of-file record, returning `maxaddr`. Every line after which the decode goes on advances the 16-bit `lineno` by one, modulo 65536. |
| HexDecode.Run | lib/atmega328_flasher/src/hex_file_reader.h:171-265 | The rest of the loop never changes the size of the memory image. |
| HexDecode.Decode | lib/atmega328_flasher/src/hex_file_reader.h:155-265 | Whatever the file holds, nothing at or beyond `memsize` is written, and a successful result is at most `memsize`. |
| HexDecode.RunStaysInMemory | lib/atmega328_flasher/src/hex_file_reader.h:171-265 | The same from any decoder state with `maxaddr <= memsize`: every remaining line keeps that bound and writes nothing at or beyond `memsize`. |
| HexDecode.DataRecordEffect | lib/atmega328_flasher/src/hex_file_reader.h:199-224 | A data record is stored if and only if it is not below `fileoffset` and ends inside the buffer (the intended bounds test; see Findings). It then writes exactly `memory[nextaddr..nextaddr+reclen)` and raises `maxaddr` to its end. Otherwise memory is unchanged and the matching error is returned. |
| HexDecode.AddressRecordEffect | lib/atmega328_flasher/src/hex_file_reader.h:230-240 | A type 2 or 4 record sets `baseaddr` to `(data[0] << 8 \| data[1])` shifted by 4 or 16. The bytes come from the `ihex.data` buffer, which holds stale bytes when `reclen < 2`. Nothing else changes. |
| HexDecode.OtherRecordTypes | lib/atmega328_flasher/src/hex_file_reader.h:234-253 | Types 3 and 5 change nothing. A type above 5 stops the decode with an error and leaves memory as it was. |
| HexDecode.RejectedRecordAborts | lib/atmega328_flasher/src/hex_file_reader.h:179-196 | An unreadable record, or a checksum mismatch, stops the decode with the matching error before anything of the record is applied. |
| HexDecode.SkippedLineChangesNothing | lib/atmega328_flasher/src/hex_file_reader.h:172-178 | A line that is empty, or does not start with `:`, only advances the line number. |
| HexDecode.EndOfFileIgnoresRest | lib/atmega328_flasher/src/hex_file_reader.h:226-227 | Nothing after an end-of-file record is read. |
| HexDecode.OnlySkippedLines | lib/atmega328_flasher/src/hex_file_reader.h:258-265 | Lines that are all skipped leave memory and `maxaddr` as they were. The file then ends without an end-of-file record, so the decode fails if nothing had been stored and returns `maxaddr` otherwise. |
| HexDecode.ClassifyEncoded | lib/atmega328_flasher/src/hex_file_reader.h:171-179 | A written record followed by `\n` is read back as that record. |
| HexDecode.DecodeWritten | lib/atmega328_flasher/src/hex_file_reader.h:155-265 | Decoding a file written record by record runs the decoder on exactly those records. |
| HexDecode.DataRecordRoundTrip | lib/atmega328_flasher/src/hex_file_reader.h:155-265 | A file with one data record and the end-of-file record puts the record's bytes at its address, changes nothing else, and returns the end address. |
| HexDecode.HighestEndIsMax | lib/atmega328_flasher/src/hex_file_reader.h:222-223 | After a run of data records `maxaddr` is the largest of its old value and the records' ends: at least each of them, and equal to one of them. |
| HexDecode.StoreAllAt | lib/atmega328_flasher/src/hex_file_reader.h:219-221 | After a run of data records, each address holds the byte of the last record that covers it, or its old byte when none does. |
| HexDecode.DataLine | lib/atmega328_flasher/src/hex_file_reader.h:171-224 | A data record with a correct checksum, read at base address 0 with no file offset and ending inside the buffer, is copied to its own address, raises `maxaddr` to its end, and the loop goes on with the next line number. |
| HexDecode.RunDataStep | lib/atmega328_flasher/src/hex_file_reader.h:171-256 | The loop after the first of several data records is the loop on the rest, from the state that record leaves; the stored image and `maxaddr` it is heading for are unchanged. |
| HexDecode.RunDataRecords | lib/atmega328_flasher/src/hex_file_reader.h:171-256 | Data records and then an end-of-file record, from base address 0 and no file offset, end the loop successfully with the highest end as result and every record stored in file order. |
| HexDecode.DataRecordsRoundTrip | lib/atmega328_flasher/src/hex_file_reader.h:155-265 | A file of any number of data records, each with a correct checksum and ending inside the buffer, followed by the end-of-file record, decodes to the highest record end. Every address then holds the byte of the last record that covers it, or its old byte. |
| HexDecode.ChecksumMismatchStops | lib/atmega328_flasher/src/hex_file_reader.h:187-196 | A first record with a wrong checksum stops the decode at line 1, reports both checksums, and leaves memory unchanged. |
| HexDecode.ExtendedLinearAddressExample | lib/atmega328_flasher/src/hex_file_reader.h:199-240 | `:020000040001F9` then `:01001000AB44` stores 0xAB at 0x10 when `fileoffset` is 0x10000. With `fileoffset` 0, the same file fails as out of range at line 2. |
| HexDecode.WrappedBoundsCheckAdmits | lib/atmega328_flasher/src/hex_file_reader.h:210-211 | For a record at 0xFFFFFFFF, the bounds test as written (32-bit sum) lets it through, while the intended test refuses it. |
| HexDecode.WrapExampleRejected | lib/atmega328_flasher/src/hex_file_reader.h:210-218 | With the intended bounds test, the wrapping file stops at line 2 with memory unchanged. |
| IspProtocol.RepliesAt | lib/atmega328_flasher/src/atmega328_flasher.cpp:30-34 | The k-th reply of a run of transactions is `res[3]` of the answer to the k-th command, given everything sent before it. |
| IspProtocol.EnableTries | lib/atmega328_flasher/src/atmega328_flasher.cpp:107-118 | Counting from try `k`, enabling sends at least `k` and at most 66 enable commands. |
| IspProtocol.FuseAttempts | lib/atmega328_flasher/src/atmega328_flasher.cpp:58-91 | Counting from attempt `j`, `set_fuses` makes more than `j` and at most 3 attempts. |
| IspProtocol.EnableTriesFirst | lib/atmega328_flasher/src/atmega328_flasher.cpp:110-118 | Enabling sends between 1 and 66 commands and stops at the first one the part echoes with `0x53`. |
| IspProtocol.EnabledIff | lib/atmega328_flasher/src/atmega328_flasher.cpp:110-129 | `enable_program_mode` returns 0 if and only if the part echoes `0x53` on one of the first 65 tries. |
| IspProtocol.LateAnswerIgnored | lib/atmega328_flasher/src/atmega328_flasher.cpp:118-125 | An echo only on the 66th try still gives -1, after 66 commands, because `tries++` has already reached 65. |
| IspProtocol.FuseAttemptsFirst | lib/atmega328_flasher/src/atmega328_flasher.cpp:59-100 | `set_fuses` makes 1 to 3 attempts and stops after the first whose read-back matches. It succeeds if and only if some attempt matched. |
| IspProtocol.StoredReplies | lib/atmega328_flasher/src/atmega328_flasher.cpp:36-54 | On a part whose fuses behave as memory, `get_fuses` returns the last value written to each fuse. |
| IspProtocol.StoringPartFirstAttempt | lib/atmega328_flasher/src/atmega328_flasher.cpp:56-101 | A part that stores its fuses accepts the first attempt: one attempt, success. |
| IspProtocol.StuckFusesThreeAttempts | lib/atmega328_flasher/src/atmega328_flasher.cpp:56-101 | A part whose fuse reads never change makes `set_fuses` try three times and fail. |
| IspProtocol.FlushesSoFar | lib/atmega328_flasher/src/atmega328_flasher.cpp:226-263 | The write loop flushes once per completed 128-byte page, plus once after the last byte when the last page is incomplete. |
| IspProtocol.FlushCount | lib/atmega328_flasher/src/atmega328_flasher.cpp:226-263 | An image of `size` bytes gets ceil(`size`/128) page writes. |
| IspProtocol.LoadsInOrder | lib/atmega328_flasher/src/atmega328_flasher.cpp:226-249 | Exactly one load command per address, in increasing order, each carrying that address's byte. |
| IspProtocol.TwoPageImage | lib/atmega328_flasher/src/atmega328_flasher.cpp:229-235 | For a 130-byte image, pages are flushed after bytes 127 and 129 only. |
| IspProtocol.FirstMismatchIsFirst | lib/atmega328_flasher/src/atmega328_flasher.cpp:266-294 | Verification stops at the first address that does not read back. It passes if and only if every address below `size` reads back. |
| IspProtocol.EnsureFuses | lib/atmega328_flasher/src/atmega328_flasher.cpp:186-195 | The fuse step sends the three baseline fuse reads first, right after the history, whatever follows them. |
| IspProtocol.FlashSession | lib/atmega328_flasher/src/atmega328_flasher.cpp:132-315 | `flash_file` returns 0 or -1 and only appends to the commands sent before it. It returns -1 whenever the file does not exist. |
| IspProtocol.Programming | lib/atmega328_flasher/src/atmega328_flasher.cpp:215-306 | From the decode on, the result is 0 or -1 and only appends to the history. It is 0 only when the file decoded. |
| IspProtocol.Burning | lib/atmega328_flasher/src/atmega328_flasher.cpp:225-306 | Write loop, verify loop and drift check return 0 or -1 and leave `flash_mem` as it was. The whole write trace for the image is sent first, right after the history. |
| IspProtocol.NotEnabledStops | lib/atmega328_flasher/src/atmega328_flasher.cpp:153-156 | A part that echoes on none of the first 65 tries gets 66 enable commands and nothing else, and `flash_file` returns -1 with `flash_mem` unchanged. |
| IspProtocol.WrongSignatureStops | lib/atmega328_flasher/src/atmega328_flasher.cpp:159-179 | On a wrong signature, `flash_file` returns -1 after the enable and signature commands, without any fuse, erase or flash command. |
| IspProtocol.FusesWrittenOnlyWhenDifferent | lib/atmega328_flasher/src/atmega328_flasher.cpp:186-195 | Fuses are written only when the baseline read differs from the desired fuses. Then 1 to 3 attempts follow, and success means the last one matched. |
| IspProtocol.DecodeFailureAborts | lib/atmega328_flasher/src/atmega328_flasher.cpp:215-221 | When the file does not decode, `flash_file` returns -1 and the chip erase is the last command sent. |
| IspProtocol.ProgrammingSucceeds | lib/atmega328_flasher/src/atmega328_flasher.cpp:215-306 | Success means the file decoded to `size` bytes, the whole write trace for them was sent, and the part read back every one of them. |
| IspProtocol.BurningSucceeds | lib/atmega328_flasher/src/atmega328_flasher.cpp:225-306 | When every byte reads back and the fuses read after the verify are the desired ones, the burn returns 0. It sends the write commands, the reads and one `get_fuses`, and nothing else: no fuse is rewritten. |
| IspProtocol.WriteTraceNoFuseWrites | lib/atmega328_flasher/src/atmega328_flasher.cpp:226-263 | The write loop sends only page loads and page flushes, never a fuse write. |
| IspProtocol.ReadTraceNoFuseWrites | lib/atmega328_flasher/src/atmega328_flasher.cpp:266-294 | The verify loop sends only program memory reads, never a fuse write. |
| IspProtocol.SuccessTraceNoFuseWrites | lib/atmega328_flasher/src/atmega328_flasher.cpp:152-306 | The commands of a session that enables, reads the signature and fuses, erases, writes, verifies and reads the fuses again hold no fuse write. |
| IspProtocol.SessionReachesProgramming | lib/atmega328_flasher/src/atmega328_flasher.cpp:152-215 | A part that enables, has the right signature and already holds the desired fuses is erased without a fuse write, and the session goes on to decode the file. |
| IspProtocol.SessionSucceeds | lib/atmega328_flasher/src/atmega328_flasher.cpp:132-315 | A part that enables, has the right signature, holds the desired fuses before and after, and reads back every byte of a file that decodes gets `flash_file` status 0. The exact commands are the enables, signature reads, fuse reads, erase, writes, reads and fuse reads, with no fuse write, and `flash_mem` holds the decoded image. |
| IspProtocol.SingleByteImage | lib/atmega328_flasher/src/atmega328_flasher.cpp:215-263 | The file `:0100000001FE`, `:00000001FF` puts 0x01 at address 0, which is sent as one load-low command and one page flush. |
| IspProtocol.SizeCheckNeverFires | lib/atmega328_flasher/src/atmega328_flasher.cpp:215-221 | `size < 0` on the `uint32_t` size never holds, and a decode error arrives as a size of 65535, beyond `flash_mem`. |
| Flasher.Programmer.constructor | lib/atmega328_flasher/src/atmega328_flasher.cpp:17-19 | The static buffers start out zeroed, and nothing has been sent. |
| Flasher.Programmer.Transact | lib/atmega328_flasher/src/atmega328_flasher.cpp:30-34 | `do_spi_transaction` sends `cmd` and leaves the part's answer to the whole history in `res`. |
| Flasher.Programmer.Send | lib/atmega328_flasher/src/atmega328_flasher.cpp:30-34 | Filling `cmd` and transacting sends exactly that command and yields `res[3]` of the answer. |
| Flasher.Programmer.GetFuses | lib/atmega328_flasher/src/atmega328_flasher.cpp:36-54 | `get_fuses` sends the three fuse reads in order, stores the three replies, and leaves `cmd` = `{50, 08, 00, 00}`. |
| Flasher.Programmer.TryFuses | lib/atmega328_flasher/src/atmega328_flasher.cpp:60-82 | One attempt sends the three fuse writes and then `get_fuses`, and yields the read-back. |
| Flasher.Programmer.SetFuses | lib/atmega328_flasher/src/atmega328_flasher.cpp:56-101 | `set_fuses` sends `FuseAttempts` attempts and returns 0 if and only if one of them read back the values. |
| Flasher.Programmer.EnableProgramMode | lib/atmega328_flasher/src/atmega328_flasher.cpp:103-130 | Sends `{AC, 53, cmd[2], cmd[3]}` `EnableTries` times and returns 0 if and only if the part echoed within 65 tries. |
| Flasher.Programmer.ReadSignature | lib/atmega328_flasher/src/atmega328_flasher.cpp:160-166 | Sends `{30, 00, i, 00}` for i = 0, 1, 2 and stores the three replies. |
| Flasher.Programmer.WriteFlash | lib/atmega328_flasher/src/atmega328_flasher.cpp:225-263 | The write loop sends exactly `WriteTrace` of `flash_mem`. |
| Flasher.Programmer.VerifyFlash | lib/atmega328_flasher/src/atmega328_flasher.cpp:265-294 | The verify loop reads addresses up to and including the first mismatch, and returns -1 if and only if there is one. |
| Flasher.Programmer.CheckFuses | lib/atmega328_flasher/src/atmega328_flasher.cpp:296-306 | The drift check reads the fuses, rewrites them only if they changed, and returns what `EnsureFuses` says. |
| Flasher.Programmer.SetBaseline | lib/atmega328_flasher/src/atmega328_flasher.cpp:186-195 | The fuse baseline does what `EnsureFuses` says. On success the baseline holds the desired fuses and `cmd[2..4)` are zero, as the chip erase needs. |
| Flasher.Programmer.BurnImage | lib/atmega328_flasher/src/atmega328_flasher.cpp:225-306 | Write loop, verify loop and drift check together end as `Burning` says. |
| Flasher.Programmer.ProgramImage | lib/atmega328_flasher/src/atmega328_flasher.cpp:215-306 | Decoding into `flash_mem` and burning end as `Programming` says, with the decode error handled as intended. |
| Flasher.Programmer.FlashFile | lib/atmega328_flasher/src/atmega328_flasher.cpp:132-315 | `flash_file` returns the status, sends the commands, and leaves in `flash_mem` exactly what `FlashSession` gives for the part, the file and the previous buffer contents. |
| Flasher.AttemptJudged | lib/atmega328_flasher/src/atmega328_flasher.cpp:83-90 | Judging one `set_fuses` attempt: a match ends with success, and a third miss ends with failure. |
| Flasher.ReadJudged | lib/atmega328_flasher/src/atmega328_flasher.cpp:282-293 | A byte that reads back correctly leaves the first mismatch to the bytes after it. |

## Left out

- The hardware and the file system are not modelled:
  - `SPI.begin`, `SPI.beginTransaction`, `SPI.transferBytes` and `SPI.end`
    are abstracted as a `Device` function from the command history to the
    answer;
  - `SPIFFS.begin`, `SPIFFS.exists`, `SPIFFS.open` and `File::close` are
    abstracted as a file that is `None` or its contents;
  - `pinMode`, `digitalWrite`, `delay` and every `Serial.print` are
    dropped, along with the reset pin and the timing.
- HexLines.ReadLine: it returns the characters read as a C string. The
  source's `fgets` never stores a NUL after them, so the `strlen` in
  `ihex2b` can run on into characters that an earlier, longer line left in
  the uninitialised buffer. That reuse of stale buffer contents is not
  modelled.
- HexDecode.Stripped: a line that starts with a NUL byte has `strlen` 0,
  and the source then reads `buffer[-1]`. That out-of-bounds read is not
  modelled: the model strips nothing there. In both, the line does not
  start with `:` and is skipped.
- HexDecode.AddressRecordEffect: the source forms the base address with
  `<<` on `int`, which overflows (undefined behaviour) when `data[0] >=
  0x80` for a type 4 record. The model takes the 32-bit unsigned value
  that the assignment to `unsigned int` yields on the target.
- HexDecode.ApplyRecord applies the intended bounds test `FitsInMemory`,
  not the 32-bit test the source writes (`BoundsCheckAsWritten`). The two
  differ only for a record whose end wraps past 2^32; see Findings.
- HexDecode.DataRecordEffect, HexDecode.DispatchRecord, HexDecode.Ihex2b
  and HexDecode.Decode inherit that intended test from `ApplyRecord`.
- IspProtocol.Programming, IspProtocol.FlashSession,
  Flasher.Programmer.ProgramImage and Flasher.Programmer.FlashFile
  decode with `Decode`, and so with the intended bounds test too.
- HexDecode.DataRecordsRoundTrip covers files of data records without
  address records, decoded with `fileoffset` 0, the only offset
  `flash_file` passes. Files with address records are covered only by the
  worked example `ExtendedLinearAddressExample`.
- IspProtocol.SessionSucceeds covers a part that already holds the
  desired fuses. When `set_fuses` has to run first,
  `FusesWrittenOnlyWhenDifferent` states the fuse step, but no lemma
  follows that path to the end of the session.
- `strtoul` follows newlib's base-16 rules: leading white space, a sign,
  an optional `0x`, and at least one digit. A field is at most four
  characters wide, so the overflow clamp of `strtoul` is not modelled.
- Flasher.Programmer.FlashFile: `flash_file` has no `return` on its
  success path. The model returns 0 there.
- Flasher.Programmer.Send writes all four bytes of `cmd`, while the source
  assigns only some of them. In every use, the bytes it leaves alone
  already hold the values written (proved where the sequence depends on
  it, for example `cmd[2..4)` before the chip erase).
- Helper methods: `flash_file` is one function in the source. The model
  splits it into `SetBaseline`, `BurnImage`, `CheckFuses`, `ProgramImage`,
  `ReadSignature`, `WriteFlash` and `VerifyFlash`, and it splits each
  `set_fuses` attempt into `TryFuses`. Together they send the same
  commands in the same order.
- `lib/atmega328_flasher/src/atmega328_flasher.h` holds only declarations.
  `src/main.cpp` and `src/pindefs.h` are not part of this model.

## Findings

| source | as written | input that shows it | evidently intended | confidence | as-written member | corrected member |
|---|---|---|---|---|---|---|
| lib/atmega328_flasher/src/hex_file_reader.h:210-211 | `nextaddr + ihex.reclen > memsize` is computed in 32-bit `unsigned int`, so the end of a record near 0xFFFFFFFF wraps past zero and passes the test | `:02000004FFFFFC` then `:01FFFF00AB56`: `nextaddr` is 0xFFFFFFFF, the end wraps to 0, and the byte is written outside `memory` | refuse every record whose last byte lies beyond `memsize` | not executed | HexDecode.BoundsCheckAsWritten, HexDecode.WrappedBoundsCheckAdmits | HexDecode.FitsInMemory, HexDecode.WrapExampleRejected, HexDecode.Decode |
| lib/atmega328_flasher/src/atmega328_flasher.cpp:215-221 | `ihex2b` returns `uint16_t`, so its `-1` arrives as 65535, and `size < 0` on the `uint32_t` size never holds | any file that fails to decode, e.g. one without records: `size` is 65535, and the write and verify loops read `flash_mem` past its 32768 bytes | give up with -1 when decoding fails | not executed | IspProtocol.SizeAsWritten, IspProtocol.SizeCheckNeverFires | IspProtocol.Programming, IspProtocol.DecodeFailureAborts |
