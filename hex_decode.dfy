/** `ihex2b`: reads a HEX file line by line and lays the data records out
    in a memory buffer of `memsize` bytes, following extended segment and
    extended linear address records, until an end-of-file record or the
    end of the file. */
module HexDecode {
  import opened Basics
  import opened HexRecord
  import opened HexLines

  /** The ways `ihex2b` gives up; each carries what its message prints.
      `line` is `lineno`, a `uint16_t` counting every line read. */
  datatype DecodeError =
    | InvalidRecord(line: Word16)
    | ChecksumMismatch(line: Word16, stated: Byte, computed: Byte)
    | BelowFileOffset(line: Word16, address: Word32)
    | OutOfRange(line: Word16, address: Word32)
    | UnknownRecordType(line: Word16, rectyp: Byte)
    | NoValidRecord

  /** The variables of `ihex2b` that live from one line to the next:
      `scratch` is `ihex.data`, whose bytes stay from earlier records, and
      `image` the contents of `memory`. */
  datatype Decoder = Decoder(lineno: Word16, baseaddr: Word32, maxaddr: Word32, scratch: seq<Byte>, image: seq<Byte>)

  /** After one line: go on with the next line, or stop with a result and
      the memory contents at that point. */
  datatype Step = Continue(d: Decoder) | Finish(result: Result<Word16, DecodeError>, image: seq<Byte>)

  /** What `ihex2b` returns, and what `memory` then holds. */
  datatype Outcome = Outcome(result: Result<Word16, DecodeError>, image: seq<Byte>)

  /** The invariant `ihex2b` keeps: a 256-byte data buffer, a memory buffer
      of at least `memsize` bytes, and no data recorded beyond `memsize`. */
  predicate Valid(d: Decoder, memsize: Word16) {
    |d.scratch| == MaxData && memsize <= |d.image| && d.maxaddr <= memsize
  }

  function Initial(image: seq<Byte>, junk: seq<Byte>): Decoder {
    Decoder(0, 0, 0, junk, image)
  }

  // ---------------------------------------------------------------------
  // From the `fgets` buffer to the text of the record

  /** The C string in the buffer: everything before the first NUL. */
  function CString(buf: seq<char>): (s: seq<char>)
    ensures |s| <= |buf| && s == buf[..|s|] && '\0' !in s
    ensures |s| < |buf| ==> buf[|s|] == '\0'
  {
    if buf == [] || buf[0] == '\0' then [] else [buf[0]] + CString(buf[1..])
  }

  /** `len = strlen(buffer)`, then one trailing `\n` replaced by NUL. */
  function Stripped(buf: seq<char>): (s: seq<char>)
    ensures '\0' !in s && s <= buf
    ensures |s| < |CString(buf)| ==> CString(buf) == s + ['\n']
    ensures |s| >= |CString(buf)| ==> s == CString(buf)
  {
    var c := CString(buf);
    if |c| > 0 && c[|c| - 1] == '\n' then c[..|c| - 1] else c
  }

  // ---------------------------------------------------------------------
  // Addresses

  /** `(data[0] << 8 | data[1]) << 4`, the extended segment address. */
  function SegmentBase(d0: Byte, d1: Byte): Word32 {
    (d0 * 256 + d1) * 16
  }

  /** `(data[0] << 8 | data[1]) << 16`, the extended linear address. */
  function LinearBase(d0: Byte, d1: Byte): Word32 {
    (d0 * 256 + d1) * 0x1_0000
  }

  /** `nextaddr = ihex.loadofs + baseaddr - fileoffset` in `unsigned int`. */
  function NextAddr(loadofs: Word32, baseaddr: Word32, fileoffset: Word32): Word32 {
    (loadofs + baseaddr - fileoffset) % 0x1_0000_0000
  }

  /** The bounds test as the source writes it: `nextaddr + ihex.reclen` is
      computed in 32-bit unsigned arithmetic, so it can wrap past zero.
      True when the record is let through. */
  function BoundsCheckAsWritten(next: Word32, reclen: Byte, memsize: Word16): bool {
    (next + reclen) % 0x1_0000_0000 <= memsize
  }

  /** The bounds test as intended: the record's last byte lies inside the
      buffer. True when the record is let through. */
  function FitsInMemory(next: Word32, reclen: Byte, memsize: Word16): bool {
    next + reclen <= memsize
  }

  /** `image` with `data` written at `at`. */
  function Splice(image: seq<Byte>, at: nat, data: seq<Byte>): (r: seq<Byte>)
    requires at + |data| <= |image|
    ensures |r| == |image|
  {
    image[..at] + data + image[at + |data|..]
  }

  // ---------------------------------------------------------------------
  // One line, and the whole file

  /** The `switch (ihex.rectyp)` of `ihex2b` for a record that parsed and
      whose checksum matched; `d.scratch` already holds its data. */
  function ApplyRecord(d: Decoder, r: Record, memsize: Word16, fileoffset: Word32): (s: Step)
    requires Valid(d, memsize) && |r.data| == r.reclen
    ensures s.Finish? ==> s.image == d.image
    ensures s.Finish? && s.result.Ok? ==> r.rectyp == 1 && s.result.value == d.maxaddr
    ensures s.Continue? ==> s.d.lineno == d.lineno && s.d.scratch == d.scratch && |s.d.image| == |d.image|
  {
    if r.rectyp == 0 then
      if fileoffset != 0 && d.baseaddr < fileoffset then
        Finish(Err(BelowFileOffset(d.lineno, d.baseaddr)), d.image)
      else
        var next := NextAddr(r.loadofs, d.baseaddr, fileoffset);
        if !FitsInMemory(next, r.reclen, memsize) then
          Finish(Err(OutOfRange(d.lineno, (next + r.reclen) % 0x1_0000_0000)), d.image)
        else
          var end := next + r.reclen;
          Continue(d.(image := Splice(d.image, next, r.data), maxaddr := if end > d.maxaddr then end else d.maxaddr))
    else if r.rectyp == 1 then
      Finish(Ok(d.maxaddr % 0x1_0000), d.image)
    else if r.rectyp == 2 then
      Continue(d.(baseaddr := SegmentBase(d.scratch[0], d.scratch[1])))
    else if r.rectyp == 4 then
      Continue(d.(baseaddr := LinearBase(d.scratch[0], d.scratch[1])))
    else if r.rectyp == 3 || r.rectyp == 5 then
      Continue(d)
    else
      Finish(Err(UnknownRecordType(d.lineno, r.rectyp)), d.image)
  }

  /** What `ihex2b` does once `ihex_readrec` has run on a line: give up on
      an unreadable record or a checksum mismatch, otherwise copy the
      record's data into `ihex.data` and act on the record. */
  function ApplyParsed(d: Decoder, parsed: Option<Record>, memsize: Word16, fileoffset: Word32): Step
    requires Valid(d, memsize)
    requires parsed.Some? ==> |parsed.value.data| == parsed.value.reclen
  {
    if parsed.None? then Finish(Err(InvalidRecord(d.lineno)), d.image)
    else
      var r := parsed.value;
      if Checksum(r) != r.cksum then Finish(Err(ChecksumMismatch(d.lineno, r.cksum, Checksum(r))), d.image)
      else ApplyRecord(d.(scratch := r.data + d.scratch[r.reclen..]), r, memsize, fileoffset)
  }

  /** What a line is to `ihex2b`: skipped (empty, or not starting with
      `:`), or a record line with what `ihex_readrec` made of it. */
  datatype Line = Skipped | RecordLine(parsed: Option<Record>)

  /** Strip the line, look at its first character, and read the record. */
  function Classify(raw: seq<char>): (l: Line)
    ensures l.RecordLine? && l.parsed.Some? ==> |l.parsed.value.data| == l.parsed.value.reclen
  {
    var text := Stripped(raw);
    if |text| == 0 || text[0] != ':' then Skipped else RecordLine(ParseRecord(text))
  }

  function Classified(lines: seq<seq<char>>): (ls: seq<Line>)
    ensures |ls| == |lines|
  {
    if lines == [] then [] else [Classify(lines[0])] + Classified(lines[1..])
  }

  /** One pass of `ihex2b`'s loop: `lineno` counts every line read. */
  function ApplyLine(d: Decoder, line: Line, memsize: Word16, fileoffset: Word32): (s: Step)
    requires Valid(d, memsize)
    requires line.RecordLine? && line.parsed.Some? ==> |line.parsed.value.data| == line.parsed.value.reclen
    ensures s.Finish? ==> s.image == d.image && line.RecordLine?
    ensures s.Finish? && s.result.Ok? ==>
      line.parsed.Some? && line.parsed.value.rectyp == 1 && s.result.value == d.maxaddr
    ensures s.Continue? ==> s.d.lineno == (d.lineno + 1) % 0x1_0000
  {
    var d1 := d.(lineno := (d.lineno + 1) % 0x1_0000);
    match line
    case Skipped => Continue(d1)
    case RecordLine(parsed) => ApplyParsed(d1, parsed, memsize, fileoffset)
  }

  /** A line list as `Classified` produces it. */
  predicate Readable(lines: seq<Line>) {
    forall i :: 0 <= i < |lines| && lines[i].RecordLine? && lines[i].parsed.Some? ==>
      |lines[i].parsed.value.data| == lines[i].parsed.value.reclen
  }

  /** What is left of `ihex2b` when the lines `lines` are still to come. */
  function Run(lines: seq<Line>, d: Decoder, memsize: Word16, fileoffset: Word32): (o: Outcome)
    requires Valid(d, memsize) && Readable(lines)
    ensures |o.image| == |d.image|
    decreases |lines|
  {
    if lines == [] then
      Outcome(if d.maxaddr == 0 then Err(NoValidRecord) else Ok(d.maxaddr % 0x1_0000), d.image)
    else
      ApplyLinePreserves(d, lines[0], memsize, fileoffset);
      match ApplyLine(d, lines[0], memsize, fileoffset)
      case Finish(result, image) => Outcome(result, image)
      case Continue(next) => Run(lines[1..], next, memsize, fileoffset)
  }

  /** `ihex2b(inf, memory, memsize, fileoffset)` on the file `file`, with
      `image` the contents of `memory` before the call and `junk` those of
      the uninitialised `ihex.data`. */
  function Decode(file: seq<char>, image: seq<Byte>, memsize: Word16, fileoffset: Word32, junk: seq<Byte>): (o: Outcome)
    requires memsize <= |image| && |junk| == MaxData
    ensures KeepsTail(image, o.image, memsize)
    ensures o.result.Ok? ==> o.result.value <= memsize
  {
    var lines := Classified(Lines(file, 0));
    ClassifiedReadable(Lines(file, 0));
    RunStaysInMemory(lines, Initial(image, junk), memsize, fileoffset);
    Run(lines, Initial(image, junk), memsize, fileoffset)
  }

  lemma {:induction false} ClassifiedReadable(lines: seq<seq<char>>)
    ensures Readable(Classified(lines))
  {
    if lines != [] {
      ClassifiedReadable(lines[1..]);
      var ls := Classified(lines);
      forall i | 0 <= i < |ls| && ls[i].RecordLine? && ls[i].parsed.Some?
        ensures |ls[i].parsed.value.data| == ls[i].parsed.value.reclen
      {
        if i > 0 {
          assert ls[i] == Classified(lines[1..])[i - 1];
        }
      }
    }
  }

  // ---------------------------------------------------------------------
  // The invariant

  /** `after` is `before` with at most the first `memsize` bytes changed. */
  predicate KeepsTail(before: seq<Byte>, after: seq<Byte>, memsize: nat) {
    |after| == |before| && forall k :: memsize <= k < |before| ==> after[k] == before[k]
  }

  /** The pointwise effect of writing `data` at `at`. */
  lemma SpliceAt(image: seq<Byte>, at: nat, data: seq<Byte>, k: nat)
    requires at + |data| <= |image| && k < |image|
    ensures Splice(image, at, data)[k] == if at <= k < at + |data| then data[k - at] else image[k]
  {
  }

  lemma ApplyRecordPreserves(d: Decoder, r: Record, memsize: Word16, fileoffset: Word32)
    requires Valid(d, memsize) && |r.data| == r.reclen
    ensures ApplyRecord(d, r, memsize, fileoffset).Continue? ==>
      Valid(ApplyRecord(d, r, memsize, fileoffset).d, memsize)
      && KeepsTail(d.image, ApplyRecord(d, r, memsize, fileoffset).d.image, memsize)
    ensures ApplyRecord(d, r, memsize, fileoffset).Finish? ==>
      KeepsTail(d.image, ApplyRecord(d, r, memsize, fileoffset).image, memsize)
  {
    if r.rectyp == 0 && (fileoffset == 0 || d.baseaddr >= fileoffset) {
      var next := NextAddr(r.loadofs, d.baseaddr, fileoffset);
      if FitsInMemory(next, r.reclen, memsize) {
        forall k | memsize <= k < |d.image|
          ensures Splice(d.image, next, r.data)[k] == d.image[k]
        {
          SpliceAt(d.image, next, r.data, k);
        }
      }
    }
  }

  lemma ApplyParsedPreserves(d: Decoder, parsed: Option<Record>, memsize: Word16, fileoffset: Word32)
    requires Valid(d, memsize)
    requires parsed.Some? ==> |parsed.value.data| == parsed.value.reclen
    ensures ApplyParsed(d, parsed, memsize, fileoffset).Continue? ==>
      Valid(ApplyParsed(d, parsed, memsize, fileoffset).d, memsize)
      && KeepsTail(d.image, ApplyParsed(d, parsed, memsize, fileoffset).d.image, memsize)
    ensures ApplyParsed(d, parsed, memsize, fileoffset).Finish? ==>
      KeepsTail(d.image, ApplyParsed(d, parsed, memsize, fileoffset).image, memsize)
  {
    if parsed.Some? && Checksum(parsed.value) == parsed.value.cksum {
      var r := parsed.value;
      ApplyRecordPreserves(d.(scratch := r.data + d.scratch[r.reclen..]), r, memsize, fileoffset);
    }
  }

  /** Every line keeps the invariant, and writes nothing at or beyond
      `memsize`. */
  lemma ApplyLinePreserves(d: Decoder, line: Line, memsize: Word16, fileoffset: Word32)
    requires Valid(d, memsize)
    requires line.RecordLine? && line.parsed.Some? ==> |line.parsed.value.data| == line.parsed.value.reclen
    ensures ApplyLine(d, line, memsize, fileoffset).Continue? ==>
      Valid(ApplyLine(d, line, memsize, fileoffset).d, memsize)
      && KeepsTail(d.image, ApplyLine(d, line, memsize, fileoffset).d.image, memsize)
    ensures ApplyLine(d, line, memsize, fileoffset).Finish? ==>
      KeepsTail(d.image, ApplyLine(d, line, memsize, fileoffset).image, memsize)
  {
    if line.RecordLine? {
      ApplyParsedPreserves(d.(lineno := (d.lineno + 1) % 0x1_0000), line.parsed, memsize, fileoffset);
    }
  }

  /** Whatever the lines hold, the rest of `ihex2b` writes nothing at or
      beyond `memsize`, and the address it returns lies within the buffer:
      every line keeps `maxaddr <= memsize`. */
  lemma {:induction false} RunStaysInMemory(lines: seq<Line>, d: Decoder, memsize: Word16, fileoffset: Word32)
    requires Valid(d, memsize) && Readable(lines)
    ensures KeepsTail(d.image, Run(lines, d, memsize, fileoffset).image, memsize)
    ensures Run(lines, d, memsize, fileoffset).result.Ok? ==> Run(lines, d, memsize, fileoffset).result.value <= memsize
    decreases |lines|
  {
    if lines != [] {
      ApplyLinePreserves(d, lines[0], memsize, fileoffset);
      var step := ApplyLine(d, lines[0], memsize, fileoffset);
      if step.Continue? {
        RunStaysInMemory(lines[1..], step.d, memsize, fileoffset);
      }
    }
  }

  // ---------------------------------------------------------------------
  // Effects of one record

  /** A data record is stored exactly when it is not below `fileoffset`
      and its last byte lies inside the buffer; it then writes exactly
      `memory[nextaddr..nextaddr + reclen)`, changes no other byte and
      raises `maxaddr` to the end of the record if that is higher. */
  lemma DataRecordEffect(d: Decoder, r: Record, memsize: Word16, fileoffset: Word32)
    requires Valid(d, memsize) && |r.data| == r.reclen && r.rectyp == 0
    ensures var next := NextAddr(r.loadofs, d.baseaddr, fileoffset);
      var step := ApplyRecord(d, r, memsize, fileoffset);
      && (step.Continue? <==> (fileoffset == 0 || d.baseaddr >= fileoffset) && next + r.reclen <= memsize)
      && (step.Continue? ==>
            |step.d.image| == |d.image|
            && (forall k :: 0 <= k < |d.image| ==>
                  step.d.image[k] == if next <= k < next + r.reclen then r.data[k - next] else d.image[k])
            && step.d.maxaddr == (if next + r.reclen > d.maxaddr then next + r.reclen else d.maxaddr)
            && step.d.baseaddr == d.baseaddr && step.d.lineno == d.lineno && step.d.scratch == d.scratch)
      && (step.Finish? ==>
            step.image == d.image
            && step.result == Err(if fileoffset != 0 && d.baseaddr < fileoffset
                                  then BelowFileOffset(d.lineno, d.baseaddr)
                                  else OutOfRange(d.lineno, (next + r.reclen) % 0x1_0000_0000)))
  {
    var next := NextAddr(r.loadofs, d.baseaddr, fileoffset);
    if (fileoffset == 0 || d.baseaddr >= fileoffset) && next + r.reclen <= memsize {
      forall k | 0 <= k < |d.image| {
        SpliceAt(d.image, next, r.data, k);
      }
    }
  }

  /** An extended segment (type 2) or extended linear (type 4) address
      record sets `baseaddr` from the first two bytes of `ihex.data` and
      changes nothing else. Those are the record's own bytes when it has
      two; otherwise bytes left over from earlier records (or from before
      the first one) take their place. */
  lemma AddressRecordEffect(d: Decoder, r: Record, memsize: Word16, fileoffset: Word32)
    requires Valid(d, memsize) && |r.data| == r.reclen && Checksum(r) == r.cksum
    requires r.rectyp == 2 || r.rectyp == 4
    ensures var step := ApplyParsed(d, Some(r), memsize, fileoffset);
      var d0: int := if r.reclen >= 1 then r.data[0] else d.scratch[0];
      var d1: int := if r.reclen >= 2 then r.data[1] else d.scratch[1];
      var scale: int := if r.rectyp == 2 then 16 else 0x1_0000;
      step.Continue? && step.d.baseaddr == (d0 * 256 + d1) * scale
      && step.d.image == d.image && step.d.maxaddr == d.maxaddr && step.d.lineno == d.lineno
  {
  }

  /** Start address records (types 3 and 5) change nothing; a type above 5
      stops the decode and leaves memory as it was. */
  lemma OtherRecordTypes(d: Decoder, r: Record, memsize: Word16, fileoffset: Word32)
    requires Valid(d, memsize) && |r.data| == r.reclen && Checksum(r) == r.cksum
    requires r.rectyp == 3 || r.rectyp >= 5
    ensures var step := ApplyParsed(d, Some(r), memsize, fileoffset);
      (r.rectyp == 3 || r.rectyp == 5 ==>
        step.Continue? && step.d.baseaddr == d.baseaddr && step.d.maxaddr == d.maxaddr && step.d.image == d.image)
      && (r.rectyp > 5 ==> step == Finish(Err(UnknownRecordType(d.lineno, r.rectyp)), d.image))
  {
  }

  /** A line that cannot be read as a record, or whose checksum does not
      match, stops the decode before anything of it is applied. */
  lemma RejectedRecordAborts(d: Decoder, parsed: Option<Record>, memsize: Word16, fileoffset: Word32)
    requires Valid(d, memsize)
    requires parsed.Some? ==> |parsed.value.data| == parsed.value.reclen
    requires parsed.None? || Checksum(parsed.value) != parsed.value.cksum
    ensures ApplyParsed(d, parsed, memsize, fileoffset).Finish?
    ensures ApplyParsed(d, parsed, memsize, fileoffset).image == d.image
    ensures ApplyParsed(d, parsed, memsize, fileoffset).result.Err?
    ensures parsed.None? ==> ApplyParsed(d, parsed, memsize, fileoffset).result.error == InvalidRecord(d.lineno)
    ensures parsed.Some? ==>
      ApplyParsed(d, parsed, memsize, fileoffset).result.error == ChecksumMismatch(d.lineno, parsed.value.cksum, Checksum(parsed.value))
  {
  }

  /** A line that is empty or does not start with `:` only counts as a line. */
  lemma SkippedLineChangesNothing(d: Decoder, raw: seq<char>, memsize: Word16, fileoffset: Word32)
    requires Valid(d, memsize)
    requires |Stripped(raw)| == 0 || Stripped(raw)[0] != ':'
    ensures ApplyLine(d, Classify(raw), memsize, fileoffset) == Continue(d.(lineno := (d.lineno + 1) % 0x1_0000))
  {
  }

  /** An end-of-file record ends the decode with `maxaddr`: nothing after
      it is read. */
  lemma EndOfFileIgnoresRest(d: Decoder, r: Record, rest: seq<Line>, memsize: Word16, fileoffset: Word32)
    requires Valid(d, memsize) && |r.data| == r.reclen && Checksum(r) == r.cksum && r.rectyp == 1
    requires Readable(rest)
    ensures Readable([RecordLine(Some(r))] + rest)
    ensures Run([RecordLine(Some(r))] + rest, d, memsize, fileoffset) == Outcome(Ok(d.maxaddr), d.image)
  {
    var lines := [RecordLine(Some(r))] + rest;
    assert forall i :: 1 <= i < |lines| ==> lines[i] == rest[i - 1];
  }

  /** Without an end-of-file record the decode succeeds with `maxaddr` only
      if some data was stored: a file of skipped lines leaves memory as it
      was and fails when nothing had been stored before. */
  lemma {:induction false} OnlySkippedLines(lines: seq<Line>, d: Decoder, memsize: Word16, fileoffset: Word32)
    requires Valid(d, memsize) && forall i :: 0 <= i < |lines| ==> lines[i] == Skipped
    ensures Readable(lines)
    ensures Run(lines, d, memsize, fileoffset)
      == Outcome(if d.maxaddr == 0 then Err(NoValidRecord) else Ok(d.maxaddr), d.image)
    decreases |lines|
  {
    if lines != [] {
      OnlySkippedLines(lines[1..], d.(lineno := (d.lineno + 1) % 0x1_0000), memsize, fileoffset);
    }
  }

  // ---------------------------------------------------------------------
  // Files written record by record

  lemma {:induction false} CStringWhole(s: seq<char>)
    requires '\0' !in s
    ensures CString(s) == s
    decreases |s|
  {
    if s != [] {
      CStringWhole(s[1..]);
      assert s == [s[0]] + s[1..];
    }
  }

  /** A written record followed by `\n` is read back as that record. */
  lemma ClassifyEncoded(r: Record)
    requires WellFormed(r)
    ensures Classify(EncodeRecord(r) + ['\n']) == RecordLine(Some(r))
  {
    var line := EncodeRecord(r);
    var raw := line + ['\n'];
    EncodedChars(r);
    assert forall i :: 0 <= i < |raw| ==> raw[i] != '\0' by {
      forall i | 0 <= i < |raw|
        ensures raw[i] != '\0'
      {
        if 1 <= i < |line| {
          assert IsHexDigit(line[i]);
        }
      }
    }
    CStringWhole(raw);
    assert raw[..|raw| - 1] == line;
    EncodeThenParse(r, []);
    assert line + [] == line;
  }

  /** Records a HEX file writer can put on lines that fit the buffer. */
  predicate Writable(rs: seq<Record>) {
    forall i :: 0 <= i < |rs| ==> WellFormed(rs[i]) && rs[i].reclen <= 121
  }

  function Written(rs: seq<Record>): (ls: seq<seq<char>>)
    requires Writable(rs)
    ensures |ls| == |rs|
  {
    if rs == [] then [] else [EncodeRecord(rs[0])] + Written(rs[1..])
  }

  function AsLines(rs: seq<Record>): (ls: seq<Line>)
    ensures |ls| == |rs|
  {
    if rs == [] then [] else [RecordLine(Some(rs[0]))] + AsLines(rs[1..])
  }

  lemma AsLinesOfTwo(r1: Record, r2: Record)
    ensures AsLines([r1, r2]) == [RecordLine(Some(r1)), RecordLine(Some(r2))]
  {
    assert [r1, r2][1..] == [r2];
    assert [r2][1..] == [];
  }

  /** One written record fits the line buffer and holds no `\n`. */
  lemma EncodedShort(r: Record)
    requires WellFormed(r) && r.reclen <= 121
    ensures |EncodeRecord(r)| < MaxLineLen - 1 && '\n' !in EncodeRecord(r)
  {
    var line := EncodeRecord(r);
    EncodedChars(r);
    assert forall k :: 0 <= k < |line| ==> line[k] != '\n' by {
      forall k | 0 <= k < |line|
        ensures line[k] != '\n'
      {
        if k > 0 {
          assert IsHexDigit(line[k]);
        }
      }
    }
  }

  lemma {:induction false} WrittenShort(rs: seq<Record>)
    requires Writable(rs)
    ensures ShortLines(Written(rs))
    decreases |rs|
  {
    if rs != [] {
      WrittenShort(rs[1..]);
      EncodedShort(rs[0]);
      var ls := Written(rs);
      forall i | 0 <= i < |ls|
        ensures |ls[i]| < MaxLineLen - 1 && '\n' !in ls[i]
      {
        if i > 0 {
          assert ls[i] == Written(rs[1..])[i - 1];
        }
      }
    }
  }

  lemma {:induction false} ClassifyWritten(rs: seq<Record>)
    requires Writable(rs)
    ensures Classified(WithNewlines(Written(rs))) == AsLines(rs)
    decreases |rs|
  {
    if rs != [] {
      ClassifyWritten(rs[1..]);
      ClassifyEncoded(rs[0]);
      assert WithNewlines(Written(rs))[1..] == WithNewlines(Written(rs[1..]));
    }
  }

  /** Decoding a file that a HEX writer produced record by record, each
      record on its own line, runs the decoder on exactly those records. */
  lemma DecodeWritten(rs: seq<Record>, image: seq<Byte>, memsize: Word16, fileoffset: Word32, junk: seq<Byte>)
    requires Writable(rs) && memsize <= |image| && |junk| == MaxData
    ensures Readable(AsLines(rs))
    ensures Decode(Terminated(Written(rs)), image, memsize, fileoffset, junk)
      == Run(AsLines(rs), Initial(image, junk), memsize, fileoffset)
  {
    WrittenShort(rs);
    LinesOfTerminated(Written(rs));
    ClassifyWritten(rs);
    ClassifiedReadable(WithNewlines(Written(rs)));
  }

  /** The end-of-file record `:00000001FF`. */
  const EndOfFile := Record(0, 0, 1, [], 0xFF)

  lemma RunDataThenEnd(r: Record, image: seq<Byte>, memsize: Word16, junk: seq<Byte>)
    requires WellFormed(r) && r.rectyp == 0 && Checksum(r) == r.cksum
    requires r.loadofs + r.reclen <= memsize <= |image| && |junk| == MaxData
    ensures Readable(AsLines([r, EndOfFile]))
    ensures Run(AsLines([r, EndOfFile]), Initial(image, junk), memsize, 0)
      == Outcome(Ok(r.loadofs + r.reclen), Splice(image, r.loadofs, r.data))
  {
    var lines := AsLines([r, EndOfFile]);
    AsLinesOfTwo(r, EndOfFile);
    var d := Initial(image, junk);
    var end := r.loadofs + r.reclen;
    var d1 := Decoder(1, 0, end, r.data + junk[r.reclen..], Splice(image, r.loadofs, r.data));
    assert NextAddr(r.loadofs, 0, 0) == r.loadofs;
    assert ApplyLine(d, lines[0], memsize, 0) == Continue(d1);
    RunStep(lines, d, memsize, 0);
    assert ApplyLine(d1, lines[1], memsize, 0) == Finish(Ok(end), d1.image);
    RunStep(lines[1..], d1, memsize, 0);
  }

  /** Round trip: a file holding one data record (with a correct checksum)
      and the end-of-file record decodes to the record's bytes at the
      record's address, nothing else changed, and returns the address
      just past them. */
  lemma DataRecordRoundTrip(r: Record, image: seq<Byte>, memsize: Word16, junk: seq<Byte>)
    requires WellFormed(r) && r.reclen <= 121 && r.rectyp == 0 && Checksum(r) == r.cksum
    requires r.loadofs + r.reclen <= memsize <= |image| && |junk| == MaxData
    ensures Writable([r, EndOfFile])
    ensures Decode(Terminated(Written([r, EndOfFile])), image, memsize, 0, junk)
      == Outcome(Ok(r.loadofs + r.reclen), Splice(image, r.loadofs, r.data))
  {
    DecodeWritten([r, EndOfFile], image, memsize, 0, junk);
    RunDataThenEnd(r, image, memsize, junk);
  }

  /** Data records as a HEX writer emits them for a buffer of `memsize`
      bytes: a correct checksum, a line that fits the buffer, and an end at
      or below `memsize`. */
  predicate DataRecords(rs: seq<Record>, memsize: nat) {
    forall i :: 0 <= i < |rs| ==>
      WellFormed(rs[i]) && rs[i].reclen <= 121 && rs[i].rectyp == 0
      && Checksum(rs[i]) == rs[i].cksum && rs[i].loadofs + rs[i].reclen <= memsize
  }

  /** `image` after the data of `rs` is written, first record first. */
  function StoreAll(image: seq<Byte>, rs: seq<Record>): (after: seq<Byte>)
    requires forall i :: 0 <= i < |rs| ==> rs[i].loadofs + |rs[i].data| <= |image|
    ensures |after| == |image|
    decreases |rs|
  {
    if rs == [] then image else StoreAll(Splice(image, rs[0].loadofs, rs[0].data), rs[1..])
  }

  /** The `maxaddr` of `ihex2b` after the data records `rs`, from `m`. */
  function HighestEnd(m: nat, rs: seq<Record>): nat
    decreases |rs|
  {
    if rs == [] then m
    else
      var end := rs[0].loadofs + rs[0].reclen;
      HighestEnd(if end > m then end else m, rs[1..])
  }

  /** What address `k` holds after the records `rs`: the byte of the last
      record covering it, or else its old byte. */
  function LastByte(image: seq<Byte>, rs: seq<Record>, k: nat): Byte
    requires k < |image| && forall i :: 0 <= i < |rs| ==> |rs[i].data| == rs[i].reclen
    decreases |rs|
  {
    if rs == [] then image[k]
    else
      var r := rs[|rs| - 1];
      if r.loadofs <= k < r.loadofs + r.reclen then r.data[k - r.loadofs]
      else LastByte(image, rs[..|rs| - 1], k)
  }

  /** `HighestEnd` is the largest of `m` and the records' ends. */
  lemma {:induction false} HighestEndIsMax(m: nat, rs: seq<Record>)
    ensures HighestEnd(m, rs) >= m
    ensures forall i :: 0 <= i < |rs| ==> HighestEnd(m, rs) >= rs[i].loadofs + rs[i].reclen
    ensures HighestEnd(m, rs) == m || exists i :: 0 <= i < |rs| && HighestEnd(m, rs) == rs[i].loadofs + rs[i].reclen
    decreases |rs|
  {
    if rs != [] {
      var end := rs[0].loadofs + rs[0].reclen;
      var m1 := if end > m then end else m;
      HighestEndIsMax(m1, rs[1..]);
      forall i | 1 <= i < |rs|
        ensures HighestEnd(m, rs) >= rs[i].loadofs + rs[i].reclen
      {
        assert rs[i] == rs[1..][i - 1];
      }
      if HighestEnd(m, rs) != m && HighestEnd(m, rs) != end {
        var j :| 0 <= j < |rs[1..]| && HighestEnd(m1, rs[1..]) == rs[1..][j].loadofs + rs[1..][j].reclen;
        assert rs[1..][j] == rs[j + 1];
      }
    }
  }

  lemma {:induction false} StoreAllLast(image: seq<Byte>, rs: seq<Record>, r: Record)
    requires forall i :: 0 <= i < |rs| ==> rs[i].loadofs + |rs[i].data| <= |image|
    requires r.loadofs + |r.data| <= |image|
    ensures StoreAll(image, rs + [r]) == Splice(StoreAll(image, rs), r.loadofs, r.data)
    decreases |rs|
  {
    if rs == [] {
      assert [] + [r] == [r];
      assert [r][1..] == [];
    } else {
      assert (rs + [r])[0] == rs[0];
      assert (rs + [r])[1..] == rs[1..] + [r];
      StoreAllLast(Splice(image, rs[0].loadofs, rs[0].data), rs[1..], r);
    }
  }

  /** `StoreAll` agrees with `LastByte` at every address. */
  lemma {:induction false} StoreAllAt(image: seq<Byte>, rs: seq<Record>, k: nat)
    requires k < |image|
    requires forall i :: 0 <= i < |rs| ==> |rs[i].data| == rs[i].reclen && rs[i].loadofs + rs[i].reclen <= |image|
    ensures StoreAll(image, rs)[k] == LastByte(image, rs, k)
    decreases |rs|
  {
    if rs != [] {
      var init := rs[..|rs| - 1];
      var r := rs[|rs| - 1];
      assert rs == init + [r];
      StoreAllLast(image, init, r);
      StoreAllAt(image, init, k);
      SpliceAt(StoreAll(image, init), r.loadofs, r.data, k);
    }
  }

  /** The decoder after a data record `r` at base address 0: `r` stored
      at its own address and `maxaddr` raised to its end. */
  function AfterData(d: Decoder, r: Record): Decoder
    requires r.reclen <= |d.scratch| && r.loadofs + |r.data| <= |d.image| && r.loadofs + r.reclen < 0x1_0000_0000
  {
    var end := r.loadofs + r.reclen;
    Decoder((d.lineno + 1) % 0x1_0000, 0, if end > d.maxaddr then end else d.maxaddr,
            r.data + d.scratch[r.reclen..], Splice(d.image, r.loadofs, r.data))
  }

  /** One data record with a correct checksum that ends inside the buffer,
      read with base address 0 and no file offset, goes on as `AfterData`. */
  lemma DataLine(d: Decoder, r: Record, memsize: Word16)
    requires Valid(d, memsize) && d.baseaddr == 0
    requires WellFormed(r) && r.rectyp == 0 && Checksum(r) == r.cksum && r.loadofs + r.reclen <= memsize
    ensures ApplyLine(d, RecordLine(Some(r)), memsize, 0) == Continue(AfterData(d, r))
  {
    assert NextAddr(r.loadofs, 0, 0) == r.loadofs;
  }

  lemma AsLinesThenEnd(rs: seq<Record>)
    requires rs != []
    ensures AsLines(rs + [EndOfFile])[0] == RecordLine(Some(rs[0]))
    ensures AsLines(rs + [EndOfFile])[1..] == AsLines(rs[1..] + [EndOfFile])
  {
    assert (rs + [EndOfFile])[1..] == rs[1..] + [EndOfFile];
  }

  /** The first data record of `rs`: `Run`, `StoreAll` and `HighestEnd`
      all go on from `AfterData`. */
  lemma RunDataStep(rs: seq<Record>, d: Decoder, memsize: Word16)
    requires Valid(d, memsize) && d.baseaddr == 0 && DataRecords(rs, memsize) && rs != []
    requires Readable(AsLines(rs + [EndOfFile]))
    ensures Valid(AfterData(d, rs[0]), memsize) && DataRecords(rs[1..], memsize)
    ensures Readable(AsLines(rs[1..] + [EndOfFile]))
    ensures Run(AsLines(rs + [EndOfFile]), d, memsize, 0)
      == Run(AsLines(rs[1..] + [EndOfFile]), AfterData(d, rs[0]), memsize, 0)
    ensures StoreAll(d.image, rs) == StoreAll(AfterData(d, rs[0]).image, rs[1..])
    ensures HighestEnd(d.maxaddr, rs) == HighestEnd(AfterData(d, rs[0]).maxaddr, rs[1..])
  {
    var lines := AsLines(rs + [EndOfFile]);
    AsLinesThenEnd(rs);
    DataLine(d, rs[0], memsize);
    RunStep(lines, d, memsize, 0);
    assert DataRecords(rs[1..], memsize) by {
      forall i | 0 <= i < |rs[1..]|
        ensures rs[1..][i] == rs[i + 1]
      {
      }
    }
  }

  /** The loop of `ihex2b` over data records and then the end-of-file
      record, from a state with base address 0 and no file offset. */
  lemma {:induction false} RunDataRecords(rs: seq<Record>, d: Decoder, memsize: Word16)
    requires Valid(d, memsize) && d.baseaddr == 0 && DataRecords(rs, memsize)
    requires Readable(AsLines(rs + [EndOfFile]))
    ensures Run(AsLines(rs + [EndOfFile]), d, memsize, 0).result.Ok?
    ensures Run(AsLines(rs + [EndOfFile]), d, memsize, 0).result.value == HighestEnd(d.maxaddr, rs)
    ensures Run(AsLines(rs + [EndOfFile]), d, memsize, 0).image == StoreAll(d.image, rs)
    decreases |rs|
  {
    if rs == [] {
      var lines := AsLines(rs + [EndOfFile]);
      assert rs + [EndOfFile] == [EndOfFile];
      assert lines[0] == RecordLine(Some(EndOfFile));
      RunStep(lines, d, memsize, 0);
    } else {
      RunDataStep(rs, d, memsize);
      RunDataRecords(rs[1..], AfterData(d, rs[0]), memsize);
    }
  }

  /** Round trip: a file of data records (each with a correct checksum and
      ending inside the buffer) followed by the end-of-file record decodes
      to the highest record end, and every address then holds the byte of
      the last record covering it, or else its old byte. */
  lemma DataRecordsRoundTrip(rs: seq<Record>, image: seq<Byte>, memsize: Word16, junk: seq<Byte>)
    requires DataRecords(rs, memsize) && memsize <= |image| && |junk| == MaxData
    ensures Writable(rs + [EndOfFile])
    ensures Decode(Terminated(Written(rs + [EndOfFile])), image, memsize, 0, junk).result.Ok?
    ensures Decode(Terminated(Written(rs + [EndOfFile])), image, memsize, 0, junk).result.value == HighestEnd(0, rs)
    ensures |Decode(Terminated(Written(rs + [EndOfFile])), image, memsize, 0, junk).image| == |image|
    ensures forall k :: 0 <= k < |image| ==>
      Decode(Terminated(Written(rs + [EndOfFile])), image, memsize, 0, junk).image[k] == LastByte(image, rs, k)
  {
    var all := rs + [EndOfFile];
    forall i | 0 <= i < |all|
      ensures WellFormed(all[i]) && all[i].reclen <= 121
    {
      if i < |rs| {
        assert all[i] == rs[i];
      }
    }
    DecodeWritten(all, image, memsize, 0, junk);
    RunDataRecords(rs, Initial(image, junk), memsize);
    forall k | 0 <= k < |image|
      ensures StoreAll(image, rs)[k] == LastByte(image, rs, k)
    {
      StoreAllAt(image, rs, k);
    }
  }

  lemma RunMismatchFirst(r: Record, rest: seq<Record>, d: Decoder, memsize: Word16, fileoffset: Word32)
    requires |r.data| == r.reclen && Checksum(r) != r.cksum && Valid(d, memsize) && d.lineno == 0
    requires Readable(AsLines([r] + rest))
    ensures Run(AsLines([r] + rest), d, memsize, fileoffset)
      == Outcome(Err(ChecksumMismatch(1, r.cksum, Checksum(r))), d.image)
  {
    var lines := AsLines([r] + rest);
    assert lines[0] == RecordLine(Some(r));
    RunStep(lines, d, memsize, fileoffset);
  }

  /** A record whose checksum does not match stops the decode at that line
      with both checksums reported and memory unchanged. */
  lemma ChecksumMismatchStops(r: Record, rest: seq<Record>, image: seq<Byte>, memsize: Word16, fileoffset: Word32, junk: seq<Byte>)
    requires WellFormed(r) && r.reclen <= 121 && Checksum(r) != r.cksum && Writable(rest)
    requires memsize <= |image| && |junk| == MaxData
    ensures Writable([r] + rest)
    ensures Decode(Terminated(Written([r] + rest)), image, memsize, fileoffset, junk)
      == Outcome(Err(ChecksumMismatch(1, r.cksum, Checksum(r))), image)
  {
    var rs := [r] + rest;
    assert forall i :: 1 <= i < |rs| ==> rs[i] == rest[i - 1];
    DecodeWritten(rs, image, memsize, fileoffset, junk);
    RunMismatchFirst(r, rest, Initial(image, junk), memsize, fileoffset);
  }

  /** The records of `:020000040001F9` and `:01001000AB44`. */
  const LinearExample := [Record(2, 0, 4, [0x00, 0x01], 0xF9), Record(1, 0x10, 0, [0xAB], 0x44)]

  lemma LinearAddressRecordText()
    ensures EncodeRecord(LinearExample[0]) == ":020000040001F9"
    ensures Checksum(LinearExample[0]) == 0xF9
  {
    assert HexBytes([0x00, 0x01]) == Hex2(0x00) + Hex2(0x01) + HexBytes([]) by {
      assert [0x00, 0x01][1..] == [0x01];
      assert [0x01][1..] == [];
    }
    assert Hex2(0x00) == "00" && Hex2(0x01) == "01" && Hex2(0x02) == "02" && Hex2(0x04) == "04" && Hex2(0xF9) == "F9";
    assert Hex4(0) == "0000";
    assert [0x00, 0x01][..1] == [0x00];
    assert [0x00][..0] == [];
  }

  lemma LinearDataRecordText()
    ensures EncodeRecord(LinearExample[1]) == ":01001000AB44"
    ensures Checksum(LinearExample[1]) == 0x44
  {
    assert HexBytes([0xAB]) == Hex2(0xAB) + HexBytes([]) by {
      assert [0xAB][1..] == [];
    }
    assert Hex2(0x01) == "01" && Hex2(0x00) == "00" && Hex2(0xAB) == "AB" && Hex2(0x44) == "44";
    assert Hex4(0x10) == "0010";
    assert [0xAB][..0] == [];
  }

  lemma LinearExampleText()
    ensures Writable(LinearExample)
    ensures Written(LinearExample) == [":020000040001F9", ":01001000AB44"]
  {
    LinearAddressRecordText();
    LinearDataRecordText();
    assert LinearExample[1..] == [LinearExample[1]];
    assert LinearExample[1..][1..] == [];
  }

  lemma RunLinearExample(image: seq<Byte>, junk: seq<Byte>, fileoffset: Word32)
    requires |image| == 0x8000 && |junk| == MaxData && (fileoffset == 0 || fileoffset == 0x1_0000)
    ensures Readable(AsLines(LinearExample))
    ensures Run(AsLines(LinearExample), Initial(image, junk), 0x8000, fileoffset)
      == if fileoffset == 0 then Outcome(Err(OutOfRange(2, 0x1_0011)), image)
         else Outcome(Ok(0x11), image[0x10 := 0xAB])
  {
    var lines := AsLines(LinearExample);
    AsLinesOfTwo(LinearExample[0], LinearExample[1]);
    LinearAddressRecordText();
    LinearDataRecordText();
    var d := Initial(image, junk);
    RunStep(lines, d, 0x8000, fileoffset);
    assert ApplyLine(d, lines[0], 0x8000, fileoffset).Continue?;
    var d1 := ApplyLine(d, lines[0], 0x8000, fileoffset).d;
    assert d1.baseaddr == 0x1_0000;
    RunStep(lines[1..], d1, 0x8000, fileoffset);
    if fileoffset != 0 {
      assert Splice(image, 0x10, [0xAB]) == image[0x10 := 0xAB];
    }
  }

  /** An extended linear address record `:020000040001F9` followed by the
      data record `:01001000AB44`: the data belongs at absolute address
      0x10010. With a file offset of 0x10000 it is stored at
      `memory[0x10]`; without one it lies beyond any 16-bit buffer. */
  lemma ExtendedLinearAddressExample(image: seq<Byte>, junk: seq<Byte>)
    requires |image| == 0x8000 && |junk| == MaxData
    ensures Writable(LinearExample)
    ensures Decode(Terminated(Written(LinearExample)), image, 0x8000, 0x1_0000, junk) == Outcome(Ok(0x11), image[0x10 := 0xAB])
    ensures Decode(Terminated(Written(LinearExample)), image, 0x8000, 0, junk) == Outcome(Err(OutOfRange(2, 0x1_0011)), image)
  {
    LinearExampleText();
    DecodeWritten(LinearExample, image, 0x8000, 0x1_0000, junk);
    DecodeWritten(LinearExample, image, 0x8000, 0, junk);
    RunLinearExample(image, junk, 0x1_0000);
    RunLinearExample(image, junk, 0);
  }

  // ---------------------------------------------------------------------
  // The wrapping bounds test

  /** The records of `:02000004FFFFFC` (upper address 0xFFFF) and
      `:01FFFF00AB56` (one byte at offset 0xFFFF). */
  const WrapExample := [Record(2, 0, 4, [0xFF, 0xFF], 0xFC), Record(1, 0xFFFF, 0, [0xAB], 0x56)]

  /** The second record's byte belongs at 0xFFFFFFFF. Its end,
      0xFFFFFFFF + 1, wraps to 0 in 32 bits, so the test as written lets it
      through to `memory[nextaddr]`, far outside a 32768-byte buffer; the
      intended test refuses it. */
  lemma WrappedBoundsCheckAdmits()
    ensures NextAddr(WrapExample[1].loadofs, LinearBase(0xFF, 0xFF), 0) == 0xFFFF_FFFF
    ensures BoundsCheckAsWritten(0xFFFF_FFFF, WrapExample[1].reclen, 0x8000)
    ensures !FitsInMemory(0xFFFF_FFFF, WrapExample[1].reclen, 0x8000)
  {
  }

  lemma WrapExampleText()
    ensures Checksum(WrapExample[0]) == 0xFC && Checksum(WrapExample[1]) == 0x56
    ensures Writable(WrapExample)
  {
    assert [0xFF, 0xFF][..1] == [0xFF];
    assert [0xFF][..0] == [];
    assert [0xAB][..0] == [];
  }

  /** With the intended test the decoder stops at the second line, reports
      the wrapped end address and leaves memory as it was. */
  lemma RunWrapExample(image: seq<Byte>, junk: seq<Byte>)
    requires |image| == 0x8000 && |junk| == MaxData
    ensures Readable(AsLines(WrapExample))
    ensures Run(AsLines(WrapExample), Initial(image, junk), 0x8000, 0) == Outcome(Err(OutOfRange(2, 0)), image)
  {
    var lines := AsLines(WrapExample);
    AsLinesOfTwo(WrapExample[0], WrapExample[1]);
    WrapExampleText();
    var d := Initial(image, junk);
    RunStep(lines, d, 0x8000, 0);
    assert ApplyLine(d, lines[0], 0x8000, 0).Continue?;
    var d1 := ApplyLine(d, lines[0], 0x8000, 0).d;
    assert d1.baseaddr == 0xFFFF_0000;
    RunStep(lines[1..], d1, 0x8000, 0);
  }

  lemma WrapExampleRejected(image: seq<Byte>, junk: seq<Byte>)
    requires |image| == 0x8000 && |junk| == MaxData
    ensures Writable(WrapExample)
    ensures Decode(Terminated(Written(WrapExample)), image, 0x8000, 0, junk) == Outcome(Err(OutOfRange(2, 0)), image)
  {
    WrapExampleText();
    DecodeWritten(WrapExample, image, 0x8000, 0, junk);
    RunWrapExample(image, junk);
  }

  // ---------------------------------------------------------------------
  // The decoder as the source runs it

  lemma RunStep(lines: seq<Line>, d: Decoder, memsize: Word16, fileoffset: Word32)
    requires Valid(d, memsize) && Readable(lines) && lines != []
    ensures ApplyLine(d, lines[0], memsize, fileoffset).Continue? ==>
      Valid(ApplyLine(d, lines[0], memsize, fileoffset).d, memsize)
      && Run(lines, d, memsize, fileoffset) == Run(lines[1..], ApplyLine(d, lines[0], memsize, fileoffset).d, memsize, fileoffset)
    ensures ApplyLine(d, lines[0], memsize, fileoffset).Finish? ==>
      Run(lines, d, memsize, fileoffset)
        == Outcome(ApplyLine(d, lines[0], memsize, fileoffset).result, ApplyLine(d, lines[0], memsize, fileoffset).image)
  {
    ApplyLinePreserves(d, lines[0], memsize, fileoffset);
  }

  /** `RunStep` on lines before they are classified. */
  lemma LineStep(lines: seq<seq<char>>, d: Decoder, memsize: Word16, fileoffset: Word32)
    requires lines != [] && Valid(d, memsize) && Readable(Classified(lines))
    ensures Readable(Classified(lines[1..]))
    ensures ApplyLine(d, Classify(lines[0]), memsize, fileoffset).Continue? ==>
      Valid(ApplyLine(d, Classify(lines[0]), memsize, fileoffset).d, memsize)
      && Run(Classified(lines), d, memsize, fileoffset)
        == Run(Classified(lines[1..]), ApplyLine(d, Classify(lines[0]), memsize, fileoffset).d, memsize, fileoffset)
    ensures ApplyLine(d, Classify(lines[0]), memsize, fileoffset).Finish? ==>
      Run(Classified(lines), d, memsize, fileoffset)
        == Outcome(ApplyLine(d, Classify(lines[0]), memsize, fileoffset).result, ApplyLine(d, Classify(lines[0]), memsize, fileoffset).image)
  {
    ClassifiedReadable(lines[1..]);
    ClassifiedStep(lines);
    RunStep(Classified(lines), d, memsize, fileoffset);
  }

  lemma ClassifiedStep(lines: seq<seq<char>>)
    requires lines != []
    ensures Classified(lines)[0] == Classify(lines[0]) && Classified(lines)[1..] == Classified(lines[1..])
  {
  }

  /** The copy loop `memory[nextaddr + i] = ihex.data[i]`. */
  method CopyData(memory: array<Byte>, at: nat, data: seq<Byte>)
    requires at + |data| <= memory.Length
    modifies memory
    ensures memory[..] == Splice(old(memory[..]), at, data)
  {
    ghost var before := memory[..];
    for i := 0 to |data|
      invariant forall k :: 0 <= k < memory.Length ==>
        memory[k] == if at <= k < at + i then data[k - at] else before[k]
    {
      memory[at + i] := data[i];
    }
    forall k | 0 <= k < memory.Length
      ensures memory[..][k] == Splice(before, at, data)[k]
    {
      SpliceAt(before, at, data, k);
    }
  }

  /** The `switch (ihex.rectyp)` of `ihex2b` on the variables it updates:
      `stop` is the value `ihex2b` returns, when it returns. */
  method DispatchRecord(memory: array<Byte>, lineno: Word16, baseaddr: Word32, maxaddr: Word32, data: seq<Byte>,
                        ihex: Record, memsize: Word16, fileoffset: Word32)
    returns (stop: Option<Result<Word16, DecodeError>>, newBase: Word32, newMax: Word32)
    requires Valid(Decoder(lineno, baseaddr, maxaddr, data, memory[..]), memsize) && |ihex.data| == ihex.reclen
    modifies memory
    ensures stop.Some? ==>
      ApplyRecord(Decoder(lineno, baseaddr, maxaddr, data, old(memory[..])), ihex, memsize, fileoffset)
        == Finish(stop.value, memory[..])
    ensures stop.None? ==>
      ApplyRecord(Decoder(lineno, baseaddr, maxaddr, data, old(memory[..])), ihex, memsize, fileoffset)
        == Continue(Decoder(lineno, newBase, newMax, data, memory[..]))
  {
    newBase, newMax := baseaddr, maxaddr;
    stop := None;
    if ihex.rectyp == 0 {
      if fileoffset != 0 && baseaddr < fileoffset {
        return Some(Err(BelowFileOffset(lineno, baseaddr))), newBase, newMax;
      }
      var nextaddr := NextAddr(ihex.loadofs, baseaddr, fileoffset);
      if nextaddr + ihex.reclen > memsize {
        return Some(Err(OutOfRange(lineno, (nextaddr + ihex.reclen) % 0x1_0000_0000))), newBase, newMax;
      }
      CopyData(memory, nextaddr, ihex.data);
      if nextaddr + ihex.reclen > maxaddr {
        newMax := nextaddr + ihex.reclen;
      }
    } else if ihex.rectyp == 1 {
      stop := Some(Ok(maxaddr % 0x1_0000));
    } else if ihex.rectyp == 2 {
      newBase := SegmentBase(data[0], data[1]);
    } else if ihex.rectyp == 4 {
      newBase := LinearBase(data[0], data[1]);
    } else if ihex.rectyp == 3 || ihex.rectyp == 5 {
    } else {
      stop := Some(Err(UnknownRecordType(lineno, ihex.rectyp)));
    }
  }

  /** One pass of `ihex2b`'s loop after `fgets` has read `line`. */
  method ProcessLine(memory: array<Byte>, line: seq<char>, lineno: Word16, baseaddr: Word32, maxaddr: Word32,
                     data: seq<Byte>, memsize: Word16, fileoffset: Word32)
    returns (stop: Option<Result<Word16, DecodeError>>, newLineno: Word16, newBase: Word32, newMax: Word32, newData: seq<Byte>)
    requires Valid(Decoder(lineno, baseaddr, maxaddr, data, memory[..]), memsize)
    modifies memory
    ensures stop.Some? ==>
      ApplyLine(Decoder(lineno, baseaddr, maxaddr, data, old(memory[..])), Classify(line), memsize, fileoffset)
        == Finish(stop.value, memory[..])
    ensures stop.None? ==>
      ApplyLine(Decoder(lineno, baseaddr, maxaddr, data, old(memory[..])), Classify(line), memsize, fileoffset)
        == Continue(Decoder(newLineno, newBase, newMax, newData, memory[..]))
  {
    newLineno, newBase, newMax, newData := (lineno + 1) % 0x1_0000, baseaddr, maxaddr, data;
    stop := None;
    var text := Stripped(line);
    if |text| == 0 || text[0] != ':' {
      return;
    }
    var rc, ihex := ReadRec(text);
    if rc < 0 {
      return Some(Err(InvalidRecord(newLineno))), newLineno, newBase, newMax, newData;
    } else if rc != ihex.cksum {
      return Some(Err(ChecksumMismatch(newLineno, ihex.cksum, rc))), newLineno, newBase, newMax, newData;
    }
    newData := ihex.data + data[ihex.reclen..];
    stop, newBase, newMax := DispatchRecord(memory, newLineno, baseaddr, maxaddr, newData, ihex, memsize, fileoffset);
  }

  /** `ihex2b`: `memory` is updated in place, `junk` stands for the bytes
      the uninitialised `ihex.data` starts with. */
  method Ihex2b(file: seq<char>, memory: array<Byte>, memsize: Word16, fileoffset: Word32, junk: seq<Byte>)
    returns (result: Result<Word16, DecodeError>)
    requires memsize <= memory.Length && |junk| == MaxData
    modifies memory
    ensures Outcome(result, memory[..]) == Decode(file, old(memory[..]), memsize, fileoffset, junk)
  {
    ghost var spec := Decode(file, memory[..], memsize, fileoffset, junk);
    ClassifiedReadable(Lines(file, 0));
    var lineno: Word16 := 0;
    var baseaddr: Word32 := 0;
    var maxaddr: Word32 := 0;
    var data := junk;
    var pos := 0;
    while true
      invariant pos <= |file|
      invariant Valid(Decoder(lineno, baseaddr, maxaddr, data, memory[..]), memsize)
      invariant Readable(Classified(Lines(file, pos)))
      invariant spec == Run(Classified(Lines(file, pos)), Decoder(lineno, baseaddr, maxaddr, data, memory[..]), memsize, fileoffset)
      decreases |file| - pos
    {
      var buffer, next := ReadLine(file, pos);
      if buffer.None? {
        break;
      }
      LinesAt(file, pos, next, buffer.value);
      LineStep(Lines(file, pos), Decoder(lineno, baseaddr, maxaddr, data, memory[..]), memsize, fileoffset);
      pos := next;
      var stop;
      stop, lineno, baseaddr, maxaddr, data := ProcessLine(memory, buffer.value, lineno, baseaddr, maxaddr, data, memsize, fileoffset);
      if stop.Some? {
        return stop.value;
      }
    }
    if maxaddr == 0 {
      return Err(NoValidRecord);
    }
    return Ok(maxaddr % 0x1_0000);
  }
}
