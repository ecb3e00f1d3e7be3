/** One Intel HEX record line: the fixed-width hexadecimal fields, their
    parsing by `strtoul`, and the two's-complement checksum (`ihex_readrec`). */
module HexRecord {
  import opened Basics

  /** `IHEX_MAXDATA`: capacity of a record's data buffer. */
  const MaxData: nat := 256

  /** Characters of the fixed fields: `:` LL AAAA TT, then the data pairs. */
  const HeaderChars: nat := 9

  // ---------------------------------------------------------------------
  // Characters and hexadecimal digits

  /** `isspace` in the C locale. */
  predicate IsSpace(c: char) {
    c == ' ' || c == '\t' || c == '\n' || c == '\r' || c == 11 as char || c == 12 as char
  }

  predicate IsHexDigit(c: char) {
    ('0' <= c <= '9') || ('a' <= c <= 'f') || ('A' <= c <= 'F')
  }

  function DigitValue(c: char): (v: nat)
    requires IsHexDigit(c)
    ensures v < 16
  {
    if '0' <= c <= '9' then c as int - '0' as int
    else if 'a' <= c <= 'f' then c as int - 'a' as int + 10
    else c as int - 'A' as int + 10
  }

  /** Upper-case digit for `d`, as a HEX file writer emits it. */
  function HexChar(d: nat): (c: char)
    requires d < 16
    ensures IsHexDigit(c) && DigitValue(c) == d
  {
    if d < 10 then (48 + d) as char else (55 + d) as char
  }

  predicate AllHex(s: seq<char>) {
    forall i :: 0 <= i < |s| ==> IsHexDigit(s[i])
  }

  function Pow16(n: nat): (p: nat)
    ensures p >= 1
  {
    if n == 0 then 1 else 16 * Pow16(n - 1)
  }

  /** Value of a string of hexadecimal digits, most significant first. */
  function HexValue(s: seq<char>): (v: nat)
    requires AllHex(s)
    ensures v < Pow16(|s|)
  {
    if s == [] then 0 else HexValue(s[..|s| - 1]) * 16 + DigitValue(s[|s| - 1])
  }

  /** Pow16 grows with the number of digits. */
  lemma {:induction false} Pow16Monotone(m: nat, n: nat)
    requires m <= n
    ensures Pow16(m) <= Pow16(n)
  {
    if m < n {
      Pow16Monotone(m, n - 1);
    }
  }

  lemma Pow16Eight()
    ensures Pow16(8) == 0x1_0000_0000
  {
    assert Pow16(2) == 0x100;
    assert Pow16(4) == 0x1_0000;
    assert Pow16(6) == 0x100_0000;
  }

  /** Unsigned negation modulo 2^32, as `acc = -acc` does to an `unsigned long`. */
  function Negate32(n: Word32): Word32
  {
    if n == 0 then 0 else 0x1_0000_0000 - n
  }

  /** The digit loop of `strtoul` in base 16 over the whole of `v`: one or
      more hexadecimal digits and nothing else, accumulated most significant
      first. */
  function Digits(v: seq<char>): (r: Option<Word32>)
    requires |v| <= 8
    ensures r.Some? ==> v != [] && IsHexDigit(v[|v| - 1]) && r.value < Pow16(|v|)
  {
    if v == [] then None
    else if !IsHexDigit(v[|v| - 1]) then None
    else if |v| == 1 then Some(DigitValue(v[0]))
    else match Digits(v[..|v| - 1])
      case None => None
      case Some(acc) =>
        Pow16Monotone(|v|, 8);
        Pow16Eight();
        Some(acc * 16 + DigitValue(v[|v| - 1]))
  }

  /** `strtoul` after the sign: an optional `0x`/`0X` prefix, then the digits. */
  function Unsigned(u: seq<char>): (r: Option<Word32>)
    requires |u| <= 8
  {
    if |u| >= 2 && u[0] == '0' && (u[1] == 'x' || u[1] == 'X') then Digits(u[2..]) else Digits(u)
  }

  /** newlib's `strtoul(buf, &e, 16)` together with the caller's test
      `e == buf || *e != 0`: white space, an optional sign, an optional
      `0x`/`0X` prefix, then one or more hexadecimal digits that must reach
      the end of `s`. A `-` negates modulo 2^32 (`unsigned long` is 32 bits
      wide). Fields are at most four characters wide, so the value never
      overflows and the overflow clamp of `strtoul` does not arise. */
  function StrToUL(s: seq<char>): (r: Option<Word32>)
    requires |s| <= 8
  {
    if s == [] then None
    else if IsSpace(s[0]) then StrToUL(s[1..])
    else if s[0] == '-' then
      match Unsigned(s[1..])
      case None => None
      case Some(n) => Some(Negate32(n))
    else if s[0] == '+' then Unsigned(s[1..])
    else Unsigned(s)
  }

  /** The digit loop computes the positional value of the digits. */
  lemma {:induction false} DigitsValue(v: seq<char>)
    requires 1 <= |v| <= 8 && AllHex(v)
    ensures Digits(v) == Some(HexValue(v))
  {
    if |v| > 1 {
      DigitsValue(v[..|v| - 1]);
    }
  }

  /** A field made only of hexadecimal digits parses to its value. */
  lemma HexFieldAccepted(s: seq<char>)
    requires 1 <= |s| <= 8 && AllHex(s)
    ensures StrToUL(s) == Some(HexValue(s))
  {
    assert !IsSpace(s[0]) && s[0] != '-' && s[0] != '+';
    assert |s| >= 2 ==> s[1] != 'x' && s[1] != 'X';
    DigitsValue(s);
  }

  /** Whatever `strtoul` accepts as a whole field ends in a hexadecimal digit:
      a field whose last character is not one is rejected. */
  lemma {:induction false} AcceptedFieldEndsInDigit(s: seq<char>)
    requires |s| <= 8
    requires StrToUL(s).Some?
    ensures |s| > 0 && IsHexDigit(s[|s| - 1])
  {
    if IsSpace(s[0]) {
      AcceptedFieldEndsInDigit(s[1..]);
    } else if |s| >= 3 && (s[0] == '-' || s[0] == '+') && s[1] == '0' && (s[2] == 'x' || s[2] == 'X') {
      assert s[3..][|s[3..]| - 1] == s[|s| - 1];
    } else if s[0] == '-' || s[0] == '+' {
      assert s[1..][|s[1..]| - 1] == s[|s| - 1];
    } else if |s| >= 2 && s[0] == '0' && (s[1] == 'x' || s[1] == 'X') {
      assert s[2..][|s[2..]| - 1] == s[|s| - 1];
    }
  }

  /** The digits `strtoul` accepts after the sign: an optional `0x`/`0X`
      prefix, then one or more hexadecimal digits up to the end. */
  predicate UnsignedShape(u: seq<char>) {
    (|u| >= 1 && AllHex(u))
    || (|u| >= 3 && u[0] == '0' && (u[1] == 'x' || u[1] == 'X') && AllHex(u[2..]))
  }

  /** An optional `+` or `-`, then `UnsignedShape`. */
  predicate SignedShape(t: seq<char>) {
    UnsignedShape(t) || (|t| >= 1 && (t[0] == '+' || t[0] == '-') && UnsignedShape(t[1..]))
  }

  /** The first `i` characters of `s` are white space. */
  predicate SpacePrefix(s: seq<char>, i: nat)
    requires i <= |s|
  {
    forall k :: 0 <= k < i ==> IsSpace(s[k])
  }

  /** A field newlib's `strtoul` in base 16 reads to its very end: white
      space, an optional sign, an optional `0x`/`0X`, and at least one
      hexadecimal digit, with nothing after the digits. */
  predicate FieldShape(s: seq<char>) {
    exists i :: 0 <= i <= |s| && SpacePrefix(s, i) && SignedShape(s[i..])
  }

  /** The digit loop succeeds exactly on one or more hexadecimal digits. */
  lemma {:induction false} DigitsAccepts(v: seq<char>)
    requires |v| <= 8
    ensures Digits(v).Some? <==> |v| >= 1 && AllHex(v)
    decreases |v|
  {
    if |v| > 1 {
      var front := v[..|v| - 1];
      DigitsAccepts(front);
      if AllHex(front) && IsHexDigit(v[|v| - 1]) {
        forall i | 0 <= i < |v|
          ensures IsHexDigit(v[i])
        {
          if i < |v| - 1 {
            assert v[i] == front[i];
          }
        }
      }
      if AllHex(v) {
        assert forall i :: 0 <= i < |front| ==> front[i] == v[i];
      }
    }
  }

  lemma UnsignedAccepts(u: seq<char>)
    requires |u| <= 8
    ensures Unsigned(u).Some? <==> UnsignedShape(u)
  {
    if |u| >= 2 && u[0] == '0' && (u[1] == 'x' || u[1] == 'X') {
      DigitsAccepts(u[2..]);
      assert !IsHexDigit(u[1]);
    } else {
      DigitsAccepts(u);
    }
  }

  /** `strtoul` plus the caller's `e == buf || *e != 0` test accept a field
      exactly when it has newlib's shape: anything else, such as `G1`, a
      lone sign, a bare `0x` or a digit followed by other characters, makes
      `ihex_readrec` return -1. */
  lemma {:induction false} StrToULAccepts(s: seq<char>)
    requires |s| <= 8
    ensures StrToUL(s).Some? <==> FieldShape(s)
    decreases |s|
  {
    if s == [] {
    } else if IsSpace(s[0]) {
      var t := s[1..];
      StrToULAccepts(t);
      if FieldShape(t) {
        var i :| 0 <= i <= |t| && SpacePrefix(t, i) && SignedShape(t[i..]);
        assert t[i..] == s[i + 1..];
        assert forall k :: 1 <= k < i + 1 ==> s[k] == t[k - 1];
        assert SpacePrefix(s, i + 1);
      }
      if FieldShape(s) {
        var i :| 0 <= i <= |s| && SpacePrefix(s, i) && SignedShape(s[i..]);
        if i == 0 {
          assert s[0..] == s;
          assert !IsHexDigit(s[0]);
        } else {
          assert s[i..] == t[i - 1..];
          assert forall k :: 0 <= k < i - 1 ==> t[k] == s[k + 1];
          assert SpacePrefix(t, i - 1);
        }
      }
    } else {
      UnsignedAccepts(s);
      if s[0] == '-' || s[0] == '+' {
        UnsignedAccepts(s[1..]);
        assert !IsHexDigit(s[0]);
      }
      if FieldShape(s) {
        var i :| 0 <= i <= |s| && SpacePrefix(s, i) && SignedShape(s[i..]);
        assert i == 0;
        assert s[0..] == s;
      }
      if SignedShape(s) {
        assert SpacePrefix(s, 0) && s[0..] == s;
      }
    }
  }

  // ---------------------------------------------------------------------
  // Records

  /** `struct ihexrec`, with `data` holding the `reclen` bytes read. */
  datatype Record = Record(reclen: Byte, loadofs: Word32, rectyp: Byte, data: seq<Byte>, cksum: Byte)

  /** One fixed-width field at `offset`: None when the line ends before the
      field is complete or the field does not parse. */
  function Field(line: seq<char>, offset: nat, width: nat): Option<Word32>
    requires width <= 8
  {
    if offset + width > |line| then None else StrToUL(line[offset..offset + width])
  }

  function Prepend(prefix: seq<Byte>, rest: Option<seq<Byte>>): (r: Option<seq<Byte>>)
    ensures r.Some? <==> rest.Some?
    ensures r.Some? ==> r.value == prefix + rest.value
  {
    if rest.None? then None else Some(prefix + rest.value)
  }

  lemma PrependNil(r: Option<seq<Byte>>)
    ensures Prepend([], r) == r
  {
    if r.Some? {
      var e: seq<Byte> := [];
      assert e + r.value == r.value;
    }
  }

  lemma PrependAppend(a: seq<Byte>, b: seq<Byte>, r: Option<seq<Byte>>)
    ensures Prepend(a, Prepend(b, r)) == Prepend(a + b, r)
  {
    if r.Some? {
      assert a + (b + r.value) == (a + b) + r.value;
    }
  }

  /** The `n` data bytes starting at `offset`, each truncated to a byte. */
  function DataField(line: seq<char>, offset: nat, n: nat): (r: Option<seq<Byte>>)
    ensures r.Some? ==> |r.value| == n && (n > 0 ==> offset + 2 * n <= |line|)
    decreases n
  {
    if n == 0 then Some([])
    else
      match Field(line, offset, 2)
      case None => None
      case Some(b) => Prepend([b % 256], DataField(line, offset + 2, n - 1))
  }

  /** The record `ihex_readrec` reads from a line (the leading `:` is not
      examined), or None where it returns -1. A record is read only from a
      line long enough to hold all of its fields, `reclen` data bytes and
      the checksum: a line that ends before any field is complete is
      rejected. */
  function ParseRecord(line: seq<char>): (r: Option<Record>)
    ensures r.Some? ==> |r.value.data| == r.value.reclen && RecordChars(r.value.reclen) <= |line|
  {
    var reclen := Field(line, 1, 2);
    var loadofs := Field(line, 3, 4);
    var rectyp := Field(line, 7, 2);
    if reclen.None? || loadofs.None? || rectyp.None? then None
    else ParseBody(line, reclen.value % 256, loadofs.value, rectyp.value % 256)
  }

  /** The data bytes and the checksum field that follow the header fields. */
  function ParseBody(line: seq<char>, reclen: Byte, loadofs: Word32, rectyp: Byte): Option<Record> {
    var data := DataField(line, HeaderChars, reclen);
    var cksum := Field(line, HeaderChars + 2 * reclen, 2);
    if data.None? || cksum.None? then None
    else Some(Record(reclen, loadofs, rectyp, data.value, cksum.value % 256))
  }

  function Sum(s: seq<Byte>): nat {
    if s == [] then 0 else Sum(s[..|s| - 1]) + s[|s| - 1]
  }

  lemma SumAppend(s: seq<Byte>, b: Byte)
    ensures Sum(s + [b]) == Sum(s) + b
  {
    assert (s + [b])[..|s|] == s;
  }

  lemma NegatedLowByte(h: int, t: int)
    ensures (-((h % 256 + t) % 256)) % 256 == (-(h + t)) % 256
  {
  }

  /** Adding into an `unsigned char`. */
  function AddByte(c: Byte, b: Byte): Byte {
    (c + b) % 256
  }

  /** The running `unsigned char` sum: `c` plus the bytes of `s`, one at a time. */
  function ByteSum(c: Byte, s: seq<Byte>): Byte {
    if s == [] then c else AddByte(ByteSum(c, s[..|s| - 1]), s[|s| - 1])
  }

  lemma AddLowByte(x: int, b: int)
    ensures (x % 256 + b) % 256 == (x + b) % 256
  {
  }

  /** Summing byte by byte with wrap-around leaves the low byte of the true sum. */
  lemma {:induction false} ByteSumIsLowByte(c: Byte, s: seq<Byte>)
    ensures ByteSum(c, s) == (c + Sum(s)) % 256
  {
    if s != [] {
      ByteSumIsLowByte(c, s[..|s| - 1]);
      AddLowByte(c + Sum(s[..|s| - 1]), s[|s| - 1]);
    }
  }

  lemma ByteSumAppend(c: Byte, s: seq<Byte>, b: Byte)
    ensures ByteSum(c, s + [b]) == AddByte(ByteSum(c, s), b)
  {
    assert (s + [b])[..|s|] == s;
  }

  function HeaderSum(reclen: Byte, loadofs: Word32, rectyp: Byte): nat {
    reclen + loadofs / 256 % 256 + loadofs % 256 + rectyp
  }

  /** The value `ihex_readrec` returns on success: the two's complement of the
      low byte of the sum of all fields but the checksum. */
  function Checksum(r: Record): Byte {
    (-(HeaderSum(r.reclen, r.loadofs, r.rectyp) + Sum(r.data) as int)) % 256
  }

  /** Number of characters a record occupies, `:` included. */
  function RecordChars(reclen: nat): nat {
    HeaderChars + 2 * reclen + 2
  }

  /** One of the five identical steps of `ihex_readrec`: fail when the line
      ends before the field is complete, otherwise copy the field out and
      run `strtoul` over it. */
  method ReadField(rec: seq<char>, offset: nat, width: nat) returns (f: Option<Word32>)
    requires width <= 8
    ensures f == Field(rec, offset, width)
  {
    if offset + width > |rec| {
      return None;
    }
    f := StrToUL(rec[offset..offset + width]);
  }

  /** What one field step of `ihex_readrec` makes of a line: -1 when the
      line ends before the field is complete; otherwise the field is read
      exactly when it has newlib's shape, and a field of hexadecimal digits
      reads as their value. */
  lemma FieldStep(rec: seq<char>, offset: nat, width: nat)
    requires width <= 8
    ensures offset + width > |rec| ==> Field(rec, offset, width) == None
    ensures offset + width <= |rec| ==> (Field(rec, offset, width).Some? <==> FieldShape(rec[offset..offset + width]))
    ensures offset + width <= |rec| && width >= 1 && AllHex(rec[offset..offset + width]) ==>
      Field(rec, offset, width) == Some(HexValue(rec[offset..offset + width]))
  {
    if offset + width <= |rec| {
      var field := rec[offset..offset + width];
      StrToULAccepts(field);
      if width >= 1 && AllHex(field) {
        HexFieldAccepted(field);
      }
    }
  }

  /** The data loop of `ihex_readrec`: reads `n` byte fields from `offset`
      on, adding each byte to the running `unsigned char` checksum. */
  method ReadData(rec: seq<char>, offset0: nat, n: Byte, cksum0: Byte)
    returns (data: Option<seq<Byte>>, cksum: Byte)
    ensures data == DataField(rec, offset0, n)
    ensures data.Some? ==> cksum == ByteSum(cksum0, data.value)
  {
    var offset := offset0;
    var bytes: seq<Byte> := [];
    cksum := cksum0;
    var j := 0;
    PrependNil(DataField(rec, offset, n));
    while j < n
      invariant 0 <= j <= n && |bytes| == j && offset == offset0 + 2 * j
      invariant DataField(rec, offset0, n) == Prepend(bytes, DataField(rec, offset, n - j))
      invariant cksum == ByteSum(cksum0, bytes)
    {
      var f := ReadField(rec, offset, 2);
      if f.None? {
        assert DataField(rec, offset, n - j) == None;
        return None, cksum;
      }
      var b: Byte := f.value % 256;
      PrependAppend(bytes, [b], DataField(rec, offset + 2, n - j - 1));
      ByteSumAppend(cksum0, bytes, b);
      bytes := bytes + [b];
      cksum := AddByte(cksum, b);
      offset := offset + 2;
      j := j + 1;
    }
    assert bytes + [] == bytes;
    data := Some(bytes);
  }

  lemma BodyNeedsChecksumField(line: seq<char>, reclen: Byte, loadofs: Word32, rectyp: Byte)
    requires Field(line, HeaderChars + 2 * reclen, 2).None?
    ensures ParseBody(line, reclen, loadofs, rectyp) == None
  {
  }

  lemma BodyParsed(line: seq<char>, reclen: Byte, loadofs: Word32, rectyp: Byte, data: seq<Byte>, c: Word32)
    requires DataField(line, HeaderChars, reclen) == Some(data)
    requires Field(line, HeaderChars + 2 * reclen, 2) == Some(c)
    ensures ParseBody(line, reclen, loadofs, rectyp) == Some(Record(reclen, loadofs, rectyp, data, c % 256))
  {
  }

  /** The checksum accumulated byte by byte, negated, is the record's checksum. */
  lemma RunningChecksum(r: Record, cksum: Byte)
    requires cksum == ByteSum(HeaderSum(r.reclen, r.loadofs, r.rectyp) % 256, r.data)
    ensures (-(cksum as int)) % 256 == Checksum(r)
  {
    var h := HeaderSum(r.reclen, r.loadofs, r.rectyp);
    ByteSumIsLowByte(h % 256, r.data);
    NegatedLowByte(h, Sum(r.data));
  }

  /** `ihex_readrec`: advances an offset through the line, reads each field
      and accumulates the checksum in an `unsigned char`. */
  method ReadRec(rec: seq<char>) returns (rc: int, ihex: Record)
    ensures ParseRecord(rec).None? ==> rc == -1
    ensures ParseRecord(rec).Some? ==> ihex == ParseRecord(rec).value && rc == Checksum(ihex)
  {
    ihex := Record(0, 0, 0, [], 0);
    var offset := 1;

    var f := ReadField(rec, offset, 2);
    offset := offset + 2;
    if f.None? {
      assert ParseRecord(rec) == None;
      return -1, ihex;
    }
    var reclen: Byte := f.value % 256;

    f := ReadField(rec, offset, 4);
    offset := offset + 4;
    if f.None? {
      assert ParseRecord(rec) == None;
      return -1, ihex;
    }
    var loadofs: Word32 := f.value;

    f := ReadField(rec, offset, 2);
    offset := offset + 2;
    if f.None? {
      assert ParseRecord(rec) == None;
      return -1, ihex;
    }
    var rectyp: Byte := f.value % 256;

    assert offset == HeaderChars;
    assert ParseRecord(rec) == ParseBody(rec, reclen, loadofs, rectyp);
    var cksum: Byte := HeaderSum(reclen, loadofs, rectyp) % 256;
    var data;
    data, cksum := ReadData(rec, offset, reclen, cksum);
    if data.None? {
      assert ParseRecord(rec) == None;
      return -1, ihex;
    }
    offset := offset + 2 * reclen;

    f := ReadField(rec, offset, 2);
    if f.None? {
      BodyNeedsChecksumField(rec, reclen, loadofs, rectyp);
      return -1, ihex;
    }
    ihex := Record(reclen, loadofs, rectyp, data.value, f.value % 256);
    BodyParsed(rec, reclen, loadofs, rectyp, data.value, f.value);
    RunningChecksum(ihex, cksum);
    rc := (-(cksum as int)) % 256;
  }

  // ---------------------------------------------------------------------
  // What a parsed record says about its line

  /** Characters of the line outside the parsed fields do not matter. */
  lemma FieldExtend(line: seq<char>, more: seq<char>, offset: nat, width: nat)
    requires width <= 8 && offset + width <= |line|
    ensures Field(line + more, offset, width) == Field(line, offset, width)
  {
    assert (line + more)[offset..offset + width] == line[offset..offset + width];
  }

  lemma {:induction false} DataFieldExtend(line: seq<char>, more: seq<char>, offset: nat, n: nat)
    requires DataField(line, offset, n).Some?
    ensures DataField(line + more, offset, n) == DataField(line, offset, n)
    decreases n
  {
    if n > 0 {
      FieldExtend(line, more, offset, 2);
      DataFieldExtend(line, more, offset + 2, n - 1);
    }
  }

  /** Corollary: a line shorter than the eleven characters of an empty
      record never parses. */
  lemma ShortLineRejected(line: seq<char>)
    requires |line| < RecordChars(0)
    ensures ParseRecord(line) == None
  {
  }

  /** Whatever follows the checksum field (a `\r`, a comment, anything) does
      not change the record read from a line. */
  lemma TrailingCharsIgnored(line: seq<char>, more: seq<char>)
    requires ParseRecord(line).Some?
    ensures ParseRecord(line + more) == ParseRecord(line)
  {
    var r := ParseRecord(line).value;
    FieldExtend(line, more, 1, 2);
    FieldExtend(line, more, 3, 4);
    FieldExtend(line, more, 7, 2);
    assert ParseRecord(line) == ParseBody(line, r.reclen, r.loadofs, r.rectyp);
    BodyExtend(line, more, r.reclen, r.loadofs, r.rectyp);
  }

  lemma BodyExtend(line: seq<char>, more: seq<char>, reclen: Byte, loadofs: Word32, rectyp: Byte)
    requires ParseBody(line, reclen, loadofs, rectyp).Some?
    ensures ParseBody(line + more, reclen, loadofs, rectyp) == ParseBody(line, reclen, loadofs, rectyp)
  {
    DataFieldExtend(line, more, HeaderChars, reclen);
    FieldExtend(line, more, HeaderChars + 2 * reclen, 2);
  }

  lemma {:induction false} DataFieldDigits(line: seq<char>, offset: nat, n: nat)
    requires DataField(line, offset, n).Some?
    ensures forall k :: 0 <= k < n ==> IsHexDigit(line[offset + 2 * k + 1])
    decreases n
  {
    if n > 0 {
      AcceptedFieldEndsInDigit(line[offset..offset + 2]);
      DataFieldDigits(line, offset + 2, n - 1);
      forall k | 0 <= k < n
        ensures IsHexDigit(line[offset + 2 * k + 1])
      {
        if k > 0 {
          assert offset + 2 * k + 1 == (offset + 2) + 2 * (k - 1) + 1;
        }
      }
    }
  }

  /** Every field of a parsed record ends in a hexadecimal digit: a field
      whose last character is anything else makes `ihex_readrec` fail. */
  lemma FieldsEndInDigits(line: seq<char>, r: Record)
    requires ParseRecord(line) == Some(r)
    ensures IsHexDigit(line[2]) && IsHexDigit(line[6]) && IsHexDigit(line[8])
    ensures forall k :: 0 <= k <= r.reclen ==> IsHexDigit(line[HeaderChars + 2 * k + 1])
  {
    HeaderEndsInDigits(line);
    RecordParts(line);
    BodyEndsInDigits(line, r.reclen as nat);
  }

  lemma HeaderEndsInDigits(line: seq<char>)
    requires ParseRecord(line).Some?
    ensures IsHexDigit(line[2]) && IsHexDigit(line[6]) && IsHexDigit(line[8])
  {
    RecordParts(line);
    FieldEndsInDigit(line, 1, 2);
    FieldEndsInDigit(line, 3, 4);
    FieldEndsInDigit(line, 7, 2);
  }

  lemma BodyEndsInDigits(line: seq<char>, n: nat)
    requires DataField(line, HeaderChars, n).Some? && Field(line, HeaderChars + 2 * n, 2).Some?
    ensures forall k :: 0 <= k <= n ==> IsHexDigit(line[HeaderChars + 2 * k + 1])
  {
    DataFieldDigits(line, HeaderChars, n);
    var c := HeaderChars + 2 * n;
    FieldEndsInDigit(line, c, 2);
    assert c + 2 - 1 == HeaderChars + 2 * n + 1;
  }

  /** The fields a parsed record was read from. */
  lemma RecordParts(line: seq<char>)
    requires ParseRecord(line).Some?
    ensures var r := ParseRecord(line).value;
      Field(line, 1, 2).Some? && Field(line, 3, 4).Some? && Field(line, 7, 2).Some?
      && DataField(line, HeaderChars, r.reclen) == Some(r.data)
      && Field(line, HeaderChars + 2 * r.reclen, 2).Some?
  {
    var reclen := Field(line, 1, 2);
    assert ParseRecord(line) == ParseBody(line, reclen.value % 256, Field(line, 3, 4).value, Field(line, 7, 2).value % 256);
  }

  lemma FieldEndsInDigit(line: seq<char>, offset: nat, width: nat)
    requires width <= 8 && Field(line, offset, width).Some?
    ensures 0 < width && IsHexDigit(line[offset + width - 1])
  {
    var s := line[offset..offset + width];
    AcceptedFieldEndsInDigit(s);
    assert s[|s| - 1] == line[offset + width - 1];
  }

  // ---------------------------------------------------------------------
  // Checksum

  lemma LowByteOfNegation(x: int, c: Byte)
    ensures (-x) % 256 == c <==> (x + c) % 256 == 0
  {
  }

  /** A record passes `ihex2b`'s checksum test exactly when all of its bytes,
      the checksum included, add up to a multiple of 256. */
  lemma ChecksumMatchesIffZeroSum(r: Record)
    ensures Checksum(r) == r.cksum
      <==> (HeaderSum(r.reclen, r.loadofs, r.rectyp) + Sum(r.data) + r.cksum) % 256 == 0
  {
    LowByteOfNegation(HeaderSum(r.reclen, r.loadofs, r.rectyp) + Sum(r.data), r.cksum);
  }

  // ---------------------------------------------------------------------
  // Writing records: the inverse of parsing

  /** Two upper-case digits for a byte. */
  function Hex2(b: Byte): (s: seq<char>)
    ensures |s| == 2
  {
    [HexChar(b / 16), HexChar(b % 16)]
  }

  /** Four upper-case digits for a 16-bit load offset. */
  function Hex4(w: Word16): (s: seq<char>)
    ensures |s| == 4
  {
    Hex2(w / 256) + Hex2(w % 256)
  }

  function HexBytes(data: seq<Byte>): (s: seq<char>)
    ensures |s| == 2 * |data|
  {
    if data == [] then [] else Hex2(data[0]) + HexBytes(data[1..])
  }

  /** A record a HEX file can hold: as many data bytes as `reclen` says
      and a 16-bit load offset. */
  predicate WellFormed(r: Record) {
    |r.data| == r.reclen && r.loadofs < 0x1_0000
  }

  /** The line a HEX file writer emits for `r`, without the line ending. */
  function EncodeRecord(r: Record): (line: seq<char>)
    requires WellFormed(r)
    ensures |line| == RecordChars(r.reclen)
  {
    [':'] + Hex2(r.reclen) + Hex4(r.loadofs) + Hex2(r.rectyp) + HexBytes(r.data) + Hex2(r.cksum)
  }

  lemma Hex2Parses(b: Byte)
    ensures StrToUL(Hex2(b)) == Some(b)
  {
    var s := Hex2(b);
    HexFieldAccepted(s);
    assert s[..1] == [HexChar(b / 16)];
    assert HexValue(s) == HexValue(s[..1]) * 16 + b % 16;
  }

  lemma Hex4Parses(w: Word16)
    ensures StrToUL(Hex4(w)) == Some(w)
  {
    var s := Hex4(w);
    var hi, lo := w / 256, w % 256;
    HexFieldAccepted(s);
    HexFieldAccepted(Hex2(hi));
    Hex2Parses(hi);
    assert s[..2] == Hex2(hi);
    assert s[..3] == Hex2(hi) + [HexChar(lo / 16)];
    assert HexValue(s[..3]) == HexValue(s[..2]) * 16 + lo / 16;
    assert HexValue(s) == HexValue(s[..3]) * 16 + lo % 16;
  }

  /** A field whose characters are `s` reads as `StrToUL(s)`. */
  lemma FieldIs(line: seq<char>, offset: nat, s: seq<char>)
    requires |s| <= 8 && offset + |s| <= |line| && line[offset..offset + |s|] == s
    ensures Field(line, offset, |s|) == StrToUL(s)
  {
  }

  lemma {:induction false} HexBytesParse(line: seq<char>, offset: nat, data: seq<Byte>)
    requires offset + 2 * |data| <= |line| && line[offset..offset + 2 * |data|] == HexBytes(data)
    ensures DataField(line, offset, |data|) == Some(data)
    decreases |data|
  {
    if data != [] {
      var rest := line[offset + 2..offset + 2 * |data|];
      var h := HexBytes(data);
      assert h == Hex2(data[0]) + HexBytes(data[1..]);
      assert line[offset..offset + 2] == h[..2] == Hex2(data[0]);
      assert rest == h[2..] == HexBytes(data[1..]);
      assert line[offset + 2..offset + 2 + 2 * |data[1..]|] == rest;
      FieldIs(line, offset, Hex2(data[0]));
      Hex2Parses(data[0]);
      HexBytesParse(line, offset + 2, data[1..]);
      assert [data[0]] + data[1..] == data;
    }
  }

  /** A line whose five fields read as the fields of `r` parses as `r`. */
  lemma ParseFromFields(line: seq<char>, r: Record)
    requires Field(line, 1, 2) == Some(r.reclen as Word32)
    requires Field(line, 3, 4) == Some(r.loadofs)
    requires Field(line, 7, 2) == Some(r.rectyp as Word32)
    requires DataField(line, HeaderChars, r.reclen) == Some(r.data)
    requires Field(line, HeaderChars + 2 * r.reclen, 2) == Some(r.cksum as Word32)
    ensures ParseRecord(line) == Some(r)
  {
    HeaderFields(line, r.reclen, r.loadofs, r.rectyp);
    BodyFields(line, r);
  }

  lemma HeaderFields(line: seq<char>, reclen: Byte, loadofs: Word32, rectyp: Byte)
    requires Field(line, 1, 2) == Some(reclen as Word32)
    requires Field(line, 3, 4) == Some(loadofs)
    requires Field(line, 7, 2) == Some(rectyp as Word32)
    ensures ParseRecord(line) == ParseBody(line, reclen, loadofs, rectyp)
  {
    assert (reclen as Word32) % 256 == reclen && (rectyp as Word32) % 256 == rectyp;
  }

  lemma BodyFields(line: seq<char>, r: Record)
    requires DataField(line, HeaderChars, r.reclen) == Some(r.data)
    requires Field(line, HeaderChars + 2 * r.reclen, 2) == Some(r.cksum as Word32)
    ensures ParseBody(line, r.reclen, r.loadofs, r.rectyp) == Some(r)
  {
    assert (r.cksum as Word32) % 256 == r.cksum;
  }

  lemma EncodeSlices(r: Record)
    requires WellFormed(r)
    ensures var line, c := EncodeRecord(r), HeaderChars + 2 * r.reclen;
      line[1..3] == Hex2(r.reclen) && line[3..7] == Hex4(r.loadofs)
      && line[7..9] == Hex2(r.rectyp) && line[HeaderChars..c] == HexBytes(r.data)
      && line[c..c + 2] == Hex2(r.cksum)
  {
  }

  /** Round trip: the line written for a well-formed record, followed by
      anything at all, reads back as that record. */
  lemma EncodeThenParse(r: Record, more: seq<char>)
    requires WellFormed(r)
    ensures ParseRecord(EncodeRecord(r) + more) == Some(r)
  {
    var line := EncodeRecord(r);
    var c: nat := HeaderChars + 2 * r.reclen;
    EncodeSlices(r);
    FieldIs(line, 1, Hex2(r.reclen));
    FieldIs(line, 3, Hex4(r.loadofs));
    FieldIs(line, 7, Hex2(r.rectyp));
    FieldIs(line, c, Hex2(r.cksum));
    Hex2Parses(r.reclen);
    Hex4Parses(r.loadofs);
    Hex2Parses(r.rectyp);
    Hex2Parses(r.cksum);
    HexBytesParse(line, HeaderChars, r.data);
    ParseFromFields(line, r);
    TrailingCharsIgnored(line, more);
  }

  /** No proper prefix of the text a record was read from can be read. */
  lemma PrefixRejected(full: seq<char>, k: nat)
    requires ParseRecord(full).Some? && k < RecordChars(ParseRecord(full).value.reclen)
    ensures ParseRecord(full[..k]) == None
  {
    if k <= |full| && ParseRecord(full[..k]).Some? {
      assert full[..k] + full[k..] == full;
      TrailingCharsIgnored(full[..k], full[k..]);
    }
  }

  /** Cutting the written line anywhere inside its fields makes it unreadable. */
  lemma TruncatedEncodingRejected(r: Record, k: nat)
    requires WellFormed(r) && k < RecordChars(r.reclen)
    ensures ParseRecord(EncodeRecord(r)[..k]) == None
  {
    EncodeThenParse(r, []);
    assert EncodeRecord(r) + [] == EncodeRecord(r);
    PrefixRejected(EncodeRecord(r), k);
  }

  lemma {:induction false} HexBytesDigits(data: seq<Byte>)
    ensures forall i :: 0 <= i < |HexBytes(data)| ==> IsHexDigit(HexBytes(data)[i])
    decreases |data|
  {
    if data != [] {
      HexBytesDigits(data[1..]);
      var h := HexBytes(data);
      assert h == Hex2(data[0]) + HexBytes(data[1..]);
      forall i | 0 <= i < |h|
        ensures IsHexDigit(h[i])
      {
        if i >= 2 {
          assert h[i] == HexBytes(data[1..])[i - 2];
        }
      }
    }
  }

  /** A written record is a `:` followed by upper-case hexadecimal digits. */
  lemma EncodedChars(r: Record)
    requires WellFormed(r)
    ensures EncodeRecord(r)[0] == ':'
    ensures forall i :: 1 <= i < |EncodeRecord(r)| ==> IsHexDigit(EncodeRecord(r)[i])
  {
    var line := EncodeRecord(r);
    var c := HeaderChars + 2 * r.reclen;
    EncodeSlices(r);
    HexBytesDigits(r.data);
    forall i | 1 <= i < |line|
      ensures IsHexDigit(line[i])
    {
      if i < 3 {
        assert line[i] == line[1..3][i - 1];
      } else if i < 7 {
        assert line[i] == line[3..7][i - 3];
      } else if i < 9 {
        assert line[i] == line[7..9][i - 7];
      } else if i < c {
        assert line[i] == line[HeaderChars..c][i - HeaderChars];
      } else {
        assert line[i] == line[c..c + 2][i - c];
      }
    }
  }
}
