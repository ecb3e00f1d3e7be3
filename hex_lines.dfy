/** Splitting a HEX file into lines the way `ihex2b` reads them: its own
    `fgets` pulls one character at a time from the file until a `\n` has
    been read or the 256-byte buffer is full. */
module HexLines {
  import opened Basics

  /** `MAX_LINE_LEN`: size of `ihex2b`'s line buffer; one place is kept for
      the terminating NUL, so a line holds at most 255 characters. */
  const MaxLineLen: nat := 256

  /** Whether `n` characters from `pos` on form one `fgets` line: no `\n`
      before the last one, and the line ends at a `\n`, when the buffer is
      full, or at the end of the file. */
  predicate IsLineLength(data: seq<char>, pos: nat, n: nat) {
    1 <= n <= MaxLineLen - 1 && pos + n <= |data|
    && (forall k :: pos <= k < pos + n - 1 ==> data[k] != '\n')
    && (data[pos + n - 1] == '\n' || n == MaxLineLen - 1 || pos + n == |data|)
  }

  function ScanLine(data: seq<char>, pos: nat, n: nat): (m: nat)
    requires 1 <= n <= MaxLineLen - 1 && pos + n <= |data|
    requires forall k :: pos <= k < pos + n - 1 ==> data[k] != '\n'
    ensures n <= m && IsLineLength(data, pos, m)
    decreases MaxLineLen - n
  {
    if data[pos + n - 1] == '\n' || n == MaxLineLen - 1 || pos + n == |data| then n
    else ScanLine(data, pos, n + 1)
  }

  /** Number of characters one `fgets(buffer, MAX_LINE_LEN, inf)` call
      consumes when the file position is `pos`. */
  function LineLength(data: seq<char>, pos: nat): (n: nat)
    requires pos < |data|
    ensures IsLineLength(data, pos, n)
  {
    ScanLine(data, pos, 1)
  }

  /** The line length is determined by the file: `IsLineLength` holds for
      exactly one count, the one `LineLength` returns. */
  lemma LineLengthUnique(data: seq<char>, pos: nat, n: nat)
    requires pos < |data|
    ensures IsLineLength(data, pos, n) <==> n == LineLength(data, pos)
  {
  }

  /** The custom `fgets`: reads at most `MAX_LINE_LEN - 1` characters one at
      a time, returns as soon as it has stored a `\n`, returns NULL (None)
      only when the very first read finds the end of the file, and keeps
      trying to read after a later read has failed. */
  method ReadLine(data: seq<char>, pos: nat) returns (line: Option<seq<char>>, next: nat)
    requires pos <= |data|
    ensures pos == |data| ==> line == None && next == pos
    ensures pos < |data| ==> next == pos + LineLength(data, pos) && line == Some(data[pos..next])
  {
    var buffer: seq<char> := [];
    next := pos;
    var firstRead := true;
    var i := 0;
    while i < MaxLineLen - 1
      invariant 0 <= i <= MaxLineLen - 1
      invariant next == pos + |buffer| <= |data| && buffer == data[pos..next]
      invariant |buffer| == i || next == |data|
      invariant 1 <= |buffer| <= i || (i == 0 && buffer == [])
      invariant firstRead <==> i == 0
      invariant forall k :: pos <= k < next ==> data[k] != '\n'
    {
      if next < |data| {
        var c := data[next];
        buffer := buffer + [c];
        next := next + 1;
        assert buffer == data[pos..next];
        if c == '\n' {
          LineLengthUnique(data, pos, |buffer|);
          return Some(buffer), next;
        }
      } else if firstRead {
        return None, next;
      }
      firstRead := false;
      i := i + 1;
    }
    LineLengthUnique(data, pos, |buffer|);
    line := Some(buffer);
  }

  /** All lines `fgets` returns, from position `pos` to the end of the file. */
  function Lines(data: seq<char>, pos: nat): (lines: seq<seq<char>>)
    requires pos <= |data|
    decreases |data| - pos
  {
    if pos == |data| then [] else [data[pos..pos + LineLength(data, pos)]] + Lines(data, pos + LineLength(data, pos))
  }

  function Concat(lines: seq<seq<char>>): seq<char> {
    if lines == [] then [] else lines[0] + Concat(lines[1..])
  }

  /** Reading line after line loses and adds nothing: the lines put back
      together are the file. */
  lemma {:induction false} LinesCoverFile(data: seq<char>, pos: nat)
    requires pos <= |data|
    ensures Concat(Lines(data, pos)) == data[pos..]
    decreases |data| - pos
  {
    if pos < |data| {
      var n := LineLength(data, pos);
      var line, rest := data[pos..pos + n], Lines(data, pos + n);
      LinesCoverFile(data, pos + n);
      LinesStep(data, pos);
      assert ([line] + rest)[1..] == rest;
      assert Concat([line] + rest) == line + Concat(rest);
      assert line + data[pos + n..] == data[pos..];
    }
  }

  /** A line as `fgets` returns it: non-empty, fits the buffer, and holds
      a `\n` only as its last character. */
  predicate LineShaped(l: seq<char>) {
    1 <= |l| <= MaxLineLen - 1 && '\n' !in l[..|l| - 1]
  }

  /** Every line `fgets` returns has that shape. */
  lemma {:induction false} LinesShape(data: seq<char>, pos: nat)
    requires pos <= |data|
    ensures forall i :: 0 <= i < |Lines(data, pos)| ==> LineShaped(Lines(data, pos)[i])
    decreases |data| - pos
  {
    if pos < |data| {
      var n := LineLength(data, pos);
      var line, rest := data[pos..pos + n], Lines(data, pos + n);
      LinesShape(data, pos + n);
      LinesStep(data, pos);
      assert line[..n - 1] == data[pos..pos + n - 1];
      assert LineShaped(line);
      forall i | 0 <= i < |Lines(data, pos)|
        ensures LineShaped(Lines(data, pos)[i])
      {
        if i > 0 {
          assert Lines(data, pos)[i] == rest[i - 1];
        }
      }
    }
  }

  /** Reading one more line advances the file position past it. */
  lemma LinesStep(data: seq<char>, pos: nat)
    requires pos < |data|
    ensures Lines(data, pos) == [data[pos..pos + LineLength(data, pos)]] + Lines(data, pos + LineLength(data, pos))
    ensures Lines(data, pos)[0] == data[pos..pos + LineLength(data, pos)]
    ensures Lines(data, pos)[1..] == Lines(data, pos + LineLength(data, pos))
  {
  }

  /** `LinesStep` for the line `ReadLine` returns, which ends before `next`. */
  lemma LinesAt(data: seq<char>, pos: nat, next: nat, line: seq<char>)
    requires pos < |data| && next == pos + LineLength(data, pos) && line == data[pos..next]
    ensures Lines(data, pos) != [] && Lines(data, pos)[0] == line && Lines(data, pos)[1..] == Lines(data, next)
  {
    LinesStep(data, pos);
  }

  /** A file written one line at a time, each line followed by `\n`. */
  function Terminated(ls: seq<seq<char>>): seq<char> {
    if ls == [] then [] else ls[0] + ['\n'] + Terminated(ls[1..])
  }

  function WithNewlines(ls: seq<seq<char>>): (r: seq<seq<char>>)
    ensures |r| == |ls|
  {
    if ls == [] then [] else [ls[0] + ['\n']] + WithNewlines(ls[1..])
  }

  /** Lines short enough for the buffer and free of `\n`. */
  predicate ShortLines(ls: seq<seq<char>>) {
    forall i :: 0 <= i < |ls| ==> |ls[i]| < MaxLineLen - 1 && '\n' !in ls[i]
  }

  /** A short line followed by `\n` is read whole by one `fgets` call. */
  lemma NewlineEndsLine(data: seq<char>, pos: nat, l: seq<char>)
    requires |l| < MaxLineLen - 1 && '\n' !in l
    requires pos + |l| < |data| && data[pos..pos + |l| + 1] == l + ['\n']
    ensures Lines(data, pos) == [l + ['\n']] + Lines(data, pos + |l| + 1)
  {
    var n := |l| + 1;
    assert forall k :: pos <= k < pos + n - 1 ==> data[k] == data[pos..pos + n][k - pos] == l[k - pos];
    assert data[pos + n - 1] == data[pos..pos + n][n - 1] == '\n';
    LineLengthUnique(data, pos, n);
    LinesStep(data, pos);
  }

  lemma ShortLinesTail(ls: seq<seq<char>>)
    requires ls != [] && ShortLines(ls)
    ensures ShortLines(ls[1..])
  {
    forall i | 0 <= i < |ls[1..]|
      ensures |ls[1..][i]| < MaxLineLen - 1 && '\n' !in ls[1..][i]
    {
      assert ls[1..][i] == ls[i + 1];
    }
  }

  /** Where a line and its `\n` start the rest of the file, they are the
      next `fgets` line and the file goes on after them. */
  lemma SuffixSplit(data: seq<char>, pos: nat, l: seq<char>, rest: seq<char>)
    requires pos <= |data| && data[pos..] == l + ['\n'] + rest
    ensures pos + |l| < |data| && data[pos..pos + |l| + 1] == l + ['\n']
    ensures data[pos + |l| + 1..] == rest
  {
    assert data[pos..pos + |l| + 1] == data[pos..][..|l| + 1];
    assert data[pos + |l| + 1..] == data[pos..][|l| + 1..];
  }

  lemma {:induction false} LinesAfter(data: seq<char>, pos: nat, ls: seq<seq<char>>)
    requires ShortLines(ls)
    requires pos <= |data| && data[pos..] == Terminated(ls)
    ensures Lines(data, pos) == WithNewlines(ls)
    decreases |ls|
  {
    if ls == [] {
      assert pos == |data| by { assert |data[pos..]| == 0; }
    } else {
      var l := ls[0];
      var next := pos + |l| + 1;
      SuffixSplit(data, pos, l, Terminated(ls[1..]));
      NewlineEndsLine(data, pos, l);
      ShortLinesTail(ls);
      LinesAfter(data, next, ls[1..]);
      calc {
        Lines(data, pos);
        [l + ['\n']] + Lines(data, next);
        [l + ['\n']] + WithNewlines(ls[1..]);
        WithNewlines(ls);
      }
    }
  }

  /** Splitting a file written line by line gives back its lines, each with
      its `\n`, as long as every line fits the buffer. */
  lemma LinesOfTerminated(ls: seq<seq<char>>)
    requires ShortLines(ls)
    ensures Lines(Terminated(ls), 0) == WithNewlines(ls)
  {
    LinesAfter(Terminated(ls), 0, ls);
  }
}
