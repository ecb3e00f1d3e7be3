/** The programmer side of `atmega328_flasher.cpp`: the static command and
    response buffers, the flash cache, and the functions that drive the
    part through them. Each method is proved to send exactly the commands
    `IspProtocol` prescribes and to return what it prescribes. */
module Flasher {
  import opened Basics
  import opened HexRecord
  import opened HexDecode
  import opened IspProtocol

  // ---------------------------------------------------------------------
  // How the history grows, one transaction at a time

  /** Three transactions in a row send a block of three commands. */
  lemma SendThree(h: seq<Frame>, s: seq<Frame>)
    requires |s| == 3
    ensures h + [s[0]] + [s[1]] == h + [s[0], s[1]]
    ensures h + [s[0], s[1]] + [s[2]] == h + s
  {
    assert [s[0], s[1], s[2]] == s;
  }

  /** One more round of `set_fuses` is one more repetition of the attempt. */
  lemma AttemptStep(h: seq<Frame>, f: seq<Byte>, j: nat)
    requires |f| == 3
    ensures h + Repeat(FuseAttempt(f), j) + FuseAttempt(f) == h + Repeat(FuseAttempt(f), j + 1)
  {
  }

  /** The writes of an attempt followed by its reads are the attempt. */
  lemma AttemptBlock(h: seq<Frame>, f: seq<Byte>)
    requires |f| == 3
    ensures h + FuseWrites(f) + FuseReads == h + FuseAttempt(f)
  {
  }

  /** Judging attempt `j` of `set_fuses`, when the attempts before it
      all failed: a match ends the run with success after `j + 1`
      attempts, a miss moves on to the next attempt or, after the third,
      ends the run with failure. */
  lemma AttemptJudged(device: Device, h: seq<Frame>, f: seq<Byte>, j: nat)
    requires |f| == 3 && j < MaxFuseAttempts
    requires FuseAttempts(device, h, f, 0) == FuseAttempts(device, h, f, j)
    ensures Readback(device, h, f, j) == f ==> FuseAttempts(device, h, f, 0) == j + 1 && FusesWritten(device, h, f)
    ensures Readback(device, h, f, j) != f && j + 1 < MaxFuseAttempts ==>
      FuseAttempts(device, h, f, 0) == FuseAttempts(device, h, f, j + 1)
    ensures Readback(device, h, f, j) != f && j + 1 == MaxFuseAttempts ==>
      FuseAttempts(device, h, f, 0) == MaxFuseAttempts && !FusesWritten(device, h, f)
  {
    FuseAttemptsFirst(device, h, f);
  }

  /** One more enable try is one more repetition of the enable command. */
  lemma TryStep(h: seq<Frame>, c: Frame, n: nat)
    ensures h + Repeat([c], n) + [c] == h + Repeat([c], n + 1)
  {
    assert Repeat([c], n + 1) == Repeat([c], n) + [c];
  }

  /** An unanswered enable try below the last leaves the count to the
      tries after it. */
  lemma TryJudged(device: Device, h: seq<Frame>, c: Frame, k: nat)
    requires 1 <= k < MaxEnableTries && !Answers(device, h, c, k)
    requires EnableTries(device, h, c, 1) == EnableTries(device, h, c, k)
    ensures EnableTries(device, h, c, 1) == EnableTries(device, h, c, k + 1)
  {
  }

  /** The commands for one more byte extend the write trace. */
  lemma WriteStep(h: seq<Frame>, mem: seq<Byte>, size: nat, addr: nat)
    requires addr < |mem|
    ensures FlushesAt(addr, size) ==>
      h + WriteTrace(mem, size, addr) + [LoadFrame(addr, mem[addr])] + [FlushFrame(addr)] == h + WriteTrace(mem, size, addr + 1)
    ensures !FlushesAt(addr, size) ==>
      h + WriteTrace(mem, size, addr) + [LoadFrame(addr, mem[addr])] == h + WriteTrace(mem, size, addr + 1)
  {
  }

  /** A byte that reads back leaves the first mismatch to the bytes after
      it. */
  lemma ReadJudged(device: Device, h: seq<Frame>, mem: seq<Byte>, size: nat, a: nat)
    requires a < size <= |mem| && ReadsBack(device, h, mem, a)
    requires FirstMismatch(device, h, mem, size, 0) == FirstMismatch(device, h, mem, size, a)
    ensures FirstMismatch(device, h, mem, size, 0) == FirstMismatch(device, h, mem, size, a + 1)
  {
  }

  /** A byte that does not read back is the first mismatch. */
  lemma ReadRejected(device: Device, h: seq<Frame>, mem: seq<Byte>, size: nat, a: nat, reply: Byte)
    requires a < size <= |mem| && reply == Answer(device, h + ReadTrace(a + 1)).b3 && reply != mem[a]
    requires FirstMismatch(device, h, mem, size, 0) == FirstMismatch(device, h, mem, size, a)
    ensures FirstMismatch(device, h, mem, size, 0) == a
  {
  }

  /** One more read extends the read trace. */
  lemma ReadStep(h: seq<Frame>, addr: nat)
    ensures h + ReadTrace(addr) + [ReadFrame(addr)] == h + ReadTrace(addr + 1)
  {
  }

  // ---------------------------------------------------------------------
  // The programmer

  class Programmer {
    /** The part at the other end of the SPI bus. */
    const device: Device
    /** `cmd`: the command buffer of every transaction. */
    const cmd: array<Byte>
    /** `res`: the response buffer of every transaction. */
    const res: array<Byte>
    /** `flash_mem`: the image cache, kept from one call to the next. */
    const flashMem: array<Byte>
    /** Every command sent so far. */
    var sent: seq<Frame>

    function Command(): Frame
      reads cmd
      requires cmd.Length == 4
    {
      Frame(cmd[0], cmd[1], cmd[2], cmd[3])
    }

    function Response(): Frame
      reads res
      requires res.Length == 4
    {
      Frame(res[0], res[1], res[2], res[3])
    }

    /** The buffers have their sizes, and `res` holds the answer to the last
        command sent. */
    ghost predicate Valid()
      reads this, res
    {
      cmd.Length == 4 && res.Length == 4 && cmd != res && flashMem.Length == FlashSize
      && (sent != [] ==> Response() == Answer(device, sent))
    }

    /** The static buffers as they are at boot: all zero. */
    constructor(device: Device)
      ensures Valid() && this.device == device && sent == []
      ensures cmd[..] == [0, 0, 0, 0] && flashMem[..] == seq(FlashSize, _ => 0)
    {
      this.device := device;
      cmd := new Byte[4](_ => 0);
      res := new Byte[4](_ => 0);
      flashMem := new Byte[FlashSize](_ => 0);
      sent := [];
    }

    /** `do_spi_transaction`: send `cmd`, receive the answer into `res`. */
    method Transact()
      requires Valid()
      modifies this, res
      ensures Valid() && sent == old(sent) + [Command()] && Response() == Answer(device, sent)
    {
      sent := sent + [Command()];
      var answer := device(sent);
      res[0], res[1], res[2], res[3] := answer.b0, answer.b1, answer.b2, answer.b3;
    }

    /** Fill `cmd` with the four bytes of `c` and run the transaction;
        `reply` is `res[3]`. Where the source assigns only some of the
        bytes (after a `memset`, or keeping those of the previous command),
        the bytes it leaves alone already hold the values of `c`. */
    method Send(c: Frame) returns (reply: Byte)
      requires Valid()
      modifies this, cmd, res
      ensures Valid() && Command() == c && sent == old(sent) + [c]
      ensures reply == Answer(device, sent).b3
    {
      cmd[0], cmd[1], cmd[2], cmd[3] := c.b0, c.b1, c.b2, c.b3;
      Transact();
      reply := res[3];
    }

    /** `get_fuses`: the three fuse reads, in order; `fuses[k]` is the last
        byte of the `k`-th answer. */
    method GetFuses(fuses: array<Byte>)
      requires Valid() && fuses.Length == 3 && fuses != cmd && fuses != res
      modifies this, cmd, res, fuses
      ensures Valid() && sent == old(sent) + FuseReads
      ensures fuses[..] == Replies(device, old(sent), FuseReads)
      ensures Command() == FuseReads[2]
    {
      ghost var h := sent;
      SendThree(h, FuseReads);
      FuseReadReplies(device, h);
      fuses[0] := Send(FuseReads[0]);
      fuses[1] := Send(FuseReads[1]);
      fuses[2] := Send(FuseReads[2]);
    }

    /** One attempt of `set_fuses`: write low, high and extended fuse,
        then read all three back into `check`. */
    method TryFuses(values: seq<Byte>, check: array<Byte>)
      requires Valid() && |values| == 3
      requires check.Length == 3 && check != cmd && check != res
      modifies this, cmd, res, check
      ensures Valid() && Command() == FuseReads[2] && sent == old(sent) + FuseAttempt(values)
      ensures check[..] == Replies(device, old(sent) + FuseWrites(values), FuseReads)
    {
      SendThree(old(sent), FuseWrites(values));
      AttemptBlock(old(sent), values);
      var _ := Send(FuseWrites(values)[0]);
      var _ := Send(FuseWrites(values)[1]);
      var _ := Send(FuseWrites(values)[2]);
      GetFuses(check);
    }

    /** `set_fuses`: up to three attempts of writing the fuses and reading
        them back, stopping at the first read-back equal to `values`;
        0 exactly when one matched. */
    method SetFuses(values: seq<Byte>) returns (status: int)
      requires Valid() && |values| == 3
      modifies this, cmd, res
      ensures Valid() && Command() == FuseReads[2]
      ensures sent == old(sent) + Repeat(FuseAttempt(values), FuseAttempts(device, old(sent), values, 0))
      ensures status == (if FusesWritten(device, old(sent), values) then 0 else -1)
    {
      var retries := 0;
      while retries < MaxFuseAttempts
        invariant Valid() && 0 <= retries <= MaxFuseAttempts
        invariant sent == old(sent) + Repeat(FuseAttempt(values), retries)
        invariant retries < MaxFuseAttempts ==>
          FuseAttempts(device, old(sent), values, 0) == FuseAttempts(device, old(sent), values, retries)
        invariant retries == MaxFuseAttempts ==>
          FuseAttempts(device, old(sent), values, 0) == MaxFuseAttempts && !FusesWritten(device, old(sent), values)
        invariant retries > 0 ==> Command() == FuseReads[2]
      {
        AttemptStep(old(sent), values, retries);
        AttemptJudged(device, old(sent), values, retries);
        var check := new Byte[3];
        TryFuses(values, check);
        if check[..] == values {
          break;
        }
        retries := retries + 1;
      }
      if retries >= MaxFuseAttempts {
        return -1;
      } else {
        return 0;
      }
    }

    /** `enable_program_mode`: send `{AC, 53, cmd[2], cmd[3]}` until the part
        echoes `0x53` in the third byte, at most 66 times; 0 exactly when the
        echo came within the first 65. */
    method EnableProgramMode() returns (status: int)
      requires Valid()
      modifies this, cmd, res
      ensures Valid()
      ensures var c := EnableFrame(old(cmd[2]), old(cmd[3]));
        Command() == c && sent == old(sent) + Repeat([c], EnableTries(device, old(sent), c, 1))
        && status == (if Enabled(device, old(sent), c) then 0 else -1)
    {
      var tries := 0;
      cmd[0] := 0xAC;
      cmd[1] := 0x53;
      ghost var c := Command();
      TryStep(old(sent), c, 0);
      Transact();
      while res[2] != 0x53 && tries < 65
        invariant Valid() && 0 <= tries <= 65 && Command() == c
        invariant sent == old(sent) + Repeat([c], tries + 1)
        invariant EnableTries(device, old(sent), c, 1) == EnableTries(device, old(sent), c, tries + 1)
        decreases 65 - tries
      {
        TryJudged(device, old(sent), c, tries + 1);
        TryStep(old(sent), c, tries + 1);
        tries := tries + 1;
        Transact();
      }
      if res[2] != 0x53 {
        tries := tries + 1;
      }
      if tries >= 65 {
        return -1;
      }
      return 0;
    }

    /** The signature loop of `flash_file`: `{30, 00, i, 00}` for
        `i = 0, 1, 2`, keeping the last byte of each answer. */
    method ReadSignature(signature: array<Byte>)
      requires Valid() && signature.Length == 3
      modifies this, cmd, res, signature
      ensures Valid() && sent == old(sent) + SignatureReads
      ensures signature[..] == Replies(device, old(sent), SignatureReads)
    {
      RepliesAt(device, old(sent), SignatureReads);
      for i := 0 to 3
        invariant Valid() && sent == old(sent) + SignatureReads[..i]
        invariant forall k :: 0 <= k < i ==> signature[k] == Replies(device, old(sent), SignatureReads)[k]
      {
        assert SignatureReads[..i + 1] == SignatureReads[..i] + [SignatureReads[i]];
        signature[i] := Send(SignatureReads[i]);
      }
    }

    /** The write loop of `flash_file`: a load command for every byte of
        `flash_mem[0..size)`, in order, each followed by a page flush when it
        ends a page or the image. */
    method WriteFlash(size: nat)
      requires Valid() && size <= FlashSize
      modifies this, cmd, res
      ensures Valid() && sent == old(sent) + WriteTrace(flashMem[..], size, size)
    {
      ghost var mem := flashMem[..];
      for addr := 0 to size
        invariant Valid() && sent == old(sent) + WriteTrace(mem, size, addr)
      {
        var data := flashMem[addr];
        var flushPage := addr % PageBytes == PageBytes - 1 || addr == size - 1;
        WriteStep(old(sent), mem, size, addr);
        var _ := Send(LoadFrame(addr, data));
        if flushPage {
          var _ := Send(FlushFrame(addr));
        }
      }
    }

    /** The verify loop of `flash_file`: read every byte of the image back
        in order and stop with -1 at the first that differs from
        `flash_mem`. */
    method VerifyFlash(size: nat) returns (status: int)
      requires Valid() && size <= FlashSize
      modifies this, cmd, res
      ensures Valid()
      ensures var m := FirstMismatch(device, old(sent), flashMem[..], size, 0);
        m <= size
        && (m < size ==> status == -1 && sent == old(sent) + ReadTrace(m + 1))
        && (m == size ==> status == 0 && sent == old(sent) + ReadTrace(size))
    {
      ghost var mem := flashMem[..];
      FirstMismatchBound(device, old(sent), mem, size, 0);
      for addr := 0 to size
        invariant Valid() && sent == old(sent) + ReadTrace(addr) && flashMem[..] == mem
        invariant FirstMismatch(device, old(sent), mem, size, 0) == FirstMismatch(device, old(sent), mem, size, addr)
      {
        ReadStep(old(sent), addr);
        var data := Send(ReadFrame(addr));
        assert sent == old(sent) + ReadTrace(addr + 1) && flashMem[..] == mem;
        if data != flashMem[addr] {
          ReadRejected(device, old(sent), mem, size, addr, data);
          return -1;
        }
        ReadJudged(device, old(sent), mem, size, addr);
      }
      return 0;
    }

    /** The fuse drift check at the end of `flash_file`: read the fuses
        again and, if they differ from the baseline `startFuses`, run
        `set_fuses` once more. */
    method CheckFuses(startFuses: array<Byte>) returns (status: int)
      requires Valid() && startFuses.Length == 3 && startFuses[..] == DesiredFuses
      requires startFuses != cmd && startFuses != res
      modifies this, cmd, res
      ensures Valid()
      ensures var (ok, t) := EnsureFuses(device, old(sent));
        status == (if ok then 0 else -1) && sent == t
    {
      var endFuses := new Byte[3];
      GetFuses(endFuses);
      if startFuses[..] != endFuses[..] {
        status := SetFuses(DesiredFuses);
        if status != 0 {
          return -1;
        }
      }
      return 0;
    }

    /** The write loop, the verify loop and the drift check of
        `flash_file`, for an image of `size` bytes in `flash_mem`. */
    method BurnImage(size: Word16, startFuses: array<Byte>) returns (status: int)
      requires Valid() && size <= FlashSize
      requires startFuses.Length == 3 && startFuses[..] == DesiredFuses && startFuses != cmd && startFuses != res
      modifies this, cmd, res
      ensures Valid()
      ensures Session(status, sent, flashMem[..]) == Burning(device, old(sent), flashMem[..], size)
    {
      WriteFlash(size);
      status := VerifyFlash(size);
      if status != 0 {
        return -1;
      }
      status := CheckFuses(startFuses);
    }

    /** `flash_file` after the chip erase: decode the file into `flash_mem`,
        give up when it cannot be decoded, and burn the image otherwise. */
    method ProgramImage(file: seq<char>, junk: seq<Byte>, startFuses: array<Byte>) returns (status: int)
      requires Valid() && |junk| == MaxData
      requires startFuses.Length == 3 && startFuses[..] == DesiredFuses && startFuses != cmd && startFuses != res
      requires startFuses != flashMem
      modifies this, cmd, res, flashMem
      ensures Valid()
      ensures Session(status, sent, flashMem[..]) == Programming(device, old(sent), file, old(flashMem[..]), junk)
    {
      var result := Ihex2b(file, flashMem, FlashSize, 0, junk);
      if result.Err? {
        return -1;
      }
      status := BurnImage(result.value, startFuses);
    }

    /** The fuse baseline of `flash_file`: read the fuses into `startFuses`
        and, unless they are the desired ones, run `set_fuses` and copy the
        desired values over them. */
    method SetBaseline(startFuses: array<Byte>) returns (ok: bool)
      requires Valid() && startFuses.Length == 3 && startFuses != cmd && startFuses != res
      modifies this, cmd, res, startFuses
      ensures Valid() && (ok, sent) == EnsureFuses(device, old(sent))
      ensures ok ==> startFuses[..] == DesiredFuses && cmd[2] == 0 && cmd[3] == 0
    {
      GetFuses(startFuses);
      if startFuses[..] != DesiredFuses {
        var i := SetFuses(DesiredFuses);
        if i != 0 {
          return false;
        }
        startFuses[0], startFuses[1], startFuses[2] := DesiredFuses[0], DesiredFuses[1], DesiredFuses[2];
      }
      return true;
    }

    /** `flash_file(filename, reset_pin)`, with `file` the contents of the
        named file, None when it does not exist. Success is returned as 0. */
    method FlashFile(file: Option<seq<char>>, junk: seq<Byte>) returns (status: int)
      requires Valid() && |junk| == MaxData
      modifies this, cmd, res, flashMem
      ensures Valid()
      ensures Session(status, sent, flashMem[..])
        == FlashSession(device, old(sent), old(cmd[2]), old(cmd[3]), file, old(flashMem[..]), junk)
    {
      var i := EnableProgramMode();
      if i != 0 {
        return -1;
      }
      var signature := new Byte[3];
      ReadSignature(signature);
      if signature[..] != Signature {
        return -1;
      }
      var startFuses := new Byte[3];
      var ok := SetBaseline(startFuses);
      if !ok {
        return -1;
      }
      cmd[0] := 0xAC;
      cmd[1] := 0x80;
      assert Command() == EraseFrame;
      Transact();
      if file.None? {
        return -1;
      }
      status := ProgramImage(file.value, junk, startFuses);
    }
  }
}
