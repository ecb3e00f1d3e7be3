/** The ATmega328PB serial programming protocol as the flasher drives it:
    every step is one four-byte command sent over SPI, answered by four
    bytes from the part. The part is an abstract `Device` whose answer may
    depend on every command sent so far. This module says, as functions of
    the device, which commands each step sends and what it makes of the
    answers; `Flasher` runs the same steps on the shared buffers. */
module IspProtocol {
  import opened Basics
  import opened HexRecord
  import opened HexLines
  import opened HexDecode

  /** One SPI transaction's four bytes, `cmd[0..4)` or `res[0..4)`. */
  datatype Frame = Frame(b0: Byte, b1: Byte, b2: Byte, b3: Byte)

  /** The part being programmed: its answer to the last command of the
      history, which holds every command sent so far. */
  type Device = seq<Frame> -> Frame

  /** The frame the part answers after receiving the commands `h`, the last
      one being the command just sent. */
  function Answer(device: Device, h: seq<Frame>): Frame {
    device(h)
  }

  /** `ATMEGA328_FLASH_SIZE`. */
  const FlashSize: Word16 := 32768

  /** `atmega328pb_signature`. */
  const Signature: seq<Byte> := [0x1E, 0x95, 0x16]

  /** `desired_fuses`: low, high and extended fuse. */
  const DesiredFuses: seq<Byte> := [0xE2, 0xD7, 0xF5]

  /** Bytes per flash page: a page is flushed after every 128th byte. */
  const PageBytes: nat := 128

  /** The last byte of the answers to each of `cmds`, sent one after
      the other after the history `h`. */
  function Replies(device: Device, h: seq<Frame>, cmds: seq<Frame>): (r: seq<Byte>)
    ensures |r| == |cmds|
  {
    if cmds == [] then [] else Replies(device, h, cmds[..|cmds| - 1]) + [Answer(device, h + cmds).b3]
  }

  /** The `k`-th reply is the last byte of the answer to the `k`-th
      command, given everything sent before it. */
  lemma {:induction false} RepliesAt(device: Device, h: seq<Frame>, cmds: seq<Frame>)
    ensures forall k :: 0 <= k < |cmds| ==> Replies(device, h, cmds)[k] == Answer(device, h + cmds[..k + 1]).b3
    decreases |cmds|
  {
    if cmds != [] {
      var front := cmds[..|cmds| - 1];
      RepliesAt(device, h, front);
      forall k | 0 <= k < |cmds|
        ensures Replies(device, h, cmds)[k] == Answer(device, h + cmds[..k + 1]).b3
      {
        if k < |front| {
          assert front[..k + 1] == cmds[..k + 1];
        } else {
          assert cmds[..k + 1] == cmds;
        }
      }
    }
  }

  /** `block` sent `n` times in a row. */
  function Repeat(block: seq<Frame>, n: nat): seq<Frame> {
    if n == 0 then [] else Repeat(block, n - 1) + block
  }

  // ---------------------------------------------------------------------
  // Programming enable

  /** `{AC, 53, cmd[2], cmd[3]}`: the last two bytes are whatever the
      command buffer held before. */
  function EnableFrame(c2: Byte, c3: Byte): Frame {
    Frame(0xAC, 0x53, c2, c3)
  }

  /** The largest number of enable transactions: the first one and 65
      more while `tries++ < 65`. */
  const MaxEnableTries: nat := 66

  /** The part echoes `0x53` in the third byte of the `k`-th enable
      command, counted from 1. */
  predicate Answers(device: Device, h: seq<Frame>, c: Frame, k: nat) {
    Answer(device, h + Repeat([c], k)).b2 == 0x53
  }

  /** The number of enable transactions sent, when the first `k - 1` went
      unanswered. */
  function EnableTries(device: Device, h: seq<Frame>, c: Frame, k: nat): (n: nat)
    requires 1 <= k <= MaxEnableTries
    ensures k <= n <= MaxEnableTries
    decreases MaxEnableTries - k
  {
    if Answers(device, h, c, k) || k == MaxEnableTries then k else EnableTries(device, h, c, k + 1)
  }

  /** Whether `enable_program_mode` reports success: the part answered
      within the first 65 tries. */
  predicate Enabled(device: Device, h: seq<Frame>, c: Frame) {
    EnableTries(device, h, c, 1) < MaxEnableTries
  }

  lemma {:induction false} EnableTriesFrom(device: Device, h: seq<Frame>, c: Frame, k: nat)
    requires 1 <= k <= MaxEnableTries
    ensures var n := EnableTries(device, h, c, k);
      (forall i :: k <= i < n ==> !Answers(device, h, c, i))
      && (n < MaxEnableTries ==> Answers(device, h, c, n))
    decreases MaxEnableTries - k
  {
    if !Answers(device, h, c, k) && k < MaxEnableTries {
      EnableTriesFrom(device, h, c, k + 1);
    }
  }

  /** Enabling stops at the first answered try, and only the 66th try
      can go unanswered. */
  lemma EnableTriesFirst(device: Device, h: seq<Frame>, c: Frame)
    ensures var n := EnableTries(device, h, c, 1);
      1 <= n <= MaxEnableTries
      && (forall i :: 1 <= i < n ==> !Answers(device, h, c, i))
      && (n < MaxEnableTries ==> Answers(device, h, c, n))
  {
    EnableTriesFrom(device, h, c, 1);
  }

  /** Skipping tries known to be unanswered does not change the count. */
  lemma {:induction false} EnableTriesSkip(device: Device, h: seq<Frame>, c: Frame, k: nat)
    requires 1 <= k <= MaxEnableTries
    requires forall i :: 1 <= i < k ==> !Answers(device, h, c, i)
    ensures EnableTries(device, h, c, 1) == EnableTries(device, h, c, k)
    decreases k
  {
    if k > 1 {
      EnableTriesSkip(device, h, c, k - 1);
    }
  }

  /** `enable_program_mode` returns 0 exactly when the part echoes `0x53`
      on one of the first 65 tries. */
  lemma EnabledIff(device: Device, h: seq<Frame>, c: Frame)
    ensures Enabled(device, h, c) <==> exists k :: 1 <= k < MaxEnableTries && Answers(device, h, c, k)
  {
    EnableTriesFirst(device, h, c);
  }

  /** An echo on the 66th try is ignored: 66 transactions are sent and
      the result is still failure. */
  lemma LateAnswerIgnored(device: Device, h: seq<Frame>, c: Frame)
    requires forall k :: 1 <= k < MaxEnableTries ==> !Answers(device, h, c, k)
    ensures EnableTries(device, h, c, 1) == MaxEnableTries
    ensures !Enabled(device, h, c)
  {
    EnableTriesFirst(device, h, c);
  }

  // ---------------------------------------------------------------------
  // Fuses

  /** `get_fuses`: read low, high and extended fuse. */
  const FuseReads: seq<Frame> := [Frame(0x50, 0x00, 0x00, 0x00), Frame(0x58, 0x08, 0x00, 0x00), Frame(0x50, 0x08, 0x00, 0x00)]

  /** One round of `set_fuses` writes: low, high and extended fuse. */
  function FuseWrites(f: seq<Byte>): seq<Frame>
    requires |f| == 3
  {
    [Frame(0xAC, 0xA0, 0x00, f[0]), Frame(0xAC, 0xA8, 0x00, f[1]), Frame(0xAC, 0xA4, 0x00, f[2])]
  }

  /** One attempt of `set_fuses`: the three writes, then `get_fuses`. */
  function FuseAttempt(f: seq<Byte>): seq<Frame>
    requires |f| == 3
  {
    FuseWrites(f) + FuseReads
  }

  const MaxFuseAttempts: nat := 3

  /** The fuses read back in attempt `j`, counted from 0. */
  function Readback(device: Device, h: seq<Frame>, f: seq<Byte>, j: nat): seq<Byte>
    requires |f| == 3
  {
    Replies(device, h + Repeat(FuseAttempt(f), j) + FuseWrites(f), FuseReads)
  }

  /** The number of attempts made, when attempts `0..j` are still to be
      judged. */
  function FuseAttempts(device: Device, h: seq<Frame>, f: seq<Byte>, j: nat): (n: nat)
    requires |f| == 3 && j < MaxFuseAttempts
    ensures j < n <= MaxFuseAttempts
    decreases MaxFuseAttempts - j
  {
    if Readback(device, h, f, j) == f || j == MaxFuseAttempts - 1 then j + 1 else FuseAttempts(device, h, f, j + 1)
  }

  /** Whether one of the three attempts read back the values written. */
  predicate FusesWritten(device: Device, h: seq<Frame>, f: seq<Byte>)
    requires |f| == 3
  {
    exists j :: 0 <= j < MaxFuseAttempts && Readback(device, h, f, j) == f
  }

  lemma {:induction false} FuseAttemptsFrom(device: Device, h: seq<Frame>, f: seq<Byte>, j: nat)
    requires |f| == 3 && j < MaxFuseAttempts
    ensures var n := FuseAttempts(device, h, f, j);
      (forall i :: j <= i < n - 1 ==> Readback(device, h, f, i) != f)
      && (n < MaxFuseAttempts ==> Readback(device, h, f, n - 1) == f)
    decreases MaxFuseAttempts - j
  {
    if Readback(device, h, f, j) != f && j < MaxFuseAttempts - 1 {
      FuseAttemptsFrom(device, h, f, j + 1);
    }
  }

  /** `set_fuses` stops after the first attempt whose read-back matches,
      and makes at most three. It succeeds exactly when one of them
      matched. */
  lemma FuseAttemptsFirst(device: Device, h: seq<Frame>, f: seq<Byte>)
    requires |f| == 3
    ensures var n := FuseAttempts(device, h, f, 0);
      1 <= n <= MaxFuseAttempts
      && (forall i :: 0 <= i < n - 1 ==> Readback(device, h, f, i) != f)
      && (FusesWritten(device, h, f) <==> Readback(device, h, f, n - 1) == f)
  {
    FuseAttemptsFrom(device, h, f, 0);
  }

  lemma {:induction false} FuseAttemptsSkip(device: Device, h: seq<Frame>, f: seq<Byte>, j: nat)
    requires |f| == 3 && j < MaxFuseAttempts
    requires forall i :: 0 <= i < j ==> Readback(device, h, f, i) != f
    ensures FuseAttempts(device, h, f, 0) == FuseAttempts(device, h, f, j)
    decreases j
  {
    if j > 0 {
      FuseAttemptsSkip(device, h, f, j - 1);
    }
  }

  /** The fuse a command reads: 0, 1 or 2 for the three `get_fuses`
      commands, -1 for any other command. */
  function FuseRead(c: Frame): int {
    if c == FuseReads[0] then 0 else if c == FuseReads[1] then 1 else if c == FuseReads[2] then 2 else -1
  }

  /** The fuse a command writes: 0, 1 or 2 for the three write
      instructions, -1 for any other command. */
  function FuseWritten(c: Frame): int {
    if c.b0 != 0xAC then -1
    else if c.b1 == 0xA0 then 0 else if c.b1 == 0xA8 then 1 else if c.b1 == 0xA4 then 2 else -1
  }

  /** The fuse values of a part that starts with `init` and stores the
      value of every fuse write it receives. */
  function FuseState(h: seq<Frame>, init: seq<Byte>): (s: seq<Byte>)
    requires |init| == 3
    ensures |s| == 3
  {
    if h == [] then init
    else
      var s := FuseState(h[..|h| - 1], init);
      var k := FuseWritten(h[|h| - 1]);
      if k >= 0 then s[k := h[|h| - 1].b3] else s
  }

  /** A part whose fuses behave as memory: each fuse read returns the
      value last written to that fuse. */
  ghost predicate StoresFuses(device: Device, init: seq<Byte>)
    requires |init| == 3
  {
    forall h, k :: 0 <= k < 3 ==> Answer(device, h + [FuseReads[k]]).b3 == FuseState(h, init)[k]
  }

  lemma FuseStateStep(h: seq<Frame>, c: Frame, init: seq<Byte>)
    requires |init| == 3
    ensures FuseState(h + [c], init)
      == if FuseWritten(c) >= 0 then FuseState(h, init)[FuseWritten(c) := c.b3] else FuseState(h, init)
  {
    assert (h + [c])[..|h|] == h;
  }

  /** The three answers of `get_fuses` after the history `h`. */
  lemma FuseReadReplies(device: Device, h: seq<Frame>)
    ensures Replies(device, h, FuseReads)
      == [Answer(device, h + [FuseReads[0]]).b3, Answer(device, h + [FuseReads[0], FuseReads[1]]).b3, Answer(device, h + FuseReads).b3]
  {
    RepliesAt(device, h, FuseReads);
    assert FuseReads[..1] == [FuseReads[0]];
    assert FuseReads[..2] == [FuseReads[0], FuseReads[1]];
    assert FuseReads[..3] == FuseReads;
  }

  lemma StoredRead(device: Device, init: seq<Byte>, h: seq<Frame>, k: nat)
    requires |init| == 3 && StoresFuses(device, init) && k < 3
    ensures Answer(device, h + [FuseReads[k]]).b3 == FuseState(h, init)[k]
    ensures FuseState(h + [FuseReads[k]], init) == FuseState(h, init)
  {
    var c := FuseReads[k];
    FuseStateStep(h, c, init);
    assert (h + [c])[|h|] == c;
  }

  /** Reading the fuses of a part that stores them returns its fuse state. */
  lemma StoredReplies(device: Device, init: seq<Byte>, h: seq<Frame>)
    requires |init| == 3 && StoresFuses(device, init)
    ensures Replies(device, h, FuseReads) == FuseState(h, init)
  {
    var r := FuseReads;
    var h1, h2 := h + [r[0]], h + [r[0], r[1]];
    var a0, a1, a2 := Answer(device, h1).b3, Answer(device, h2).b3, Answer(device, h + r).b3;
    FuseReadReplies(device, h);
    StoredRead(device, init, h, 0);
    assert a0 == FuseState(h, init)[0];
    StoredRead(device, init, h1, 1);
    assert h1 + [r[1]] == h2;
    assert a1 == FuseState(h, init)[1];
    StoredRead(device, init, h2, 2);
    assert h2 + [r[2]] == h + r;
    assert a2 == FuseState(h, init)[2];
    var s := FuseState(h, init);
    assert s == [s[0], s[1], s[2]];
  }

  /** The three writes of an attempt set the fuse state to the values. */
  lemma WritesSetFuses(h: seq<Frame>, f: seq<Byte>, init: seq<Byte>)
    requires |init| == 3 && |f| == 3
    ensures FuseState(h + FuseWrites(f), init) == f
  {
    var w := FuseWrites(f);
    FuseStateStep(h, w[0], init);
    FuseStateStep(h + [w[0]], w[1], init);
    FuseStateStep(h + [w[0]] + [w[1]], w[2], init);
    assert h + w == h + [w[0]] + [w[1]] + [w[2]];
  }

  /** A part that stores its fuses accepts the first attempt. */
  lemma StoringPartFirstAttempt(device: Device, init: seq<Byte>, h: seq<Frame>, f: seq<Byte>)
    requires |init| == 3 && |f| == 3 && StoresFuses(device, init)
    ensures Readback(device, h, f, 0) == f
    ensures FuseAttempts(device, h, f, 0) == 1 && FusesWritten(device, h, f)
  {
    var h0 := h + Repeat(FuseAttempt(f), 0);
    WritesSetFuses(h0, f, init);
    StoredReplies(device, init, h0 + FuseWrites(f));
  }

  lemma StuckReplies(device: Device, v: seq<Byte>, h: seq<Frame>)
    requires |v| == 3
    requires forall h' :: h' != [] && FuseRead(h'[|h'| - 1]) >= 0 ==> Answer(device, h').b3 == v[FuseRead(h'[|h'| - 1])]
    ensures Replies(device, h, FuseReads) == v
  {
    var r := FuseReads;
    FuseReadReplies(device, h);
    assert (h + [r[0]])[|h|] == r[0];
    assert (h + [r[0], r[1]])[|h| + 1] == r[1];
    assert (h + r)[|h| + 2] == r[2];
  }

  /** A part whose fuse reads always return `v` (a locked or unwritable
      part) never confirms other values: three attempts, then failure. */
  lemma StuckFusesThreeAttempts(device: Device, v: seq<Byte>, h: seq<Frame>, f: seq<Byte>)
    requires |v| == 3 && |f| == 3 && v != f
    requires forall h' :: h' != [] && FuseRead(h'[|h'| - 1]) >= 0 ==> Answer(device, h').b3 == v[FuseRead(h'[|h'| - 1])]
    ensures FuseAttempts(device, h, f, 0) == MaxFuseAttempts && !FusesWritten(device, h, f)
  {
    forall j | 0 <= j < MaxFuseAttempts
      ensures Readback(device, h, f, j) == v
    {
      StuckReplies(device, v, h + Repeat(FuseAttempt(f), j) + FuseWrites(f));
    }
    FuseAttemptsFirst(device, h, f);
  }

  // ---------------------------------------------------------------------
  // Signature and chip erase

  /** `{30, 00, i, 00}` for `i = 0, 1, 2`. */
  const SignatureReads: seq<Frame> := [Frame(0x30, 0x00, 0x00, 0x00), Frame(0x30, 0x00, 0x01, 0x00), Frame(0x30, 0x00, 0x02, 0x00)]

  /** Chip erase, `{AC, 80, 00, 00}`; the last two bytes are left zero by
      the preceding `get_fuses`. */
  const EraseFrame := Frame(0xAC, 0x80, 0x00, 0x00)

  // ---------------------------------------------------------------------
  // Writing the flash

  /** Load program memory page, low byte (even address) or high byte (odd
      address); the third byte is the word address truncated to 8 bits. */
  function LoadFrame(addr: nat, data: Byte): Frame {
    Frame(if addr % 2 == 1 then 0x48 else 0x40, 0x00, (addr / 2) % 256, data)
  }

  /** Write program memory page: `{4C, addr >> 9, addr >> 1, 00}`, each
      byte truncated to 8 bits. */
  function FlushFrame(addr: nat): Frame {
    Frame(0x4C, (addr / 512) % 256, (addr / 2) % 256, 0x00)
  }

  /** The page is flushed after the byte at `addr`: the last byte of a
      128-byte page, or the last byte of the image. */
  predicate FlushesAt(addr: nat, size: nat) {
    addr % PageBytes == PageBytes - 1 || addr + 1 == size
  }

  /** The commands the write loop sends for the byte at `addr`. */
  function AddressCommands(mem: seq<Byte>, addr: nat, size: nat): seq<Frame>
    requires addr < |mem|
  {
    [LoadFrame(addr, mem[addr])] + (if FlushesAt(addr, size) then [FlushFrame(addr)] else [])
  }

  /** The commands the write loop sends for addresses `0..n)`. */
  function WriteTrace(mem: seq<Byte>, size: nat, n: nat): seq<Frame>
    requires n <= |mem|
  {
    if n == 0 then [] else WriteTrace(mem, size, n - 1) + AddressCommands(mem, n - 1, size)
  }

  predicate IsFlush(c: Frame) {
    c.b0 == 0x4C
  }

  function CountFlushes(t: seq<Frame>): nat {
    if t == [] then 0 else CountFlushes(t[..|t| - 1]) + (if IsFlush(t[|t| - 1]) then 1 else 0)
  }

  /** The load commands of a trace, in order. */
  function Loads(t: seq<Frame>): seq<Frame> {
    if t == [] then [] else Loads(t[..|t| - 1]) + (if IsFlush(t[|t| - 1]) then [] else [t[|t| - 1]])
  }

  lemma {:induction false} CountFlushesAppend(a: seq<Frame>, b: seq<Frame>)
    ensures CountFlushes(a + b) == CountFlushes(a) + CountFlushes(b)
    decreases |b|
  {
    if b != [] {
      var b' := b[..|b| - 1];
      assert (a + b)[..|a + b| - 1] == a + b';
      CountFlushesAppend(a, b');
    } else {
      assert a + b == a;
    }
  }

  lemma {:induction false} LoadsAppend(a: seq<Frame>, b: seq<Frame>)
    ensures Loads(a + b) == Loads(a) + Loads(b)
    decreases |b|
  {
    if b != [] {
      var b' := b[..|b| - 1];
      assert (a + b)[..|a + b| - 1] == a + b';
      LoadsAppend(a, b');
    } else {
      assert a + b == a;
    }
  }

  lemma PageStep(n: nat)
    ensures (n + 1) / PageBytes == n / PageBytes + (if n % PageBytes == PageBytes - 1 then 1 else 0)
  {
  }

  /** One address contributes one flush exactly where the page ends. */
  lemma AddressFlushes(mem: seq<Byte>, addr: nat, size: nat)
    requires addr < |mem|
    ensures CountFlushes(AddressCommands(mem, addr, size)) == if FlushesAt(addr, size) then 1 else 0
  {
    var cmds := AddressCommands(mem, addr, size);
    assert CountFlushes([cmds[0]]) == 0 by {
      assert [cmds[0]][..0] == [];
    }
    if FlushesAt(addr, size) {
      assert cmds[..1] == [cmds[0]];
      assert CountFlushes(cmds) == CountFlushes([cmds[0]]) + 1;
    }
  }

  /** One address contributes exactly its own load command. */
  lemma AddressLoads(mem: seq<Byte>, addr: nat, size: nat)
    requires addr < |mem|
    ensures Loads(AddressCommands(mem, addr, size)) == [LoadFrame(addr, mem[addr])]
  {
    var load := LoadFrame(addr, mem[addr]);
    assert !IsFlush(load);
    assert Loads([load]) == [load] by {
      assert [load][..0] == [];
      assert Loads([load]) == Loads([]) + [load];
    }
    if FlushesAt(addr, size) {
      var cmds := [load, FlushFrame(addr)];
      assert AddressCommands(mem, addr, size) == cmds;
      assert cmds[..1] == [load];
      assert IsFlush(cmds[1]);
      assert Loads(cmds) == Loads([load]) + [];
    }
  }

  /** Before the last address, one flush per completed page; after it, one
      more for a last page left incomplete. */
  lemma {:induction false} FlushesSoFar(mem: seq<Byte>, size: nat, n: nat)
    requires n <= size <= |mem|
    ensures CountFlushes(WriteTrace(mem, size, n))
      == n / PageBytes + (if n == size && size % PageBytes != 0 then 1 else 0)
    decreases n
  {
    if n > 0 {
      FlushesSoFar(mem, size, n - 1);
      CountFlushesAppend(WriteTrace(mem, size, n - 1), AddressCommands(mem, n - 1, size));
      AddressFlushes(mem, n - 1, size);
      PageStep(n - 1);
    }
  }

  /** The write loop flushes `ceil(size / 128)` pages. */
  lemma FlushCount(mem: seq<Byte>, size: nat)
    requires size <= |mem|
    ensures CountFlushes(WriteTrace(mem, size, size)) == (size + PageBytes - 1) / PageBytes
  {
    FlushesSoFar(mem, size, size);
  }

  /** The write loop's pass for address `n - 1` adds that address's load. */
  lemma LoadsStep(mem: seq<Byte>, size: nat, n: nat)
    requires 0 < n <= |mem|
    ensures Loads(WriteTrace(mem, size, n)) == Loads(WriteTrace(mem, size, n - 1)) + [LoadFrame(n - 1, mem[n - 1])]
  {
    LoadsAppend(WriteTrace(mem, size, n - 1), AddressCommands(mem, n - 1, size));
    AddressLoads(mem, n - 1, size);
  }

  /** Exactly one load command per address, in increasing address order,
      carrying that address's byte. */
  lemma {:induction false} LoadsInOrder(mem: seq<Byte>, size: nat, n: nat)
    requires n <= |mem|
    ensures |Loads(WriteTrace(mem, size, n))| == n
    ensures forall a :: 0 <= a < n ==> Loads(WriteTrace(mem, size, n))[a] == LoadFrame(a, mem[a])
    decreases n
  {
    if n > 0 {
      LoadsInOrder(mem, size, n - 1);
      LoadsStep(mem, size, n);
      ExtendLoads(Loads(WriteTrace(mem, size, n - 1)), mem, n);
    }
  }

  lemma ExtendLoads(before: seq<Frame>, mem: seq<Byte>, n: nat)
    requires 0 < n <= |mem| && |before| == n - 1
    requires forall a :: 0 <= a < n - 1 ==> before[a] == LoadFrame(a, mem[a])
    ensures |before + [LoadFrame(n - 1, mem[n - 1])]| == n
    ensures forall a :: 0 <= a < n ==> (before + [LoadFrame(n - 1, mem[n - 1])])[a] == LoadFrame(a, mem[a])
  {
  }

  /** The 130-byte image: pages are flushed after bytes 127 and 129 only,
      two flushes in all. */
  lemma TwoPageImage(mem: seq<Byte>)
    requires 130 <= |mem|
    ensures forall a :: 0 <= a < 130 ==> (FlushesAt(a, 130) <==> a == 127 || a == 129)
    ensures CountFlushes(WriteTrace(mem, 130, 130)) == 2
  {
    FlushCount(mem, 130);
  }

  // ---------------------------------------------------------------------
  // Verifying the flash

  /** Read program memory, low byte (even address) or high byte (odd). */
  function ReadFrame(addr: nat): Frame {
    Frame(if addr % 2 == 1 then 0x28 else 0x20, (addr / 512) % 256, (addr / 2) % 256, 0x00)
  }

  /** Reads of addresses `0..n)`, in order. */
  function ReadTrace(n: nat): (t: seq<Frame>)
    ensures |t| == n
  {
    if n == 0 then [] else ReadTrace(n - 1) + [ReadFrame(n - 1)]
  }

  /** The part reads back the expected byte at `addr`. */
  predicate ReadsBack(device: Device, h: seq<Frame>, mem: seq<Byte>, addr: nat)
    requires addr < |mem|
  {
    Answer(device, h + ReadTrace(addr + 1)).b3 == mem[addr]
  }

  /** The first address at or after `a` that does not read back, or
      `size` when there is none. */
  function FirstMismatch(device: Device, h: seq<Frame>, mem: seq<Byte>, size: nat, a: nat): nat
    requires a <= size <= |mem|
    decreases size - a
  {
    if a == size || !ReadsBack(device, h, mem, a) then a else FirstMismatch(device, h, mem, size, a + 1)
  }

  lemma {:induction false} FirstMismatchBound(device: Device, h: seq<Frame>, mem: seq<Byte>, size: nat, a: nat)
    requires a <= size <= |mem|
    ensures a <= FirstMismatch(device, h, mem, size, a) <= size
    decreases size - a
  {
    if a < size && ReadsBack(device, h, mem, a) {
      FirstMismatchBound(device, h, mem, size, a + 1);
    }
  }

  lemma {:induction false} FirstMismatchFrom(device: Device, h: seq<Frame>, mem: seq<Byte>, size: nat, a: nat)
    requires a <= size <= |mem|
    ensures var m := FirstMismatch(device, h, mem, size, a);
      a <= m <= size
      && (forall i :: a <= i < m ==> ReadsBack(device, h, mem, i))
      && (m < size ==> !ReadsBack(device, h, mem, m))
    decreases size - a
  {
    if a < size && ReadsBack(device, h, mem, a) {
      FirstMismatchFrom(device, h, mem, size, a + 1);
    }
  }

  /** Every address before the first mismatch reads back correctly, and
      verification fails exactly when some address below `size` does not. */
  lemma FirstMismatchIsFirst(device: Device, h: seq<Frame>, mem: seq<Byte>, size: nat)
    requires size <= |mem|
    ensures var m := FirstMismatch(device, h, mem, size, 0);
      m <= size
      && (forall i :: 0 <= i < m ==> ReadsBack(device, h, mem, i))
      && (m < size ==> !ReadsBack(device, h, mem, m))
      && (m == size <==> forall i :: 0 <= i < size ==> ReadsBack(device, h, mem, i))
  {
    FirstMismatchFrom(device, h, mem, size, 0);
  }

  lemma {:induction false} FirstMismatchSkip(device: Device, h: seq<Frame>, mem: seq<Byte>, size: nat, a: nat)
    requires a <= size <= |mem|
    requires forall i :: 0 <= i < a ==> ReadsBack(device, h, mem, i)
    ensures FirstMismatch(device, h, mem, size, 0) == FirstMismatch(device, h, mem, size, a)
    decreases a
  {
    if a > 0 {
      FirstMismatchSkip(device, h, mem, size, a - 1);
    }
  }

  // ---------------------------------------------------------------------
  // The whole session of `flash_file`

  /** How a session ends: the value returned, every command sent (after
      those sent before), and the contents of `flash_mem`. */
  datatype Session = Session(status: int, trace: seq<Frame>, flash: seq<Byte>)

  /** Read the fuses and, unless they already are the desired ones, run
      `set_fuses`: both the fuse baseline taken before the erase and the
      drift check after the verify (by then the baseline always holds the
      desired fuses). Whether to go on, and the history after it. */
  function EnsureFuses(device: Device, h: seq<Frame>): (r: (bool, seq<Frame>))
    ensures |h| + |FuseReads| <= |r.1| && r.1[..|h| + |FuseReads|] == h + FuseReads
  {
    var h1 := h + FuseReads;
    if Replies(device, h, FuseReads) == DesiredFuses then (true, h1)
    else
      var n := FuseAttempts(device, h1, DesiredFuses, 0);
      (FusesWritten(device, h1, DesiredFuses), h1 + Repeat(FuseAttempt(DesiredFuses), n))
  }

  /** `flash_file` on a part answering as `device`, after the history `h`;
      `c2` and `c3` are what `cmd[2]` and `cmd[3]` hold on entry, `file`
      the file (None when it does not exist), `flash` the contents of
      `flash_mem` and `junk` those of the decoder's uninitialised record
      buffer. Success is returned as 0. */
  function FlashSession(device: Device, h: seq<Frame>, c2: Byte, c3: Byte, file: Option<seq<char>>,
                        flash: seq<Byte>, junk: seq<Byte>): (s: Session)
    requires |flash| == FlashSize && |junk| == MaxData
    ensures s.status == 0 || s.status == -1
    ensures |h| <= |s.trace| && s.trace[..|h|] == h
    ensures file.None? ==> s.status == -1
  {
    var enable := EnableFrame(c2, c3);
    var h1 := h + Repeat([enable], EnableTries(device, h, enable, 1));
    if !Enabled(device, h, enable) then Session(-1, h1, flash)
    else
      var h2 := h1 + SignatureReads;
      if Replies(device, h1, SignatureReads) != Signature then Session(-1, h2, flash)
      else
        var (fusesSet, h3) := EnsureFuses(device, h2);
        if !fusesSet then Session(-1, h3, flash)
        else
          var h4 := h3 + [EraseFrame];
          if file.None? then Session(-1, h4, flash)
          else Programming(device, h4, file.value, flash, junk)
  }

  /** The part of `flash_file` after the chip erase: decode the file into
      `flash_mem` and, when it decodes, burn the image. */
  function Programming(device: Device, h: seq<Frame>, file: seq<char>, flash: seq<Byte>, junk: seq<Byte>): (s: Session)
    requires |flash| == FlashSize && |junk| == MaxData
    ensures s.status == 0 || s.status == -1
    ensures |h| <= |s.trace| && s.trace[..|h|] == h
    ensures s.status == 0 ==> Decode(file, flash, FlashSize, 0, junk).result.Ok?
  {
    var out := Decode(file, flash, FlashSize, 0, junk);
    if out.result.Err? then Session(-1, h, out.image)
    else Burning(device, h, out.image, out.result.value)
  }

  /** Load and flush every byte of `mem` below `size`, read every byte
      back, and check the fuses did not drift. */
  function Burning(device: Device, h: seq<Frame>, mem: seq<Byte>, size: nat): (s: Session)
    requires size <= |mem|
    ensures s.status == 0 || s.status == -1
    ensures s.flash == mem
    ensures |h + WriteTrace(mem, size, size)| <= |s.trace|
    ensures s.trace[..|h + WriteTrace(mem, size, size)|] == h + WriteTrace(mem, size, size)
  {
    var h1 := h + WriteTrace(mem, size, size);
    var m := FirstMismatch(device, h1, mem, size, 0);
    if m < size then Session(-1, h1 + ReadTrace(m + 1), mem)
    else
      var (ok, h2) := EnsureFuses(device, h1 + ReadTrace(size));
      Session(if ok then 0 else -1, h2, mem)
  }

  /** A part that never answers the enable command gets 66 enable
      commands and nothing else. */
  lemma NotEnabledStops(device: Device, h: seq<Frame>, c2: Byte, c3: Byte, file: Option<seq<char>>,
                        flash: seq<Byte>, junk: seq<Byte>)
    requires |flash| == FlashSize && |junk| == MaxData
    requires forall k :: 1 <= k < MaxEnableTries ==> !Answers(device, h, EnableFrame(c2, c3), k)
    ensures FlashSession(device, h, c2, c3, file, flash, junk)
      == Session(-1, h + Repeat([EnableFrame(c2, c3)], MaxEnableTries), flash)
  {
    LateAnswerIgnored(device, h, EnableFrame(c2, c3));
  }

  /** A part with the wrong signature: after enabling and the three
      signature reads, `flash_file` gives up without a fuse, erase or
      flash command. */
  lemma WrongSignatureStops(device: Device, h: seq<Frame>, c2: Byte, c3: Byte, file: Option<seq<char>>,
                            flash: seq<Byte>, junk: seq<Byte>)
    requires |flash| == FlashSize && |junk| == MaxData
    requires Enabled(device, h, EnableFrame(c2, c3))
    requires Replies(device, h + Repeat([EnableFrame(c2, c3)], EnableTries(device, h, EnableFrame(c2, c3), 1)), SignatureReads) != Signature
    ensures var n := EnableTries(device, h, EnableFrame(c2, c3), 1);
      1 <= n < MaxEnableTries
      && FlashSession(device, h, c2, c3, file, flash, junk)
         == Session(-1, h + Repeat([EnableFrame(c2, c3)], n) + SignatureReads, flash)
  {
    EnableTriesFirst(device, h, EnableFrame(c2, c3));
  }

  /** Fuses are written only when the baseline read differs from the
      desired fuses; otherwise the baseline is the three reads alone. */
  lemma FusesWrittenOnlyWhenDifferent(device: Device, h: seq<Frame>)
    ensures var (ok, t) := EnsureFuses(device, h);
      (Replies(device, h, FuseReads) == DesiredFuses ==> ok && t == h + FuseReads)
      && (Replies(device, h, FuseReads) != DesiredFuses ==>
            exists n :: (1 <= n <= MaxFuseAttempts && t == h + FuseReads + Repeat(FuseAttempt(DesiredFuses), n)
                         && (ok <==> Readback(device, h + FuseReads, DesiredFuses, n - 1) == DesiredFuses)))
  {
    var h1 := h + FuseReads;
    FuseAttemptsFirst(device, h1, DesiredFuses);
    if Replies(device, h, FuseReads) != DesiredFuses {
      var n := FuseAttempts(device, h1, DesiredFuses, 0);
      var (ok, t) := EnsureFuses(device, h);
      assert t == h1 + Repeat(FuseAttempt(DesiredFuses), n);
      assert ok <==> Readback(device, h1, DesiredFuses, n - 1) == DesiredFuses;
    }
  }

  /** When the file cannot be decoded nothing is loaded: the last command
      sent is the chip erase. */
  lemma DecodeFailureAborts(device: Device, h: seq<Frame>, file: seq<char>, flash: seq<Byte>, junk: seq<Byte>)
    requires |flash| == FlashSize && |junk| == MaxData
    requires Decode(file, flash, FlashSize, 0, junk).result.Err?
    ensures Programming(device, h + [EraseFrame], file, flash, junk)
      == Session(-1, h + [EraseFrame], Decode(file, flash, FlashSize, 0, junk).image)
  {
  }

  /** Success means the whole image was sent and read back: the file
      decoded to `size` bytes, every one was loaded and flushed in order,
      and the part read back each of them as the image holds it. */
  lemma ProgrammingSucceeds(device: Device, h: seq<Frame>, file: seq<char>, flash: seq<Byte>, junk: seq<Byte>)
    requires |flash| == FlashSize && |junk| == MaxData
    requires Programming(device, h, file, flash, junk).status == 0
    ensures var out := Decode(file, flash, FlashSize, 0, junk);
      out.result.Ok? && out.result.value <= FlashSize && |out.image| == FlashSize
      && var size, mem := out.result.value, out.image;
      && Programming(device, h, file, flash, junk).flash == mem
      && Programming(device, h, file, flash, junk).trace[..|h| + |WriteTrace(mem, size, size)|]
         == h + WriteTrace(mem, size, size)
      && (forall a :: 0 <= a < size ==> ReadsBack(device, h + WriteTrace(mem, size, size), mem, a))
  {
    var out := Decode(file, flash, FlashSize, 0, junk);
    var size, mem := out.result.value, out.image;
    var h1 := h + WriteTrace(mem, size, size);
    FirstMismatchIsFirst(device, h1, mem, size);
    var t := Programming(device, h, file, flash, junk).trace;
    assert t[..|h1|] == h1;
  }

  /** The success path of the burn: when every byte reads back and the
      fuses have not drifted, the session ends with status 0 after the
      writes, the reads and one `get_fuses`, and no fuse is written. */
  lemma BurningSucceeds(device: Device, h: seq<Frame>, mem: seq<Byte>, size: nat)
    requires size <= |mem|
    requires forall a :: 0 <= a < size ==> ReadsBack(device, h + WriteTrace(mem, size, size), mem, a)
    requires Replies(device, h + WriteTrace(mem, size, size) + ReadTrace(size), FuseReads) == DesiredFuses
    ensures Burning(device, h, mem, size) == Session(0, h + WriteTrace(mem, size, size) + ReadTrace(size) + FuseReads, mem)
  {
    FirstMismatchIsFirst(device, h + WriteTrace(mem, size, size), mem, size);
  }

  /** A `set_fuses` write command: `{AC, A0/A8/A4, 00, value}`. */
  predicate IsFuseWrite(c: Frame) {
    c.b0 == 0xAC && (c.b1 == 0xA0 || c.b1 == 0xA8 || c.b1 == 0xA4)
  }

  predicate NoFuseWrites(t: seq<Frame>) {
    forall i :: 0 <= i < |t| ==> !IsFuseWrite(t[i])
  }

  lemma NoFuseWritesAppend(a: seq<Frame>, b: seq<Frame>)
    ensures NoFuseWrites(a + b) <==> NoFuseWrites(a) && NoFuseWrites(b)
  {
    if NoFuseWrites(a + b) {
      forall i | 0 <= i < |a|
        ensures !IsFuseWrite(a[i])
      {
        assert a[i] == (a + b)[i];
      }
      forall i | 0 <= i < |b|
        ensures !IsFuseWrite(b[i])
      {
        assert b[i] == (a + b)[|a| + i];
      }
    }
  }

  lemma {:induction false} RepeatNoFuseWrites(block: seq<Frame>, n: nat)
    requires NoFuseWrites(block)
    ensures NoFuseWrites(Repeat(block, n))
  {
    if n > 0 {
      RepeatNoFuseWrites(block, n - 1);
      NoFuseWritesAppend(Repeat(block, n - 1), block);
    }
  }

  /** The write loop sends only loads and flushes. */
  lemma {:induction false} WriteTraceNoFuseWrites(mem: seq<Byte>, size: nat, n: nat)
    requires n <= |mem|
    ensures NoFuseWrites(WriteTrace(mem, size, n))
  {
    if n > 0 {
      WriteTraceNoFuseWrites(mem, size, n - 1);
      NoFuseWritesAppend(WriteTrace(mem, size, n - 1), AddressCommands(mem, n - 1, size));
    }
  }

  /** The verify loop sends only reads. */
  lemma {:induction false} ReadTraceNoFuseWrites(n: nat)
    ensures NoFuseWrites(ReadTrace(n))
  {
    if n > 0 {
      ReadTraceNoFuseWrites(n - 1);
      NoFuseWritesAppend(ReadTrace(n - 1), [ReadFrame(n - 1)]);
    }
  }

  /** The commands `flash_file` has sent when it erases the chip of a part
      that enabled, has the right signature and already held the desired
      fuses. */
  function ErasedAfter(device: Device, h: seq<Frame>, c2: Byte, c3: Byte): seq<Frame> {
    h + Repeat([EnableFrame(c2, c3)], EnableTries(device, h, EnableFrame(c2, c3), 1))
      + SignatureReads + FuseReads + [EraseFrame]
  }

  /** What follows `h` in a trace made of `h` and seven more parts. */
  lemma Regroup(h: seq<Frame>, p1: seq<Frame>, p2: seq<Frame>, p3: seq<Frame>, p4: seq<Frame>,
                p5: seq<Frame>, p6: seq<Frame>, p7: seq<Frame>)
    ensures (h + p1 + p2 + p3 + p4 + p5 + p6 + p7)[|h|..] == p1 + p2 + p3 + p4 + p5 + p6 + p7
  {
    assert h + p1 + p2 + p3 + p4 + p5 + p6 + p7 == h + (p1 + p2 + p3 + p4 + p5 + p6 + p7);
  }

  lemma {:induction false} NoFuseWritesJoin(p1: seq<Frame>, p2: seq<Frame>, p3: seq<Frame>, p4: seq<Frame>,
                                            p5: seq<Frame>, p6: seq<Frame>, p7: seq<Frame>)
    requires NoFuseWrites(p1) && NoFuseWrites(p2) && NoFuseWrites(p3) && NoFuseWrites(p4)
    requires NoFuseWrites(p5) && NoFuseWrites(p6) && NoFuseWrites(p7)
    ensures NoFuseWrites(p1 + p2 + p3 + p4 + p5 + p6 + p7)
  {
    NoFuseWritesAppend(p1, p2);
    NoFuseWritesAppend(p1 + p2, p3);
    NoFuseWritesAppend(p1 + p2 + p3, p4);
    NoFuseWritesAppend(p1 + p2 + p3 + p4, p5);
    NoFuseWritesAppend(p1 + p2 + p3 + p4 + p5, p6);
    NoFuseWritesAppend(p1 + p2 + p3 + p4 + p5 + p6, p7);
  }

  /** Signature reads, fuse reads and the chip erase write no fuse. */
  lemma FixedCommandsNoFuseWrites()
    ensures NoFuseWrites(SignatureReads) && NoFuseWrites(FuseReads) && NoFuseWrites([EraseFrame])
  {
  }

  /** The commands of a successful session after `h`: no fuse write. */
  lemma SuccessTraceNoFuseWrites(enable: Frame, n: nat, mem: seq<Byte>, size: nat)
    requires enable.b1 == 0x53 && size <= |mem|
    ensures NoFuseWrites(Repeat([enable], n) + SignatureReads + FuseReads + [EraseFrame]
                         + WriteTrace(mem, size, size) + ReadTrace(size) + FuseReads)
  {
    RepeatNoFuseWrites([enable], n);
    WriteTraceNoFuseWrites(mem, size, size);
    ReadTraceNoFuseWrites(size);
    FixedCommandsNoFuseWrites();
    NoFuseWritesJoin(Repeat([enable], n), SignatureReads, FuseReads, [EraseFrame],
                     WriteTrace(mem, size, size), ReadTrace(size), FuseReads);
  }

  /** A part that enables, has the right signature and already holds the
      desired fuses is erased without a fuse write, and the session goes
      on with the file. */
  lemma SessionReachesProgramming(device: Device, h: seq<Frame>, c2: Byte, c3: Byte, file: seq<char>,
                                  flash: seq<Byte>, junk: seq<Byte>)
    requires |flash| == FlashSize && |junk| == MaxData
    requires Enabled(device, h, EnableFrame(c2, c3))
    requires var h1 := h + Repeat([EnableFrame(c2, c3)], EnableTries(device, h, EnableFrame(c2, c3), 1));
      Replies(device, h1, SignatureReads) == Signature
      && Replies(device, h1 + SignatureReads, FuseReads) == DesiredFuses
    ensures FlashSession(device, h, c2, c3, Some(file), flash, junk)
      == Programming(device, ErasedAfter(device, h, c2, c3), file, flash, junk)
  {
    var h1 := h + Repeat([EnableFrame(c2, c3)], EnableTries(device, h, EnableFrame(c2, c3), 1));
    assert EnsureFuses(device, h1 + SignatureReads) == (true, h1 + SignatureReads + FuseReads);
  }

  /** The success path of `flash_file`: a part that enables, has the right
      signature, already holds the desired fuses, reads back every byte of
      a file that decodes, and still holds the fuses afterwards gets status
      0; the session sends no fuse write, and `flash_mem` holds the image. */
  lemma SessionSucceeds(device: Device, h: seq<Frame>, c2: Byte, c3: Byte, file: seq<char>,
                        flash: seq<Byte>, junk: seq<Byte>)
    requires |flash| == FlashSize && |junk| == MaxData
    requires Enabled(device, h, EnableFrame(c2, c3))
    requires var h1 := h + Repeat([EnableFrame(c2, c3)], EnableTries(device, h, EnableFrame(c2, c3), 1));
      Replies(device, h1, SignatureReads) == Signature
      && Replies(device, h1 + SignatureReads, FuseReads) == DesiredFuses
    requires Decode(file, flash, FlashSize, 0, junk).result.Ok?
    requires var out := Decode(file, flash, FlashSize, 0, junk);
      var size, mem, h4 := out.result.value, out.image, ErasedAfter(device, h, c2, c3);
      (forall a :: 0 <= a < size ==> ReadsBack(device, h4 + WriteTrace(mem, size, size), mem, a))
      && Replies(device, h4 + WriteTrace(mem, size, size) + ReadTrace(size), FuseReads) == DesiredFuses
    ensures var out := Decode(file, flash, FlashSize, 0, junk);
      var size, mem, h4 := out.result.value, out.image, ErasedAfter(device, h, c2, c3);
      FlashSession(device, h, c2, c3, Some(file), flash, junk)
        == Session(0, h4 + WriteTrace(mem, size, size) + ReadTrace(size) + FuseReads, mem)
    ensures NoFuseWrites(FlashSession(device, h, c2, c3, Some(file), flash, junk).trace[|h|..])
  {
    var enable := EnableFrame(c2, c3);
    var n := EnableTries(device, h, enable, 1);
    var out := Decode(file, flash, FlashSize, 0, junk);
    var size, mem, h4 := out.result.value, out.image, ErasedAfter(device, h, c2, c3);
    SessionReachesProgramming(device, h, c2, c3, file, flash, junk);
    BurningSucceeds(device, h4, mem, size);
    Regroup(h, Repeat([enable], n), SignatureReads, FuseReads, [EraseFrame],
            WriteTrace(mem, size, size), ReadTrace(size), FuseReads);
    SuccessTraceNoFuseWrites(enable, n, mem, size);
  }


  /** The single-byte image of `:0100000001FE` and `:00000001FF`: the byte
      0x01 lands at address 0 and is sent as one load-low and one flush. */
  lemma SingleByteImage(flash: seq<Byte>, junk: seq<Byte>)
    requires |flash| == FlashSize && |junk| == MaxData
    ensures Writable([Record(1, 0, 0, [0x01], 0xFE), EndOfFile])
    ensures Decode(Terminated(Written([Record(1, 0, 0, [0x01], 0xFE), EndOfFile])), flash, FlashSize, 0, junk)
      == Outcome(Ok(1), flash[0 := 0x01])
    ensures WriteTrace(flash[0 := 0x01], 1, 1) == [Frame(0x40, 0x00, 0x00, 0x01), Frame(0x4C, 0x00, 0x00, 0x00)]
  {
    var r := Record(1, 0, 0, [0x01], 0xFE);
    assert Checksum(r) == 0xFE by {
      assert [0x01][..0] == [];
    }
    DataRecordRoundTrip(r, flash, FlashSize, junk);
    assert Splice(flash, 0, [0x01]) == flash[0 := 0x01];
  }

  // ---------------------------------------------------------------------
  // The size test in `flash_file`

  /** `size = ihex2b(...)` as written: the `uint16_t` result, with `-1`
      for an error (0xFFFF), widened to `uint32_t`. */
  function SizeAsWritten(result: Result<Word16, DecodeError>): Word32 {
    if result.Ok? then result.value else 0xFFFF
  }

  /** `if (size < 0)` on the `uint32_t` size. */
  predicate SizeCheckFires(size: Word32) {
    size < 0
  }

  /** The error test never fires, so a decode error goes on as a size of
      65535 bytes: the write and verify loops would then read
      `flash_mem[32768..65535)`, beyond its end. */
  lemma SizeCheckNeverFires(result: Result<Word16, DecodeError>)
    ensures !SizeCheckFires(SizeAsWritten(result))
    ensures result.Err? ==> SizeAsWritten(result) > FlashSize
  {
  }
}
