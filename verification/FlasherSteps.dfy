/** The flasher's requests, and what downloads and checks do to a server in the programming session. */
module FlasherSteps {
  import opened Bytes
  import opened Flash
  import opened MemoryMap
  import opened Kwp
  import opened EraseRuns

  function EraseRequest(start: nat, pages: nat): seq<Byte> {
    [START_ROUTINE, ROUTINE_ERASE] + Le32(start) + Le16(pages)
  }

  function ResultsRequest(): seq<Byte> {
    [ROUTINE_RESULTS, ROUTINE_ERASE]
  }

  function DownloadRequest(start: nat, size: nat): seq<Byte> {
    [REQUEST_DOWNLOAD] + Le32(start) + [0] + Le32(size)
  }

  function BlockRequest(counter: Byte, chunk: seq<Byte>): seq<Byte> {
    [TRANSFER_DATA, counter] + chunk
  }

  function ExitRequest(): seq<Byte> {
    [TRANSFER_EXIT]
  }

  function CheckRequest(crc: Word, start: nat, size: nat): seq<Byte> {
    [START_ROUTINE, ROUTINE_CHECK] + Le32(crc) + Le32(start) + Le32(size)
  }

  // ---------------------------------------------------------------- where an image goes

  predicate OnQspi(start: nat) {
    QspiFlash.Contains(start)
  }

  /** Bus address of the first byte of an image. */
  function Bus(start: nat): nat {
    if start == Bootloader.Start() then BootloaderScratch.Start() else start
  }

  /** First cell an image for `start` is written to; a bootloader image goes to the scratch area. */
  function Base(start: nat): nat {
    if start == Bootloader.Start() then BootloaderScratch.Start()
    else if OnQspi(start) then start - QSPI_AHB
    else start
  }

  /**
    An image of `n` bytes lies strictly inside the region it goes to, on a page boundary. For a bootloader
    image that is the whole rest of the flash from the scratch area on: neither flasher nor server compares
    its size with that of the bootloader.
   */
  predicate Fits(start: nat, n: nat) {
    && start % 0x2000 == 0
    && (|| (Application.Contains(Bus(start)) && Application.Contains(Bus(start) + n))
        || (QspiFlash.Contains(start) && QspiFlash.Contains(start + n)))
  }

  /** `m` is `m0` with `pages` pages from `base` on erased and the first of them holding `image`. */
  predicate Holds(m0: Memory, m: Memory, base: nat, pages: nat, image: seq<Byte>) {
    && |m| == |m0|
    && forall i :: 0 <= i < |m| ==>
         m[i] == if base <= i < base + |image| then image[i - base]
                 else if base <= i < base + SECTOR_SIZE * pages then ERASED
                 else m0[i]
  }

  /** The pages an image occupies lie inside the memory it is written to. */
  lemma FitsPages(start: nat, n: nat)
    requires Fits(start, n)
    ensures Base(start) % 0x2000 == 0 && n <= SECTOR_SIZE * Pages(n) < 0x200_0000
    ensures Base(start) + SECTOR_SIZE * Pages(n) <= if OnQspi(start) then QSPI_SIZE else FLASH_SIZE
    ensures Application.Start() <= Base(start) || OnQspi(start)
    ensures Pages(n) <= 2048 && (Pages(n) == 0 <==> n == 0)
  {
  }

  // ---------------------------------------------------------------- background steps

  /** Every page program issued since `s0` stays inside one 256-byte page. */
  predicate NoCrossing(s0: Ecu, s: Ecu) {
    && s0.ops <= s.ops
    && forall i :: |s0.ops| <= i < |s.ops| ==> InPage(s.ops[i])
  }

  predicate InPage(op: FlashOp) {
    op.ProgramPage? ==> op.at % 256 + op.len <= 256
  }

  lemma NoCrossingChains(s0: Ecu, s1: Ecu, s2: Ecu)
    requires NoCrossing(s0, s1) && NoCrossing(s1, s2)
    ensures NoCrossing(s0, s2)
  {
    assert forall i :: 0 <= i < |s1.ops| ==> s2.ops[i] == s1.ops[i];
  }

  /** A background step that comes before the tester timeout. */
  predicate Prompt(s: Ecu, e: Event) {
    e.Tick? && e.now <= s.lastCmd + P2_MAX_MS
  }

  /** A run of background steps with no tester timeout among them. */
  predicate PromptRun(s: Ecu, events: seq<Event>) {
    forall i :: 0 <= i < |events| ==> Prompt(s, events[i])
  }

  predicate AllOk(events: seq<Event>) {
    forall i :: 0 <= i < |events| ==> events[i].env.hwOk
  }

  predicate Calm(s: Ecu) {
    s.pending.Idle? || s.pending.Flashing?
  }

  /** With no erase and no reset pending, prompt background steps do at most find the QSPI chip. */
  lemma {:induction false} CalmRun(crc: CrcFn, s: Ecu, events: seq<Event>)
    requires s.Valid() && Calm(s) && PromptRun(s, events)
    ensures var t := Run(crc, s, events);
            t == s.(qspiSize := t.qspiSize) && (s.qspiSize != 0 ==> t == s)
    decreases |events|
  {
    if events != [] {
      CalmRun(crc, Step(crc, s, events[0]), events[1..]);
    }
  }

  // ---------------------------------------------------------------- download

  lemma DownloadRequestShape(start: nat, size: nat)
    requires start < WORD && size < WORD
    ensures var cmd := DownloadRequest(start, size);
            && |cmd| == 10 && cmd[0] == REQUEST_DOWNLOAD && cmd[5] == 0
            && FromLe32(cmd[1..5]) == start && FromLe32(cmd[6..10]) == size
  {
    var cmd := DownloadRequest(start, size);
    Le32RoundTrip(start);
    Le32RoundTrip(size);
    Fields([REQUEST_DOWNLOAD], Le32(start), [0], Le32(size));
  }

  /** A fitting image ends inside the region it begins in. */
  lemma FitsRegion(start: nat, n: nat)
    requires Fits(start, n)
    ensures start + n < WORD && (start + n) % 0x1_0000_0000 == start + n
    ensures QspiFlash.Contains(start) && QspiFlash.Contains(start + n) <==> OnQspi(start)
    ensures start != Bootloader.Start() && !OnQspi(start) ==>
              Application.Contains(start) && Application.Contains(start + n)
  {
  }

  lemma DownloadEffect(s: Ecu, cmd: seq<Byte>, start: nat, n: nat)
    requires s.mode == Reprogramming && Fits(start, n) && |cmd| == 10
    requires FromLe32(cmd[1..5]) == start && cmd[5] == 0 && FromLe32(cmd[6..10]) == n
    ensures StartDownload(s, cmd) == (s.(pending := Flashing(0, Bus(start), false, OnQspi(start))), Ack(cmd, [4, 0]))
  {
    FitsRegion(start, n);
  }

  lemma DownloadStarts(crc: CrcFn, s: Ecu, start: nat, n: nat, now: nat, env: Env)
    requires s.Valid() && s.mode == Reprogramming && Fits(start, n)
    ensures Request(DownloadRequest(start, n))
    ensures var (t, reply) := ProcessCmd(crc, s, DownloadRequest(start, n), now, env);
            && reply.Positive?
            && t == s.(lastCmd := now, longOp := false, pending := Flashing(0, Bus(start), false, OnQspi(start)))
  {
    FitsRegion(start, n);
    DownloadRequestShape(start, n);
    DownloadEffect(s.(lastCmd := now, longOp := false), DownloadRequest(start, n), start, n);
    DownloadDispatched(crc, s, DownloadRequest(start, n), now, env);
  }

  lemma DownloadDispatched(crc: CrcFn, s: Ecu, cmd: seq<Byte>, now: nat, env: Env)
    requires s.Valid() && Request(cmd) && cmd[0] == REQUEST_DOWNLOAD
    ensures ProcessCmd(crc, s, cmd, now, env) == StartDownload(s.(lastCmd := now, longOp := false), cmd)
  {
  }

  /** Session, recorded result and markers are as the download found them. */
  predicate Steady(s1: Ecu, s: Ecu) {
    s.mode == Reprogramming && s.completed == s1.completed && s.marks == s1.marks && NoCrossing(s1, s)
  }

  /** The server stands at byte `pos` of the image and expects block number `counter`. */
  predicate Standing(s: Ecu, start: nat, pos: nat, counter: Byte) {
    s.pending == Flashing(counter, Bus(start) + pos, false, OnQspi(start))
  }

  /** The first `pos` bytes of `data` are programmed over what was there, and nothing else has changed. */
  predicate Loaded(s1: Ecu, s: Ecu, start: nat, data: seq<Byte>, pos: nat)
    requires pos <= |data|
  {
    && Cells(s, !OnQspi(start)) == Cells(s1, !OnQspi(start))
    && Cells(s, OnQspi(start)) == ProgramAt(Cells(s1, OnQspi(start)), Base(start), data[..pos])
  }

  /** Number of the block that begins at byte `pos`, modulo 256. */
  function BlockNumber(pos: nat): Byte {
    (pos + 1023) / 1024 % 256
  }

  /** The download of `data` under way, the first `pos` bytes of it accepted in 1024-byte blocks. */
  predicate Loading(s1: Ecu, s: Ecu, start: nat, data: seq<Byte>, pos: nat) {
    && pos <= |data| && (pos % 1024 == 0 || pos == |data|)
    && Steady(s1, s) && Standing(s, start, pos, BlockNumber(pos)) && Loaded(s1, s, start, data, pos)
  }

  lemma MoreProgrammed(m: Memory, base: nat, data: seq<Byte>, pos: nat, next: nat)
    requires pos <= next <= |data|
    ensures ProgramAt(ProgramAt(m, base, data[..pos]), base + pos, data[pos..next]) == ProgramAt(m, base, data[..next])
  {
    ProgramInTwo(m, base, data[..pos], data[pos..next]);
    assert data[..pos] + data[pos..next] == data[..next];
  }

  lemma {:induction false} ChunksInPage(a: nat, n: nat)
    requires PageSafe(a, n)
    ensures forall i :: 0 <= i < |Chunks(a, n)| ==> InPage(Chunks(a, n)[i])
    decreases n
  {
    if n > 256 {
      ChunksInPage(a + 256, n - 256);
    }
  }

  /** `t` is `s` after it programmed `data` at its position. */
  predicate Wrote(s: Ecu, t: Ecu, data: seq<Byte>)
    requires s.pending.Flashing?
  {
    var at := (s.pending.addr - QSPI_AHB) % 0x1_0000_0000;
    && t.pending == Accept(s, |data|)
    && t.mode == s.mode && t.completed == s.completed && t.marks == s.marks && t.lastCmd == s.lastCmd
    && t.qspi == (if s.pending.qspi then QspiWrite(s.qspi, at, data) else s.qspi)
    && t.ops == (if s.pending.qspi then s.ops + Chunks(at, |data|) else s.ops)
    && t.nvm == (if s.pending.qspi then s.nvm else ProgramAt(s.nvm, s.pending.addr, data))
  }

  /** What the server does with the next block of an uncompressed download. */
  lemma BlockTransferred(s: Ecu, cmd: seq<Byte>, env: Env)
    requires s.Valid() && Request(cmd) && s.pending.Flashing? && !s.pending.compressed
    requires |cmd| > 2 && cmd[1] == s.pending.blkId
    ensures var (t, reply) := TransferData(s, cmd, env);
            && (reply.Positive? <==>
                |cmd| % 4 == 2 && (s.pending.qspi || NvmTakes(s.pending.addr, |cmd| - 2, env)))
            && (reply.Positive? ==> Wrote(s, t, cmd[2..]))
  {
  }

  /** Where block `pos` of a fitting image lies. */
  lemma BlockPlace(start: nat, n: nat, pos: nat, size: nat)
    requires Fits(start, n) && pos % 1024 == 0 && pos + size <= n
    ensures Bus(start) + pos + size < 0x0500_0000
    ensures OnQspi(start) ==> (Bus(start) + pos - QSPI_AHB) % 0x1_0000_0000 == Base(start) + pos
    ensures !OnQspi(start) ==> Bus(start) == Base(start)
    ensures (Base(start) + pos) % 256 == 0 && (Bus(start) + pos) % 4 == 0
    ensures Base(start) + pos + size <= if OnQspi(start) then QSPI_SIZE else FLASH_SIZE
  {
    BasesAreAligned(start, n);
    Multiples(Base(start), pos);
    Multiples(Bus(start), pos);
    if OnQspi(start) {
      var at := Bus(start) + pos - QSPI_AHB;
      assert at == Base(start) + pos && 0 <= at < 0x100_0000;
    }
  }

  lemma BasesAreAligned(start: nat, n: nat)
    requires Fits(start, n)
    ensures Base(start) % 0x2000 == 0 && Bus(start) % 0x2000 == 0
    ensures OnQspi(start) ==> Base(start) == Bus(start) - QSPI_AHB && Base(start) + n < QSPI_SIZE
    ensures !OnQspi(start) ==> Base(start) == Bus(start) && Base(start) + n < FLASH_SIZE
  {
  }

  lemma Multiples(base: nat, pos: nat)
    requires base % 0x2000 == 0 && pos % 1024 == 0
    ensures (base + pos) % 256 == 0 && (base + pos) % 4 == 0
  {
    var a, b := base / 0x2000, pos / 1024;
    assert base == 0x2000 * a && pos == 1024 * b;
    MultipleOf256(base + pos, 32 * a + 4 * b);
    MultipleOf4(base + pos, 2048 * a + 256 * b);
  }

  lemma MultipleOf256(x: nat, k: nat)
    requires x == 256 * k
    ensures x % 256 == 0
  {
  }

  lemma MultipleOf4(x: nat, k: nat)
    requires x == 4 * k
    ensures x % 4 == 0
  {
  }

  lemma NextBlockNumber(pos: nat, size: nat)
    requires pos % 1024 == 0 && 0 < size <= 1024
    ensures (BlockNumber(pos) as int + 1) % 256 == BlockNumber(pos + size)
  {
    var a := pos / 1024;
    assert pos == 1024 * a;
    assert (pos + 1023) / 1024 == a && (pos + size + 1023) / 1024 == a + 1;
    NextCount(a);
  }

  lemma NextCount(a: nat)
    ensures (a % 256 + 1) % 256 == (a + 1) % 256
  {
  }

  lemma SameRest(pos: nat, size: nat, k: nat)
    requires pos == 4 * k
    ensures size % 4 == 0 <==> (pos + size) % 4 == 0
  {
  }

  /** The flasher's loop variables after a block. */
  lemma NextBlock(pos: nat, n: nat)
    requires pos < n && pos % 1024 == 0
    ensures var next := pos + Min(BLOCK_SIZE, n - pos);
            && (next % 1024 == 0 || next == n)
            && (BlockNumber(pos) as int + 1) % 256 == BlockNumber(next)
            && ((next - pos) % 4 == 0 <==> next % 4 == 0)
  {
    var size := Min(BLOCK_SIZE, n - pos);
    NextBlockNumber(pos, size);
    SameRest(pos, size, 256 * (pos / 1024));
    if size == BLOCK_SIZE {
      WholeBlock(pos);
    }
  }

  lemma WholeBlock(pos: nat)
    requires pos % 1024 == 0
    ensures (pos + 1024) % 1024 == 0
  {
  }

  lemma StandingNext(s: Ecu, t: Ecu, start: nat, data: seq<Byte>, pos: nat, next: nat)
    requires Fits(start, |data|) && Standing(s, start, pos, BlockNumber(pos))
    requires pos % 1024 == 0 && pos < next <= |data| && next - pos <= 1024
    requires t.pending == Accept(s, next - pos)
    ensures Standing(t, start, next, BlockNumber(next))
  {
    BlockPlace(start, |data|, pos, next - pos);
    NextBlockNumber(pos, next - pos);
    assert (Bus(start) + next) % 0x1_0000_0000 == Bus(start) + next;
  }

  /** The block went where it belongs, and the other memory was left alone. */
  lemma CellsNext(s: Ecu, t: Ecu, start: nat, n: nat, pos: nat, chunk: seq<Byte>)
    requires Fits(start, n) && Standing(s, start, pos, BlockNumber(pos))
    requires pos % 1024 == 0 && pos + |chunk| <= n && Wrote(s, t, chunk)
    ensures Cells(t, OnQspi(start)) == ProgramAt(Cells(s, OnQspi(start)), Base(start) + pos, chunk)
    ensures Cells(t, !OnQspi(start)) == Cells(s, !OnQspi(start))
  {
    BlockPlace(start, n, pos, |chunk|);
    if OnQspi(start) {
      SafeWriteIsLinear(s.qspi, Base(start) + pos, chunk);
    }
  }

  lemma LoadedNext(s1: Ecu, s: Ecu, t: Ecu, start: nat, data: seq<Byte>, pos: nat, next: nat)
    requires pos < next <= |data| && Loaded(s1, s, start, data, pos)
    requires Cells(t, OnQspi(start)) == ProgramAt(Cells(s, OnQspi(start)), Base(start) + pos, data[pos..next])
    requires Cells(t, !OnQspi(start)) == Cells(s, !OnQspi(start))
    ensures Loaded(s1, t, start, data, next)
  {
    MoreProgrammed(Cells(s1, OnQspi(start)), Base(start), data, pos, next);
  }

  lemma SteadyNext(s1: Ecu, s: Ecu, t: Ecu, start: nat, data: seq<Byte>, pos: nat, next: nat)
    requires Fits(start, |data|) && Standing(s, start, pos, BlockNumber(pos))
    requires pos % 1024 == 0 && pos < next <= |data|
    requires Wrote(s, t, data[pos..next]) && Steady(s1, s)
    ensures Steady(s1, t)
  {
    BlockPlace(start, |data|, pos, next - pos);
    if OnQspi(start) {
      ChunksInPage(Base(start) + pos, next - pos);
    }
  }

  /** The server takes the next block of a fitting image exactly when it is whole words and the flash works. */
  lemma BlockTaken(s: Ecu, start: nat, data: seq<Byte>, pos: nat, next: nat, env: Env)
    requires s.Valid() && Fits(start, |data|) && Standing(s, start, pos, BlockNumber(pos))
    requires pos % 1024 == 0 && pos < next <= |data| && next - pos <= 1024
    ensures var cmd := BlockRequest(BlockNumber(pos), data[pos..next]);
            && Request(cmd)
            && var (t, reply) := TransferData(s, cmd, env);
               && (reply.Positive? <==> (next - pos) % 4 == 0 && (OnQspi(start) || env.hwOk))
               && (reply.Positive? ==> Wrote(s, t, data[pos..next]))
  {
    var cmd := BlockRequest(BlockNumber(pos), data[pos..next]);
    BlockPlace(start, |data|, pos, next - pos);
    assert cmd[2..] == data[pos..next];
    BlockTransferred(s, cmd, env);
  }

  /** Timer and long-operation flag play no part in how far a download has come. */
  lemma LoadingTouched(s1: Ecu, s: Ecu, start: nat, data: seq<Byte>, pos: nat, now: nat)
    requires Loading(s1, s, start, data, pos)
    ensures Loading(s1, s.(lastCmd := now, longOp := false), start, data, pos)
  {
  }

  lemma LoadingNext(s1: Ecu, s: Ecu, t: Ecu, start: nat, data: seq<Byte>, pos: nat, next: nat)
    requires Fits(start, |data|) && Loading(s1, s, start, data, pos) && pos < |data|
    requires next == pos + Min(BLOCK_SIZE, |data| - pos)
    requires Wrote(s, t, data[pos..next])
    ensures Loading(s1, t, start, data, next)
  {
    NextBlock(pos, |data|);
    StandingNext(s, t, start, data, pos, next);
    CellsNext(s, t, start, |data|, pos, data[pos..next]);
    LoadedNext(s1, s, t, start, data, pos, next);
    SteadyNext(s1, s, t, start, data, pos, next);
  }

  /** The next block of a fitting image either takes the download one block on or is refused. */
  lemma BlockAccepted(
      crc: CrcFn, s1: Ecu, s: Ecu, start: nat, data: seq<Byte>, pos: nat, next: nat, now: nat, env: Env)
    requires s.Valid() && Fits(start, |data|) && Loading(s1, s, start, data, pos) && pos < |data|
    requires next == pos + Min(BLOCK_SIZE, |data| - pos)
    ensures var cmd := BlockRequest(BlockNumber(pos), data[pos..next]);
            && Request(cmd)
            && var (t, reply) := ProcessCmd(crc, s, cmd, now, env);
               && (reply.Positive? <==> (next - pos) % 4 == 0 && (OnQspi(start) || env.hwOk))
               && (reply.Positive? ==> Loading(s1, t, start, data, next) && t.lastCmd == now)
  {
    var cmd := BlockRequest(BlockNumber(pos), data[pos..next]);
    var r := s.(lastCmd := now, longOp := false);
    LoadingTouched(s1, s, start, data, pos, now);
    BlockTaken(r, start, data, pos, next, env);
    TransferDispatched(crc, s, cmd, now, env);
    if TransferData(r, cmd, env).1.Positive? {
      LoadingNext(s1, r, TransferData(r, cmd, env).0, start, data, pos, next);
    }
  }

  lemma TransferDispatched(crc: CrcFn, s: Ecu, cmd: seq<Byte>, now: nat, env: Env)
    requires s.Valid() && Request(cmd) && cmd[0] == TRANSFER_DATA
    ensures ProcessCmd(crc, s, cmd, now, env) == TransferData(s.(lastCmd := now, longOp := false), cmd, env)
  {
  }

  // ---------------------------------------------------------------- exit and check

  lemma ExitDone(crc: CrcFn, s: Ecu, now: nat, env: Env)
    requires s.Valid() && s.pending.Flashing?
    ensures Request(ExitRequest())
    ensures var (t, reply) := ProcessCmd(crc, s, ExitRequest(), now, env);
            reply.Positive? && t == s.(lastCmd := now, longOp := false, pending := Idle)
  {
  }

  lemma CheckRequestShape(crc: Word, start: nat, size: nat)
    requires start < WORD && size < WORD
    ensures var cmd := CheckRequest(crc, start, size);
            && |cmd| == 14 && cmd[0] == START_ROUTINE && cmd[1] == ROUTINE_CHECK
            && FromLe32(cmd[2..6]) == crc && FromLe32(cmd[6..10]) == start && FromLe32(cmd[10..14]) == size
  {
    var cmd := CheckRequest(crc, start, size);
    Le32RoundTrip(crc);
    Le32RoundTrip(start);
    Le32RoundTrip(size);
    Fields([START_ROUTINE, ROUTINE_CHECK], Le32(crc), Le32(start), Le32(size));
  }

  /** The parts of a request that is put together from four pieces. */
  lemma Fields(head: seq<Byte>, a: seq<Byte>, b: seq<Byte>, c: seq<Byte>)
    ensures var s := head + a + b + c;
            var (i, j, k) := (|head|, |head| + |a|, |head| + |a| + |b|);
            s[..i] == head && s[i..j] == a && s[j..k] == b && s[k..k + |c|] == c
  {
  }

  /** The markers a matching check leaves behind. */
  function CheckedMarks(crc: CrcFn, m: Markers, nvm: Memory, start: nat): Markers
    requires |nvm| == FLASH_SIZE
  {
    if start == Bootloader.Start() then
      m.(blFlashingPending := 0, blInfo := CLEARED, crcBl := RegionCrc(crc, nvm, BootloaderScratch))
    else m.(appFlashingNotDone := 0, appInfo := CLEARED, crcApp := RegionCrc(crc, nvm, Application))
  }

  /** The check looks at the addresses the image went to. */
  lemma CheckRange(s: Ecu, start: nat, n: nat)
    requires s.Valid() && Fits(start, n) && !OnQspi(start)
    ensures Base(start) + n <= |s.nvm|
    ensures Readable(s.qspiSize, Base(start)) && Readable(s.qspiSize, (Base(start) + n) % 0x1_0000_0000)
  {
    FitsPages(start, n);
    assert (Base(start) + n) % 0x1_0000_0000 == Base(start) + n < FLASH_SIZE;
  }

  /** What is where an image for `start` was written. */
  function ImageAt(nvm: Memory, start: nat, n: nat): Memory
    requires Base(start) + n <= |nvm|
  {
    nvm[Base(start)..Base(start) + n]
  }

  /** What the check compares for an image: no CRC unless it is whole words. */
  function CheckedCrc(crc: CrcFn, image: Memory): Word {
    if |image| % 4 == 0 then crc(image) else 0
  }

  lemma CheckReply(crc: CrcFn, s: Ecu, start: nat, size: nat, target: Word, now: nat, env: Env)
    requires s.Valid() && s.mode == Reprogramming && s.pending == Idle && start < WORD && size < WORD
    ensures var cmd := CheckRequest(target, start, size);
            Request(cmd) && ProcessCmd(crc, s, cmd, now, env)
                            == FlashCheck(crc, s.(lastCmd := now, longOp := false), cmd, env)
  {
    CheckRequestShape(target, start, size);
  }

  /** The unit's CRC of what is where an image for `start` was written. */
  lemma UnitCrc(crc: CrcFn, s: Ecu, start: nat, n: nat, env: Env)
    requires s.Valid() && Fits(start, n) && !OnQspi(start) && Base(start) + n <= |s.nvm|
    ensures DsuCrc(crc, s, Base(start), n, env) == CheckedCrc(crc, ImageAt(s.nvm, start, n))
  {
  }

  /** The outcome of a check of readable memory. */
  lemma CheckOutcome(crc: CrcFn, s: Ecu, cmd: seq<Byte>, start: nat, n: nat, target: Word, env: Env)
    requires s.Valid() && |cmd| == 14 && cmd[0] == START_ROUTINE && !OnQspi(start)
    requires FromLe32(cmd[2..6]) == target && FromLe32(cmd[6..10]) == start && FromLe32(cmd[10..14]) == n
    requires Readable(s.qspiSize, Base(start)) && Readable(s.qspiSize, (Base(start) + n) % 0x1_0000_0000)
    ensures FlashCheck(crc, s, cmd, env) ==
              if DsuCrc(crc, s, Base(start), n, env) == target
              then (s.(marks := CheckedMarks(crc, s.marks, s.nvm, start)), Positive([0x71, 0xE1, 0x01]))
              else (s, Positive([0x71, 0xE1, 0x00]))
  {
    assert [0x71] + [0xE1, 0x01] == [0x71, 0xE1, 0x01] && [0x71] + [0xE1, 0x00] == [0x71, 0xE1, 0x00];
  }

  /** A check of internal flash compares what the CRC unit makes of it, and sets the markers when it matches. */
  lemma CheckCompares(crc: CrcFn, s: Ecu, start: nat, n: nat, target: Word, env: Env)
    requires s.Valid() && Fits(start, n) && !OnQspi(start) && n < WORD
    ensures var cmd := CheckRequest(target, start, n);
            && |cmd| == 14 && Base(start) + n <= |s.nvm|
            && FlashCheck(crc, s, cmd, env) ==
                 if CheckedCrc(crc, ImageAt(s.nvm, start, n)) == target
                 then (s.(marks := CheckedMarks(crc, s.marks, s.nvm, start)), Positive([0x71, 0xE1, 0x01]))
                 else (s, Positive([0x71, 0xE1, 0x00]))
  {
    var cmd := CheckRequest(target, start, n);
    CheckRequestShape(target, start, n);
    CheckRange(s, start, n);
    CheckOutcome(crc, s, cmd, start, n, target, env);
    UnitCrc(crc, s, start, n, env);
  }

  // ---------------------------------------------------------------- termination of the results poll

  predicate EraseOrIdle(s: Ecu) {
    s.pending.Idle? || s.pending.FlashErase? || s.pending.QspiErase?
  }

  /** Bounds the erase commands still to come. */
  function Remaining(s: Ecu): nat
    requires s.Valid()
  {
    match s.pending
    case FlashErase(_, total, current) => total - current
    case QspiErase(_, total, current) => if total > current then total - current else 1
    case _ => 0
  }

  lemma TickDrops(s: Ecu, now: nat, env: Env)
    requires s.Valid() && EraseOrIdle(s)
    ensures var t := Update(s, now, env);
            t.Valid() && EraseOrIdle(t) && (Remaining(s) > 0 ==> Remaining(t) < Remaining(s))
            && Remaining(t) <= Remaining(s)
  {
  }

  lemma {:induction false} RunDrops(crc: CrcFn, s: Ecu, events: seq<Event>)
    requires s.Valid() && EraseOrIdle(s) && AllTicks(events)
    ensures var t := Run(crc, s, events);
            && EraseOrIdle(t) && Remaining(t) <= Remaining(s)
            && (events != [] && Remaining(s) > 0 ==> Remaining(t) < Remaining(s))
    decreases |events|
  {
    if events != [] {
      TickDrops(s, events[0].now, events[0].env);
      RunDrops(crc, Step(crc, s, events[0]), events[1..]);
    }
  }
}
