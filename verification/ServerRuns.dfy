/** What holds of the diagnostic server after every sequence of commands, background steps and timeouts. */
module ServerRuns {
  import opened Bytes
  import opened Flash
  import opened MemoryMap
  import opened Kwp

  // ---------------------------------------------------------------- the boot regions

  /** Every address the pending operation can still touch lies at or above the application start. */
  predicate AboveBoot(s: Ecu) {
    match s.pending
    case FlashErase(start, _, _) => start >= Application.Start()
    case Flashing(_, addr, _, qspi) => qspi || addr >= Application.Start()
    case _ => true
  }

  /** Preloader and bootloader: everything below the application. */
  function BootCode(s: Ecu): Memory
    requires s.Valid()
  {
    s.nvm[..Application.Start()]
  }

  lemma StepKeepsBootCode(crc: CrcFn, s: Ecu, e: Event)
    requires s.Valid() && AboveBoot(s)
    requires e.Cmd? ==> Request(e.bytes)
    ensures Step(crc, s, e).Valid() && AboveBoot(Step(crc, s, e))
    ensures BootCode(Step(crc, s, e)) == BootCode(s)
  {
    StepKeepsValid(crc, s, e);
    if e.Cmd? {
      CommandKeepsBootCode(crc, s.(lastCmd := e.now, longOp := false), e.bytes, e.env);
    } else {
      UpdateKeepsBootCode(s, e.now, e.env);
    }
  }

  lemma CommandKeepsBootCode(crc: CrcFn, s: Ecu, cmd: seq<Byte>, env: Env)
    requires s.Valid() && AboveBoot(s) && Request(cmd)
    ensures var t := Dispatch(crc, s, cmd, env).0; AboveBoot(t) && t.Valid() && BootCode(t) == BootCode(s)
  {
    if cmd[0] == TRANSFER_DATA {
      TransferKeepsBootCode(s, cmd, env);
    } else {
      OthersProgramNothing(crc, s, cmd, env);
    }
  }

  lemma TransferKeepsBootCode(s: Ecu, cmd: seq<Byte>, env: Env)
    requires s.Valid() && AboveBoot(s) && Request(cmd)
    ensures var t := TransferData(s, cmd, env).0; AboveBoot(t) && t.Valid() && BootCode(t) == BootCode(s)
  {
    if s.pending.Flashing? && |cmd| > 2 {
      var t := TransferData(s, cmd, env).0;
      assert BootCode(t) == BootCode(s);
    }
  }

  lemma OthersProgramNothing(crc: CrcFn, s: Ecu, cmd: seq<Byte>, env: Env)
    requires s.Valid() && AboveBoot(s) && Request(cmd) && cmd[0] != TRANSFER_DATA
    ensures var t := Dispatch(crc, s, cmd, env).0; AboveBoot(t) && t.Valid() && t.nvm == s.nvm
  {
  }

  lemma UpdateKeepsBootCode(s: Ecu, now: nat, env: Env)
    requires s.Valid() && AboveBoot(s)
    ensures var t := Update(s, now, env); AboveBoot(t) && t.Valid() && BootCode(t) == BootCode(s)
  {
    assert BootCode(Update(s, now, env)) == BootCode(s);
  }

  /** No command sequence changes the preloader or the running bootloader. */
  lemma {:induction false} BootCodeIsNeverTouched(crc: CrcFn, s: Ecu, events: seq<Event>)
    requires s.Valid() && AboveBoot(s) && WellFormed(events)
    ensures AboveBoot(Run(crc, s, events))
    ensures BootCode(Run(crc, s, events)) == BootCode(s)
    decreases |events|
  {
    if events != [] {
      StepKeepsBootCode(crc, s, events[0]);
      BootCodeIsNeverTouched(crc, Step(crc, s, events[0]), events[1..]);
    }
  }

  // ---------------------------------------------------------------- the programming session

  /** The request that opens the programming session. */
  predicate Opens(e: Event) {
    && e.Cmd? && (|e.bytes| == 2 || |e.bytes| == 4)
    && e.bytes[0] == START_SESSION && e.bytes[1] == SESSION_REPROGRAMMING
  }

  /** Outside the programming session with nothing pending. */
  predicate Locked(s: Ecu) {
    s.mode != Reprogramming && s.pending == Idle
  }

  predicate SameStores(s: Ecu, t: Ecu) {
    t.nvm == s.nvm && t.qspi == s.qspi && t.marks == s.marks && t.ops == s.ops
  }

  /** A locked server is unlocked by that request and by nothing else, and no step of it touches a store. */
  lemma UnlockedIff(crc: CrcFn, s: Ecu, e: Event)
    requires s.Valid() && Locked(s)
    requires e.Cmd? ==> Request(e.bytes)
    ensures Locked(Step(crc, s, e)) <==> !Opens(e)
    ensures SameStores(s, Step(crc, s, e)) && Step(crc, s, e).pending == Idle
  {
    if e.Cmd? {
      var t := s.(lastCmd := e.now, longOp := false);
      LockedCommand(crc, t, e.bytes, e.env);
    }
  }

  lemma LockedCommand(crc: CrcFn, s: Ecu, cmd: seq<Byte>, env: Env)
    requires s.Valid() && Locked(s) && Request(cmd)
    ensures var t := Dispatch(crc, s, cmd, env).0;
            && SameStores(s, t) && t.pending == Idle
            && (t.mode == Reprogramming <==>
                (|cmd| == 2 || |cmd| == 4) && cmd[0] == START_SESSION && cmd[1] == SESSION_REPROGRAMMING)
  {
  }

  /** Whatever else is sent: until a run opens the programming session, flash and markers stay as they are. */
  lemma {:induction false} LockedUntilOpened(crc: CrcFn, s: Ecu, events: seq<Event>)
    requires s.Valid() && Locked(s) && WellFormed(events)
    requires forall i :: 0 <= i < |events| ==> !Opens(events[i])
    ensures Locked(Run(crc, s, events)) && SameStores(s, Run(crc, s, events))
    decreases |events|
  {
    if events != [] {
      UnlockedIff(crc, s, events[0]);
      StepKeepsValid(crc, s, events[0]);
      LockedUntilOpened(crc, Step(crc, s, events[0]), events[1..]);
    }
  }

  /** A tester timeout locks the server again, whatever it was doing. */
  lemma TimeoutLocks(crc: CrcFn, s: Ecu, now: nat, env: Env)
    requires s.Valid() && TimedOut(s, now)
    ensures var t := Update(s, now, env); Locked(t) && SameStores(s, t) && t.completed.None?
  {
  }

  // ---------------------------------------------------------------- downloads

  /** End of the erased run of cells that starts at `a`. */
  function BlankTo(m: Memory, a: nat): (end: nat)
    requires a <= |m|
    ensures a <= end <= |m|
    ensures forall i :: a <= i < end ==> m[i] == ERASED
    ensures end == |m| || m[end] != ERASED
    decreases |m| - a
  {
    if a < |m| && m[a] == ERASED then BlankTo(m, a + 1) else a
  }

  /** The download under way, as the tester sees it: the blocks it had accepted, in order. */
  datatype History =
    | NoDownload
    | Download(start: nat, qspi: bool, blankEnd: nat, ids: seq<Byte>, blocks: seq<seq<Byte>>, linear: bool)

  /** Index of bus address `addr` in its memory. */
  function Cell(addr: nat, qspi: bool): nat {
    if qspi then (addr - QSPI_AHB) % 0x1_0000_0000 else addr
  }

  predicate Accepted(crc: CrcFn, s: Ecu, e: Event, sid: Byte)
    requires s.Valid()
    requires e.Cmd? ==> Request(e.bytes)
  {
    e.Cmd? && e.bytes[0] == sid && ProcessCmd(crc, s, e.bytes, e.now, e.env).1.Positive?
  }

  /** The bytes an accepted transfer carried. */
  function BlockBytes(s: Ecu, e: Event): seq<Byte>
    requires e.Cmd? && |e.bytes| > 2 && s.pending.Flashing?
  {
    if s.pending.compressed && e.env.decoded.Some? then e.env.decoded.value else e.bytes[2..]
  }

  function Observe(crc: CrcFn, h: History, s: Ecu, e: Event): History
    requires s.Valid()
    requires e.Cmd? ==> Request(e.bytes)
  {
    var t := Step(crc, s, e);
    if !t.pending.Flashing? then NoDownload
    else if Accepted(crc, s, e, REQUEST_DOWNLOAD) then
      var at := Cell(t.pending.addr, t.pending.qspi);
      var m := Cells(s, t.pending.qspi);
      Download(t.pending.addr, t.pending.qspi, if at <= |m| then BlankTo(m, at) else at, [], [], true)
    else if h.Download? && Accepted(crc, s, e, TRANSFER_DATA) && |e.bytes| > 2 && s.pending.Flashing? then
      Extend(h, s, e.bytes[1], BlockBytes(s, e))
    else h
  }

  /** One more accepted block; `linear` stays true while no chunk of it crosses a QSPI page. */
  function Extend(h: History, s: Ecu, id: Byte, data: seq<Byte>): History
    requires h.Download? && s.pending.Flashing?
  {
    h.(ids := h.ids + [id], blocks := h.blocks + [data],
       linear := h.linear && (h.qspi ==> PageSafe(Cell(s.pending.addr, true), |data|))
                 && s.pending.addr + |data| < WORD)
  }

  function ObserveRun(crc: CrcFn, h: History, s: Ecu, events: seq<Event>): History
    requires s.Valid() && WellFormed(events)
    decreases |events|
  {
    if events == [] then h
    else
      StepKeepsValid(crc, s, events[0]);
      ObserveRun(crc, Observe(crc, h, s, events[0]), Step(crc, s, events[0]), events[1..])
  }

  /** The blocks were numbered 0, 1, 2, ... modulo 256 and the server expects the next number. */
  predicate Numbered(h: History, s: Ecu)
    requires h.Download?
  {
    && s.pending.Flashing? && s.pending.qspi == h.qspi
    && |h.ids| == |h.blocks|
    && s.pending.blkId == |h.blocks| % 256
    && forall n :: 0 <= n < |h.ids| ==> h.ids[n] == n % 256
  }

  /** The server stands right behind the accepted bytes, and where memory was blank it holds them. */
  predicate Located(h: History, s: Ecu)
    requires h.Download?
  {
    var bytes := Concat(h.blocks);
    && s.pending.Flashing?
    && s.pending.addr == h.start + |bytes| < WORD
    && (h.qspi ==> QspiFlash.Contains(h.start))
    && h.blankEnd >= Cell(h.start, h.qspi)
    && HoldsBytes(Cells(s, h.qspi), Cell(h.start, h.qspi), bytes, h.blankEnd)
  }

  predicate Consistent(h: History, s: Ecu) {
    if h.NoDownload? then !s.pending.Flashing?
    else Numbered(h, s) && (h.linear ==> Located(h, s))
  }

  /** From `at` on, and up to `end`, the memory holds `bytes` and then blank cells. */
  predicate HoldsBytes(m: Memory, at: nat, bytes: seq<Byte>, end: nat) {
    forall i :: at <= i < end && i < |m| ==> m[i] == if i - at < |bytes| then bytes[i - at] else ERASED
  }

  lemma ProgramExtends(m: Memory, at: nat, bytes: seq<Byte>, data: seq<Byte>, end: nat)
    requires HoldsBytes(m, at, bytes, end)
    ensures HoldsBytes(ProgramAt(m, at + |bytes|, data), at, bytes + data, end)
  {
  }

  /** What an accepted block does to the server. */
  lemma TransferStep(crc: CrcFn, s: Ecu, e: Event)
    requires s.Valid()
    requires e.Cmd? && Request(e.bytes) && Accepted(crc, s, e, TRANSFER_DATA)
    ensures s.pending.Flashing? && |e.bytes| > 2 && e.bytes[1] == s.pending.blkId
    ensures var t := Step(crc, s, e);
            var data := BlockBytes(s, e);
            && t.pending == Accept(s, |data|)
            && Cells(t, s.pending.qspi) == (
                 if s.pending.qspi then QspiWrite(s.qspi, Cell(s.pending.addr, true), data)
                 else ProgramAt(s.nvm, s.pending.addr, data))
  {
  }

  lemma BeginConsistent(crc: CrcFn, h: History, s: Ecu, e: Event)
    requires s.Valid()
    requires e.Cmd? && Request(e.bytes) && Accepted(crc, s, e, REQUEST_DOWNLOAD)
    ensures Consistent(Observe(crc, h, s, e), Step(crc, s, e))
  {
  }

  lemma CellOffset(start: nat, n: nat, qspi: bool)
    requires start + n < WORD && (qspi ==> start >= QSPI_AHB)
    ensures Cell(start + n, qspi) == Cell(start, qspi) + n
  {
    if qspi {
      SmallMod(start - QSPI_AHB);
      SmallMod(start + n - QSPI_AHB);
    }
  }

  lemma SmallMod(x: nat)
    requires x < WORD
    ensures x % 0x1_0000_0000 == x
  {
  }

  lemma CountMod(n: nat)
    ensures (n % 256 + 1) % 256 == (n + 1) % 256
  {
  }

  lemma ExtendNumbered(h: History, s: Ecu, t: Ecu, data: seq<Byte>)
    requires h.Download? && Numbered(h, s) && t.pending == Accept(s, |data|)
    ensures Numbered(Extend(h, s, s.pending.blkId, data), t)
  {
    CountMod(|h.blocks|);
  }

  /** Programming `data` at the server's position is linear as long as the history stays `linear`. */
  lemma BlockIsLinear(h: History, s: Ecu, t: Ecu, data: seq<Byte>)
    requires h.Download? && Located(h, s) && s.pending.qspi == h.qspi
    requires Extend(h, s, s.pending.blkId, data).linear
    requires Cells(t, h.qspi) == if h.qspi then QspiWrite(s.qspi, Cell(s.pending.addr, true), data)
                                 else ProgramAt(s.nvm, s.pending.addr, data)
    ensures Cells(t, h.qspi) == ProgramAt(Cells(s, h.qspi), Cell(s.pending.addr, h.qspi), data)
  {
    if h.qspi {
      SafeWriteIsLinear(s.qspi, Cell(s.pending.addr, true), data);
    }
  }

  /** The next position, and that it does not wrap. */
  lemma ExtendAddress(s: Ecu, t: Ecu, n: nat)
    requires s.pending.Flashing? && t.pending == Accept(s, n) && s.pending.addr + n < WORD
    ensures t.pending.Flashing? && t.pending.addr == s.pending.addr + n
  {
    SmallMod(s.pending.addr + n);
  }

  lemma ExtendLocated(h: History, k: History, s: Ecu, t: Ecu, data: seq<Byte>)
    requires h.Download? && Located(h, s) && s.pending.qspi == h.qspi
    requires k.Download? && k.start == h.start && k.qspi == h.qspi && k.blankEnd == h.blankEnd
    requires Concat(k.blocks) == Concat(h.blocks) + data
    requires t.pending.Flashing? && t.pending.addr == s.pending.addr + |data| < WORD
    requires Cells(t, h.qspi) == ProgramAt(Cells(s, h.qspi), Cell(s.pending.addr, h.qspi), data)
    ensures Located(k, t)
  {
    var bytes, at := Concat(h.blocks), Cell(h.start, h.qspi);
    CellOffset(h.start, |bytes|, h.qspi);
    ProgramExtends(Cells(s, h.qspi), at, bytes, data, h.blankEnd);
    assert HoldsBytes(Cells(t, k.qspi), Cell(k.start, k.qspi), Concat(k.blocks), k.blankEnd);
  }

  /** An accepted block carries the expected number and lands right behind the bytes before it. */
  lemma TransferConsistent(crc: CrcFn, h: History, s: Ecu, e: Event)
    requires s.Valid() && Consistent(h, s)
    requires e.Cmd? && Request(e.bytes) && Accepted(crc, s, e, TRANSFER_DATA)
    ensures Consistent(Observe(crc, h, s, e), Step(crc, s, e))
  {
    TransferStep(crc, s, e);
    ExtendNumbered(h, s, Step(crc, s, e), BlockBytes(s, e));
    if Observe(crc, h, s, e).linear {
      BlockIsLinear(h, s, Step(crc, s, e), BlockBytes(s, e));
      ExtendAddress(s, Step(crc, s, e), |BlockBytes(s, e)|);
      ConcatOne(h.blocks, BlockBytes(s, e));
      ExtendLocated(h, Observe(crc, h, s, e), s, Step(crc, s, e), BlockBytes(s, e));
    }
  }

  lemma OtherConsistent(crc: CrcFn, h: History, s: Ecu, e: Event)
    requires s.Valid() && Consistent(h, s)
    requires e.Cmd? ==> Request(e.bytes)
    requires !Accepted(crc, s, e, TRANSFER_DATA) && !Accepted(crc, s, e, REQUEST_DOWNLOAD)
    ensures Consistent(Observe(crc, h, s, e), Step(crc, s, e))
  {
    var t := Step(crc, s, e);
    if t.pending.Flashing? {
      assert t.nvm == s.nvm && t.qspi == s.qspi && t.pending == s.pending;
    }
  }

  /**
    For every sequence of commands, steps and timeouts: the accepted blocks were numbered 0, 1, 2, ...
    modulo 256, the next expected number continues them, and where the memory was blank when the
    download began it holds exactly the accepted bytes in order, then still-blank cells.
   */
  lemma {:induction false} AcceptedBlocksAreInMemory(crc: CrcFn, h: History, s: Ecu, events: seq<Event>)
    requires s.Valid() && Consistent(h, s) && WellFormed(events)
    ensures Consistent(ObserveRun(crc, h, s, events), Run(crc, s, events))
    decreases |events|
  {
    if events != [] {
      var e := events[0];
      if Accepted(crc, s, e, REQUEST_DOWNLOAD) {
        BeginConsistent(crc, h, s, e);
      } else if Accepted(crc, s, e, TRANSFER_DATA) {
        TransferConsistent(crc, h, s, e);
      } else {
        OtherConsistent(crc, h, s, e);
      }
      StepKeepsValid(crc, s, e);
      AcceptedBlocksAreInMemory(crc, Observe(crc, h, s, e), Step(crc, s, e), events[1..]);
    }
  }

  /** When a transfer is accepted, and that a refused one leaves memories and position alone. */
  lemma TransferAcceptedIff(crc: CrcFn, s: Ecu, cmd: seq<Byte>, now: nat, env: Env)
    requires s.Valid() && Request(cmd) && cmd[0] == TRANSFER_DATA
    ensures var (t, reply) := ProcessCmd(crc, s, cmd, now, env);
            && (reply.Positive? <==>
                && s.pending.Flashing? && |cmd| > 2 && cmd[1] == s.pending.blkId
                && (if s.pending.compressed
                    then env.decoded.Some? && |env.decoded.value| % 4 == 0 && |env.decoded.value| <= FLASH_BUF
                    else |cmd| % 4 == 2)
                && (s.pending.qspi || NvmTakes(s.pending.addr, |BlockBytes(s, Cmd(cmd, now, env))|, env)))
            && (!reply.Positive? ==> t == s.(lastCmd := now, longOp := false))
  {
  }

  /** No background step erases or programs anything while a download is pending. */
  lemma DownloadHoldsOffErase(s: Ecu, now: nat, env: Env)
    requires s.Valid() && s.pending.Flashing?
    ensures var t := Update(s, now, env); t.nvm == s.nvm && t.qspi == s.qspi && t.ops == s.ops
  {
  }
}
