/** Which commands and background steps change the application while the unit can still launch it. */
module ApplicationChanges {
  import opened Bytes
  import opened Flash
  import opened MemoryMap
  import opened Kwp
  import opened ServerRuns
  import opened FlasherSteps
  import opened BootDecision
  import opened BootRuns

  /** Nothing in flash and markers keeps the bootloader from launching the application. */
  predicate Launchable(marks: Markers, nvm: Memory)
    requires |nvm| == FLASH_SIZE
  {
    marks.prod.IsSet() && CanAppStart(marks, nvm)
  }

  /** The application's first word, which the boot decision looks at. */
  function Vector(nvm: Memory): Memory
    requires |nvm| == FLASH_SIZE
  {
    nvm[Application.Start()..Application.Start() + 4]
  }

  /** A block of a download into internal flash that the server takes. */
  predicate Programs(crc: CrcFn, s: Ecu, e: Kwp.Event)
    requires s.Valid()
    requires e.Cmd? ==> Request(e.bytes)
  {
    s.pending.Flashing? && !s.pending.qspi && Accepted(crc, s, e, TRANSFER_DATA) && |e.bytes| > 2
  }

  /** Where the pending erase stands. */
  function EraseAt(s: Ecu): nat
    requires s.pending.FlashErase?
  {
    s.pending.start + SECTOR_SIZE * s.pending.current
  }

  /** A background step that erases a sector of internal flash. */
  predicate Erases(s: Ecu, e: Kwp.Event) {
    && s.pending.FlashErase? && e.Tick? && !TimedOut(s, e.now)
    && e.env.hwOk && EraseAt(s) % 0x2000 == 0 && EraseAt(s) + SECTOR_SIZE <= FLASH_SIZE
  }

  /** What internal flash holds after the step. */
  function Written(crc: CrcFn, s: Ecu, e: Kwp.Event): Memory
    requires s.Valid()
    requires e.Cmd? ==> Request(e.bytes)
  {
    if Programs(crc, s, e) then ProgramAt(s.nvm, s.pending.addr, BlockBytes(s, e))
    else if Erases(s, e) then Erase(s.nvm, EraseAt(s), SECTOR_SIZE)
    else s.nvm
  }

  /** Blocks and erase steps are all that writes to internal flash, and neither sets a marker. */
  lemma OnlyBlocksAndErases(crc: CrcFn, s: Ecu, e: Kwp.Event)
    requires s.Valid()
    requires e.Cmd? ==> Request(e.bytes)
    ensures var t := Step(crc, s, e);
            t.Valid() && t.nvm == Written(crc, s, e) && (t.nvm != s.nvm ==> t.marks == s.marks)
  {
    StepKeepsValid(crc, s, e);
    if e.Cmd? {
      var r := s.(lastCmd := e.now, longOp := false);
      if e.bytes[0] == TRANSFER_DATA {
        BlockWrites(crc, s, e.bytes, e.now, e.env);
      } else {
        OthersWriteNothing(crc, r, e.bytes, e.env);
      }
    } else {
      TickWrites(s, e.now, e.env);
    }
  }

  lemma TickWrites(s: Ecu, now: nat, env: Env)
    requires s.Valid()
    ensures var (t, e) := (Update(s, now, env), Tick(now, env));
            && t.nvm == (if Erases(s, e) then Erase(s.nvm, EraseAt(s), SECTOR_SIZE) else s.nvm)
            && t.marks == s.marks
  {
  }

  lemma BlockWrites(crc: CrcFn, s: Ecu, cmd: seq<Byte>, now: nat, env: Env)
    requires s.Valid() && Request(cmd) && cmd[0] == TRANSFER_DATA
    ensures var (t, e) := (ProcessCmd(crc, s, cmd, now, env).0, Cmd(cmd, now, env));
            t.nvm == Written(crc, s, e) && t.marks == s.marks
  {
  }

  lemma OthersWriteNothing(crc: CrcFn, s: Ecu, cmd: seq<Byte>, env: Env)
    requires s.Valid() && Request(cmd) && cmd[0] != TRANSFER_DATA
    ensures Dispatch(crc, s, cmd, env).0.nvm == s.nvm
  {
  }

  /** Some byte of the block has a cleared bit where its cell has one set. */
  predicate ClearsBits(nvm: Memory, at: nat, data: seq<Byte>)
    requires at + |data| <= |nvm|
  {
    exists i :: 0 <= i < |data| && Program(nvm[at + i], data[i]) != nvm[at + i]
  }

  /** A block at the application's start clears no bit of its first word. */
  predicate KeepsFirstWord(nvm: Memory, data: seq<Byte>)
    requires |nvm| == FLASH_SIZE
  {
    forall i :: 0 <= i < 4 && i < |data| ==>
      Program(nvm[Application.Start() + i], data[i]) == nvm[Application.Start() + i]
  }

  lemma ProgramAlters(nvm: Memory, at: nat, data: seq<Byte>)
    requires at + |data| <= |nvm|
    ensures ProgramAt(nvm, at, data) != nvm <==> ClearsBits(nvm, at, data)
  {
    var m := ProgramAt(nvm, at, data);
    if ClearsBits(nvm, at, data) {
      var i :| 0 <= i < |data| && Program(nvm[at + i], data[i]) != nvm[at + i];
      assert m[at + i] != nvm[at + i];
    } else {
      forall k | 0 <= k < |nvm| ensures m[k] == nvm[k] {
        if at <= k < at + |data| {
          assert Program(nvm[at + (k - at)], data[k - at]) == nvm[k];
        }
      }
    }
  }

  /** Programmed cells lie in the flash, or nothing would have been accepted. */
  lemma BlockInside(crc: CrcFn, s: Ecu, e: Kwp.Event)
    requires s.Valid()
    requires e.Cmd? ==> Request(e.bytes)
    requires Programs(crc, s, e)
    ensures s.pending.addr % 4 == 0 && |BlockBytes(s, e)| % 4 == 0
    ensures s.pending.addr + |BlockBytes(s, e)| <= FLASH_SIZE
  {
  }

  lemma FarBlockSparesVector(nvm: Memory, at: nat, data: seq<Byte>)
    requires |nvm| == FLASH_SIZE && at >= Application.Start() + 4
    ensures Vector(ProgramAt(nvm, at, data)) == Vector(nvm)
  {
    var m := ProgramAt(nvm, at, data);
    forall i | 0 <= i < 4 ensures Vector(m)[i] == Vector(nvm)[i] {
      assert Vector(m)[i] == m[Application.Start() + i];
    }
  }

  lemma FirstBlockSparesVector(nvm: Memory, data: seq<Byte>)
    requires |nvm| == FLASH_SIZE && |data| % 4 == 0
    ensures Vector(ProgramAt(nvm, Application.Start(), data)) == Vector(nvm) <==> KeepsFirstWord(nvm, data)
  {
    var m, first := ProgramAt(nvm, Application.Start(), data), Application.Start();
    forall i | 0 <= i < 4 ensures i < |data| ==> Vector(m)[i] == Program(nvm[first + i], data[i]) {
      assert Vector(m)[i] == m[first + i];
    }
    if KeepsFirstWord(nvm, data) {
      forall i | 0 <= i < 4 ensures Vector(m)[i] == Vector(nvm)[i] {
        assert Vector(m)[i] == m[first + i] && Vector(nvm)[i] == nvm[first + i];
      }
    } else {
      var i :| 0 <= i < 4 && i < |data| && Program(nvm[first + i], data[i]) != nvm[first + i];
      assert Vector(m)[i] != Vector(nvm)[i];
    }
  }

  lemma VectorDecides(m: Memory, nvm: Memory)
    requires |m| == FLASH_SIZE && |nvm| == FLASH_SIZE && FromLe32(Vector(nvm)) == RAM_START
    ensures FromLe32(Vector(m)) == RAM_START <==> Vector(m) == Vector(nvm)
  {
    if FromLe32(Vector(m)) == RAM_START {
      FromLeInjective(Vector(m), Vector(nvm));
    }
  }

  lemma BlockKeepsVectorIff(nvm: Memory, at: nat, data: seq<Byte>)
    requires |nvm| == FLASH_SIZE && at >= Application.Start() && at % 4 == 0 && |data| % 4 == 0
    requires FromLe32(Vector(nvm)) == RAM_START
    ensures FromLe32(Vector(ProgramAt(nvm, at, data))) == RAM_START <==>
              at != Application.Start() || KeepsFirstWord(nvm, data)
  {
    VectorDecides(ProgramAt(nvm, at, data), nvm);
    if at == Application.Start() {
      FirstBlockSparesVector(nvm, data);
    } else {
      FarBlockSparesVector(nvm, at, data);
    }
  }

  // ---------------------------------------------------------------- erases

  /**
    An erase that is pending while the marker says "done" was asked for at the bootloader's address; it begins
    with the application's first sector, and once that is erased the first word is gone.
   */
  predicate UnmarkedErase(s: Ecu)
    requires s.Valid()
  {
    s.pending.FlashErase? && s.marks.appFlashingNotDone == 0 ==>
      && s.pending.start == Application.Start()
      && (s.pending.current > 0 ==> s.nvm[Application.Start()] == ERASED)
  }

  lemma StepKeepsUnmarkedErase(crc: CrcFn, s: Ecu, e: Kwp.Event)
    requires s.Valid() && UnmarkedErase(s)
    requires e.Cmd? ==> Request(e.bytes)
    ensures Step(crc, s, e).Valid() && UnmarkedErase(Step(crc, s, e))
  {
    StepKeepsValid(crc, s, e);
    if e.Cmd? {
      CommandKeepsUnmarkedErase(crc, s.(lastCmd := e.now, longOp := false), e.bytes, e.env);
    } else {
      TickKeepsUnmarkedErase(s, e.now, e.env);
    }
  }

  lemma CommandKeepsUnmarkedErase(crc: CrcFn, s: Ecu, cmd: seq<Byte>, env: Env)
    requires s.Valid() && UnmarkedErase(s) && Request(cmd)
    ensures var t := Dispatch(crc, s, cmd, env).0; t.Valid() && UnmarkedErase(t)
  {
  }

  lemma TickKeepsUnmarkedErase(s: Ecu, now: nat, env: Env)
    requires s.Valid() && UnmarkedErase(s)
    ensures var t := Update(s, now, env); t.Valid() && UnmarkedErase(t)
  {
  }

  lemma {:induction false} RunKeepsUnmarkedErase(crc: CrcFn, s: Ecu, events: seq<Kwp.Event>)
    requires s.Valid() && UnmarkedErase(s) && Kwp.WellFormed(events)
    ensures UnmarkedErase(Run(crc, s, events))
    decreases |events|
  {
    if events != [] {
      StepKeepsUnmarkedErase(crc, s, events[0]);
      RunKeepsUnmarkedErase(crc, Step(crc, s, events[0]), events[1..]);
    }
  }

  /** So an erase step on a unit that could launch its application takes the first word away. */
  lemma EraseTakesVector(s: Ecu, e: Kwp.Event)
    requires s.Valid() && UnmarkedErase(s) && Launchable(s.marks, s.nvm) && Erases(s, e)
    ensures FromLe32(Vector(Erase(s.nvm, EraseAt(s), SECTOR_SIZE))) != RAM_START
  {
    FirstByte(s.nvm);
    assert EraseAt(s) == Application.Start();
    FirstByte(Erase(s.nvm, EraseAt(s), SECTOR_SIZE));
  }

  /** An erased first byte does not spell the stack pointer. */
  lemma FirstByte(nvm: Memory)
    requires |nvm| == FLASH_SIZE
    ensures FromLe32(Vector(nvm)) == RAM_START ==> nvm[Application.Start()] != ERASED
  {
    assert Vector(nvm)[0] == nvm[Application.Start()];
    assert FromLe(Vector(nvm)) % 256 == Vector(nvm)[0];
  }

  // ---------------------------------------------------------------- exactly which steps

  /** An accepted block that clears a bit somewhere and none of the first word. */
  predicate SilentBlock(crc: CrcFn, s: Ecu, e: Kwp.Event)
    requires s.Valid()
    requires e.Cmd? ==> Request(e.bytes)
  {
    && Programs(crc, s, e)
    && var (at, data) := (s.pending.addr, BlockBytes(s, e));
    && at + |data| <= FLASH_SIZE && ClearsBits(s.nvm, at, data)
    && (at != Application.Start() || KeepsFirstWord(s.nvm, data))
  }

  lemma SilentStepIff(crc: CrcFn, s: Ecu, e: Kwp.Event)
    requires s.Valid() && AboveBoot(s) && UnmarkedErase(s) && Launchable(s.marks, s.nvm)
    requires e.Cmd? ==> Request(e.bytes)
    ensures var t := Step(crc, s, e);
            t.Valid() && (t.nvm != s.nvm && Launchable(t.marks, t.nvm) <==> SilentBlock(crc, s, e))
  {
    OnlyBlocksAndErases(crc, s, e);
    if Programs(crc, s, e) {
      BlockInside(crc, s, e);
      ProgramAlters(s.nvm, s.pending.addr, BlockBytes(s, e));
      BlockKeepsVectorIff(s.nvm, s.pending.addr, BlockBytes(s, e));
    } else if Erases(s, e) {
      EraseTakesVector(s, e);
    }
  }

  /**
    In every state that a server reaches after it came up, on a unit that could launch its application:
    exactly these commands and background steps change internal flash and leave the unit able to launch what
    is there. They are blocks of a download, which needs no erase and sets no marker. No erase step is among
    them, not even of an erase that set no marker.
   */
  lemma SilentChangeIff(crc: CrcFn, s0: Ecu, events: seq<Kwp.Event>, e: Kwp.Event)
    requires s0.Valid() && s0.pending == Idle && Kwp.WellFormed(events)
    requires e.Cmd? ==> Request(e.bytes)
    requires var s := Run(crc, s0, events); Launchable(s.marks, s.nvm)
    ensures var s := Run(crc, s0, events);
            var t := Step(crc, s, e);
            t.Valid() && (t.nvm != s.nvm && Launchable(t.marks, t.nvm) <==> SilentBlock(crc, s, e))
  {
    BootCodeIsNeverTouched(crc, s0, events);
    RunKeepsUnmarkedErase(crc, s0, events);
    SilentStepIff(crc, Run(crc, s0, events), e);
  }

  // ---------------------------------------------------------------- an input

  const TARGET := 0x2_0000
  const ZEROS: seq<Byte> := [0, 0, 0, 0]

  /** A server after the request to download one word into the application, without any erase, and its block. */
  lemma WordProgrammed(crc: CrcFn, s: Ecu, now: nat, env: Env) returns (t: Ecu, u: Ecu)
    requires s.Valid() && s.mode == Reprogramming && env.hwOk
    ensures Request(DownloadRequest(TARGET, 4)) && Request(BlockRequest(0, ZEROS))
    ensures t == ProcessCmd(crc, s, DownloadRequest(TARGET, 4), now, env).0 && t.Valid()
    ensures u == ProcessCmd(crc, t, BlockRequest(0, ZEROS), now, env).0 && u.Valid()
    ensures u.nvm == ProgramAt(s.nvm, TARGET, ZEROS) && u.marks == s.marks
  {
    DownloadStarts(crc, s, TARGET, 4, now, env);
    t := ProcessCmd(crc, s, DownloadRequest(TARGET, 4), now, env).0;
    StepKeepsValid(crc, s, Cmd(DownloadRequest(TARGET, 4), now, env));
    var r := t.(lastCmd := now, longOp := false);
    assert ZEROS[0..4] == ZEROS && BlockNumber(0) == 0;
    BlockTaken(r, TARGET, ZEROS, 0, 4, env);
    TransferDispatched(crc, t, BlockRequest(0, ZEROS), now, env);
    u := ProcessCmd(crc, t, BlockRequest(0, ZEROS), now, env).0;
    StepKeepsValid(crc, t, Cmd(BlockRequest(0, ZEROS), now, env));
  }

  lemma WordIsCleared(nvm: Memory, m: Memory)
    requires |nvm| == FLASH_SIZE && m == ProgramAt(nvm, TARGET, ZEROS)
    ensures m[TARGET..TARGET + 4] == ZEROS && Vector(m) == Vector(nvm)
  {
    assert forall i :: 0 <= i < 4 ==> m[TARGET + i] == Program(nvm[TARGET + i], ZEROS[i]) == 0;
  }

  /** A unit on which two commands have been served. */
  lemma TwoServed(crc: CrcFn, s: System, a: Kwp.Event, b: Kwp.Event, t: Ecu, u: Ecu)
    requires s.Valid() && s.phase.InBootloader? && a.Cmd? && b.Cmd? && Request(a.bytes) && Request(b.bytes)
    requires t == Step(crc, s.phase.server, a) && t.Valid() && u == Step(crc, t, b) && u.Valid()
    ensures AllWellFormed([Serve(a), Serve(b)])
    ensures BootRuns.History(crc, s, [Serve(a), Serve(b)]) == s.(phase := InBootloader(u))
  {
    var v, w := s.(phase := InBootloader(t)), s.(phase := InBootloader(u));
    NextKeepsValid(crc, s, Serve(a));
    assert Next(crc, s, Serve(a)) == v && Next(crc, v, Serve(b)) == w;
    NextKeepsValid(crc, v, Serve(b));
    assert [Serve(a), Serve(b)][1..] == [Serve(b)] && [Serve(b)][1..] == [];
    assert BootRuns.History(crc, s, [Serve(a), Serve(b)]) == BootRuns.History(crc, v, [Serve(b)]);
    assert BootRuns.History(crc, v, [Serve(b)]) == BootRuns.History(crc, w, []);
  }

  /**
    For instance two requests clear a word in the middle of the application, and switched off and on again the
    unit launches it.
   */
  lemma WordChangesSilently(crc: CrcFn, s: System, now: nat, env: Env, garbage: seq<Byte>)
    requires s.Valid() && s.phase.InBootloader? && s.phase.server.mode == Reprogramming && env.hwOk
    requires Launchable(s.Now().marks, s.Now().nvm) && |garbage| == SECTOR_SIZE
    ensures var download, block := Cmd(DownloadRequest(TARGET, 4), now, env), Cmd(BlockRequest(0, ZEROS), now, env);
            var requests := [Serve(download), Serve(block)];
            && AllWellFormed(requests) && AllWellFormed(Restart(garbage))
            && var t := BootRuns.History(crc, s, requests);
               && t.Now().nvm[TARGET..TARGET + 4] == ZEROS
               && BootRuns.History(crc, t, Restart(garbage)).phase == InApplication
  {
    var a, b := Cmd(DownloadRequest(TARGET, 4), now, env), Cmd(BlockRequest(0, ZEROS), now, env);
    var t, u := WordProgrammed(crc, s.phase.server, now, env);
    TwoServed(crc, s, a, b, t, u);
    WordIsCleared(s.phase.server.nvm, u.nvm);
    RestartLaunches(crc, s.(phase := InBootloader(u)), garbage);
  }
}
