/**
  Preloader, bootloader and application over whole histories of power failures, resets, diagnostic
  commands and background steps.
 */
module BootRuns {
  import opened Bytes
  import opened Flash
  import opened MemoryMap
  import opened Kwp
  import opened ServerRuns
  import opened Preloader
  import opened CrashSafety
  import opened BootDecision
  import opened FlasherSteps

  datatype Phase = Off | InBootloader(server: Ecu) | InApplication

  /**
    The unit: flash and markers (the server's while it runs), the image last jumped to, and the CRC an
    update was requested for when the unit last went off.
   */
  datatype System = System(chip: Chip, qspi: Memory, phase: Phase, last: Memory, want: Word) {
    predicate Valid() {
      && chip.Valid() && |qspi| == QSPI_SIZE
      && (phase.InBootloader? ==> phase.server.Valid() && AboveBoot(phase.server))
    }

    /** Flash and markers as they are now. */
    function Now(): Chip {
      if phase.InBootloader? then Chip(phase.server.nvm, phase.server.marks) else chip
    }
  }

  datatype Event =
    | PowerUp(budget: nat, garbage: seq<Byte>, inputs: Inputs)
    | Cut                   // power failure or reset
    | Serve(e: Kwp.Event)

  predicate WellFormed(ev: Event) {
    match ev
    case PowerUp(_, garbage, _) => |garbage| == SECTOR_SIZE
    case Serve(e) => e.Cmd? ==> Request(e.bytes)
    case Cut => true
  }

  /** The server as it comes up after a reset. */
  function FreshServer(c: Chip, qspi: Memory, reprogramming: bool, timing: (Byte, Byte)): Ecu {
    Ecu(if reprogramming then Reprogramming else Normal, Idle, None, 0, false, 0, timing.0, timing.1,
        c.nvm, qspi, c.marks, [])
  }

  /** The bootloader's start after the preloader's jump. */
  function Jumped(s: System, c: Chip, inputs: Inputs): System
    requires c.Valid()
  {
    var why := Reason(inputs, c.marks, c.nvm);
    System(c, s.qspi,
           if why == NoReason then InApplication
           else InBootloader(FreshServer(c, s.qspi, why == Diagnostics, Timing(inputs, c.marks, c.nvm))),
           c.Image(), s.want)
  }

  /** Whatever ran is gone; flash and markers stay as they are. */
  function SwitchedOff(s: System): System
    requires s.Valid()
  {
    if s.phase == Off then s
    else
      System(s.Now(), if s.phase.InBootloader? then s.phase.server.qspi else s.qspi, Off, s.last, s.Now().marks.crcBl)
  }

  /** A pending reset is carried out by the next background step, which then has not timed out. */
  predicate Resets(t: Ecu, e: Kwp.Event) {
    e.Tick? && t.pending.Reset?
  }

  function Next(crc: CrcFn, s: System, ev: Event): System
    requires s.Valid() && WellFormed(ev)
  {
    match ev
    case PowerUp(budget, garbage, inputs) =>
      if s.phase != Off then s
      else
        var (c, jumped) := Attempt(crc, s.chip, Check, budget, garbage);
        if jumped then Jumped(s, c, inputs) else s.(chip := c)
    case Cut => SwitchedOff(s)
    case Serve(e) =>
      if !s.phase.InBootloader? then s
      else
        var served := Served(crc, s, e);
        if Resets(served.phase.server, e) then SwitchedOff(served) else served
  }

  /** The server has taken a command or a background step. */
  function Served(crc: CrcFn, s: System, e: Kwp.Event): (t: System)
    requires s.Valid() && s.phase.InBootloader? && (e.Cmd? ==> Request(e.bytes))
    ensures t.Valid() && t.phase.InBootloader?
  {
    StepKeepsBootCode(crc, s.phase.server, e);
    s.(phase := InBootloader(Step(crc, s.phase.server, e)))
  }

  lemma NextKeepsValid(crc: CrcFn, s: System, ev: Event)
    requires s.Valid() && WellFormed(ev)
    ensures Next(crc, s, ev).Valid()
  {
  }

  /** An accepted reset request is carried out by the next background step exactly when it beats the tester timeout. */
  lemma ResetCarriedOutIff(crc: CrcFn, s: System, now: nat, env: Env)
    requires s.Valid() && s.phase.InBootloader? && s.phase.server.pending.Reset?
    ensures var t := Next(crc, s, Serve(Tick(now, env)));
            && (t.phase == Off <==> !TimedOut(s.phase.server, now))
            && t.Now() == s.Now() && t.Valid()
  {
    NextKeepsValid(crc, s, Serve(Tick(now, env)));
  }

  predicate AllWellFormed(events: seq<Event>) {
    forall i :: 0 <= i < |events| ==> WellFormed(events[i])
  }

  function History(crc: CrcFn, s: System, events: seq<Event>): (t: System)
    requires s.Valid() && AllWellFormed(events)
    ensures t.Valid()
    decreases |events|
  {
    if events == [] then s
    else
      NextKeepsValid(crc, s, events[0]);
      History(crc, Next(crc, s, events[0]), events[1..])
  }

  // ---------------------------------------------------------------- the bootloader image

  /** The image is one the bootloader may run: unchanged, or a scratch area with the requested CRC. */
  predicate Sanctioned(crc: CrcFn, s: System, c: Chip, image: Memory)
    requires c.Valid()
  {
    image == s.last || (image == c.ScratchPrefix() && crc(c.Scratch()) == s.want)
  }

  /** While running, the region holds the image last jumped to; while off, a sanctioned image is destined. */
  predicate Safe(crc: CrcFn, s: System)
    requires s.Valid()
  {
    if s.phase == Off then Sanctioned(crc, s, s.chip, Destined(crc, s.chip))
    else s.Now().Image() == s.last
  }

  lemma PowerUpIsSafe(crc: CrcFn, s: System, ev: Event)
    requires s.Valid() && WellFormed(ev) && Safe(crc, s) && ev.PowerUp?
    ensures var t := Next(crc, s, ev);
            && t.Valid() && Safe(crc, t)
            && (s.phase == Off && t.phase != Off ==> t.Now().Image() == t.last && Sanctioned(crc, s, t.Now(), t.last))
  {
    NextKeepsValid(crc, s, ev);
    if s.phase == Off {
      AttemptKeepsDestiny(crc, s.chip, Check, ev.budget, ev.garbage);
      OutsideKeepsScratch(s.chip, Attempt(crc, s.chip, Check, ev.budget, ev.garbage).0);
    }
  }

  lemma ServeIsSafe(crc: CrcFn, s: System, ev: Event)
    requires s.Valid() && WellFormed(ev) && Safe(crc, s) && !ev.PowerUp?
    ensures Next(crc, s, ev).Valid() && Safe(crc, Next(crc, s, ev))
  {
    NextKeepsValid(crc, s, ev);
    if ev.Serve? && s.phase.InBootloader? {
      var a, b := s.phase.server, Step(crc, s.phase.server, ev.e);
      StepKeepsBootCode(crc, a, ev.e);
      assert a.nvm[BL_START..BL_START + BL_SIZE] == BootCode(a)[BL_START..BL_START + BL_SIZE];
      assert b.nvm[BL_START..BL_START + BL_SIZE] == BootCode(b)[BL_START..BL_START + BL_SIZE];
    }
  }

  lemma {:induction false} HistoryIsSafe(crc: CrcFn, s: System, events: seq<Event>)
    requires s.Valid() && AllWellFormed(events) && Safe(crc, s)
    ensures Safe(crc, History(crc, s, events))
    decreases |events|
  {
    if events != [] {
      if events[0].PowerUp? {
        PowerUpIsSafe(crc, s, events[0]);
      } else {
        ServeIsSafe(crc, s, events[0]);
      }
      HistoryIsSafe(crc, Next(crc, s, events[0]), events[1..]);
    }
  }

  /**
    After any history at all, whenever the preloader jumps: the bootloader region is complete. It is the
    image that ran before, or the scratch prefix of a scratch area whose CRC is the one recorded when the
    update was requested.
   */
  lemma EveryJumpIsSafe(crc: CrcFn, s: System, events: seq<Event>, up: Event)
    requires s.Valid() && AllWellFormed(events) && Safe(crc, s) && up.PowerUp? && WellFormed(up)
    ensures var before := History(crc, s, events);
            var after := Next(crc, before, up);
            before.phase == Off && after.phase != Off ==>
              var image := after.Now().Image();
              image == before.last
              || (image == after.Now().ScratchPrefix() && crc(after.Now().Scratch()) == before.want)
  {
    HistoryIsSafe(crc, s, events);
    PowerUpIsSafe(crc, History(crc, s, events), up);
  }

  // ---------------------------------------------------------------- the application marker

  /** A flash check of anything but the bootloader that matched. */
  predicate MatchedAppCheck(crc: CrcFn, s: Ecu, e: Kwp.Event)
    requires s.Valid()
    requires e.Cmd? ==> Request(e.bytes)
  {
    && e.Cmd? && |e.bytes| == 14 && e.bytes[0] == START_ROUTINE && e.bytes[1] == ROUTINE_CHECK
    && FromLe32(e.bytes[6..10]) != Bootloader.Start()
    && ProcessCmd(crc, s, e.bytes, e.now, e.env).1 == Positive([0x71, 0xE1, 0x01])
  }

  /** Nothing else the server does can clear the marker. */
  lemma OnlyCheckClearsMarker(crc: CrcFn, s: Ecu, e: Kwp.Event)
    requires s.Valid() && s.marks.appFlashingNotDone != 0
    requires e.Cmd? ==> Request(e.bytes)
    ensures Step(crc, s, e).marks.appFlashingNotDone == 0 <==> MatchedAppCheck(crc, s, e)
  {
    if e.Cmd? && e.bytes[0] == START_ROUTINE && |e.bytes| == 14 && e.bytes[1] == ROUTINE_CHECK {
      assert [0x71] + [0xE1, 0x01] == [0x71, 0xE1, 0x01];
      assert ([0x71] + [0xE1, 0x00])[2] == 0x00;
    }
  }

  /** How a check compares. */
  predicate Matches(crc: CrcFn, s: Ecu, start: nat, len: nat, target: Word, env: Env) {
    || (WholeWords(start, len) && DsuCrc(crc, s, start, len, env) == target)
    || (!WholeWords(start, len) && target == 0)
  }

  /**
    Which checks do: any readable range not asked for at the bootloader's address, whatever it has to do
    with the application, whose CRC is the one sent. A range that is not whole words has none, and is
    compared with 0.
   */
  lemma MarkerClearedIff(crc: CrcFn, s: Ecu, cmd: seq<Byte>, now: nat, env: Env)
    requires s.Valid() && s.marks.appFlashingNotDone != 0
    requires |cmd| == 14 && cmd[0] == START_ROUTINE && cmd[1] == ROUTINE_CHECK
    ensures var target, start: nat, len: nat := FromLe32(cmd[2..6]), FromLe32(cmd[6..10]), FromLe32(cmd[10..14]);
            ProcessCmd(crc, s, cmd, now, env).0.marks.appFlashingNotDone == 0 <==>
              && s.mode == Reprogramming && s.pending == Idle && start != Bootloader.Start()
              && Readable(s.qspiSize, start) && Readable(s.qspiSize, (start + len) % 0x1_0000_0000)
              && Matches(crc, s, start, len, target, env)
  {
  }

  /** A check of a single byte with 0 for its CRC does, and no CRC is computed. */
  lemma UnalignedCheckClears(crc: CrcFn, s: Ecu, now: nat, env: Env)
    requires s.Valid() && s.mode == Reprogramming && s.pending == Idle
    ensures var cmd := CheckRequest(0, Application.Start(), 1);
            && Request(cmd)
            && var (t, reply) := ProcessCmd(crc, s, cmd, now, env);
               reply == Positive([0x71, 0xE1, 0x01]) && t.marks.appFlashingNotDone == 0 && t.nvm == s.nvm
  {
    CheckRequestShape(0, Application.Start(), 1);
    assert [0x71] + [0xE1, 0x01] == [0x71, 0xE1, 0x01];
  }

  /** In particular a check of no bytes at all, with the CRC of nothing, whatever is in the flash. */
  lemma EmptyCheckClears(crc: CrcFn, s: Ecu, cmd: seq<Byte>, now: nat, env: Env)
    requires s.Valid() && s.mode == Reprogramming && s.pending == Idle && s.marks.appFlashingNotDone != 0
    requires |cmd| == 14 && cmd[0] == START_ROUTINE && cmd[1] == ROUTINE_CHECK
    requires FromLe32(cmd[2..6]) == crc([])
    requires FromLe32(cmd[6..10]) == Application.Start() && FromLe32(cmd[10..14]) == 0
    ensures ProcessCmd(crc, s, cmd, now, env).0.marks.appFlashingNotDone == 0
  {
    MarkerClearedIff(crc, s, cmd, now, env);
    assert s.nvm[Application.Start()..Application.Start()] == [];
  }

  /** The application is marked unfinished and is not running. */
  predicate Gated(s: System) {
    s.Now().marks.appFlashingNotDone != 0 && s.phase != InApplication
  }

  /** The event is a matching application check. */
  predicate Releases(crc: CrcFn, s: System, ev: Event)
    requires s.Valid() && WellFormed(ev)
  {
    ev.Serve? && s.phase.InBootloader? && MatchedAppCheck(crc, s.phase.server, ev.e)
  }

  lemma GateStep(crc: CrcFn, s: System, ev: Event)
    requires s.Valid() && WellFormed(ev) && Gated(s) && !Releases(crc, s, ev)
    ensures Gated(Next(crc, s, ev))
  {
    match ev
    case PowerUp(budget, garbage, inputs) =>
      if s.phase == Off {
        AttemptKeepsDestiny(crc, s.chip, Check, budget, garbage);
      }
    case Cut =>
    case Serve(e) =>
      if s.phase.InBootloader? {
        OnlyCheckClearsMarker(crc, s.phase.server, e);
      }
  }

  /** No event of the history is a matching application check. */
  predicate NeverReleases(crc: CrcFn, s: System, events: seq<Event>)
    requires s.Valid() && AllWellFormed(events)
    decreases |events|
  {
    events == [] || (
      !Releases(crc, s, events[0]) &&
      (NextKeepsValid(crc, s, events[0]);
       NeverReleases(crc, Next(crc, s, events[0]), events[1..])))
  }

  /** Once marked, the application is not launched by any boot before a flash check has matched. */
  lemma {:induction false} GateHolds(crc: CrcFn, s: System, events: seq<Event>)
    requires s.Valid() && AllWellFormed(events) && Gated(s) && NeverReleases(crc, s, events)
    ensures Gated(History(crc, s, events))
    decreases |events|
  {
    if events != [] {
      GateStep(crc, s, events[0]);
      NextKeepsValid(crc, s, events[0]);
      GateHolds(crc, Next(crc, s, events[0]), events[1..]);
    }
  }

  /** An erase command the server accepts as an erase of internal flash. */
  predicate AcceptedErase(crc: CrcFn, s: Ecu, e: Kwp.Event)
    requires s.Valid()
    requires e.Cmd? ==> Request(e.bytes)
  {
    && e.Cmd? && |e.bytes| == 8 && e.bytes[0] == START_ROUTINE && e.bytes[1] == ROUTINE_ERASE
    && ProcessCmd(crc, s, e.bytes, e.now, e.env).1.Positive? && Step(crc, s, e).pending.FlashErase?
  }

  function EraseStart(e: Kwp.Event): Word
    requires e.Cmd? && |e.bytes| == 8
  {
    FromLe32(e.bytes[2..6])
  }

  predicate MarkedUnfinished(m: Markers) {
    m.appFlashingNotDone == 0xFF && m.crcApp == 0xFFFF_FFFF
  }

  /**
    Every accepted erase of internal flash begins at or above the application. It marks the application
    unfinished, and does so before any sector is erased, if and only if it was not asked for at the
    bootloader's address; at that address it leaves the markers as they were.
   */
  lemma EraseMarksIff(crc: CrcFn, s: Ecu, e: Kwp.Event)
    requires s.Valid()
    requires e.Cmd? ==> Request(e.bytes)
    requires AcceptedErase(crc, s, e)
    ensures var t := Step(crc, s, e);
            && t.nvm == s.nvm && t.qspi == s.qspi && t.ops == s.ops && t.pending.start >= Application.Start()
            && (MarkedUnfinished(t.marks) <==> EraseStart(e) != Bootloader.Start() || MarkedUnfinished(s.marks))
            && (EraseStart(e) == Bootloader.Start() ==> t.marks == s.marks && t.pending.start == Application.Start())
  {
  }

  /**
    From an accepted erase at any other address than the bootloader's on, whatever commands, timeouts,
    power failures and resets follow: no boot launches the application until a flash check has matched.
   */
  lemma EraseGatesApplication(crc: CrcFn, s: System, e: Kwp.Event, events: seq<Event>)
    requires s.Valid() && s.phase.InBootloader? && WellFormed(Serve(e))
    requires AcceptedErase(crc, s.phase.server, e) && EraseStart(e) != Bootloader.Start()
    requires Next(crc, s, Serve(e)).Valid()
    requires AllWellFormed(events) && NeverReleases(crc, Next(crc, s, Serve(e)), events)
    ensures History(crc, Next(crc, s, Serve(e)), events).phase != InApplication
  {
    EraseMarksIff(crc, s.phase.server, e);
    GateHolds(crc, Next(crc, s, Serve(e)), events);
  }

  /** No history without a matching application check launches the application. */
  ghost predicate Gates(crc: CrcFn, s: System)
    requires s.Valid()
  {
    forall events :: AllWellFormed(events) && NeverReleases(crc, s, events)
                     ==> History(crc, s, events).phase != InApplication
  }

  /** Nothing that keeps the bootloader from launching. */
  function Unhindered(): Inputs {
    Inputs(false, false, None)
  }

  function Restart(garbage: seq<Byte>): seq<Event> {
    [Cut, PowerUp(Left(Check), garbage, Unhindered())]
  }

  /** Neither the copy of the bootloader nor a power failure in it takes the application's start away. */
  lemma AttemptKeepsApplication(crc: CrcFn, c: Chip, budget: nat, garbage: seq<Byte>)
    requires c.Valid() && |garbage| == SECTOR_SIZE && CanAppStart(c.marks, c.nvm)
    ensures var d := Attempt(crc, c, Check, budget, garbage).0;
            CanAppStart(d.marks, d.nvm) && d.marks.prod == c.marks.prod
  {
    AttemptKeepsDestiny(crc, c, Check, budget, garbage);
    var d := Attempt(crc, c, Check, budget, garbage).0;
    SameVector(c, d);
  }

  lemma SameVector(c: Chip, d: Chip)
    requires c.Valid() && d.Valid() && SameOutside(c, d)
    ensures c.nvm[Application.Start()..Application.Start() + 4] == d.nvm[Application.Start()..Application.Start() + 4]
  {
  }

  lemma PowerUpLaunches(crc: CrcFn, s: System, garbage: seq<Byte>)
    requires s.Valid() && s.phase == Off && |garbage| == SECTOR_SIZE
    requires s.chip.marks.prod.IsSet() && CanAppStart(s.chip.marks, s.chip.nvm)
    ensures Next(crc, s, PowerUp(Left(Check), garbage, Unhindered())).phase == InApplication
  {
    EnoughPowerJumps(crc, s.chip, Check, Left(Check), garbage);
    AttemptKeepsApplication(crc, s.chip, Left(Check), garbage);
    var d := Attempt(crc, s.chip, Check, Left(Check), garbage).0;
    LaunchIff(Unhindered(), d.marks, d.nvm);
  }

  lemma TwoEvents(crc: CrcFn, s: System, first: Event, second: Event)
    requires s.Valid() && WellFormed(first) && WellFormed(second) && !first.Serve? && !second.Serve?
    requires Next(crc, s, first).Valid()
    ensures AllWellFormed([first, second]) && NeverReleases(crc, s, [first, second])
    ensures History(crc, s, [first, second]) == Next(crc, Next(crc, s, first), second)
  {
    var t := Next(crc, s, first);
    NextKeepsValid(crc, t, second);
    assert [first, second][1..] == [second] && [second][1..] == [];
    assert History(crc, s, [first, second]) == History(crc, t, [second]);
    assert History(crc, t, [second]) == History(crc, Next(crc, t, second), []);
  }

  /** Switched off and on again, a unit with a startable application launches it. */
  lemma RestartLaunches(crc: CrcFn, s: System, garbage: seq<Byte>)
    requires s.Valid() && s.phase.InBootloader? && |garbage| == SECTOR_SIZE
    requires s.Now().marks.prod.IsSet() && CanAppStart(s.Now().marks, s.Now().nvm)
    ensures AllWellFormed(Restart(garbage)) && NeverReleases(crc, s, Restart(garbage))
    ensures History(crc, s, Restart(garbage)).phase == InApplication
  {
    NextKeepsValid(crc, s, Cut);
    TwoEvents(crc, s, Cut, PowerUp(Left(Check), garbage, Unhindered()));
    PowerUpLaunches(crc, SwitchedOff(s), garbage);
  }

  /**
    On a unit that could start its application, an accepted erase of internal flash gates it exactly when
    it was not asked for at the bootloader's address.
   */
  lemma EraseGatesIff(crc: CrcFn, s: System, e: Kwp.Event)
    requires s.Valid() && s.phase.InBootloader? && WellFormed(Serve(e))
    requires AcceptedErase(crc, s.phase.server, e)
    requires s.Now().marks.prod.IsSet() && CanAppStart(s.Now().marks, s.Now().nvm)
    ensures Next(crc, s, Serve(e)).Valid()
    ensures Gates(crc, Next(crc, s, Serve(e))) <==> EraseStart(e) != Bootloader.Start()
  {
    NextKeepsValid(crc, s, Serve(e));
    var t := Next(crc, s, Serve(e));
    EraseMarksIff(crc, s.phase.server, e);
    if EraseStart(e) == Bootloader.Start() {
      var garbage: seq<Byte> := seq(SECTOR_SIZE, _ => 0);
      RestartLaunches(crc, t, garbage);
    } else {
      forall events | AllWellFormed(events) && NeverReleases(crc, t, events)
        ensures History(crc, t, events).phase != InApplication
      {
        EraseGatesApplication(crc, s, e, events);
      }
    }
  }

  /**
    The ranges in which a production date is accepted are wider than those in which one counts as set: a
    date accepted outside these leaves every later boot in the bootloader, and can be written again.
   */
  lemma BurnedDateCountsIff(s: Ecu, cmd: seq<Byte>, inputs: Inputs)
    requires s.Valid() && Request(cmd) && |cmd| >= 2 && BurnDate(s, cmd).1.Positive?
    ensures var t := BurnDate(s, cmd).0;
            var counts := cmd[2] >= 1 && cmd[3] >= 1 && cmd[4] >= 1 && 26 <= cmd[5] <= 99;
            && (t.marks.prod.IsSet() <==> counts)
            && (!counts ==> Reason(inputs, t.marks, t.nvm) != NoReason && BurnDate(t, cmd).1.Positive?)
            && (counts ==> BurnDate(t, cmd) == (t, Negative(SequenceError)))
  {
  }

  /** Launching needs every one of its conditions, and nothing else. */
  lemma LaunchIff(i: Inputs, marks: Markers, nvm: Memory)
    requires |nvm| == FLASH_SIZE
    ensures Reason(i, marks, nvm) == NoReason <==>
            && !i.magicPin && !i.watchdog && marks.prod.IsSet() && CanAppStart(marks, nvm)
            && (i.ram.Some? ==>
                var r := i.ram.value;
                !r.diagRequest && r.resetCounter < MAX_RESET_COUNT && !r.appPanic && !r.ramFailure)
  {
  }
}
