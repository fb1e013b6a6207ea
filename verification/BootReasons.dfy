/** For which reason the bootloader stays, and the session and receiver timing its server then comes up with. */
module BootReasons {
  import opened Bytes
  import opened Flash
  import opened MemoryMap
  import opened Kwp
  import opened Preloader
  import opened CrashSafety
  import opened BootDecision
  import opened BootRuns

  /** Nothing on the board keeps the bootloader from looking at what the application left in RAM. */
  predicate BoardReady(i: Inputs, date: ProdDate) {
    !i.magicPin && !i.watchdog && date.IsSet()
  }

  /** The application is complete, begins with the end of RAM as its stack pointer, and has a CRC on record. */
  predicate AppValid(marks: Markers, nvm: Memory)
    requires |nvm| == FLASH_SIZE
  {
    marks.appFlashingNotDone == 0 && marks.crcApp != 0xFFFF_FFFF
    && nvm[0x1_E000..0x1_E004] == [0x00, 0x00, 0x04, 0x20]
  }

  lemma StackPointer(s: seq<Byte>)
    requires |s| == 4
    ensures FromLe32(s) == RAM_START <==> s == [0x00, 0x00, 0x04, 0x20]
  {
    var t: seq<Byte> := [0x00, 0x00, 0x04, 0x20];
    assert FromLe(t[3..]) == 0x20 by {
      assert t[3..][1..] == [];
    }
    assert FromLe(t[2..]) == 0x2004 by {
      assert t[2..][1..] == t[3..];
    }
    assert FromLe(t[1..]) == 0x20_0400 by {
      assert t[1..][1..] == t[2..];
    }
    assert FromLe(t) == RAM_START;
    if FromLe32(s) == RAM_START {
      FromLeInjective(s, t);
    }
  }

  /**
    Each reason and the launch, with its exact condition: pin, watchdog and missing date come first, whatever
    the RAM holds; then a request for diagnostics, the fifth quick reset, a panic and a RAM failure, in this
    order; and only then does the application itself matter.
   */
  lemma ReasonIs(i: Inputs, marks: Markers, nvm: Memory)
    requires |nvm| == FLASH_SIZE
    ensures var why, ready := Reason(i, marks, nvm), BoardReady(i, marks.prod);
            && (why == MagicPin <==> i.magicPin)
            && (why == Watchdog <==> i.watchdog && !i.magicPin)
            && (why == ProductionInfoNotSet <==> !marks.prod.IsSet() && !i.magicPin && !i.watchdog)
            && (why == Diagnostics <==> ready && i.ram.Some? && i.ram.value.diagRequest)
            && (why == ResetCount <==> ready && i.ram.Some? && i.ram.value.resetCounter >= 5
                                       && !i.ram.value.diagRequest)
            && (why == Panic <==> ready && i.ram.Some? && i.ram.value.appPanic
                                  && !i.ram.value.diagRequest && i.ram.value.resetCounter < 5)
            && (why == RamFailure <==> ready && i.ram.Some? && i.ram.value.ramFailure && !i.ram.value.appPanic
                                       && !i.ram.value.diagRequest && i.ram.value.resetCounter < 5)
            && (why in {AppInvalid, NoReason} <==>
                ready && (i.ram.Some? ==> !i.ram.value.diagRequest && i.ram.value.resetCounter < 5
                                          && !i.ram.value.appPanic && !i.ram.value.ramFailure))
            && (why == NoReason ==> AppValid(marks, nvm)) && (why == AppInvalid ==> !AppValid(marks, nvm))
  {
    StackPointer(nvm[Application.Start()..Application.Start() + 4]);
  }

  /** The application asked for diagnostics, and the board lets it be heard. */
  predicate AskedForDiagnostics(i: Inputs, date: ProdDate) {
    BoardReady(i, date) && i.ram.Some? && i.ram.value.diagRequest
  }

  /**
    After any power-up that gets past the preloader: the application runs, or the bootloader with a fresh
    server. The server is in the programming session exactly when the application had asked for diagnostics and
    nothing on the board comes before that; it then takes over pause and block size handed over with the
    request, and otherwise asks for a pause of 2 and blocks of 8. A request for diagnostics always keeps the
    bootloader.
   */
  lemma SessionAfterBoot(crc: CrcFn, s: System, up: BootRuns.Event)
    requires s.Valid() && s.phase == Off && up.PowerUp? && BootRuns.WellFormed(up)
    ensures var (t, date) := (Next(crc, s, up), s.chip.marks.prod);
            var asked := AskedForDiagnostics(up.inputs, date);
            && (asked ==> t.phase != InApplication)
            && (t.phase == InApplication ==> BoardReady(up.inputs, date) && AppValid(t.chip.marks, t.chip.nvm))
            && (t.phase.InBootloader? ==>
                  var server := t.phase.server;
                  && server.mode == (if asked then Reprogramming else Normal)
                  && server.pending == Idle && server.completed.None?
                  && (server.stmin, server.bs) == (if asked && up.inputs.ram.value.timing.Some?
                                                   then up.inputs.ram.value.timing.value else (2, 8))
                  && server.nvm == t.chip.nvm && server.marks == t.chip.marks && server.qspi == s.qspi)
  {
    AttemptKeepsDestiny(crc, s.chip, Check, up.budget, up.garbage);
    var (c, jumped) := Attempt(crc, s.chip, Check, up.budget, up.garbage);
    if jumped {
      ReasonIs(up.inputs, c.marks, c.nvm);
    }
  }

  /** After any history too. */
  lemma SessionAfterHistory(crc: CrcFn, s: System, events: seq<BootRuns.Event>, up: BootRuns.Event)
    requires s.Valid() && AllWellFormed(events) && up.PowerUp? && BootRuns.WellFormed(up)
    ensures var before := BootRuns.History(crc, s, events); var after := Next(crc, before, up);
            before.phase == Off && after.phase.InBootloader? ==>
              && (after.phase.server.mode == Reprogramming <==> AskedForDiagnostics(up.inputs, before.chip.marks.prod))
              && (after.phase.server.mode == Normal <==> !AskedForDiagnostics(up.inputs, before.chip.marks.prod))
  {
    var before := BootRuns.History(crc, s, events);
    if before.phase == Off {
      SessionAfterBoot(crc, before, up);
    }
  }

  /** Switching a unit off and on again loses nothing of either memory but what the preloader copies. */
  lemma PowerCycleKeepsStores(crc: CrcFn, s: System, up: BootRuns.Event)
    requires s.Valid() && s.phase.InBootloader? && up.PowerUp? && BootRuns.WellFormed(up)
    ensures Next(crc, s, Cut).Valid()
    ensures var t := Next(crc, Next(crc, s, Cut), up);
            && t.Now().Valid() && SameOutside(s.Now(), t.Now())
            && (if t.phase.InBootloader? then t.phase.server.qspi else t.qspi) == s.phase.server.qspi
            && t.Now().marks.prod == s.Now().marks.prod
            && t.Now().marks.appFlashingNotDone == s.Now().marks.appFlashingNotDone
            && t.Now().marks.crcApp == s.Now().marks.crcApp
  {
    BootRuns.NextKeepsValid(crc, s, Cut);
    AttemptKeepsDestiny(crc, s.Now(), Check, up.budget, up.garbage);
  }
}
