/** Which flash checks request the copy of the scratch area, and what the next boot then runs. */
module BootloaderChecks {
  import opened Bytes
  import opened MemoryMap
  import opened Kwp
  import opened ServerRuns
  import opened FlasherSteps
  import opened Preloader
  import opened CrashSafety
  import opened BootRuns

  /** A flash check asked for at the bootloader's address that matched. */
  predicate MatchedBlCheck(crc: CrcFn, s: Ecu, e: Kwp.Event)
    requires s.Valid()
    requires e.Cmd? ==> Request(e.bytes)
  {
    && e.Cmd? && |e.bytes| == 14 && e.bytes[0] == START_ROUTINE && e.bytes[1] == ROUTINE_CHECK
    && FromLe32(e.bytes[6..10]) == Bootloader.Start()
    && ProcessCmd(crc, s, e.bytes, e.now, e.env).1 == Positive([0x71, 0xE1, 0x01])
  }

  /** Nothing else the server does requests the copy; and the CRC recorded with the request is the unit's own. */
  lemma OnlyCheckRequestsCopy(crc: CrcFn, s: Ecu, e: Kwp.Event)
    requires s.Valid() && s.marks.blFlashingPending != 0
    requires e.Cmd? ==> Request(e.bytes)
    ensures var t := Step(crc, s, e);
            && t.Valid()
            && (t.marks.blFlashingPending == 0 <==> MatchedBlCheck(crc, s, e))
            && (MatchedBlCheck(crc, s, e) ==> t.nvm == s.nvm && Chip(t.nvm, t.marks).UpdatePending(crc))
  {
    StepKeepsValid(crc, s, e);
    if e.Cmd? {
      if e.bytes[0] == START_ROUTINE && |e.bytes| == 14 && e.bytes[1] == ROUTINE_CHECK {
        CheckRequestsCopy(crc, s.(lastCmd := e.now, longOp := false), e.bytes, e.env);
      } else {
        OthersRequestNone(crc, s.(lastCmd := e.now, longOp := false), e.bytes, e.env);
      }
    }
  }

  lemma CheckRequestsCopy(crc: CrcFn, s: Ecu, cmd: seq<Byte>, env: Env)
    requires s.Valid() && s.marks.blFlashingPending != 0
    requires |cmd| == 14 && cmd[0] == START_ROUTINE && cmd[1] == ROUTINE_CHECK
    ensures var (t, reply) := Dispatch(crc, s, cmd, env);
            && (t.marks.blFlashingPending == 0 <==>
                FromLe32(cmd[6..10]) == Bootloader.Start() && reply == Positive([0x71, 0xE1, 0x01]))
            && t.nvm == s.nvm
            && (t.marks.blFlashingPending == 0 ==> Chip(t.nvm, t.marks).UpdatePending(crc))
  {
    assert [0x71] + [0xE1, 0x01] == [0x71, 0xE1, 0x01];
    assert ([0x71] + [0xE1, 0x00])[2] == 0x00;
  }

  lemma OthersRequestNone(crc: CrcFn, s: Ecu, cmd: seq<Byte>, env: Env)
    requires s.Valid() && Request(cmd)
    requires !(|cmd| == 14 && cmd[0] == START_ROUTINE && cmd[1] == ROUTINE_CHECK)
    ensures Dispatch(crc, s, cmd, env).0.marks.blFlashingPending == s.marks.blFlashingPending
  {
  }

  /**
    Which checks do: asked for at the bootloader's address, of any length that ends in readable memory, with
    the CRC of that many bytes of the scratch area, or with 0 when they are not whole words.
   */
  lemma CopyRequestedIff(crc: CrcFn, s: Ecu, cmd: seq<Byte>, now: nat, env: Env)
    requires s.Valid() && s.marks.blFlashingPending != 0
    requires |cmd| == 14 && cmd[0] == START_ROUTINE && cmd[1] == ROUTINE_CHECK
    ensures var target, start: nat, len: nat := FromLe32(cmd[2..6]), FromLe32(cmd[6..10]), FromLe32(cmd[10..14]);
            ProcessCmd(crc, s, cmd, now, env).0.marks.blFlashingPending == 0 <==>
              && s.mode == Reprogramming && s.pending == Idle && start == Bootloader.Start()
              && Readable(s.qspiSize, (SCRATCH_START + len) % 0x1_0000_0000)
              && Matches(crc, s, SCRATCH_START, len, target, env)
  {
  }

  /** A check of a single byte with 0 for its CRC does, whatever is in the scratch area. */
  lemma UnalignedCheckRequestsCopy(crc: CrcFn, s: Ecu, now: nat, env: Env)
    requires s.Valid() && s.mode == Reprogramming && s.pending == Idle
    ensures var cmd := CheckRequest(0, Bootloader.Start(), 1);
            && Request(cmd)
            && var (t, reply) := ProcessCmd(crc, s, cmd, now, env);
               && reply == Positive([0x71, 0xE1, 0x01]) && t.nvm == s.nvm
               && Chip(t.nvm, t.marks).UpdatePending(crc)
  {
    CheckRequestShape(0, Bootloader.Start(), 1);
    assert [0x71] + [0xE1, 0x01] == [0x71, 0xE1, 0x01];
  }

  /** And so does a check of no bytes with the CRC of nothing. */
  lemma EmptyCheckRequestsCopy(crc: CrcFn, s: Ecu, now: nat, env: Env)
    requires s.Valid() && s.mode == Reprogramming && s.pending == Idle
    ensures var cmd := CheckRequest(crc([]), Bootloader.Start(), 0);
            && Request(cmd)
            && var (t, reply) := ProcessCmd(crc, s, cmd, now, env);
               && reply == Positive([0x71, 0xE1, 0x01]) && t.nvm == s.nvm
               && Chip(t.nvm, t.marks).UpdatePending(crc)
  {
    CheckRequestShape(crc([]), Bootloader.Start(), 0);
    assert s.nvm[SCRATCH_START..SCRATCH_START] == [];
    assert [0x71] + [0xE1, 0x01] == [0x71, 0xE1, 0x01];
  }

  /** A unit that is switched off and on again without a disturbance runs the image destined for it. */
  lemma RestartRunsDestined(crc: CrcFn, s: System, garbage: seq<Byte>)
    requires s.Valid() && |garbage| == SECTOR_SIZE
    ensures AllWellFormed(Restart(garbage))
    ensures var t := BootRuns.History(crc, s, Restart(garbage));
            t.phase != Off && t.Now().Valid() && t.Now().Image() == Destined(crc, s.Now())
  {
    NextKeepsValid(crc, s, Cut);
    var off := SwitchedOff(s);
    TwoEvents(crc, s, Cut, PowerUp(Left(Check), garbage, Unhindered()));
    EnoughPowerJumps(crc, off.chip, Check, Left(Check), garbage);
    AttemptKeepsDestiny(crc, off.chip, Check, Left(Check), garbage);
  }

  /**
    On a unit without a pending update one command or background step decides what the next undisturbed
    boot runs: after a matching check at the bootloader's address whatever begins the application area, and
    otherwise the bootloader that is there.
   */
  lemma NextBootRuns(crc: CrcFn, s: System, e: Kwp.Event, garbage: seq<Byte>)
    requires s.Valid() && s.phase.InBootloader? && s.Now().marks.blFlashingPending != 0
    requires BootRuns.WellFormed(Serve(e)) && |garbage| == SECTOR_SIZE
    ensures Next(crc, s, Serve(e)).Valid() && AllWellFormed(Restart(garbage))
    ensures BootRuns.History(crc, Next(crc, s, Serve(e)), Restart(garbage)).Now().Valid()
    ensures BootRuns.History(crc, Next(crc, s, Serve(e)), Restart(garbage)).Now().Image()
            == if MatchedBlCheck(crc, s.phase.server, e) then s.Now().ScratchPrefix() else s.Now().Image()
  {
    var t := Next(crc, s, Serve(e));
    NextKeepsValid(crc, s, Serve(e));
    OnlyCheckRequestsCopy(crc, s.phase.server, e);
    RestartRunsDestined(crc, t, garbage);
    SameImage(crc, s.phase.server, e);
  }

  lemma SameImage(crc: CrcFn, s: Ecu, e: Kwp.Event)
    requires s.Valid() && AboveBoot(s)
    requires e.Cmd? ==> Request(e.bytes)
    ensures Step(crc, s, e).Valid()
    ensures Chip(Step(crc, s, e).nvm, s.marks).Image() == Chip(s.nvm, s.marks).Image()
  {
    StepKeepsBootCode(crc, s, e);
    var t := Step(crc, s, e);
    assert s.nvm[BL_START..BL_START + BL_SIZE] == BootCode(s)[BL_START..BL_START + BL_SIZE];
    assert t.nvm[BL_START..BL_START + BL_SIZE] == BootCode(t)[BL_START..BL_START + BL_SIZE];
  }

  /** For instance a check of no bytes has the application's first cells copied over the bootloader. */
  lemma EmptyCheckReplacesBootloader(crc: CrcFn, s: System, now: nat, env: Env, garbage: seq<Byte>)
    requires s.Valid() && s.phase.InBootloader? && s.Now().marks.blFlashingPending != 0 && |garbage| == SECTOR_SIZE
    requires s.phase.server.mode == Reprogramming && s.phase.server.pending == Idle
    ensures var check := Serve(Cmd(CheckRequest(crc([]), Bootloader.Start(), 0), now, env));
            && BootRuns.WellFormed(check) && Next(crc, s, check).Valid() && AllWellFormed(Restart(garbage))
            && var t := BootRuns.History(crc, Next(crc, s, check), Restart(garbage));
               t.Now().Valid() && t.Now().Image() == s.Now().ScratchPrefix()
  {
    EmptyCheckRequestsCopy(crc, s.phase.server, now, env);
    CheckRequestShape(crc([]), Bootloader.Start(), 0);
    NextBootRuns(crc, s, Cmd(CheckRequest(crc([]), Bootloader.Start(), 0), now, env), garbage);
  }
}
