/** A bootloader update from the flasher's download to the jump, with power failures in between. */
module BootloaderUpdate {
  import opened Bytes
  import opened Flash
  import opened MemoryMap
  import opened Kwp
  import opened FlasherErase
  import opened FlasherSteps
  import opened Flasher
  import opened Preloader
  import opened CrashSafety

  /** What a server leaves behind when it goes off. */
  function ChipOf(s: Ecu): Chip {
    Chip(s.nvm, s.marks)
  }

  /** A flashed and checked bootloader image requests its copy, and as much of it as is copied is in place. */
  lemma UpdateIsRequested(crc: CrcFn, s0: Ecu, s: Ecu, image: seq<Byte>, k: nat)
    requires s.Valid() && Fits(Bootloader.Start(), |image|)
    requires SegmentDone(crc, s0, s, Bootloader.Start(), image, true, k)
    requires Programmed(s0, s, Bootloader.Start(), image)
    ensures var (c, n) := (ChipOf(s), Min(|image|, BL_SIZE));
            c.Valid() && c.UpdatePending(crc) && c.ScratchPrefix()[..n] == image[..n]
  {
    var c := ChipOf(s);
    assert c.Scratch() == s.nvm[BootloaderScratch.Start()..BootloaderScratch.Start() + BootloaderScratch.SizeBytes()];
    ProgrammedImage(s0, s, Bootloader.Start(), image);
    PrefixOfImage(s.nvm, image);
  }

  lemma PrefixOfImage(nvm: Memory, image: seq<Byte>)
    requires |nvm| == FLASH_SIZE && SCRATCH_START + |image| <= |nvm|
    requires nvm[SCRATCH_START..SCRATCH_START + |image|] == image
    ensures var n := Min(|image|, BL_SIZE); nvm[SCRATCH_START..SCRATCH_START + BL_SIZE][..n] == image[..n]
  {
    var n := Min(|image|, BL_SIZE);
    assert nvm[SCRATCH_START..SCRATCH_START + |image|][..n] == nvm[SCRATCH_START..SCRATCH_START + n];
    assert nvm[SCRATCH_START..SCRATCH_START + BL_SIZE][..n] == nvm[SCRATCH_START..SCRATCH_START + n];
  }

  /** The bootloader region begins with the image: all of it exactly when it is no longer than the region. */
  predicate Runs(region: Memory, image: seq<Byte>)
    requires |region| == BL_SIZE
  {
    && (|image| <= BL_SIZE ==> image <= region)
    && (|image| > BL_SIZE ==> region == image[..BL_SIZE])
  }

  lemma RunsAll(region: Memory, image: seq<Byte>)
    requires |region| == BL_SIZE
    requires var n := Min(|image|, BL_SIZE); region[..n] == image[..n]
    ensures Runs(region, image) && (image <= region <==> |image| <= BL_SIZE)
  {
    assert image[..|image|] == image && region[..BL_SIZE] == region;
  }

  /**
    The whole update: after the flasher has reported a checked bootloader image as flashed, over completely
    erased pages, power may fail at any step of any number of attempts. The bootloader that is jumped to at
    last begins with that image if and only if the image is no longer than the bootloader region, and
    otherwise is as much of it as the region holds; the rest of the flash is as it was, and one undisturbed
    power-up is enough.
   */
  lemma UpdateSurvivesPowerLoss(
      crc: CrcFn, s0: Ecu, s: Ecu, image: seq<Byte>, k: nat, tries: seq<(nat, seq<Byte>)>)
    requires s.Valid() && Fits(Bootloader.Start(), |image|)
    requires SegmentDone(crc, s0, s, Bootloader.Start(), image, true, k)
    requires Programmed(s0, s, Bootloader.Start(), image)
    requires forall i :: 0 <= i < |tries| ==> |tries[i].1| == SECTOR_SIZE
    ensures ChipOf(s).Valid()
    ensures var (d, jumped) := Attempts(crc, ChipOf(s), tries);
            && SameOutside(ChipOf(s), d)
            && (jumped ==> Runs(d.Image(), image) && (image <= d.Image() <==> |image| <= BL_SIZE))
            && ((exists i :: 0 <= i < |tries| && tries[i].0 >= Left(Check)) ==> jumped)
  {
    UpdateIsRequested(crc, s0, s, image, k);
    JumpIsSafe(crc, ChipOf(s), tries);
    if i :| 0 <= i < |tries| && tries[i].0 >= Left(Check) {
      LongAttemptJumps(crc, ChipOf(s), tries, i);
    }
    RunsAll(ChipOf(s).ScratchPrefix(), image);
  }

  /**
    Neither side notices an image that is too long: for every one of more than 0x1C000 bytes that is in the
    scratch area and the application cells behind it, the check is answered as matching, and an undisturbed
    boot then jumps to its first 0x1C000 bytes.
   */
  lemma OversizedUpdateIsTruncated(crc: CrcFn, s: Ecu, image: seq<Byte>, now: nat, env: Env, garbage: seq<Byte>)
    requires s.Valid() && s.mode == Reprogramming && s.pending == Idle && |garbage| == SECTOR_SIZE
    requires |image| > BL_SIZE && |image| % 4 == 0 && Fits(Bootloader.Start(), |image|)
    requires s.nvm[SCRATCH_START..SCRATCH_START + |image|] == image
    ensures var check := CheckRequest(crc(image), Bootloader.Start(), |image|);
            && Request(check)
            && var (t, reply) := ProcessCmd(crc, s, check, now, env);
               && reply == Positive([0x71, 0xE1, 0x01]) && t.Valid()
               && var (d, jumped) := Attempt(crc, ChipOf(t), Check, Left(Check), garbage);
                  jumped && d.Image() == image[..BL_SIZE]
  {
    MatchingCheck(crc, s, image, now, env);
    var t := ProcessCmd(crc, s, CheckRequest(crc(image), Bootloader.Start(), |image|), now, env).0;
    PrefixOfImage(s.nvm, image);
    PendingUpdateCompletes(crc, ChipOf(t), Left(Check), garbage);
  }

  lemma MatchingCheck(crc: CrcFn, s: Ecu, image: seq<Byte>, now: nat, env: Env)
    requires s.Valid() && s.mode == Reprogramming && s.pending == Idle
    requires |image| % 4 == 0 && Fits(Bootloader.Start(), |image|) && SCRATCH_START + |image| <= |s.nvm|
    requires s.nvm[SCRATCH_START..SCRATCH_START + |image|] == image
    ensures var check := CheckRequest(crc(image), Bootloader.Start(), |image|);
            && Request(check)
            && var (t, reply) := ProcessCmd(crc, s, check, now, env);
               && reply == Positive([0x71, 0xE1, 0x01])
               && t.Valid() && t.nvm == s.nvm && ChipOf(t).UpdatePending(crc)
  {
    var r := s.(lastCmd := now, longOp := false);
    CheckReply(crc, s, Bootloader.Start(), |image|, crc(image), now, env);
    CheckCompares(crc, r, Bootloader.Start(), |image|, crc(image), env);
    assert ImageAt(r.nvm, Bootloader.Start(), |image|) == image;
    CheckedIsPending(crc, s.nvm, s.marks);
  }

  lemma CheckedIsPending(crc: CrcFn, nvm: Memory, marks: Markers)
    requires |nvm| == FLASH_SIZE
    ensures Chip(nvm, CheckedMarks(crc, marks, nvm, Bootloader.Start())).UpdatePending(crc)
  {
  }

  /**
    `flash` with a bootloader image of whole words, and the boot after it, without faults and with no result
    left over: the update is always reported as done, and the unit runs it only when it fits.
   */
  method FlashAndBoot(session: Flasher.Session, image: seq<Byte>, garbage: seq<Byte>)
    returns (ok: bool, running: Memory)
    requires session.Valid() && session.faultFree && |garbage| == SECTOR_SIZE
    requires |image| > 0 && |image| % 4 == 0 && Fits(Bootloader.Start(), |image|)
    requires ServerReady(session.server.State(), Bootloader.Start()) && session.server.completed.None?
    modifies session.server, session.server.qspi, session.server.flashBuf
    ensures session.Valid() && ok && |running| == BL_SIZE
    ensures Runs(running, image) && (image <= running <==> |image| <= BL_SIZE)
  {
    ghost var s0 := session.server.State();
    ghost var k;
    FitsPages(Bootloader.Start(), |image|);
    ok, k := FlashSegment(session, image, Bootloader.Start(), true);
    ghost var s := session.server.State();
    ghost var tries := [(Left(Check), garbage)];
    UpdateSurvivesPowerLoss(session.server.crc, s0, s, image, k, tries);
    assert tries[0].0 >= Left(Check) && tries[1..] == [];
    var board := new Board(session.server.nvm, session.server.marks, session.server.crc, Left(Check), garbage);
    var jumped := board.Run();
    running := board.nvm[BL_START..BL_START + BL_SIZE];
  }

  /** One power-up that lasts long enough among any others reaches the jump. */
  lemma {:induction false} LongAttemptJumps(crc: CrcFn, c: Chip, tries: seq<(nat, seq<Byte>)>, i: nat)
    requires c.Valid() && forall j :: 0 <= j < |tries| ==> |tries[j].1| == SECTOR_SIZE
    requires i < |tries| && tries[i].0 >= Left(Check)
    ensures Attempts(crc, c, tries).1
    decreases |tries|
  {
    var (d, jumped) := Attempt(crc, c, Check, tries[0].0, tries[0].1);
    if i == 0 {
      EnoughPowerJumps(crc, c, Check, tries[0].0, tries[0].1);
    } else if !jumped {
      LongAttemptJumps(crc, d, tries[1..], i - 1);
    }
  }
}
