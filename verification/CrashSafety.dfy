/** Power may fail at any step of the bootloader copy, any number of times. */
module CrashSafety {
  import opened Bytes
  import opened Flash
  import opened MemoryMap
  import opened Kwp
  import opened Preloader

  /** Everything but the bootloader region. */
  predicate SameOutside(a: Chip, b: Chip)
    requires a.Valid() && b.Valid()
  {
    forall i :: 0 <= i < FLASH_SIZE && !(BL_START <= i < BL_START + BL_SIZE) ==> a.nvm[i] == b.nvm[i]
  }

  /** What the preloader has achieved when it stands at `pc`. */
  predicate PcOk(crc: CrcFn, c: Chip, pc: Pc)
    requires c.Valid()
  {
    match pc
    case Check => true
    case EraseBlock(n) =>
      n < BL_BLOCKS && c.UpdatePending(crc)
      && forall i :: BL_START <= i < BlockAt(n) ==> c.nvm[i] == ERASED
    case WritePage(k) => k < BL_PAGES && c.UpdatePending(crc) && Copied(c, k)
    case Seal => c.marks.blFlashingPending == 0 && (c.UpdatePending(crc) ==> c.Image() == c.ScratchPrefix())
    case Jump => c.Image() == Destined(crc, c)
  }

  /** The scratch cell that bootloader cell `i` is copied from. */
  function Source(i: nat): nat {
    i + 0x1_C000
  }

  /** The first `k` pages are copied and the rest of the region is blank. */
  predicate Copied(c: Chip, k: nat)
    requires c.Valid()
  {
    forall i :: BL_START <= i < BL_START + BL_SIZE ==>
      c.nvm[i] == if i < PageAt(k) then c.nvm[Source(i)] else ERASED
  }

  lemma OutsideKeepsScratch(a: Chip, b: Chip)
    requires a.Valid() && b.Valid() && SameOutside(a, b)
    ensures a.Scratch() == b.Scratch() && a.ScratchPrefix() == b.ScratchPrefix()
  {
    assert forall i :: SCRATCH_START <= i < SCRATCH_START + SCRATCH_SIZE ==> a.nvm[i] == b.nvm[i];
  }

  lemma EraseStepOk(crc: CrcFn, c: Chip, n: nat)
    requires c.Valid() && PcOk(crc, c, EraseBlock(n))
    ensures var (d, next) := Advance(crc, c, EraseBlock(n));
            PcOk(crc, d, next) && SameOutside(c, d) && d.marks == c.marks
  {
    var (d, next) := Advance(crc, c, EraseBlock(n));
    assert BlockAt(n) + SECTOR_SIZE <= BL_START + BL_SIZE;
    OutsideKeepsScratch(c, d);
    if n + 1 == BL_BLOCKS {
      assert BlockAt(n + 1) == BL_START + BL_SIZE;
    }
  }

  lemma WriteStepOk(crc: CrcFn, c: Chip, k: nat)
    requires c.Valid() && PcOk(crc, c, WritePage(k))
    ensures var (d, next) := Advance(crc, c, WritePage(k));
            PcOk(crc, d, next) && SameOutside(c, d) && d.marks == c.marks
  {
    var (d, next) := Advance(crc, c, WritePage(k));
    assert PageAt(k) + WRITE_PAGE <= BL_START + BL_SIZE;
    OutsideKeepsScratch(c, d);
    CopyPage(c, d, k);
    if k + 1 == BL_PAGES {
      forall i | 0 <= i < BL_SIZE ensures d.Image()[i] == d.ScratchPrefix()[i] {
        assert d.nvm[BL_START + i] == d.nvm[Source(BL_START + i)];
      }
      assert d.Image() == d.ScratchPrefix();
    }
  }

  lemma CopyPage(c: Chip, d: Chip, k: nat)
    requires c.Valid() && d.Valid() && k < BL_PAGES && Copied(c, k)
    requires d.nvm == ProgramAt(c.nvm, PageAt(k), c.nvm[SourceAt(k)..SourceAt(k) + WRITE_PAGE])
    ensures Copied(d, k + 1)
  {
    var page := c.nvm[SourceAt(k)..SourceAt(k) + WRITE_PAGE];
    forall i | BL_START <= i < BL_START + BL_SIZE
      ensures d.nvm[i] == if i < PageAt(k + 1) then d.nvm[Source(i)] else ERASED
    {
      assert d.nvm[Source(i)] == c.nvm[Source(i)];
      if PageAt(k) <= i < PageAt(k + 1) {
        assert page[i - PageAt(k)] == c.nvm[Source(i)];
      }
    }
  }

  /** No complete step changes the image the preloader is heading for. */
  lemma StepKeepsDestiny(crc: CrcFn, c: Chip, pc: Pc)
    requires c.Valid() && InRange(pc) && pc != Jump && PcOk(crc, c, pc)
    ensures var (d, next) := Advance(crc, c, pc);
            PcOk(crc, d, next) && SameOutside(c, d) && Destined(crc, d) == Destined(crc, c)
  {
    var (d, next) := Advance(crc, c, pc);
    match pc
    case Check =>
    case EraseBlock(n) =>
      EraseStepOk(crc, c, n);
      OutsideKeepsScratch(c, d);
    case WritePage(k) =>
      WriteStepOk(crc, c, k);
      OutsideKeepsScratch(c, d);
    case Seal =>
      assert d.nvm == c.nvm;
  }

  /** Neither does a power failure in the middle of one. */
  lemma TornKeepsDestiny(crc: CrcFn, c: Chip, pc: Pc, garbage: seq<Byte>)
    requires c.Valid() && InRange(pc) && PcOk(crc, c, pc) && |garbage| == SECTOR_SIZE
    ensures var d := Torn(c, pc, garbage); SameOutside(c, d) && Destined(crc, d) == Destined(crc, c)
  {
    var d := Torn(c, pc, garbage);
    match pc
    case EraseBlock(i) => OutsideKeepsScratch(c, d);
    case WritePage(k) => OutsideKeepsScratch(c, d);
    case _ =>
  }

  /** A power-up of any length either jumps to the destined image or leaves it destined. */
  lemma {:induction false} AttemptKeepsDestiny(crc: CrcFn, c: Chip, pc: Pc, budget: nat, garbage: seq<Byte>)
    requires c.Valid() && InRange(pc) && PcOk(crc, c, pc) && |garbage| == SECTOR_SIZE
    requires pc == Jump ==> c.marks.blFlashingPending != 0
    ensures var (d, jumped) := Attempt(crc, c, pc, budget, garbage);
            && SameOutside(c, d) && Destined(crc, d) == Destined(crc, c)
            && (jumped ==> d.Image() == Destined(crc, c) && d.marks.blFlashingPending != 0)
            && d.marks.appFlashingNotDone == c.marks.appFlashingNotDone && d.marks.crcApp == c.marks.crcApp
            && d.marks.prod == c.marks.prod
    decreases Left(pc)
  {
    if pc != Jump {
      if budget == 0 {
        TornKeepsDestiny(crc, c, pc, garbage);
      } else {
        StepKeepsDestiny(crc, c, pc);
        var (d, next) := Advance(crc, c, pc);
        AttemptKeepsDestiny(crc, d, next, budget - 1, garbage);
      }
    }
  }

  /** Power-ups one after the other, each cut short where its budget ends, until one reaches the jump. */
  function Attempts(crc: CrcFn, c: Chip, tries: seq<(nat, seq<Byte>)>): (r: (Chip, bool))
    requires c.Valid() && forall i :: 0 <= i < |tries| ==> |tries[i].1| == SECTOR_SIZE
    ensures r.0.Valid()
    decreases |tries|
  {
    if tries == [] then (c, false)
    else
      var (d, jumped) := Attempt(crc, c, Check, tries[0].0, tries[0].1);
      if jumped then (d, true) else Attempts(crc, d, tries[1..])
  }

  /**
    However often and wherever power fails: when the preloader at last jumps, the bootloader region is
    what it was before, or, if an update was pending and the scratch area matched its CRC, all of the
    scratch prefix; nothing else in the flash has changed.
   */
  lemma {:induction false} JumpIsSafe(crc: CrcFn, c: Chip, tries: seq<(nat, seq<Byte>)>)
    requires c.Valid() && forall i :: 0 <= i < |tries| ==> |tries[i].1| == SECTOR_SIZE
    ensures var (d, jumped) := Attempts(crc, c, tries);
            && SameOutside(c, d)
            && (jumped ==> d.Image() == if c.UpdatePending(crc) then c.ScratchPrefix() else c.Image())
            && (!jumped ==> Destined(crc, d) == Destined(crc, c))
    decreases |tries|
  {
    if tries != [] {
      AttemptKeepsDestiny(crc, c, Check, tries[0].0, tries[0].1);
      var (d, jumped) := Attempt(crc, c, Check, tries[0].0, tries[0].1);
      if !jumped {
        JumpIsSafe(crc, d, tries[1..]);
        var e := Attempts(crc, d, tries[1..]).0;
        assert SameOutside(c, e);
      }
    }
  }

  /** An undisturbed power-up always gets to the jump, and so completes a pending, matching update. */
  lemma {:induction false} EnoughPowerJumps(crc: CrcFn, c: Chip, pc: Pc, budget: nat, garbage: seq<Byte>)
    requires c.Valid() && InRange(pc) && |garbage| == SECTOR_SIZE && budget >= Left(pc)
    ensures Attempt(crc, c, pc, budget, garbage).1
    decreases Left(pc)
  {
    if pc != Jump {
      var (d, next) := Advance(crc, c, pc);
      assert Left(next) < Left(pc);
      EnoughPowerJumps(crc, d, next, budget - 1, garbage);
    }
  }

  lemma PendingUpdateCompletes(crc: CrcFn, c: Chip, budget: nat, garbage: seq<Byte>)
    requires c.Valid() && |garbage| == SECTOR_SIZE && budget >= Left(Check) && c.UpdatePending(crc)
    ensures var (d, jumped) := Attempt(crc, c, Check, budget, garbage);
            jumped && d.Image() == c.ScratchPrefix() && d.marks.blFlashingPending != 0
  {
    EnoughPowerJumps(crc, c, Check, budget, garbage);
    AttemptKeepsDestiny(crc, c, Check, budget, garbage);
  }

  /**
    What the update leaves in the markers. Until the jump a request stays pending as it is, however often power
    fails; with the jump it is gone, and the CRC on record is that of the bootloader that is jumped to. Without a
    request nothing changes at all.
   */
  lemma {:induction false} JumpRecordsCrc(crc: CrcFn, c: Chip, pc: Pc, budget: nat, garbage: seq<Byte>)
    requires c.Valid() && InRange(pc) && pc != Jump && |garbage| == SECTOR_SIZE
    requires pc != Check ==> c.marks.blFlashingPending == 0
    ensures var (d, jumped) := Attempt(crc, c, pc, budget, garbage);
            if c.marks.blFlashingPending != 0 then d == c && (jumped <==> budget > 0)
            else d.marks == if jumped then c.marks.(blFlashingPending := 0xFF, crcBl := crc(d.Image())) else c.marks
    decreases Left(pc)
  {
    if budget > 0 && c.marks.blFlashingPending == 0 {
      var (d, next) := Advance(crc, c, pc);
      if next != Jump {
        JumpRecordsCrc(crc, d, next, budget - 1, garbage);
      }
    }
  }
}
