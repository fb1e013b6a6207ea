/**
  The preloader's bootloader update, cut into the steps between which power can fail, and the image
  that is certain to be in the bootloader region when it finally jumps there.
 */
module Preloader {
  import opened Bytes
  import opened Flash
  import opened MemoryMap
  import opened Kwp

  const BL_START := 0x2000
  const BL_SIZE := 0x1_C000
  const SCRATCH_START := 0x1_E000
  const SCRATCH_SIZE := 0x1_E000
  const BL_BLOCKS := 14
  /** The copy is programmed in flash pages of 512 bytes. */
  const WRITE_PAGE := 512
  const BL_PAGES := 224

  lemma RegionsMatch()
    ensures Bootloader.Start() == BL_START && Bootloader.SizeBytes() == BL_SIZE && Bootloader.Blocks8k() == BL_BLOCKS
    ensures BootloaderScratch.Start() == SCRATCH_START && BootloaderScratch.SizeBytes() == SCRATCH_SIZE
    ensures Bootloader.End() - Bootloader.Start() == BL_PAGES * WRITE_PAGE
  {
  }

  /** What survives without power. */
  datatype Chip = Chip(nvm: Memory, marks: Markers) {
    predicate Valid() {
      |nvm| == FLASH_SIZE
    }

    function Image(): Memory
      requires Valid()
    {
      nvm[BL_START..BL_START + BL_SIZE]
    }

    function Scratch(): Memory
      requires Valid()
    {
      nvm[SCRATCH_START..SCRATCH_START + SCRATCH_SIZE]
    }

    /** The part of the scratch area that is copied. */
    function ScratchPrefix(): Memory
      requires Valid()
    {
      nvm[SCRATCH_START..SCRATCH_START + BL_SIZE]
    }

    /**
      An update is requested and the scratch area still has the CRC that the unit recorded for it at the
      request. What the tester had compared before that is another matter.
     */
    predicate UpdatePending(crc: CrcFn)
      requires Valid()
    {
      marks.blFlashingPending == 0 && crc(Scratch()) == marks.crcBl
    }
  }

  /** The bootloader image the next completed preloader run jumps to. */
  function Destined(crc: CrcFn, c: Chip): Memory
    requires c.Valid()
  {
    if c.UpdatePending(crc) then c.ScratchPrefix() else c.Image()
  }

  /** Where the preloader is. */
  datatype Pc = Check | EraseBlock(i: nat) | WritePage(k: nat) | Seal | Jump

  /** Overwrites `data` from cell `a` on. */
  function Put(m: Memory, a: nat, data: seq<Byte>): (r: Memory)
    requires a + |data| <= |m|
    ensures |r| == |m|
  {
    m[..a] + data + m[a + |data|..]
  }

  function BlockAt(i: nat): nat {
    BL_START + SECTOR_SIZE * i
  }

  function PageAt(k: nat): nat {
    BL_START + WRITE_PAGE * k
  }

  function SourceAt(k: nat): nat {
    SCRATCH_START + WRITE_PAGE * k
  }

  predicate InRange(pc: Pc) {
    match pc
    case EraseBlock(i) => i < BL_BLOCKS
    case WritePage(k) => k < BL_PAGES
    case _ => true
  }

  /** One step carried out completely. */
  function Advance(crc: CrcFn, c: Chip, pc: Pc): (Chip, Pc)
    requires c.Valid() && InRange(pc) && pc != Jump
  {
    match pc
    case Check =>
      (c, if c.marks.blFlashingPending != 0 then Jump
          else if crc(c.Scratch()) == c.marks.crcBl then EraseBlock(0)
          else Seal)
    case EraseBlock(i) =>
      (c.(nvm := Erase(c.nvm, BlockAt(i), SECTOR_SIZE)),
       if i + 1 < BL_BLOCKS then EraseBlock(i + 1) else WritePage(0))
    case WritePage(k) =>
      (c.(nvm := ProgramAt(c.nvm, PageAt(k), c.nvm[SourceAt(k)..SourceAt(k) + WRITE_PAGE])),
       if k + 1 < BL_PAGES then WritePage(k + 1) else Seal)
    case Seal =>
      (c.(marks := c.marks.(blFlashingPending := 0xFF, crcBl := crc(c.Image()))), Jump)
  }

  /** Power fails in the middle of a step: the block or page being worked on is left with any content. */
  function Torn(c: Chip, pc: Pc, garbage: seq<Byte>): (r: Chip)
    requires c.Valid() && InRange(pc) && |garbage| == SECTOR_SIZE
    ensures r.Valid()
  {
    match pc
    case EraseBlock(i) => c.(nvm := Put(c.nvm, BlockAt(i), garbage))
    case WritePage(k) => c.(nvm := Put(c.nvm, PageAt(k), garbage[..WRITE_PAGE]))
    case _ => c
  }

  /** Steps left until the jump. */
  function Left(pc: Pc): nat
    requires InRange(pc)
  {
    match pc
    case Check => 2 + BL_BLOCKS + BL_PAGES
    case EraseBlock(i) => 1 + (BL_BLOCKS - i) + BL_PAGES
    case WritePage(k) => 1 + (BL_PAGES - k)
    case Seal => 1
    case Jump => 0
  }

  /** A power-up that lasts for `budget` complete steps. */
  function Attempt(crc: CrcFn, c: Chip, pc: Pc, budget: nat, garbage: seq<Byte>): (r: (Chip, bool))
    requires c.Valid() && InRange(pc) && |garbage| == SECTOR_SIZE
    ensures r.0.Valid()
    decreases Left(pc)
  {
    if pc == Jump then (c, true)
    else if budget == 0 then (Torn(c, pc, garbage), false)
    else
      var (d, next) := Advance(crc, c, pc);
      Attempt(crc, d, next, budget - 1, garbage)
  }

  // ---------------------------------------------------------------- the code

  /** The chip on its power supply: `budget` more steps complete, and the one after that leaves `garbage`. */
  class Board {
    var nvm: Memory
    var marks: Markers
    const crc: CrcFn
    var budget: nat
    const garbage: seq<Byte>

    predicate Valid()
      reads this
    {
      |nvm| == FLASH_SIZE && |garbage| == SECTOR_SIZE
    }

    function State(): Chip
      reads this
    {
      Chip(nvm, marks)
    }

    constructor (nvm: Memory, marks: Markers, crc: CrcFn, budget: nat, garbage: seq<Byte>)
      requires |nvm| == FLASH_SIZE && |garbage| == SECTOR_SIZE
      ensures Valid() && State() == Chip(nvm, marks) && this.crc == crc
      ensures this.budget == budget && this.garbage == garbage
    {
      this.nvm, this.marks, this.crc, this.budget, this.garbage := nvm, marks, crc, budget, garbage;
    }

    /** Erases `count` blocks of 8 KiB from `start` on; false when power fails in one of them. */
    method EraseBootloader() returns (powered: bool)
      requires Valid()
      modifies this
      ensures Valid() && marks == old(marks)
      ensures powered ==>
        Attempt(crc, old(State()), EraseBlock(0), old(budget), garbage)
        == Attempt(crc, State(), WritePage(0), budget, garbage)
      ensures !powered ==>
        Attempt(crc, old(State()), EraseBlock(0), old(budget), garbage) == (State(), false)
    {
      var i := 0;
      while i < 14
        invariant i <= 14 && Valid() && marks == old(marks)
        invariant Attempt(crc, old(State()), EraseBlock(0), old(budget), garbage)
                  == Attempt(crc, State(), if i < 14 then EraseBlock(i) else WritePage(0), budget, garbage)
      {
        if budget == 0 {
          nvm := Put(nvm, BlockAt(i), garbage);
          return false;
        }
        budget := budget - 1;
        nvm := Erase(nvm, BlockAt(i), SECTOR_SIZE);
        i := i + 1;
      }
      powered := true;
    }

    /** Copies the scratch area to the bootloader region, page by page. */
    method CopyScratch() returns (powered: bool)
      requires Valid()
      modifies this
      ensures Valid() && marks == old(marks)
      ensures powered ==>
        Attempt(crc, old(State()), WritePage(0), old(budget), garbage)
        == Attempt(crc, State(), Seal, budget, garbage)
      ensures !powered ==>
        Attempt(crc, old(State()), WritePage(0), old(budget), garbage) == (State(), false)
    {
      var k := 0;
      while k < BL_PAGES
        invariant k <= BL_PAGES && Valid() && marks == old(marks)
        invariant Attempt(crc, old(State()), WritePage(0), old(budget), garbage)
                  == Attempt(crc, State(), if k < BL_PAGES then WritePage(k) else Seal, budget, garbage)
      {
        if budget == 0 {
          nvm := Put(nvm, PageAt(k), garbage[..WRITE_PAGE]);
          return false;
        }
        budget := budget - 1;
        nvm := ProgramAt(nvm, PageAt(k), nvm[SourceAt(k)..SourceAt(k) + WRITE_PAGE]);
        k := k + 1;
      }
      powered := true;
    }

    /** The copy section of `main`; true when it reaches the jump. */
    method Run() returns (jumped: bool)
      requires Valid()
      modifies this
      ensures Valid()
      ensures (State(), jumped) == Attempt(crc, old(State()), Check, old(budget), garbage)
    {
      if budget == 0 {
        return false;
      }
      budget := budget - 1;
      if marks.blFlashingPending == 0 {
        var scratchCrc := crc(nvm[SCRATCH_START..SCRATCH_START + SCRATCH_SIZE]);
        if scratchCrc == marks.crcBl {
          var powered := EraseBootloader();
          if !powered {
            return false;
          }
          powered := CopyScratch();
          if !powered {
            return false;
          }
        }
        if budget == 0 {
          return false;
        }
        budget := budget - 1;
        marks := marks.(blFlashingPending := 0xFF, crcBl := crc(nvm[BL_START..BL_START + BL_SIZE]));
      }
      jumped := true;
    }
  }
}
