/** The address ranges shared by preloader, bootloader, firmware and flasher. */
module MemoryMap {
  const SECTOR_SIZE := 0x2000
  const QSPI_AHB := 0x0400_0000
  const FLASH_SIZE := 0x10_0000
  const QSPI_SIZE := 0x100_0000

  datatype MemoryRegion = Preloader | Bootloader | BootloaderScratch | Application | QspiFlash {
    function Start(): nat {
      match this
      case Preloader => 0
      case Bootloader => 0x2000
      case BootloaderScratch => 0x1_E000
      case Application => 0x1_E000
      case QspiFlash => 0x0400_0000
    }

    /** First address past the region. */
    function End(): nat {
      match this
      case Preloader => 0x2000
      case Bootloader => 0x1_E000
      case BootloaderScratch => 0x3_C000
      case Application => 0x10_0000
      case QspiFlash => 0x0500_0000
    }

    predicate Contains(addr: int) {
      Start() <= addr < End()
    }

    function Blocks8k(): nat {
      (End() - Start()) / SECTOR_SIZE
    }

    function SizeBytes(): nat {
      Blocks8k() * SECTOR_SIZE
    }
  }

  /** Whole 8 KiB pages that `n` bytes occupy. */
  function Pages(n: nat): nat {
    n / 0x2000 + if n % 0x2000 != 0 then 1 else 0
  }
}
