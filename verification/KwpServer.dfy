/** The diagnostic server as the object the bootloader runs, proved against the state machine of `Kwp`. */
module KwpServer {
  import opened Bytes
  import opened Flash
  import opened MemoryMap
  import opened Kwp
  import opened QspiDriver

  class Server {
    var mode: Session
    var pending: Pending
    var completed: Option<Completed>
    var lastCmdTime: nat
    var longOp: bool
    var qspiSize: nat
    var stmin: Byte
    var bs: Byte
    var nvm: Memory
    var marks: Markers
    const flashBuf: array<Byte>
    const qspi: QspiStorage
    const crc: CrcFn
    ghost var ops: seq<FlashOp>

    ghost function State(): Ecu
      reads this, qspi
    {
      Ecu(mode, pending, completed, lastCmdTime, longOp, qspiSize, stmin, bs, nvm, qspi.cells, marks, ops)
    }

    ghost predicate Valid()
      reads this, qspi
    {
      State().Valid() && flashBuf.Length == FLASH_BUF
    }

    /** A server as it comes up after a reset: no operation pending or completed. */
    constructor (mode: Session, stmin: Byte, bs: Byte, nvm: Memory, qspi: QspiStorage, marks: Markers, crc: CrcFn)
      requires |nvm| == FLASH_SIZE && |qspi.cells| == QSPI_SIZE
      ensures Valid() && fresh(flashBuf) && this.qspi == qspi && this.crc == crc
      ensures State() == Ecu(mode, Idle, None, 0, false, 0, stmin, bs, nvm, qspi.cells, marks, [])
    {
      this.mode := mode;
      pending := Idle;
      completed := None;
      lastCmdTime := 0;
      longOp := false;
      qspiSize := 0;
      this.stmin, this.bs := stmin, bs;
      this.nvm := nvm;
      this.marks := marks;
      flashBuf := new Byte[FLASH_BUF](_ => 0);
      this.qspi := qspi;
      this.crc := crc;
      ops := [];
    }

    method ProcessCmd(cmd: seq<Byte>, now: nat, env: Env) returns (reply: Reply)
      requires Valid() && Request(cmd)
      modifies this, qspi, flashBuf
      ensures Valid()
      ensures State() == Kwp.ProcessCmd(crc, old(State()), cmd, now, env).0
      ensures reply == Kwp.ProcessCmd(crc, old(State()), cmd, now, env).1
    {
      StepKeepsValid(crc, State(), Cmd(cmd, now, env));
      lastCmdTime := now;
      longOp := false;
      reply := Dispatch(cmd, env);
    }

    method Dispatch(cmd: seq<Byte>, env: Env) returns (reply: Reply)
      requires Valid() && Request(cmd)
      modifies this, qspi, flashBuf
      ensures (State(), reply) == Kwp.Dispatch(crc, old(State()), cmd, env)
    {
      var sid := cmd[0];
      if !Supported(sid) {
        reply := Negative(ServiceNotSupported);
      } else if sid == ECU_RESET {
        reply := EcuReset(cmd);
      } else if sid == START_SESSION {
        reply := StartSession(cmd);
      } else if sid == REQUEST_DOWNLOAD {
        reply := StartDownload(cmd);
      } else if sid == TESTER_PRESENT {
        reply := Ack(cmd, []);
      } else if sid == TRANSFER_EXIT {
        reply := TransferExit(cmd);
      } else if sid == START_ROUTINE {
        reply := RoutineStart(cmd, env);
      } else if sid == ROUTINE_RESULTS {
        reply := RoutineResults(cmd);
      } else if sid == TRANSFER_DATA {
        reply := TransferData(cmd, env);
      } else {
        reply := Unmodelled;
      }
    }

    method StartSession(cmd: seq<Byte>) returns (reply: Reply)
      requires Valid() && Request(cmd)
      modifies this
      ensures (State(), reply) == Kwp.StartSession(old(State()), cmd)
    {
      if |cmd| != 2 && |cmd| != 4 {
        return Negative(InvalidFormat);
      }
      match cmd[1] {
        case 0x85 => mode := Reprogramming;
        case 0x92 => mode := Extended;
        case 0x81 => mode := Normal;
        case _ => return Negative(InvalidFormat);
      }
      if |cmd| == 4 {
        bs, stmin := cmd[2], cmd[3];
      }
      reply := Ack(cmd, [cmd[1]]);
    }

    method EcuReset(cmd: seq<Byte>) returns (reply: Reply)
      requires Valid() && Request(cmd)
      modifies this
      ensures (State(), reply) == Kwp.EcuReset(old(State()), cmd)
    {
      if mode != Reprogramming {
        return Negative(WrongSession);
      }
      if |cmd| != 2 {
        reply := Negative(InvalidFormat);
      } else if cmd[1] == 0x01 {
        pending := Reset;
        reply := Ack(cmd, [cmd[1]]);
      } else {
        reply := Negative(InvalidFormat);
      }
    }

    method RoutineStart(cmd: seq<Byte>, env: Env) returns (reply: Reply)
      requires Valid() && Request(cmd)
      modifies this
      ensures (State(), reply) == Kwp.RoutineStart(crc, old(State()), cmd, env)
    {
      if mode != Reprogramming {
        return Negative(WrongSession);
      }
      if pending != Idle {
        return Negative(SequenceError);
      }
      if |cmd| < 2 {
        reply := Negative(InvalidFormat);
      } else if cmd[1] == ROUTINE_PRODUCTION_DATE {
        reply := BurnDate(cmd);
      } else if cmd[1] == ROUTINE_ERASE {
        reply := StartErase(cmd);
      } else if cmd[1] == ROUTINE_CHECK {
        reply := FlashCheck(cmd, env);
      } else {
        reply := Negative(InvalidFormat);
      }
    }

    method BurnDate(cmd: seq<Byte>) returns (reply: Reply)
      requires Valid() && Request(cmd) && |cmd| >= 2
      modifies this
      ensures (State(), reply) == Kwp.BurnDate(old(State()), cmd)
    {
      if |cmd| != 6 {
        return Negative(InvalidFormat);
      }
      if cmd[2] > 31 || cmd[3] > 52 || cmd[4] > 12 || cmd[5] < 24 {
        reply := Negative(InvalidFormat);
      } else if marks.prod.IsSet() {
        reply := Negative(SequenceError);
      } else {
        marks := marks.(prod := ProdDate(cmd[2], cmd[3], cmd[4], cmd[5]));
        reply := Ack(cmd, [cmd[1]]);
      }
    }

    method StartErase(cmd: seq<Byte>) returns (reply: Reply)
      requires Valid() && Request(cmd) && |cmd| >= 2
      modifies this
      ensures (State(), reply) == Kwp.StartErase(old(State()), cmd)
    {
      if |cmd| != 8 {
        return Negative(InvalidFormat);
      }
      var startAddr := FromLe32(cmd[2..6]);
      var numBlocks := FromLe16(cmd[6..8]);
      if numBlocks == 0 {
        return Negative(InvalidFormat);
      }
      if startAddr == Bootloader.Start() {
        startAddr := Application.Start();
      } else if startAddr >= Application.Start() && startAddr < QspiFlash.Start() {
        // the application counts as erased from here on
        marks := marks.(appFlashingNotDone := 0xFF, crcApp := 0xFFFF_FFFF);
      } else if QspiFlash.Contains(startAddr) {
        if qspiSize == 0 {
          return Negative(SequenceError);
        }
        if startAddr % 0x1000 != 0 {
          return Negative(InvalidFormat);
        }
      } else {
        return Negative(RequestOutOfRange);
      }
      if QspiFlash.Contains(startAddr) {
        pending := QspiErase(startAddr - QspiFlash.Start(), numBlocks * 2 % 0x1_0000, 0);
      } else {
        pending := FlashErase(startAddr, numBlocks, 0);
      }
      reply := Ack(cmd, [cmd[1]]);
    }

    method FlashCheck(cmd: seq<Byte>, env: Env) returns (reply: Reply)
      requires Valid() && Request(cmd) && |cmd| >= 2
      modifies this
      ensures (State(), reply) == Kwp.FlashCheck(crc, old(State()), cmd, env)
    {
      if |cmd| != 14 {
        return Negative(InvalidFormat);
      }
      var target := FromLe32(cmd[2..6]);
      var startAddr := FromLe32(cmd[6..10]);
      var len := FromLe32(cmd[10..14]);
      var isBootloader := false;
      if startAddr == Bootloader.Start() {
        startAddr := BootloaderScratch.Start();
        isBootloader := true;
      }
      if !Readable(qspiSize, startAddr) || !Readable(qspiSize, (startAddr + len) % 0x1_0000_0000) {
        return Negative(RequestOutOfRange);
      }
      var computed := Crc32(startAddr, len, env);
      var result := if computed.Some? then computed.value else 0;
      if result == target {
        if isBootloader {
          marks := marks.(blFlashingPending := 0, blInfo := CLEARED, crcBl := RegionCrc(crc, nvm, BootloaderScratch));
        } else {
          marks := marks.(appFlashingNotDone := 0, appInfo := CLEARED, crcApp := RegionCrc(crc, nvm, Application));
        }
        reply := Ack(cmd, [0xE1, 0x01]);
      } else {
        reply := Ack(cmd, [0xE1, 0x00]);
      }
    }

    /** The CRC unit: whole words only, or an error. */
    method Crc32(addr: nat, len: nat, env: Env) returns (r: Option<Word>)
      requires Valid()
      ensures r.Some? <==> WholeWords(addr, len)
      ensures r.Some? ==> r.value == DsuCrc(crc, State(), addr, len, env)
    {
      if addr % 4 != 0 {
        return None;
      }
      if len % 4 != 0 {
        return None;
      }
      r := Some(if addr + len <= |nvm| then crc(nvm[addr..addr + len]) else env.otherCrc);
    }

    method RoutineResults(cmd: seq<Byte>) returns (reply: Reply)
      requires Valid() && Request(cmd)
      modifies this
      ensures (State(), reply) == Kwp.RoutineResults(old(State()), cmd)
    {
      if mode != Reprogramming {
        return Negative(WrongSession);
      }
      if |cmd| != 2 || cmd[1] != ROUTINE_ERASE {
        reply := Negative(InvalidFormat);
      } else if completed.Some? {
        match completed.value {
          case FlashErased(ok) => reply := Ack(cmd, [0xE0, if ok then 0x00 else 0x01]);
          case QspiErased(ok) => reply := Ack(cmd, [0xE0, if ok then 0x00 else 0x01]);
        }
        completed := None;
      } else if pending == Idle {
        reply := Negative(SequenceError);
      } else {
        reply := Negative(RoutineNotComplete);
      }
    }

    method StartDownload(cmd: seq<Byte>) returns (reply: Reply)
      requires Valid() && Request(cmd)
      modifies this
      ensures (State(), reply) == Kwp.StartDownload(old(State()), cmd)
    {
      if mode != Reprogramming {
        return Negative(WrongSession);
      }
      if |cmd| != 10 {
        return Negative(InvalidFormat);
      }
      var addr := FromLe32(cmd[1..5]);
      var fmt := cmd[5];
      var size := FromLe32(cmd[6..10]);
      var isQspi := QspiFlash.Contains(addr) && QspiFlash.Contains((addr + size) % 0x1_0000_0000);
      var isApp := Application.Contains(addr) && Application.Contains((addr + size) % 0x1_0000_0000);
      if addr == Bootloader.Start() {
        addr := BootloaderScratch.Start();
      } else if fmt > 1 || (!isQspi && !isApp) {
        return Negative(InvalidFormat);
      }
      pending := Flashing(0, addr, fmt != 0, isQspi);
      reply := Ack(cmd, [BLOCK_SIZE / 256, BLOCK_SIZE % 256]);
    }

    method TransferData(cmd: seq<Byte>, env: Env) returns (reply: Reply)
      requires Valid() && Request(cmd)
      modifies this, qspi, flashBuf
      ensures (State(), reply) == Kwp.TransferData(old(State()), cmd, env)
    {
      if !pending.Flashing? {
        return Negative(SequenceError);
      }
      if |cmd| <= 2 {
        return Negative(InvalidFormat);
      }
      if cmd[1] != pending.blkId {
        return Negative(TransferSuspended);
      }
      var block := DecodeBlock(cmd, env);
      if block.None? {
        return Negative(TransferSuspended);
      }
      var written := ProgramBlock(block.value, env);
      reply := if written then Ack(cmd, [0x00]) else Negative(TransferSuspended);
    }

    /** Puts the block's bytes at the front of the aligned buffer and says how many there are. */
    method DecodeBlock(cmd: seq<Byte>, env: Env) returns (size: Option<nat>)
      requires Valid() && Request(cmd) && pending.Flashing? && |cmd| > 2
      modifies flashBuf
      ensures size.Some? == Payload(State(), cmd, env).Some?
      ensures size.Some? ==> size.value <= FLASH_BUF && Payload(State(), cmd, env) == Some(flashBuf[..size.value])
    {
      var source := cmd[2..];
      if pending.compressed {
        if env.decoded.None? || |env.decoded.value| > FLASH_BUF {
          return None;
        }
        source := env.decoded.value;
      }
      if |source| % 4 != 0 {
        return None;
      }
      forall i | 0 <= i < |source| {
        flashBuf[i] := source[i];
      }
      assert flashBuf[..|source|] == source;
      size := Some(|source|);
    }

    /** Programs the first `size` bytes of the buffer and moves on, or leaves everything as it was. */
    method ProgramBlock(size: nat, env: Env) returns (ok: bool)
      requires Valid() && pending.Flashing? && size <= FLASH_BUF
      modifies this`pending, this`longOp, this`ops, this`nvm, qspi
      ensures ok == (old(pending).qspi || NvmTakes(old(pending).addr, size, env))
      ensures pending == if ok then Accept(old(State()), size) else old(pending)
      ensures longOp == (old(longOp) || old(pending).qspi)
      ensures nvm == if ok && !old(pending).qspi then ProgramAt(old(nvm), old(pending).addr, flashBuf[..size])
                     else old(nvm)
      ensures var at := (old(pending).addr - QSPI_AHB) % 0x1_0000_0000;
              && ops == (if old(pending).qspi then old(ops) + Chunks(at, size) else old(ops))
              && qspi.cells == if old(pending).qspi then QspiWrite(old(qspi.cells), at, flashBuf[..size])
                               else old(qspi.cells)
    {
      if pending.qspi {
        ProgramQspi(size);
        ok := true;
      } else {
        ok := WriteFlash(pending.addr, flashBuf[..size], env);
      }
      if ok {
        MoveOn(size);
      }
    }

    /** A long operation: the chip programs page by page. */
    method ProgramQspi(size: nat)
      requires Valid() && pending.Flashing? && size <= FLASH_BUF
      modifies this`longOp, this`ops, qspi
      ensures var at := (pending.addr - QSPI_AHB) % 0x1_0000_0000;
              && longOp && ops == old(ops) + Chunks(at, size)
              && qspi.cells == QspiWrite(old(qspi.cells), at, flashBuf[..size])
    {
      longOp := true;
      ghost var issued := qspi.Write((pending.addr - QSPI_AHB) % 0x1_0000_0000, flashBuf[..size]);
      ops := ops + issued;
    }

    method MoveOn(size: nat)
      requires Valid() && pending.Flashing?
      modifies this`pending
      ensures pending == Accept(old(State()), size)
    {
      pending := pending.(blkId := (pending.blkId as int + 1) % 256, addr := (pending.addr + size) % 0x1_0000_0000);
    }

    /** The internal flash controller: whole aligned words inside the flash, or an error and no change. */
    method WriteFlash(addr: nat, data: seq<Byte>, env: Env) returns (ok: bool)
      requires |nvm| == FLASH_SIZE
      modifies this`nvm
      ensures ok == NvmTakes(addr, |data|, env)
      ensures nvm == if ok then ProgramAt(old(nvm), addr, data) else old(nvm)
    {
      ok := env.hwOk && addr % 4 == 0 && addr + |data| <= |nvm|;
      if ok {
        nvm := ProgramAt(nvm, addr, data);
      }
    }

    method TransferExit(cmd: seq<Byte>) returns (reply: Reply)
      requires Valid() && Request(cmd)
      modifies this
      ensures (State(), reply) == Kwp.TransferExit(old(State()), cmd)
    {
      if pending.Flashing? {
        pending := Idle;
        reply := Ack(cmd, [0x00]);
      } else {
        reply := Negative(SequenceError);
      }
    }

    /** One turn of the background work. */
    method Update(now: nat, env: Env)
      requires Valid()
      modifies this, qspi
      ensures Valid()
      ensures State() == Kwp.Update(old(State()), now, env)
    {
      if qspiSize == 0 {
        qspiSize := env.qspiFound;
      }
      if now - lastCmdTime > P2_MAX_MS && mode != Normal && !longOp {
        mode := Normal;
        pending := Idle;
        completed := None;
      }
      if pending.FlashErase? {
        FlashEraseStep(env);
      } else if pending.QspiErase? {
        QspiEraseStep(env);
      }
    }

    method FlashEraseStep(env: Env)
      requires Valid() && pending.FlashErase?
      modifies this
      ensures State() == Kwp.FlashEraseStep(old(State()), env)
    {
      var addr := pending.start + 8192 * pending.current;
      if env.hwOk && addr % 0x2000 == 0 && addr + SECTOR_SIZE <= |nvm| {
        nvm := Erase(nvm, addr, SECTOR_SIZE);
        ops := ops + [Erase8k(addr)];
        var current := pending.current + 1;
        if pending.total == current {
          pending := Idle;
          completed := Some(FlashErased(true));
        } else {
          pending := FlashErase(pending.start, pending.total, current);
        }
      } else {
        pending := Idle;
        completed := Some(FlashErased(false));
      }
    }

    method QspiEraseStep(env: Env)
      requires Valid() && pending.QspiErase?
      modifies this, qspi
      ensures State() == Kwp.QspiEraseStep(old(State()), env)
    {
      var addr := pending.start + 4096 * pending.current;
      var ok, inc;
      if addr % 0x8000 == 0 && pending.total - pending.current >= 8 {
        ok := qspi.Erase32kBlock(addr, env.hwOk);
        inc := 8;
        ops := if ok then ops + [Erase32k(addr)] else ops;
      } else {
        ok := qspi.Erase4kSector(addr, env.hwOk);
        inc := 1;
        ops := if ok then ops + [Erase4k(addr)] else ops;
      }
      if ok {
        var current := pending.current + inc;
        if current >= pending.total {
          pending := Idle;
          completed := Some(QspiErased(true));
        } else {
          pending := QspiErase(pending.start, pending.total, current);
        }
      } else {
        pending := Idle;
        completed := Some(QspiErased(false));
      }
    }
  }
}
