/**
  The bootloader's diagnostic server as a state machine on values: what every command and every
  background step does to the server, the two flash memories and the markers in the SmartEEPROM.
 */
module Kwp {
  import opened Bytes
  import opened Flash
  import opened MemoryMap

  // Service identifiers and session types of ISO 14230-3
  const START_SESSION: Byte := 0x10
  const ECU_RESET: Byte := 0x11
  const READ_IDENTIFICATION: Byte := 0x1A
  const READ_LOCAL_ID: Byte := 0x21
  const READ_MEMORY: Byte := 0x23
  const START_ROUTINE: Byte := 0x31
  const ROUTINE_RESULTS: Byte := 0x33
  const REQUEST_DOWNLOAD: Byte := 0x34
  const TRANSFER_DATA: Byte := 0x36
  const TRANSFER_EXIT: Byte := 0x37
  const TESTER_PRESENT: Byte := 0x3E

  const SESSION_NORMAL: Byte := 0x81
  const SESSION_REPROGRAMMING: Byte := 0x85
  const SESSION_EXTENDED: Byte := 0x92

  const ROUTINE_PRODUCTION_DATE: Byte := 0x24
  const ROUTINE_ERASE: Byte := 0xE0
  const ROUTINE_CHECK: Byte := 0xE1

  const P2_MAX_MS := 2500
  const BLOCK_SIZE := 1024
  const FLASH_BUF := 4096

  datatype Session = Normal | Reprogramming | Extended

  datatype Nrc =
    | ServiceNotSupported
    | InvalidFormat
    | SequenceError
    | RoutineNotComplete
    | RequestOutOfRange
    | TransferSuspended
    | WrongSession

  datatype Reply =
    | Positive(data: seq<Byte>)
    | Negative(nrc: Nrc)
      // a read service, whose reply is not part of this model
    | Unmodelled

  datatype Pending =
    | Idle
    | Reset
    | FlashErase(start: nat, total: nat, current: nat)
    | QspiErase(start: nat, total: nat, current: nat)
    | Flashing(blkId: Byte, addr: nat, compressed: bool, qspi: bool)

  datatype Completed = FlashErased(ok: bool) | QspiErased(ok: bool)

  datatype ProdDate = ProdDate(day: Byte, week: Byte, month: Byte, year: Byte) {
    predicate IsSet() {
      1 <= day <= 31 && 1 <= week <= 52 && 1 <= month <= 12 && 26 <= year <= 99
    }
  }

  /**
    The SmartEEPROM block: the fields the boot chain decides on, of which zero means "done" and "pending"
    respectively, and the version blocks of application and bootloader.
   */
  datatype Markers = Markers(
    prod: ProdDate, appFlashingNotDone: Byte, blFlashingPending: Byte, crcApp: Word, crcBl: Word,
    appInfo: seq<Byte>, blInfo: seq<Byte>)

  /** A cleared version block. */
  const CLEARED: seq<Byte> := [0xFF, 0xFF, 0xFF, 0xFF, 0xFF, 0xFF, 0xFF, 0xFF, 0xFF, 0xFF]

  /** One command given to a flash chip, kept as a history. */
  datatype FlashOp =
    | Erase8k(at: nat)
    | Erase32k(at: nat)
    | Erase4k(at: nat)
    | ProgramPage(at: nat, len: nat)

  datatype Ecu = Ecu(
    mode: Session, pending: Pending, completed: Option<Completed>, lastCmd: nat, longOp: bool,
    qspiSize: nat, stmin: Byte, bs: Byte, nvm: Memory, qspi: Memory, marks: Markers, ops: seq<FlashOp>)
  {
    predicate Valid() {
      && |nvm| == FLASH_SIZE
      && |qspi| == QSPI_SIZE
      && (pending.FlashErase? ==> pending.current < pending.total)
      && (pending.QspiErase? ==> pending.current == 0 || pending.current < pending.total)
    }
  }

  type CrcFn = seq<Byte> -> Word

  /** What the outside decides about one command or background step. */
  datatype Env = Env(
    hwOk: bool,                       // the flash hardware reports success
    qspiFound: nat,                   // size the QSPI chip identifies with, 0 when unknown
    decoded: Option<seq<Byte>>,       // what the decompressor makes of a compressed block
    otherCrc: Word)                   // CRC of a range outside the internal flash, 0 when reading it fails

  // ---------------------------------------------------------------- helpers

  /** What the transports can hand over: at least the service byte, at most one receive buffer. */
  predicate Request(cmd: seq<Byte>) {
    0 < |cmd| <= FLASH_BUF
  }

  predicate Supported(sid: Byte) {
    sid in {START_SESSION, ECU_RESET, READ_IDENTIFICATION, READ_LOCAL_ID, READ_MEMORY, START_ROUTINE,
            ROUTINE_RESULTS, REQUEST_DOWNLOAD, TRANSFER_DATA, TRANSFER_EXIT, TESTER_PRESENT}
  }

  function Ack(cmd: seq<Byte>, data: seq<Byte>): Reply
    requires Request(cmd)
  {
    Positive([(cmd[0] as int + 0x40) % 256] + data)
  }

  /** `check_mem_addr` at the only security level the bootloader ever has. */
  predicate Readable(qspiSize: nat, v: nat) {
    || v < 0x0001_0000
    || 0x0001_0000 <= v < FLASH_SIZE
    || 0x0300_0000 <= v < 0x0400_0000
    || (0x0400_0000 <= v < 0x0500_0000 && v - 0x0400_0000 < qspiSize)
    || 0x2000_0000 <= v < 0x2004_0000
    || 0x4000_0000 <= v < 0x4000_4000
    || 0x4100_0000 <= v < 0x4100_C000
    || 0x4100_E000 <= v < 0x4101_0000
    || 0x4101_2000 <= v < 0x4101_E000
    || 0x4102_0000 <= v < 0x4102_2000
    || 0x4200_0000 <= v < 0x4200_3C00
    || 0x4300_0000 <= v < 0x4300_3000
    || 0x4400_0000 <= v < 0x4800_0000
    || 0xE000_0000 <= v < 0xE000_F000
    || 0xE00F_F000 <= v < 0xE010_0000
  }

  /** The internal flash or the QSPI chip. */
  function Cells(s: Ecu, qspi: bool): Memory {
    if qspi then s.qspi else s.nvm
  }

  /** The only ranges the CRC unit takes. */
  predicate WholeWords(start: nat, len: nat) {
    start % 4 == 0 && len % 4 == 0
  }

  /** What a check compares with the CRC sent; 0 stands for every error, a range that is refused among them. */
  function DsuCrc(crc: CrcFn, s: Ecu, start: nat, len: nat, env: Env): Word {
    if !WholeWords(start, len) then 0
    else if start + len <= |s.nvm| then crc(s.nvm[start..start + len])
    else env.otherCrc
  }

  function RegionCrc(crc: CrcFn, nvm: Memory, r: MemoryRegion): Word
    requires |nvm| == FLASH_SIZE && !r.QspiFlash?
  {
    crc(nvm[r.Start()..r.Start() + r.SizeBytes()])
  }

  // ---------------------------------------------------------------- commands

  function SessionOf(id: Byte): Option<Session> {
    if id == SESSION_REPROGRAMMING then Some(Reprogramming)
    else if id == SESSION_EXTENDED then Some(Extended)
    else if id == SESSION_NORMAL then Some(Normal)
    else None
  }

  /** A request of four bytes also sets the block size and the pause the ISO-TP receiver asks for. */
  function StartSession(s: Ecu, cmd: seq<Byte>): (Ecu, Reply)
    requires Request(cmd)
  {
    if (|cmd| != 2 && |cmd| != 4) || SessionOf(cmd[1]).None? then (s, Negative(InvalidFormat))
    else
      var t := if |cmd| == 4 then s.(bs := cmd[2], stmin := cmd[3]) else s;
      (t.(mode := SessionOf(cmd[1]).value), Ack(cmd, [cmd[1]]))
  }

  function EcuReset(s: Ecu, cmd: seq<Byte>): (Ecu, Reply)
    requires Request(cmd)
  {
    if s.mode != Reprogramming then (s, Negative(WrongSession))
    else if |cmd| != 2 || cmd[1] != 0x01 then (s, Negative(InvalidFormat))
    else (s.(pending := Reset), Ack(cmd, [cmd[1]]))
  }

  function BurnDate(s: Ecu, cmd: seq<Byte>): (Ecu, Reply)
    requires Request(cmd) && |cmd| >= 2
  {
    if |cmd| != 6 then (s, Negative(InvalidFormat))
    else if cmd[2] > 31 || cmd[3] > 52 || cmd[4] > 12 || cmd[5] < 24 then (s, Negative(InvalidFormat))
    else if s.marks.prod.IsSet() then (s, Negative(SequenceError))
    else (s.(marks := s.marks.(prod := ProdDate(cmd[2], cmd[3], cmd[4], cmd[5]))), Ack(cmd, [cmd[1]]))
  }

  function StartErase(s: Ecu, cmd: seq<Byte>): (Ecu, Reply)
    requires Request(cmd) && |cmd| >= 2
  {
    if |cmd| != 8 then (s, Negative(InvalidFormat))
    else
      var start := FromLe32(cmd[2..6]);
      var blocks := FromLe16(cmd[6..8]);
      if blocks == 0 then (s, Negative(InvalidFormat))
      else if start == Bootloader.Start() then
        (s.(pending := FlashErase(Application.Start(), blocks, 0)), Ack(cmd, [cmd[1]]))
      else if Application.Start() <= start < QspiFlash.Start() then
        (s.(marks := s.marks.(appFlashingNotDone := 0xFF, crcApp := 0xFFFF_FFFF),
            pending := FlashErase(start, blocks, 0)),
         Ack(cmd, [cmd[1]]))
      else if QspiFlash.Contains(start) then
        if s.qspiSize == 0 then (s, Negative(SequenceError))
        else if start % 0x1000 != 0 then (s, Negative(InvalidFormat))
        else
          // the product is taken in 16 bits before it is widened
          (s.(pending := QspiErase(start - QspiFlash.Start(), blocks * 2 % 0x1_0000, 0)), Ack(cmd, [cmd[1]]))
      else (s, Negative(RequestOutOfRange))
  }

  function FlashCheck(crc: CrcFn, s: Ecu, cmd: seq<Byte>, env: Env): (Ecu, Reply)
    requires s.Valid() && Request(cmd) && |cmd| >= 2
  {
    if |cmd| != 14 then (s, Negative(InvalidFormat))
    else
      var target, asked, len := FromLe32(cmd[2..6]), FromLe32(cmd[6..10]), FromLe32(cmd[10..14]);
      var isBootloader := asked == Bootloader.Start();
      var start := if isBootloader then BootloaderScratch.Start() else asked;
      if !Readable(s.qspiSize, start) || !Readable(s.qspiSize, (start + len) % 0x1_0000_0000) then
        (s, Negative(RequestOutOfRange))
      else if DsuCrc(crc, s, start, len, env) != target then (s, Ack(cmd, [0xE1, 0x00]))
      else if isBootloader then
        (s.(marks := s.marks.(
              blFlashingPending := 0, blInfo := CLEARED, crcBl := RegionCrc(crc, s.nvm, BootloaderScratch))),
         Ack(cmd, [0xE1, 0x01]))
      else
        (s.(marks := s.marks.(
              appFlashingNotDone := 0, appInfo := CLEARED, crcApp := RegionCrc(crc, s.nvm, Application))),
         Ack(cmd, [0xE1, 0x01]))
  }

  function RoutineStart(crc: CrcFn, s: Ecu, cmd: seq<Byte>, env: Env): (Ecu, Reply)
    requires s.Valid() && Request(cmd)
  {
    if s.mode != Reprogramming then (s, Negative(WrongSession))
    else if s.pending != Idle then (s, Negative(SequenceError))
    else if |cmd| < 2 then (s, Negative(InvalidFormat))
    else if cmd[1] == ROUTINE_PRODUCTION_DATE then BurnDate(s, cmd)
    else if cmd[1] == ROUTINE_ERASE then StartErase(s, cmd)
    else if cmd[1] == ROUTINE_CHECK then FlashCheck(crc, s, cmd, env)
    else (s, Negative(InvalidFormat))
  }

  function RoutineResults(s: Ecu, cmd: seq<Byte>): (Ecu, Reply)
    requires Request(cmd)
  {
    if s.mode != Reprogramming then (s, Negative(WrongSession))
    else if |cmd| != 2 || cmd[1] != ROUTINE_ERASE then (s, Negative(InvalidFormat))
    else if s.completed.Some? then
      (s.(completed := None), Ack(cmd, [0xE0, if s.completed.value.ok then 0x00 else 0x01]))
    else if s.pending == Idle then (s, Negative(SequenceError))
    else (s, Negative(RoutineNotComplete))
  }

  function StartDownload(s: Ecu, cmd: seq<Byte>): (Ecu, Reply)
    requires Request(cmd)
  {
    if s.mode != Reprogramming then (s, Negative(WrongSession))
    else if |cmd| != 10 then (s, Negative(InvalidFormat))
    else
      var addr, fmt, size := FromLe32(cmd[1..5]), cmd[5], FromLe32(cmd[6..10]);
      var end := (addr + size) % 0x1_0000_0000;
      var isQspi := QspiFlash.Contains(addr) && QspiFlash.Contains(end);
      var isApp := Application.Contains(addr) && Application.Contains(end);
      if addr != Bootloader.Start() && (fmt > 1 || (!isQspi && !isApp)) then (s, Negative(InvalidFormat))
      else
        var start := if addr == Bootloader.Start() then BootloaderScratch.Start() else addr;
        (s.(pending := Flashing(0, start, fmt != 0, isQspi)), Ack(cmd, [BLOCK_SIZE / 256, BLOCK_SIZE % 256]))
  }

  /** The bytes a transfer-data command asks to program; `None` when they cannot be programmed. */
  function Payload(s: Ecu, cmd: seq<Byte>, env: Env): Option<seq<Byte>>
    requires s.pending.Flashing? && |cmd| > 2
  {
    var data := if s.pending.compressed then env.decoded else Some(cmd[2..]);
    if data.Some? && |data.value| % 4 == 0 && |data.value| <= FLASH_BUF then data else None
  }

  /** The internal flash takes whole aligned words inside its range. */
  predicate NvmTakes(addr: nat, len: nat, env: Env) {
    env.hwOk && addr % 4 == 0 && addr + len <= FLASH_SIZE
  }

  function Chunks(a: nat, n: nat): seq<FlashOp>
    decreases n
  {
    if n == 0 then [] else [ProgramPage(a, Min(PAGE, n))] + Chunks(a + Min(PAGE, n), n - Min(PAGE, n))
  }

  function Accept(s: Ecu, len: nat): Pending
    requires s.pending.Flashing?
  {
    s.pending.(blkId := (s.pending.blkId as int + 1) % 256, addr := (s.pending.addr + len) % 0x1_0000_0000)
  }

  function TransferData(s: Ecu, cmd: seq<Byte>, env: Env): (Ecu, Reply)
    requires s.Valid() && Request(cmd)
  {
    if !s.pending.Flashing? then (s, Negative(SequenceError))
    else if |cmd| <= 2 then (s, Negative(InvalidFormat))
    else if cmd[1] != s.pending.blkId then (s, Negative(TransferSuspended))
    else
      var p := s.pending;
      var data := Payload(s, cmd, env);
      if data.None? then (s, Negative(TransferSuspended))
      else if p.qspi then
        var at := (p.addr - QSPI_AHB) % 0x1_0000_0000;
        (s.(longOp := true,
            qspi := QspiWrite(s.qspi, at, data.value),
            ops := s.ops + Chunks(at, |data.value|),
            pending := Accept(s, |data.value|)),
         Ack(cmd, [0x00]))
      else if !NvmTakes(p.addr, |data.value|, env) then (s, Negative(TransferSuspended))
      else
        (s.(nvm := ProgramAt(s.nvm, p.addr, data.value), pending := Accept(s, |data.value|)), Ack(cmd, [0x00]))
  }

  function TransferExit(s: Ecu, cmd: seq<Byte>): (Ecu, Reply)
    requires Request(cmd)
  {
    if s.pending.Flashing? then (s.(pending := Idle), Ack(cmd, [0x00]))
    else (s, Negative(SequenceError))
  }

  function Dispatch(crc: CrcFn, s: Ecu, cmd: seq<Byte>, env: Env): (Ecu, Reply)
    requires s.Valid() && Request(cmd)
  {
    var sid := cmd[0];
    if !Supported(sid) then (s, Negative(ServiceNotSupported))
    else if sid == ECU_RESET then EcuReset(s, cmd)
    else if sid == START_SESSION then StartSession(s, cmd)
    else if sid == REQUEST_DOWNLOAD then StartDownload(s, cmd)
    else if sid == TESTER_PRESENT then (s, Ack(cmd, []))
    else if sid == TRANSFER_EXIT then TransferExit(s, cmd)
    else if sid == START_ROUTINE then RoutineStart(crc, s, cmd, env)
    else if sid == ROUTINE_RESULTS then RoutineResults(s, cmd)
    else if sid == TRANSFER_DATA then TransferData(s, cmd, env)
    else (s, Unmodelled)
  }

  /** Every command refreshes the tester timer and ends a long operation before it is looked at. */
  function ProcessCmd(crc: CrcFn, s: Ecu, cmd: seq<Byte>, now: nat, env: Env): (Ecu, Reply)
    requires s.Valid() && Request(cmd)
  {
    Dispatch(crc, s.(lastCmd := now, longOp := false), cmd, env)
  }

  // ---------------------------------------------------------------- background steps

  predicate TimedOut(s: Ecu, now: nat) {
    now - s.lastCmd > P2_MAX_MS && s.mode != Normal && !s.longOp
  }

  function Housekeeping(s: Ecu, now: nat, env: Env): Ecu {
    var t := if s.qspiSize == 0 then s.(qspiSize := env.qspiFound) else s;
    if TimedOut(t, now) then t.(mode := Normal, pending := Idle, completed := None) else t
  }

  function FlashEraseStep(s: Ecu, env: Env): Ecu
    requires s.pending.FlashErase?
  {
    var p := s.pending;
    var at := p.start + SECTOR_SIZE * p.current;
    if env.hwOk && at % 0x2000 == 0 && at + SECTOR_SIZE <= FLASH_SIZE then
      var t := s.(nvm := Erase(s.nvm, at, SECTOR_SIZE), ops := s.ops + [Erase8k(at)]);
      if p.current + 1 == p.total then t.(pending := Idle, completed := Some(FlashErased(true)))
      else t.(pending := FlashErase(p.start, p.total, p.current + 1))
    else s.(pending := Idle, completed := Some(FlashErased(false)))
  }

  /** How many 4 KiB sectors the next QSPI erase command covers. */
  function EraseStride(p: Pending): nat
    requires p.QspiErase?
  {
    if (p.start + SECTOR_4K * p.current) % 0x8000 == 0 && p.total - p.current >= 8 then 8 else 1
  }

  function QspiEraseStep(s: Ecu, env: Env): Ecu
    requires s.pending.QspiErase?
  {
    var p := s.pending;
    var at := p.start + SECTOR_4K * p.current;
    var stride := EraseStride(p);
    if env.hwOk then
      var t := s.(qspi := Erase(s.qspi, at, SECTOR_4K * stride),
                  ops := s.ops + [if stride == 8 then Erase32k(at) else Erase4k(at)]);
      if p.current + stride >= p.total then t.(pending := Idle, completed := Some(QspiErased(true)))
      else t.(pending := QspiErase(p.start, p.total, p.current + stride))
    else s.(pending := Idle, completed := Some(QspiErased(false)))
  }

  function Update(s: Ecu, now: nat, env: Env): Ecu {
    var t := Housekeeping(s, now, env);
    if t.pending.FlashErase? then FlashEraseStep(t, env)
    else if t.pending.QspiErase? then QspiEraseStep(t, env)
    else t
  }

  // ---------------------------------------------------------------- runs

  datatype Event = Cmd(bytes: seq<Byte>, now: nat, env: Env) | Tick(now: nat, env: Env)

  function Step(crc: CrcFn, s: Ecu, e: Event): Ecu
    requires s.Valid()
    requires e.Cmd? ==> Request(e.bytes)
  {
    match e
    case Cmd(bytes, now, env) => ProcessCmd(crc, s, bytes, now, env).0
    case Tick(now, env) => Update(s, now, env)
  }

  predicate WellFormed(events: seq<Event>) {
    forall i :: 0 <= i < |events| && events[i].Cmd? ==> Request(events[i].bytes)
  }

  lemma StepKeepsValid(crc: CrcFn, s: Ecu, e: Event)
    requires s.Valid()
    requires e.Cmd? ==> Request(e.bytes)
    ensures Step(crc, s, e).Valid()
  {
  }

  function Run(crc: CrcFn, s: Ecu, events: seq<Event>): (t: Ecu)
    requires s.Valid() && WellFormed(events)
    ensures t.Valid()
    decreases |events|
  {
    if events == [] then s
    else
      StepKeepsValid(crc, s, events[0]);
      Run(crc, Step(crc, s, events[0]), events[1..])
  }
}
