/** Whether the bootloader starts the application or stays, and why. */
module BootDecision {
  import opened Bytes
  import opened Flash
  import opened MemoryMap
  import opened Kwp

  /** Initial stack pointer of a valid application image. */
  const RAM_START: Word := 0x2004_0000
  const MAX_RESET_COUNT := 5

  datatype StayReason =
    | NoReason | MagicPin | Watchdog | ProductionInfoNotSet | Diagnostics | ResetCount | Panic | RamFailure | AppInvalid

  /** What application and preloader left in the shared RAM block; `timing` is a pause and a block size. */
  datatype RamInfo = RamInfo(
    diagRequest: bool, timing: Option<(Byte, Byte)>, resetCounter: nat, appPanic: bool, ramFailure: bool)

  /** Pause and block size the ISO-TP receiver asks for when nobody has said otherwise. */
  const DEFAULT_TIMING: (Byte, Byte) := (0x02, 0x08)

  /** What a reset finds; no RAM information when its CRC is wrong. */
  datatype Inputs = Inputs(magicPin: bool, watchdog: bool, ram: Option<RamInfo>)

  predicate CanAppStart(marks: Markers, nvm: Memory)
    requires |nvm| == FLASH_SIZE
  {
    && marks.appFlashingNotDone == 0
    && FromLe32(nvm[Application.Start()..Application.Start() + 4]) == RAM_START
    && marks.crcApp != 0xFFFF_FFFF
  }

  function RamReason(r: RamInfo): StayReason {
    if r.diagRequest then Diagnostics
    else if r.resetCounter >= MAX_RESET_COUNT then ResetCount
    else if r.appPanic then Panic
    else if r.ramFailure then RamFailure
    else NoReason
  }

  /** The reason reported over diagnostics; none means the application is launched. */
  function Reason(i: Inputs, marks: Markers, nvm: Memory): StayReason
    requires |nvm| == FLASH_SIZE
  {
    if i.magicPin then MagicPin
    else if i.watchdog then Watchdog
    else if !marks.prod.IsSet() then ProductionInfoNotSet
    else if i.ram.Some? && RamReason(i.ram.value) != NoReason then RamReason(i.ram.value)
    else if !CanAppStart(marks, nvm) then AppInvalid
    else NoReason
  }

  /** The application hands its timing over together with the request for diagnostics. */
  function Timing(i: Inputs, marks: Markers, nvm: Memory): (Byte, Byte)
    requires |nvm| == FLASH_SIZE
  {
    if Reason(i, marks, nvm) == Diagnostics && i.ram.Some? && i.ram.value.timing.Some? then i.ram.value.timing.value
    else DEFAULT_TIMING
  }

  /** The decision section of `init`, with its flags updated step by step. */
  method DecideBoot(i: Inputs, marks: Markers, nvm: Memory)
    returns (launch: bool, resetReason: StayReason, startDiagInReprogMode: bool, stmin: Byte, bs: Byte)
    requires |nvm| == FLASH_SIZE
    ensures resetReason == Reason(i, marks, nvm)
    ensures launch <==> resetReason == NoReason
    ensures startDiagInReprogMode <==> resetReason == Diagnostics
    ensures (stmin, bs) == Timing(i, marks, nvm)
  {
    stmin, bs := DEFAULT_TIMING.0, DEFAULT_TIMING.1;
    launch, startDiagInReprogMode := false, false;
    resetReason := NoReason;
    if i.magicPin {
      resetReason := MagicPin;
    } else if i.watchdog {
      resetReason := Watchdog;
    } else if !marks.prod.IsSet() {
      resetReason := ProductionInfoNotSet;
    } else {
      var continueBoot := true;
      if i.ram.Some? {
        var ramInfo := i.ram.value;
        continueBoot := false;
        if ramInfo.diagRequest {
          startDiagInReprogMode := true;
          if ramInfo.timing.Some? {
            stmin, bs := ramInfo.timing.value.0, ramInfo.timing.value.1;
          }
          resetReason := Diagnostics;
        } else if ramInfo.resetCounter >= MAX_RESET_COUNT {
          resetReason := ResetCount;
        } else if ramInfo.appPanic {
          resetReason := Panic;
        } else if ramInfo.ramFailure {
          resetReason := RamFailure;
        } else {
          continueBoot := true;
        }
      }
      if resetReason == NoReason && !CanAppStart(marks, nvm) {
        resetReason := AppInvalid;
      }
      if CanAppStart(marks, nvm) && continueBoot {
        launch := true;
      }
    }
  }
}
