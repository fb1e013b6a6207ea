/**
  Which requests the diagnostic server refuses and why, what every accepted one changes, and when a session
  ends; all of it in the bytes of the request and the state the server is in.
 */
module KwpReplies {
  import opened Bytes
  import opened MemoryMap
  import opened Kwp

  function After(crc: CrcFn, s: Ecu, cmd: seq<Byte>, now: nat, env: Env): Ecu
    requires s.Valid() && Request(cmd)
  {
    ProcessCmd(crc, s, cmd, now, env).0
  }

  function ReplyTo(crc: CrcFn, s: Ecu, cmd: seq<Byte>, env: Env): Reply
    requires s.Valid() && Request(cmd)
  {
    ProcessCmd(crc, s, cmd, 0, env).1
  }

  // ---------------------------------------------------------------- refusals
  // The three read services, whose replies are not part of the model, are in none of these lists.

  /** Clock and long-operation flag have no part in a reply. */
  lemma ReplyHasNoClock(crc: CrcFn, s: Ecu, cmd: seq<Byte>, now: nat, env: Env)
    requires s.Valid() && Request(cmd)
    ensures ProcessCmd(crc, s, cmd, now, env).1 == ReplyTo(crc, s, cmd, env)
  {
  }

  /** A refused request changes nothing, and the reply to an accepted one begins with its service number plus 0x40. */
  lemma RefusedChangesNothing(crc: CrcFn, s: Ecu, cmd: seq<Byte>, now: nat, env: Env)
    requires s.Valid() && Request(cmd)
    ensures ReplyTo(crc, s, cmd, env).Negative? ==> After(crc, s, cmd, now, env) == s.(lastCmd := now, longOp := false)
    ensures ReplyTo(crc, s, cmd, env).Positive? ==>
              ReplyTo(crc, s, cmd, env).data != [] && ReplyTo(crc, s, cmd, env).data[0] == cmd[0] + 0x40
  {
    ReplyHasNoClock(crc, s, cmd, now, env);
  }

  /** Routines need the programming session and no other operation. */
  predicate RoutineAllowed(s: Ecu, cmd: seq<Byte>)
    requires Request(cmd)
  {
    cmd[0] == 0x31 && s.mode == Reprogramming && s.pending == Idle
  }

  predicate Erase(s: Ecu, cmd: seq<Byte>)
    requires Request(cmd)
  {
    RoutineAllowed(s, cmd) && |cmd| == 8 && cmd[1] == 0xE0 && FromLe16(cmd[6..8]) != 0
  }

  predicate Check(s: Ecu, cmd: seq<Byte>)
    requires Request(cmd)
  {
    RoutineAllowed(s, cmd) && |cmd| == 14 && cmd[1] == 0xE1
  }

  predicate Date(s: Ecu, cmd: seq<Byte>)
    requires Request(cmd)
  {
    RoutineAllowed(s, cmd) && |cmd| == 6 && cmd[1] == 0x24
    && cmd[2] <= 31 && cmd[3] <= 52 && cmd[4] <= 12 && cmd[5] >= 24
  }

  predicate Results(s: Ecu, cmd: seq<Byte>)
    requires Request(cmd)
  {
    cmd == [0x33, 0xE0] && s.mode == Reprogramming
  }

  /** The block that is due, of a download under way. */
  predicate Due(s: Ecu, cmd: seq<Byte>)
    requires Request(cmd)
  {
    cmd[0] == 0x36 && s.pending.Flashing? && |cmd| > 2
  }

  /** A block whose bytes are whole words and can be written where the download stands. */
  predicate Writable(s: Ecu, cmd: seq<Byte>, env: Env)
    requires Request(cmd) && Due(s, cmd)
  {
    && cmd[1] == s.pending.blkId
    && (s.pending.compressed ==> env.decoded.Some?)
    && var size := if s.pending.compressed then |env.decoded.value| else |cmd| - 2;
    && size % 4 == 0 && size <= 4096
    && (s.pending.qspi || (env.hwOk && s.pending.addr % 4 == 0 && s.pending.addr + size <= 0x10_0000))
  }

  /** Unknown services. */
  lemma NotSupportedIff(crc: CrcFn, s: Ecu, cmd: seq<Byte>, env: Env)
    requires s.Valid() && Request(cmd)
    ensures ReplyTo(crc, s, cmd, env) == Negative(ServiceNotSupported) <==>
              cmd[0] !in {0x10, 0x11, 0x1A, 0x21, 0x23, 0x31, 0x33, 0x34, 0x36, 0x37, 0x3E}
  {
  }

  /** Reset, routines, their results and downloads outside the programming session; blocks and exits are not. */
  lemma WrongSessionIff(crc: CrcFn, s: Ecu, cmd: seq<Byte>, env: Env)
    requires s.Valid() && Request(cmd)
    ensures ReplyTo(crc, s, cmd, env) == Negative(WrongSession) <==>
              cmd[0] in {0x11, 0x31, 0x33, 0x34} && s.mode != Reprogramming
  {
  }

  /** A results poll while something is pending and nothing recorded. */
  lemma NotCompleteIff(crc: CrcFn, s: Ecu, cmd: seq<Byte>, env: Env)
    requires s.Valid() && Request(cmd)
    ensures ReplyTo(crc, s, cmd, env) == Negative(RoutineNotComplete) <==>
              Results(s, cmd) && s.completed.None? && s.pending != Idle
  {
  }

  /** Erases and checks of addresses that are not theirs. */
  lemma OutOfRangeIff(crc: CrcFn, s: Ecu, cmd: seq<Byte>, env: Env)
    requires s.Valid() && Request(cmd)
    ensures ReplyTo(crc, s, cmd, env) == Negative(RequestOutOfRange) <==>
              || (Erase(s, cmd) && FromLe32(cmd[2..6]) != 0x2000 && !(0x1_E000 <= FromLe32(cmd[2..6]) < 0x0500_0000))
              || (Check(s, cmd)
                  && var asked, len := FromLe32(cmd[6..10]), FromLe32(cmd[10..14]);
                     var start := if asked == 0x2000 then 0x1_E000 else asked;
                     !Readable(s.qspiSize, start) || !Readable(s.qspiSize, (start + len) % 0x1_0000_0000))
  {
  }

  /** Blocks that are not the next one, or cannot be decoded or written. */
  lemma SuspendedIff(crc: CrcFn, s: Ecu, cmd: seq<Byte>, env: Env)
    requires s.Valid() && Request(cmd)
    ensures ReplyTo(crc, s, cmd, env) == Negative(TransferSuspended) <==> Due(s, cmd) && !Writable(s, cmd, env)
  {
  }

  /** Requests that come at the wrong time. */
  lemma SequenceErrorIff(crc: CrcFn, s: Ecu, cmd: seq<Byte>, env: Env)
    requires s.Valid() && Request(cmd)
    ensures ReplyTo(crc, s, cmd, env) == Negative(SequenceError) <==>
              || (cmd[0] == 0x31 && s.mode == Reprogramming && s.pending != Idle)
              || (cmd[0] in {0x36, 0x37} && !s.pending.Flashing?)
              || (Results(s, cmd) && s.completed.None? && s.pending == Idle)
              || (Date(s, cmd) && s.marks.prod.IsSet())
              || (Erase(s, cmd) && 0x0400_0000 <= FromLe32(cmd[2..6]) < 0x0500_0000 && s.qspiSize == 0)
  {
  }

  /** Requests in the right session and at the right time that are not what their service takes. */
  lemma InvalidFormatIff(crc: CrcFn, s: Ecu, cmd: seq<Byte>, env: Env)
    requires s.Valid() && Request(cmd)
    ensures ReplyTo(crc, s, cmd, env) == Negative(InvalidFormat) <==>
              || (cmd[0] == 0x10 && (|cmd| !in {2, 4} || cmd[1] !in {0x81, 0x85, 0x92}))
              || (cmd[0] == 0x11 && s.mode == Reprogramming && cmd != [0x11, 0x01])
              || (RoutineAllowed(s, cmd) && !Erase(s, cmd) && !Check(s, cmd) && !Date(s, cmd))
              || (Erase(s, cmd) && var start := FromLe32(cmd[2..6]);
                    0x0400_0000 <= start < 0x0500_0000 && s.qspiSize != 0 && start % 4096 != 0)
              || (cmd[0] == 0x33 && s.mode == Reprogramming && cmd != [0x33, 0xE0])
              || (cmd[0] == 0x34 && s.mode == Reprogramming && !Download(cmd))
              || (cmd[0] == 0x36 && s.pending.Flashing? && |cmd| <= 2)
  {
  }

  /** Bootloader images of any size and format; others uncompressed or compressed and inside one region. */
  predicate Download(cmd: seq<Byte>)
    requires Request(cmd)
  {
    && |cmd| == 10
    && var (start, end) := (FromLe32(cmd[1..5]), (FromLe32(cmd[1..5]) + FromLe32(cmd[6..10])) % 0x1_0000_0000);
       || start == 0x2000
       || (cmd[5] in {0, 1}
           && (|| (0x1_E000 <= start < 0x10_0000 && 0x1_E000 <= end < 0x10_0000)
               || (0x0400_0000 <= start < 0x0500_0000 && 0x0400_0000 <= end < 0x0500_0000)))
  }

  // ---------------------------------------------------------------- what accepted requests change

  /** The clock is read and a long operation over, and nothing else is different. */
  function Touched(s: Ecu, now: nat): Ecu {
    s.(lastCmd := now, longOp := false)
  }

  /** A session request changes the session, and with two more bytes block size and pause; it leaves the rest. */
  lemma SessionEffect(crc: CrcFn, s: Ecu, cmd: seq<Byte>, now: nat, env: Env)
    requires s.Valid() && Request(cmd) && cmd[0] == 0x10 && ReplyTo(crc, s, cmd, env).Positive?
    ensures var t := After(crc, s, cmd, now, env);
            && (t.mode == Normal <==> cmd[1] == 0x81) && (t.mode == Reprogramming <==> cmd[1] == 0x85)
            && (t.mode == Extended <==> cmd[1] == 0x92)
            && (|cmd| == 4 ==> t.bs == cmd[2] && t.stmin == cmd[3])
            && (|cmd| == 2 ==> t.bs == s.bs && t.stmin == s.stmin)
            && t.(mode := s.mode, bs := s.bs, stmin := s.stmin) == Touched(s, now)
            && ReplyTo(crc, s, cmd, env) == Positive([0x50, cmd[1]])
  {
    ReplyHasNoClock(crc, s, cmd, now, env);
    assert [0x50] + [cmd[1]] == [0x50, cmd[1]];
  }

  /** A reset is recorded, an exit ends the download, and tester-present does nothing at all. */
  lemma SimpleEffects(crc: CrcFn, s: Ecu, cmd: seq<Byte>, now: nat, env: Env)
    requires s.Valid() && Request(cmd) && ReplyTo(crc, s, cmd, env).Positive?
    ensures var t := After(crc, s, cmd, now, env);
            && (cmd[0] == 0x11 ==> t == Touched(s, now).(pending := Reset))
            && (cmd[0] == 0x37 ==> t == Touched(s, now).(pending := Idle))
            && (cmd[0] == 0x3E ==> t == Touched(s, now) && ReplyTo(crc, s, cmd, env) == Positive([0x7E]))
  {
    ReplyHasNoClock(crc, s, cmd, now, env);
  }

  /** A results poll answers once with what is recorded, zero for success, and then forgets it. */
  lemma ResultsEffect(crc: CrcFn, s: Ecu, cmd: seq<Byte>, now: nat, env: Env)
    requires s.Valid() && Request(cmd) && cmd[0] == 0x33 && ReplyTo(crc, s, cmd, env).Positive?
    ensures s.completed.Some? && After(crc, s, cmd, now, env) == Touched(s, now).(completed := None)
    ensures ReplyTo(crc, s, cmd, env) == Positive([0x73, 0xE0, if s.completed.value.ok then 0 else 1])
  {
    ReplyHasNoClock(crc, s, cmd, now, env);
    var b: Byte := if s.completed.value.ok then 0 else 1;
    assert [0x73] + [0xE0, b] == [0x73, 0xE0, b];
  }

  /** A date is stored byte by byte. */
  lemma DateEffect(crc: CrcFn, s: Ecu, cmd: seq<Byte>, now: nat, env: Env)
    requires s.Valid() && Request(cmd) && Date(s, cmd) && !s.marks.prod.IsSet()
    ensures var t := After(crc, s, cmd, now, env);
            && t.marks.prod.day == cmd[2] && t.marks.prod.week == cmd[3]
            && t.marks.prod.month == cmd[4] && t.marks.prod.year == cmd[5]
            && t.(marks := s.marks) == Touched(s, now) && t.marks.(prod := s.marks.prod) == s.marks
  {
  }

  /**
    An accepted erase begins with the first sector and is of as many sectors as were asked for, on QSPI twice as
    many of half the size, as far as 16 bits go; only the two application markers can be different besides.
   */
  lemma EraseEffect(crc: CrcFn, s: Ecu, cmd: seq<Byte>, now: nat, env: Env)
    requires s.Valid() && Request(cmd) && Erase(s, cmd) && ReplyTo(crc, s, cmd, env).Positive?
    ensures var (t, start, blocks) := (After(crc, s, cmd, now, env), FromLe32(cmd[2..6]), FromLe16(cmd[6..8]));
            && t.pending == (if start == 0x2000 then FlashErase(0x1_E000, blocks, 0)
                             else if start < 0x0400_0000 then FlashErase(start, blocks, 0)
                             else QspiErase(start - 0x0400_0000, 2 * blocks % 0x1_0000, 0))
            && t.marks == (if 0x1_E000 <= start < 0x0400_0000
                           then s.marks.(appFlashingNotDone := 0xFF, crcApp := 0xFFFF_FFFF) else s.marks)
            && t.(pending := Idle, marks := s.marks) == Touched(s, now)
  {
    ReplyHasNoClock(crc, s, cmd, now, env);
  }

  /** An accepted download begins with block 0 at its address, the bootloader's in the scratch area. */
  lemma DownloadEffect(crc: CrcFn, s: Ecu, cmd: seq<Byte>, now: nat, env: Env)
    requires s.Valid() && Request(cmd) && s.mode == Reprogramming && cmd[0] == 0x34 && Download(cmd)
    ensures var (t, start) := (After(crc, s, cmd, now, env), FromLe32(cmd[1..5]));
            && t == Touched(s, now).(pending := t.pending) && t.pending.Flashing?
            && t.pending.blkId == 0 && t.pending.addr == (if start == 0x2000 then 0x1_E000 else start)
            && (t.pending.compressed <==> cmd[5] != 0)
            && (t.pending.qspi <==> 0x0400_0000 <= start < 0x0500_0000)
    ensures ReplyTo(crc, s, cmd, env) == Positive([0x74, 4, 0])
  {
    ReplyHasNoClock(crc, s, cmd, now, env);
    assert [0x74] + [4, 0] == [0x74, 4, 0];
  }

  /**
    A check that matches clears the marker and the version block of the part it was asked for and records the
    CRC of the whole of that part; one that does not match changes nothing.
   */
  lemma CheckEffect(crc: CrcFn, s: Ecu, cmd: seq<Byte>, now: nat, env: Env)
    requires s.Valid() && Request(cmd) && Check(s, cmd) && ReplyTo(crc, s, cmd, env).Positive?
    ensures var (t, reply) := (After(crc, s, cmd, now, env), ReplyTo(crc, s, cmd, env));
            && (reply == Positive([0x71, 0xE1, 0]) || reply == Positive([0x71, 0xE1, 1]))
            && (reply == Positive([0x71, 0xE1, 0]) ==> t == Touched(s, now))
            && (reply == Positive([0x71, 0xE1, 1]) ==>
                  t == Touched(s, now).(marks :=
                    if FromLe32(cmd[6..10]) == 0x2000
                    then s.marks.(
                      blFlashingPending := 0, blInfo := t.marks.blInfo, crcBl := crc(s.nvm[0x1_E000..0x3_C000]))
                    else s.marks.(
                      appFlashingNotDone := 0, appInfo := t.marks.appInfo, crcApp := crc(s.nvm[0x1_E000..0x10_0000])))
                  && (if FromLe32(cmd[6..10]) == 0x2000 then t.marks.blInfo else t.marks.appInfo)
                     == [0xFF, 0xFF, 0xFF, 0xFF, 0xFF, 0xFF, 0xFF, 0xFF, 0xFF, 0xFF])
  {
    ReplyHasNoClock(crc, s, cmd, now, env);
    assert [0x71] + [0xE1, 0x01] == [0x71, 0xE1, 1] && [0x71] + [0xE1, 0x00] == [0x71, 0xE1, 0];
    assert [0x71, 0xE1, 0][2] != [0x71, 0xE1, 1][2];
  }

  /** The bytes of every positive reply; of a check and of a results poll all but the last. */
  lemma AcceptedReplies(crc: CrcFn, s: Ecu, cmd: seq<Byte>, env: Env)
    requires s.Valid() && Request(cmd) && ReplyTo(crc, s, cmd, env).Positive?
    ensures var data := ReplyTo(crc, s, cmd, env).data;
            match cmd[0]
            case 0x10 => data == [0x50, cmd[1]]
            case 0x11 => data == [0x51, 0x01]
            case 0x31 => |data| == (if cmd[1] == 0xE1 then 3 else 2) && data[..2] == [0x71, cmd[1]]
            case 0x33 => |data| == 3 && data[..2] == [0x73, 0xE0]
            case 0x34 => data == [0x74, 0x04, 0x00]
            case 0x36 => data == [0x76, 0x00]
            case 0x37 => data == [0x77, 0x00]
            case _ => cmd[0] == 0x3E && data == [0x7E]
  {
    var data := ReplyTo(crc, s, cmd, env).data;
    if cmd[0] == 0x31 {
      assert data[0] == 0x71 && data[1] == cmd[1];
    } else if cmd[0] == 0x33 {
      assert data[0] == 0x73 && data[1] == 0xE0;
    }
  }

  // ---------------------------------------------------------------- when a session ends

  predicate AllTicks(events: seq<Event>) {
    forall i :: 0 <= i < |events| ==> events[i].Tick?
  }

  /** Some step comes more than two and a half seconds after `now`. */
  predicate Late(now: nat, ticks: seq<Event>) {
    exists i :: 0 <= i < |ticks| && ticks[i].now > now + 2500
  }

  lemma LateFirst(now: nat, ticks: seq<Event>)
    requires ticks != []
    ensures Late(now, ticks) <==> ticks[0].now > now + 2500 || Late(now, ticks[1..])
  {
    if i :| 0 <= i < |ticks| && ticks[i].now > now + 2500 {
      if i > 0 {
        assert ticks[1..][i - 1] == ticks[i];
      }
    }
    if i :| 0 <= i < |ticks[1..]| && ticks[1..][i].now > now + 2500 {
      assert ticks[i + 1].now > now + 2500;
    }
  }

  lemma StepEndsSession(s: Ecu, now: nat, env: Env)
    requires s.Valid()
    ensures var t := Update(s, now, env);
            && t.mode == (if s.mode != Normal && !s.longOp && now > s.lastCmd + 2500 then Normal else s.mode)
            && t.lastCmd == s.lastCmd && t.longOp == s.longOp
  {
  }

  /** Background steps leave a session alone until one of them is late. */
  lemma {:induction false} StepsEndSessionIff(crc: CrcFn, s: Ecu, ticks: seq<Event>)
    requires s.Valid() && AllTicks(ticks)
    ensures var t := Run(crc, s, ticks);
            && t.mode == (if s.mode != Normal && !s.longOp && Late(s.lastCmd, ticks) then Normal else s.mode)
            && t.lastCmd == s.lastCmd && t.longOp == s.longOp
    decreases |ticks|
  {
    if ticks != [] {
      LateFirst(s.lastCmd, ticks);
      StepKeepsValid(crc, s, ticks[0]);
      StepEndsSession(s, ticks[0].now, ticks[0].env);
      StepsEndSessionIff(crc, Step(crc, s, ticks[0]), ticks[1..]);
    }
  }

  /**
    However many background steps follow a request: they end the session exactly when one of them comes more
    than 2500 ms after it, unless the session is the normal one or the request was an accepted block for the
    QSPI chip, after which the server waits for as long as it takes.
   */
  lemma SessionEndsIff(crc: CrcFn, s: Ecu, cmd: seq<Byte>, now: nat, env: Env, ticks: seq<Event>)
    requires s.Valid() && Request(cmd) && AllTicks(ticks)
    ensures After(crc, s, cmd, now, env).Valid()
    ensures var t := After(crc, s, cmd, now, env);
            var long := cmd[0] == 0x36 && s.pending.Flashing? && s.pending.qspi && ReplyTo(crc, s, cmd, env).Positive?;
            Run(crc, t, ticks).mode == if t.mode != Normal && !long && Late(now, ticks) then Normal else t.mode
  {
    StepKeepsValid(crc, s, Cmd(cmd, now, env));
    LongIff(crc, s, cmd, now, env);
    StepsEndSessionIff(crc, After(crc, s, cmd, now, env), ticks);
  }

  lemma LongIff(crc: CrcFn, s: Ecu, cmd: seq<Byte>, now: nat, env: Env)
    requires s.Valid() && Request(cmd)
    ensures var t := After(crc, s, cmd, now, env);
            && t.lastCmd == now
            && (t.longOp <==>
                cmd[0] == 0x36 && s.pending.Flashing? && s.pending.qspi && ReplyTo(crc, s, cmd, env).Positive?)
  {
    ReplyHasNoClock(crc, s, cmd, now, env);
  }

  /** The size of the chip is the first one other than zero that it reports, and stays that. */
  function FirstSize(size: nat, events: seq<Event>): nat
    decreases |events|
  {
    if size != 0 || events == [] then size
    else FirstSize(if events[0].Tick? then events[0].env.qspiFound else 0, events[1..])
  }

  lemma {:induction false} SizeIsFirstFound(crc: CrcFn, s: Ecu, events: seq<Event>)
    requires s.Valid() && WellFormed(events)
    ensures Run(crc, s, events).qspiSize == FirstSize(s.qspiSize, events)
    decreases |events|
  {
    if events != [] {
      StepKeepsValid(crc, s, events[0]);
      StepKeepsSize(crc, s, events[0]);
      SizeIsFirstFound(crc, Step(crc, s, events[0]), events[1..]);
      assert s.qspiSize != 0 ==> FirstSize(s.qspiSize, events[1..]) == s.qspiSize;
    }
  }

  lemma StepKeepsSize(crc: CrcFn, s: Ecu, e: Event)
    requires s.Valid()
    requires e.Cmd? ==> Request(e.bytes)
    ensures Step(crc, s, e).qspiSize
            == if s.qspiSize != 0 then s.qspiSize else if e.Tick? then e.env.qspiFound else 0
  {
  }

  // ---------------------------------------------------------------- addresses

  /** The gaps of the memory map, which no check may begin or end in; a chip of `size` bytes leaves one of its own. */
  lemma RefusedAddresses(size: nat, v: nat)
    ensures !Readable(size, v) <==>
              || 0x0010_0000 <= v < 0x0300_0000
              || (0x0400_0000 <= v < 0x0500_0000 && v >= 0x0400_0000 + size)
              || 0x0500_0000 <= v < 0x2000_0000
              || 0x2004_0000 <= v < 0x4000_0000
              || 0x4000_4000 <= v < 0x4100_0000
              || 0x4100_C000 <= v < 0x4100_E000
              || 0x4101_0000 <= v < 0x4101_2000
              || 0x4101_E000 <= v < 0x4102_0000
              || 0x4102_2000 <= v < 0x4200_0000
              || 0x4200_3C00 <= v < 0x4300_0000
              || 0x4300_3000 <= v < 0x4400_0000
              || 0x4800_0000 <= v < 0xE000_0000
              || 0xE000_F000 <= v < 0xE00F_F000
              || 0xE010_0000 <= v
  {
  }
}
