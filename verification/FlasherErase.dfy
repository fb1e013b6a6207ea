/** What an erase request leaves erased, command by command, whatever the timing. */
module FlasherErase {
  import opened Bytes
  import opened Flash
  import opened MemoryMap
  import opened Kwp
  import opened EraseRuns
  import opened FlasherSteps

  lemma EraseRequestShape(start: nat, pages: nat)
    requires start < WORD && pages < 0x1_0000
    ensures var cmd := EraseRequest(start, pages);
            && |cmd| == 8 && cmd[0] == START_ROUTINE && cmd[1] == ROUTINE_ERASE
            && FromLe32(cmd[2..6]) == start && FromLe16(cmd[6..8]) == pages
  {
    var cmd := EraseRequest(start, pages);
    Le32RoundTrip(start);
    Le16RoundTrip(pages);
    Fields([START_ROUTINE, ROUTINE_ERASE], Le32(start), Le16(pages), []);
    assert cmd + [] == cmd;
  }

  /** The operation an accepted erase leaves pending. */
  function ErasePending(start: nat, pages: nat): Pending
    requires start < WORD
  {
    if OnQspi(start) then QspiErase(Base(start), 2 * pages, 0) else FlashErase(Base(start), pages, 0)
  }

  /** Only an address in the application range marks the application as erased. */
  function EraseMarks(m: Markers, start: nat): Markers {
    if Application.Contains(start) then m.(appFlashingNotDone := 0xFF, crcApp := 0xFFFF_FFFF) else m
  }

  lemma StartEraseEffect(s: Ecu, cmd: seq<Byte>, start: nat, n: nat)
    requires s.Valid() && Fits(start, n) && |cmd| == 8
    requires FromLe32(cmd[2..6]) == start && FromLe16(cmd[6..8]) == Pages(n) <= 2048
    ensures var (t, reply) := StartErase(s, cmd);
            && (reply.Positive? <==> Pages(n) > 0 && (OnQspi(start) ==> s.qspiSize != 0))
            && (reply.Positive? ==>
                t == s.(pending := ErasePending(start, Pages(n)), marks := EraseMarks(s.marks, start)))
  {
    assert start % 0x1000 == 0 by {
      assert start == 0x2000 * (start / 0x2000);
    }
    if start == Bootloader.Start() {
    } else if Application.Contains(start) {
    } else {
      assert OnQspi(start);
    }
  }

  lemma EraseStarts(crc: CrcFn, s: Ecu, start: nat, n: nat, now: nat, env: Env)
    requires s.Valid() && Fits(start, n)
    ensures Request(EraseRequest(start, Pages(n)))
    ensures var (t, reply) := ProcessCmd(crc, s, EraseRequest(start, Pages(n)), now, env);
            && (reply.Positive? <==>
                s.mode == Reprogramming && s.pending == Idle && n > 0 && (OnQspi(start) ==> s.qspiSize != 0))
            && (reply.Positive? ==>
                t == s.(lastCmd := now, longOp := false, pending := ErasePending(start, Pages(n)),
                        marks := EraseMarks(s.marks, start)))
  {
    FitsPages(start, n);
    var cmd := EraseRequest(start, Pages(n));
    EraseRequestShape(start, Pages(n));
    var r := s.(lastCmd := now, longOp := false);
    if r.mode == Reprogramming && r.pending == Idle {
      assert ProcessCmd(crc, s, cmd, now, env) == StartErase(r, cmd);
      StartEraseEffect(r, cmd, start, n);
    }
  }

  // ---------------------------------------------------------------- the commands of one request

  /** The pages of one erase request and where they are. */
  datatype Job = Job(qspi: bool, base: nat, pages: nat) {
    predicate Placed() {
      base % 0x2000 == 0 && pages > 0 && (!qspi ==> base + SECTOR_SIZE * pages <= FLASH_SIZE)
    }

    /** 4 KiB sectors to erase. */
    function Total(): nat {
      2 * pages
    }

    /** Sectors the command after the first `c` sectors covers. */
    function Stride(c: nat): nat {
      if !qspi then 2 else if (base + 4096 * c) % 0x8000 == 0 && Total() - c >= 8 then 8 else 1
    }

    /** Sectors the first `k` commands cover. */
    function Sectors(k: nat): (c: nat)
      ensures c <= Total() && (!qspi ==> c % 2 == 0)
    {
      if k == 0 then 0
      else
        var c := Sectors(k - 1);
        if c < Total() then c + Stride(c) else c
    }

    function PendingAt(c: nat): Pending {
      if qspi then QspiErase(base, Total(), c) else FlashErase(base, pages, c / 2)
    }
  }

  function JobFor(start: nat, n: nat): Job {
    Job(OnQspi(start), Base(start), Pages(n))
  }

  lemma JobIsPlaced(start: nat, n: nat)
    requires Fits(start, n) && n > 0
    ensures JobFor(start, n).Placed()
  {
    FitsPages(start, n);
  }

  /** More commands cover no less, and nothing is left to cover after all of it. */
  lemma {:induction false} SectorsGrow(j: Job, k: nat, m: nat)
    requires k <= m
    ensures j.Sectors(k) <= j.Sectors(m)
    decreases m
  {
    if k < m {
      SectorsGrow(j, k, m - 1);
    }
  }

  /** Exactly the requests that one or two commands cover. */
  lemma FewCommandsCover(j: Job)
    requires j.Placed()
    ensures j.Sectors(1) == j.Total() <==> if j.qspi then j.base % 0x8000 == 0 && j.pages == 4 else j.pages == 1
    ensures j.Sectors(2) == j.Total()
            <==> if j.qspi then j.pages == 1 || (j.base % 0x8000 == 0 && (j.pages == 4 || j.pages == 8))
                 else j.pages <= 2
  {
    assert j.Sectors(1) == j.Stride(0);
    assert j.Sectors(2) == if j.Sectors(1) < j.Total() then j.Sectors(1) + j.Stride(j.Sectors(1)) else j.Sectors(1);
    if j.qspi {
      NotAlignedNext(j.base);
    }
  }

  /** One sector past a page boundary is no 32 KiB boundary. */
  lemma NotAlignedNext(base: nat)
    requires base % 0x2000 == 0
    ensures (base + 4096) % 0x8000 != 0
    ensures base % 0x8000 == 0 ==> (base + 4096 * 8) % 0x8000 == 0
  {
  }

  // ---------------------------------------------------------------- an erase under way

  /** Since `s0` exactly the first `k` commands of the job have changed anything. */
  predicate Touched(s0: Ecu, s: Ecu, j: Job, k: nat) {
    && s.mode == Reprogramming && s.marks == s0.marks && NoCrossing(s0, s)
    && Cells(s, j.qspi) == Erase(Cells(s0, j.qspi), j.base, 4096 * j.Sectors(k))
    && Cells(s, !j.qspi) == Cells(s0, !j.qspi)
  }

  /** The job is under way; `left` is the result the server had recorded before. */
  predicate Active(s0: Ecu, s: Ecu, j: Job, k: nat, left: Option<Completed>) {
    && Touched(s0, s, j, k) && j.Sectors(k) < j.Total()
    && s.pending == j.PendingAt(j.Sectors(k)) && s.completed == left
  }

  /** The job is over and its result recorded: success exactly when all of it is erased. */
  predicate Over(s0: Ecu, s: Ecu, j: Job, k: nat) {
    && Touched(s0, s, j, k) && s.pending == Idle && s.completed.Some?
    && (s.completed.value.ok <==> j.Sectors(k) == j.Total())
  }

  /** The job after one more background step. */
  predicate Moved(s0: Ecu, t: Ecu, j: Job, k: nat, left: Option<Completed>, ok: bool) {
    if !ok then Over(s0, t, j, k)
    else if j.Sectors(k + 1) < j.Total() then Active(s0, t, j, k + 1, left)
    else Over(s0, t, j, k + 1)
  }

  lemma FlashTick(s0: Ecu, s: Ecu, j: Job, k: nat, left: Option<Completed>, e: Event)
    requires s.Valid() && j.Placed() && !j.qspi && Active(s0, s, j, k, left) && Prompt(s, e)
    ensures Moved(s0, Update(s, e.now, e.env), j, k, left, e.env.hwOk)
  {
    var h := Housekeeping(s, e.now, e.env);
    assert h == s.(qspiSize := h.qspiSize) && Update(s, e.now, e.env) == FlashEraseStep(h, e.env);
    FlashStep(s0, h, j, k, left, e.env);
  }

  lemma FlashStep(s0: Ecu, s: Ecu, j: Job, k: nat, left: Option<Completed>, env: Env)
    requires s.Valid() && j.Placed() && !j.qspi && Active(s0, s, j, k, left)
    ensures Moved(s0, FlashEraseStep(s, env), j, k, left, env.hwOk)
  {
    var c := j.Sectors(k);
    assert j.base + SECTOR_SIZE * (c / 2) == j.base + 4096 * c;
    if env.hwOk {
      EraseExtends(Cells(s0, false), j.base, 4096 * c, SECTOR_SIZE);
      PageAligned(j.base, c / 2);
    }
  }

  lemma PageAligned(base: nat, page: nat)
    requires base % 0x2000 == 0
    ensures (base + 0x2000 * page) % 0x2000 == 0
  {
    var a := base / 0x2000;
    assert base == 0x2000 * a && base + 0x2000 * page == 0x2000 * (a + page);
  }

  lemma QspiTick(s0: Ecu, s: Ecu, j: Job, k: nat, left: Option<Completed>, e: Event)
    requires s.Valid() && j.Placed() && j.qspi && Active(s0, s, j, k, left) && Prompt(s, e)
    ensures Moved(s0, Update(s, e.now, e.env), j, k, left, e.env.hwOk)
  {
    var h := Housekeeping(s, e.now, e.env);
    assert h == s.(qspiSize := h.qspiSize) && Update(s, e.now, e.env) == QspiEraseStep(h, e.env);
    QspiStep(s0, h, j, k, left, e.env);
  }

  lemma QspiStep(s0: Ecu, s: Ecu, j: Job, k: nat, left: Option<Completed>, env: Env)
    requires s.Valid() && j.qspi && Active(s0, s, j, k, left)
    ensures Moved(s0, QspiEraseStep(s, env), j, k, left, env.hwOk)
  {
    var c := j.Sectors(k);
    assert EraseStride(s.pending) == j.Stride(c);
    if env.hwOk {
      EraseExtends(Cells(s0, true), j.base, 4096 * c, 4096 * j.Stride(c));
    }
  }

  lemma EraseTick(s0: Ecu, s: Ecu, j: Job, k: nat, left: Option<Completed>, e: Event)
    requires s.Valid() && j.Placed() && Active(s0, s, j, k, left) && Prompt(s, e)
    ensures var t := Update(s, e.now, e.env);
            t.Valid() && t.lastCmd == s.lastCmd && Moved(s0, t, j, k, left, e.env.hwOk)
  {
    if j.qspi {
      QspiTick(s0, s, j, k, left, e);
    } else {
      FlashTick(s0, s, j, k, left, e);
    }
  }

  /** How many steps succeed before the first that does not. */
  function OkPrefix(events: seq<Event>): (n: nat)
    ensures n <= |events|
  {
    if events == [] || !events[0].env.hwOk then 0 else 1 + OkPrefix(events[1..])
  }

  lemma {:induction false} AllOkPrefix(events: seq<Event>)
    ensures AllOk(events) <==> OkPrefix(events) == |events|
  {
    if events != [] {
      AllOkPrefix(events[1..]);
      assert AllOk(events) <==> events[0].env.hwOk && AllOk(events[1..]) by {
        assert forall i :: 1 <= i < |events| ==> events[i] == events[1..][i - 1];
      }
    }
  }

  /** The job after a run of background steps. */
  predicate Brought(s0: Ecu, t: Ecu, j: Job, k: nat, left: Option<Completed>, events: seq<Event>) {
    var m := k + OkPrefix(events);
    if AllOk(events) && j.Sectors(m) < j.Total() then Active(s0, t, j, m, left) else Over(s0, t, j, m)
  }

  /** An ended job is left alone by any prompt run. */
  lemma OverStays(crc: CrcFn, s0: Ecu, s: Ecu, j: Job, k: nat, m: nat, events: seq<Event>)
    requires s.Valid() && Over(s0, s, j, k) && PromptRun(s, events)
    requires m == k || (m > k && j.Sectors(k) == j.Total())
    ensures Over(s0, Run(crc, s, events), j, m) && Run(crc, s, events).lastCmd == s.lastCmd
  {
    CalmRun(crc, s, events);
    SectorsGrow(j, k, m);
  }

  lemma BroughtOn(s0: Ecu, t: Ecu, j: Job, k: nat, left: Option<Completed>, events: seq<Event>)
    requires events != [] && events[0].env.hwOk && Brought(s0, t, j, k + 1, left, events[1..])
    ensures Brought(s0, t, j, k, left, events)
  {
    AllOkPrefix(events);
    AllOkPrefix(events[1..]);
  }

  lemma BroughtToEnd(s0: Ecu, t: Ecu, j: Job, k: nat, left: Option<Completed>, events: seq<Event>)
    requires events != [] && Over(s0, t, j, k + OkPrefix(events))
    requires events[0].env.hwOk ==> j.Sectors(k + 1) == j.Total()
    ensures Brought(s0, t, j, k, left, events)
  {
    AllOkPrefix(events);
    if events[0].env.hwOk {
      SectorsGrow(j, k + 1, k + OkPrefix(events));
    }
  }

  /** An erase under way is brought on by one command for every step until one fails or all is erased. */
  lemma {:induction false} ErasingRun(
      crc: CrcFn, s0: Ecu, s: Ecu, j: Job, k: nat, left: Option<Completed>, events: seq<Event>)
    requires s.Valid() && j.Placed() && Active(s0, s, j, k, left) && PromptRun(s, events)
    ensures Brought(s0, Run(crc, s, events), j, k, left, events)
    ensures Run(crc, s, events).lastCmd == s.lastCmd
    decreases |events|
  {
    if events != [] {
      var e, rest := events[0], events[1..];
      var t := Update(s, e.now, e.env);
      EraseTick(s0, s, j, k, left, e);
      assert PromptRun(t, rest);
      if e.env.hwOk && j.Sectors(k + 1) < j.Total() {
        ErasingRun(crc, s0, t, j, k + 1, left, rest);
        BroughtOn(s0, Run(crc, t, rest), j, k, left, events);
      } else {
        EndedRun(crc, s0, t, j, k, left, events);
      }
    }
  }

  /** The rest of a run whose first step has ended the erase. */
  lemma EndedRun(crc: CrcFn, s0: Ecu, t: Ecu, j: Job, k: nat, left: Option<Completed>, events: seq<Event>)
    requires t.Valid() && events != [] && PromptRun(t, events[1..])
    requires Over(s0, t, j, if events[0].env.hwOk then k + 1 else k)
    requires events[0].env.hwOk ==> j.Sectors(k + 1) == j.Total()
    ensures Brought(s0, Run(crc, t, events[1..]), j, k, left, events)
    ensures Run(crc, t, events[1..]).lastCmd == t.lastCmd
  {
    OverStays(crc, s0, t, j, if events[0].env.hwOk then k + 1 else k, k + OkPrefix(events), events[1..]);
    BroughtToEnd(s0, Run(crc, t, events[1..]), j, k, left, events);
  }

  // ---------------------------------------------------------------- the flasher's erase

  /** A success that an earlier erase left recorded. */
  predicate StaleSuccess(left: Option<Completed>) {
    left.Some? && left.value.ok
  }

  /** Commands that are carried out for certain between a stale success and the download that follows it. */
  function Certain(faultFree: bool): nat {
    if faultFree then 2 else 1
  }

  /** What the flasher needs to find: an idle server in the programming session. */
  predicate ServerReady(s: Ecu, start: nat) {
    s.mode == Reprogramming && s.pending == Idle && (OnQspi(start) ==> s.qspiSize != 0)
  }

  /** The server just after it accepted the erase: only the application markers can differ. */
  function Marked(s: Ecu, start: nat): Ecu {
    s.(marks := EraseMarks(s.marks, start))
  }

  /** The erase after the request and the background steps that follow it. */
  lemma EraseBegun(crc: CrcFn, s: Ecu, start: nat, n: nat, now: nat, env: Env, ticks: seq<Event>)
    requires s.Valid() && Fits(start, n)
    requires Request(EraseRequest(start, Pages(n)))
    requires var (t, reply) := ProcessCmd(crc, s, EraseRequest(start, Pages(n)), now, env);
             reply.Positive? && t.Valid() && PromptRun(t, ticks)
    ensures ServerReady(s, start) && n > 0
    ensures var t := Run(crc, ProcessCmd(crc, s, EraseRequest(start, Pages(n)), now, env).0, ticks);
            Brought(Marked(s, start), t, JobFor(start, n), 0, s.completed, ticks)
  {
    EraseStarts(crc, s, start, n, now, env);
    JobIsPlaced(start, n);
    var t := ProcessCmd(crc, s, EraseRequest(start, Pages(n)), now, env).0;
    var s0, j := Marked(s, start), JobFor(start, n);
    assert Erase(Cells(s0, j.qspi), j.base, 0) == Cells(s0, j.qspi);
    ErasingRun(crc, s0, t, j, 0, s.completed, ticks);
  }

  lemma ResultsPolled(crc: CrcFn, s: Ecu, now: nat, env: Env)
    requires s.Valid() && s.mode == Reprogramming
    requires s.completed.Some? || s.pending != Idle
    ensures Request(ResultsRequest())
    ensures var r := s.(lastCmd := now, longOp := false);
            ProcessCmd(crc, s, ResultsRequest(), now, env) ==
              if s.completed.Some?
              then (r.(completed := None), Positive([0x73, 0xE0, if s.completed.value.ok then 0x00 else 0x01]))
              else (r, Negative(RoutineNotComplete))
  {
    if s.completed.Some? {
      var code: Byte := if s.completed.value.ok then 0x00 else 0x01;
      assert [0x73] + [0xE0, code] == [0x73, 0xE0, code];
    }
  }

  /** The reply that reports a recorded result. */
  function ResultReply(c: Completed): Reply {
    Positive([0x73, 0xE0, if c.ok then 0x00 else 0x01])
  }

  /** A poll while the job is under way: it reports what was left over before, or that there is no result yet. */
  lemma ActivePolled(
      crc: CrcFn, s0: Ecu, s: Ecu, j: Job, k: nat, left: Option<Completed>, now: nat, env: Env, ticks: seq<Event>)
    requires s.Valid() && j.Placed() && Active(s0, s, j, k, left) && Request(ResultsRequest())
    requires var t := ProcessCmd(crc, s, ResultsRequest(), now, env).0; t.Valid() && PromptRun(t, ticks)
    ensures var (r, reply) := ProcessCmd(crc, s, ResultsRequest(), now, env);
            && reply == (if left.Some? then ResultReply(left.value) else Negative(RoutineNotComplete))
            && Brought(s0, Run(crc, r, ticks), j, k, None, ticks)
  {
    ResultsPolled(crc, s, now, env);
    ErasingRun(crc, s0, ProcessCmd(crc, s, ResultsRequest(), now, env).0, j, k, None, ticks);
  }

  /** The job has ended, its result has been reported, and nothing is pending or recorded any more. */
  predicate Settled(s0: Ecu, s: Ecu, j: Job, k: nat) {
    Touched(s0, s, j, k) && s.pending == Idle && s.completed.None?
  }

  lemma OverPolled(
      crc: CrcFn, s0: Ecu, s: Ecu, j: Job, k: nat, now: nat, env: Env, ticks: seq<Event>)
    requires s.Valid() && Over(s0, s, j, k) && Request(ResultsRequest())
    requires var t := ProcessCmd(crc, s, ResultsRequest(), now, env).0; t.Valid() && PromptRun(t, ticks)
    ensures var (r, reply) := ProcessCmd(crc, s, ResultsRequest(), now, env);
            && reply == ResultReply(s.completed.value)
            && Settled(s0, Run(crc, r, ticks), j, k)
  {
    ResultsPolled(crc, s, now, env);
    CalmRun(crc, ProcessCmd(crc, s, ResultsRequest(), now, env).0, ticks);
  }
}
