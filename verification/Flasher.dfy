/**
  The PC flasher talking to the bootloader: both programs run against each other, and what the
  whole download leaves in memory.
 */
module Flasher {
  import opened Bytes
  import opened Flash
  import opened MemoryMap
  import opened Kwp
  import opened KwpServer
  import opened FlasherErase
  import opened FlasherSteps

  /** The diagnostic session: requests reach the server and replies come back, none is lost. */
  class Session {
    const server: Server
    /** The flash hardware never reports a fault. */
    const faultFree: bool

    constructor (server: Server, faultFree: bool)
      ensures this.server == server && this.faultFree == faultFree
    {
      this.server := server;
      this.faultFree := faultFree;
    }

    ghost predicate Valid()
      reads this, server, server.qspi
    {
      server.Valid()
    }

    /**
      One request and its reply. The server's task loop runs at least one background step after each
      command; how many more, and when, is arbitrary, but the next request beats the tester timeout.
     */
    method Exchange(cmd: seq<Byte>) returns (reply: Reply, ghost now: nat, ghost env: Env, ghost ticks: seq<Event>)
      requires Valid() && Request(cmd)
      modifies server, server.qspi, server.flashBuf
      ensures Valid()
      ensures var (t, r) := ProcessCmd(server.crc, old(server.State()), cmd, now, env);
              && reply == r
              && t.Valid() && PromptRun(t, ticks) && ticks != []
              && server.State() == Run(server.crc, t, ticks)
      ensures faultFree ==> env.hwOk && AllOk(ticks)
    {
      var at: nat :| true;
      var e: Env := *;
      e := e.(hwOk := e.hwOk || faultFree);
      now, env := at, e;
      reply := server.ProcessCmd(cmd, at, e);
      ghost var t := server.State();
      StepKeepsValid(server.crc, old(server.State()), Cmd(cmd, at, e));
      var n: nat :| true;
      ticks := [];
      for i := 0 to n + 1
        invariant Valid() && |ticks| == i && t.Valid() && PromptRun(t, ticks)
        invariant server.State() == Run(server.crc, t, ticks) && server.State().lastCmd == t.lastCmd
        invariant faultFree ==> AllOk(ticks)
      {
        ticks := BackgroundStep(t, ticks);
      }
    }

    /** One more turn of the server's task loop, at any time before the tester timeout. */
    method BackgroundStep(ghost t: Ecu, ghost ticks: seq<Event>) returns (ghost more: seq<Event>)
      requires Valid() && t.Valid() && PromptRun(t, ticks)
      requires server.State() == Run(server.crc, t, ticks) && server.State().lastCmd == t.lastCmd
      requires faultFree ==> AllOk(ticks)
      modifies server, server.qspi, server.flashBuf
      ensures Valid() && |more| == |ticks| + 1 && PromptRun(t, more)
      ensures server.State() == Run(server.crc, t, more) && server.State().lastCmd == t.lastCmd
      ensures faultFree ==> AllOk(more)
    {
      var later: nat :| true;
      var f: Env := *;
      later := Min(later, server.lastCmdTime + P2_MAX_MS);
      f := f.(hwOk := f.hwOk || faultFree);
      server.Update(later, f);
      RunLast(server.crc, t, ticks, Tick(later, f));
      more := ticks + [Tick(later, f)];
    }
  }

  lemma {:induction false} RunLast(crc: CrcFn, s: Ecu, events: seq<Event>, e: Event)
    requires s.Valid() && WellFormed(events) && e.Tick?
    ensures Run(crc, s, events + [e]) == Step(crc, Run(crc, s, events), e)
    decreases |events|
  {
    if events == [] {
      assert Run(crc, Step(crc, s, e), []) == Step(crc, s, e);
    } else {
      assert (events + [e])[1..] == events[1..] + [e];
      StepKeepsValid(crc, s, events[0]);
      RunLast(crc, Step(crc, s, events[0]), events[1..], e);
    }
  }

  // ---------------------------------------------------------------- erase

  /**
    Sectors that are erased for certain when `erase` reports success: all of them, unless the success was
    a left-over one; then only the first command's, or the first two when no erase command can fail.
   */
  function Assured(s0: Ecu, j: Job, faultFree: bool): nat {
    if StaleSuccess(s0.completed) then j.Sectors(Certain(faultFree)) else j.Total()
  }

  predicate NoFailureLeft(s: Ecu) {
    s.completed.None? || StaleSuccess(s.completed)
  }

  /** The job under way or over, as the flasher's polling loop finds it. */
  predicate Polling(s0: Ecu, s: Ecu, j: Job, k: nat, left: Option<Completed>, faultFree: bool) {
    || (Active(s0, s, j, k, left) && k >= 1)
    || (Over(s0, s, j, k) && (faultFree ==> j.Sectors(k) == j.Total()))
  }

  /** What a reported success is worth. */
  predicate Erased(s0: Ecu, s: Ecu, j: Job, k: nat, assured: nat, stale: bool) {
    && Touched(s0, s, j, k) && assured <= j.Sectors(k)
    && (!stale ==> s.pending == Idle && s.completed.None?)
  }

  lemma BroughtIsPolling(s0: Ecu, t: Ecu, j: Job, k: nat, left: Option<Completed>, ticks: seq<Event>, faultFree: bool)
    requires Brought(s0, t, j, k, left, ticks) && ticks != [] && (faultFree ==> AllOk(ticks))
    ensures Polling(s0, t, j, k + OkPrefix(ticks), left, faultFree)
  {
    AllOkPrefix(ticks);
  }

  /** One poll: nothing yet, failure, or a success that is worth what is assured. */
  lemma PollAnswered(
      crc: CrcFn, s0: Ecu, s: Ecu, j: Job, k: nat, left: Option<Completed>, faultFree: bool,
      now: nat, env: Env, ticks: seq<Event>)
    returns (m: nat)
    requires s.Valid() && j.Placed() && Polling(s0, s, j, k, left, faultFree) && Request(ResultsRequest())
    requires ticks != [] && (faultFree ==> AllOk(ticks))
    requires var t := ProcessCmd(crc, s, ResultsRequest(), now, env).0; t.Valid() && PromptRun(t, ticks)
    ensures var (r, reply) := ProcessCmd(crc, s, ResultsRequest(), now, env);
            var t := Run(crc, r, ticks);
            var stale := StaleSuccess(left);
            var assured := if stale then j.Sectors(Certain(faultFree)) else j.Total();
            && (reply == Negative(RoutineNotComplete) || exists c :: reply == ResultReply(c))
            && (reply == Negative(RoutineNotComplete) ==> left.None? && Polling(s0, t, j, m, None, faultFree))
            && (reply == ResultReply(FlashErased(true)) ==> Erased(s0, t, j, m, assured, stale))
            && (faultFree && (left.None? || stale) && reply != Negative(RoutineNotComplete)
                ==> reply == ResultReply(FlashErased(true)))
  {
    if Over(s0, s, j, k) {
      OverPolled(crc, s0, s, j, k, now, env, ticks);
      m := k;
    } else {
      ActivePolled(crc, s0, s, j, k, left, now, env, ticks);
      var t := Run(crc, ProcessCmd(crc, s, ResultsRequest(), now, env).0, ticks);
      BroughtIsPolling(s0, t, j, k, None, ticks, faultFree);
      m := k + OkPrefix(ticks);
      AllOkPrefix(ticks);
      SectorsGrow(j, Certain(faultFree), m);
    }
  }

  /** `erase`: starts the routine and polls for its result until there is one. */
  method EraseTarget(session: Session, start: Word, numPages: nat, ghost n: nat) returns (ok: bool, ghost k: nat)
    requires session.Valid() && numPages == Pages(n)
    modifies session.server, session.server.qspi, session.server.flashBuf
    ensures session.Valid()
    ensures var (s0, s, j) := (old(session.server.State()), session.server.State(), JobFor(start, n));
            Fits(start, n) ==>
              && (ok ==> ServerReady(s0, start) && n > 0)
              && (ok ==> Erased(Marked(s0, start), s, j, k, Assured(s0, j, session.faultFree),
                                StaleSuccess(s0.completed)))
              && (session.faultFree && ServerReady(s0, start) && n > 0 && NoFailureLeft(s0) ==> ok)
  {
    ghost var crc, s0, j := session.server.crc, session.server.State(), JobFor(start, n);
    ghost var left, marked := s0.completed, Marked(s0, start);
    k := 0;
    var reply;
    ghost var now, env, ticks;
    assert Request(EraseRequest(start, numPages));
    reply, now, env, ticks := session.Exchange(EraseRequest(start, numPages));
    if !reply.Positive? {
      if Fits(start, n) {
        EraseStarts(crc, s0, start, n, now, env);
      }
      return false, 0;
    }
    if Fits(start, n) {
      EraseBegun(crc, s0, start, n, now, env, ticks);
      BroughtIsPolling(marked, session.server.State(), j, 0, left, ticks, session.faultFree);
      JobIsPlaced(start, n);
      k := OkPrefix(ticks);
    }
    AcceptedEraseDrops(crc, s0, start, numPages, now, env, ticks);
    while true
      invariant session.Valid() && EraseOrIdle(session.server.State())
      invariant left == s0.completed || (left.None? && s0.completed.None?)
      invariant Fits(start, n) ==>
                  && ServerReady(s0, start) && n > 0 && j.Placed()
                  && Polling(marked, session.server.State(), j, k, left, session.faultFree)
      decreases Remaining(session.server.State())
    {
      ghost var s := session.server.State();
      reply, now, env, ticks := session.Exchange(ResultsRequest());
      if Fits(start, n) {
        k := PollAnswered(crc, marked, s, j, k, left, session.faultFree, now, env, ticks);
      }
      PollDrops(crc, s, now, env, ticks);
      if reply.Positive? {
        ok := reply.data[2] == 0x00;
        return;
      }
      if reply != Negative(RoutineNotComplete) {
        return false, k;
      }
    }
  }

  lemma AcceptedEraseDrops(crc: CrcFn, s: Ecu, start: Word, pages: nat, now: nat, env: Env, ticks: seq<Event>)
    requires s.Valid() && Request(EraseRequest(start, pages))
    requires var (t, reply) := ProcessCmd(crc, s, EraseRequest(start, pages), now, env);
             reply.Positive? && t.Valid() && PromptRun(t, ticks)
    ensures EraseOrIdle(Run(crc, ProcessCmd(crc, s, EraseRequest(start, pages), now, env).0, ticks))
  {
    RunDrops(crc, ProcessCmd(crc, s, EraseRequest(start, pages), now, env).0, ticks);
  }

  /** A poll that has to be repeated has seen the erase come closer to its end. */
  lemma PollDrops(crc: CrcFn, s: Ecu, now: nat, env: Env, ticks: seq<Event>)
    requires s.Valid() && EraseOrIdle(s) && Request(ResultsRequest()) && ticks != []
    requires var t := ProcessCmd(crc, s, ResultsRequest(), now, env).0; t.Valid() && PromptRun(t, ticks)
    ensures var (r, reply) := ProcessCmd(crc, s, ResultsRequest(), now, env);
            && EraseOrIdle(Run(crc, r, ticks))
            && (reply.Positive? ==> |reply.data| == 3)
            && (reply == Negative(RoutineNotComplete) ==> Remaining(Run(crc, r, ticks)) < Remaining(s))
  {
    RunDrops(crc, ProcessCmd(crc, s, ResultsRequest(), now, env).0, ticks);
  }

  // ---------------------------------------------------------------- download

  lemma DownloadBegun(
      crc: CrcFn, s: Ecu, start: nat, data: seq<Byte>, now: nat, env: Env, ticks: seq<Event>)
    requires s.Valid() && s.mode == Reprogramming && Fits(start, |data|)
    requires Request(DownloadRequest(start, |data|))
    requires var t := ProcessCmd(crc, s, DownloadRequest(start, |data|), now, env).0; t.Valid() && PromptRun(t, ticks)
    ensures var (t, reply) := ProcessCmd(crc, s, DownloadRequest(start, |data|), now, env);
            reply.Positive? && Loading(s, Run(crc, t, ticks), start, data, 0)
  {
    DownloadStarts(crc, s, start, |data|, now, env);
    var t := ProcessCmd(crc, s, DownloadRequest(start, |data|), now, env).0;
    CalmRun(crc, t, ticks);
    var q := OnQspi(start);
    assert Cells(s, q) == ProgramAt(Cells(s, q), Base(start), data[..0]);
  }

  lemma BlockSent(
      crc: CrcFn, s1: Ecu, s: Ecu, start: nat, data: seq<Byte>, pos: nat, next: nat,
      now: nat, env: Env, ticks: seq<Event>)
    requires s.Valid() && Fits(start, |data|) && Loading(s1, s, start, data, pos) && pos < |data|
    requires next == pos + Min(BLOCK_SIZE, |data| - pos)
    requires Request(BlockRequest(BlockNumber(pos), data[pos..next]))
    requires var t := ProcessCmd(crc, s, BlockRequest(BlockNumber(pos), data[pos..next]), now, env).0;
             t.Valid() && PromptRun(t, ticks)
    ensures var (t, reply) := ProcessCmd(crc, s, BlockRequest(BlockNumber(pos), data[pos..next]), now, env);
            && (reply.Positive? <==> next % 4 == 0 && (OnQspi(start) || env.hwOk))
            && (reply.Positive? ==> Loading(s1, Run(crc, t, ticks), start, data, next))
  {
    NextBlock(pos, |data|);
    BlockAccepted(crc, s1, s, start, data, pos, next, now, env);
    var (t, reply) := ProcessCmd(crc, s, BlockRequest(BlockNumber(pos), data[pos..next]), now, env);
    if reply.Positive? {
      CalmRun(crc, t, ticks);
      LoadingFound(s1, t, start, data, next, Run(crc, t, ticks).qspiSize);
    }
  }

  lemma LoadingFound(s1: Ecu, s: Ecu, start: nat, data: seq<Byte>, pos: nat, size: nat)
    requires Loading(s1, s, start, data, pos)
    ensures Loading(s1, s.(qspiSize := size), start, data, pos)
  {
  }

  /** The download is over: the image is programmed over what was there and nothing else has changed. */
  predicate Transferred(s1: Ecu, s: Ecu, start: nat, data: seq<Byte>) {
    Steady(s1, s) && s.pending == Idle && Loaded(s1, s, start, data, |data|)
  }

  lemma DownloadEnded(
      crc: CrcFn, s1: Ecu, s: Ecu, start: nat, data: seq<Byte>, now: nat, env: Env, ticks: seq<Event>)
    requires s.Valid() && Loading(s1, s, start, data, |data|) && Request(ExitRequest())
    requires var t := ProcessCmd(crc, s, ExitRequest(), now, env).0; t.Valid() && PromptRun(t, ticks)
    ensures var (t, reply) := ProcessCmd(crc, s, ExitRequest(), now, env);
            reply.Positive? && Transferred(s1, Run(crc, t, ticks), start, data)
  {
    ExitDone(crc, s, now, env);
    CalmRun(crc, ProcessCmd(crc, s, ExitRequest(), now, env).0, ticks);
  }

  /** The image is being downloaded and stands at `pos`. */
  predicate Downloading(s1: Ecu, s: Ecu, start: nat, data: seq<Byte>, pos: nat) {
    Fits(start, |data|) && pos % 4 == 0 && Loading(s1, s, start, data, pos)
  }

  /** The image lies where it fits and the server listens. */
  predicate Downloadable(s: Ecu, start: nat, data: seq<Byte>) {
    Fits(start, |data|) && s.mode == Reprogramming
  }

  /** Lays the next request out in the buffer that all blocks share. */
  method FillRequest(blockMax: array<Byte>, counter: Byte, chunk: seq<Byte>) returns (request: seq<Byte>)
    requires blockMax.Length == 4096 && |chunk| <= BLOCK_SIZE
    modifies blockMax
    ensures request == BlockRequest(counter, chunk)
  {
    blockMax[0] := TRANSFER_DATA;
    blockMax[1] := counter;
    forall i | 0 <= i < |chunk| {
      blockMax[2 + i] := chunk[i];
    }
    request := blockMax[..|chunk| + 2];
  }

  method RequestDownload(session: Session, data: seq<Byte>, start: Word) returns (ok: bool)
    requires session.Valid() && |data| < WORD
    modifies session.server, session.server.qspi, session.server.flashBuf
    ensures session.Valid()
    ensures var s1 := old(session.server.State());
            Downloadable(s1, start, data) ==> ok && Downloading(s1, session.server.State(), start, data, 0)
  {
    ghost var crc, s := session.server.crc, session.server.State();
    var reply;
    ghost var now, env, ticks;
    reply, now, env, ticks := session.Exchange(DownloadRequest(start, |data|));
    if Downloadable(s, start, data) {
      DownloadBegun(crc, s, start, data, now, env, ticks);
    }
    ok := reply.Positive?;
  }

  /** The next block is accepted and the download one block on, or it is refused. */
  predicate BlockDone(
      s1: Ecu, s: Ecu, start: nat, data: seq<Byte>, next: nat, ok: bool, faultFree: bool)
  {
    && (ok ==> Downloading(s1, s, start, data, next))
    && (faultFree && next % 4 == 0 ==> ok)
  }

  method SendBlock(
      session: Session, request: seq<Byte>, ghost data: seq<Byte>, ghost pos: nat, ghost s1: Ecu, ghost start: nat)
    returns (ok: bool)
    requires session.Valid() && pos < |data|
    requires request == BlockRequest(BlockNumber(pos), data[pos..pos + Min(BLOCK_SIZE, |data| - pos)])
    modifies session.server, session.server.qspi, session.server.flashBuf
    ensures session.Valid()
    ensures Downloading(s1, old(session.server.State()), start, data, pos) ==>
              BlockDone(s1, session.server.State(), start, data, pos + Min(BLOCK_SIZE, |data| - pos), ok,
                        session.faultFree)
  {
    ghost var crc, s := session.server.crc, session.server.State();
    ghost var next := pos + Min(BLOCK_SIZE, |data| - pos);
    var reply;
    ghost var now, env, ticks;
    reply, now, env, ticks := session.Exchange(request);
    if Downloading(s1, s, start, data, pos) {
      BlockOutcome(crc, s1, s, start, data, pos, next, session.faultFree, request, now, env, ticks,
                   session.server.State(), reply);
    }
    ok := reply.Positive?;
  }

  /** The exchange of one block request, from the server `s` it finds to the server `t` it leaves. */
  lemma BlockOutcome(
      crc: CrcFn, s1: Ecu, s: Ecu, start: nat, data: seq<Byte>, pos: nat, next: nat, faultFree: bool,
      cmd: seq<Byte>, now: nat, env: Env, ticks: seq<Event>, t: Ecu, reply: Reply)
    requires s.Valid() && Downloading(s1, s, start, data, pos) && pos < |data| && (faultFree ==> env.hwOk)
    requires next == pos + Min(BLOCK_SIZE, |data| - pos)
    requires Request(cmd) && cmd == BlockRequest(BlockNumber(pos), data[pos..next])
    requires var (u, r) := ProcessCmd(crc, s, cmd, now, env);
             u.Valid() && PromptRun(u, ticks) && reply == r && t == Run(crc, u, ticks)
    ensures BlockDone(s1, t, start, data, next, reply.Positive?, faultFree)
  {
    BlockSent(crc, s1, s, start, data, pos, next, now, env, ticks);
  }

  method ExitTransfer(session: Session, ghost data: seq<Byte>, ghost s1: Ecu, ghost start: nat) returns (ok: bool)
    requires session.Valid()
    modifies session.server, session.server.qspi, session.server.flashBuf
    ensures session.Valid()
    ensures Downloading(s1, old(session.server.State()), start, data, |data|) ==>
              ok && Transferred(s1, session.server.State(), start, data)
  {
    ghost var crc, s := session.server.crc, session.server.State();
    var reply;
    ghost var now, env, ticks;
    reply, now, env, ticks := session.Exchange(ExitRequest());
    if Loading(s1, s, start, data, |data|) {
      DownloadEnded(crc, s1, s, start, data, now, env, ticks);
    }
    ok := reply.Positive?;
  }

  /**
    `flash_segment` from the download request to the transfer exit, on a server in the programming session
    whatever it was doing: success means the image is programmed over what was there.
   */
  method Transfer(session: Session, data: seq<Byte>, start: Word) returns (ok: bool)
    requires session.Valid() && |data| < WORD
    modifies session.server, session.server.qspi, session.server.flashBuf
    ensures session.Valid()
    ensures var (s1, s) := (old(session.server.State()), session.server.State());
            Downloadable(s1, start, data) ==>
              && (ok ==> |data| % 4 == 0 && Transferred(s1, s, start, data))
              && (session.faultFree && |data| % 4 == 0 ==> ok)
  {
    ghost var s1 := session.server.State();
    ok := RequestDownload(session, data, start);
    if !ok {
      return;
    }
    ok := SendBlocks(session, data, start, s1);
    if !ok {
      return;
    }
    ok := ExitTransfer(session, data, s1, start);
  }

  /** The block loop, up to the first block that is refused. */
  method SendBlocks(session: Session, data: seq<Byte>, ghost start: Word, ghost s1: Ecu) returns (ok: bool)
    requires session.Valid()
    modifies session.server, session.server.qspi, session.server.flashBuf
    ensures session.Valid()
    ensures Downloading(s1, old(session.server.State()), start, data, 0) ==>
              BlockDone(s1, session.server.State(), start, data, |data|, ok, session.faultFree)
  {
    ghost var good := Downloading(s1, session.server.State(), start, data, 0);
    ok := true;
    var counter: Byte := 0;
    var blockMax := new Byte[4096](_ => 0);
    var addr := 0;
    while addr < |data|
      invariant session.Valid() && addr <= |data| && fresh(blockMax)
      invariant addr % 1024 == 0 || addr == |data|
      invariant counter == BlockNumber(addr)
      invariant good ==> Downloading(s1, session.server.State(), start, data, addr)
    {
      NextBlock(addr, |data|);
      var next := addr + Min(BLOCK_SIZE, |data| - addr);
      ok := SendChunk(session, blockMax, counter, data, addr, s1, start);
      if !ok {
        return;
      }
      addr, counter := next, (counter as int + 1) % 256;
    }
  }

  method SendChunk(
      session: Session, blockMax: array<Byte>, counter: Byte, data: seq<Byte>, addr: nat,
      ghost s1: Ecu, ghost start: nat)
    returns (ok: bool)
    requires session.Valid() && addr < |data| && blockMax.Length == 4096 && counter == BlockNumber(addr)
    requires session.server.flashBuf != blockMax
    modifies session.server, session.server.qspi, session.server.flashBuf, blockMax
    ensures session.Valid()
    ensures Downloading(s1, old(session.server.State()), start, data, addr) ==>
              BlockDone(s1, session.server.State(), start, data, addr + Min(BLOCK_SIZE, |data| - addr), ok,
                        session.faultFree)
  {
    var maxCopy := Min(BLOCK_SIZE, |data| - addr);
    var request := FillRequest(blockMax, counter, data[addr..addr + maxCopy]);
    ok := SendBlock(session, request, data, addr, s1, start);
  }

  // ---------------------------------------------------------------- the final check

  /** The markers after a download: what the erase did to them and, when asked for, the check. */
  function FinalMarks(crc: CrcFn, s0: Ecu, nvm: Memory, start: nat, doCrc: bool): Markers
    requires |nvm| == FLASH_SIZE
  {
    var marks := EraseMarks(s0.marks, start);
    if doCrc then CheckedMarks(crc, marks, nvm, start) else marks
  }

  /** The check changed at most the markers, and those exactly when it matched. */
  predicate Checked(crc: CrcFn, s: Ecu, t: Ecu, start: nat, data: seq<Byte>, ok: bool)
    requires s.Valid() && Fits(start, |data|) && !OnQspi(start)
  {
    FitsPages(start, |data|);
    && (ok <==> CheckedCrc(crc, ImageAt(s.nvm, start, |data|)) == crc(data))
    && t.mode == s.mode && t.pending == s.pending && t.completed == s.completed && t.ops == s.ops
    && t.nvm == s.nvm && t.qspi == s.qspi
    && t.marks == if ok then CheckedMarks(crc, s.marks, s.nvm, start) else s.marks
  }

  lemma ImageChecked(crc: CrcFn, s: Ecu, start: nat, data: seq<Byte>, now: nat, env: Env, ticks: seq<Event>)
    requires s.Valid() && s.mode == Reprogramming && s.pending == Idle
    requires Fits(start, |data|) && !OnQspi(start) && |data| < WORD
    requires var cmd := CheckRequest(crc(data), start, |data|);
             && Request(cmd)
             && var t := ProcessCmd(crc, s, cmd, now, env).0; t.Valid() && PromptRun(t, ticks)
    ensures var (t, reply) := ProcessCmd(crc, s, CheckRequest(crc(data), start, |data|), now, env);
            && reply.Positive? && |reply.data| == 3
            && Checked(crc, s, Run(crc, t, ticks), start, data, reply.data[2] != 0x00)
  {
    CheckReply(crc, s, start, |data|, crc(data), now, env);
    CheckCompares(crc, s.(lastCmd := now, longOp := false), start, |data|, crc(data), env);
    CalmRun(crc, ProcessCmd(crc, s, CheckRequest(crc(data), start, |data|), now, env).0, ticks);
  }

  /**
    The flash check the flasher ends with: success exactly when the CRC of what is there is the image's; for
    an image that is not whole words, of which the unit computes none, exactly when the image's is 0.
   */
  method CheckImage(session: Session, data: seq<Byte>, start: Word) returns (ok: bool)
    requires session.Valid() && |data| < WORD
    modifies session.server, session.server.qspi, session.server.flashBuf
    ensures session.Valid()
    ensures var (s, t) := (old(session.server.State()), session.server.State());
            s.mode == Reprogramming && s.pending == Idle && Fits(start, |data|) && !OnQspi(start) ==>
              Checked(session.server.crc, s, t, start, data, ok)
  {
    ghost var crc, s := session.server.crc, session.server.State();
    var target := session.server.crc(data);
    var reply;
    ghost var now, env, ticks;
    reply, now, env, ticks := session.Exchange(CheckRequest(target, start, |data|));
    if s.mode == Reprogramming && s.pending == Idle && Fits(start, |data|) && !OnQspi(start) {
      ImageChecked(crc, s, start, data, now, env, ticks);
    }
    ok := reply.Positive? && |reply.data| > 2 && reply.data[2] != 0x00;
  }

  // ---------------------------------------------------------------- the whole segment

  /** The first `k` erase commands and then the image have changed the target, and nothing else has. */
  predicate Flashed(s0: Ecu, s: Ecu, start: nat, data: seq<Byte>, k: nat) {
    var q, j := OnQspi(start), JobFor(start, |data|);
    && s.mode == Reprogramming && s.pending == Idle && NoCrossing(s0, s)
    && Cells(s, q) == ProgramAt(Erase(Cells(s0, q), Base(start), 4096 * j.Sectors(k)), Base(start), data)
    && Cells(s, !q) == Cells(s0, !q)
  }

  /** The image is in place, the rest of its pages is blank, and nothing outside them changed. */
  predicate Programmed(s0: Ecu, s: Ecu, start: nat, image: seq<Byte>) {
    && s.mode == Reprogramming && s.pending == Idle
    && Holds(Cells(s0, OnQspi(start)), Cells(s, OnQspi(start)), Base(start), Pages(|image|), image)
    && Cells(s, !OnQspi(start)) == Cells(s0, !OnQspi(start))
    && NoCrossing(s0, s)
  }

  /** Over completely erased pages programming puts the image in place. */
  lemma FlashedIsProgrammed(s0: Ecu, s: Ecu, start: nat, data: seq<Byte>, k: nat)
    requires Fits(start, |data|) && Flashed(s0, s, start, data, k)
    requires JobFor(start, |data|).Sectors(k) == JobFor(start, |data|).Total()
    ensures Programmed(s0, s, start, data)
  {
    FitsPages(start, |data|);
  }

  lemma ErasedThenTransferred(
      s0: Ecu, s1: Ecu, s: Ecu, start: nat, data: seq<Byte>, k: nat, assured: nat, stale: bool)
    requires Erased(Marked(s0, start), s1, JobFor(start, |data|), k, assured, stale)
    requires Transferred(s1, s, start, data)
    ensures Flashed(s0, s, start, data, k) && s.marks == EraseMarks(s0.marks, start)
    ensures !stale ==> s.completed.None?
  {
    NoCrossingChains(Marked(s0, start), s1, s);
    assert data[..|data|] == data;
  }

  /** What a segment that was reported as flashed has left behind. */
  predicate SegmentDone(crc: CrcFn, s0: Ecu, s: Ecu, start: nat, data: seq<Byte>, doCrc: bool, k: nat)
    requires s.Valid() && Fits(start, |data|)
  {
    FitsPages(start, |data|);
    && ServerReady(s0, start) && |data| > 0 && |data| % 4 == 0
    && Flashed(s0, s, start, data, k)
    && s.marks == FinalMarks(crc, s0, s.nvm, start, doCrc)
    && (doCrc && !OnQspi(start) ==> crc(ImageAt(s.nvm, start, |data|)) == crc(data))
    && (!StaleSuccess(s0.completed) ==> s.completed.None?)
  }

  /** The image as programmed is what the check looks at. */
  lemma ProgrammedImage(s0: Ecu, s: Ecu, start: nat, data: seq<Byte>)
    requires s.Valid() && Fits(start, |data|) && !OnQspi(start) && Programmed(s0, s, start, data)
    ensures Base(start) + |data| <= |s.nvm| && ImageAt(s.nvm, start, |data|) == data
  {
    FitsPages(start, |data|);
  }

  /**
    `flash_segment`: for every image that fits its region, every server and every timing, what a reported
    success is worth. The target holds the image over what the first `k` erase commands left, nothing else
    has changed and no page program crossed a page. All the pages were erased first, so that the target
    holds exactly the image and then blank cells, unless an earlier erase had left a success recorded; then
    only as much as `Assured` says. On fault-free hardware, and with no failure left over, success is
    reported exactly for a non-empty image of whole words sent to a ready server, except that a check after
    too short an erase may fail.
   */
  method FlashSegment(session: Session, data: seq<Byte>, start: Word, doCrc: bool) returns (ok: bool, ghost k: nat)
    requires session.Valid() && |data| < WORD
    modifies session.server, session.server.qspi, session.server.flashBuf
    ensures session.Valid()
    ensures var (s0, s, j) := (old(session.server.State()), session.server.State(), JobFor(start, |data|));
            var assured := Assured(s0, j, session.faultFree);
            Fits(start, |data|) && !(doCrc && OnQspi(start)) ==>
              && (ok ==> SegmentDone(session.server.crc, s0, s, start, data, doCrc, k) && assured <= j.Sectors(k))
              && (ok && assured == j.Total() ==> Programmed(s0, s, start, data))
              && (session.faultFree && NoFailureLeft(s0) && (doCrc ==> assured == j.Total()) ==>
                    (ok <==> ServerReady(s0, start) && |data| > 0 && |data| % 4 == 0))
  {
    ghost var s0 := session.server.State();
    var numPages := |data| / 8192;
    if |data| % 8192 != 0 {
      numPages := numPages + 1;
    }
    ok, k := EraseTarget(session, start, numPages, |data|);
    if !ok {
      return;
    }
    ghost var s1 := session.server.State();
    ok := Transfer(session, data, start);
    ghost var s := session.server.State();
    ghost var j := JobFor(start, |data|);
    if ok && Fits(start, |data|) {
      ErasedThenTransferred(s0, s1, s, start, data, k, Assured(s0, j, session.faultFree), StaleSuccess(s0.completed));
      if j.Sectors(k) == j.Total() {
        FlashedIsProgrammed(s0, s, start, data, k);
        if !OnQspi(start) {
          ProgrammedImage(s0, s, start, data);
        }
      }
    }
    if !ok || !doCrc {
      return;
    }
    ok := CheckImage(session, data, start);
  }
}
