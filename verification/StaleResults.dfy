/**
  The result of an earlier erase that nobody collected makes the server answer the next results poll
  at once, while the new erase has only begun; the flasher then starts a download over it. What that
  leaves erased, and exactly when it matters, for both memories and every schedule of background steps.
 */
module StaleResults {
  import opened Bytes
  import opened Flash
  import opened MemoryMap
  import opened Kwp
  import opened FlasherSteps
  import opened FlasherErase

  /** No command but a results poll takes a recorded result away; neither does anything record one early. */
  lemma ResultSurvives(crc: CrcFn, s: Ecu, cmd: seq<Byte>, now: nat, env: Env)
    requires s.Valid() && Request(cmd) && s.completed.Some?
    ensures var (t, reply) := ProcessCmd(crc, s, cmd, now, env);
            t.completed == s.completed <==> !(cmd == ResultsRequest() && s.mode == Reprogramming)
  {
    if |cmd| == 2 && cmd[0] == ROUTINE_RESULTS && cmd[1] == ROUTINE_ERASE {
      assert cmd == ResultsRequest();
    }
  }

  // ---------------------------------------------------------------- schedules

  /** When a request is served, and the background steps until the next one. */
  datatype Turn = Turn(now: nat, env: Env, ticks: seq<Event>)

  /** At least one background step follows the request, and all come before the tester timeout. */
  predicate Timely(crc: CrcFn, s: Ecu, cmd: seq<Byte>, turn: Turn)
    requires s.Valid() && Request(cmd)
  {
    var t := ProcessCmd(crc, s, cmd, turn.now, turn.env).0;
    t.Valid() && turn.ticks != [] && PromptRun(t, turn.ticks)
  }

  function After(crc: CrcFn, s: Ecu, cmd: seq<Byte>, turn: Turn): (t: Ecu)
    requires s.Valid() && Request(cmd) && Timely(crc, s, cmd, turn)
    ensures t.Valid()
  {
    Run(crc, ProcessCmd(crc, s, cmd, turn.now, turn.env).0, turn.ticks)
  }

  function ReplyTo(crc: CrcFn, s: Ecu, cmd: seq<Byte>, turn: Turn): Reply
    requires s.Valid() && Request(cmd)
  {
    ProcessCmd(crc, s, cmd, turn.now, turn.env).1
  }

  const SUCCESS: Completed := FlashErased(true)

  /** The polls are answered "not complete" until the last one reports success; `t` is the server then. */
  predicate Reported(crc: CrcFn, s: Ecu, polls: seq<Turn>, t: Ecu)
    requires s.Valid()
    decreases |polls|
  {
    && polls != [] && Timely(crc, s, ResultsRequest(), polls[0])
    && var (u, reply) := (After(crc, s, ResultsRequest(), polls[0]), ReplyTo(crc, s, ResultsRequest(), polls[0]));
       if |polls| == 1 then reply == ResultReply(SUCCESS) && t == u
       else reply == Negative(RoutineNotComplete) && Reported(crc, u, polls[1..], t)
  }

  /** The flasher's erase is accepted and then reported as done; its download request finds the server in `t`. */
  predicate DownloadReached(crc: CrcFn, s: Ecu, start: nat, n: nat, first: Turn, polls: seq<Turn>, t: Ecu)
    requires s.Valid() && Fits(start, n)
  {
    var cmd := EraseRequest(start, Pages(n));
    && Timely(crc, s, cmd, first) && ReplyTo(crc, s, cmd, first).Positive?
    && Reported(crc, After(crc, s, cmd, first), polls, t)
  }

  /** No erase command fails. */
  predicate NoFault(first: Turn, polls: seq<Turn>) {
    AllOk(first.ticks) && forall i :: 0 <= i < |polls| ==> AllOk(polls[i].ticks)
  }

  // ---------------------------------------------------------------- how much is erased

  /** The download request that follows is accepted, and stops the erase where it is. */
  ghost predicate Accepted(crc: CrcFn, t: Ecu, start: nat, n: nat)
    requires t.Valid()
  {
    forall now, env :: var (u, reply) := ProcessCmd(crc, t, DownloadRequest(start, n), now, env);
      && reply.Positive? && u.pending == Flashing(0, Bus(start), false, OnQspi(start))
      && u.nvm == t.nvm && u.qspi == t.qspi
  }

  /** How many erase commands have been carried out when the download request comes. */
  lemma StaleAmount(crc: CrcFn, s: Ecu, start: nat, n: nat, first: Turn, polls: seq<Turn>, t: Ecu)
    returns (k: nat)
    requires s.Valid() && Fits(start, n) && StaleSuccess(s.completed)
    requires DownloadReached(crc, s, start, n, first, polls, t)
    ensures |polls| == 1 && t.Valid() && OkPrefix(first.ticks) >= 1 && polls[0].ticks != []
    ensures k == OkPrefix(first.ticks) + OkPrefix(polls[0].ticks)
    ensures Touched(Marked(s, start), t, JobFor(start, n), k)
  {
    k := OkPrefix(first.ticks) + OkPrefix(polls[0].ticks);
    var j, m, u := JobFor(start, n), Marked(s, start), After(crc, s, EraseRequest(start, Pages(n)), first);
    EraseUnderWay(crc, s, start, n, first, u);
    JobIsPlaced(start, n);
    StalePoll(crc, m, u, j, OkPrefix(first.ticks), k, s.completed, polls[0],
              After(crc, u, ResultsRequest(), polls[0]), ReplyTo(crc, u, ResultsRequest(), polls[0]));
  }

  /**
    With a success left over the first poll already reports it, whatever the timing. By the time the download
    request is accepted exactly as many erase commands have been carried out as background steps went by
    after erase request and poll, up to the first that failed and at most all of them.
   */
  lemma StaleResultSkipsErase(
      crc: CrcFn, s: Ecu, start: nat, n: nat, first: Turn, polls: seq<Turn>, t: Ecu)
    returns (k: nat)
    requires s.Valid() && Fits(start, n) && StaleSuccess(s.completed)
    requires DownloadReached(crc, s, start, n, first, polls, t)
    ensures |polls| == 1 && t.Valid() && Accepted(crc, t, start, n)
    ensures k == OkPrefix(first.ticks) + OkPrefix(polls[0].ticks) && OkPrefix(first.ticks) >= 1
    ensures Touched(Marked(s, start), t, JobFor(start, n), k)
  {
    k := StaleAmount(crc, s, start, n, first, polls, t);
    DownloadIsAccepted(crc, t, start, n);
  }

  /** At least one command has been carried out, or the job is over. */
  predicate UnderWay(s0: Ecu, u: Ecu, j: Job, k: nat, left: Option<Completed>) {
    (Active(s0, u, j, k, left) && k >= 1) || Over(s0, u, j, k)
  }

  /** The server when the first poll comes. */
  lemma EraseUnderWay(crc: CrcFn, s: Ecu, start: nat, n: nat, first: Turn, u: Ecu)
    requires s.Valid() && Fits(start, n) && Timely(crc, s, EraseRequest(start, Pages(n)), first)
    requires ReplyTo(crc, s, EraseRequest(start, Pages(n)), first).Positive?
    requires u == After(crc, s, EraseRequest(start, Pages(n)), first)
    ensures n > 0
    ensures UnderWay(Marked(s, start), u, JobFor(start, n), OkPrefix(first.ticks), s.completed)
  {
    EraseBegun(crc, s, start, n, first.now, first.env, first.ticks);
    AllOkPrefix(first.ticks);
  }

  /** What the first poll does, whether the new erase is still under way or already over. */
  predicate PollTold(s0: Ecu, t: Ecu, j: Job, k: nat, m: nat, reply: Reply) {
    && reply != Negative(RoutineNotComplete)
    && (reply == ResultReply(SUCCESS) ==> k >= 1 && Touched(s0, t, j, m))
  }

  lemma PollOfOver(crc: CrcFn, s0: Ecu, u: Ecu, j: Job, k: nat, m: nat, poll: Turn, t: Ecu, reply: Reply)
    requires m == k + OkPrefix(poll.ticks)
    requires u.Valid() && j.Placed() && Timely(crc, u, ResultsRequest(), poll) && Over(s0, u, j, k)
    requires t == After(crc, u, ResultsRequest(), poll) && reply == ReplyTo(crc, u, ResultsRequest(), poll)
    ensures PollTold(s0, t, j, k, m, reply)
  {
    NothingWithoutCommands(j);
    OverPolled(crc, s0, u, j, k, poll.now, poll.env, poll.ticks);
    SectorsGrow(j, k, m);
  }

  lemma StalePoll(
      crc: CrcFn, s0: Ecu, u: Ecu, j: Job, k: nat, m: nat, left: Option<Completed>, poll: Turn, t: Ecu, reply: Reply)
    requires m == k + OkPrefix(poll.ticks)
    requires u.Valid() && j.Placed() && Timely(crc, u, ResultsRequest(), poll)
    requires StaleSuccess(left) && UnderWay(s0, u, j, k, left)
    requires t == After(crc, u, ResultsRequest(), poll) && reply == ReplyTo(crc, u, ResultsRequest(), poll)
    ensures PollTold(s0, t, j, k, m, reply)
  {
    if Over(s0, u, j, k) {
      PollOfOver(crc, s0, u, j, k, m, poll, t, reply);
    } else {
      ActivePolled(crc, s0, u, j, k, left, poll.now, poll.env, poll.ticks);
    }
  }

  lemma DownloadIsAccepted(crc: CrcFn, t: Ecu, start: nat, n: nat)
    requires t.Valid() && t.mode == Reprogramming && Fits(start, n)
    ensures Accepted(crc, t, start, n)
  {
    forall now, env
      ensures var (v, reply) := ProcessCmd(crc, t, DownloadRequest(start, n), now, env);
              reply.Positive? && v.pending == Flashing(0, Bus(start), false, OnQspi(start))
              && v.nvm == t.nvm && v.qspi == t.qspi
    {
      DownloadStarts(crc, t, start, n, now, env);
    }
  }

  lemma NothingWithoutCommands(j: Job)
    requires j.Placed()
    ensures j.Sectors(0) < j.Total()
  {
  }

  // ---------------------------------------------------------------- without a left-over success

  lemma {:induction false} ReportedMeansErased(
      crc: CrcFn, s0: Ecu, s: Ecu, j: Job, k: nat, left: Option<Completed>, polls: seq<Turn>, t: Ecu)
    returns (m: nat)
    requires s.Valid() && j.Placed() && !StaleSuccess(left)
    requires Active(s0, s, j, k, left) || Over(s0, s, j, k)
    requires Reported(crc, s, polls, t)
    ensures Touched(s0, t, j, m) && j.Sectors(m) == j.Total()
    decreases |polls|
  {
    var poll := polls[0];
    var u := After(crc, s, ResultsRequest(), poll);
    if Over(s0, s, j, k) {
      OverPolled(crc, s0, s, j, k, poll.now, poll.env, poll.ticks);
      m := k;
    } else {
      ActivePolled(crc, s0, s, j, k, left, poll.now, poll.env, poll.ticks);
      m := ReportedMeansErased(crc, s0, u, j, k + OkPrefix(poll.ticks), None, polls[1..], t);
    }
  }

  /** A success that was not left over means that everything is erased, whatever the timing and the faults. */
  lemma FreshResultIsTrue(crc: CrcFn, s: Ecu, start: nat, n: nat, first: Turn, polls: seq<Turn>, t: Ecu)
    requires s.Valid() && Fits(start, n) && !StaleSuccess(s.completed)
    requires DownloadReached(crc, s, start, n, first, polls, t)
    ensures BlankAt(t, JobFor(start, n))
  {
    var j, m, u := JobFor(start, n), Marked(s, start), After(crc, s, EraseRequest(start, Pages(n)), first);
    EraseUnderWay(crc, s, start, n, first, u);
    JobIsPlaced(start, n);
    var k := ReportedMeansErased(crc, m, u, j, OkPrefix(first.ticks), s.completed, polls, t);
    TouchedIsBlank(m, t, j, k);
  }

  // ---------------------------------------------------------------- exactly when the target is blank

  predicate BlankAt(s: Ecu, j: Job) {
    forall i :: j.base <= i < j.base + 4096 * j.Total() && i < |Cells(s, j.qspi)| ==> Cells(s, j.qspi)[i] == ERASED
  }

  /** Whatever the flash held before and however requests and background steps are timed, the target is blank. */
  ghost predicate AlwaysBlank(crc: CrcFn, start: nat, n: nat, left: Option<Completed>, faultFree: bool)
    requires Fits(start, n)
  {
    forall s: Ecu, first, polls, t ::
      (&& s.Valid() && s.completed == left && DownloadReached(crc, s, start, n, first, polls, t)
       && (faultFree ==> NoFault(first, polls))) ==> BlankAt(t, JobFor(start, n))
  }

  lemma CoveredIsBlank(
      crc: CrcFn, s: Ecu, start: nat, n: nat, first: Turn, polls: seq<Turn>, t: Ecu, faultFree: bool)
    requires s.Valid() && Fits(start, n) && StaleSuccess(s.completed)
    requires DownloadReached(crc, s, start, n, first, polls, t)
    requires faultFree ==> NoFault(first, polls)
    requires JobFor(start, n).Sectors(Certain(faultFree)) == JobFor(start, n).Total()
    ensures BlankAt(t, JobFor(start, n))
  {
    var k := StaleAmount(crc, s, start, n, first, polls, t);
    EnoughCommands(first.ticks, polls[0].ticks, faultFree);
    CoveredThenBlank(Marked(s, start), t, JobFor(start, n), k, Certain(faultFree));
  }

  lemma EnoughCommands(a: seq<Event>, b: seq<Event>, faultFree: bool)
    requires OkPrefix(a) >= 1 && b != [] && (faultFree ==> AllOk(a) && AllOk(b))
    ensures OkPrefix(a) + OkPrefix(b) >= Certain(faultFree)
  {
    if faultFree {
      AllOkPrefix(a);
      AllOkPrefix(b);
    }
  }

  lemma CoveredThenBlank(s0: Ecu, t: Ecu, j: Job, k: nat, certain: nat)
    requires Touched(s0, t, j, k) && k >= certain && j.Sectors(certain) == j.Total()
    ensures BlankAt(t, j)
  {
    SectorsGrow(j, certain, k);
    TouchedIsBlank(s0, t, j, k);
  }

  lemma TouchedIsBlank(s0: Ecu, t: Ecu, j: Job, k: nat)
    requires Touched(s0, t, j, k) && j.Sectors(k) == j.Total()
    ensures BlankAt(t, j)
  {
  }

  /** A server full of zeros with a result left over. */
  function Full(left: Option<Completed>): (s: Ecu)
    ensures s.Valid()
  {
    Ecu(Reprogramming, Idle, left, 0, false, 1, 0, 0, seq(FLASH_SIZE, _ => 0), seq(QSPI_SIZE, _ => 0),
        Markers(ProdDate(1, 1, 1, 26), 0, 0xFF, 0, 0, CLEARED, CLEARED), [])
  }

  function OneStep(ok: bool): Turn {
    var env := Env(ok, 0, None, 0);
    Turn(0, env, [Tick(0, env)])
  }

  /** The shortest schedule: one step after the request, one after the poll; it may be the second that fails. */
  lemma ShortestSchedule(crc: CrcFn, start: nat, n: nat, left: Option<Completed>, ok: bool) returns (t: Ecu)
    requires Fits(start, n) && n > 0 && StaleSuccess(left)
    ensures DownloadReached(crc, Full(left), start, n, OneStep(true), [OneStep(ok)], t)
  {
    var s, first, poll, cmd := Full(left), OneStep(true), OneStep(ok), EraseRequest(start, Pages(n));
    EraseStarts(crc, s, start, n, 0, first.env);
    var r := ProcessCmd(crc, s, cmd, 0, first.env).0;
    StepKeepsValid(crc, s, Cmd(cmd, 0, first.env));
    assert Timely(crc, s, cmd, first);
    var u := After(crc, s, cmd, first);
    EraseBegun(crc, s, start, n, 0, first.env, first.ticks);
    ResultsPolled(crc, u, 0, poll.env);
    StepKeepsValid(crc, u, Cmd(ResultsRequest(), 0, poll.env));
    assert Timely(crc, u, ResultsRequest(), poll);
    t := After(crc, u, ResultsRequest(), poll);
  }

  lemma ShortestCommands(faultFree: bool)
    ensures OkPrefix(OneStep(true).ticks) + OkPrefix(OneStep(faultFree).ticks) == Certain(faultFree)
  {
  }

  lemma NotCoveredIsNotBlank(crc: CrcFn, start: nat, n: nat, left: Option<Completed>, faultFree: bool)
    requires Fits(start, n) && n > 0 && StaleSuccess(left)
    requires JobFor(start, n).Sectors(Certain(faultFree)) != JobFor(start, n).Total()
    ensures !AlwaysBlank(crc, start, n, left, faultFree)
  {
    var s, first, polls, j := Full(left), OneStep(true), [OneStep(faultFree)], JobFor(start, n);
    var t := ShortestSchedule(crc, start, n, left, faultFree);
    var k := StaleAmount(crc, s, start, n, first, polls, t);
    ShortestCommands(faultFree);
    FullStays(left, t, start, n, k);
    if AlwaysBlank(crc, start, n, left, faultFree) {
      BlankThen(crc, s, start, n, first, polls, t, faultFree);
    }
  }

  lemma BlankThen(
      crc: CrcFn, s: Ecu, start: nat, n: nat, first: Turn, polls: seq<Turn>, t: Ecu, faultFree: bool)
    requires s.Valid() && Fits(start, n) && AlwaysBlank(crc, start, n, s.completed, faultFree)
    requires DownloadReached(crc, s, start, n, first, polls, t) && (faultFree ==> NoFault(first, polls))
    ensures BlankAt(t, JobFor(start, n))
  {
  }

  /** Where no command has come the zeros are still there. */
  lemma FullStays(left: Option<Completed>, t: Ecu, start: nat, n: nat, k: nat)
    requires Fits(start, n) && Touched(Marked(Full(left), start), t, JobFor(start, n), k)
    requires JobFor(start, n).Sectors(k) != JobFor(start, n).Total()
    ensures !BlankAt(t, JobFor(start, n))
  {
    var j := JobFor(start, n);
    FitsPages(start, n);
    var cell := j.base + 4096 * j.Sectors(k);
    assert Cells(t, j.qspi)[cell] == 0;
  }

  /**
    Exactly when the target is blank at the moment the download begins, for every old content of the flash
    and every schedule: when no success is left over, or when the commands that are certain to be carried
    out cover the whole request; two of them when no erase command can fail, else one.
   */
  lemma BlankIff(crc: CrcFn, start: nat, n: nat, left: Option<Completed>, faultFree: bool)
    requires Fits(start, n) && n > 0
    ensures var j := JobFor(start, n);
            AlwaysBlank(crc, start, n, left, faultFree)
            <==> !StaleSuccess(left) || j.Sectors(Certain(faultFree)) == j.Total()
  {
    var j := JobFor(start, n);
    if StaleSuccess(left) && j.Sectors(Certain(faultFree)) != j.Total() {
      NotCoveredIsNotBlank(crc, start, n, left, faultFree);
    } else {
      forall s: Ecu, first, polls, t |
        s.Valid() && s.completed == left && DownloadReached(crc, s, start, n, first, polls, t)
        && (faultFree ==> NoFault(first, polls))
        ensures BlankAt(t, j)
      {
        if StaleSuccess(left) {
          CoveredIsBlank(crc, s, start, n, first, polls, t, faultFree);
        } else {
          FreshResultIsTrue(crc, s, start, n, first, polls, t);
        }
      }
    }
  }

  /**
    In numbers, for hardware that does not fail: images of one or two pages on internal flash; on QSPI one
    page, or four or eight pages that begin on a 32 KiB boundary.
   */
  lemma EraseInTimeIff(crc: CrcFn, start: nat, n: nat, left: Option<Completed>)
    requires Fits(start, n) && n > 0
    ensures AlwaysBlank(crc, start, n, left, true)
            <==> || !StaleSuccess(left)
                 || (if OnQspi(start) then Pages(n) == 1 || (start % 0x8000 == 0 && (Pages(n) == 4 || Pages(n) == 8))
                     else Pages(n) <= 2)
  {
    BlankIff(crc, start, n, left, true);
    JobIsPlaced(start, n);
    FewCommandsCover(JobFor(start, n));
    if OnQspi(start) {
      SameAlignment(start);
    }
  }

  lemma SameAlignment(start: nat)
    requires start >= QSPI_AHB
    ensures (start - QSPI_AHB) % 0x8000 == start % 0x8000
  {
  }
}
