/** The background QSPI erase: mixed 32 KiB and 4 KiB commands cover exactly the requested sectors. */
module EraseRuns {
  import opened Bytes
  import opened Flash
  import opened MemoryMap
  import opened Kwp

  /** Does the erase command `op` cover 4 KiB sector number `sector`? */
  predicate Covers(op: FlashOp, sector: int) {
    match op
    case Erase4k(at) => at / 4096 == sector
    case Erase32k(at) => at / 4096 <= sector < at / 4096 + 8
    case _ => false
  }

  /** How many of the commands cover the sector. */
  function Count(ops: seq<FlashOp>, sector: int): nat {
    if ops == [] then 0
    else Count(ops[..|ops| - 1], sector) + if Covers(ops[|ops| - 1], sector) then 1 else 0
  }

  lemma CountAppend(ops: seq<FlashOp>, op: FlashOp, sector: int)
    ensures Count(ops + [op], sector) == Count(ops, sector) + if Covers(op, sector) then 1 else 0
  {
    assert (ops + [op])[..|ops|] == ops;
  }

  lemma EraseExtends(m: Memory, a: nat, n: nat, more: nat)
    ensures Erase(Erase(m, a, n), a + n, more) == Erase(m, a, n + more)
  {
  }

  /** Commands issued since `s0`. */
  function Issued(s0: Ecu, s: Ecu): seq<FlashOp> {
    if s0.ops <= s.ops then s.ops[|s0.ops|..] else []
  }

  /** Sectors `0..n` of the request pending in `s0` are covered once, every other sector never. */
  ghost predicate CoveredOnce(s0: Ecu, s: Ecu, n: nat)
    requires s0.pending.QspiErase?
  {
    forall sector :: Count(Issued(s0, s), sector)
                     == if 0 <= sector - s0.pending.start / 4096 < n then 1 else 0
  }

  predicate Started(s0: Ecu) {
    && s0.Valid() && s0.pending.QspiErase? && s0.pending.current == 0 && s0.pending.total > 0
    && s0.pending.start % 4096 == 0
  }

  /** `s` is reached from `s0` with exactly the first `n` sectors of its request erased. */
  ghost predicate At(s0: Ecu, s: Ecu, n: nat)
    requires Started(s0)
  {
    var p := s0.pending;
    && n <= p.total && s0.ops <= s.ops
    && s.qspi == Erase(s0.qspi, p.start, 4096 * n) && s.nvm == s0.nvm
    && CoveredOnce(s0, s, n)
    && if s.pending.QspiErase? then s.pending == QspiErase(p.start, p.total, n) && n < p.total
       else s.pending == Idle && (n < p.total ==> s.completed != Some(QspiErased(true)))
  }

  predicate AllTicks(events: seq<Event>) {
    forall i :: 0 <= i < |events| ==> events[i].Tick?
  }

  /** Neither a hardware fault nor a tester timeout at this step. */
  predicate Quiet(s: Ecu, e: Event) {
    e.Tick? && e.env.hwOk && !TimedOut(s, e.now)
  }

  /** What one erase command adds. */
  lemma CommandCoverage(s0: Ecu, s: Ecu, n: nat, stride: nat, op: FlashOp, t: Ecu)
    requires Started(s0) && s0.ops <= s.ops && CoveredOnce(s0, s, n)
    requires var at := s0.pending.start + 4096 * n;
             (stride == 8 && op == Erase32k(at)) || (stride == 1 && op == Erase4k(at))
    requires t.ops == s.ops + [op]
    ensures CoveredOnce(s0, t, n + stride)
  {
    assert Issued(s0, t) == Issued(s0, s) + [op];
    var first := s0.pending.start / 4096;
    assert (s0.pending.start + 4096 * n) / 4096 == first + n;
    forall sector
      ensures Count(Issued(s0, t), sector) == if 0 <= sector - first < n + stride then 1 else 0
    {
      CountAppend(Issued(s0, s), op, sector);
    }
  }

  /** One background step either stops the erase where it is or moves it on by one command. */
  lemma TickMovesErase(s0: Ecu, s: Ecu, n: nat, e: Event) returns (next: nat)
    requires Started(s0) && At(s0, s, n) && s.Valid() && s.pending.QspiErase? && e.Tick?
    ensures n <= next && At(s0, Update(s, e.now, e.env), next)
    ensures Quiet(s, e) ==> next > n && (next == s0.pending.total ==>
              Update(s, e.now, e.env).completed == Some(QspiErased(true)))
  {
    if Quiet(s, e) {
      var h := Housekeeping(s, e.now, e.env);
      assert h == s.(qspiSize := h.qspiSize) && Update(s, e.now, e.env) == QspiEraseStep(h, e.env);
      assert Issued(s0, h) == Issued(s0, s);
      CommandMovesErase(s0, h, n, e.env);
      next := n + EraseStride(s.pending);
    } else {
      next := n;
      assert Issued(s0, Update(s, e.now, e.env)) == Issued(s0, s);
    }
  }

  lemma CommandMovesErase(s0: Ecu, s: Ecu, n: nat, env: Env)
    requires Started(s0) && At(s0, s, n) && s.Valid() && s.pending.QspiErase? && env.hwOk
    ensures var (t, next) := (QspiEraseStep(s, env), n + EraseStride(s.pending));
            next > n && At(s0, t, next) && (next == s0.pending.total ==> t.completed == Some(QspiErased(true)))
  {
    var stride := EraseStride(s.pending);
    var t := QspiEraseStep(s, env);
    EraseExtends(s0.qspi, s0.pending.start, 4096 * n, 4096 * stride);
    CommandCoverage(s0, s, n, stride, t.ops[|s.ops|], t);
  }

  lemma TickKeepsEnd(s0: Ecu, s: Ecu, n: nat, e: Event)
    requires Started(s0) && At(s0, s, n) && s.pending == Idle && e.Tick?
    ensures At(s0, Update(s, e.now, e.env), n) && Update(s, e.now, e.env).pending == Idle
    ensures Quiet(s, e) ==> Update(s, e.now, e.env).completed == s.completed
  {
    assert Issued(s0, Update(s, e.now, e.env)) == Issued(s0, s);
  }

  /** At every point of every run of background steps some prefix of the request is erased, and only that. */
  lemma {:induction false} ErasedPrefix(crc: CrcFn, s0: Ecu, s: Ecu, n: nat, events: seq<Event>) returns (m: nat)
    requires Started(s0) && At(s0, s, n) && s.Valid() && AllTicks(events)
    ensures n <= m && At(s0, Run(crc, s, events), m)
    decreases |events|
  {
    m := n;
    if events != [] {
      var e := events[0];
      StepKeepsValid(crc, s, e);
      if s.pending.QspiErase? {
        m := TickMovesErase(s0, s, n, e);
      } else {
        TickKeepsEnd(s0, s, n, e);
      }
      m := ErasedPrefix(crc, s0, Step(crc, s, e), m, events[1..]);
    }
  }

  /** Every step of the run finds working hardware and no tester timeout. */
  predicate QuietRun(crc: CrcFn, s: Ecu, events: seq<Event>)
    requires s.Valid()
    decreases |events|
  {
    events == [] || (
      Quiet(s, events[0]) &&
      (StepKeepsValid(crc, s, events[0]);
       QuietRun(crc, Step(crc, s, events[0]), events[1..])))
  }

  /**
    Undisturbed, `total - n` further background steps always suffice: each requested sector has been
    erased exactly once, no other was touched, and the success is recorded.
   */
  lemma {:induction false} EraseCompletes(crc: CrcFn, s0: Ecu, s: Ecu, n: nat, events: seq<Event>)
    requires Started(s0) && At(s0, s, n) && s.Valid() && AllTicks(events) && QuietRun(crc, s, events)
    requires s.pending.QspiErase? ==> |events| >= s0.pending.total - n
    requires !s.pending.QspiErase? ==> n == s0.pending.total && s.completed == Some(QspiErased(true))
    ensures At(s0, Run(crc, s, events), s0.pending.total)
    ensures Run(crc, s, events).completed == Some(QspiErased(true))
    decreases |events|
  {
    if events != [] {
      var e := events[0];
      StepKeepsValid(crc, s, e);
      var m := n;
      if s.pending.QspiErase? {
        m := TickMovesErase(s0, s, n, e);
      } else {
        TickKeepsEnd(s0, s, n, e);
      }
      EraseCompletes(crc, s0, Step(crc, s, e), m, events[1..]);
    }
  }

  /** The mixed erase of a freshly accepted request, stated on its memory and its commands. */
  lemma QspiEraseCoverage(crc: CrcFn, s: Ecu, events: seq<Event>)
    requires Started(s) && AllTicks(events) && QuietRun(crc, s, events) && |events| >= s.pending.total
    ensures var (t, p) := (Run(crc, s, events), s.pending);
            && t.pending == Idle && t.completed == Some(QspiErased(true))
            && t.qspi == Erase(s.qspi, p.start, 4096 * p.total) && t.nvm == s.nvm
            && forall sector :: Count(Issued(s, t), sector)
                                == if p.start / 4096 <= sector < p.start / 4096 + p.total then 1 else 0
  {
    assert Erase(s.qspi, s.pending.start, 0) == s.qspi;
    EraseCompletes(crc, s, s, 0, events);
  }

  /**
    The sector count of an accepted QSPI request is twice the block count exactly when that fits in
    16 bits, and of the counts that do not, exactly 0x8000 blocks leave none at all.
   */
  lemma RequestedSectors(s: Ecu, cmd: seq<Byte>)
    requires s.Valid() && |cmd| == 8 && StartErase(s, cmd).0.pending.QspiErase? && s.pending == Idle
    ensures var (p, blocks) := (StartErase(s, cmd).0.pending, FromLe16(cmd[6..8]));
            && p.current == 0 && p.start % 4096 == 0
            && (p.total == 2 * blocks <==> blocks < 0x8000)
            && (p.total > 0 <==> blocks != 0x8000)
  {
    var blocks := FromLe16(cmd[6..8]);
    DoubledIn16Bits(blocks);
    var start := FromLe32(cmd[2..6]);
    assert start == 4096 * (start / 4096);
    assert start - QspiFlash.Start() == 4096 * (start / 4096 - 0x4000);
  }

  lemma DoubledIn16Bits(blocks: nat)
    requires blocks < 0x1_0000
    ensures blocks * 2 % 0x1_0000 == if blocks < 0x8000 then 2 * blocks else 2 * blocks - 0x1_0000
  {
  }

  /** A request that is left with no sectors still erases its first one. */
  lemma WrappedRequestErasesOne(s: Ecu, now: nat, env: Env)
    requires s.Valid() && s.pending.QspiErase? && s.pending.total == 0
    requires env.hwOk && !TimedOut(s, now)
    ensures var t := Update(s, now, env);
            && t.pending == Idle && t.completed == Some(QspiErased(true))
            && t.ops == s.ops + [Erase4k(s.pending.start)]
            && t.qspi == Erase(s.qspi, s.pending.start, 4096)
  {
  }
}
