/**
  A sender and a receiver joined by two lossless, order-preserving frame queues: every interleaving of
  their steps delivers the payload exactly once, and none gets stuck.
 */
module IsoTpLink {
  import opened Bytes
  import opened IsoTp

  /** Both nodes, the frames under way in each direction, and what has been sent so far. */
  datatype Link = Link(
    tx: Sender, wake: Endpoint, fwd: seq<seq<Byte>>, rx: Endpoint, back: seq<seq<Byte>>,
    sent: seq<seq<Byte>>, fcSent: nat)

  /** The receiver's flow-control parameters. */
  datatype Params = Params(stmin: Byte, bs: Byte)

  datatype Move =
    | Transmit  // the sender queues its next frame
    | Arrive    // the receiver's interrupt takes a frame
    | Return    // the sender's interrupt takes a flow-control frame
    | Resume    // the waiting sender is woken by it

  predicate Enabled(l: Link, m: Move) {
    match m
    case Transmit => l.tx.state.Begin? || l.tx.state.Sending?
    case Arrive => l.fwd != []
    case Return => l.back != []
    case Resume => l.tx.state.AwaitFc? && l.wake.cts.Some?
  }

  function Apply(l: Link, m: Move, q: Params): Link
    requires l.tx.Valid() && Enabled(l, m)
  {
    match m
    case Transmit =>
      var (t, f) := SendFrame(l.tx);
      l.(tx := t, fwd := l.fwd + [f], sent := l.sent + [f])
    case Arrive =>
      var (e, reply) := OnFrame(l.rx, l.fwd[0], q.stmin, q.bs, true);
      l.(fwd := l.fwd[1..], rx := e,
         back := l.back + (if reply.Some? then [reply.value] else []),
         fcSent := l.fcSent + if reply.Some? then 1 else 0)
    case Return =>
      l.(back := l.back[1..], wake := OnFrame(l.wake, l.back[0], 0, 0, true).0)
    case Resume =>
      var (t, f) := OnCts(l.tx, l.wake.cts.value);
      l.(tx := t, wake := l.wake.(cts := None),
         fwd := l.fwd + (if f.Some? then [f.value] else []))
  }

  function Initial(payload: seq<Byte>): Link {
    Link(NewSender(payload), Endpoint(RxIdle, [], None), [], Endpoint(RxIdle, [], None), [], [], 0)
  }

  // ---------------------------------------------------------------- the invariant

  /** Bytes of the payload in the first frame and `s` consecutive frames. */
  function Reach(n: nat, s: nat): nat {
    Min(n, 6 + 7 * s)
  }

  /** `f` is the k-th consecutive frame of the payload: number k mod 16 and its slice, then padding. */
  predicate IsConsecutive(p: seq<Byte>, k: nat, f: seq<Byte>) {
    && k > 0 && |f| == 8 && 6 + 7 * (k - 1) < |p|
    && f[0] == 0x20 + k % 16
    && f[1..1 + Min(7, |p| - (6 + 7 * (k - 1)))] == p[6 + 7 * (k - 1)..Reach(|p|, k)]
  }

  predicate IsFirst(p: seq<Byte>, f: seq<Byte>) {
    && |f| == 8 && 8 <= |p| < 4096
    && f == [0x10 + |p| / 256 % 16, |p| % 256] + p[..6]
  }

  /** The frames on the wire so far: the first frame, then consecutive frames 1, 2, 3, ... */
  predicate SentInOrder(p: seq<Byte>, frames: seq<seq<Byte>>) {
    && (frames != [] ==> IsFirst(p, frames[0]))
    && forall k :: 1 <= k < |frames| ==> IsConsecutive(p, k, frames[k])
  }

  function FlowInFlight(l: Link): nat {
    |l.back| + if l.wake.cts.Some? then 1 else 0
  }

  /** Only go-aheads with the receiver's parameters travel back. */
  predicate FlowFrames(l: Link, q: Params) {
    && l.wake.mode == RxIdle && l.wake.delivered == []
    && (forall i :: 0 <= i < |l.back| ==> l.back[i] == FlowControl(q.stmin, q.bs))
    && (l.wake.cts.Some? ==> l.wake.cts.value == CtsOk(q.stmin, q.bs))
  }

  /** Sender with `s` consecutive frames sent. */
  predicate SenderAt(tx: Sender, p: seq<Byte>, s: nat) {
    && tx.Valid() && tx.payload == p && tx.pos == Reach(|p|, s)
    && !tx.state.Begin? && tx.state != Done(false)
    && (tx.state.Done? <==> 6 + 7 * s >= |p|)
    && (!tx.state.Done? ==> tx.pci == 0x20 + (s + 1) % 16)
  }

  /**
    Block-size lockstep. With block size `bs`, the receiver's count, the frames in flight and the
    sender's count always add up to `bs`; a waiting sender has the whole block in flight or received,
    and exactly one go-ahead is under way once it is received.
   */
  predicate Lockstep(state: TxState, flight: nat, flow: nat, bs: Byte, rxCount: Byte) {
    match state
    case Sending(b, left) =>
      && b == bs && flow == 0
      && (if bs == 0 then (rxCount + flight + left) % 256 == 0
          else left > 0 && rxCount + flight + left == bs)
    case AwaitFc =>
      if flight == 0 then rxCount == 0 && flow == 1
      else flow == 0 && bs != 0 && rxCount + flight == bs
    case Done(_) =>
      flight > 0 && flow == 0 && (bs != 0 ==> rxCount + flight <= bs)
    case Begin => false
  }

  /** Flow-control frames sent once the receiver has `r` consecutive frames of an unfinished payload. */
  function FlowCount(bs: Byte, r: nat): nat {
    if bs == 0 then 1 else 1 + r / bs
  }

  /** The receiver has the first frame and `r` consecutive frames, and still expects more. */
  predicate Streaming(l: Link, p: seq<Byte>, q: Params, r: nat) {
    && FlowFrames(l, q)
    && l.rx.mode.Receiving?
    && var m := l.rx.mode;
    && l.rx == Endpoint(Receiving(q.stmin, q.bs, p[..Reach(|p|, r)], m.rxCount, |p|), [], None)
    && 6 + 7 * r < |p|
    && SenderAt(l.tx, p, r + |l.fwd|)
    && |l.sent| == 1 + r + |l.fwd| && SentInOrder(p, l.sent) && l.fwd == l.sent[1 + r..]
    && Lockstep(l.tx.state, |l.fwd|, FlowInFlight(l), q.bs, m.rxCount)
    && l.fcSent == FlowCount(q.bs, r)
    && (q.bs != 0 ==> m.rxCount == r % q.bs)
  }

  /** Everything received and delivered, nothing under way. */
  predicate Finished(l: Link, p: seq<Byte>) {
    && l.tx.state == Done(true) && l.tx.Valid()
    && l.fwd == [] && l.back == [] && l.wake.cts.None?
    && l.rx == Endpoint(RxIdle, [p], None)
  }

  predicate Unstarted(l: Link, p: seq<Byte>) {
    l == Initial(p)
  }

  /** The one frame of a short payload is under way. */
  predicate SingleInFlight(l: Link, p: seq<Byte>) {
    && |p| < 8 && l.tx.state == Done(true) && l.tx.Valid() && l.back == [] && l.fcSent == 0
    && l.wake == Endpoint(RxIdle, [], None) && l.rx == Endpoint(RxIdle, [], None)
    && |l.fwd| == 1 && l.sent == l.fwd
    && |l.fwd[0]| == 8 && l.fwd[0][0] == |p| && l.fwd[0][1..1 + |p|] == p
  }

  /** The first frame of a long payload is under way. */
  predicate FirstInFlight(l: Link, p: seq<Byte>) {
    && SenderAt(l.tx, p, 0) && l.tx.state.AwaitFc? && l.back == [] && l.fcSent == 0
    && l.wake == Endpoint(RxIdle, [], None) && l.rx == Endpoint(RxIdle, [], None)
    && |l.fwd| == 1 && l.sent == l.fwd && IsFirst(p, l.fwd[0])
  }

  /** Number of consecutive frames of a payload of `n` bytes. */
  function Consecutives(n: nat): nat
    requires n >= 8
  {
    (n - 6 + 6) / 7
  }

  /** How a finished transfer went: frames in order and no flow control beyond those that were needed. */
  predicate Accounted(l: Link, p: seq<Byte>, q: Params) {
    if |p| < 8 then |l.sent| == 1 && l.fcSent == 0
    else
      && SentInOrder(p, l.sent) && |l.sent| == 1 + Consecutives(|p|)
      && l.fcSent == FlowCount(q.bs, Consecutives(|p|) - 1)
  }

  ghost predicate Invariant(l: Link, p: seq<Byte>, q: Params) {
    || Unstarted(l, p)
    || SingleInFlight(l, p)
    || FirstInFlight(l, p)
    || (exists r :: Streaming(l, p, q, r))
    || (Finished(l, p) && Accounted(l, p, q))
  }

  // ---------------------------------------------------------------- every step keeps the invariant

  lemma SendBegins(l: Link, p: seq<Byte>, q: Params)
    requires |p| < 4096 && Unstarted(l, p)
    ensures var t := Apply(l, Transmit, q); if |p| < 8 then SingleInFlight(t, p) else FirstInFlight(t, p)
  {
    var t := Apply(l, Transmit, q);
    assert t.fwd == [SendFrame(l.tx).1] && t.sent == t.fwd;
    if |p| < 8 {
      assert t.fwd[0][1..1 + |p|] == p;
    }
  }

  lemma SingleArrives(l: Link, p: seq<Byte>, q: Params)
    requires SingleInFlight(l, p)
    ensures var t := Apply(l, Arrive, q); Finished(t, p) && Accounted(t, p, q)
  {
  }

  lemma FirstArrives(l: Link, p: seq<Byte>, q: Params)
    requires FirstInFlight(l, p)
    ensures Streaming(Apply(l, Arrive, q), p, q, 0)
  {
    var n, f := |p|, l.fwd[0];
    assert f[2..8] == p[..6];
    assert n == n / 256 * 256 + n % 256 && n / 256 % 16 == n / 256;
    assert FlowCount(q.bs, 0) == 1;
  }

  /** The frame a block sender queues next is the next consecutive frame. */
  lemma NextConsecutive(tx: Sender, p: seq<Byte>, s: nat)
    requires SenderAt(tx, p, s) && tx.state.Sending?
    ensures var (t, f) := SendFrame(tx);
            && IsConsecutive(p, s + 1, f) && SenderAt(t, p, s + 1)
            && (t.state == Done(true) || (
                var left := (tx.state.left as int - 1) % 256;
                t.state == if tx.state.bs == 0 || left != 0 then Sending(tx.state.bs, left) else AwaitFc))
  {
    var (t, f) := SendFrame(tx);
    var at := 6 + 7 * s;
    var m := Min(7, |p| - at);
    assert f[1..1 + m] == p[at..at + m];
    assert (s + 1) % 16 == (0x20 + (s + 1) % 16 - 0x20);
    NextNumber(s + 1);
  }

  lemma NextNumber(k: nat)
    ensures (0x20 + k % 16 + 1) % 16 == (k + 1) % 16
  {
  }

  /** One frame more in flight, one less left to the sender. */
  lemma LockstepSend(bs: Byte, left: Byte, flight: nat, rxCount: Byte)
    requires Lockstep(Sending(bs, left), flight, 0, bs, rxCount)
    ensures var next := (left as int - 1) % 256;
            Lockstep(if bs == 0 || next != 0 then Sending(bs, next) else AwaitFc, flight + 1, 0, bs, rxCount)
    ensures Lockstep(Done(true), flight + 1, 0, bs, rxCount)
  {
  }

  lemma SentOneMore(p: seq<Byte>, sent: seq<seq<Byte>>, f: seq<Byte>)
    requires sent != [] && SentInOrder(p, sent) && IsConsecutive(p, |sent|, f)
    ensures SentInOrder(p, sent + [f])
  {
  }

  lemma TransmitStreams(l: Link, p: seq<Byte>, q: Params, r: nat)
    requires Streaming(l, p, q, r) && l.tx.state.Sending?
    ensures Streaming(Apply(l, Transmit, q), p, q, r)
  {
    var t := Apply(l, Transmit, q);
    NextConsecutive(l.tx, p, r + |l.fwd|);
    SentOneMore(p, l.sent, SendFrame(l.tx).1);
    LockstepSend(q.bs, l.tx.state.left, |l.fwd|, l.rx.mode.rxCount);
    assert t.fwd == t.sent[1 + r..];
  }

  lemma ReturnStreams(l: Link, p: seq<Byte>, q: Params, r: nat)
    requires Streaming(l, p, q, r) && l.back != []
    ensures Streaming(Apply(l, Return, q), p, q, r)
  {
  }

  lemma ResumeStreams(l: Link, p: seq<Byte>, q: Params, r: nat)
    requires Streaming(l, p, q, r) && l.tx.state.AwaitFc? && l.wake.cts.Some?
    ensures Streaming(Apply(l, Resume, q), p, q, r)
  {
    var t := Apply(l, Resume, q);
    assert t.fwd == l.fwd;
  }

  lemma NextInBlock(r: nat, bs: nat)
    requires bs > 0
    ensures r % bs + 1 < bs ==> (r + 1) % bs == r % bs + 1 && (r + 1) / bs == r / bs
    ensures r % bs + 1 == bs ==> (r + 1) % bs == 0 && (r + 1) / bs == r / bs + 1
    ensures r % bs < bs
  {
    var a, b := r / bs, r % bs;
    assert r == a * bs + b;
    if b + 1 == bs {
      assert r + 1 == (a + 1) * bs;
      DivUnique(r + 1, bs, a + 1, 0);
    } else {
      DivUnique(r + 1, bs, a, b + 1);
    }
  }

  lemma DivUnique(x: nat, d: nat, a: nat, b: nat)
    requires d > 0 && x == a * d + b && b < d
    ensures x / d == a && x % d == b
  {
    var e := x / d - a;
    assert x == (x / d) * d + x % d;
    assert e * d == b - x % d;
    if e != 0 {
      MultipleIsLarge(e, d);
    }
  }

  lemma MultipleIsLarge(e: int, d: int)
    requires d > 0 && e != 0
    ensures e * d >= d || e * d <= -d
  {
    if e > 0 {
      assert e * d >= d;
    } else {
      assert e * d <= -d;
    }
  }

  /** The receiver's answer to the next consecutive frame. */
  lemma ReceiveNext(e: Endpoint, p: seq<Byte>, q: Params, r: nat, f: seq<Byte>)
    requires IsConsecutive(p, r + 1, f) && |p| < 4096 && e.mode.Receiving?
    requires e == Endpoint(Receiving(q.stmin, q.bs, p[..Reach(|p|, r)], e.mode.rxCount, |p|), [], None)
    ensures var (t, reply) := OnFrame(e, f, q.stmin, q.bs, true);
            var count := (e.mode.rxCount as int + 1) % 256;
            if 6 + 7 * (r + 1) >= |p| then t == Endpoint(RxIdle, [p], None) && reply.None?
            else if q.bs != 0 && count == q.bs then
              && t == Endpoint(Receiving(q.stmin, q.bs, p[..Reach(|p|, r + 1)], 0, |p|), [], None)
              && reply == Some(FlowControl(q.stmin, q.bs))
            else
              && t == Endpoint(Receiving(q.stmin, q.bs, p[..Reach(|p|, r + 1)], count, |p|), [], None)
              && reply.None?
  {
    var got := p[..Reach(|p|, r)] + f[1..1 + Taken(|p|, Reach(|p|, r))];
    assert got == p[..Reach(|p|, r + 1)];
    if 6 + 7 * (r + 1) >= |p| {
      assert got == p;
    }
  }

  /** One frame less in flight, one more counted by the receiver, which answers after a full block. */
  lemma LockstepArrive(state: TxState, flight: nat, bs: Byte, rxCount: Byte, more: bool)
    requires flight > 0 && Lockstep(state, flight, 0, bs, rxCount)
    requires more ==> state.Done? ==> flight > 1
    ensures var count := (rxCount as int + 1) % 256;
            more ==> (
              if bs != 0 && count == bs then !state.Done? && !state.Sending? && Lockstep(state, flight - 1, 1, bs, 0)
              else Lockstep(state, flight - 1, 0, bs, count))
    ensures bs != 0 ==> rxCount < bs
  {
  }

  /** The block counter and the number of go-aheads after one more consecutive frame. */
  lemma CountsAdvance(r: nat, bs: Byte, rxCount: Byte)
    requires bs != 0 ==> rxCount == r % bs
    ensures var count := (rxCount as int + 1) % 256;
            if bs != 0 && count == bs then FlowCount(bs, r + 1) == FlowCount(bs, r) + 1 && (r + 1) % bs == 0
            else FlowCount(bs, r + 1) == FlowCount(bs, r) && (bs != 0 ==> (r + 1) % bs == count)
  {
    if bs != 0 {
      NextInBlock(r, bs);
    }
  }

  /** The receiver takes the next consecutive frame, and more are to come in the block. */
  lemma ArriveInBlock(l: Link, p: seq<Byte>, q: Params, r: nat)
    requires Streaming(l, p, q, r) && l.fwd != [] && 6 + 7 * (r + 1) < |p|
    requires q.bs == 0 || (l.rx.mode.rxCount as int + 1) % 256 != q.bs
    ensures Streaming(Apply(l, Arrive, q), p, q, r + 1)
  {
    var t := Apply(l, Arrive, q);
    ReceiveNext(l.rx, p, q, r, l.fwd[0]);
    assert t.fwd == t.sent[2 + r..];
    LockstepArrive(l.tx.state, |l.fwd|, q.bs, l.rx.mode.rxCount, true);
    CountsAdvance(r, q.bs, l.rx.mode.rxCount);
  }

  /** The receiver takes the last consecutive frame of a block, and more are to come. */
  lemma ArriveAtBlockEnd(l: Link, p: seq<Byte>, q: Params, r: nat)
    requires Streaming(l, p, q, r) && l.fwd != [] && 6 + 7 * (r + 1) < |p|
    requires q.bs != 0 && (l.rx.mode.rxCount as int + 1) % 256 == q.bs
    ensures Streaming(Apply(l, Arrive, q), p, q, r + 1)
  {
    var t := Apply(l, Arrive, q);
    ReceiveNext(l.rx, p, q, r, l.fwd[0]);
    assert t.fwd == t.sent[2 + r..];
    LockstepArrive(l.tx.state, |l.fwd|, q.bs, l.rx.mode.rxCount, true);
    CountsAdvance(r, q.bs, l.rx.mode.rxCount);
  }

  lemma ArriveStreams(l: Link, p: seq<Byte>, q: Params, r: nat)
    requires Streaming(l, p, q, r) && l.fwd != [] && 6 + 7 * (r + 1) < |p|
    ensures Streaming(Apply(l, Arrive, q), p, q, r + 1)
  {
    if q.bs != 0 && (l.rx.mode.rxCount as int + 1) % 256 == q.bs {
      ArriveAtBlockEnd(l, p, q, r);
    } else {
      ArriveInBlock(l, p, q, r);
    }
  }

  /** The receiver takes the last consecutive frame. */
  lemma ArriveFinishes(l: Link, p: seq<Byte>, q: Params, r: nat)
    requires Streaming(l, p, q, r) && l.fwd != [] && 6 + 7 * (r + 1) >= |p|
    ensures var t := Apply(l, Arrive, q); Finished(t, p) && Accounted(t, p, q)
  {
    var k := |l.fwd|;
    assert l.fwd[0] == l.sent[1 + r];
    ReceiveNext(l.rx, p, q, r, l.fwd[0]);
    assert IsConsecutive(p, r + k, l.sent[r + k]);
    assert k == 1 && Consecutives(|p|) == r + 1;
  }

  /** Every enabled step keeps the invariant. */
  lemma StepKeepsInvariant(l: Link, p: seq<Byte>, q: Params, m: Move)
    requires |p| < 4096 && Invariant(l, p, q) && l.tx.Valid() && Enabled(l, m)
    ensures Invariant(Apply(l, m, q), p, q) && Apply(l, m, q).tx.Valid()
  {
    if Unstarted(l, p) {
      SendBegins(l, p, q);
    } else if SingleInFlight(l, p) {
      SingleArrives(l, p, q);
    } else if FirstInFlight(l, p) {
      FirstArrives(l, p, q);
    } else if r: nat :| Streaming(l, p, q, r) {
      match m
      case Transmit => TransmitStreams(l, p, q, r);
      case Return => ReturnStreams(l, p, q, r);
      case Resume => ResumeStreams(l, p, q, r);
      case Arrive =>
        if 6 + 7 * (r + 1) < |p| {
          ArriveStreams(l, p, q, r);
        } else {
          ArriveFinishes(l, p, q, r);
        }
    }
  }

  /** While the transfer is not finished some step is enabled. */
  lemma NeverStuck(l: Link, p: seq<Byte>, q: Params)
    requires Invariant(l, p, q) && !Finished(l, p)
    ensures exists m :: Enabled(l, m)
  {
    if l.fwd != [] {
      assert Enabled(l, Arrive);
    } else if l.back != [] {
      assert Enabled(l, Return);
    } else if Enabled(l, Transmit) {
    } else {
      assert Enabled(l, Resume);
    }
  }

  // ---------------------------------------------------------------- termination

  /** Frames the sender still has to queue. */
  function Unsent(tx: Sender): nat
    requires tx.Valid()
  {
    var n := |tx.payload|;
    match tx.state
    case Begin => if n < 8 then 1 else 1 + Consecutives(n)
    case Done(_) => 0
    case _ => (n - tx.pos + 6) / 7
  }

  /** Each frame and each go-ahead has only so many hops left. */
  function Measure(l: Link): nat
    requires l.tx.Valid()
  {
    5 * Unsent(l.tx) + 4 * |l.fwd| + 2 * |l.back| + if l.wake.cts.Some? then 1 else 0
  }

  lemma SendLowersUnsent(tx: Sender)
    requires tx.Valid() && (tx.state.Begin? || tx.state.Sending?)
    ensures Unsent(SendFrame(tx).0) <= Unsent(tx) - 1
  {
    if tx.state.Sending? {
      var left := |tx.payload| - tx.pos;
      if left > 7 {
        assert (left - 7 + 6) / 7 == (left + 6) / 7 - 1;
      }
    }
  }

  lemma TransmitLowers(l: Link, q: Params)
    requires l.tx.Valid() && Enabled(l, Transmit)
    ensures Measure(Apply(l, Transmit, q)) < Measure(l)
  {
    SendLowersUnsent(l.tx);
  }

  lemma ArriveLowers(l: Link, q: Params)
    requires l.tx.Valid() && Enabled(l, Arrive)
    ensures Measure(Apply(l, Arrive, q)) < Measure(l)
  {
    ArriveIsOneReply(l, q);
  }

  lemma ReturnLowers(l: Link, p: seq<Byte>, q: Params)
    requires Invariant(l, p, q) && l.tx.Valid() && Enabled(l, Return)
    ensures Measure(Apply(l, Return, q)) < Measure(l)
  {
    if r: nat :| Streaming(l, p, q, r) {
      assert l.back[0] == FlowControl(q.stmin, q.bs) && |l.back| == 1;
    }
  }

  lemma ResumeLowers(l: Link, p: seq<Byte>, q: Params)
    requires Invariant(l, p, q) && l.tx.Valid() && Enabled(l, Resume)
    ensures Measure(Apply(l, Resume, q)) < Measure(l)
  {
    if r: nat :| Streaming(l, p, q, r) {
      assert l.wake.cts == Some(CtsOk(q.stmin, q.bs));
    }
  }

  /** Every step brings the transfer closer to its end. */
  lemma StepLowersMeasure(l: Link, p: seq<Byte>, q: Params, m: Move)
    requires |p| < 4096 && Invariant(l, p, q) && l.tx.Valid() && Enabled(l, m)
    ensures Apply(l, m, q).tx.Valid() && Measure(Apply(l, m, q)) < Measure(l)
  {
    StepKeepsInvariant(l, p, q, m);
    match m
    case Transmit => TransmitLowers(l, q);
    case Arrive => ArriveLowers(l, q);
    case Return => ReturnLowers(l, p, q);
    case Resume => ResumeLowers(l, p, q);
  }

  lemma ArriveIsOneReply(l: Link, q: Params)
    requires l.tx.Valid() && l.fwd != []
    ensures var t := Apply(l, Arrive, q);
            t.tx == l.tx && t.wake == l.wake && |t.fwd| == |l.fwd| - 1 && |t.back| <= |l.back| + 1
  {
  }

  // ---------------------------------------------------------------- whole runs

  /** A run is a list of steps, each enabled when its turn comes. */
  predicate IsRun(l: Link, q: Params, moves: seq<Move>)
    requires l.tx.Valid()
    decreases |moves|
  {
    moves == [] || (
      && Enabled(l, moves[0])
      && Apply(l, moves[0], q).tx.Valid()
      && IsRun(Apply(l, moves[0], q), q, moves[1..]))
  }

  function After(l: Link, q: Params, moves: seq<Move>): (t: Link)
    requires l.tx.Valid() && IsRun(l, q, moves)
    ensures t.tx.Valid()
    decreases |moves|
  {
    if moves == [] then l else After(Apply(l, moves[0], q), q, moves[1..])
  }

  lemma {:induction false} RunKeepsInvariant(l: Link, p: seq<Byte>, q: Params, moves: seq<Move>)
    requires |p| < 4096 && Invariant(l, p, q) && l.tx.Valid() && IsRun(l, q, moves)
    ensures Invariant(After(l, q, moves), p, q)
    ensures |moves| + Measure(After(l, q, moves)) <= Measure(l)
    decreases |moves|
  {
    if moves != [] {
      StepKeepsInvariant(l, p, q, moves[0]);
      StepLowersMeasure(l, p, q, moves[0]);
      RunKeepsInvariant(Apply(l, moves[0], q), p, q, moves[1..]);
    }
  }

  /**
    For every payload of 0 to 4095 bytes, every block size and every interleaving: a run has boundedly
    many steps; as long as it has not finished it can go on; nothing is delivered early; and once it
    cannot go on the payload has been delivered exactly once, in frames numbered 1, 2, 3, ... modulo 16,
    with exactly the flow control the blocks needed.
   */
  lemma TransferIsReliable(p: seq<Byte>, q: Params, moves: seq<Move>)
    requires |p| < 4096 && IsRun(Initial(p), q, moves)
    ensures var l := After(Initial(p), q, moves);
            && |moves| <= Measure(Initial(p))
            && (l.rx.delivered == [] || l.rx.delivered == [p])
            && ((exists m :: Enabled(l, m)) <==> !Finished(l, p))
            && (Finished(l, p) ==> Accounted(l, p, q))
  {
    RunKeepsInvariant(Initial(p), p, q, moves);
    var l := After(Initial(p), q, moves);
    if !Finished(l, p) {
      NeverStuck(l, p, q);
    }
  }

  /** Payload bytes in frame number `k` of a payload of `n` bytes. */
  function FrameBytes(n: nat, k: nat): nat {
    if n < 8 then n else if k == 0 then Reach(n, 0) else Reach(n, k) - Reach(n, k - 1)
  }

  /** Payload bytes in `k` frames from number `first` on. */
  function FlightBytes(n: nat, first: nat, k: nat): nat {
    if k == 0 then 0 else FlightBytes(n, first, k - 1) + FrameBytes(n, first + k - 1)
  }

  lemma {:induction false} FlightSum(n: nat, r: nat, k: nat)
    requires n >= 8
    ensures FlightBytes(n, r + 1, k) == Reach(n, r + k) - Reach(n, r)
  {
    if k > 0 {
      FlightSum(n, r, k - 1);
    }
  }

  /** Payload bytes the sender has sent. */
  function BytesSent(tx: Sender, p: seq<Byte>): nat {
    if tx.state.Done? then |p| else tx.pos
  }

  /** Payload bytes the receiver holds or has handed over. */
  function BytesHeld(rx: Endpoint): nat {
    if rx.mode.Receiving? then |rx.mode.data| else if rx.delivered != [] then |rx.delivered[0]| else 0
  }

  /** Both nodes agree: what is sent is what is held plus what is under way, and at most one answer is. */
  predicate Agreed(l: Link, p: seq<Byte>) {
    && |l.fwd| <= |l.sent|
    && var next := |l.sent| - |l.fwd|;
    && l.fwd == l.sent[next..]
    && BytesSent(l.tx, p) == BytesHeld(l.rx) + FlightBytes(|p|, next, |l.fwd|)
    && (forall i :: 0 <= i < |l.fwd| && next + i > 0 ==> |l.fwd[i]| == 8 && l.fwd[i][0] == 0x20 + (next + i) % 16)
    && FlowInFlight(l) <= 1
  }

  lemma StreamingAgrees(l: Link, p: seq<Byte>, q: Params, r: nat)
    requires Streaming(l, p, q, r)
    ensures Agreed(l, p)
  {
    assert IsFirst(p, l.sent[0]);
    FlightSum(|p|, r, |l.fwd|);
    forall i | 0 <= i < |l.fwd| ensures |l.fwd[i]| == 8 && l.fwd[i][0] == 0x20 + (r + 1 + i) % 16 {
      assert IsConsecutive(p, r + 1 + i, l.sent[r + 1 + i]);
    }
  }

  /** The one frame under way is the first. */
  lemma FirstFrameAgrees(l: Link, p: seq<Byte>)
    requires SingleInFlight(l, p) || FirstInFlight(l, p)
    ensures Agreed(l, p)
  {
    assert l.sent[0..] == l.sent;
    assert FlightBytes(|p|, 0, 1) == FlightBytes(|p|, 0, 0) + FrameBytes(|p|, 0);
  }

  /** Nothing is under way. */
  lemma RestAgrees(l: Link, p: seq<Byte>)
    requires l.fwd == [] && BytesSent(l.tx, p) == BytesHeld(l.rx) && FlowInFlight(l) == 0
    ensures Agreed(l, p)
  {
    assert l.sent[|l.sent|..] == [];
  }

  lemma UnstartedAgrees(l: Link, p: seq<Byte>)
    requires Unstarted(l, p)
    ensures Agreed(l, p)
  {
    RestAgrees(l, p);
  }

  lemma FinishedAgrees(l: Link, p: seq<Byte>)
    requires Finished(l, p)
    ensures Agreed(l, p)
  {
    RestAgrees(l, p);
  }

  lemma InvariantAgrees(l: Link, p: seq<Byte>, q: Params)
    requires Invariant(l, p, q)
    ensures Agreed(l, p)
  {
    if SingleInFlight(l, p) || FirstInFlight(l, p) {
      FirstFrameAgrees(l, p);
    } else if r: nat :| Streaming(l, p, q, r) {
      StreamingAgrees(l, p, q, r);
    } else if Unstarted(l, p) {
      UnstartedAgrees(l, p);
    } else {
      FinishedAgrees(l, p);
    }
  }

  /** In every state that any run reaches, both nodes agree. */
  lemma PositionsAgree(p: seq<Byte>, q: Params, moves: seq<Move>)
    requires |p| < 4096 && IsRun(Initial(p), q, moves)
    ensures Agreed(After(Initial(p), q, moves), p)
  {
    RunKeepsInvariant(Initial(p), p, q, moves);
    InvariantAgrees(After(Initial(p), q, moves), p, q);
  }
}
