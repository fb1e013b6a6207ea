/**
  The ISO-TP receiver on any frames at all, with its transmitter free or busy at each of them: when its
  buffer overruns, and when the payload it delivers is the one that was sent.
 */
module IsoTpReceiver {
  import opened Bytes
  import opened IsoTp
  import opened IsoTpLink

  /** A frame, and whether a flow-control frame can be sent when it arrives. */
  datatype Arrival = Arrival(frame: seq<Byte>, txFree: bool)

  function Feed(e: Endpoint, arrivals: seq<Arrival>, stmin: Byte, bs: Byte): Endpoint
    decreases |arrivals|
  {
    if arrivals == [] then e
    else Feed(OnFrame(e, arrivals[0].frame, stmin, bs, arrivals[0].txFree).0, arrivals[1..], stmin, bs)
  }

  predicate IsFirstFrame(f: seq<Byte>) {
    |f| == 8 && 0x10 <= f[0] <= 0x1F
  }

  predicate AllConsecutive(arrivals: seq<Arrival>) {
    forall i :: 0 <= i < |arrivals| ==> |arrivals[i].frame| == 8 && 0x20 <= arrivals[i].frame[0] <= 0x2F
  }

  // ---------------------------------------------------------------- the buffer

  /** The reassembled bytes do not exceed the declared length, which fits the buffer. */
  predicate WithinTarget(e: Endpoint) {
    !e.mode.Crashed? && (e.mode.Receiving? ==> |e.mode.data| <= e.mode.target < BUF_LEN)
  }

  /** A first frame declares at least the six bytes it carries itself. */
  predicate HonestFirst(f: seq<Byte>) {
    IsFirstFrame(f) ==> f[0] as int % 16 * 256 + f[1] as int >= 6
  }

  predicate AllHonest(arrivals: seq<Arrival>) {
    forall i :: 0 <= i < |arrivals| ==> HonestFirst(arrivals[i].frame)
  }

  /** However frames are lost, repeated or out of order: honest first frames never overrun the buffer. */
  lemma {:induction false} HonestFramesStayInBuffer(e: Endpoint, arrivals: seq<Arrival>, stmin: Byte, bs: Byte)
    requires WithinTarget(e) && AllHonest(arrivals)
    ensures WithinTarget(Feed(e, arrivals, stmin, bs))
    decreases |arrivals|
  {
    if arrivals != [] {
      var next := OnFrame(e, arrivals[0].frame, stmin, bs, arrivals[0].txFree).0;
      HonestFramesStayInBuffer(next, arrivals[1..], stmin, bs);
    }
  }

  const PLAIN := Arrival([0x20, 0, 0, 0, 0, 0, 0, 0], true)

  function Plain(k: nat): (arrivals: seq<Arrival>)
    ensures |arrivals| == k && AllConsecutive(arrivals)
  {
    if k == 0 then [] else [PLAIN] + Plain(k - 1)
  }

  lemma {:induction false} StaysCrashed(e: Endpoint, arrivals: seq<Arrival>, stmin: Byte, bs: Byte)
    requires e.mode.Crashed?
    ensures Feed(e, arrivals, stmin, bs).mode.Crashed?
    decreases |arrivals|
  {
    if arrivals != [] {
      StaysCrashed(OnFrame(e, arrivals[0].frame, stmin, bs, arrivals[0].txFree).0, arrivals[1..], stmin, bs);
    }
  }

  /** A receiver that has more than was declared takes seven bytes of every frame until none fit any more. */
  lemma {:induction false} PastTargetOverruns(e: Endpoint, k: nat, stmin: Byte, bs: Byte)
    requires e.mode.Receiving? && e.mode.target < |e.mode.data| <= BUF_LEN < |e.mode.data| + 7 * k
    ensures Feed(e, Plain(k), stmin, bs).mode.Crashed?
    decreases k
  {
    var next := OnFrame(e, PLAIN.frame, stmin, bs, true).0;
    assert Plain(k)[0] == PLAIN && Plain(k)[1..] == Plain(k - 1);
    if |e.mode.data| + 7 > BUF_LEN {
      StaysCrashed(next, Plain(k - 1), stmin, bs);
    } else {
      PastTargetOverruns(next, k - 1, stmin, bs);
    }
  }

  /** Some consecutive frames overrun the buffer of this receiver. */
  ghost predicate CanOverrun(e: Endpoint, stmin: Byte, bs: Byte) {
    exists fs :: AllConsecutive(fs) && Feed(e, fs, stmin, bs).mode.Crashed?
  }

  /**
    After a first frame that finds the transmitter free some consecutive frames overrun the buffer exactly
    when it was dishonest; one that finds it busy has no effect.
   */
  lemma FirstFrameOverrunsIff(e: Endpoint, first: Arrival, stmin: Byte, bs: Byte)
    requires !e.mode.Crashed? && IsFirstFrame(first.frame)
    ensures var next := OnFrame(e, first.frame, stmin, bs, first.txFree).0;
            CanOverrun(next, stmin, bs)
            <==> if first.txFree then !HonestFirst(first.frame) else CanOverrun(e, stmin, bs)
    ensures WithinTarget(e) ==> !CanOverrun(e, stmin, bs)
  {
    if WithinTarget(e) {
      WithinNeverOverruns(e, stmin, bs);
    }
    var next := OnFrame(e, first.frame, stmin, bs, first.txFree).0;
    if first.txFree && HonestFirst(first.frame) {
      WithinNeverOverruns(next, stmin, bs);
    } else if first.txFree {
      PastTargetOverruns(next, 585, stmin, bs);
      assert AllConsecutive(Plain(585));
    }
  }

  lemma WithinNeverOverruns(e: Endpoint, stmin: Byte, bs: Byte)
    requires WithinTarget(e)
    ensures !CanOverrun(e, stmin, bs)
  {
    forall fs | AllConsecutive(fs) ensures !Feed(e, fs, stmin, bs).mode.Crashed? {
      HonestFramesStayInBuffer(e, fs, stmin, bs);
    }
  }

  // ---------------------------------------------------------------- frame numbers

  /** The receiver does the same with a consecutive frame whatever number it carries. */
  lemma NumberIsIgnored(e: Endpoint, f: seq<Byte>, k: nat, stmin: Byte, bs: Byte, txFree: bool)
    requires |f| == 8 && 0x20 <= f[0] <= 0x2F && k < 16
    ensures OnFrame(e, f[0 := 0x20 + k], stmin, bs, txFree) == OnFrame(e, f, stmin, bs, txFree)
  {
    var n := if e.mode.Receiving? then Taken(e.mode.target, |e.mode.data|) else 0;
    assert f[0 := 0x20 + k][1..1 + n] == f[1..1 + n];
  }

  // ---------------------------------------------------------------- what is delivered

  /** What the bytes of the frames add up to behind `got`, as far as `n` bytes go. */
  function Gathered(got: seq<Byte>, n: nat, fs: seq<Arrival>): (p: seq<Byte>)
    requires |got| <= n && AllConsecutive(fs)
    ensures |p| == Min(n, |got| + 7 * |fs|)
    decreases |fs|
  {
    if fs == [] || |got| == n then got
    else Gathered(got + fs[0].frame[1..1 + Min(7, n - |got|)], n, fs[1..])
  }

  /** Frame number `k` from now on fills a block that has `count` frames already. */
  predicate BlockEnd(bs: Byte, count: Byte, k: nat) {
    bs != 0 && (count + k + 1) % bs == 0
  }

  /** The transmitter is free at every block end that comes before the last of the `n` bytes. */
  predicate Answered(bs: Byte, count: Byte, at: nat, n: nat, fs: seq<Arrival>) {
    forall k :: 0 <= k < |fs| && at + 7 * (k + 1) < n && BlockEnd(bs, count, k) ==> fs[k].txFree
  }

  /** The block count after one more frame. */
  function CountUp(bs: Byte, count: Byte): Byte {
    if bs != 0 && count + 1 == bs then 0 else (count as int + 1) % 256
  }

  predicate InBlock(bs: Byte, count: Byte) {
    bs != 0 ==> count < bs
  }

  lemma CountsUp(bs: Byte, count: Byte)
    requires InBlock(bs, count)
    ensures InBlock(bs, CountUp(bs, count))
    ensures bs != 0 ==> CountUp(bs, count) == if count + 1 == bs then 0 else count + 1
  {
  }

  lemma BlockEndShifts(bs: Byte, count: Byte, k: nat)
    requires InBlock(bs, count)
    ensures BlockEnd(bs, CountUp(bs, count), k) <==> BlockEnd(bs, count, k + 1)
  {
    CountsUp(bs, count);
    if bs != 0 {
      var x, y := CountUp(bs, count) + k + 1, count + (k + 1) + 1;
      if count + 1 == bs {
        assert y == bs + x;
        Wraps(x, bs);
      } else {
        assert x == y;
      }
    }
  }

  lemma BlockEndsNow(bs: Byte, count: Byte)
    requires InBlock(bs, count)
    ensures BlockEnd(bs, count, 0) <==> bs != 0 && count + 1 == bs
  {
    if bs != 0 {
      if count + 1 == bs {
        DivUnique(count + 1, bs, 1, 0);
      } else {
        DivUnique(count + 1, bs, 0, count + 1);
      }
    }
  }

  lemma Wraps(x: nat, d: nat)
    requires d > 0
    ensures (d + x) % d == x % d
  {
    var a, b := x / d, x % d;
    assert x == a * d + b && (a + 1) * d == a * d + d;
    DivUnique(d + x, d, a + 1, b);
  }

  lemma AnsweredShifts(bs: Byte, count: Byte, at: nat, n: nat, fs: seq<Arrival>)
    requires InBlock(bs, count) && fs != [] && at + 7 < n
    ensures Answered(bs, count, at, n, fs) <==>
              (BlockEnd(bs, count, 0) ==> fs[0].txFree) && Answered(bs, CountUp(bs, count), at + 7, n, fs[1..])
  {
    forall k: nat ensures BlockEnd(bs, CountUp(bs, count), k) <==> BlockEnd(bs, count, k + 1) {
      BlockEndShifts(bs, count, k);
    }
    if Answered(bs, count, at, n, fs) {
      forall k | 0 <= k < |fs[1..]| && at + 7 + 7 * (k + 1) < n && BlockEnd(bs, CountUp(bs, count), k)
        ensures fs[1..][k].txFree
      {
        assert BlockEnd(bs, count, k + 1) && fs[1..][k] == fs[k + 1];
      }
    }
    if (BlockEnd(bs, count, 0) ==> fs[0].txFree) && Answered(bs, CountUp(bs, count), at + 7, n, fs[1..]) {
      forall k | 0 <= k < |fs| && at + 7 * (k + 1) < n && BlockEnd(bs, count, k) ensures fs[k].txFree {
        if k > 0 {
          assert BlockEnd(bs, CountUp(bs, count), k - 1) && fs[1..][k - 1] == fs[k];
        }
      }
    }
  }

  lemma {:induction false} IdleIgnores(e: Endpoint, fs: seq<Arrival>, stmin: Byte, bs: Byte)
    requires e.mode == RxIdle && AllConsecutive(fs)
    ensures Feed(e, fs, stmin, bs) == e
    decreases |fs|
  {
    if fs != [] {
      IdleIgnores(e, fs[1..], stmin, bs);
    }
  }

  predicate Reassembling(e: Endpoint) {
    && e.mode.Receiving? && |e.mode.data| < e.mode.target < BUF_LEN
    && InBlock(e.mode.bs, e.mode.rxCount)
  }

  /** One consecutive frame of a reassembly that is not the last. */
  lemma FrameGathered(e: Endpoint, f: Arrival, stmin: Byte, bs: Byte)
    requires Reassembling(e) && |f.frame| == 8 && 0x20 <= f.frame[0] <= 0x2F && |e.mode.data| + 7 < e.mode.target
    ensures var m := e.mode;
            OnFrame(e, f.frame, stmin, bs, f.txFree).0
            == if BlockEnd(m.bs, m.rxCount, 0) && !f.txFree then e.(mode := RxIdle)
               else e.(mode := m.(data := m.data + f.frame[1..8], rxCount := CountUp(m.bs, m.rxCount)))
  {
    BlockEndsNow(e.mode.bs, e.mode.rxCount);
  }

  /**
    The receiver hands over what it gathers, whatever the frames are, once it has the declared length and if
    it could answer at every block end; a busy transmitter at one of them loses the rest.
   */
  lemma {:induction false} FeedGathers(e: Endpoint, fs: seq<Arrival>, stmin: Byte, bs: Byte)
    requires Reassembling(e) && AllConsecutive(fs)
    ensures var m := e.mode;
            Feed(e, fs, stmin, bs).delivered ==
              if |m.data| + 7 * |fs| >= m.target && Answered(m.bs, m.rxCount, |m.data|, m.target, fs)
              then e.delivered + [Gathered(m.data, m.target, fs)] else e.delivered
    decreases |fs|
  {
    if fs != [] {
      var m, next := e.mode, OnFrame(e, fs[0].frame, stmin, bs, fs[0].txFree).0;
      if |m.data| + 7 >= m.target {
        IdleIgnores(next, fs[1..], stmin, bs);
      } else {
        FrameGathered(e, fs[0], stmin, bs);
        AnsweredShifts(m.bs, m.rxCount, |m.data|, m.target, fs);
        if BlockEnd(m.bs, m.rxCount, 0) && !fs[0].txFree {
          IdleIgnores(next, fs[1..], stmin, bs);
        } else {
          CountsUp(m.bs, m.rxCount);
          FeedGathers(next, fs[1..], stmin, bs);
        }
      }
    }
  }

  /** The k-th frame carries the slice of the payload that is due there, behind its first `at` bytes. */
  predicate CarriesSlice(p: seq<Byte>, at: nat, f: seq<Byte>, k: nat)
    requires |f| == 8 && at + 7 * k < |p|
  {
    f[1..1 + Min(7, |p| - at - 7 * k)] == p[at + 7 * k..Min(|p|, at + 7 * k + 7)]
  }

  predicate SlicesInOrder(p: seq<Byte>, at: nat, fs: seq<Arrival>)
    requires AllConsecutive(fs)
  {
    forall k :: 0 <= k < |fs| && at + 7 * k < |p| ==> CarriesSlice(p, at, fs[k].frame, k)
  }

  lemma SlicesShift(p: seq<Byte>, at: nat, fs: seq<Arrival>)
    requires AllConsecutive(fs) && fs != [] && at < |p|
    ensures SlicesInOrder(p, at, fs) <==> CarriesSlice(p, at, fs[0].frame, 0) && SlicesInOrder(p, at + 7, fs[1..])
  {
    forall k | 0 <= k < |fs| - 1 && at + 7 + 7 * k < |p|
      ensures CarriesSlice(p, at + 7, fs[1..][k].frame, k) <==> CarriesSlice(p, at, fs[k + 1].frame, k + 1)
    {
      assert at + 7 + 7 * k == at + 7 * (k + 1);
    }
    if SlicesInOrder(p, at, fs) {
      assert CarriesSlice(p, at, fs[0].frame, 0);
      forall k | 0 <= k < |fs[1..]| && at + 7 + 7 * k < |p| ensures CarriesSlice(p, at + 7, fs[1..][k].frame, k) {
        assert CarriesSlice(p, at, fs[k + 1].frame, k + 1);
      }
    }
    if CarriesSlice(p, at, fs[0].frame, 0) && SlicesInOrder(p, at + 7, fs[1..]) {
      forall k | 0 <= k < |fs| && at + 7 * k < |p| ensures CarriesSlice(p, at, fs[k].frame, k) {
        if k > 0 {
          assert CarriesSlice(p, at + 7, fs[1..][k - 1].frame, k - 1);
        }
      }
    }
  }

  lemma PrefixGrows(p: seq<Byte>, got: seq<Byte>, f: seq<Byte>)
    requires |got| < |p| && |f| == 8
    ensures var more := got + f[1..1 + Min(7, |p| - |got|)];
            |more| <= |p| && (more == p[..|more|] <==> got == p[..|got|] && CarriesSlice(p, |got|, f, 0))
  {
    var m := Min(7, |p| - |got|);
    var more := got + f[1..1 + m];
    assert p[..|more|] == p[..|got|] + p[|got|..|more|];
    assert more[..|got|] == got && more[|got|..] == f[1..1 + m];
    assert p[..|more|][..|got|] == p[..|got|] && p[..|more|][|got|..] == p[|got|..|more|];
  }

  /** The payload is gathered exactly from enough frames that carry its slices in order. */
  lemma {:induction false} GathersIff(p: seq<Byte>, got: seq<Byte>, fs: seq<Arrival>)
    requires |got| <= |p| && AllConsecutive(fs)
    ensures Gathered(got, |p|, fs) == p
            <==> got == p[..|got|] && |got| + 7 * |fs| >= |p| && SlicesInOrder(p, |got|, fs)
    decreases |fs|
  {
    if |got| == |p| {
      assert p[..|p|] == p;
    } else if fs != [] {
      var more := got + fs[0].frame[1..1 + Min(7, |p| - |got|)];
      PrefixGrows(p, got, fs[0].frame);
      SlicesShift(p, |got|, fs);
      GathersIff(p, more, fs[1..]);
      if |more| == |p| {
        assert SlicesInOrder(p, |got| + 7, fs[1..]);
      }
    }
  }

  /** The first frame finds the transmitter free, and so does every block end before the last byte. */
  predicate AllAnswered(first: Arrival, n: nat, fs: seq<Arrival>, bs: Byte) {
    first.txFree && Answered(bs, 0, 6, n, fs)
  }

  /**
    The first frame of a payload and then consecutive frames, to a receiver that is idle or whose transmitter
    is free for the first. It delivers that payload, once and nothing else, exactly when its transmitter is
    free whenever it has to answer before the last byte, enough frames arrive, and their slices, in order of
    arrival, are the payload's; their numbers have no part in it. With other slices it delivers another
    payload of the same length, and otherwise nothing. A first frame that finds the transmitter busy has no
    effect at all.
   */
  lemma DeliversIff(e: Endpoint, p: seq<Byte>, first: Arrival, fs: seq<Arrival>, stmin: Byte, bs: Byte)
    requires !e.mode.Crashed? && IsFirst(p, first.frame) && AllConsecutive(fs)
    ensures var delivered := Feed(e, [first] + fs, stmin, bs).delivered;
            first.txFree || e.mode.RxIdle? ==>
              && (delivered == e.delivered + [p] <==>
                    AllAnswered(first, |p|, fs, bs) && 6 + 7 * |fs| >= |p| && SlicesInOrder(p, 6, fs))
              && delivered == (if AllAnswered(first, |p|, fs, bs) && 6 + 7 * |fs| >= |p|
                               then e.delivered + [Gathered(p[..6], |p|, fs)] else e.delivered)
    ensures !first.txFree ==> Feed(e, [first] + fs, stmin, bs) == Feed(e, fs, stmin, bs)
  {
    var next := OnFrame(e, first.frame, stmin, bs, first.txFree).0;
    DeclaredLength(p, first.frame);
    assert ([first] + fs)[1..] == fs;
    var q := Gathered(p[..6], |p|, fs);
    OneMore(e.delivered, p, q);
    if first.txFree {
      FeedGathers(next, fs, stmin, bs);
      GathersIff(p, p[..6], fs);
    } else if e.mode.RxIdle? {
      IdleIgnores(next, fs, stmin, bs);
    }
  }

  lemma OneMore(delivered: seq<seq<Byte>>, p: seq<Byte>, q: seq<Byte>)
    ensures delivered != delivered + [p]
    ensures delivered + [q] == delivered + [p] <==> q == p
  {
    assert |delivered + [p]| == |delivered| + 1;
    assert (delivered + [q])[|delivered|] == q && (delivered + [p])[|delivered|] == p;
  }

  lemma DeclaredLength(p: seq<Byte>, first: seq<Byte>)
    requires IsFirst(p, first)
    ensures IsFirstFrame(first) && first[2..8] == p[..6]
    ensures first[0] as int % 16 * 256 + first[1] as int == |p|
  {
    var n := |p|;
    assert n == n / 256 * 256 + n % 256 && n / 256 % 16 == n / 256;
  }

  /**
    Two consecutive frames that change places on the way: the receiver delivers the right payload only when
    both slices happen to be equal, and the answer between them, if one is due, can be given.
   */
  lemma SwappedFrames(
      e: Endpoint, p: seq<Byte>, first: Arrival, f1: seq<Byte>, f2: seq<Byte>, free1: bool, free2: bool,
      stmin: Byte, bs: Byte)
    requires !e.mode.Crashed? && |p| == 20 && first.txFree
    requires IsFirst(p, first.frame) && IsConsecutive(p, 1, f1) && IsConsecutive(p, 2, f2)
    ensures Feed(e, [first, Arrival(f2, free2), Arrival(f1, free1)], stmin, bs).delivered == e.delivered + [p]
            <==> p[6..13] == p[13..20] && (bs == 1 ==> free2)
  {
    var fs := [Arrival(f2, free2), Arrival(f1, free1)];
    assert [first] + fs == [first, Arrival(f2, free2), Arrival(f1, free1)];
    DeliversIff(e, p, first, fs, stmin, bs);
    OneBlockEnd(bs, fs);
    assert f1[1..8] == p[6..13] && f2[1..8] == p[13..20];
    assert SlicesInOrder(p, 6, fs) <==> CarriesSlice(p, 6, fs[0].frame, 0) && CarriesSlice(p, 6, fs[1].frame, 1);
  }

  /** With two consecutive frames only the first can end a block before the last byte. */
  lemma OneBlockEnd(bs: Byte, fs: seq<Arrival>)
    requires |fs| == 2
    ensures Answered(bs, 0, 6, 20, fs) <==> (bs == 1 ==> fs[0].txFree)
  {
    CountsUp(bs, 0);
    BlockEndsNow(bs, 0);
    if bs == 1 && Answered(bs, 0, 6, 20, fs) {
      assert BlockEnd(bs, 0, 0);
    }
  }

  function Slice(b: Byte): (s: seq<Byte>)
    ensures |s| == 7
  {
    [b, b, b, b, b, b, b]
  }

  /** A payload of twenty bytes that ends in seven ones and seven twos. */
  function OnesAndTwos(head: seq<Byte>): seq<Byte> {
    head + Slice(1) + Slice(2)
  }

  lemma ItsFrames(head: seq<Byte>)
    requires |head| == 6
    ensures var p := OnesAndTwos(head);
            && IsFirst(p, [0x10, 20] + head) && IsConsecutive(p, 1, [0x21] + Slice(1))
            && IsConsecutive(p, 2, [0x22] + Slice(2)) && p[..6] == head
  {
    var p := OnesAndTwos(head);
    assert p[6..13] == Slice(1) && p[13..20] == Slice(2);
    assert ([0x21] + Slice(1))[1..8] == Slice(1) && ([0x22] + Slice(2))[1..8] == Slice(2);
  }

  /** Its two consecutive frames, exchanged on the way, deliver it with the twos before the ones. */
  lemma SwappedFramesDeliverWrong(e: Endpoint, head: seq<Byte>, stmin: Byte, bs: Byte)
    requires !e.mode.Crashed? && |head| == 6
    ensures var first, f1, f2 := [0x10, 20] + head, [0x21] + Slice(1), [0x22] + Slice(2);
            Feed(e, [Arrival(first, true), Arrival(f2, true), Arrival(f1, true)], stmin, bs).delivered
            == e.delivered + [head + Slice(2) + Slice(1)]
  {
    var first, f1, f2 := [0x10, 20] + head, [0x21] + Slice(1), [0x22] + Slice(2);
    var fs := [Arrival(f2, true), Arrival(f1, true)];
    ItsFrames(head);
    assert [Arrival(first, true)] + fs == [Arrival(first, true), Arrival(f2, true), Arrival(f1, true)];
    DeliversIff(e, OnesAndTwos(head), Arrival(first, true), fs, stmin, bs);
    OneBlockEnd(bs, fs);
    GatherTwo(head, fs[0], fs[1]);
    assert f1[1..8] == Slice(1) && f2[1..8] == Slice(2);
  }

  lemma GatherTwo(got: seq<Byte>, f: Arrival, g: Arrival)
    requires |got| == 6 && |f.frame| == 8 && |g.frame| == 8 && AllConsecutive([f, g])
    ensures Gathered(got, 20, [f, g]) == got + f.frame[1..8] + g.frame[1..8]
  {
    assert [f, g][0] == f && [f, g][1..] == [g] && [g][1..] == [];
    assert Gathered(got, 20, [f, g]) == Gathered(got + f.frame[1..8], 20, [g]);
    assert Gathered(got + f.frame[1..8], 20, [g]) == Gathered(got + f.frame[1..8] + g.frame[1..8], 20, []);
  }

  /** With a block size of 1 and the transmitter busy at its first consecutive frame it is not delivered at all. */
  lemma BusyBlockEndLoses(e: Endpoint, head: seq<Byte>, free: bool, stmin: Byte)
    requires !e.mode.Crashed? && |head| == 6
    ensures var first, f1, f2 := [0x10, 20] + head, [0x21] + Slice(1), [0x22] + Slice(2);
            Feed(e, [Arrival(first, true), Arrival(f1, false), Arrival(f2, free)], stmin, 1).delivered == e.delivered
  {
    var first, f1, f2 := [0x10, 20] + head, [0x21] + Slice(1), [0x22] + Slice(2);
    var fs := [Arrival(f1, false), Arrival(f2, free)];
    ItsFrames(head);
    assert [Arrival(first, true)] + fs == [Arrival(first, true), Arrival(f1, false), Arrival(f2, free)];
    DeliversIff(e, OnesAndTwos(head), Arrival(first, true), fs, stmin, 1);
    OneBlockEnd(1, fs);
  }

  /** A single frame may announce no bytes at all; the payload handed over is then empty. */
  lemma EmptyFrameDelivers(e: Endpoint, f: seq<Byte>, stmin: Byte, bs: Byte, txFree: bool)
    requires !e.mode.Crashed? && |f| == 8 && f[0] == 0
    ensures OnFrame(e, f, stmin, bs, txFree).0.delivered == e.delivered + [[]]
  {
    assert f[1..1] == [];
  }

  // ---------------------------------------------------------------- frames that are none of the receiver's

  lemma {:induction false} FeedInTwo(e: Endpoint, a: seq<Arrival>, b: seq<Arrival>, stmin: Byte, bs: Byte)
    ensures Feed(e, a + b, stmin, bs) == Feed(Feed(e, a, stmin, bs), b, stmin, bs)
    decreases |a|
  {
    if a == [] {
      assert a + b == b;
    } else {
      assert (a + b)[1..] == a[1..] + b && (a + b)[0] == a[0];
      FeedInTwo(OnFrame(e, a[0].frame, stmin, bs, a[0].txFree).0, a[1..], b, stmin, bs);
    }
  }

  /** A frame that is not eight bytes long, or of none of the known kinds, changes nothing wherever it comes. */
  lemma OtherFramesIgnored(e: Endpoint, a: seq<Arrival>, odd: Arrival, b: seq<Arrival>, stmin: Byte, bs: Byte)
    requires |odd.frame| != 8 || 0x07 < odd.frame[0] < 0x10 || odd.frame[0] > 0x32
    ensures Feed(e, a + [odd] + b, stmin, bs) == Feed(e, a + b, stmin, bs)
  {
    FeedInTwo(e, a, b, stmin, bs);
    assert a + [odd] + b == a + ([odd] + b) && ([odd] + b)[1..] == b;
    FeedInTwo(e, a, [odd] + b, stmin, bs);
  }

  /** What a frame does to reassembly and payloads, whatever the sender of the same node is being told meanwhile. */
  lemma {:induction false} SignalsStayApart(e: Endpoint, cts: Option<Cts>, fs: seq<Arrival>, stmin: Byte, bs: Byte)
    ensures var (x, y) := (Feed(e, fs, stmin, bs), Feed(e.(cts := cts), fs, stmin, bs));
            x.mode == y.mode && x.delivered == y.delivered
    decreases |fs|
  {
    if fs != [] {
      var x := OnFrame(e, fs[0].frame, stmin, bs, fs[0].txFree).0;
      var y := OnFrame(e.(cts := cts), fs[0].frame, stmin, bs, fs[0].txFree).0;
      assert y == x.(cts := y.cts);
      SignalsStayApart(x, y.cts, fs[1..], stmin, bs);
    }
  }

  /** A flow-control frame between the frames of a payload leaves reassembly and payloads alone. */
  lemma FlowControlPasses(e: Endpoint, a: seq<Arrival>, flow: Arrival, b: seq<Arrival>, stmin: Byte, bs: Byte)
    requires |flow.frame| == 8 && 0x30 <= flow.frame[0] <= 0x32
    ensures var (x, y) := (Feed(e, a + [flow] + b, stmin, bs), Feed(e, a + b, stmin, bs));
            x.mode == y.mode && x.delivered == y.delivered
  {
    FeedInTwo(e, a, b, stmin, bs);
    assert a + [flow] + b == a + ([flow] + b) && ([flow] + b)[1..] == b;
    FeedInTwo(e, a, [flow] + b, stmin, bs);
    var t := Feed(e, a, stmin, bs);
    var u := OnFrame(t, flow.frame, stmin, bs, flow.txFree).0;
    assert u == t.(cts := u.cts);
    SignalsStayApart(t, u.cts, b, stmin, bs);
  }
}
