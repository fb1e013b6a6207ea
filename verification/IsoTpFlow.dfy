/** Flow-control frames on their way through the receive interrupt to the sender that waits for them. */
module IsoTpFlow {
  import opened Bytes
  import opened IsoTp

  predicate IsFlowControl(f: seq<Byte>) {
    |f| == 8 && 0x30 <= f[0] <= 0x32
  }

  predicate AllFlowControl(frames: seq<seq<Byte>>) {
    forall i :: 0 <= i < |frames| ==> IsFlowControl(frames[i])
  }

  predicate AllWaits(frames: seq<seq<Byte>>) {
    forall i :: 0 <= i < |frames| ==> |frames[i]| == 8 && frames[i][0] == 0x31
  }

  /** An interrupt handler that listens and whose signal has been taken. */
  predicate Listening(e: Endpoint) {
    !e.mode.Crashed? && e.cts.None?
  }

  /** What the interrupt signals for frames of which each is taken before the next arrives. */
  function Messages(e: Endpoint, frames: seq<seq<Byte>>, stmin: Byte, bs: Byte, txFree: bool): seq<Cts>
    decreases |frames|
  {
    if frames == [] then []
    else
      var t := OnFrame(e, frames[0], stmin, bs, txFree).0;
      (if t.cts.Some? then [t.cts.value] else []) + Messages(t.(cts := None), frames[1..], stmin, bs, txFree)
  }

  /** The frames a sender of `payload` queues, and how it ends, when it is answered with `frames`. */
  function Answered(
      e: Endpoint, payload: seq<Byte>, frames: seq<seq<Byte>>, stmin: Byte, bs: Byte, txFree: bool)
    : (seq<seq<Byte>>, TxResult)
    requires |payload| < 4096
  {
    Whole(payload, Messages(e, frames, stmin, bs, txFree))
  }

  lemma {:induction false} MessagesInTwo(
      e: Endpoint, a: seq<seq<Byte>>, b: seq<seq<Byte>>, stmin: Byte, bs: Byte, txFree: bool)
    requires Listening(e) && AllFlowControl(a)
    ensures Messages(e, a + b, stmin, bs, txFree)
            == Messages(e, a, stmin, bs, txFree) + Messages(e, b, stmin, bs, txFree)
    decreases |a|
  {
    if a == [] {
      assert a + b == b;
    } else {
      assert (a + b)[1..] == a[1..] + b && (a + b)[0] == a[0];
      MessagesInTwo(e, a[1..], b, stmin, bs, txFree);
    }
  }

  lemma MessageOf(e: Endpoint, f: seq<Byte>, stmin: Byte, bs: Byte, txFree: bool)
    requires Listening(e) && IsFlowControl(f)
    ensures f[0] == 0x31 ==> Messages(e, [f], stmin, bs, txFree) == [CtsWait]
    ensures f[0] == 0x32 ==> Messages(e, [f], stmin, bs, txFree) == [CtsReject]
  {
    var t := OnFrame(e, f, stmin, bs, txFree).0;
    assert [f][1..] == [] && Messages(t.(cts := None), [], stmin, bs, txFree) == [];
  }

  lemma MessageInMiddle(
      e: Endpoint, a: seq<seq<Byte>>, f: seq<Byte>, b: seq<seq<Byte>>, stmin: Byte, bs: Byte, txFree: bool)
    requires Listening(e) && AllFlowControl(a) && IsFlowControl(f) && f[0] != 0x30
    ensures Messages(e, a + [f] + b, stmin, bs, txFree)
            == Messages(e, a, stmin, bs, txFree) + [if f[0] == 0x31 then CtsWait else CtsReject]
               + Messages(e, b, stmin, bs, txFree)
  {
    var x, y := Messages(e, a, stmin, bs, txFree), Messages(e, b, stmin, bs, txFree);
    assert a + [f] + b == a + ([f] + b);
    MessagesInTwo(e, a, [f] + b, stmin, bs, txFree);
    MessagesInTwo(e, [f], b, stmin, bs, txFree);
    MessageOf(e, f, stmin, bs, txFree);
    var m := if f[0] == 0x31 then CtsWait else CtsReject;
    assert x + ([m] + y) == x + [m] + y;
  }

  // ---------------------------------------------------------------- the waiting sender

  lemma Reassociate(a: seq<seq<Byte>>, b: seq<seq<Byte>>, c: seq<seq<Byte>>, d: seq<seq<Byte>>)
    ensures a + b + (c + d) == (a + b + c) + d
    ensures a + ([] + b + c) == a + b + c && [] + [] + a == a && a + [] + b == a + b
  {
  }

  /** A sender that has nothing more to send before its next message carries on as one that has just got there. */
  lemma DrainedReplay(s: Sender, msgs: seq<Cts>)
    requires s.Valid() && !s.state.Begin? && Drain(s).0.state.AwaitFc?
    ensures Replay(s, msgs) == (Drain(s).1 + Replay(Drain(s).0, msgs).0, Replay(Drain(s).0, msgs).1)
  {
    var (t, fs) := Drain(s);
    assert Drain(t) == (t, []);
    if msgs == [] {
      assert fs + [] == fs;
    } else {
      var (u, f) := OnCts(t, msgs[0]);
      Reassociate(fs, if f.Some? then [f.value] else [], Replay(u, msgs[1..]).0, []);
    }
  }

  lemma {:induction false} ReplayIgnoresWait(s: Sender, a: seq<Cts>, b: seq<Cts>)
    requires s.Valid() && !s.state.Begin?
    ensures Replay(s, a + [CtsWait] + b) == Replay(s, a + b)
    decreases |a|
  {
    var (t, fs) := Drain(s);
    if t.state.AwaitFc? {
      if a == [] {
        assert a + b == b && a + [CtsWait] + b == [CtsWait] + b && ([CtsWait] + b)[1..] == b;
        DrainedReplay(s, b);
        Reassociate(fs, Replay(t, b).0, [], []);
      } else {
        assert (a + b)[1..] == a[1..] + b && (a + [CtsWait] + b)[1..] == a[1..] + [CtsWait] + b;
        ReplayIgnoresWait(OnCts(t, a[0]).0, a[1..], b);
      }
    }
  }

  lemma {:induction false} ReplayRejected(s: Sender, a: seq<Cts>, b: seq<Cts>)
    requires s.Valid() && !s.state.Begin? && Replay(s, a).1 == Timeout
    ensures Replay(s, a + [CtsReject] + b) == (Replay(s, a).0 + [FLOW_REJECT], Rejected)
    decreases |a|
  {
    var (t, fs) := Drain(s);
    if a == [] {
      assert a + [CtsReject] + b == [CtsReject] + b && ([CtsReject] + b)[1..] == b;
      RejectedAtOnce(t, b);
      assert fs + [FLOW_REJECT] + [] == fs + [FLOW_REJECT];
    } else {
      var (u, f) := OnCts(t, a[0]);
      assert (a + [CtsReject] + b)[1..] == a[1..] + [CtsReject] + b;
      ReplayRejected(u, a[1..], b);
      Reassociate(fs, if f.Some? then [f.value] else [], Replay(u, a[1..]).0, [FLOW_REJECT]);
    }
  }

  lemma RejectedAtOnce(t: Sender, b: seq<Cts>)
    requires t.Valid() && t.state.AwaitFc?
    ensures OnCts(t, CtsReject).1 == Some(FLOW_REJECT)
    ensures Replay(OnCts(t, CtsReject).0, b) == ([], Rejected)
  {
  }

  // ---------------------------------------------------------------- frames

  /**
    A wait frame anywhere among the answers changes nothing: the sender queues the same frames and ends in the
    same way.
   */
  lemma WaitIsIgnored(
      e: Endpoint, payload: seq<Byte>, a: seq<seq<Byte>>, wait: seq<Byte>, b: seq<seq<Byte>>,
      stmin: Byte, bs: Byte, txFree: bool)
    requires Listening(e) && |payload| < 4096 && AllFlowControl(a) && |wait| == 8 && wait[0] == 0x31
    ensures Answered(e, payload, a + [wait] + b, stmin, bs, txFree) == Answered(e, payload, a + b, stmin, bs, txFree)
  {
    var x, y := Messages(e, a, stmin, bs, txFree), Messages(e, b, stmin, bs, txFree);
    MessagesInTwo(e, a, b, stmin, bs, txFree);
    MessageInMiddle(e, a, wait, b, stmin, bs, txFree);
    ReplayIgnoresWait(SendFrame(NewSender(payload)).0, x, y);
  }

  /** In particular any number of them before a go-ahead. */
  lemma {:induction false} WaitsAreIgnored(
      e: Endpoint, payload: seq<Byte>, waits: seq<seq<Byte>>, b: seq<seq<Byte>>, stmin: Byte, bs: Byte, txFree: bool)
    requires Listening(e) && |payload| < 4096 && AllWaits(waits)
    ensures Answered(e, payload, waits + b, stmin, bs, txFree) == Answered(e, payload, b, stmin, bs, txFree)
    decreases |waits|
  {
    if waits == [] {
      assert waits + b == b;
    } else {
      var rest := waits[1..] + b;
      assert waits + b == [] + [waits[0]] + rest && [] + rest == rest;
      WaitIsIgnored(e, payload, [], waits[0], rest, stmin, bs, txFree);
      WaitsAreIgnored(e, payload, waits[1..], b, stmin, bs, txFree);
    }
  }

  /**
    A reject that finds the sender waiting ends the transfer, with exactly one more frame, a reject in return;
    what comes after it has no effect.
   */
  lemma RejectEnds(
      e: Endpoint, payload: seq<Byte>, a: seq<seq<Byte>>, reject: seq<Byte>, b: seq<seq<Byte>>,
      stmin: Byte, bs: Byte, txFree: bool)
    requires Listening(e) && |payload| < 4096 && AllFlowControl(a) && |reject| == 8 && reject[0] == 0x32
    requires Answered(e, payload, a, stmin, bs, txFree).1 == Timeout
    ensures Answered(e, payload, a + [reject] + b, stmin, bs, txFree)
            == (Answered(e, payload, a, stmin, bs, txFree).0 + [[0x32, 0xCC, 0xCC, 0xCC, 0xCC, 0xCC, 0xCC, 0xCC]],
                Rejected)
  {
    var x, y := Messages(e, a, stmin, bs, txFree), Messages(e, b, stmin, bs, txFree);
    MessageInMiddle(e, a, reject, b, stmin, bs, txFree);
    var (s, f) := SendFrame(NewSender(payload));
    ReplayRejected(s, x, y);
    assert [f] + (Replay(s, x).0 + [FLOW_REJECT]) == [f] + Replay(s, x).0 + [FLOW_REJECT];
  }

  // ---------------------------------------------------------------- one go-ahead

  /** Consecutive frames that the rest of a payload needs. */
  function FramesFor(bytes: nat): nat {
    (bytes + 6) / 7
  }

  lemma OneFrameLess(bytes: nat)
    ensures bytes > 7 ==> FramesFor(bytes) == FramesFor(bytes - 7) + 1
    ensures 0 < bytes <= 7 ==> FramesFor(bytes) == 1
  {
  }

  /** The sender after one more frame of a block. */
  lemma AfterFrame(s: Sender, t: Sender)
    requires s.Valid() && s.state.Sending? && (s.state.bs != 0 ==> s.state.left > 0) && t == SendFrame(s).0
    ensures t.Valid() && t.payload == s.payload && t.pos == s.pos + Min(7, |s.payload| - s.pos)
    ensures t.pos == |s.payload| ==> t.state == Done(true)
    ensures t.pos < |s.payload| && s.state.bs == 0 ==> t.state.Sending? && t.state.bs == 0
    ensures t.pos < |s.payload| && s.state.bs != 0 ==>
              if s.state.left == 1 then t.state.AwaitFc? else t.state == Sending(s.state.bs, s.state.left - 1)
    ensures |Drain(s).1| == 1 + |Drain(t).1| && Drain(s).0 == Drain(t).0
  {
  }

  lemma {:induction false} BlockLength(s: Sender)
    requires s.Valid() && s.state.Sending? && (s.state.bs != 0 ==> s.state.left > 0)
    ensures var all := FramesFor(|s.payload| - s.pos);
            && |Drain(s).1| == (if s.state.bs == 0 then all else Min(s.state.left, all))
            && Drain(s).0.state == if |Drain(s).1| == all then Done(true) else AwaitFc
    decreases |s.payload| - s.pos
  {
    var t := SendFrame(s).0;
    AfterFrame(s, t);
    OneFrameLess(|s.payload| - s.pos);
    if t.state.Sending? {
      BlockLength(t);
    } else {
      assert Drain(t) == (t, []);
    }
  }

  /** What a go-ahead carries: the block size in its second byte and the pause in its third. */
  lemma GoAheadOf(e: Endpoint, f: seq<Byte>, stmin: Byte, bs: Byte, txFree: bool)
    requires Listening(e) && |f| == 8 && f[0] == 0x30
    ensures Messages(e, [f], stmin, bs, txFree) == [CtsOk(f[2], f[1])]
  {
    var t := OnFrame(e, f, stmin, bs, txFree).0;
    assert [f][1..] == [] && Messages(t.(cts := None), [], stmin, bs, txFree) == [];
  }

  lemma FirstDrains(payload: seq<Byte>)
    requires 8 <= |payload| < 4096
    ensures var s := SendFrame(NewSender(payload)).0; s.Valid() && s.state.AwaitFc? && s.pos == 6 && Drain(s) == (s, [])
  {
  }

  /**
    One go-ahead brings exactly as many consecutive frames as its second byte says, or all when that is zero or
    more than are left; the transfer is over when these were all, and waits for the next go-ahead otherwise.
   */
  lemma GoAheadSendsBlock(
      e: Endpoint, payload: seq<Byte>, go: seq<Byte>, stmin: Byte, bs: Byte, txFree: bool)
    requires Listening(e) && 8 <= |payload| < 4096 && |go| == 8 && go[0] == 0x30
    ensures var (frames, result) := Answered(e, payload, [go], stmin, bs, txFree);
            var all := FramesFor(|payload| - 6);
            && |frames| == 1 + (if go[1] == 0 then all else Min(go[1], all))
            && result == if |frames| == 1 + all then Sent else Timeout
  {
    GoAheadOf(e, go, stmin, bs, txFree);
    FirstDrains(payload);
    var s := SendFrame(NewSender(payload)).0;
    var u := s.(state := Sending(go[1], go[1]));
    BlockLength(u);
    OneMessage(s, go[2], go[1]);
  }

  lemma OneMessage(s: Sender, pause: Byte, block: Byte)
    requires s.Valid() && s.state.AwaitFc?
    ensures var (t, fs) := Drain(s.(state := Sending(block, block)));
            (t.state == Done(true) || t.state.AwaitFc?) ==>
              Replay(s, [CtsOk(pause, block)]) == (fs, if t.state.AwaitFc? then Timeout else Sent)
  {
    var u := s.(state := Sending(block, block));
    var (t, fs) := Drain(u);
    assert [CtsOk(pause, block)][1..] == [] && [] + [] + fs == fs;
    if t.state == Done(true) || t.state.AwaitFc? {
      assert Replay(u, []) == (fs, if t.state.AwaitFc? then Timeout else Sent);
    }
  }

  /** The receiver answers a first frame and a full block with a go-ahead laid out in the same way. */
  lemma AnswersAreGoAheads(e: Endpoint, f: seq<Byte>, stmin: Byte, bs: Byte, txFree: bool)
    requires !e.mode.Crashed? && |f| == 8
    ensures var reply := OnFrame(e, f, stmin, bs, txFree).1;
            && (0x10 <= f[0] <= 0x1F && txFree ==> reply == Some([0x30, bs, stmin, 0xCC, 0xCC, 0xCC, 0xCC, 0xCC]))
            && (reply.Some? && 0x20 <= f[0] <= 0x2F ==>
                  e.mode.Receiving? && reply == Some([0x30, e.mode.bs, e.mode.stmin, 0xCC, 0xCC, 0xCC, 0xCC, 0xCC]))
            && (f[0] < 0x10 || f[0] >= 0x30 || !txFree ==> reply.None?)
  {
  }
}
