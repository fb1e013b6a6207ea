/**
  ISO 15765-2 segmentation on CAN: the interrupt-driven receiver and the sending loop, each as a
  step function on values and as the imperative code the ECU runs.
 */
module IsoTp {
  import opened Bytes

  /** Receive buffers hold 4096 bytes. */
  const BUF_LEN := 4096

  /** What a flow-control frame tells the waiting sender. */
  datatype Cts = CtsOk(stmin: Byte, bs: Byte) | CtsWait | CtsReject

  datatype RxMode =
    | RxIdle
    | Receiving(stmin: Byte, bs: Byte, data: seq<Byte>, rxCount: Byte, target: nat)
      // a slice went past the end of the buffer
    | Crashed

  /** One node's receive side: reassembly state, payloads handed over, and the sender's wake-up signal. */
  datatype Endpoint = Endpoint(mode: RxMode, delivered: seq<seq<Byte>>, cts: Option<Cts>)

  function FlowControl(stmin: Byte, bs: Byte): (f: seq<Byte>)
    ensures |f| == 8
  {
    [0x30, bs, stmin, 0xCC, 0xCC, 0xCC, 0xCC, 0xCC]
  }

  const FLOW_REJECT: seq<Byte> := [0x32, 0xCC, 0xCC, 0xCC, 0xCC, 0xCC, 0xCC, 0xCC]

  /** How many bytes of a consecutive frame are taken; the subtraction is unsigned and may wrap. */
  function Taken(target: nat, size: nat): nat {
    if target >= size then Min(7, target - size) else 7
  }

  function OnConsecutive(e: Endpoint, f: seq<Byte>, txFree: bool): (Endpoint, Option<seq<Byte>>)
    requires |f| == 8 && e.mode.Receiving?
  {
    var m := e.mode;
    var count := (m.rxCount as int + 1) % 256;
    var n := Taken(m.target, |m.data|);
    var data := m.data + f[1..1 + n];
    if |data| > BUF_LEN then (e.(mode := Crashed), None)
    else if |data| == m.target then (e.(mode := RxIdle, delivered := e.delivered + [data]), None)
    else if m.bs != 0 && count == m.bs then
      if txFree then (e.(mode := m.(data := data, rxCount := 0)), Some(FlowControl(m.stmin, m.bs)))
      else (e.(mode := RxIdle), None)
    else (e.(mode := m.(data := data, rxCount := count)), None)
  }

  /** One received frame: the endpoint's new state and the flow control it answers with. */
  function OnFrame(e: Endpoint, f: seq<Byte>, stmin: Byte, bs: Byte, txFree: bool): (Endpoint, Option<seq<Byte>>) {
    if |f| != 8 || e.mode.Crashed? then (e, None)
    else if f[0] <= 0x07 then (e.(delivered := e.delivered + [f[1..1 + f[0]]]), None)
    else if 0x10 <= f[0] <= 0x1F then
      if txFree then
        (e.(mode := Receiving(stmin, bs, f[2..8], 0, f[0] as int % 16 * 256 + f[1] as int)),
         Some(FlowControl(stmin, bs)))
      else (e, None)
    else if 0x20 <= f[0] <= 0x2F then
      if e.mode.Receiving? then OnConsecutive(e, f, txFree) else (e, None)
    else if f[0] == 0x30 then (e.(cts := Some(CtsOk(f[2], f[1]))), None)
    else if f[0] == 0x31 then (e.(cts := Some(CtsWait)), None)
    else if f[0] == 0x32 then (e.(cts := Some(CtsReject)), None)
    else (e, None)
  }

  /** Overwrites the buffer with `chunk` from index `at` on. */
  method CopyInto(buf: array<Byte>, at: nat, chunk: seq<Byte>)
    requires at + |chunk| <= buf.Length
    modifies buf
    ensures buf[..at + |chunk|] == old(buf[..at]) + chunk
    ensures buf[at + |chunk|..] == old(buf[at + |chunk|..])
  {
    forall i | 0 <= i < |chunk| {
      buf[at + i] := chunk[i];
    }
  }

  /** The receive interrupt's object, reassembling into one fixed buffer. */
  class InterruptHandler {
    var receiving: bool
    var crashed: bool
    var stmin: Byte
    var bs: Byte
    const buf: array<Byte>
    var size: nat
    var rxCount: Byte
    var targSize: nat
    var delivered: seq<seq<Byte>>
    var clearToSend: Option<Cts>

    predicate Valid()
      reads this
    {
      buf.Length == BUF_LEN && size <= BUF_LEN
    }

    function State(): Endpoint
      reads this, buf
      requires Valid()
    {
      Endpoint(
        if crashed then Crashed
        else if receiving then Receiving(stmin, bs, buf[..size], rxCount, targSize) else RxIdle,
        delivered, clearToSend)
    }

    constructor ()
      ensures Valid() && fresh(buf) && State() == Endpoint(RxIdle, [], None)
    {
      receiving, crashed, stmin, bs, size, rxCount, targSize := false, false, 0, 0, 0, 0, 0;
      buf := new Byte[BUF_LEN](_ => 0);
      delivered, clearToSend := [], None;
    }

    method OnFrameRx(data: seq<Byte>, ecuStmin: Byte, ecuBs: Byte, txFree: bool) returns (reply: Option<seq<Byte>>)
      requires Valid()
      modifies this, buf
      ensures Valid()
      ensures (State(), reply) == OnFrame(old(State()), data, ecuStmin, ecuBs, txFree)
    {
      reply := None;
      if |data| != 8 || crashed {
        return;
      }
      if data[0] <= 0x07 {
        delivered := delivered + [data[1..1 + data[0]]];
      } else if 0x10 <= data[0] <= 0x1F {
        if txFree {
          CopyInto(buf, 0, data[2..8]);
          assert buf[..6] == data[2..8];
          size, rxCount := 6, 0;
          targSize := data[0] as int % 16 * 256 + data[1] as int;
          stmin, bs, receiving := ecuStmin, ecuBs, true;
          reply := Some(FlowControl(ecuStmin, ecuBs));
        }
      } else if 0x20 <= data[0] <= 0x2F {
        if receiving {
          reply := OnConsecutiveRx(data, txFree);
        }
      } else if data[0] == 0x30 {
        clearToSend := Some(CtsOk(data[2], data[1]));
      } else if data[0] == 0x31 {
        clearToSend := Some(CtsWait);
      } else if data[0] == 0x32 {
        clearToSend := Some(CtsReject);
      }
    }

    method OnConsecutiveRx(data: seq<Byte>, txFree: bool) returns (reply: Option<seq<Byte>>)
      requires Valid() && |data| == 8 && receiving && !crashed
      modifies this, buf
      ensures Valid()
      ensures (State(), reply) == OnConsecutive(old(State()), data, txFree)
    {
      reply := None;
      rxCount := (rxCount as int + 1) % 256;
      var max := Taken(targSize, size);
      if size + max > BUF_LEN {
        crashed := true;
        return;
      }
      CopyInto(buf, size, data[1..1 + max]);
      size := size + max;
      if size == targSize {
        delivered := delivered + [buf[..size]];
        receiving := false;
      } else if bs != 0 && rxCount == bs {
        if txFree {
          rxCount := 0;
          reply := Some(FlowControl(stmin, bs));
        } else {
          receiving := false;
        }
      }
    }
  }

  // ---------------------------------------------------------------- sender

  datatype TxState = Begin | AwaitFc | Sending(bs: Byte, left: Byte) | Done(ok: bool)

  /** The sending loop between two frames; `buf` is the frame buffer it reuses. */
  datatype Sender = Sender(payload: seq<Byte>, state: TxState, pos: nat, pci: Byte, buf: seq<Byte>) {
    predicate Valid() {
      && |buf| == 8 && |payload| < 4096
      && (state.Sending? || state.AwaitFc? ==> 6 <= pos < |payload|)
    }
  }

  function NewSender(payload: seq<Byte>): Sender {
    Sender(payload, Begin, 0, 0x21, [0, 0, 0, 0, 0, 0, 0, 0])
  }

  /** The next frame and the state after it was queued. */
  function SendFrame(s: Sender): (r: (Sender, seq<Byte>))
    requires s.Valid() && (s.state.Begin? || s.state.Sending?)
    ensures |r.1| == 8 && r.0.Valid()
  {
    var n := |s.payload|;
    if s.state.Begin? then
      if n < 8 then
        var f := [n] + s.payload + s.buf[1 + n..];
        (s.(state := Done(true), buf := f), f)
      else
        var f := [0x10 + n / 256 % 16, n % 256] + s.payload[..6];
        (s.(state := AwaitFc, pos := 6, pci := 0x21, buf := f), f)
    else
      var m := Min(7, n - s.pos);
      var f := [s.pci] + s.payload[s.pos..s.pos + m] + s.buf[1 + m..];
      var pos := s.pos + m;
      if pos == n then (s.(state := Done(true), pos := pos, buf := f), f)
      else
        var left := (s.state.left as int - 1) % 256;
        (s.(state := if s.state.bs == 0 || left != 0 then Sending(s.state.bs, left) else AwaitFc,
            pos := pos, pci := 0x20 + (s.pci as int + 1) % 16, buf := f), f)
  }

  /** The waiting sender takes a flow-control message. */
  function OnCts(s: Sender, msg: Cts): (r: (Sender, Option<seq<Byte>>))
    requires s.Valid() && s.state.AwaitFc?
    ensures r.0.Valid()
  {
    match msg
    case CtsOk(_, bs) => (s.(state := Sending(bs, bs)), None)
    case CtsWait => (s, None)
    case CtsReject => (s.(state := Done(false)), Some(FLOW_REJECT))
  }

  /** Frames sent one after the other until the block is used up or the payload is through. */
  function Drain(s: Sender): (r: (Sender, seq<seq<Byte>>))
    requires s.Valid() && !s.state.Begin?
    ensures r.0.Valid() && !r.0.state.Begin? && !r.0.state.Sending?
    decreases |s.payload| - s.pos, s.state.Sending?
  {
    if !s.state.Sending? then (s, [])
    else
      var (t, f) := SendFrame(s);
      var (u, fs) := Drain(t);
      (u, [f] + fs)
  }

  datatype TxResult = Sent | Rejected | Timeout

  /** Everything a waiting sender does when it is given the messages `msgs` and then nothing more. */
  function Replay(s: Sender, msgs: seq<Cts>): (seq<seq<Byte>>, TxResult)
    requires s.Valid() && !s.state.Begin?
    decreases |msgs|, 1
  {
    var (t, fs) := Drain(s);
    if t.state == Done(true) then (fs, Sent)
    else if t.state.Done? then (fs, Rejected)
    else if msgs == [] then (fs, Timeout)
    else
      var (u, f) := OnCts(t, msgs[0]);
      var (gs, result) := Replay(u, msgs[1..]);
      (fs + (if f.Some? then [f.value] else []) + gs, result)
  }

  function Whole(payload: seq<Byte>, msgs: seq<Cts>): (seq<seq<Byte>>, TxResult)
    requires |payload| < 4096
  {
    var (s, f) := SendFrame(NewSender(payload));
    var (fs, result) := Replay(s, msgs);
    ([f] + fs, result)
  }

  /** One consecutive frame out of the reused buffer; what the buffer held before stays behind as padding. */
  method NextFrame(payload: seq<Byte>, txBuf: array<Byte>, pci: Byte, bufPos: nat) returns (f: seq<Byte>)
    requires txBuf.Length == 8 && bufPos <= |payload|
    modifies txBuf
    ensures f == txBuf[..]
    ensures var m := Min(7, |payload| - bufPos);
            f == [pci] + payload[bufPos..bufPos + m] + old(txBuf[..])[1 + m..]
  {
    txBuf[0] := pci;
    var maxCopy := Min(7, |payload| - bufPos);
    CopyInto(txBuf, 1, payload[bufPos..bufPos + maxCopy]);
    assert txBuf[..] == txBuf[..1 + maxCopy] + txBuf[1 + maxCopy..];
    f := txBuf[..];
  }

  /** Frames already sent, then whatever the sender still drains. */
  ghost predicate DrainsTo(s: Sender, frames: seq<seq<Byte>>, goal: (Sender, seq<seq<Byte>>)) {
    s.Valid() && !s.state.Begin? && Drain(s).0 == goal.0 && frames + Drain(s).1 == goal.1
  }

  lemma DrainStep(s: Sender, frames: seq<seq<Byte>>, goal: (Sender, seq<seq<Byte>>))
    requires DrainsTo(s, frames, goal) && s.state.Sending?
    ensures DrainsTo(SendFrame(s).0, frames + [SendFrame(s).1], goal)
  {
    var (t, f) := SendFrame(s);
    assert (frames + [f]) + Drain(t).1 == frames + ([f] + Drain(t).1);
  }

  /** The block sender after it has queued the frame `f`. */
  function Following(s: Sender, f: seq<Byte>): Sender
    requires s.Valid() && s.state.Sending?
  {
    var pos, left := s.pos + Min(7, |s.payload| - s.pos), (s.state.left as int - 1) % 256;
    if pos == |s.payload| then Sender(s.payload, Done(true), pos, s.pci, f)
    else
      Sender(s.payload, if s.state.bs == 0 || left != 0 then Sending(s.state.bs, left) else AwaitFc,
             pos, 0x20 + (s.pci as int + 1) % 16, f)
  }

  lemma BlockStep(s: Sender, f: seq<Byte>, frames: seq<seq<Byte>>, goal: (Sender, seq<seq<Byte>>))
    requires DrainsTo(s, frames, goal) && s.state.Sending?
    requires var m := Min(7, |s.payload| - s.pos);
             f == [s.pci] + s.payload[s.pos..s.pos + m] + s.buf[1 + m..]
    ensures DrainsTo(Following(s, f), frames + [f], goal)
  {
    assert SendFrame(s) == (Following(s, f), f);
    DrainStep(s, frames, goal);
  }

  /** Queues the block sender's next frame and keeps the block heading for `goal`. */
  method QueueNext(
      payload: seq<Byte>, txBuf: array<Byte>, pci: Byte, bufPos: nat,
      ghost s: Sender, ghost frames: seq<seq<Byte>>, ghost goal: (Sender, seq<seq<Byte>>))
    returns (f: seq<Byte>)
    requires txBuf.Length == 8 && s.state.Sending? && s == Sender(payload, s.state, bufPos, pci, txBuf[..])
    requires DrainsTo(s, frames, goal)
    modifies txBuf
    ensures f == txBuf[..] && DrainsTo(Following(s, f), frames + [f], goal)
  {
    f := NextFrame(payload, txBuf, pci, bufPos);
    BlockStep(s, f, frames, goal);
  }

  lemma DrainStart(s: Sender)
    requires s.Valid() && !s.state.Begin?
    ensures DrainsTo(s, [], Drain(s))
  {
    assert [] + Drain(s).1 == Drain(s).1;
  }

  /** The inner loop: frames until the block is full or the payload is through. */
  method SendBlock(payload: seq<Byte>, txBuf: array<Byte>, pci0: Byte, bufPos0: nat, bs: Byte)
    returns (frames: seq<seq<Byte>>, pci: Byte, bufPos: nat)
    requires txBuf.Length == 8 && 6 <= bufPos0 < |payload| < 4096
    modifies txBuf
    ensures bufPos0 <= bufPos <= |payload|
    ensures var state := if bufPos == |payload| then Done(true) else AwaitFc;
            DrainsTo(Sender(payload, state, bufPos, pci, txBuf[..]), frames,
                     Drain(Sender(payload, Sending(bs, bs), bufPos0, pci0, old(txBuf[..]))))
  {
    ghost var goal := Drain(Sender(payload, Sending(bs, bs), bufPos0, pci0, txBuf[..]));
    frames, pci, bufPos := [], pci0, bufPos0;
    var bsCount: Byte := bs;
    ghost var s := Sender(payload, Sending(bs, bs), bufPos0, pci0, txBuf[..]);
    DrainStart(s);
    while bs == 0 || bsCount != 0
      invariant bufPos0 <= bufPos < |payload|
      invariant s == Sender(payload, if bs == 0 || bsCount != 0 then Sending(bs, bsCount) else AwaitFc,
                            bufPos, pci, txBuf[..])
      invariant DrainsTo(s, frames, goal)
      decreases |payload| - bufPos
    {
      var f := QueueNext(payload, txBuf, pci, bufPos, s, frames, goal);
      frames, s := frames + [f], Following(s, f);
      bufPos := bufPos + Min(7, |payload| - bufPos);
      if bufPos == |payload| {
        return;
      }
      pci := 0x20 + (pci as int + 1) % 16;
      bsCount := (bsCount as int - 1) % 256;
    }
  }

  /** Frames already queued, then whatever the sender still does with `msgs`. */
  ghost predicate EndsAs(s: Sender, msgs: seq<Cts>, frames: seq<seq<Byte>>, goal: (seq<seq<Byte>>, TxResult)) {
    s.Valid() && !s.state.Begin? && frames + Replay(s, msgs).0 == goal.0 && Replay(s, msgs).1 == goal.1
  }

  /** A waiting sender that takes a go-ahead and has drained its block. */
  lemma BlockReplayed(
      s: Sender, stmin: Byte, bs: Byte, t: Sender, block: seq<seq<Byte>>, msgs: seq<Cts>,
      frames: seq<seq<Byte>>, goal: (seq<seq<Byte>>, TxResult))
    requires s.Valid() && s.state.AwaitFc? && msgs != [] && msgs[0] == CtsOk(stmin, bs)
    requires EndsAs(s, msgs, frames, goal)
    requires DrainsTo(t, block, Drain(s.(state := Sending(bs, bs)))) && (t.state.AwaitFc? || t.state == Done(true))
    ensures EndsAs(t, msgs[1..], frames + block, goal)
  {
    var u := s.(state := Sending(bs, bs));
    var (rest, result) := Replay(u, msgs[1..]);
    assert block + [] == block && Drain(u) == (t, block);
    var (more, _) := Replay(t, msgs[1..]);
    assert [] + [] + rest == rest && [] + more == more;
    if t.state.AwaitFc? && msgs[1..] != [] {
      var (v, f) := OnCts(t, msgs[1]);
      var fl := if f.Some? then [f.value] else [];
      var gs := Replay(v, msgs[1..][1..]).0;
      assert block + fl + gs == block + ([] + fl + gs);
    }
    assert rest == block + more;
    assert frames + (block + more) == (frames + block) + more;
  }

  /** The other ways a turn of the waiting loop can go. */
  lemma WaitReplayed(s: Sender, msgs: seq<Cts>, frames: seq<seq<Byte>>, goal: (seq<seq<Byte>>, TxResult))
    requires s.Valid() && !s.state.Begin? && !s.state.Sending? && EndsAs(s, msgs, frames, goal)
    ensures s.state == Done(true) ==> goal == (frames, Sent)
    ensures s.state.AwaitFc? && msgs == [] ==> goal == (frames, Timeout)
    ensures s.state.AwaitFc? && msgs != [] && msgs[0].CtsWait? ==> EndsAs(s, msgs[1..], frames, goal)
    ensures s.state.AwaitFc? && msgs != [] && msgs[0].CtsReject? ==> goal == (frames + [FLOW_REJECT], Rejected)
  {
    assert Drain(s) == (s, []) && frames + [] == frames;
    if s.state.AwaitFc? && msgs != [] {
      var (u, f) := OnCts(s, msgs[0]);
      var gs := Replay(u, msgs[1..]).0;
      assert [] + [] + gs == gs;
      if msgs[0].CtsReject? {
        assert gs == [] && [] + [FLOW_REJECT] + gs == [FLOW_REJECT];
      }
    }
  }

  /** A payload of at most seven bytes behind its length. */
  method SingleFrame(payload: seq<Byte>) returns (f: seq<Byte>)
    requires |payload| < 8
    ensures f == SendFrame(NewSender(payload)).1
  {
    var txBuf := new Byte[8](_ => 0);
    assert txBuf[..] == NewSender(payload).buf;
    f := NextFrame(payload, txBuf, |payload|, 0);
    assert payload[0..|payload|] == payload;
  }

  /** The frame buffer with the total length in 12 bits and the first six bytes. */
  method FirstFrame(payload: seq<Byte>) returns (txBuf: array<Byte>)
    requires 8 <= |payload| < 4096
    ensures fresh(txBuf) && txBuf.Length == 8 && txBuf[..] == SendFrame(NewSender(payload)).1
  {
    txBuf := new Byte[8](_ => 0);
    var n := |payload|;
    txBuf[0] := 0x10 + n / 256 % 16;
    txBuf[1] := n % 256;
    assert txBuf[..2] == [0x10 + n / 256 % 16, n % 256];
    CopyInto(txBuf, 2, payload[..6]);
    assert txBuf[..] == txBuf[..8];
  }

  /**
    `write_payload`, given the flow-control messages it will receive before it gives up waiting:
    the frames it queues and how it ends are those of the step machine.
   */
  method WritePayload(payload: seq<Byte>, msgs: seq<Cts>) returns (frames: seq<seq<Byte>>, result: TxResult)
    requires |payload| < 4096
    ensures (frames, result) == Whole(payload, msgs)
  {
    var n := |payload|;
    if n < 8 {
      var f := SingleFrame(payload);
      frames, result := [f], Sent;
      assert frames + [] == frames;
      return;
    }
    var txBuf := FirstFrame(payload);
    frames := [txBuf[..]];
    var pci: Byte := 0x21;
    var bufPos := 6;
    var next := 0;
    ghost var s, goal := SendFrame(NewSender(payload)).0, Whole(payload, msgs);
    assert msgs[0..] == msgs;
    while next < |msgs|
      invariant next <= |msgs| && 6 <= bufPos < n
      invariant s == Sender(payload, AwaitFc, bufPos, pci, txBuf[..])
      invariant EndsAs(s, msgs[next..], frames, goal)
    {
      ghost var rest := msgs[next..];
      var msg := msgs[next];
      assert rest[0] == msg && rest[1..] == msgs[next + 1..];
      next := next + 1;
      WaitReplayed(s, rest, frames, goal);
      match msg {
        case CtsOk(stmin, bs) =>
          var block;
          block, pci, bufPos := SendBlock(payload, txBuf, pci, bufPos, bs);
          ghost var t := Sender(payload, if bufPos == n then Done(true) else AwaitFc, bufPos, pci, txBuf[..]);
          BlockReplayed(s, stmin, bs, t, block, rest, frames, goal);
          frames := frames + block;
          s := t;
          if bufPos == n {
            WaitReplayed(s, msgs[next..], frames, goal);
            return frames, Sent;
          }
        case CtsWait =>
        case CtsReject =>
          return frames + [FLOW_REJECT], Rejected;
      }
    }
    WaitReplayed(s, msgs[next..], frames, goal);
    result := Timeout;
  }
}
