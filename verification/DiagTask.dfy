/**
  The bootloader's receive interrupts for CAN and USB and its diagnostic task, which takes complete
  requests out of one-place signals: which requests reach the server, and which ends it.
 */
module DiagTask {
  import opened Bytes
  import opened IsoTp
  import opened IsoTpReceiver
  import opened Kwp
  import UsbDevice
  import UsbStream

  /** A signal that holds one payload, which a later one overwrites, and the payloads taken out so far. */
  datatype Mailbox = Mailbox(slot: Option<seq<Byte>>, taken: seq<seq<Byte>>) {
    function Taken(): Mailbox
      requires slot.Some?
    {
      Mailbox(None, taken + [slot.value])
    }
  }

  /** The interrupt has handed over whatever is new in `after`. */
  function Put(m: Mailbox, before: seq<seq<Byte>>, after: seq<seq<Byte>>): Mailbox {
    if |after| > |before| then m.(slot := Some(after[|after| - 1])) else m
  }

  /** Both receivers with their signals, the USB pieces not read yet, and the server while it has not panicked. */
  datatype Node = Node(
    can: Endpoint, canBox: Mailbox, usb: UsbDevice.Device, pieces: UsbDevice.Pieces, usbBox: Mailbox,
    server: Ecu, alive: bool)
  {
    predicate Valid() {
      && server.Valid()
      && WithinTarget(can) && (can.mode.Receiving? ==> can.mode.data != [])
      && UsbDevice.Sound(usb) && UsbDevice.NoneEmpty(pieces)
      && (canBox.slot.Some? ==> |canBox.slot.value| <= FLASH_BUF)
      && (usbBox.slot.Some? ==> Request(usbBox.slot.value))
    }
  }

  datatype Happening =
    | CanFrame(arrival: Arrival)
    | UsbPoll(arrived: UsbDevice.Pieces)                      // after more pieces have arrived
    | Turn(now: nat, env: Env, later: nat, afterwards: Env)   // of the diagnostic task's loop

  /** First frames declare at least what they carry; USB packets are not empty. */
  predicate Honest(h: Happening) {
    (h.CanFrame? ==> HonestFirst(h.arrival.frame)) && (h.UsbPoll? ==> UsbDevice.NoneEmpty(h.arrived))
  }

  /** The server takes a request; it indexes the first byte before anything else. */
  function Commanded(crc: CrcFn, n: Node, cmd: seq<Byte>, now: nat, env: Env): Node
    requires n.Valid() && |cmd| <= FLASH_BUF
  {
    if cmd == [] then n.(alive := false) else n.(server := ProcessCmd(crc, n.server, cmd, now, env).0)
  }

  /** CAN is asked before USB. */
  function TakeRequest(crc: CrcFn, n: Node, now: nat, env: Env): Node
    requires n.Valid()
  {
    if n.canBox.slot.Some? then
      Commanded(crc, n.(canBox := n.canBox.Taken()), n.canBox.slot.value, now, env)
    else if n.usbBox.slot.Some? then
      Commanded(crc, n.(usbBox := n.usbBox.Taken()), n.usbBox.slot.value, now, env)
    else n
  }

  function Next(crc: CrcFn, n: Node, h: Happening): Node
    requires n.Valid() && Honest(h)
  {
    if !n.alive then n
    else
      match h
      case CanFrame(a) =>
        var e := OnFrame(n.can, a.frame, n.server.stmin, n.server.bs, a.txFree).0;
        n.(can := e, canBox := Put(n.canBox, n.can.delivered, e.delivered))
      case UsbPoll(arrived) =>
        var (d, rest) := UsbDevice.Polled(n.usb, n.pieces + arrived);
        n.(usb := d, pieces := rest, usbBox := Put(n.usbBox, n.usb.delivered, d.delivered))
      case Turn(now, env, later, afterwards) =>
        var t := TakeRequest(crc, n, now, env);
        if t.alive then t.(server := Update(t.server, later, afterwards)) else t
  }

  // ---------------------------------------------------------------- one step

  predicate EmptySingle(f: seq<Byte>) {
    |f| == 8 && f[0] == 0
  }

  /** At most one more, and what it is like. */
  predicate GrownBy(before: seq<seq<Byte>>, after: seq<seq<Byte>>, cmd: seq<Byte>) {
    after == before + [cmd] && |cmd| <= FLASH_BUF
  }

  /** A CAN frame completes at most one payload, and an empty one only as a single frame that announces nothing. */
  lemma FrameCompletes(e: Endpoint, f: seq<Byte>, stmin: Byte, bs: Byte, txFree: bool)
    requires WithinTarget(e) && (e.mode.Receiving? ==> e.mode.data != []) && HonestFirst(f)
    ensures var t := OnFrame(e, f, stmin, bs, txFree).0;
            && WithinTarget(t) && (t.mode.Receiving? ==> t.mode.data != [])
            && (|t.delivered| > |e.delivered| ==> GrownBy(e.delivered, t.delivered, t.delivered[|t.delivered| - 1]))
            && (|t.delivered| <= |e.delivered| ==> t.delivered == e.delivered)
            && (|t.delivered| > |e.delivered| && t.delivered[|t.delivered| - 1] == [] <==> EmptySingle(f))
  {
  }

  lemma {:induction false} BodyCompletes(d: UsbDevice.Device, pieces: UsbDevice.Pieces)
    requires UsbDevice.NoneEmpty(pieces) && d.reading.Some? && UsbDevice.Sound(d)
    ensures var (e, rest) := UsbDevice.ReadBody(d, pieces);
            && UsbDevice.NoneEmpty(rest) && UsbDevice.Sound(e)
            && (|e.delivered| > |d.delivered| ==>
                  var cmd := e.delivered[|e.delivered| - 1]; GrownBy(d.delivered, e.delivered, cmd) && Request(cmd))
            && (|e.delivered| <= |d.delivered| ==> e.delivered == d.delivered)
    decreases |pieces|
  {
    if pieces != [] {
      var (got, expected) := d.reading.value;
      var n := Min(expected - |got|, |pieces[0]|);
      var more := got + pieces[0][..n];
      UsbDevice.AfterReadKeeps(pieces, n);
      if |more| < expected {
        BodyCompletes(d.(reading := Some((more, expected))), UsbDevice.AfterRead(pieces, n));
      }
    }
  }

  /** A poll completes at most one request, and never an empty one. */
  lemma PollCompletes(d: UsbDevice.Device, pieces: UsbDevice.Pieces)
    requires UsbDevice.NoneEmpty(pieces) && UsbDevice.Sound(d)
    ensures var (e, rest) := UsbDevice.Polled(d, pieces);
            && UsbDevice.NoneEmpty(rest) && UsbDevice.Sound(e)
            && (|e.delivered| > |d.delivered| ==>
                  var cmd := e.delivered[|e.delivered| - 1]; GrownBy(d.delivered, e.delivered, cmd) && Request(cmd))
            && (|e.delivered| <= |d.delivered| ==> e.delivered == d.delivered)
  {
    var (e, rest) := if d.reading.None? then UsbDevice.ReadHeader(d, pieces) else (d, pieces);
    if d.reading.None? && pieces != [] {
      UsbDevice.AfterReadKeeps(pieces, Min(2, |pieces[0]|));
    }
    if e.reading.Some? {
      BodyCompletes(e, rest);
    }
  }

  lemma NextKeepsValid(crc: CrcFn, n: Node, h: Happening)
    requires n.Valid() && Honest(h)
    ensures Next(crc, n, h).Valid()
  {
    if n.alive {
      match h
      case CanFrame(a) => FrameCompletes(n.can, a.frame, n.server.stmin, n.server.bs, a.txFree);
      case UsbPoll(arrived) => PollCompletes(n.usb, n.pieces + arrived);
      case Turn(now, env, later, afterwards) => TurnKeepsValid(crc, n, h);
    }
  }

  lemma TurnKeepsValid(crc: CrcFn, n: Node, h: Happening)
    requires n.Valid() && h.Turn?
    ensures Next(crc, n, h).Valid()
  {
    var slot := if n.canBox.slot.Some? then n.canBox.slot else n.usbBox.slot;
    if slot.Some? && slot.value != [] {
      StepKeepsValid(crc, n.server, Cmd(slot.value, h.now, h.env));
    }
    var t := TakeRequest(crc, n, h.now, h.env);
    StepKeepsValid(crc, t.server, Tick(h.later, h.afterwards));
  }

  // ---------------------------------------------------------------- whole runs

  predicate AllHonestEvents(hs: seq<Happening>) {
    forall i :: 0 <= i < |hs| ==> Honest(hs[i])
  }

  function RunNode(crc: CrcFn, n: Node, hs: seq<Happening>): (t: Node)
    requires n.Valid() && AllHonestEvents(hs)
    ensures t.Valid()
    decreases |hs|
  {
    if hs == [] then n
    else
      NextKeepsValid(crc, n, hs[0]);
      RunNode(crc, Next(crc, n, hs[0]), hs[1..])
  }

  /** A payload that the step completes finds its signal empty. */
  predicate FindsRoom(n: Node, t: Node) {
    && (|t.can.delivered| > |n.can.delivered| ==> n.canBox.slot.None?)
    && (|t.usb.delivered| > |n.usb.delivered| ==> n.usbBox.slot.None?)
  }

  /** Every payload is taken before the next one on its side is complete. */
  predicate InTime(crc: CrcFn, n: Node, hs: seq<Happening>)
    requires n.Valid() && AllHonestEvents(hs)
    decreases |hs|
  {
    hs == [] || (
      NextKeepsValid(crc, n, hs[0]);
      FindsRoom(n, Next(crc, n, hs[0])) && InTime(crc, Next(crc, n, hs[0]), hs[1..]))
  }

  /** Taken, or still waiting in the signal. */
  function HandedOver(m: Mailbox): seq<seq<Byte>> {
    m.taken + if m.slot.Some? then [m.slot.value] else []
  }

  predicate NoneLost(n: Node) {
    HandedOver(n.canBox) == n.can.delivered && HandedOver(n.usbBox) == n.usb.delivered
  }

  /** On one side fewer payloads were taken or wait than were completed. */
  predicate SomeLost(n: Node) {
    && |HandedOver(n.canBox)| <= |n.can.delivered| && |HandedOver(n.usbBox)| <= |n.usb.delivered|
    && (|HandedOver(n.canBox)| < |n.can.delivered| || |HandedOver(n.usbBox)| < |n.usb.delivered|)
  }

  lemma PutLoses(m: Mailbox, before: seq<seq<Byte>>, after: seq<seq<Byte>>)
    requires |HandedOver(m)| <= |before|
    requires after == before || (|after| == |before| + 1 && after[..|before|] == before)
    ensures var t := Put(m, before, after);
            && |HandedOver(t)| <= |after|
            && (|HandedOver(m)| < |before| ==> |HandedOver(t)| < |after|)
            && (|after| > |before| && m.slot.Some? ==> |HandedOver(t)| < |after|)
            && (HandedOver(m) == before && (|after| > |before| ==> m.slot.None?) ==> HandedOver(t) == after)
  {
    if |after| > |before| {
      assert after == before + [after[|before|]];
    }
  }

  lemma TakingKeeps(crc: CrcFn, n: Node, now: nat, env: Env)
    requires n.Valid()
    ensures var t := TakeRequest(crc, n, now, env);
            && HandedOver(t.canBox) == HandedOver(n.canBox) && HandedOver(t.usbBox) == HandedOver(n.usbBox)
            && t.can == n.can && t.usb == n.usb
  {
  }

  lemma StepLoses(crc: CrcFn, n: Node, h: Happening)
    requires n.Valid() && Honest(h)
    ensures var t := Next(crc, n, h);
            && (NoneLost(n) && FindsRoom(n, t) ==> NoneLost(t))
            && (NoneLost(n) && !FindsRoom(n, t) ==> SomeLost(t))
            && (SomeLost(n) ==> SomeLost(t))
  {
    var t := Next(crc, n, h);
    if n.alive && (NoneLost(n) || SomeLost(n)) {
      match h
      case CanFrame(a) =>
        FrameCompletes(n.can, a.frame, n.server.stmin, n.server.bs, a.txFree);
        PutLoses(n.canBox, n.can.delivered, t.can.delivered);
      case UsbPoll(arrived) =>
        PollCompletes(n.usb, n.pieces + arrived);
        PutLoses(n.usbBox, n.usb.delivered, t.usb.delivered);
      case Turn(now, env, later, afterwards) => TakingKeeps(crc, n, now, env);
    }
  }

  /**
    On either side every payload that was completed is taken by the task, or waits to be, exactly when each
    was taken before the next was complete: otherwise the signal is overwritten and a request is lost.
   */
  lemma {:induction false} NoneLostIff(crc: CrcFn, n: Node, hs: seq<Happening>)
    requires n.Valid() && AllHonestEvents(hs) && (NoneLost(n) || SomeLost(n))
    ensures NoneLost(RunNode(crc, n, hs)) <==> NoneLost(n) && InTime(crc, n, hs)
    ensures !NoneLost(RunNode(crc, n, hs)) ==> SomeLost(RunNode(crc, n, hs))
    decreases |hs|
  {
    if hs != [] {
      NextKeepsValid(crc, n, hs[0]);
      StepLoses(crc, n, hs[0]);
      NoneLostIff(crc, Next(crc, n, hs[0]), hs[1..]);
    }
  }

  predicate NoEmptySingle(hs: seq<Happening>) {
    forall i :: 0 <= i < |hs| && hs[i].CanFrame? ==> !EmptySingle(hs[i].arrival.frame)
  }

  /** An empty request waits. */
  predicate Doomed(n: Node) {
    n.canBox.slot == Some([])
  }

  lemma StepDooms(crc: CrcFn, n: Node, h: Happening)
    requires n.Valid() && Honest(h) && n.alive && FindsRoom(n, Next(crc, n, h))
    ensures var t := Next(crc, n, h);
            && (h.Turn? ==> (t.alive <==> !Doomed(n)) && !(t.alive && Doomed(t)))
            && (!h.Turn? ==> t.alive && (Doomed(t) <==> Doomed(n) || (h.CanFrame? && EmptySingle(h.arrival.frame))))
  {
    if h.CanFrame? {
      FrameCompletes(n.can, h.arrival.frame, n.server.stmin, n.server.bs, h.arrival.txFree);
    }
  }

  /** Without such a frame it survives whatever is lost on the way. */
  lemma {:induction false} NonemptyFramesAreSafe(crc: CrcFn, n: Node, hs: seq<Happening>)
    requires n.Valid() && n.alive && !Doomed(n) && AllHonestEvents(hs) && NoEmptySingle(hs)
    ensures RunNode(crc, n, hs).alive
    decreases |hs|
  {
    if hs != [] {
      NextKeepsValid(crc, n, hs[0]);
      if hs[0].CanFrame? {
        var a := hs[0].arrival;
        FrameCompletes(n.can, a.frame, n.server.stmin, n.server.bs, a.txFree);
      }
      NonemptyFramesAreSafe(crc, Next(crc, n, hs[0]), hs[1..]);
    }
  }

  lemma {:induction false} StaysDead(crc: CrcFn, n: Node, hs: seq<Happening>)
    requires n.Valid() && AllHonestEvents(hs) && !n.alive
    ensures RunNode(crc, n, hs) == n
    decreases |hs|
  {
    if hs != [] {
      StaysDead(crc, n, hs[1..]);
    }
  }

  /**
    When every payload is taken in time, the last one too, the bootloader survives exactly the runs in which
    no single frame announces zero bytes.
   */
  lemma {:induction false} SurvivesIff(crc: CrcFn, n: Node, hs: seq<Happening>)
    requires n.Valid() && n.alive && AllHonestEvents(hs) && InTime(crc, n, hs)
    requires var t := RunNode(crc, n, hs); t.alive ==> t.canBox.slot.None?
    ensures RunNode(crc, n, hs).alive <==> !Doomed(n) && NoEmptySingle(hs)
    decreases |hs|
  {
    if hs != [] {
      NextKeepsValid(crc, n, hs[0]);
      var t := Next(crc, n, hs[0]);
      StepDooms(crc, n, hs[0]);
      assert NoEmptySingle(hs) <==>
               !(hs[0].CanFrame? && EmptySingle(hs[0].arrival.frame)) && NoEmptySingle(hs[1..]);
      if t.alive {
        SurvivesIff(crc, t, hs[1..]);
      } else {
        StaysDead(crc, t, hs[1..]);
      }
    }
  }

  // ---------------------------------------------------------------- what is taken is served

  datatype Side = Can | Usb

  /** The payload a turn takes: CAN before USB, and nothing outside a turn or after a panic. */
  function TakenBy(n: Node, h: Happening): Option<(Side, seq<Byte>)> {
    if !n.alive || !h.Turn? then None
    else if n.canBox.slot.Some? then Some((Can, n.canBox.slot.value))
    else if n.usbBox.slot.Some? then Some((Usb, n.usbBox.slot.value))
    else None
  }

  /** All payloads taken during a run, in order, each with its side. */
  function Served(crc: CrcFn, n: Node, hs: seq<Happening>): seq<(Side, seq<Byte>)>
    requires n.Valid() && AllHonestEvents(hs)
    decreases |hs|
  {
    if hs == [] then []
    else
      NextKeepsValid(crc, n, hs[0]);
      (if TakenBy(n, hs[0]).Some? then [TakenBy(n, hs[0]).value] else [])
      + Served(crc, Next(crc, n, hs[0]), hs[1..])
  }

  function OfSide(side: Side, payloads: seq<(Side, seq<Byte>)>): seq<seq<Byte>> {
    if payloads == [] then []
    else (if payloads[0].0 == side then [payloads[0].1] else []) + OfSide(side, payloads[1..])
  }

  /** What the server is given: in every turn the payload taken in it, and then a background step. */
  function Given(crc: CrcFn, n: Node, hs: seq<Happening>): seq<Event>
    requires n.Valid() && AllHonestEvents(hs)
    decreases |hs|
  {
    if hs == [] then []
    else
      NextKeepsValid(crc, n, hs[0]);
      (if n.alive && hs[0].Turn? then TurnEvents(TakenBy(n, hs[0]), hs[0]) else [])
      + Given(crc, Next(crc, n, hs[0]), hs[1..])
  }

  function TurnEvents(taken: Option<(Side, seq<Byte>)>, h: Happening): seq<Event>
    requires h.Turn?
  {
    (if taken.Some? then [Cmd(taken.value.1, h.now, h.env)] else []) + [Tick(h.later, h.afterwards)]
  }

  lemma {:induction false} RunInTwo(crc: CrcFn, s: Ecu, a: seq<Event>, b: seq<Event>)
    requires s.Valid() && WellFormed(a) && WellFormed(b)
    ensures WellFormed(a + b) && Run(crc, s, a + b) == Run(crc, Run(crc, s, a), b)
    decreases |a|
  {
    if a == [] {
      assert a + b == b;
    } else {
      assert (a + b)[1..] == a[1..] + b && (a + b)[0] == a[0];
      StepKeepsValid(crc, s, a[0]);
      RunInTwo(crc, Step(crc, s, a[0]), a[1..], b);
    }
  }

  /** One turn that the node survives gives the server exactly its events. */
  lemma TurnServes(crc: CrcFn, n: Node, h: Happening)
    requires n.Valid() && n.alive && h.Turn? && Next(crc, n, h).alive
    ensures var events := TurnEvents(TakenBy(n, h), h);
            WellFormed(events) && Next(crc, n, h).server == Run(crc, n.server, events)
  {
    var tick := Tick(h.later, h.afterwards);
    var taken := TakenBy(n, h);
    if taken.Some? {
      var cmd := Cmd(taken.value.1, h.now, h.env);
      var s := Step(crc, n.server, cmd);
      StepKeepsValid(crc, n.server, cmd);
      assert TurnEvents(taken, h) == [cmd, tick] && [cmd, tick][1..] == [tick];
      assert Run(crc, n.server, [cmd, tick]) == Run(crc, s, [tick]);
      TickRuns(crc, s, tick);
    } else {
      assert TurnEvents(taken, h) == [tick];
      TickRuns(crc, n.server, tick);
    }
  }

  lemma TickRuns(crc: CrcFn, s: Ecu, tick: Event)
    requires s.Valid() && tick.Tick?
    ensures WellFormed([tick]) && Run(crc, s, [tick]) == Update(s, tick.now, tick.env)
  {
    StepKeepsValid(crc, s, tick);
    assert Run(crc, s, [tick]) == Run(crc, Step(crc, s, tick), []);
  }

  /**
    In every run that the node survives the server has been given exactly the payloads that were taken, in the
    order in which they were, CAN before USB, each followed by the turn's background step.
   */
  lemma {:induction false} TakenIsServed(crc: CrcFn, n: Node, hs: seq<Happening>)
    requires n.Valid() && n.alive && AllHonestEvents(hs) && RunNode(crc, n, hs).alive
    ensures WellFormed(Given(crc, n, hs))
    ensures RunNode(crc, n, hs).server == Run(crc, n.server, Given(crc, n, hs))
    decreases |hs|
  {
    if hs != [] {
      NextKeepsValid(crc, n, hs[0]);
      var t := Next(crc, n, hs[0]);
      if !t.alive {
        StaysDead(crc, t, hs[1..]);
      }
      TakenIsServed(crc, t, hs[1..]);
      if hs[0].Turn? {
        TurnServes(crc, n, hs[0]);
        RunInTwo(crc, n.server, TurnEvents(TakenBy(n, hs[0]), hs[0]), Given(crc, t, hs[1..]));
      } else {
        assert Given(crc, n, hs) == [] + Given(crc, t, hs[1..]) == Given(crc, t, hs[1..]);
      }
    }
  }

  /** The commands among the events are the payloads taken. */
  function Commands(events: seq<Event>): seq<seq<Byte>> {
    if events == [] then []
    else (if events[0].Cmd? then [events[0].bytes] else []) + Commands(events[1..])
  }

  lemma {:induction false} CommandsInTwo(a: seq<Event>, b: seq<Event>)
    ensures Commands(a + b) == Commands(a) + Commands(b)
    decreases |a|
  {
    if a == [] {
      assert a + b == b;
    } else {
      CommandsInTwo(a[1..], b);
      CommandsOfFirst(a[0], a[1..]);
      CommandsOfFirst(a[0], a[1..] + b);
      assert a == [a[0]] + a[1..] && a + b == [a[0]] + (a[1..] + b);
    }
  }

  lemma CommandsOfFirst(e: Event, rest: seq<Event>)
    ensures Commands([e] + rest) == (if e.Cmd? then [e.bytes] else []) + Commands(rest)
  {
    assert ([e] + rest)[1..] == rest;
  }

  function Payloads(served: seq<(Side, seq<Byte>)>): seq<seq<Byte>> {
    seq(|served|, i requires 0 <= i < |served| => served[i].1)
  }

  lemma TurnCommands(taken: Option<(Side, seq<Byte>)>, h: Happening)
    requires h.Turn?
    ensures Commands(TurnEvents(taken, h)) == if taken.Some? then [taken.value.1] else []
  {
    var tick := Tick(h.later, h.afterwards);
    assert [tick][1..] == [] && Commands([tick]) == [];
    if taken.Some? {
      var cmd := Cmd(taken.value.1, h.now, h.env);
      assert TurnEvents(taken, h) == [cmd, tick] && [cmd, tick][1..] == [tick];
    } else {
      assert TurnEvents(taken, h) == [tick];
    }
  }

  /** What a turn takes leaves its signal. */
  lemma StepTakes(crc: CrcFn, n: Node, h: Happening)
    requires n.Valid() && Honest(h)
    ensures var (t, taken) := (Next(crc, n, h), TakenBy(n, h));
            && t.canBox.taken == n.canBox.taken + (if taken.Some? && taken.value.0 == Can then [taken.value.1] else [])
            && t.usbBox.taken == n.usbBox.taken + (if taken.Some? && taken.value.0 == Usb then [taken.value.1] else [])
  {
  }

  lemma SideOfFirst(side: Side, taken: Option<(Side, seq<Byte>)>, rest: seq<(Side, seq<Byte>)>)
    ensures OfSide(side, (if taken.Some? then [taken.value] else []) + rest)
            == (if taken.Some? && taken.value.0 == side then [taken.value.1] else []) + OfSide(side, rest)
  {
    if taken.Some? {
      assert ([taken.value] + rest)[1..] == rest;
    } else {
      assert [] + rest == rest;
    }
  }

  lemma Appended(a: seq<seq<Byte>>, b: seq<seq<Byte>>, c: seq<seq<Byte>>)
    ensures (a + b) + c == a + (b + c)
  {
  }

  /** On each side the payloads served are those that have left the signal, oldest first. */
  lemma {:induction false} ServedIsTaken(crc: CrcFn, n: Node, hs: seq<Happening>)
    requires n.Valid() && AllHonestEvents(hs)
    ensures RunNode(crc, n, hs).canBox.taken == n.canBox.taken + OfSide(Can, Served(crc, n, hs))
    ensures RunNode(crc, n, hs).usbBox.taken == n.usbBox.taken + OfSide(Usb, Served(crc, n, hs))
    decreases |hs|
  {
    if hs != [] {
      NextKeepsValid(crc, n, hs[0]);
      var t, taken := Next(crc, n, hs[0]), TakenBy(n, hs[0]);
      var rest := Served(crc, t, hs[1..]);
      ServedIsTaken(crc, t, hs[1..]);
      StepTakes(crc, n, hs[0]);
      SideOfFirst(Can, taken, rest);
      SideOfFirst(Usb, taken, rest);
      Appended(n.canBox.taken, if taken.Some? && taken.value.0 == Can then [taken.value.1] else [], OfSide(Can, rest));
      Appended(n.usbBox.taken, if taken.Some? && taken.value.0 == Usb then [taken.value.1] else [], OfSide(Usb, rest));
    }
  }

  lemma PayloadsOfFirst(taken: Option<(Side, seq<Byte>)>, rest: seq<(Side, seq<Byte>)>)
    ensures Payloads((if taken.Some? then [taken.value] else []) + rest)
            == (if taken.Some? then [taken.value.1] else []) + Payloads(rest)
  {
  }

  /** The commands the server is given are the payloads served. */
  lemma {:induction false} CommandsAreServed(crc: CrcFn, n: Node, hs: seq<Happening>)
    requires n.Valid() && AllHonestEvents(hs)
    ensures Commands(Given(crc, n, hs)) == Payloads(Served(crc, n, hs))
    decreases |hs|
  {
    if hs != [] {
      NextKeepsValid(crc, n, hs[0]);
      var t, taken := Next(crc, n, hs[0]), TakenBy(n, hs[0]);
      CommandsAreServed(crc, t, hs[1..]);
      PayloadsOfFirst(taken, Served(crc, t, hs[1..]));
      if n.alive && hs[0].Turn? {
        TurnCommands(taken, hs[0]);
        CommandsInTwo(TurnEvents(taken, hs[0]), Given(crc, t, hs[1..]));
      } else {
        CommandsInTwo([], Given(crc, t, hs[1..]));
      }
    }
  }

  /**
    Put together: a run in which every request is taken in time, begun with empty signals and survived with
    empty signals, has given the server every request that either receiver completed, and nothing else, each
    side's in order.
   */
  lemma AllRequestsAreServed(crc: CrcFn, n: Node, hs: seq<Happening>)
    requires n.Valid() && n.alive && AllHonestEvents(hs) && NoneLost(n) && InTime(crc, n, hs)
    requires var t := RunNode(crc, n, hs); t.alive && t.canBox.slot.None? && t.usbBox.slot.None?
    ensures var t := RunNode(crc, n, hs);
            && WellFormed(Given(crc, n, hs)) && t.server == Run(crc, n.server, Given(crc, n, hs))
            && Commands(Given(crc, n, hs)) == Payloads(Served(crc, n, hs))
            && t.can.delivered == n.canBox.taken + OfSide(Can, Served(crc, n, hs))
            && t.usb.delivered == n.usbBox.taken + OfSide(Usb, Served(crc, n, hs))
  {
    NoneLostIff(crc, n, hs);
    TakenIsServed(crc, n, hs);
    ServedIsTaken(crc, n, hs);
    CommandsAreServed(crc, n, hs);
  }

  // ---------------------------------------------------------------- the receiver's timing

  /**
    A session request of four bytes sets pause and block size of the CAN receiver: a first frame that comes
    after the turn that serves it is taken with them, and one that comes before with those of before.
   */
  lemma SessionSetsTiming(crc: CrcFn, n: Node, turn: Happening, first: Arrival)
    requires n.Valid() && n.alive && turn.Turn?
    requires IsFirstFrame(first.frame) && HonestFirst(first.frame) && first.txFree
    requires n.canBox.slot.Some?
    requires var cmd := n.canBox.slot.value;
             |cmd| == 4 && cmd[0] == 0x10 && cmd[1] in {0x81, 0x85, 0x92}
    ensures Next(crc, n, turn).Valid()
    ensures var (cmd, t) := (n.canBox.slot.value, Next(crc, Next(crc, n, turn), CanFrame(first)).can.mode);
            t.Receiving? && t.bs == cmd[2] && t.stmin == cmd[3]
    ensures var t := Next(crc, n, CanFrame(first)).can.mode;
            t.Receiving? && t.bs == n.server.bs && t.stmin == n.server.stmin
  {
    NextKeepsValid(crc, n, turn);
  }

  // ---------------------------------------------------------------- the two receivers

  /** What waits in a signal is what its receiver completed last; an older payload has been overwritten. */
  predicate Newest(n: Node) {
    && (n.canBox.slot.Some? ==>
          n.can.delivered != [] && n.canBox.slot.value == n.can.delivered[|n.can.delivered| - 1])
    && (n.usbBox.slot.Some? ==>
          n.usb.delivered != [] && n.usbBox.slot.value == n.usb.delivered[|n.usb.delivered| - 1])
  }

  lemma StepKeepsNewest(crc: CrcFn, n: Node, h: Happening)
    requires n.Valid() && Honest(h) && Newest(n)
    ensures Newest(Next(crc, n, h))
  {
    if n.alive {
      match h
      case CanFrame(a) => FrameCompletes(n.can, a.frame, n.server.stmin, n.server.bs, a.txFree);
      case UsbPoll(arrived) => PollCompletes(n.usb, n.pieces + arrived);
      case Turn(now, env, later, afterwards) => TakingKeeps(crc, n, now, env);
    }
  }

  lemma {:induction false} SignalsHoldTheNewest(crc: CrcFn, n: Node, hs: seq<Happening>)
    requires n.Valid() && AllHonestEvents(hs) && Newest(n)
    ensures Newest(RunNode(crc, n, hs))
    decreases |hs|
  {
    if hs != [] {
      NextKeepsValid(crc, n, hs[0]);
      StepKeepsNewest(crc, n, hs[0]);
      SignalsHoldTheNewest(crc, Next(crc, n, hs[0]), hs[1..]);
    }
  }

  predicate OnlyFrames(hs: seq<Happening>) {
    forall i :: 0 <= i < |hs| ==> hs[i].CanFrame?
  }

  function Arrivals(hs: seq<Happening>): seq<Arrival>
    requires OnlyFrames(hs)
  {
    seq(|hs|, i requires 0 <= i < |hs| => hs[i].arrival)
  }

  /** Between two turns the CAN side is the ISO-TP receiver, with the pause and block size the server has. */
  lemma {:induction false} FramesAreFed(crc: CrcFn, n: Node, hs: seq<Happening>)
    requires n.Valid() && n.alive && AllHonestEvents(hs) && OnlyFrames(hs)
    ensures RunNode(crc, n, hs).can == Feed(n.can, Arrivals(hs), n.server.stmin, n.server.bs)
    ensures RunNode(crc, n, hs).server == n.server && RunNode(crc, n, hs).alive
    decreases |hs|
  {
    if hs != [] {
      NextKeepsValid(crc, n, hs[0]);
      assert Arrivals(hs)[0] == hs[0].arrival && Arrivals(hs)[1..] == Arrivals(hs[1..]);
      FramesAreFed(crc, Next(crc, n, hs[0]), hs[1..]);
    }
  }

  // ---------------------------------------------------------------- from the USB wire to the server

  /** The pieces that arrive during a run, and the events of the USB stream they amount to. */
  function Arrived(hs: seq<Happening>): UsbDevice.Pieces {
    if hs == [] then [] else (if hs[0].UsbPoll? then hs[0].arrived else []) + Arrived(hs[1..])
  }

  function Times(k: nat): seq<UsbStream.Event> {
    if k == 0 then [] else [UsbStream.Arrive] + Times(k - 1)
  }

  function Schedule(hs: seq<Happening>): seq<UsbStream.Event> {
    if hs == [] then []
    else (if hs[0].UsbPoll? then Times(|hs[0].arrived|) + [UsbStream.Poll] else []) + Schedule(hs[1..])
  }

  lemma {:induction false} ArrivedIsReady(hs: seq<Happening>)
    requires AllHonestEvents(hs)
    ensures UsbDevice.NoneEmpty(Arrived(hs))
  {
    if hs != [] {
      ArrivedIsReady(hs[1..]);
    }
  }

  lemma {:induction false} AllArrive(
      d: UsbDevice.Device, here: UsbDevice.Pieces, arrived: UsbDevice.Pieces, future: UsbDevice.Pieces,
      more: seq<UsbStream.Event>)
    requires UsbStream.Ready(UsbStream.Wire(d, here, arrived + future))
    ensures UsbStream.Ready(UsbStream.Wire(d, here + arrived, future))
    ensures UsbStream.RunWire(UsbStream.Wire(d, here, arrived + future), Times(|arrived|) + more)
            == UsbStream.RunWire(UsbStream.Wire(d, here + arrived, future), more)
    decreases |arrived|
  {
    var all := arrived + future;
    if arrived == [] {
      assert all == future && here + arrived == here && Times(0) + more == more;
      assert forall i :: 0 <= i < |future| ==> future[i] == all[i];
    } else {
      var next := here + [arrived[0]];
      assert all[1..] == arrived[1..] + future && all[0] == arrived[0];
      assert (Times(|arrived|) + more)[1..] == Times(|arrived| - 1) + more;
      assert next + arrived[1..] == here + arrived;
      AllArrive(d, next, arrived[1..], future, more);
    }
  }

  lemma PollOnWire(w: UsbStream.Wire, more: seq<UsbStream.Event>)
    requires UsbStream.Ready(w)
    ensures UsbStream.RunWire(w, [UsbStream.Poll] + more)
            == UsbStream.RunWire(UsbStream.Happen(w, UsbStream.Poll), more)
  {
    assert ([UsbStream.Poll] + more)[1..] == more;
  }

  /** One happening on the wire, with anything still to come. */
  lemma UsbStep(crc: CrcFn, n: Node, h: Happening, future: UsbDevice.Pieces, more: seq<UsbStream.Event>)
    requires n.Valid() && n.alive && Honest(h) && UsbDevice.NoneEmpty(future)
    ensures var t := Next(crc, n, h);
            var arrived := if h.UsbPoll? then h.arrived else [];
            var events := if h.UsbPoll? then Times(|h.arrived|) + [UsbStream.Poll] else [];
            && UsbStream.Ready(UsbStream.Wire(n.usb, n.pieces, arrived + future))
            && UsbStream.Ready(UsbStream.Wire(t.usb, t.pieces, future))
            && UsbStream.RunWire(UsbStream.Wire(n.usb, n.pieces, arrived + future), events + more)
               == UsbStream.RunWire(UsbStream.Wire(t.usb, t.pieces, future), more)
  {
    NextKeepsValid(crc, n, h);
    if h.UsbPoll? {
      var times := Times(|h.arrived|);
      assert times + [UsbStream.Poll] + more == times + ([UsbStream.Poll] + more);
      AllArrive(n.usb, n.pieces, h.arrived, future, [UsbStream.Poll] + more);
      PollOnWire(UsbStream.Wire(n.usb, n.pieces + h.arrived, future), more);
    } else {
      TurnsLeaveUsb(crc, n, h);
      assert [] + future == future && [] + more == more;
    }
  }

  /** The USB side of a node that stays alive is the device at the end of that wire. */
  lemma {:induction false} UsbIsTheWire(crc: CrcFn, n: Node, hs: seq<Happening>)
    requires n.Valid() && AllHonestEvents(hs) && RunNode(crc, n, hs).alive
    ensures UsbStream.Ready(UsbStream.Wire(n.usb, n.pieces, Arrived(hs)))
    ensures var t := RunNode(crc, n, hs);
            UsbStream.RunWire(UsbStream.Wire(n.usb, n.pieces, Arrived(hs)), Schedule(hs))
            == UsbStream.Wire(t.usb, t.pieces, [])
    decreases |hs|
  {
    if hs != [] {
      NextKeepsValid(crc, n, hs[0]);
      if !n.alive {
        StaysDead(crc, n, hs);
      }
      ArrivedIsReady(hs[1..]);
      UsbIsTheWire(crc, Next(crc, n, hs[0]), hs[1..]);
      UsbStep(crc, n, hs[0], Arrived(hs[1..]), Schedule(hs[1..]));
    }
  }

  lemma TurnsLeaveUsb(crc: CrcFn, n: Node, h: Happening)
    requires n.Valid() && Honest(h) && !h.UsbPoll?
    ensures Next(crc, n, h).usb == n.usb && Next(crc, n, h).pieces == n.pieces
  {
  }

  /**
    From the PC's USB port to the server: requests of 1 to 4095 bytes, cut into pieces in any way that leaves the
    headers whole, read to the end and taken in time, are all served, in order; whatever comes over CAN meanwhile.
   */
  lemma UsbRequestsAreServed(crc: CrcFn, n: Node, hs: seq<Happening>, requests: seq<seq<Byte>>)
    requires n.Valid() && n.alive && AllHonestEvents(hs) && NoneLost(n) && InTime(crc, n, hs)
    requires n.usb == UsbDevice.Device(None, []) && n.pieces == []
    requires var t := RunNode(crc, n, hs); t.alive && t.canBox.slot.None? && t.usbBox.slot.None? && t.pieces == []
    requires UsbStream.Sendable(requests) && UsbStream.Flat(Arrived(hs)) == UsbStream.Stream(requests)
    requires UsbStream.HeadersWhole(Arrived(hs), 0, requests)
    ensures OfSide(Usb, Served(crc, n, hs)) == requests
    ensures WellFormed(Given(crc, n, hs)) && RunNode(crc, n, hs).server == Run(crc, n.server, Given(crc, n, hs))
    ensures Commands(Given(crc, n, hs)) == Payloads(Served(crc, n, hs))
  {
    AllRequestsAreServed(crc, n, hs);
    ArrivedIsReady(hs);
    UsbIsTheWire(crc, n, hs);
    UsbStream.RequestsArriveInOrder(Arrived(hs), requests, Schedule(hs));
    assert n.usbBox.taken == [];
    assert [] + OfSide(Usb, Served(crc, n, hs)) == OfSide(Usb, Served(crc, n, hs));
  }
}
