/**
  Loading the calibrations at start-up: a polling client and a storage task that talk over two bounded
  channels.
 */
module CalHandshake {
  import opened Bytes
  import opened Calibrations

  datatype Request = ReadMech | ReadHydr | ReadTcc | ReadShift

  /** A stored calibration, or nothing when the key is missing or has the wrong size. */
  datatype Response =
    | MechResp(mech: Option<MechCal>) | HydrResp(hydr: Option<HydrCal>) | TccResp | ShiftResp

  /** The key-value store. */
  datatype Store = Store(mech: Option<MechCal>, hydr: Option<HydrCal>)

  datatype Outcome = Waiting | Ready | Error | Panicked

  /** The requests in the order the client sends them. */
  const ORDER: seq<Request> := [ReadMech, ReadHydr, ReadTcc, ReadShift]

  /** Calibration data and the flags for what has arrived; `state` counts the requests sent. */
  datatype Client = Client(
    state: nat, mech: MechCal, gotMech: bool, hydr: HydrCal, gotHydr: bool, gotTcc: bool, gotShift: bool)
  {
    predicate Valid() {
      state <= 4 && mech.Shaped() && hydr.Shaped()
    }

    predicate AllArrived() {
      gotMech && gotHydr && gotTcc && gotShift
    }
  }

  /** `HydrCal::default` and `MechCal::default`: every number zero. */
  function Zeros(n: nat): (z: seq<Byte>)
    ensures |z| == n && forall i :: 0 <= i < n ==> z[i] == 0
  {
    if n == 0 then [] else [0] + Zeros(n - 1)
  }

  function DefaultMech(): (m: MechCal)
    ensures m.Shaped()
  {
    MechCal(0, Zeros(8), Zeros(48), Zeros(6), Zeros(8))
  }

  function DefaultHydr(): (h: HydrCal)
    ensures h.Shaped() && !h.IsValid()
  {
    HydrCal(0, 0, 0, 0, 0, 0, 0, Zeros(7), Zeros(4), Zeros(28))
  }

  predicate StoreShaped(s: Store) {
    (s.mech.Some? ==> s.mech.value.Shaped()) && (s.hydr.Some? ==> s.hydr.value.Shaped())
  }

  function OrDefault<T>(o: Option<T>, d: T): T {
    if o.Some? then o.value else d
  }

  function Answer(s: Store, r: Request): Response {
    match r
    case ReadMech => MechResp(s.mech)
    case ReadHydr => HydrResp(s.hydr)
    case ReadTcc => TccResp
    case ReadShift => ShiftResp
  }

  function Receive(c: Client, r: Response): Client {
    match r
    case MechResp(m) => c.(mech := OrDefault(m, DefaultMech()), gotMech := true)
    case HydrResp(h) => c.(hydr := OrDefault(h, DefaultHydr()), gotHydr := true)
    case TccResp => c.(gotTcc := true)
    case ShiftResp => c.(gotShift := true)
  }

  /**
    A check of a mechanical block, `None` when it panics. The storage is modelled for every check, so that
    what is proved does not rest on the shipped one never succeeding.
   */
  type MechCheck = MechCal -> Option<bool>

  function Shipped(): MechCheck {
    (m: MechCal) => if m.Shaped() then MechIsValid(m) else None
  }

  /** The final test; the mechanical check runs only when the hydraulic one has passed. */
  function Verdict(c: Client, check: MechCheck): Outcome {
    if !c.AllArrived() then Waiting
    else if !c.hydr.IsValid() then Error
    else match check(c.mech)
      case None => Panicked
      case Some(ok) => if ok then Ready else Error
  }

  /** Client, both channels and the request the storage task is working on. */
  datatype Link = Link(client: Client, cmds: seq<Request>, busy: Option<Request>, resps: seq<Response>)

  predicate CanSend(l: Link, cap: nat) {
    l.client.state < 4 && |l.cmds| < cap
  }

  /** The sending half of a poll: the next request goes out when there is one and room for it. */
  function AfterSend(l: Link, cap: nat): Link {
    if CanSend(l, cap) then
      l.(client := l.client.(state := l.client.state + 1), cmds := l.cmds + [ORDER[l.client.state]])
    else l
  }

  /** The receiving half: one response, when there is one. */
  function AfterReceive(l: Link): Link {
    if l.resps == [] then l else l.(client := Receive(l.client, l.resps[0]), resps := l.resps[1..])
  }

  function Poll(l: Link, cap: nat): Link {
    AfterReceive(AfterSend(l, cap))
  }

  // ---------------------------------------------------------------- the objects

  class Channel<T> {
    const cap: nat
    var items: seq<T>

    constructor (cap: nat)
      ensures this.cap == cap && items == []
    {
      this.cap := cap;
      items := [];
    }

    method TrySend(x: T) returns (ok: bool)
      modifies this
      ensures ok == (|old(items)| < cap)
      ensures items == if ok then old(items) + [x] else old(items)
    {
      ok := |items| < cap;
      if ok {
        items := items + [x];
      }
    }

    method TryRecv() returns (x: Option<T>)
      modifies this
      ensures x.Some? == (old(items) != [])
      ensures x.Some? ==> x.value == old(items)[0] && items == old(items)[1..]
      ensures x.None? ==> items == old(items)
    {
      if items == [] {
        x := None;
      } else {
        x := Some(items[0]);
        items := items[1..];
      }
    }
  }

  class EgsCalStorage {
    var hydrCal: (HydrCal, bool)
    var mechCal: (MechCal, bool)
    var tccPumpCal: bool
    var shiftMapCal: bool
    var state: nat
    const tx: Channel<Request>
    const rx: Channel<Response>
    const mechCheck: MechCheck

    function State(): Client
      reads this
    {
      Client(state, mechCal.0, mechCal.1, hydrCal.0, hydrCal.1, tccPumpCal, shiftMapCal)
    }

    /** Client and channels; what the storage task is working on is not seen from here. */
    ghost function View(): Link
      reads this, tx, rx
    {
      Link(State(), tx.items, None, rx.items)
    }

    /** The whole hand-over, given what the storage task is working on. */
    ghost function Seen(busy: Option<Request>): Link
      reads this, tx, rx
    {
      View().(busy := busy)
    }

    constructor (tx: Channel<Request>, rx: Channel<Response>, mechCheck: MechCheck)
      ensures State() == NewClient() && this.tx == tx && this.rx == rx && this.mechCheck == mechCheck
    {
      hydrCal, mechCal := (DefaultHydr(), false), (DefaultMech(), false);
      tccPumpCal, shiftMapCal, state := false, false, 0;
      this.tx, this.rx, this.mechCheck := tx, rx, mechCheck;
    }

    method SendNext()
      requires state <= 4
      modifies this`state, tx
      ensures View() == AfterSend(old(View()), tx.cap)
    {
      var ok := false;
      if state == 0 {
        ok := tx.TrySend(ReadMech);
      } else if state == 1 {
        ok := tx.TrySend(ReadHydr);
      } else if state == 2 {
        ok := tx.TrySend(ReadTcc);
      } else if state == 3 {
        ok := tx.TrySend(ReadShift);
      }
      if ok {
        state := state + 1;
      }
    }

    method ReceiveOne()
      modifies this`mechCal, this`hydrCal, this`shiftMapCal, this`tccPumpCal, rx
      ensures View() == AfterReceive(old(View()))
    {
      var resp := rx.TryRecv();
      if resp.Some? {
        match resp.value {
          case MechResp(cal) => mechCal := (OrDefault(cal, DefaultMech()), true);
          case HydrResp(cal) => hydrCal := (OrDefault(cal, DefaultHydr()), true);
          case ShiftResp => shiftMapCal := true;
          case TccResp => tccPumpCal := true;
        }
      }
    }

    method CheckLoaded() returns (outcome: Outcome)
      ensures outcome == Verdict(State(), mechCheck)
    {
      if hydrCal.1 && mechCal.1 && shiftMapCal && tccPumpCal {
        if !hydrCal.0.IsValid() {
          return Error;
        }
        var mechOk := mechCheck(mechCal.0);
        if mechOk.None? {
          return Panicked;
        }
        outcome := if mechOk.value then Ready else Error;
      } else {
        outcome := Waiting;
      }
    }

    /** `init_poll`: send if possible, receive if possible, and judge what has arrived. */
    method InitPoll() returns (outcome: Outcome)
      requires State().Valid() && StoredShapes(rx.items)
      modifies this, tx, rx
      ensures View() == Poll(old(View()), tx.cap)
      ensures forall busy, db :: Seen(busy) == Apply(old(Seen(busy)), ClientPolls, tx.cap, db)
      ensures State().Valid() && outcome == Verdict(State(), mechCheck)
    {
      PollKeepsShapes(View(), tx.cap);
      ghost var before := View();
      SendNext();
      ReceiveOne();
      forall busy ensures View().(busy := busy) == Poll(before.(busy := busy), tx.cap) {
        PollIgnoresTask(before, tx.cap, busy);
      }
      outcome := CheckLoaded();
    }
  }

  /** The storage task, one half of its endless loop at a time. */
  class Commander {
    const db: Store
    const rx: Channel<Request>
    const tx: Channel<Response>
    var busy: Option<Request>

    /** The whole hand-over, given the client. */
    ghost function Seen(client: Client): Link
      reads this, rx, tx
    {
      Link(client, rx.items, busy, tx.items)
    }

    constructor (db: Store, rx: Channel<Request>, tx: Channel<Response>)
      ensures this.db == db && this.rx == rx && this.tx == tx && busy == None
    {
      this.db, this.rx, this.tx, this.busy := db, rx, tx, None;
    }

    /** Takes the next request, if there is one. */
    method Recv() returns (taken: bool)
      requires busy.None?
      modifies this, rx
      ensures forall c :: taken == Enabled(old(Seen(c)), TaskTakes, tx.cap)
      ensures forall c :: Seen(c) == if taken then Apply(old(Seen(c)), TaskTakes, tx.cap, db) else old(Seen(c))
    {
      busy := rx.TryRecv();
      taken := busy.Some?;
    }

    /** Looks the key up and sends the answer as soon as the channel has room. */
    method Send() returns (sent: bool)
      requires busy.Some?
      modifies this, tx
      ensures forall c :: sent == Enabled(old(Seen(c)), TaskAnswers, tx.cap)
      ensures forall c :: Seen(c) == if sent then Apply(old(Seen(c)), TaskAnswers, tx.cap, db) else old(Seen(c))
    {
      var resp;
      match busy.value {
        case ReadMech => resp := MechResp(db.mech);
        case ReadHydr => resp := HydrResp(db.hydr);
        case ReadShift => resp := ShiftResp;
        case ReadTcc => resp := TccResp;
      }
      sent := tx.TrySend(resp);
      if sent {
        busy := None;
      }
    }
  }

  function NewClient(): Client {
    Client(0, DefaultMech(), false, DefaultHydr(), false, false, false)
  }

  predicate StoredShapes(resps: seq<Response>) {
    forall i :: 0 <= i < |resps| ==>
      && (resps[i].MechResp? && resps[i].mech.Some? ==> resps[i].mech.value.Shaped())
      && (resps[i].HydrResp? && resps[i].hydr.Some? ==> resps[i].hydr.value.Shaped())
  }

  lemma ReceiveKeepsShapes(c: Client, r: Response)
    requires c.Valid() && StoredShapes([r])
    ensures Receive(c, r).Valid()
  {
    assert r == [r][0];
  }

  lemma PollKeepsShapes(l: Link, cap: nat)
    requires l.client.Valid() && StoredShapes(l.resps)
    ensures Poll(l, cap).client.Valid()
  {
    if l.resps != [] {
      ReceiveKeepsShapes(AfterSend(l, cap).client, l.resps[0]);
    }
  }

  /** What the storage task is working on has no part in a poll. */
  lemma PollIgnoresTask(l: Link, cap: nat, busy: Option<Request>)
    ensures Poll(l.(busy := busy), cap) == Poll(l, cap).(busy := busy)
  {
  }

  // ---------------------------------------------------------------- all interleavings

  datatype Move = ClientPolls | TaskTakes | TaskAnswers

  /** The storage task's two halves wait until they can go on; the client can always poll. */
  predicate Enabled(l: Link, m: Move, cap: nat) {
    match m
    case ClientPolls => true
    case TaskTakes => l.busy.None? && l.cmds != []
    case TaskAnswers => l.busy.Some? && |l.resps| < cap
  }

  function Apply(l: Link, m: Move, cap: nat, db: Store): Link
    requires Enabled(l, m, cap)
  {
    match m
    case ClientPolls => Poll(l, cap)
    case TaskTakes => l.(busy := Some(l.cmds[0]), cmds := l.cmds[1..])
    case TaskAnswers => l.(busy := None, resps := l.resps + [Answer(db, l.busy.value)])
  }

  /** The requests whose answers have arrived, in order. */
  function Done(c: Client): seq<Request> {
    (if c.gotMech then [ReadMech] else []) + (if c.gotHydr then [ReadHydr] else [])
    + (if c.gotTcc then [ReadTcc] else []) + (if c.gotShift then [ReadShift] else [])
  }

  function RequestOf(r: Response): Request {
    match r
    case MechResp(_) => ReadMech
    case HydrResp(_) => ReadHydr
    case TccResp => ReadTcc
    case ShiftResp => ReadShift
  }

  function RequestsOf(resps: seq<Response>): seq<Request> {
    seq(|resps|, i requires 0 <= i < |resps| => RequestOf(resps[i]))
  }

  /** Every request, from received through answered, in service and queued to unsent. */
  function Pipeline(l: Link): seq<Request>
    requires l.client.state <= 4
  {
    Done(l.client) + RequestsOf(l.resps) + InService(l.busy) + l.cmds + ORDER[l.client.state..]
  }

  /** The four requests are always in the pipeline once each and in order, and answers come from the store. */
  predicate Invariant(l: Link, cap: nat, db: Store) {
    && l.client.Valid()
    && |l.cmds| <= cap && |l.resps| <= cap
    && Pipeline(l) == ORDER
    && FromStore(l, db)
  }

  function Initial(): Link {
    Link(NewClient(), [], None, [])
  }

  lemma InitialInvariant(cap: nat, db: Store)
    ensures Invariant(Initial(), cap, db)
  {
    assert Pipeline(Initial()) == ORDER;
  }

  function InService(busy: Option<Request>): seq<Request> {
    if busy.Some? then [busy.value] else []
  }

  /** The five stations of the pipeline add up to the four requests, and the flags follow their order. */
  lemma Stations(l: Link)
    requires l.client.state <= 4 && Pipeline(l) == ORDER
    ensures |Done(l.client)| + |l.resps| + |InService(l.busy)| + |l.cmds| + (4 - l.client.state) == 4
    ensures Done(l.client) == ORDER[..|Done(l.client)|]
    ensures l.client.AllArrived() <==> |Done(l.client)| == 4
  {
    assert |ORDER[l.client.state..]| == 4 - l.client.state;
    assert Done(l.client) == Pipeline(l)[..|Done(l.client)|];
  }

  /** The next answer in the queue is for the first request not answered yet. */
  lemma NextAnswer(l: Link)
    requires l.client.state <= 4 && Pipeline(l) == ORDER && l.resps != []
    ensures |Done(l.client)| < 4 && RequestOf(l.resps[0]) == ORDER[|Done(l.client)|]
  {
    Stations(l);
    assert RequestsOf(l.resps)[0] == Pipeline(l)[|Done(l.client)|];
  }

  lemma FlagsInOrder(c: Client, n: nat)
    requires n <= 4 && Done(c) == ORDER[..n]
    ensures (c.gotMech <==> n > 0) && (c.gotHydr <==> n > 1) && (c.gotTcc <==> n > 2) && (c.gotShift <==> n > 3)
  {
    FlagsAreDone(c);
    assert ORDER[..n] == match n case 0 => [] case 1 => [ReadMech] case 2 => [ReadMech, ReadHydr]
                         case 3 => [ReadMech, ReadHydr, ReadTcc] case _ => ORDER;
  }

  lemma FlagsAreDone(c: Client)
    ensures c.gotMech <==> ReadMech in Done(c)
    ensures c.gotHydr <==> ReadHydr in Done(c)
    ensures c.gotTcc <==> ReadTcc in Done(c)
    ensures c.gotShift <==> ReadShift in Done(c)
  {
  }

  /** An answer that comes in its turn raises the one flag that is next. */
  lemma ReceiveInTurn(c: Client, r: Response)
    requires |Done(c)| < 4 && Done(c) == ORDER[..|Done(c)|] && RequestOf(r) == ORDER[|Done(c)|]
    ensures Done(Receive(c, r)) == Done(c) + [RequestOf(r)]
  {
    FlagsInOrder(c, |Done(c)|);
  }

  lemma SendKeepsPipeline(l: Link, cap: nat)
    requires l.client.state <= 4 && Pipeline(l) == ORDER
    ensures AfterSend(l, cap).client.state <= 4 && Pipeline(AfterSend(l, cap)) == ORDER
  {
    if CanSend(l, cap) {
      var n := l.client.state;
      var before := Done(l.client) + RequestsOf(l.resps) + InService(l.busy);
      assert before + l.cmds + ORDER[n..] == before + (l.cmds + [ORDER[n]]) + ORDER[n + 1..];
    }
  }

  lemma ReceiveKeepsPipeline(l: Link)
    requires l.client.state <= 4 && Pipeline(l) == ORDER
    ensures AfterReceive(l).client.state <= 4 && Pipeline(AfterReceive(l)) == ORDER
  {
    if l.resps != [] {
      Stations(l);
      NextAnswer(l);
      ReceiveInTurn(l.client, l.resps[0]);
      FirstOf(l.resps);
      Regroup(Done(l.client), [RequestOf(l.resps[0])], RequestsOf(l.resps[1..]));
    }
  }

  lemma FirstOf(resps: seq<Response>)
    requires resps != []
    ensures RequestsOf(resps) == [RequestOf(resps[0])] + RequestsOf(resps[1..])
  {
  }

  lemma Regroup(a: seq<Request>, b: seq<Request>, c: seq<Request>)
    ensures a + (b + c) == (a + b) + c
  {
  }

  lemma MoveKeepsPipeline(l: Link, m: Move, cap: nat, db: Store)
    requires l.client.state <= 4 && Pipeline(l) == ORDER && Enabled(l, m, cap)
    ensures Apply(l, m, cap, db).client.state <= 4 && Pipeline(Apply(l, m, cap, db)) == ORDER
  {
    if m.ClientPolls? {
      SendKeepsPipeline(l, cap);
      ReceiveKeepsPipeline(AfterSend(l, cap));
    } else {
      TaskKeepsPipeline(l, m, cap, db);
    }
  }

  lemma MoveKeepsRoom(l: Link, m: Move, cap: nat, db: Store)
    requires |l.cmds| <= cap && |l.resps| <= cap && Enabled(l, m, cap)
    ensures |Apply(l, m, cap, db).cmds| <= cap && |Apply(l, m, cap, db).resps| <= cap
  {
  }

  lemma TaskKeepsPipeline(l: Link, m: Move, cap: nat, db: Store)
    requires l.client.state <= 4 && Pipeline(l) == ORDER && !m.ClientPolls? && Enabled(l, m, cap)
    ensures Pipeline(Apply(l, m, cap, db)) == ORDER
  {
    var before := Done(l.client) + RequestsOf(l.resps);
    if m.TaskTakes? {
      assert before + [] + l.cmds == before + [l.cmds[0]] + l.cmds[1..];
    } else {
      var answer := Answer(db, l.busy.value);
      assert RequestsOf(l.resps + [answer]) == RequestsOf(l.resps) + [l.busy.value];
      assert before + [l.busy.value] + l.cmds == Done(l.client) + RequestsOf(l.resps + [answer]) + [] + l.cmds;
    }
  }

  predicate FromStore(l: Link, db: Store) {
    && (forall i :: 0 <= i < |l.resps| ==> l.resps[i] == Answer(db, RequestOf(l.resps[i])))
    && l.client.mech == (if l.client.gotMech then OrDefault(db.mech, DefaultMech()) else DefaultMech())
    && l.client.hydr == (if l.client.gotHydr then OrDefault(db.hydr, DefaultHydr()) else DefaultHydr())
  }

  lemma ReceiveKeepsFromStore(l: Link, db: Store)
    requires FromStore(l, db)
    ensures FromStore(AfterReceive(l), db)
  {
    if l.resps != [] {
      assert l.resps[0] == Answer(db, RequestOf(l.resps[0]));
    }
  }

  lemma ApplyKeepsFromStore(l: Link, m: Move, cap: nat, db: Store)
    requires FromStore(l, db) && Enabled(l, m, cap)
    ensures FromStore(Apply(l, m, cap, db), db)
  {
    match m
    case ClientPolls =>
      ReceiveKeepsFromStore(AfterSend(l, cap), db);
    case TaskTakes =>
    case TaskAnswers =>
      assert RequestOf(Answer(db, l.busy.value)) == l.busy.value;
  }

  lemma FromStoreIsShaped(l: Link, db: Store)
    requires FromStore(l, db) && StoreShaped(db)
    ensures l.client.mech.Shaped() && l.client.hydr.Shaped()
  {
  }

  /** Whatever moves next, every request stays in the pipeline exactly once and in its turn. */
  lemma MoveKeepsInvariant(l: Link, m: Move, cap: nat, db: Store)
    requires StoreShaped(db) && Invariant(l, cap, db) && Enabled(l, m, cap)
    ensures Invariant(Apply(l, m, cap, db), cap, db)
  {
    ApplyKeepsFromStore(l, m, cap, db);
    FromStoreIsShaped(Apply(l, m, cap, db), db);
    MoveKeepsPipeline(l, m, cap, db);
    MoveKeepsRoom(l, m, cap, db);
  }

  // ---------------------------------------------------------------- progress

  /** Hops still to be made: a request makes four, from unsent to received. */
  function Hops(l: Link): int {
    4 * (4 - l.client.state) + 3 * |l.cmds| + 2 * |InService(l.busy)| + |l.resps|
  }

  predicate Progresses(l: Link, m: Move, cap: nat) {
    Enabled(l, m, cap) && (m.ClientPolls? ==> CanSend(l, cap) || l.resps != [])
  }

  lemma SendHop(l: Link, cap: nat)
    ensures Hops(AfterSend(l, cap)) == if CanSend(l, cap) then Hops(l) - 1 else Hops(l)
  {
  }

  lemma ReceiveHop(l: Link)
    ensures Hops(AfterReceive(l)) == if l.resps != [] then Hops(l) - 1 else Hops(l)
  {
  }

  /** A step that does something brings a request a hop further; a poll that does nothing changes nothing. */
  lemma HopsDrop(l: Link, m: Move, cap: nat, db: Store)
    requires l.client.state <= 4 && Enabled(l, m, cap)
    ensures Progresses(l, m, cap) ==> Hops(Apply(l, m, cap, db)) < Hops(l)
    ensures !Progresses(l, m, cap) ==> Apply(l, m, cap, db) == l
  {
    if m.ClientPolls? {
      SendHop(l, cap);
      ReceiveHop(AfterSend(l, cap));
    }
  }

  /** No deadlock: until all four have arrived some step makes progress; and then none is left to make. */
  lemma StuckOnlyWhenDone(l: Link, cap: nat, db: Store)
    requires Invariant(l, cap, db) && cap >= 1
    ensures l.client.AllArrived() <==> !exists m :: Progresses(l, m, cap)
    ensures l.client.AllArrived() <==> Hops(l) == 0
    ensures l.client.AllArrived() ==> l.cmds == [] && l.resps == [] && l.busy.None? && l.client.state == 4
  {
    Stations(l);
    if !l.client.AllArrived() {
      if l.busy.Some? && |l.resps| < cap {
        assert Progresses(l, TaskAnswers, cap);
      } else if l.busy.None? && l.cmds != [] {
        assert Progresses(l, TaskTakes, cap);
      } else {
        assert Progresses(l, ClientPolls, cap);
      }
    }
  }

  predicate Legal(l: Link, moves: seq<Move>, cap: nat, db: Store)
    decreases |moves|
  {
    moves == [] || (Enabled(l, moves[0], cap) && Legal(Apply(l, moves[0], cap, db), moves[1..], cap, db))
  }

  function Run(l: Link, moves: seq<Move>, cap: nat, db: Store): Link
    requires Legal(l, moves, cap, db)
    decreases |moves|
  {
    if moves == [] then l else Run(Apply(l, moves[0], cap, db), moves[1..], cap, db)
  }

  /** Steps of a run that did something. */
  function Useful(l: Link, moves: seq<Move>, cap: nat, db: Store): nat
    requires Legal(l, moves, cap, db)
    decreases |moves|
  {
    if moves == [] then 0
    else (if Progresses(l, moves[0], cap) then 1 else 0) + Useful(Apply(l, moves[0], cap, db), moves[1..], cap, db)
  }

  /** The invariant holds in every reachable state, and the useful steps are paid for with hops. */
  lemma {:induction false} RunKeepsInvariant(l: Link, moves: seq<Move>, cap: nat, db: Store)
    requires StoreShaped(db) && Invariant(l, cap, db) && Legal(l, moves, cap, db)
    ensures Invariant(Run(l, moves, cap, db), cap, db)
    ensures Useful(l, moves, cap, db) + Hops(Run(l, moves, cap, db)) <= Hops(l)
    decreases |moves|
  {
    if moves != [] {
      MoveKeepsInvariant(l, moves[0], cap, db);
      HopsDrop(l, moves[0], cap, db);
      RunKeepsInvariant(Apply(l, moves[0], cap, db), moves[1..], cap, db);
    }
  }

  /** From every reachable state the hand-over can be brought to its end. */
  lemma {:induction false} CanFinish(l: Link, cap: nat, db: Store) returns (moves: seq<Move>)
    requires StoreShaped(db) && Invariant(l, cap, db) && cap >= 1
    ensures Legal(l, moves, cap, db) && Run(l, moves, cap, db).client.AllArrived()
    decreases Hops(l)
  {
    StuckOnlyWhenDone(l, cap, db);
    if l.client.AllArrived() {
      moves := [];
    } else {
      var m :| Progresses(l, m, cap);
      HopsDrop(l, m, cap, db);
      MoveKeepsInvariant(l, m, cap, db);
      var rest := CanFinish(Apply(l, m, cap, db), cap, db);
      moves := [m] + rest;
      assert moves[1..] == rest;
    }
  }

  /** What the four stored calibrations lead to. A missing one counts as all zero, which no check lets pass. */
  function StoreVerdict(db: Store, check: MechCheck): Outcome {
    if db.hydr.None? || !db.hydr.value.IsValid() then Error
    else match check(OrDefault(db.mech, DefaultMech()))
      case None => Panicked
      case Some(ok) => if ok then Ready else Error
  }

  /**
    Every run from start-up, in whatever order client and task take their turns: at most sixteen steps
    do anything, and the outcome is Waiting until all four answers are in and then the one the store decides.
   */
  lemma HandshakeIsDeterministic(moves: seq<Move>, cap: nat, db: Store, check: MechCheck)
    requires StoreShaped(db) && cap >= 1 && Legal(Initial(), moves, cap, db)
    ensures Useful(Initial(), moves, cap, db) <= 16
    ensures var end := Run(Initial(), moves, cap, db);
            && Verdict(end.client, check) == (if end.client.AllArrived() then StoreVerdict(db, check) else Waiting)
            && (end.client.AllArrived() ==> end.cmds == [] && end.resps == [] && end.busy.None?)
  {
    InitialInvariant(cap, db);
    RunKeepsInvariant(Initial(), moves, cap, db);
    var end := Run(Initial(), moves, cap, db);
    StuckOnlyWhenDone(end, cap, db);
    if end.client.AllArrived() {
      VerdictIsTheStores(end, db, check);
    }
  }

  lemma VerdictIsTheStores(l: Link, db: Store, check: MechCheck)
    requires FromStore(l, db) && l.client.AllArrived()
    ensures Verdict(l.client, check) == StoreVerdict(db, check)
  {
  }

  /** With the mechanical check as it is, no store leads to Ready; a missing mechanical block leads to Error. */
  lemma NeverReady(db: Store)
    requires StoreShaped(db)
    ensures StoreVerdict(db, Shipped()) != Ready
    ensures db.mech.None? ==> StoreVerdict(db, Shipped()) == Error
  {
    assert DefaultMech().ratioTable[1] == 0;
    MechCheckNeverSucceeds(OrDefault(db.mech, DefaultMech()));
  }
}
