/** The USB byte stream in both directions: requests to the device, replies and log packets to the PC. */
module UsbStream {
  import opened Bytes
  import opened UsbDevice

  // ---------------------------------------------------------------- requests to the device

  /** Everything the PC's writer thread sends for a list of requests. */
  function Stream(requests: seq<seq<Byte>>): seq<Byte>
    decreases |requests|
  {
    if requests == [] then [] else Framed(requests[0]) + Stream(requests[1..])
  }

  /** Where the k-th request's header begins in the stream. */
  function HeaderAt(requests: seq<seq<Byte>>, k: nat): nat
    requires k <= |requests|
    decreases k
  {
    if k == 0 then 0 else 2 + |requests[0]| + HeaderAt(requests[1..], k - 1)
  }

  /** Length of the first `i` pieces. */
  function Total(pieces: Pieces, i: nat): nat
    requires i <= |pieces|
    decreases i
  {
    if i == 0 then 0 else |pieces[0]| + Total(pieces[1..], i - 1)
  }

  /** No piece ends between the two bytes of a header; the first header comes after `skip` bytes. */
  predicate HeadersWhole(pieces: Pieces, skip: nat, requests: seq<seq<Byte>>) {
    forall i, k :: 1 <= i <= |pieces| && 0 <= k < |requests| ==>
      Total(pieces, i) != skip + HeaderAt(requests, k) + 1
  }

  /** Request bodies of 1 to 4095 bytes. */
  predicate Sendable(requests: seq<seq<Byte>>) {
    forall k :: 0 <= k < |requests| ==> 0 < |requests[k]| < 4096
  }

  /** The requests from `k` on, the first `n` bytes of its body already read, are what is still to come. */
  predicate ToCome(pieces: Pieces, requests: seq<seq<Byte>>, k: nat, n: nat)
    requires k < |requests| && n <= |requests[k]|
  {
    Flat(pieces) == requests[k][n..] + Stream(requests[k + 1..])
  }

  /** All bytes of the pieces. */
  function Flat(pieces: Pieces): seq<Byte>
    decreases |pieces|
  {
    if pieces == [] then [] else pieces[0] + Flat(pieces[1..])
  }

  lemma {:induction false} FlatAppend(a: Pieces, b: Pieces)
    ensures Flat(a + b) == Flat(a) + Flat(b)
    decreases |a|
  {
    if a == [] {
      assert a + b == b;
    } else {
      assert (a + b)[1..] == a[1..] + b;
      FlatAppend(a[1..], b);
    }
  }

  /** The device is in step with the list of requests; `pieces` is everything not yet read. */
  predicate InStep(d: Device, pieces: Pieces, requests: seq<seq<Byte>>) {
    var k := |d.delivered|;
    && NoneEmpty(pieces) && Sound(d) && Sendable(requests)
    && k <= |requests| && d.delivered == requests[..k]
    && match d.reading
       case None => Flat(pieces) == Stream(requests[k..])
       case Some((got, expected)) =>
         && k < |requests| && expected == |requests[k]| && |got| < expected
         && got == requests[k][..|got|]
         && ToCome(pieces, requests, k, |got|)
  }

  /** No header still to come is cut. */
  predicate Whole(d: Device, pieces: Pieces, requests: seq<seq<Byte>>)
    requires InStep(d, pieces, requests)
  {
    var k := |d.delivered|;
    match d.reading
    case None => HeadersWhole(pieces, 0, requests[k..])
    case Some((got, expected)) => HeadersWhole(pieces, expected - |got|, requests[k + 1..])
  }

  /** Reading `n` bytes off the front moves the remaining boundaries by `n`. */
  lemma ReadShifts(pieces: Pieces, n: nat)
    requires pieces != [] && n <= |pieces[0]| && NoneEmpty(pieces)
    ensures var rest := AfterRead(pieces, n);
            && NoneEmpty(rest) && Flat(pieces) == pieces[0][..n] + Flat(rest)
            && |rest| <= |pieces|
            && forall i :: 1 <= i <= |rest| ==> Total(rest, i) + n == Total(pieces, i + |pieces| - |rest|)
  {
    var rest := AfterRead(pieces, n);
    if n == |pieces[0]| {
      assert rest == pieces[1..];
      assert pieces[0][..n] == pieces[0];
    } else {
      assert rest[1..] == pieces[1..];
      assert pieces[0] == pieces[0][..n] + pieces[0][n..];
    }
  }

  lemma ReadAhead(here: Pieces, future: Pieces, n: nat)
    requires here != [] && n <= |here[0]|
    ensures AfterRead(here, n) + future == AfterRead(here + future, n)
  {
    assert (here + future)[1..] == here[1..] + future;
  }

  lemma {:induction false} TotalAtLeastFirst(pieces: Pieces, i: nat)
    requires 1 <= i <= |pieces|
    ensures Total(pieces, i) >= |pieces[0]|
  {
  }

  /** A read of body bytes cuts no header, so it changes nothing about those to come. */
  lemma BodyReadKeepsWhole(all: Pieces, n: nat, skip: nat, requests: seq<seq<Byte>>)
    requires all != [] && NoneEmpty(all) && n <= |all[0]| && n <= skip
    ensures HeadersWhole(all, skip, requests) <==> HeadersWhole(AfterRead(all, n), skip - n, requests)
  {
    var rest := AfterRead(all, n);
    ReadShifts(all, n);
    var gone := |all| - |rest|;
    if HeadersWhole(all, skip, requests) {
      forall i, k | 1 <= i <= |rest| && 0 <= k < |requests|
        ensures Total(rest, i) != skip - n + HeaderAt(requests, k) + 1
      {
        assert Total(all, i + gone) != skip + HeaderAt(requests, k) + 1;
      }
    }
    if HeadersWhole(rest, skip - n, requests) {
      forall i, k | 1 <= i <= |all| && 0 <= k < |requests|
        ensures Total(all, i) != skip + HeaderAt(requests, k) + 1
      {
        if i > gone {
          assert Total(rest, i - gone) != skip - n + HeaderAt(requests, k) + 1;
        } else {
          assert Total(all, 1) == |all[0]| == n;
        }
      }
    }
  }

  /** Neither does reading a whole header. */
  lemma HeaderReadKeepsWhole(all: Pieces, requests: seq<seq<Byte>>)
    requires all != [] && NoneEmpty(all) && |all[0]| >= 2 && requests != []
    ensures HeadersWhole(all, 0, requests) <==> HeadersWhole(AfterRead(all, 2), |requests[0]|, requests[1..])
  {
    var rest := AfterRead(all, 2);
    ReadShifts(all, 2);
    var gone := |all| - |rest|;
    if HeadersWhole(all, 0, requests) {
      forall i, k | 1 <= i <= |rest| && 0 <= k < |requests[1..]|
        ensures Total(rest, i) != |requests[0]| + HeaderAt(requests[1..], k) + 1
      {
        assert HeaderAt(requests, k + 1) == 2 + |requests[0]| + HeaderAt(requests[1..], k);
        assert Total(all, i + gone) != 0 + HeaderAt(requests, k + 1) + 1;
      }
    }
    if HeadersWhole(rest, |requests[0]|, requests[1..]) {
      forall i, k | 1 <= i <= |all| && 0 <= k < |requests|
        ensures Total(all, i) != 0 + HeaderAt(requests, k) + 1
      {
        TotalAtLeastFirst(all, i);
        if k > 0 {
          assert HeaderAt(requests, k) == 2 + |requests[0]| + HeaderAt(requests[1..], k - 1);
          if i > gone {
            assert Total(rest, i - gone) != |requests[0]| + HeaderAt(requests[1..], k - 1) + 1;
          } else {
            assert Total(all, 1) == |all[0]| == 2;
          }
        }
      }
    }
  }

  /** The next header, read in one go, announces the next request. */
  lemma HeaderInStep(d: Device, here: Pieces, future: Pieces, requests: seq<seq<Byte>>)
    requires d.reading.None? && NoneEmpty(here) && InStep(d, here + future, requests)
    requires here != [] && |here[0]| >= 2
    ensures var (e, rest) := ReadHeader(d, here);
            && NoneEmpty(rest) && InStep(e, rest + future, requests) && e.reading.Some?
            && (Whole(e, rest + future, requests) <==> Whole(d, here + future, requests))
  {
    var k, all := |d.delivered|, here + future;
    assert all[0] == here[0];
    ReadShifts(all, 2);
    assert Flat(all) != [];
    StreamEnds(requests, k);
    var todo := requests[k..];
    assert todo[0] == requests[k] && todo[1..] == requests[k + 1..];
    HeaderReadKeepsWhole(all, todo);
    ReadAhead(here, future, 2);
    AfterReadKeeps(here, 2);
    HeaderBytes(all[0][..2], Flat(AfterRead(all, 2)), requests[k], Stream(todo[1..]));
    assert requests[k][0..] == requests[k];
  }

  /** Something still to come means that a request is still to come. */
  lemma StreamEnds(requests: seq<seq<Byte>>, k: nat)
    requires k <= |requests| && Stream(requests[k..]) != []
    ensures k < |requests|
  {
  }

  /** A header byte that comes alone is the first half of a cut header. */
  lemma LoneByteIsCut(d: Device, here: Pieces, future: Pieces, requests: seq<seq<Byte>>)
    requires d.reading.None? && InStep(d, here + future, requests) && here != [] && |here[0]| == 1
    ensures !Whole(d, here + future, requests)
  {
    var k, all := |d.delivered|, here + future;
    assert all[0] == here[0] && Flat(all) != [];
    StreamEnds(requests, k);
    assert Total(all, 1) == 1 == 0 + HeaderAt(requests[k..], 0) + 1;
  }

  /** Splitting the stream after the two header bytes. */
  lemma HeaderBytes(h: seq<Byte>, rest: seq<Byte>, request: seq<Byte>, more: seq<Byte>)
    requires |h| == 2 && 0 < |request| < 4096 && h + rest == Framed(request) + more
    ensures FromLe16(h) % 4096 == |request| && rest == request + more
  {
    assert h == (h + rest)[..2] == Le16(|request|);
    assert rest == (h + rest)[2..] == (Framed(request) + more)[2..];
    Le16RoundTrip(|request|);
  }

  /** The device after one body read of `part`. */
  function TakeBody(d: Device, part: seq<Byte>): Device
    requires d.reading.Some?
  {
    var (got, expected) := d.reading.value;
    if |got + part| == expected then Device(None, d.delivered + [got + part])
    else d.(reading := Some((got + part, expected)))
  }

  /** One body read keeps the device in step. */
  lemma OneBodyRead(d: Device, all: Pieces, requests: seq<seq<Byte>>, n: nat)
    requires d.reading.Some? && InStep(d, all, requests) && all != []
    requires 0 < n <= |all[0]| && |d.reading.value.0| + n <= d.reading.value.1
    ensures InStep(TakeBody(d, all[0][..n]), AfterRead(all, n), requests)
    ensures Whole(TakeBody(d, all[0][..n]), AfterRead(all, n), requests) <==> Whole(d, all, requests)
  {
    var k := |d.delivered|;
    var (got, expected) := d.reading.value;
    BodyMoves(all, requests, k, |got|, n);
    BodyReadKeepsWhole(all, n, expected - |got|, requests[k + 1..]);
    assert got + all[0][..n] == requests[k][..|got| + n];
    if |got| + n == expected {
      RequestComplete(AfterRead(all, n), requests, k);
      assert requests[..k + 1] == requests[..k] + [requests[k]];
    }
  }

  /** A body read of `n` bytes moves what is still to come by `n`. */
  lemma BodyMoves(all: Pieces, requests: seq<seq<Byte>>, k: nat, at: nat, n: nat)
    requires k < |requests| && at + n <= |requests[k]| && ToCome(all, requests, k, at)
    requires all != [] && n <= |all[0]| && NoneEmpty(all)
    ensures NoneEmpty(AfterRead(all, n)) && all[0][..n] == requests[k][at..at + n]
    ensures ToCome(AfterRead(all, n), requests, k, at + n)
  {
    var rest := AfterRead(all, n);
    ReadShifts(all, n);
    BodyBytes(all[0][..n], Flat(rest), requests[k], at, Stream(requests[k + 1..]));
  }

  /** After the last byte of a body the next request's header is due. */
  lemma RequestComplete(pieces: Pieces, requests: seq<seq<Byte>>, k: nat)
    requires k < |requests| && ToCome(pieces, requests, k, |requests[k]|)
    ensures Flat(pieces) == Stream(requests[k + 1..])
    ensures requests[k][..|requests[k]|] == requests[k]
  {
    assert requests[k][|requests[k]|..] + Stream(requests[k + 1..]) == Stream(requests[k + 1..]);
  }

  /** Body reads stay in step, whatever pieces the body arrives in. */
  lemma {:induction false} BodyInStep(d: Device, here: Pieces, future: Pieces, requests: seq<seq<Byte>>)
    requires d.reading.Some? && NoneEmpty(here) && InStep(d, here + future, requests)
    ensures var (e, rest) := ReadBody(d, here);
            && NoneEmpty(rest) && InStep(e, rest + future, requests)
            && (Whole(e, rest + future, requests) <==> Whole(d, here + future, requests))
    decreases |here|
  {
    if here != [] {
      var (got, expected) := d.reading.value;
      var n := Min(expected - |got|, |here[0]|);
      OneBodyRead(d, here + future, requests, n);
      ReadAhead(here, future, n);
      AfterReadKeeps(here, n);
      if |got| + n < expected {
        BodyInStep(TakeBody(d, here[0][..n]), AfterRead(here, n), future, requests);
      }
    }
  }

  lemma BodyBytes(part: seq<Byte>, rest: seq<Byte>, request: seq<Byte>, at: nat, more: seq<Byte>)
    requires at + |part| <= |request| && part + rest == request[at..] + more
    ensures part == request[at..at + |part|] && rest == request[at + |part|..] + more
  {
    var n := |part|;
    assert part == (part + rest)[..n] == (request[at..] + more)[..n];
    assert rest == (part + rest)[n..] == (request[at..] + more)[n..];
  }

  /** A poll that finds no lone header byte keeps the device in step. */
  lemma PollInStep(d: Device, here: Pieces, future: Pieces, requests: seq<seq<Byte>>)
    requires NoneEmpty(here) && InStep(d, here + future, requests)
    requires d.reading.None? && here != [] ==> |here[0]| >= 2
    ensures var (e, rest) := Polled(d, here);
            && NoneEmpty(rest) && InStep(e, rest + future, requests)
            && (Whole(e, rest + future, requests) <==> Whole(d, here + future, requests))
  {
    if d.reading.Some? {
      BodyInStep(d, here, future, requests);
    } else if here != [] {
      HeaderInStep(d, here, future, requests);
      var (e, rest) := ReadHeader(d, here);
      BodyInStep(e, rest, future, requests);
    }
  }

  // ---------------------------------------------------------------- what is lost is lost

  /** Bytes it takes to send the requests. */
  function Cost(requests: seq<seq<Byte>>): nat {
    if requests == [] then 0 else Cost(requests[..|requests| - 1]) + 2 + |requests[|requests| - 1]|
  }

  lemma CostOfOneMore(a: seq<seq<Byte>>, r: seq<Byte>)
    ensures Cost(a + [r]) == Cost(a) + 2 + |r|
  {
    assert (a + [r])[..|a|] == a;
  }

  lemma {:induction false} CostIsLength(done: seq<seq<Byte>>, todo: seq<seq<Byte>>)
    ensures Cost(done + todo) == Cost(done) + |Stream(todo)|
    decreases |todo|
  {
    if todo == [] {
      assert done + todo == done;
    } else {
      CostOfOneMore(done, todo[0]);
      assert (done + [todo[0]]) + todo[1..] == done + todo;
      CostIsLength(done + [todo[0]], todo[1..]);
    }
  }

  /** Bytes that are delivered, being read, or still to come. */
  function Weight(d: Device, pieces: Pieces): nat {
    Cost(d.delivered) + (if d.reading.Some? then 2 + |d.reading.value.0| else 0) + |Flat(pieces)|
  }

  lemma {:induction false} BodyKeepsWeight(d: Device, here: Pieces)
    requires NoneEmpty(here) && d.reading.Some? && |d.reading.value.0| < d.reading.value.1
    ensures Weight(ReadBody(d, here).0, ReadBody(d, here).1) == Weight(d, here)
    decreases |here|
  {
    if here != [] {
      var (got, expected) := d.reading.value;
      var n := Min(expected - |got|, |here[0]|);
      ReadShifts(here, n);
      var more := got + here[0][..n];
      if |more| == expected {
        CostOfOneMore(d.delivered, more);
      } else {
        BodyKeepsWeight(d.(reading := Some((more, expected))), AfterRead(here, n));
      }
    }
  }

  /** No poll of a sound device, in step or not, adds bytes; one that finds a lone header byte drops it. */
  lemma PollAddsNothing(d: Device, here: Pieces)
    requires NoneEmpty(here) && Sound(d)
    ensures var (e, rest) := Polled(d, here);
            && NoneEmpty(rest) && Sound(e) && Weight(e, rest) <= Weight(d, here)
            && (d.reading.None? && here != [] && |here[0]| == 1 ==> Weight(e, rest) < Weight(d, here))
  {
    if d.reading.Some? {
      BodyKeepsWeight(d, here);
      BodyStaysSound(d, here);
    } else if here != [] {
      ReadShifts(here, Min(2, |here[0]|));
      var (e, rest) := ReadHeader(d, here);
      if e.reading.Some? {
        BodyKeepsWeight(e, rest);
        BodyStaysSound(e, rest);
      }
    }
  }

  lemma {:induction false} BodyStaysSound(d: Device, here: Pieces)
    requires NoneEmpty(here) && d.reading.Some? && |d.reading.value.0| < d.reading.value.1 <= BUF_LEN
    ensures NoneEmpty(ReadBody(d, here).1) && Sound(ReadBody(d, here).0)
    decreases |here|
  {
    if here != [] {
      var (got, expected) := d.reading.value;
      var n := Min(expected - |got|, |here[0]|);
      AfterReadKeeps(here, n);
      if |got| + n < expected {
        BodyStaysSound(TakeBody(d, here[0][..n]), AfterRead(here, n));
      }
    }
  }

  // ---------------------------------------------------------------- whole runs

  datatype Event = Arrive | Poll

  /** The device, what has arrived, and what is still on its way. */
  datatype Wire = Wire(d: Device, here: Pieces, future: Pieces) {
    function All(): Pieces {
      here + future
    }
  }

  predicate Ready(w: Wire) {
    NoneEmpty(w.here) && NoneEmpty(w.future) && Sound(w.d)
  }

  function Happen(w: Wire, e: Event): (t: Wire)
    requires Ready(w)
    ensures Ready(t)
  {
    match e
    case Arrive => if w.future == [] then w else Wire(w.d, w.here + [w.future[0]], w.future[1..])
    case Poll =>
      PollAddsNothing(w.d, w.here);
      var (d, rest) := Polled(w.d, w.here);
      w.(d := d, here := rest)
  }

  function RunWire(w: Wire, events: seq<Event>): (t: Wire)
    requires Ready(w)
    ensures Ready(t)
    decreases |events|
  {
    if events == [] then w else RunWire(Happen(w, events[0]), events[1..])
  }

  predicate Good(w: Wire, requests: seq<seq<Byte>>) {
    Ready(w) && InStep(w.d, w.All(), requests)
  }

  lemma HappenAddsNothing(w: Wire, e: Event)
    requires Ready(w)
    ensures Weight(Happen(w, e).d, Happen(w, e).All()) <= Weight(w.d, w.All())
  {
    FlatAppend(w.here, w.future);
    match e
    case Arrive =>
      if w.future != [] {
        assert (w.here + [w.future[0]]) + w.future[1..] == w.here + w.future;
      }
    case Poll =>
      PollAddsNothing(w.d, w.here);
      FlatAppend(Polled(w.d, w.here).1, w.future);
  }

  lemma {:induction false} RunAddsNothing(w: Wire, events: seq<Event>)
    requires Ready(w)
    ensures Weight(RunWire(w, events).d, RunWire(w, events).All()) <= Weight(w.d, w.All())
    decreases |events|
  {
    if events != [] {
      HappenAddsNothing(w, events[0]);
      RunAddsNothing(Happen(w, events[0]), events[1..]);
    }
  }

  /** One event keeps the device in step, or a cut header has cost it a byte. */
  lemma HappenInStep(w: Wire, e: Event, requests: seq<seq<Byte>>)
    requires Good(w, requests)
    ensures var t := Happen(w, e);
            || (Good(t, requests) && (Whole(t.d, t.All(), requests) <==> Whole(w.d, w.All(), requests)))
            || (!Whole(w.d, w.All(), requests) && Weight(t.d, t.All()) < Weight(w.d, w.All()))
  {
    match e
    case Arrive =>
      if w.future != [] {
        assert (w.here + [w.future[0]]) + w.future[1..] == w.here + w.future;
      }
    case Poll =>
      if w.d.reading.None? && w.here != [] && |w.here[0]| == 1 {
        LoneByteIsCut(w.d, w.here, w.future, requests);
        PollAddsNothing(w.d, w.here);
        FlatAppend(w.here, w.future);
        FlatAppend(Polled(w.d, w.here).1, w.future);
      } else {
        PollInStep(w.d, w.here, w.future, requests);
      }
  }

  /** Likewise a whole run. */
  lemma {:induction false} RunInStep(w: Wire, events: seq<Event>, requests: seq<seq<Byte>>)
    requires Good(w, requests) && Weight(w.d, w.All()) <= Cost(requests)
    ensures var t := RunWire(w, events);
            || (Good(t, requests) && (Whole(t.d, t.All(), requests) <==> Whole(w.d, w.All(), requests)))
            || (!Whole(w.d, w.All(), requests) && Weight(t.d, t.All()) < Cost(requests))
    decreases |events|
  {
    if events != [] {
      var t := Happen(w, events[0]);
      HappenInStep(w, events[0], requests);
      HappenAddsNothing(w, events[0]);
      if Weight(t.d, t.All()) < Cost(requests) && !Whole(w.d, w.All(), requests) {
        RunAddsNothing(t, events[1..]);
      } else {
        RunInStep(t, events[1..], requests);
      }
    }
  }

  lemma NothingToCome(requests: seq<seq<Byte>>)
    requires Stream(requests) == []
    ensures requests == []
  {
  }

  /** A device in step that has read everything has delivered everything. */
  lemma AllRead(d: Device, requests: seq<seq<Byte>>)
    requires InStep(d, [], requests)
    ensures d == Device(None, requests) && Whole(d, [], requests)
  {
    var k := |d.delivered|;
    if d.reading.None? {
      NothingToCome(requests[k..]);
    }
    assert requests[..|requests|] == requests;
  }

  /** A poll that finds something always reads some of it. */
  lemma PollProgresses(d: Device, here: Pieces)
    requires NoneEmpty(here) && Sound(d) && here != []
    ensures |Flat(Polled(d, here).1)| < |Flat(here)|
  {
    if d.reading.None? {
      var n := Min(2, |here[0]|);
      ReadShifts(here, n);
      var (e, rest) := ReadHeader(d, here);
      if e.reading.Some? {
        BodyShrinks(e, rest);
      }
    } else {
      BodyShrinks(d, here);
    }
  }

  lemma {:induction false} BodyShrinks(d: Device, here: Pieces)
    requires NoneEmpty(here) && d.reading.Some? && |d.reading.value.0| < d.reading.value.1
    ensures |Flat(ReadBody(d, here).1)| <= |Flat(here)|
    ensures here != [] ==> |Flat(ReadBody(d, here).1)| < |Flat(here)|
    decreases |here|
  {
    if here != [] {
      var (got, expected) := d.reading.value;
      var n := Min(expected - |got|, |here[0]|);
      ReadShifts(here, n);
      if |got| + n < expected {
        BodyShrinks(TakeBody(d, here[0][..n]), AfterRead(here, n));
      }
    }
  }

  /** Before anything has arrived. */
  function Start(pieces: Pieces): Wire {
    Wire(Device(None, []), [], pieces)
  }

  lemma StartIsGood(pieces: Pieces, requests: seq<seq<Byte>>)
    requires Sendable(requests) && NoneEmpty(pieces) && Flat(pieces) == Stream(requests)
    ensures var w := Start(pieces);
            && Good(w, requests) && Weight(w.d, w.All()) == Cost(requests)
            && (Whole(w.d, w.All(), requests) <==> HeadersWhole(pieces, 0, requests))
  {
    assert requests[0..] == requests && [] + pieces == pieces;
    CostIsLength([], requests);
    assert [] + requests == requests;
  }

  /**
    However the stream of sendable requests is cut into pieces, and whenever pieces arrive and the device
    polls: once everything has arrived and been read, the device has delivered exactly the requests if and
    only if no piece ended inside a header. With whole headers it has at any time delivered a prefix.
   */
  lemma RequestsArriveInOrder(pieces: Pieces, requests: seq<seq<Byte>>, events: seq<Event>)
    requires Sendable(requests) && NoneEmpty(pieces) && Flat(pieces) == Stream(requests)
    ensures var w := RunWire(Start(pieces), events);
            && (w.here == [] && w.future == [] ==>
                  (w.d.delivered == requests <==> HeadersWhole(pieces, 0, requests)))
            && (HeadersWhole(pieces, 0, requests) ==>
                  w.d.delivered <= requests
                  && (w.here == [] && w.future == [] ==> w.d == Device(None, requests)))
  {
    StartIsGood(pieces, requests);
    RunInStep(Start(pieces), events, requests);
    var w := RunWire(Start(pieces), events);
    if w.here == [] && w.future == [] && Good(w, requests) {
      AllRead(w.d, requests);
    }
  }

  /** Why headers must stay whole: a header byte that arrives alone is read and forgotten. */
  lemma LoneHeaderByteIsLost(d: Device, b: Byte, rest: Pieces)
    requires d.reading.None? && NoneEmpty(rest)
    ensures NoneEmpty([[b]] + rest)
    ensures Polled(d, [[b]] + rest) == (d, rest)
  {
    var pieces := [[b]] + rest;
    assert pieces[1..] == rest;
    assert AfterRead(pieces, 1) == rest;
  }
}
