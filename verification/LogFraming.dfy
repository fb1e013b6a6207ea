/** Log messages through the writer, the transport and the PC's reassembly. */
module LogFraming {
  import opened Bytes
  import opened LogWriter

  // ---------------------------------------------------------------- conservation

  /** The log bytes a list of packets carries, without the packet numbers. */
  function Carried(packets: seq<seq<Byte>>): seq<Byte> {
    if packets == [] then []
    else (if packets[0] == [] then [] else packets[0][1..]) + Carried(packets[1..])
  }

  lemma {:induction false} CarriedAppend(a: seq<seq<Byte>>, b: seq<seq<Byte>>)
    ensures Carried(a + b) == Carried(a) + Carried(b)
  {
    if a == [] {
      assert a + b == b;
    } else {
      assert (a + b)[1..] == a[1..] + b;
      CarriedAppend(a[1..], b);
    }
  }

  lemma CarriedCons(packet: seq<Byte>, rest: seq<seq<Byte>>)
    requires packet != []
    ensures Carried([packet] + rest) == packet[1..] + Carried(rest)
  {
    assert ([packet] + rest)[1..] == rest;
  }

  lemma Assoc(x: seq<Byte>, y: seq<Byte>, z: seq<Byte>)
    ensures (x + y) + z == x + (y + z)
  {
  }

  /** Two conservation equations, one after the other. */
  lemma Compose(x: seq<Byte>, y: seq<Byte>, q: seq<Byte>, mid: seq<Byte>, b: seq<Byte>, start: seq<Byte>, a: seq<Byte>)
    requires x + mid == start + a && y + q == mid + b
    ensures (x + y) + q == start + (a + b)
  {
    Assoc(x, y, q);
    Assoc(x, mid, b);
    Assoc(start, a, b);
  }

  predicate AllOfSize(packets: seq<seq<Byte>>, n: nat) {
    forall i :: 0 <= i < |packets| ==> |packets[i]| == n
  }

  /** The packet loop before the end of a message loses and repeats nothing and fills every packet. */
  lemma {:induction false} PumpConserves(w: Writer, offered: nat, pktMax: nat, accepts: Accepts)
    requires pktMax >= 2 && |w.queue| >= pktMax
    ensures var out := Pump(w, offered, false, pktMax, accepts);
            Carried(out.packets) + out.w.queue == w.queue && AllOfSize(out.packets, pktMax)
    decreases |w.queue|
  {
    var (_, packet, next, more) := OneTurn(w, false, pktMax);
    assert packet[1..] + next.queue == w.queue;
    if accepts(offered) {
      var rest := Outcome([], next, 0);
      if more {
        PumpConserves(next, offered + 1, pktMax, accepts);
        rest := Pump(next, offered + 1, false, pktMax, accepts);
      }
      var out := Pump(w, offered, false, pktMax, accepts);
      assert out.packets == [packet] + rest.packets && out.w.queue == rest.w.queue;
      CarriedCons(packet, rest.packets);
      Assoc(packet[1..], Carried(rest.packets), rest.w.queue);
      assert rest.packets == [] ==> Carried(rest.packets) + rest.w.queue == rest.w.queue;
    }
  }

  /** A list of writes given to the writer one after the other. */
  function WriteAll(w: Writer, writes: seq<seq<Byte>>, offered: nat, pktMax: nat, accepts: Accepts): Outcome
    requires pktMax >= 2
    decreases |writes|
  {
    if writes == [] then Outcome([], w, offered)
    else
      var first := Written(w, writes[0], offered, pktMax, accepts);
      var rest := WriteAll(first.w, writes[1..], first.offered, pktMax, accepts);
      rest.(packets := first.packets + rest.packets)
  }

  /** The bytes of the writes that found room in the buffer. */
  function Kept(w: Writer, writes: seq<seq<Byte>>, offered: nat, pktMax: nat, accepts: Accepts): seq<Byte>
    requires pktMax >= 2
    decreases |writes|
  {
    if writes == [] then []
    else
      var first := Written(w, writes[0], offered, pktMax, accepts);
      (if LogWriter.Fits(w, writes[0]) then writes[0] else [])
      + Kept(first.w, writes[1..], first.offered, pktMax, accepts)
  }

  predicate NonEmpty(writes: seq<seq<Byte>>) {
    forall i :: 0 <= i < |writes| ==> writes[i] != []
  }

  lemma WriteConserves(w: Writer, data: seq<Byte>, offered: nat, pktMax: nat, accepts: Accepts)
    requires pktMax >= 2 && data != []
    ensures var out := Written(w, data, offered, pktMax, accepts);
            && Carried(out.packets) + out.w.queue == w.queue + (if LogWriter.Fits(w, data) then data else [])
            && AllOfSize(out.packets, pktMax)
  {
    var queued := w.(queue := w.queue + data);
    if LogWriter.Fits(w, data) && |queued.queue| > pktMax {
      PumpConserves(queued, offered, pktMax, accepts);
    } else {
      assert [] + w.queue == w.queue + [];
    }
  }

  /**
    Whatever packets the transport takes or refuses: the payload sent, followed by what is still queued,
    is exactly the accepted writes in order, and every packet before the end of the message is full.
   */
  lemma {:induction false} Conservation(
      w: Writer, writes: seq<seq<Byte>>, offered: nat, pktMax: nat, accepts: Accepts)
    requires pktMax >= 2 && NonEmpty(writes)
    ensures var out := WriteAll(w, writes, offered, pktMax, accepts);
            && Carried(out.packets) + out.w.queue == w.queue + Kept(w, writes, offered, pktMax, accepts)
            && AllOfSize(out.packets, pktMax)
    decreases |writes|
  {
    if writes == [] {
      assert [] + w.queue == w.queue + [];
    } else {
      var first := Written(w, writes[0], offered, pktMax, accepts);
      var rest := WriteAll(first.w, writes[1..], first.offered, pktMax, accepts);
      var a := if LogWriter.Fits(w, writes[0]) then writes[0] else [];
      var b := Kept(first.w, writes[1..], first.offered, pktMax, accepts);
      WriteConserves(w, writes[0], offered, pktMax, accepts);
      Conservation(first.w, writes[1..], first.offered, pktMax, accepts);
      CarriedAppend(first.packets, rest.packets);
      Compose(Carried(first.packets), Carried(rest.packets), rest.w.queue, first.w.queue, b, w.queue, a);
    }
  }

  // ---------------------------------------------------------------- a reliable transport

  function Always(): Accepts {
    k => true
  }

  /** Number of the k-th packet of a message that is not its last. */
  function SeqNo(k: nat): (n: Byte)
    ensures n < 0xF0 && (n == 0 <==> k == 0)
  {
    if k == 0 then 0 else NextPci(SeqNo(k - 1))
  }

  /** The numbers run 0, 1, ..., 0xEF, 1, ..., 0xEF, 1, ... */
  lemma {:induction false} PacketNumberIs(k: nat)
    ensures SeqNo(k) == if k == 0 then 0 else 1 + (k - 1) % 239
  {
    if k > 1 {
      PacketNumberIs(k - 1);
      CountsOn(k - 2, (k - 2) % 239);
    }
  }

  lemma CountsOn(x: nat, r: nat)
    requires r == x % 239
    ensures (x + 1) % 239 == if r == 238 then 0 else r + 1
    ensures NextPci(1 + r) == if r == 238 then 1 else 2 + r
  {
  }

  /** Packets of a message from its k-th on, the last one not among them. */
  predicate Numbered(packets: seq<seq<Byte>>, k: nat) {
    forall i :: 0 <= i < |packets| ==> packets[i] != [] && packets[i][0] == SeqNo(k + i)
  }

  /** Whatever the transport refuses: what it takes before the end of a message is numbered without a gap. */
  lemma {:induction false} PumpNumbers(w: Writer, k: nat, offered: nat, pktMax: nat, accepts: Accepts)
    requires pktMax >= 2 && |w.queue| >= pktMax && w.pci == SeqNo(k)
    ensures var out := Pump(w, offered, false, pktMax, accepts);
            Numbered(out.packets, k) && out.w.pci == SeqNo(k + |out.packets|)
    decreases |w.queue|
  {
    var (_, packet, next, more) := OneTurn(w, false, pktMax);
    assert NextPci(SeqNo(k)) == SeqNo(k + 1);
    if accepts(offered) && more {
      PumpNumbers(next, k + 1, offered + 1, pktMax, accepts);
      var rest := Pump(next, offered + 1, false, pktMax, accepts).packets;
      JoinNumbered([packet], rest, k);
    }
  }

  lemma WriteNumbers(w: Writer, k: nat, data: seq<Byte>, offered: nat, pktMax: nat, accepts: Accepts)
    requires pktMax >= 2 && w.pci == SeqNo(k) && data != []
    ensures var out := Written(w, data, offered, pktMax, accepts);
            Numbered(out.packets, k) && out.w.pci == SeqNo(k + |out.packets|)
  {
    var queued := w.(queue := w.queue + data);
    if LogWriter.Fits(w, data) && |queued.queue| > pktMax {
      PumpNumbers(queued, k, offered, pktMax, accepts);
    }
  }

  lemma {:induction false} MessageNumbers(
      w: Writer, k: nat, writes: seq<seq<Byte>>, offered: nat, pktMax: nat, accepts: Accepts)
    requires pktMax >= 2 && w.pci == SeqNo(k) && NonEmpty(writes)
    ensures var out := WriteAll(w, writes, offered, pktMax, accepts);
            Numbered(out.packets, k) && out.w.pci == SeqNo(k + |out.packets|)
    decreases |writes|
  {
    if writes != [] {
      var first := Written(w, writes[0], offered, pktMax, accepts);
      WriteNumbers(w, k, writes[0], offered, pktMax, accepts);
      MessageNumbers(first.w, k + |first.packets|, writes[1..], first.offered, pktMax, accepts);
      JoinNumbered(first.packets, WriteAll(first.w, writes[1..], first.offered, pktMax, accepts).packets, k);
    }
  }

  lemma {:induction false} PumpEmpties(w: Writer, offered: nat, pktMax: nat)
    requires pktMax >= 2 && |w.queue| >= pktMax
    ensures |Pump(w, offered, false, pktMax, Always()).w.queue| < pktMax
    decreases |w.queue|
  {
    var (_, _, next, more) := OneTurn(w, false, pktMax);
    if more {
      PumpEmpties(next, offered + 1, pktMax);
    }
  }

  /** Every write of a message leaves room for the next one of at most `BUF_LEN - pktMax` bytes. */
  predicate WithinLimit(writes: seq<seq<Byte>>, pktMax: nat) {
    NonEmpty(writes) && forall i :: 0 <= i < |writes| ==> |writes[i]| + pktMax <= BUF_LEN
  }

  lemma {:induction false} ReliableWrites(w: Writer, writes: seq<seq<Byte>>, offered: nat, pktMax: nat)
    requires pktMax >= 2 && |w.queue| <= pktMax && WithinLimit(writes, pktMax)
    ensures Kept(w, writes, offered, pktMax, Always()) == Concat(writes)
    ensures |WriteAll(w, writes, offered, pktMax, Always()).w.queue| <= pktMax
    decreases |writes|
  {
    if writes != [] {
      var queued := w.(queue := w.queue + writes[0]);
      if |queued.queue| > pktMax {
        PumpEmpties(queued, offered, pktMax);
      }
      var first := Written(w, writes[0], offered, pktMax, Always());
      ReliableWrites(first.w, writes[1..], first.offered, pktMax);
      assert writes == [writes[0]] + writes[1..];
      ConcatAppend([writes[0]], writes[1..]);
      assert Concat([writes[0]]) == writes[0] by {
        ConcatOne([], writes[0]);
      }
    }
  }

  lemma JoinNumbered(a: seq<seq<Byte>>, b: seq<seq<Byte>>, k: nat)
    requires Numbered(a, k) && Numbered(b, k + |a|)
    ensures Numbered(a + b, k)
  {
    forall i | 0 <= i < |a + b| ensures (a + b)[i] != [] && (a + b)[i][0] == SeqNo(k + i) {
      if i >= |a| {
        assert (a + b)[i] == b[i - |a|];
      }
    }
  }

  /** One more packet in front of what a flush sends. */
  lemma FlushMore(packet: seq<Byte>, rest: seq<seq<Byte>>, k: nat)
    requires packet != [] && packet[0] == SeqNo(k)
    requires rest != [] && Numbered(rest[..|rest| - 1], k + 1)
    ensures var packets := [packet] + rest;
            && Carried(packets) == packet[1..] + Carried(rest) && packets[|packets| - 1] == rest[|rest| - 1]
            && Numbered(packets[..|packets| - 1], k)
  {
    var packets := [packet] + rest;
    CarriedCons(packet, rest);
    JoinNumbered([packet], rest[..|rest| - 1], k);
    assert packets[..|packets| - 1] == [packet] + rest[..|rest| - 1];
  }

  /** Packets that end a message: numbered from its k-th up to the last, which is numbered 0xFF. */
  predicate Closing(packets: seq<seq<Byte>>, k: nat, bytes: seq<Byte>) {
    && packets != [] && Carried(packets) == bytes
    && packets[|packets| - 1] != [] && packets[|packets| - 1][0] == LAST
    && Numbered(packets[..|packets| - 1], k)
  }

  lemma OneCloses(packet: seq<Byte>, k: nat)
    requires packet != [] && packet[0] == LAST
    ensures Closing([packet], k, packet[1..])
  {
    CarriedCons(packet, []);
    assert [packet] + [] == [packet];
  }

  /** What the final flush sends: possibly one full packet, then the packet numbered 0xFF. */
  lemma {:induction false} FlushSends(w: Writer, k: nat, offered: nat, pktMax: nat)
    requires pktMax >= 2 && w.pci == SeqNo(k)
    ensures Closing(Pump(w, offered, true, pktMax, Always()).packets, k, w.queue)
    decreases |w.queue|
  {
    var (_, packet, next, more) := OneTurn(w, true, pktMax);
    assert packet[1..] + next.queue == w.queue;
    assert NextPci(SeqNo(k)) == SeqNo(k + 1);
    if more {
      FlushSends(next, k + 1, offered + 1, pktMax);
      FlushMore(packet, Pump(next, offered + 1, true, pktMax, Always()).packets, k);
    } else {
      OneCloses(packet, k);
    }
  }

  /** All packets of one message, written to a fresh writer and flushed. */
  function Encode(writes: seq<seq<Byte>>, pktMax: nat): seq<seq<Byte>>
    requires pktMax >= 2
  {
    var body := WriteAll(Writer([], 0), writes, 0, pktMax, Always());
    body.packets + Written(body.w, [], body.offered, pktMax, Always()).packets
  }

  /** A message's packets: numbered 0, 1, 2, ... as `SeqNo` says, ended by 0xFF, together carrying its bytes. */
  predicate IsMessage(packets: seq<seq<Byte>>, bytes: seq<Byte>) {
    && packets != [] && Carried(packets) == bytes
    && var last := packets[|packets| - 1];
       && last != [] && last[0] == LAST && Numbered(packets[..|packets| - 1], 0)
  }

  lemma ClosedMessage(body: seq<seq<Byte>>, tail: seq<seq<Byte>>, bytes: seq<Byte>)
    requires Numbered(body, 0) && Closing(tail, |body|, bytes)
    ensures IsMessage(body + tail, Carried(body) + bytes)
  {
    CarriedAppend(body, tail);
    JoinNumbered(body, tail[..|tail| - 1], 0);
    FrontAndLast(body, tail);
  }

  lemma FrontAndLast(body: seq<seq<Byte>>, tail: seq<seq<Byte>>)
    requires tail != []
    ensures var packets := body + tail;
            packets[..|packets| - 1] == body + tail[..|tail| - 1] && packets[|packets| - 1] == tail[|tail| - 1]
  {
  }

  /** Closing a message flushes the whole buffer. */
  lemma CloseFlushes(w: Writer, offered: nat, pktMax: nat, accepts: Accepts)
    requires pktMax >= 2 && |w.queue| <= BUF_LEN
    ensures Written(w, [], offered, pktMax, accepts).packets == Pump(w, offered, true, pktMax, accepts).packets
  {
    assert w.queue + [] == w.queue;
  }

  lemma EncodeIsMessage(writes: seq<seq<Byte>>, pktMax: nat)
    requires 2 <= pktMax <= BUF_LEN && WithinLimit(writes, pktMax)
    ensures IsMessage(Encode(writes, pktMax), Concat(writes))
  {
    var w := Writer([], 0);
    var body := WriteAll(w, writes, 0, pktMax, Always());
    ReliableWrites(w, writes, 0, pktMax);
    MessageNumbers(w, 0, writes, 0, pktMax, Always());
    Conservation(w, writes, 0, pktMax, Always());
    assert [] + Concat(writes) == Concat(writes);
    FlushSends(body.w, |body.packets|, body.offered, pktMax);
    CloseFlushes(body.w, body.offered, pktMax, Always());
    ClosedMessage(body.packets, Pump(body.w, body.offered, true, pktMax, Always()).packets, body.w.queue);
  }

  // ---------------------------------------------------------------- the logger over a reliable transport

  ghost predicate Reliable(accepts: Accepts) {
    forall k: nat :: accepts(k)
  }

  /** Which packet is offered when makes no difference to a transport that takes them all. */
  lemma {:induction false} PumpReliable(w: Writer, offered: nat, closing: bool, pktMax: nat, accepts: Accepts)
    requires pktMax >= 2 && (closing || |w.queue| >= pktMax) && Reliable(accepts)
    ensures var (a, b) := (Pump(w, offered, closing, pktMax, accepts), Pump(w, 0, closing, pktMax, Always()));
            a.packets == b.packets && a.w == b.w
    decreases |w.queue|
  {
    PumpFromZero(w, offered, closing, pktMax, accepts);
    PumpFromZero(w, 0, closing, pktMax, Always());
  }

  /** What a reliable pump sends, without any transport. */
  function Packets(w: Writer, closing: bool, pktMax: nat): (seq<seq<Byte>>, Writer)
    requires pktMax >= 2 && (closing || |w.queue| >= pktMax)
    decreases |w.queue|
  {
    var (_, packet, next, more) := OneTurn(w, closing, pktMax);
    if !more then ([packet], next)
    else
      var (rest, end) := Packets(next, closing, pktMax);
      ([packet] + rest, end)
  }

  lemma {:induction false} PumpFromZero(w: Writer, offered: nat, closing: bool, pktMax: nat, accepts: Accepts)
    requires pktMax >= 2 && (closing || |w.queue| >= pktMax) && Reliable(accepts)
    ensures var out := Pump(w, offered, closing, pktMax, accepts);
            (out.packets, out.w) == Packets(w, closing, pktMax)
    decreases |w.queue|
  {
    var (_, _, next, more) := OneTurn(w, closing, pktMax);
    if more {
      PumpFromZero(next, offered + 1, closing, pktMax, accepts);
    }
  }

  lemma WrittenReliable(w: Writer, data: seq<Byte>, offered: nat, pktMax: nat, accepts: Accepts)
    requires pktMax >= 2 && Reliable(accepts)
    ensures var (a, b) := (Written(w, data, offered, pktMax, accepts), Written(w, data, 0, pktMax, Always()));
            a.packets == b.packets && a.w == b.w
  {
    var queued := w.(queue := w.queue + data);
    if |queued.queue| > pktMax || data == [] {
      PumpReliable(queued, offered, data == [], pktMax, accepts);
    }
  }

  lemma {:induction false} WriteAllReliable(w: Writer, writes: seq<seq<Byte>>, offered: nat, pktMax: nat)
    requires pktMax >= 2
    ensures var (a, b) := (WriteAll(w, writes, offered, pktMax, Always()), WriteAll(w, writes, 0, pktMax, Always()));
            a.packets == b.packets && a.w == b.w
    decreases |writes|
  {
    if writes != [] {
      WrittenReliable(w, writes[0], offered, pktMax, Always());
      var first, from0 := Written(w, writes[0], offered, pktMax, Always()), Written(w, writes[0], 0, pktMax, Always());
      WriteAllReliable(first.w, writes[1..], first.offered, pktMax);
      WriteAllReliable(first.w, writes[1..], from0.offered, pktMax);
    }
  }

  /** Packets already sent, then what the rest of the message still brings: always the same total. */
  ghost predicate Heading(
      sent: seq<seq<Byte>>, w: Writer, rest: seq<seq<Byte>>, pktMax: nat, goal: seq<seq<Byte>>, end: Writer)
    requires pktMax >= 2
  {
    var out := WriteAll(w, rest, 0, pktMax, Always());
    sent + out.packets == goal && out.w == end
  }

  lemma HeadingStep(
      sent: seq<seq<Byte>>, w: Writer, rest: seq<seq<Byte>>, pktMax: nat, goal: seq<seq<Byte>>, end: Writer)
    requires pktMax >= 2 && rest != [] && Heading(sent, w, rest, pktMax, goal, end)
    ensures var first := Written(w, rest[0], 0, pktMax, Always());
            Heading(sent + first.packets, first.w, rest[1..], pktMax, goal, end)
  {
    var first := Written(w, rest[0], 0, pktMax, Always());
    WriteAllReliable(first.w, rest[1..], first.offered, pktMax);
    var more := WriteAll(first.w, rest[1..], 0, pktMax, Always()).packets;
    assert (sent + first.packets) + more == sent + (first.packets + more);
  }

  /** The writes of one message. */
  method WriteMessage(
      logger: InUseLogger, writes: seq<seq<Byte>>, ghost goal: seq<seq<Byte>>, ghost end: Writer)
    requires logger.buffer.Valid() && Reliable(logger.link.accepts)
    requires Heading(logger.link.sent, logger.buffer.State(), writes, PacketSize(logger.target), goal, end)
    modifies logger.buffer, logger.buffer.inner, logger.link
    ensures logger.buffer.Valid() && logger.link.sent == goal && logger.buffer.State() == end
  {
    assert writes[0..] == writes;
    for i := 0 to |writes|
      invariant logger.buffer.Valid()
      invariant Heading(logger.link.sent, logger.buffer.State(), writes[i..], PacketSize(logger.target), goal, end)
    {
      ghost var w := logger.buffer.State();
      HeadingStep(logger.link.sent, w, writes[i..], PacketSize(logger.target), goal, end);
      WrittenReliable(w, writes[i], logger.link.offered, PacketSize(logger.target), logger.link.accepts);
      assert writes[i..][1..] == writes[i + 1..];
      logger.Write(writes[i]);
    }
    assert logger.link.sent + [] == logger.link.sent;
  }

  /** One message from acquiring the logger to releasing it, over a transport that takes every packet. */
  method LogMessage(target: Target, link: Transport, writes: seq<seq<Byte>>)
    requires Reliable(link.accepts)
    modifies link
    ensures link.sent == old(link.sent) + Encode(writes, PacketSize(target))
  {
    var logger := new InUseLogger(target, link);
    ghost var pktMax := PacketSize(target);
    ghost var body := WriteAll(Writer([], 0), writes, 0, pktMax, Always());
    WriteMessage(logger, writes, link.sent + body.packets, body.w);
    WrittenReliable(body.w, [], link.offered, pktMax, link.accepts);
    WrittenReliable(body.w, [], body.offered, pktMax, Always());
    logger.Release();
    assert link.sent == old(link.sent) + (body.packets + Written(body.w, [], body.offered, pktMax, Always()).packets);
  }
}
