/**
  The buffered log writer: messages go out in numbered packets as the transport accepts them.
 */
module LogWriter {
  import opened Bytes

  /** Buffer of a message under way. */
  const BUF_LEN := 256

  /** Sequence number of the packet that ends a message. */
  const LAST: Byte := 0xFF

  /** Does the transport take the k-th packet it is offered? */
  type Accepts = nat -> bool

  /** The bytes not yet sent and the number of the next packet. */
  datatype Writer = Writer(queue: seq<Byte>, pci: Byte)

  /** What one call leaves behind: packets sent, the writer, and the number of packets offered so far. */
  datatype Outcome = Outcome(packets: seq<seq<Byte>>, w: Writer, offered: nat)

  /** Packet numbers run 0, 1, ..., 0xEF, 1, ...; the number is kept in one byte. */
  function NextPci(pci: Byte): Byte {
    var next := (pci as int + 1) % 256;
    if next == 0xF0 then 1 else next
  }

  /** The packet loop: `closing` is the final flush of a message. */
  function Pump(w: Writer, offered: nat, closing: bool, pktMax: nat, accepts: Accepts): Outcome
    requires pktMax >= 2 && (closing || |w.queue| >= pktMax)
    decreases |w.queue|
  {
    var (numbered, packet, next, more) := OneTurn(w, closing, pktMax);
    if !accepts(offered) then Outcome([], numbered, offered + 1)
    else if !more then Outcome([packet], next, offered + 1)
    else
      var rest := Pump(next, offered + 1, closing, pktMax, accepts);
      rest.(packets := [packet] + rest.packets)
  }

  predicate Fits(w: Writer, data: seq<Byte>) {
    |w.queue| + |data| <= BUF_LEN
  }

  /** One call of `write`; no data means the end of the message, and then the buffer is not moved up. */
  function Written(w: Writer, data: seq<Byte>, offered: nat, pktMax: nat, accepts: Accepts): Outcome
    requires pktMax >= 2
  {
    if !Fits(w, data) then Outcome([], w, offered)
    else
      var queued := w.(queue := w.queue + data);
      if |queued.queue| > pktMax || data == [] then
        var out := Pump(queued, offered, data == [], pktMax, accepts);
        if data == [] then out.(w := out.w.(queue := queued.queue)) else out
      else Outcome([], queued, offered)
  }

  // ---------------------------------------------------------------- the object

  /** The CAN or serial endpoint: it takes a packet whole or refuses it. */
  class Transport {
    const accepts: Accepts
    var offered: nat
    var sent: seq<seq<Byte>>

    constructor (accepts: Accepts)
      ensures this.accepts == accepts && offered == 0 && sent == []
    {
      this.accepts := accepts;
      offered, sent := 0, [];
    }

    method Send(packet: seq<Byte>) returns (size: Option<nat>)
      modifies this
      ensures offered == old(offered) + 1
      ensures size == if accepts(old(offered)) then Some(|packet|) else None
      ensures sent == if accepts(old(offered)) then old(sent) + [packet] else old(sent)
    {
      size := None;
      if accepts(offered) {
        sent := sent + [packet];
        size := Some(|packet|);
      }
      offered := offered + 1;
    }
  }

  class BufferedDefmtWriter {
    const inner: array<Byte>
    var pos: nat
    var pci: Byte

    predicate Valid()
      reads this
    {
      inner.Length == BUF_LEN && pos <= BUF_LEN
    }

    function State(): Writer
      reads this, inner
      requires Valid()
    {
      Writer(inner[..pos], pci)
    }

    constructor ()
      ensures Valid() && fresh(inner) && State() == Writer([], 0)
    {
      inner := new Byte[BUF_LEN](_ => 0);
      pos, pci := 0, 0;
    }

    /** `rotate_left`: the first `k` cells move behind all others. */
    method RotateLeft(k: nat)
      requires inner.Length == BUF_LEN && k <= BUF_LEN
      modifies inner
      ensures inner[..] == old(inner[k..]) + old(inner[..k])
    {
      var before := inner[k..] + inner[..k];
      forall i | 0 <= i < BUF_LEN {
        inner[i] := before[i];
      }
    }

    method Write(data: seq<Byte>, pktMax: nat, link: Transport)
      requires Valid() && 2 <= pktMax
      modifies this, inner, link
      ensures Valid()
      ensures var out := Written(old(State()), data, old(link.offered), pktMax, link.accepts);
              State() == out.w && link.offered == out.offered && link.sent == old(link.sent) + out.packets
    {
      if pos + |data| > BUF_LEN {
        assert link.sent == link.sent + [];
        return;
      }
      AppendData(data);
      if pos > pktMax || data == [] {
        var outPos := PumpOut(data == [], pktMax, link);
        if data != [] {
          ghost var all := inner[..];
          RotateLeft(outPos);
          assert inner[..] == all[outPos..] + all[..outPos];
          pos := pos - outPos;
          assert inner[..pos] == all[outPos..outPos + pos];
        }
      } else {
        assert link.sent == link.sent + [];
      }
    }

    method AppendData(data: seq<Byte>)
      requires Valid() && pos + |data| <= BUF_LEN
      modifies this, inner
      ensures Valid() && State() == old(State()).(queue := old(State()).queue + data)
    {
      forall i | 0 <= i < |data| {
        inner[pos + i] := data[i];
      }
      pos := pos + |data|;
    }

    /** Numbers and builds the packet that starts at `outPos` and offers it to the transport. */
    method Offer(outPos: nat, closing: bool, buf: array<Byte>, link: Transport) returns (size: Option<nat>)
      requires Valid() && outPos <= pos && buf.Length >= 2 && buf != inner
      modifies this`pci, buf, link
      ensures var max := Min(pos - outPos, buf.Length - 1);
              var packet := [pci] + inner[outPos..outPos + max];
              && pci == (if closing && pos - outPos <= buf.Length - 1 then LAST else old(pci))
              && link.offered == old(link.offered) + 1
              && size == (if link.accepts(old(link.offered)) then Some(1 + max) else None)
              && link.sent == if size.Some? then old(link.sent) + [packet] else old(link.sent)
    {
      var max := Min(pos - outPos, buf.Length - 1);
      if closing && pos - outPos <= buf.Length - 1 {
        pci := 0xFF;
      }
      buf[0] := pci;
      forall i | 0 <= i < max {
        buf[1 + i] := inner[outPos + i];
      }
      assert buf[..1 + max] == [pci] + inner[outPos..outPos + max];
      size := link.Send(buf[..1 + max]);
    }

    /** The bytes from `outPos` on, as the packet loop sees them. */
    function Rest(outPos: nat): Writer
      reads this, inner
      requires Valid() && outPos <= pos
    {
      Writer(inner[outPos..pos], pci)
    }

    /** One turn of the packet loop from `outPos` on; `more` says whether another one follows. */
    method Turn(outPos: nat, closing: bool, buf: array<Byte>, link: Transport) returns (next: nat, more: bool)
      requires Valid() && outPos <= pos && buf.Length >= 2 && buf != inner
      modifies this`pci, buf, link
      ensures outPos <= next <= pos && link.offered == old(link.offered) + 1
      ensures var (w, packet, taken, again) := OneTurn(old(Rest(outPos)), closing, buf.Length);
              if link.accepts(old(link.offered)) then
                && Rest(next) == taken && more == again && (more ==> next > outPos)
                && link.sent == old(link.sent) + [packet]
              else Rest(next) == w && !more && link.sent == old(link.sent)
    {
      var max := Min(pos - outPos, buf.Length - 1);
      var size := Offer(outPos, closing, buf, link);
      if size.None? {
        return outPos, false;
      }
      next := outPos + (size.value - 1);
      pci := NextPci(pci);
      var left := pos - next;
      more := !((closing && left == 0) || (!closing && left < buf.Length));
      assert inner[outPos..outPos + max] == old(Rest(outPos)).queue[..max];
      assert inner[next..pos] == old(Rest(outPos)).queue[max..];
    }

    /** A turn of the loop keeps the rest of it heading for `goal`. */
    method TurnTowards(outPos: nat, closing: bool, buf: array<Byte>, link: Transport, ghost goal: Outcome)
      returns (next: nat, more: bool)
      requires Valid() && outPos <= pos && buf.Length >= 2 && buf != inner
      requires PumpsTo(Rest(outPos), link.offered, closing, buf.Length, link.accepts, link.sent, goal)
      modifies this`pci, buf, link
      ensures outPos <= next <= pos && (more ==> next > outPos)
      ensures if more then PumpsTo(Rest(next), link.offered, closing, buf.Length, link.accepts, link.sent, goal)
              else goal == Outcome(link.sent, Rest(next), link.offered)
    {
      PumpStep(Rest(outPos), link.offered, closing, buf.Length, link.accepts, link.sent, goal);
      next, more := Turn(outPos, closing, buf, link);
    }

    /** The loop over packets; only the packet number changes, `outPos` says how much has gone out. */
    method PumpOut(closing: bool, pktMax: nat, link: Transport) returns (outPos: nat)
      requires Valid() && pktMax >= 2 && (closing || pos >= pktMax)
      modifies this`pci, link
      ensures Valid() && outPos <= pos
      ensures var out := Pump(old(State()), old(link.offered), closing, pktMax, link.accepts);
              Outcome(link.sent, Rest(outPos), link.offered) == out.(packets := old(link.sent) + out.packets)
    {
      outPos := 0;
      var buf := new Byte[pktMax](_ => 0);
      ghost var out := Pump(State(), link.offered, closing, pktMax, link.accepts);
      ghost var goal := out.(packets := link.sent + out.packets);
      assert Rest(0) == State();
      var more := true;
      while more
        invariant outPos <= pos
        invariant if more then PumpsTo(Rest(outPos), link.offered, closing, pktMax, link.accepts, link.sent, goal)
                  else goal == Outcome(link.sent, Rest(outPos), link.offered)
        decreases pos - outPos, more
      {
        outPos, more := TurnTowards(outPos, closing, buf, link, goal);
      }
    }
  }

  datatype Target = Can | Serial

  /** Packet number and log bytes in one packet: a classic CAN frame or 32 bytes over USB. */
  function PacketSize(t: Target): nat {
    if t.Can? then 8 else 32
  }

  /** The logger while one message is being written. */
  class InUseLogger {
    const target: Target
    const link: Transport
    const buffer: BufferedDefmtWriter

    constructor (target: Target, link: Transport)
      ensures fresh(buffer) && fresh(buffer.inner) && buffer.Valid() && buffer.State() == Writer([], 0)
      ensures this.target == target && this.link == link
    {
      this.target, this.link := target, link;
      buffer := new BufferedDefmtWriter();
    }

    method Write(bytes: seq<Byte>)
      requires buffer.Valid()
      modifies buffer, buffer.inner, link
      ensures buffer.Valid()
      ensures var out := Written(old(buffer.State()), bytes, old(link.offered), PacketSize(target), link.accepts);
              buffer.State() == out.w && link.offered == out.offered && link.sent == old(link.sent) + out.packets
    {
      match target {
        case Can => buffer.Write(bytes, 8, link);
        case Serial => buffer.Write(bytes, 32, link);
      }
    }

    /** Ends the message; after that the logger is gone. */
    method Release()
      requires buffer.Valid()
      modifies buffer, buffer.inner, link
      ensures buffer.Valid()
      ensures var out := Written(old(buffer.State()), [], old(link.offered), PacketSize(target), link.accepts);
              link.offered == out.offered && link.sent == old(link.sent) + out.packets
    {
      match target {
        case Can => buffer.Write([], 8, link);
        case Serial => buffer.Write([], 32, link);
      }
    }
  }

  /** The writer with its packet numbered, the packet, the writer once it is taken, and whether to go on. */
  function OneTurn(w: Writer, closing: bool, pktMax: nat): (Writer, seq<Byte>, Writer, bool)
    requires pktMax >= 2
  {
    var n := Min(|w.queue|, pktMax - 1);
    var pci := if closing && |w.queue| <= pktMax - 1 then LAST else w.pci;
    var next := Writer(w.queue[n..], NextPci(pci));
    (w.(pci := pci), [pci] + w.queue[..n], next, if closing then next.queue != [] else |next.queue| >= pktMax)
  }

  /** Packets already out, then whatever the loop still sends. */
  ghost predicate PumpsTo(
      w: Writer, offered: nat, closing: bool, pktMax: nat, accepts: Accepts,
      already: seq<seq<Byte>>, goal: Outcome)
  {
    && pktMax >= 2 && (closing || |w.queue| >= pktMax)
    && var rest := Pump(w, offered, closing, pktMax, accepts);
       goal.packets == already + rest.packets && goal.w == rest.w && goal.offered == rest.offered
  }

  /** One turn of the loop. */
  lemma PumpStep(
      w: Writer, offered: nat, closing: bool, pktMax: nat, accepts: Accepts,
      already: seq<seq<Byte>>, goal: Outcome)
    requires PumpsTo(w, offered, closing, pktMax, accepts, already, goal)
    ensures var (numbered, packet, next, more) := OneTurn(w, closing, pktMax);
            if !accepts(offered) then goal == Outcome(already, numbered, offered + 1)
            else if !more then goal == Outcome(already + [packet], next, offered + 1)
            else PumpsTo(next, offered + 1, closing, pktMax, accepts, already + [packet], goal)
  {
    var (numbered, packet, next, more) := OneTurn(w, closing, pktMax);
    if !accepts(offered) {
      assert already + [] == already;
    } else if more {
      var rest := Pump(next, offered + 1, closing, pktMax, accepts).packets;
      assert already + ([packet] + rest) == (already + [packet]) + rest;
    }
  }
}
