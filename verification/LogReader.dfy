/** The PC side of the log: packets from the CAN bus or from USB records put back together. */
module LogReader {
  import opened Bytes
  import opened LogWriter
  import opened LogFraming

  /** The frame under construction, the frames handed over, and whether the reader thread still runs. */
  datatype Reader = Reader(frame: seq<Byte>, frames: seq<seq<Byte>>, alive: bool)

  function NewReader(): Reader {
    Reader([], [], true)
  }

  /** One packet from the CAN bus; a frame without data makes the thread panic. */
  function OnCan(r: Reader, data: seq<Byte>): Reader {
    if !r.alive then r
    else if data == [] then r.(alive := false)
    else if data[0] == LAST then Reader([], r.frames + [r.frame + data[1..]], true)
    else if data[0] == 0x00 then r.(frame := data[1..])
    else if data[0] < 0xF0 then r.(frame := r.frame + data[1..])
    else r
  }

  /** One log packet out of a USB record; its number matters only when it ends the message. */
  function OnUsb(r: Reader, data: seq<Byte>): Reader {
    if !r.alive then r
    else if data == [] then r.(alive := false)
    else if data[0] == LAST then Reader([], r.frames + [r.frame + data[1..]], true)
    else r.(frame := r.frame + data[1..])
  }

  /** The reader threads' local state. */
  class FrameReader {
    var frameBuf: seq<Byte>
    var tx: seq<seq<Byte>>
    var alive: bool

    function State(): Reader
      reads this
    {
      Reader(frameBuf, tx, alive)
    }

    constructor ()
      ensures State() == NewReader()
    {
      frameBuf, tx, alive := [], [], true;
    }

    method CanPacket(data: seq<Byte>)
      modifies this
      ensures State() == OnCan(old(State()), data)
    {
      if !alive {
        return;
      }
      if data == [] {
        alive := false;
      } else if data[0] == 0xFF {
        frameBuf := frameBuf + data[1..];
        tx := tx + [frameBuf];
        frameBuf := [];
      } else if data[0] == 0x00 {
        frameBuf := [];
        frameBuf := frameBuf + data[1..];
      } else if data[0] < 0xF0 {
        frameBuf := frameBuf + data[1..];
      }
    }

    method UsbPacket(data: seq<Byte>)
      modifies this
      ensures State() == OnUsb(old(State()), data)
    {
      if !alive {
        return;
      }
      if data == [] {
        alive := false;
        return;
      }
      frameBuf := frameBuf + data[1..];
      if data[0] == 0xFF {
        tx := tx + [frameBuf];
        frameBuf := [];
      }
    }
  }

  predicate NoEmpty(packets: seq<seq<Byte>>) {
    forall i :: 0 <= i < |packets| ==> packets[i] != []
  }

  function ReadCan(r: Reader, packets: seq<seq<Byte>>): Reader
    decreases |packets|
  {
    if packets == [] then r else ReadCan(OnCan(r, packets[0]), packets[1..])
  }

  function ReadUsb(r: Reader, packets: seq<seq<Byte>>): Reader
    decreases |packets|
  {
    if packets == [] then r else ReadUsb(OnUsb(r, packets[0]), packets[1..])
  }

  /** The CAN reader survives exactly as long as no frame is empty; after that it delivers nothing more. */
  lemma {:induction false} CanSurvivesIff(r: Reader, packets: seq<seq<Byte>>)
    ensures ReadCan(r, packets).alive <==> r.alive && NoEmpty(packets)
    ensures !r.alive ==> ReadCan(r, packets) == r
    decreases |packets|
  {
    if packets != [] {
      CanSurvivesIff(OnCan(r, packets[0]), packets[1..]);
      assert NoEmpty(packets) <==> packets[0] != [] && NoEmpty(packets[1..]) by {
        assert forall i :: 1 <= i < |packets| ==> packets[i] == packets[1..][i - 1];
      }
    }
  }

  /** And so does the USB reader. */
  lemma {:induction false} UsbSurvivesIff(r: Reader, packets: seq<seq<Byte>>)
    ensures ReadUsb(r, packets).alive <==> r.alive && NoEmpty(packets)
    ensures !r.alive ==> ReadUsb(r, packets) == r
    decreases |packets|
  {
    if packets != [] {
      UsbSurvivesIff(OnUsb(r, packets[0]), packets[1..]);
      assert NoEmpty(packets) <==> packets[0] != [] && NoEmpty(packets[1..]) by {
        assert forall i :: 1 <= i < |packets| ==> packets[i] == packets[1..][i - 1];
      }
    }
  }

  lemma {:induction false} ReadCanAppend(r: Reader, a: seq<seq<Byte>>, b: seq<seq<Byte>>)
    ensures ReadCan(r, a + b) == ReadCan(ReadCan(r, a), b)
    decreases |a|
  {
    if a == [] {
      assert a + b == b;
    } else {
      assert (a + b)[1..] == a[1..] + b;
      ReadCanAppend(OnCan(r, a[0]), a[1..], b);
    }
  }

  lemma {:induction false} ReadUsbAppend(r: Reader, a: seq<seq<Byte>>, b: seq<seq<Byte>>)
    ensures ReadUsb(r, a + b) == ReadUsb(ReadUsb(r, a), b)
    decreases |a|
  {
    if a == [] {
      assert a + b == b;
    } else {
      assert (a + b)[1..] == a[1..] + b;
      ReadUsbAppend(OnUsb(r, a[0]), a[1..], b);
    }
  }

  /** Packets numbered 1 to 0xEF only ever extend the frame. */
  lemma {:induction false} CanExtends(r: Reader, packets: seq<seq<Byte>>)
    requires r.alive && forall i :: 0 <= i < |packets| ==> packets[i] != [] && 0 < packets[i][0] < 0xF0
    ensures ReadCan(r, packets) == r.(frame := r.frame + Carried(packets))
    decreases |packets|
  {
    if packets == [] {
      assert r.frame + [] == r.frame;
    } else {
      CanExtends(OnCan(r, packets[0]), packets[1..]);
      Assoc(r.frame, packets[0][1..], Carried(packets[1..]));
    }
  }

  lemma {:induction false} UsbExtends(r: Reader, packets: seq<seq<Byte>>)
    requires r.alive && forall i :: 0 <= i < |packets| ==> packets[i] != [] && packets[i][0] != LAST
    ensures ReadUsb(r, packets) == r.(frame := r.frame + Carried(packets))
    decreases |packets|
  {
    if packets == [] {
      assert r.frame + [] == r.frame;
    } else {
      UsbExtends(OnUsb(r, packets[0]), packets[1..]);
      Assoc(r.frame, packets[0][1..], Carried(packets[1..]));
    }
  }

  /** A message's packets are their front and the closing packet. */
  lemma MessageParts(packets: seq<seq<Byte>>, bytes: seq<Byte>)
    requires IsMessage(packets, bytes)
    ensures NoEmpty(packets)
    ensures var (front, last) := (packets[..|packets| - 1], packets[|packets| - 1]);
            && packets == front + [last] && last != [] && bytes == Carried(front) + last[1..]
  {
    var front, last := packets[..|packets| - 1], packets[|packets| - 1];
    assert packets == front + [last];
    CarriedAppend(front, [last]);
    var single: seq<seq<Byte>> := [last];
    assert single[1..] == [];
    assert Carried([last]) == last[1..];
  }

  /**
    On CAN, a message read behind anything at all: it is delivered whole as soon as it has a packet
    numbered 0 to start from; a single-packet message is appended to what was left over.
   */
  lemma CanDelivers(r: Reader, packets: seq<seq<Byte>>, bytes: seq<Byte>)
    requires IsMessage(packets, bytes) && r.alive
    ensures ReadCan(r, packets)
            == Reader([], r.frames + [if |packets| > 1 then bytes else r.frame + bytes], true)
  {
    MessageParts(packets, bytes);
    var front, last := packets[..|packets| - 1], packets[|packets| - 1];
    ReadCanAppend(r, front, [last]);
    var before := ReadCan(r, front);
    assert ReadCan(before, [last]) == OnCan(before, last) by {
      var single: seq<seq<Byte>> := [last];
      assert single[1..] == [];
    }
    if front == [] {
      assert Carried(front) + last[1..] == last[1..];
    } else {
      CanExtends(OnCan(r, front[0]), front[1..]);
      assert front[0][0] == 0x00;
    }
  }

  /** On USB nothing resets the frame, so the bytes follow whatever was there. */
  lemma UsbDelivers(r: Reader, packets: seq<seq<Byte>>, bytes: seq<Byte>)
    requires IsMessage(packets, bytes) && r.alive
    ensures ReadUsb(r, packets) == Reader([], r.frames + [r.frame + bytes], true)
  {
    MessageParts(packets, bytes);
    var front, last := packets[..|packets| - 1], packets[|packets| - 1];
    ReadUsbAppend(r, front, [last]);
    UsbExtends(r, front);
    var single: seq<seq<Byte>> := [last];
    assert single[1..] == [];
    Assoc(r.frame, Carried(front), last[1..]);
  }

  // ---------------------------------------------------------------- whole logs

  function EncodeAll(messages: seq<seq<seq<Byte>>>, pktMax: nat): seq<seq<Byte>>
    requires pktMax >= 2
    decreases |messages|
  {
    if messages == [] then [] else Encode(messages[0], pktMax) + EncodeAll(messages[1..], pktMax)
  }

  /** The bytes of each message. */
  function Bodies(messages: seq<seq<seq<Byte>>>): seq<seq<Byte>>
    decreases |messages|
  {
    if messages == [] then [] else [Concat(messages[0])] + Bodies(messages[1..])
  }

  predicate AllWithinLimit(messages: seq<seq<seq<Byte>>>, pktMax: nat) {
    forall i :: 0 <= i < |messages| ==> WithinLimit(messages[i], pktMax)
  }

  lemma AppendOne(frames: seq<seq<Byte>>, body: seq<Byte>, rest: seq<seq<Byte>>)
    ensures (frames + [body]) + rest == frames + ([body] + rest)
  {
  }

  /**
    For every list of messages of any length, over CAN or over USB: the PC gets exactly the bytes of
    each message, in order.
   */
  lemma {:induction false} LogRoundTrip(r: Reader, messages: seq<seq<seq<Byte>>>, pktMax: nat)
    requires 2 <= pktMax <= BUF_LEN && AllWithinLimit(messages, pktMax) && r.frame == [] && r.alive
    ensures ReadCan(r, EncodeAll(messages, pktMax)) == Reader([], r.frames + Bodies(messages), true)
    ensures ReadUsb(r, EncodeAll(messages, pktMax)) == Reader([], r.frames + Bodies(messages), true)
    decreases |messages|
  {
    if messages == [] {
      assert r.frames + [] == r.frames;
    } else {
      var packets, body := Encode(messages[0], pktMax), Concat(messages[0]);
      EncodeIsMessage(messages[0], pktMax);
      CanDelivers(r, packets, body);
      UsbDelivers(r, packets, body);
      assert [] + body == body;
      var next := Reader([], r.frames + [body], true);
      LogRoundTrip(next, messages[1..], pktMax);
      ReadCanAppend(r, packets, EncodeAll(messages[1..], pktMax));
      ReadUsbAppend(r, packets, EncodeAll(messages[1..], pktMax));
      AppendOne(r.frames, body, Bodies(messages[1..]));
    }
  }

  /**
    On CAN, after any packets at all, in any order and with any losses, the next complete message is
    delivered intact exactly when no packet was empty and it begins with a packet numbered 0 or nothing was
    left over.
   */
  lemma CanRecovers(noise: seq<seq<Byte>>, writes: seq<seq<Byte>>, pktMax: nat)
    requires 2 <= pktMax <= BUF_LEN && WithinLimit(writes, pktMax)
    ensures var packets := Encode(writes, pktMax);
            var before := ReadCan(NewReader(), noise);
            && packets != [] && packets[0] != []
            && (ReadCan(NewReader(), noise + packets).frames == before.frames + [Concat(writes)]
                <==> NoEmpty(noise) && (packets[0][0] == 0x00 || before.frame == []))
  {
    var packets, bytes := Encode(writes, pktMax), Concat(writes);
    var before := ReadCan(NewReader(), noise);
    EncodeIsMessage(writes, pktMax);
    MessageParts(packets, bytes);
    ReadCanAppend(NewReader(), noise, packets);
    CanSurvivesIff(NewReader(), noise);
    assert |before.frames + [bytes]| == |before.frames| + 1;
    if before.alive {
      CanDelivers(before, packets, bytes);
      FirstNumber(packets, bytes);
      var got := if |packets| > 1 then bytes else before.frame + bytes;
      assert |before.frame + bytes| == |before.frame| + |bytes|;
      assert before.frame == [] ==> before.frame + bytes == bytes;
      assert (before.frames + [got])[|before.frames|] == got;
      assert (before.frames + [bytes])[|before.frames|] == bytes;
    } else {
      CanSurvivesIff(before, packets);
    }
  }

  /** A message begins with number 0 exactly when it has more than one packet. */
  lemma FirstNumber(packets: seq<seq<Byte>>, bytes: seq<Byte>)
    requires IsMessage(packets, bytes)
    ensures packets[0] != [] && (packets[0][0] == 0x00 <==> |packets| > 1)
  {
    if |packets| > 1 {
      assert packets[..|packets| - 1][0] == packets[0];
    }
  }

  /** A packet numbered 0xF0 to 0xFE, which no writer sends, changes nothing wherever it comes. */
  lemma ReservedNumbersIgnored(r: Reader, a: seq<seq<Byte>>, odd: seq<Byte>, b: seq<seq<Byte>>)
    requires odd != [] && 0xF0 <= odd[0] <= 0xFE
    ensures ReadCan(r, a + [odd] + b) == ReadCan(r, a + b)
  {
    ReadCanAppend(r, a, b);
    assert a + [odd] + b == a + ([odd] + b);
    ReadCanAppend(r, a, [odd] + b);
    assert ([odd] + b)[1..] == b;
  }
}
