/** Replies and log packets share the serial stream to the PC, which sorts them out again. */
module UsbHost {
  import opened Bytes
  import opened LogReader

  const TY_ISOTP: Byte := 0xFF
  const TY_DEFMT: Byte := 0xFE

  datatype Record = Reply(body: seq<Byte>) | Log(body: seq<Byte>)

  /** The bytes the device writes for one record: 16-bit length, type, body. */
  function RecordBytes(r: Record): seq<Byte> {
    Le16(|r.body| + 1) + [if r.Reply? then TY_ISOTP else TY_DEFMT] + r.body
  }

  /** Replies fit the endpoint's buffer, log packets are not empty and at most 32 bytes. */
  predicate Sendable(r: Record) {
    match r
    case Reply(body) => |body| <= 4096
    case Log(body) => 0 < |body| <= 32
  }

  function Stream(records: seq<Record>): seq<Byte>
    decreases |records|
  {
    if records == [] then [] else RecordBytes(records[0]) + Stream(records[1..])
  }

  /** The device's side of the serial port: what has been written to it. */
  class SerialOut {
    var bytes: seq<Byte>

    constructor ()
      ensures bytes == []
    {
      bytes := [];
    }

    method WriteAll(data: seq<Byte>)
      modifies this
      ensures bytes == old(bytes) + data
    {
      bytes := bytes + data;
    }

    /** `UsbIsoTpConsumer::write`: a reply that does not fit the endpoint's buffer is refused. */
    method WriteReply(buffer: seq<Byte>) returns (ok: bool)
      modifies this
      ensures ok == Sendable(Reply(buffer))
      ensures bytes == if ok then old(bytes) + RecordBytes(Reply(buffer)) else old(bytes)
    {
      if |buffer| > 4096 {
        return false;
      }
      WriteAll(Le16((|buffer| + 1) % 0x1_0000));
      WriteAll([TY_ISOTP]);
      WriteAll(buffer);
      ok := true;
    }

    /** `write_data_serial`: nothing is written while the PC has not opened the port. */
    method WriteLog(buf: seq<Byte>, dtr: bool) returns (size: Option<nat>)
      requires |buf| <= 32
      modifies this
      ensures size == if dtr then Some(|buf|) else None
      ensures bytes == if dtr then old(bytes) + RecordBytes(Log(buf)) else old(bytes)
    {
      if !dtr {
        return None;
      }
      WriteAll(Le16((|buf| + 1) % 0x1_0000));
      WriteAll([TY_DEFMT]);
      WriteAll(buf);
      size := Some(|buf|);
    }
  }

  /** What the PC has sorted out so far. */
  datatype Host = Host(replies: seq<seq<Byte>>, log: Reader)

  /** One record body; without a type byte, or a log packet without a number, makes the thread panic. */
  function OnRecord(h: Host, buf: seq<Byte>): Host {
    if buf == [] then h.(log := h.log.(alive := false))
    else if buf[0] == TY_ISOTP then h.(replies := h.replies + [buf[1..]])
    else if buf[0] == TY_DEFMT then h.(log := OnUsb(h.log, buf[1..]))
    else h
  }

  /** The reader thread on everything that has arrived: it waits where a record is incomplete. */
  function Drain(h: Host, stream: seq<Byte>): Host
    decreases |stream|
  {
    if !h.log.alive || |stream| < 2 || |stream| < 2 + FromLe16(stream[..2]) then h
    else
      var len := FromLe16(stream[..2]);
      Drain(OnRecord(h, stream[2..2 + len]), stream[2 + len..])
  }

  /** The reader thread. */
  class ReaderThread {
    var responses: seq<seq<Byte>>
    const frames: FrameReader

    function State(): Host
      reads this, frames
    {
      Host(responses, frames.State())
    }

    constructor ()
      ensures fresh(frames) && State() == Host([], NewReader())
    {
      responses := [];
      frames := new FrameReader();
    }

    /** Reads length and body exactly, record by record, until the port has no complete record left. */
    method Run(port: seq<Byte>)
      modifies this, frames
      ensures State() == Drain(old(State()), port)
    {
      var at := 0;
      assert port[0..] == port;
      while at + 2 <= |port| && frames.alive
        invariant at <= |port|
        invariant Drain(State(), port[at..]) == Drain(old(State()), port)
        decreases |port| - at
      {
        ghost var rest := port[at..];
        assert rest[..2] == port[at..at + 2];
        var len := FromLe16(port[at..at + 2]);
        if at + 2 + len > |port| {
          return;
        }
        assert rest[2..2 + len] == port[at + 2..at + 2 + len] && rest[2 + len..] == port[at + 2 + len..];
        Record(port[at + 2..at + 2 + len]);
        at := at + 2 + len;
      }
    }

    method Record(buf: seq<Byte>)
      requires frames.alive
      modifies this, frames
      ensures State() == OnRecord(old(State()), buf)
    {
      if buf == [] {
        frames.alive := false;
      } else if buf[0] == TY_ISOTP {
        responses := responses + [buf[1..]];
      } else if buf[0] == TY_DEFMT {
        frames.UsbPacket(buf[1..]);
      }
    }
  }

  // ---------------------------------------------------------------- demultiplexing

  function Replies(records: seq<Record>): seq<seq<Byte>>
    decreases |records|
  {
    if records == [] then []
    else (if records[0].Reply? then [records[0].body] else []) + Replies(records[1..])
  }

  function Logs(records: seq<Record>): seq<seq<Byte>>
    decreases |records|
  {
    if records == [] then []
    else (if records[0].Log? then [records[0].body] else []) + Logs(records[1..])
  }

  predicate AllSendable(records: seq<Record>) {
    forall i :: 0 <= i < |records| ==> Sendable(records[i])
  }

  /** The first record of a stream comes off whole. */
  lemma RecordParsed(r: Record, rest: seq<Byte>)
    requires Sendable(r)
    ensures var stream := RecordBytes(r) + rest;
            var len := |r.body| + 1;
            && |stream| >= 2 + len && FromLe16(stream[..2]) == len
            && stream[2..2 + len] == [if r.Reply? then TY_ISOTP else TY_DEFMT] + r.body
            && stream[2 + len..] == rest
  {
    var head, len := Le16(|r.body| + 1), |r.body| + 1;
    Le16RoundTrip(len);
    var stream := RecordBytes(r) + rest;
    assert stream[..2] == head;
  }

  /** What one sendable record does. */
  function Take(h: Host, r: Record): Host
    requires Sendable(r)
  {
    if r.Reply? then h.(replies := h.replies + [r.body]) else h.(log := OnUsb(h.log, r.body))
  }

  lemma DrainOne(h: Host, r: Record, rest: seq<Byte>)
    requires Sendable(r) && h.log.alive
    ensures Drain(h, RecordBytes(r) + rest) == Drain(Take(h, r), rest) && Take(h, r).log.alive
  {
    RecordParsed(r, rest);
    var buf := [if r.Reply? then TY_ISOTP else TY_DEFMT] + r.body;
    assert buf[1..] == r.body;
  }

  /** Taking a record first is the same as having it at the head of its list. */
  lemma TakeCounts(h: Host, r: Record, replies: seq<seq<Byte>>, logs: seq<seq<Byte>>)
    requires Sendable(r)
    ensures var next := Take(h, r);
            var (rs, ls) := (if r.Reply? then [r.body] else [], if r.Log? then [r.body] else []);
            && next.replies + replies == h.replies + (rs + replies)
            && ReadUsb(next.log, logs) == ReadUsb(h.log, ls + logs)
  {
    if r.Log? {
      assert ([r.body] + logs)[1..] == logs;
    } else {
      assert [] + logs == logs;
      assert (h.replies + [r.body]) + replies == h.replies + ([r.body] + replies);
    }
  }

  /** For every interleaving of records the replies come out in order, and the log packets do too. */
  lemma {:induction false} Demultiplexed(h: Host, records: seq<Record>)
    requires AllSendable(records) && h.log.alive
    ensures Drain(h, Stream(records)) == Host(h.replies + Replies(records), ReadUsb(h.log, Logs(records)))
    decreases |records|
  {
    if records == [] {
      assert h.replies + [] == h.replies;
    } else {
      var r := records[0];
      DrainOne(h, r, Stream(records[1..]));
      Demultiplexed(Take(h, r), records[1..]);
      TakeCounts(h, r, Replies(records[1..]), Logs(records[1..]));
    }
  }

  /**
    Replies and whole log messages, interleaved in any way: the PC ends up with the list of replies and
    the list of log messages, each complete and in order.
   */
  lemma ReplyAndLogRoundTrip(records: seq<Record>, messages: seq<seq<seq<Byte>>>)
    requires AllSendable(records) && AllWithinLimit(messages, 32)
    requires Logs(records) == EncodeAll(messages, 32)
    ensures Drain(Host([], NewReader()), Stream(records)) == Host(Replies(records), Reader([], Bodies(messages), true))
  {
    Demultiplexed(Host([], NewReader()), records);
    LogRoundTrip(NewReader(), messages, 32);
    assert [] + Replies(records) == Replies(records);
    assert [] + Bodies(messages) == Bodies(messages);
  }

  // ---------------------------------------------------------------- the bytes of a record

  /** Length of type and body in two bytes, the low one first; then 0xFF for a reply and 0xFE for the log. */
  lemma RecordLayout(r: Record)
    requires Sendable(r)
    ensures var bytes := RecordBytes(r);
            && |bytes| == 3 + |r.body| && bytes[3..] == r.body
            && bytes[0] == (|r.body| + 1) % 256 && bytes[1] == (|r.body| + 1) / 256
            && bytes[2] == if r.Reply? then 0xFF else 0xFE
  {
    var n := |r.body| + 1;
    assert Le(2, n)[1..] == Le(1, n / 256);
  }

  /** A record of any other type is skipped as a whole. */
  lemma OtherRecords(h: Host, ty: Byte, body: seq<Byte>, rest: seq<Byte>)
    requires h.log.alive && ty < 0xFE && |body| < 0xFFFF
    ensures Drain(h, Le16(|body| + 1) + [ty] + body + rest) == Drain(h, rest)
  {
    var stream := Le16(|body| + 1) + [ty] + body + rest;
    RecordComesOff(ty, body, rest, stream);
    assert OnRecord(h, stream[2..3 + |body|]) == h;
  }

  lemma RecordComesOff(ty: Byte, body: seq<Byte>, rest: seq<Byte>, stream: seq<Byte>)
    requires |body| < 0xFFFF && stream == Le16(|body| + 1) + [ty] + body + rest
    ensures |stream| >= 3 + |body| && FromLe16(stream[..2]) == |body| + 1
    ensures stream[2..3 + |body|] == [ty] + body && stream[3 + |body|..] == rest
  {
    Le16RoundTrip(|body| + 1);
    assert stream[..2] == Le16(|body| + 1);
  }

  /** One without even a type ends the thread for good. */
  lemma EmptyRecord(h: Host, rest: seq<Byte>)
    requires h.log.alive
    ensures Drain(h, [0, 0] + rest) == h.(log := h.log.(alive := false))
  {
    var stream: seq<Byte> := [0, 0] + rest;
    assert stream[..2] == [0, 0] && stream[2..2] == [];
    Le16RoundTrip(0);
    assert Le16(0) == [0, 0] by {
      assert Le(2, 0)[1..] == Le(1, 0) && Le(1, 0)[1..] == Le(0, 0);
    }
  }

  /** A record that has only come in part is waited for: what came before it is sorted as if it were not there. */
  lemma {:induction false} PartialRecordWaits(h: Host, records: seq<Record>, next: Record, n: nat)
    requires AllSendable(records) && Sendable(next) && h.log.alive && n < |RecordBytes(next)|
    ensures Drain(h, Stream(records) + RecordBytes(next)[..n]) == Drain(h, Stream(records))
    decreases |records|
  {
    var part := RecordBytes(next)[..n];
    if records == [] {
      assert [] + part == part;
      PartIsShort(next, n);
    } else {
      var rest := Stream(records[1..]);
      assert RecordBytes(records[0]) + rest + part == RecordBytes(records[0]) + (rest + part);
      DrainOne(h, records[0], rest);
      DrainOne(h, records[0], rest + part);
      PartialRecordWaits(Take(h, records[0]), records[1..], next, n);
    }
  }

  lemma PartIsShort(r: Record, n: nat)
    requires Sendable(r) && n < |RecordBytes(r)|
    ensures n >= 2 ==> FromLe16(RecordBytes(r)[..n][..2]) == |r.body| + 1
  {
    Le16RoundTrip(|r.body| + 1);
    if n >= 2 {
      assert RecordBytes(r)[..n][..2] == Le16(|r.body| + 1);
    }
  }
}
