/** Requests from the PC over the USB serial port: length header and body, read in whatever pieces arrive. */
module UsbDevice {
  import opened Bytes

  const BUF_LEN := 4096

  /** What the PC writes for one request. */
  function Framed(request: seq<Byte>): seq<Byte> {
    Le16(|request|) + request
  }

  /** The request being read, with the bytes it has so far, and the requests handed over. */
  datatype Device = Device(reading: Option<(seq<Byte>, nat)>, delivered: seq<seq<Byte>>)

  /** Pieces that have arrived and not been read; a read never crosses from one into the next. */
  type Pieces = seq<seq<Byte>>

  /** The pieces after `n` bytes of the first one have been read. */
  function AfterRead(pieces: Pieces, n: nat): Pieces
    requires pieces != [] && n <= |pieces[0]|
  {
    (if n == |pieces[0]| then [] else [pieces[0][n..]]) + pieces[1..]
  }

  predicate NoneEmpty(pieces: Pieces) {
    forall i :: 0 <= i < |pieces| ==> pieces[i] != []
  }

  lemma AfterReadKeeps(pieces: Pieces, n: nat)
    requires pieces != [] && n <= |pieces[0]| && NoneEmpty(pieces)
    ensures NoneEmpty(AfterRead(pieces, n))
  {
  }

  /** The header read: both bytes at once, or whatever was read is gone. */
  function ReadHeader(d: Device, pieces: Pieces): (Device, Pieces)
    requires d.reading.None? && NoneEmpty(pieces)
  {
    if pieces == [] then (d, pieces)
    else
      var n := Min(2, |pieces[0]|);
      var rest := AfterRead(pieces, n);
      if n < 2 then (d, rest)
      else
        var size := FromLe16(pieces[0][..2]) % 4096;
        (if size != 0 then d.(reading := Some(([], size))) else d, rest)
  }

  /** Body reads until the request is complete or nothing more has arrived. */
  function ReadBody(d: Device, pieces: Pieces): (Device, Pieces)
    requires NoneEmpty(pieces) && d.reading.Some? && |d.reading.value.0| < d.reading.value.1
    decreases |pieces|
  {
    if pieces == [] then (d, pieces)
    else
      var (got, expected) := d.reading.value;
      var n := Min(expected - |got|, |pieces[0]|);
      var more := got + pieces[0][..n];
      AfterReadKeeps(pieces, n);
      var rest := AfterRead(pieces, n);
      if |more| == expected then (Device(None, d.delivered + [more]), rest)
      else ReadBody(d.(reading := Some((more, expected))), rest)
  }

  predicate Sound(d: Device) {
    d.reading.Some? ==> |d.reading.value.0| < d.reading.value.1 <= BUF_LEN
  }

  /** One call of the interrupt handler. */
  function Polled(d: Device, pieces: Pieces): (Device, Pieces)
    requires NoneEmpty(pieces) && Sound(d)
  {
    var (e, rest) := if d.reading.None? then ReadHeader(d, pieces) else (d, pieces);
    if e.reading.None? then (e, rest)
    else
      assert NoneEmpty(rest) by {
        if d.reading.None? {
          AfterReadKeeps(pieces, Min(2, |pieces[0]|));
        }
      }
      ReadBody(e, rest)
  }

  // ---------------------------------------------------------------- the object

  class SerialPort {
    var pieces: Pieces

    constructor ()
      ensures pieces == []
    {
      pieces := [];
    }

    /** Up to `max` bytes of the first piece; nothing when there is none. */
    method Read(max: nat) returns (got: Option<seq<Byte>>)
      requires NoneEmpty(pieces)
      modifies this
      ensures NoneEmpty(pieces)
      ensures old(pieces) == [] ==> got.None? && pieces == []
      ensures old(pieces) != [] ==>
                var n := Min(max, |old(pieces)[0]|);
                got == Some(old(pieces)[0][..n]) && pieces == AfterRead(old(pieces), n)
    {
      if pieces == [] {
        return None;
      }
      var n := Min(max, |pieces[0]|);
      got := Some(pieces[0][..n]);
      AfterReadKeeps(pieces, n);
      pieces := AfterRead(pieces, n);
    }
  }

  class InterruptHandler {
    const serial: SerialPort
    var reading: bool
    const buffer: array<Byte>
    var size: nat
    var expectedSize: nat
    var delivered: seq<seq<Byte>>

    predicate Valid()
      reads this, serial
    {
      && buffer.Length == BUF_LEN && NoneEmpty(serial.pieces)
      && (reading ==> size < expectedSize <= BUF_LEN)
    }

    function State(): Device
      reads this, serial, buffer
      requires Valid()
    {
      Device(if reading then Some((buffer[..size], expectedSize)) else None, delivered)
    }

    constructor (serial: SerialPort)
      requires NoneEmpty(serial.pieces)
      ensures Valid() && fresh(buffer) && this.serial == serial && State() == Device(None, [])
    {
      this.serial := serial;
      reading, size, expectedSize, delivered := false, 0, 0, [];
      buffer := new Byte[BUF_LEN](_ => 0);
    }

    method Poll()
      requires Valid()
      modifies this, serial, buffer
      ensures Valid()
      ensures (State(), serial.pieces) == Polled(old(State()), old(serial.pieces))
    {
      if !reading {
        var header := serial.Read(2);
        if header.Some? && |header.value| == 2 {
          var length := FromLe16(header.value) % 4096;
          if length != 0 && length <= BUF_LEN {
            reading, size, expectedSize := true, 0, length;
          }
        }
      }
      if reading {
        ReadAvailable();
      }
    }

    method ReadAvailable()
      requires Valid() && reading
      modifies this, serial, buffer
      ensures Valid()
      ensures (State(), serial.pieces) == ReadBody(old(State()), old(serial.pieces))
    {
      ghost var goal := ReadBody(State(), serial.pieces);
      while true
        invariant Valid() && reading
        invariant ReadBody(State(), serial.pieces) == goal
        decreases expectedSize - size
      {
        ghost var before := buffer[..size];
        var got := serial.Read(expectedSize - size);
        if got.None? {
          return;
        }
        forall i | 0 <= i < |got.value| {
          buffer[size + i] := got.value[i];
        }
        size := size + |got.value|;
        assert buffer[..size] == before + got.value;
        if size == expectedSize {
          delivered := delivered + [buffer[..size]];
          reading := false;
          break;
        }
      }
    }
  }
}
