/** The external QSPI flash chip behind its driver. */
module QspiDriver {
  import opened Bytes
  import opened Flash
  import opened Kwp

  /** One turn of the chunk loop, from offset `off` to offset `next`. */
  lemma WriteStep(m: Memory, a: nat, data: seq<Byte>, off: nat, next: nat)
    requires off < |data| && next == off + Min(PAGE, |data| - off)
    ensures QspiWrite(m, a + off, data[off..])
            == QspiWrite(PageProgram(m, a + off, data[off..next]), a + next, data[next..])
    ensures Chunks(a + off, |data| - off)
            == [ProgramPage(a + off, next - off)] + Chunks(a + next, |data| - next)
  {
    assert data[off..][..next - off] == data[off..next] && data[off..][next - off..] == data[next..];
  }

  class QspiStorage {
    var cells: Memory

    constructor (cells: Memory)
      ensures this.cells == cells
    {
      this.cells := cells;
    }

    /** One page program; the chip wraps inside the page. */
    method WritePage(addr: nat, block: seq<Byte>)
      requires |block| <= PAGE
      modifies this
      ensures cells == PageProgram(old(cells), addr, block)
    {
      cells := PageProgram(cells, addr, block);
    }

    /** Sends the chunk of `data` that begins at `off`; the rest of the write is still to be done. */
    method WriteChunk(addr: nat, data: seq<Byte>, off: nat) returns (next: nat, ghost op: FlashOp)
      requires off < |data|
      modifies this
      ensures next == off + Min(PAGE, |data| - off)
      ensures QspiWrite(cells, addr + next, data[next..]) == QspiWrite(old(cells), addr + off, data[off..])
      ensures [op] + Chunks(addr + next, |data| - next) == Chunks(addr + off, |data| - off)
    {
      next := off + Min(PAGE, |data| - off);
      op := ProgramPage(addr + off, next - off);
      WriteStep(cells, addr, data, off, next);
      WritePage(addr + off, data[off..next]);
    }

    /** Programs `data` at `addr` in 256-byte chunks, whatever the alignment of `addr`. */
    method Write(addr: nat, data: seq<Byte>) returns (ghost issued: seq<FlashOp>)
      modifies this
      ensures cells == QspiWrite(old(cells), addr, data)
      ensures issued == Chunks(addr, |data|)
    {
      issued := [];
      var off := 0;
      ghost var goal := QspiWrite(cells, addr, data);
      ghost var rest := Chunks(addr, |data|);
      assert data[0..] == data;
      while off < |data|
        invariant off <= |data|
        invariant QspiWrite(cells, addr + off, data[off..]) == goal
        invariant rest == Chunks(addr + off, |data| - off) && issued + rest == Chunks(addr, |data|)
      {
        ghost var op;
        off, op := WriteChunk(addr, data, off);
        issued, rest := issued + [op], rest[1..];
      }
    }

    method Erase4kSector(addr: nat, hwOk: bool) returns (ok: bool)
      modifies this
      ensures ok == hwOk
      ensures cells == if hwOk then Erase(old(cells), addr, SECTOR_4K) else old(cells)
    {
      ok := hwOk;
      if hwOk {
        cells := Erase(cells, addr, SECTOR_4K);
      }
    }

    method Erase32kBlock(addr: nat, hwOk: bool) returns (ok: bool)
      modifies this
      ensures ok == hwOk
      ensures cells == if hwOk then Erase(old(cells), addr, BLOCK_32K) else old(cells)
    {
      ok := hwOk;
      if hwOk {
        cells := Erase(cells, addr, BLOCK_32K);
      }
    }
  }
}
