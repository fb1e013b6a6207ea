/** NOR memory: erasing sets every bit, programming can only clear bits. */
module Flash {
  import opened Bytes

  type Memory = seq<Byte>

  const ERASED: Byte := 0xFF
  const PAGE := 256
  const SECTOR_4K := 4096
  const BLOCK_32K := 32 * 1024

  /** Bitwise AND, one binary digit at a time. */
  function And(a: nat, b: nat): (r: nat)
    ensures r <= b
  {
    if a == 0 || b == 0 then 0
    else 2 * And(a / 2, b / 2) + if a % 2 == 1 && b % 2 == 1 then 1 else 0
  }

  /** `n` ones in binary. */
  function Ones(n: nat): nat {
    if n == 0 then 0 else 2 * Ones(n - 1) + 1
  }

  lemma {:induction false} AndOnes(n: nat, b: nat)
    requires b <= Ones(n)
    ensures And(Ones(n), b) == b
  {
    if b > 0 {
      assert Ones(n) / 2 == Ones(n - 1) && Ones(n) % 2 == 1;
      AndOnes(n - 1, b / 2);
      assert b == 2 * (b / 2) + b % 2;
    }
  }

  /** A programmed cell keeps only the bits set both in the cell and in the data. */
  function Program(cell: Byte, data: Byte): (r: Byte)
    ensures cell == ERASED ==> r == data
  {
    assert cell == ERASED ==> And(cell, data) == data by {
      assert Ones(8) == 255;
      AndOnes(8, data);
    }
    And(cell, data)
  }

  /** Cells `a..a+n` become 0xFF. */
  function Erase(m: Memory, a: nat, n: nat): (r: Memory)
    ensures |r| == |m|
  {
    seq(|m|, i requires 0 <= i < |m| => if a <= i < a + n then ERASED else m[i])
  }

  /** What programming `data` at `a` is meant to do: cell `a+k` takes `data[k]`. */
  function ProgramAt(m: Memory, a: nat, data: seq<Byte>): (r: Memory)
    ensures |r| == |m|
  {
    seq(|m|, i requires 0 <= i < |m| => if a <= i < a + |data| then Program(m[i], data[i - a]) else m[i])
  }

  /** The QSPI chip's page program: the address counter wraps inside the 256-byte page. */
  function PageProgram(m: Memory, a: nat, data: seq<Byte>): (r: Memory)
    requires |data| <= PAGE
    ensures |r| == |m|
  {
    seq(|m|, i requires 0 <= i < |m| =>
      var k := (i - a) % 256;
      if i / 256 == a / 256 && k < |data| then Program(m[i], data[k]) else m[i])
  }

  /** The page programs issued for `data`, 256 bytes at a time. */
  function QspiWrite(m: Memory, a: nat, data: seq<Byte>): (r: Memory)
    ensures |r| == |m|
    decreases |data|
  {
    if data == [] then m
    else
      var n := Min(PAGE, |data|);
      QspiWrite(PageProgram(m, a, data[..n]), a + n, data[n..])
  }

  /** No chunk of a write of `n` bytes at `a` reaches over the end of its page. */
  predicate PageSafe(a: nat, n: nat) {
    a % 256 + Min(PAGE, n) <= PAGE
  }

  /** Where cell `i` lies in a page write that starts at `a`. */
  lemma PageOffset(i: nat, a: nat)
    ensures i / 256 == a / 256 ==> (i - a) % 256 == if i >= a then i - a else i - a + PAGE
    ensures i / 256 == a / 256 ==> i - a < PAGE - a % 256
    ensures a <= i < a + PAGE - a % 256 ==> i / 256 == a / 256
    ensures i / 256 == a / 256 && i < a ==> i - a + PAGE >= PAGE - a % 256
  {
  }

  lemma PageProgramIsLinear(m: Memory, a: nat, data: seq<Byte>)
    requires |data| <= PAGE && PageSafe(a, |data|)
    ensures PageProgram(m, a, data) == ProgramAt(m, a, data)
  {
    forall i | 0 <= i < |m|
      ensures PageProgram(m, a, data)[i] == ProgramAt(m, a, data)[i]
    {
      PageOffset(i, a);
    }
  }

  lemma {:induction false} SafeWriteIsLinear(m: Memory, a: nat, data: seq<Byte>)
    requires PageSafe(a, |data|)
    ensures QspiWrite(m, a, data) == ProgramAt(m, a, data)
    decreases |data|
  {
    if data == [] {
      assert ProgramAt(m, a, data) == m;
    } else {
      var n := Min(PAGE, |data|);
      var first := PageProgram(m, a, data[..n]);
      PageProgramIsLinear(m, a, data[..n]);
      if |data| > PAGE {
        assert (a + n) % 256 == 0;
      }
      SafeWriteIsLinear(first, a + n, data[n..]);
      ProgramInTwo(m, a, data[..n], data[n..]);
      assert data[..n] + data[n..] == data;
    }
  }

  /** Programming two runs one after the other programs their concatenation. */
  lemma ProgramInTwo(m: Memory, a: nat, x: seq<Byte>, y: seq<Byte>)
    ensures ProgramAt(ProgramAt(m, a, x), a + |x|, y) == ProgramAt(m, a, x + y)
  {
  }

  /** Programming never sets a bit, so it never raises a cell. */
  lemma {:induction false} WriteOnlyClears(m: Memory, a: nat, data: seq<Byte>, i: nat)
    requires i < |m|
    ensures QspiWrite(m, a, data)[i] <= m[i]
    decreases |data|
  {
    if data != [] {
      var n := Min(PAGE, |data|);
      var first := PageProgram(m, a, data[..n]);
      assert first[i] <= m[i] by {
        AndSmaller(m[i], data[if (i - a) % 256 < n then (i - a) % 256 else 0]);
      }
      WriteOnlyClears(first, a + n, data[n..], i);
    }
  }

  lemma {:induction false} AndSmaller(a: nat, b: nat)
    ensures And(a, b) <= a
  {
    if a != 0 && b != 0 {
      AndSmaller(a / 2, b / 2);
    }
  }

  /** Erased memory with room for `n` bytes at `a`. */
  function Blank(n: nat): Memory {
    seq(n, _ => ERASED)
  }

  /**
    The chunked write puts every possible `n` bytes where they belong exactly when no chunk crosses
    a page: a crossing chunk wraps and damages the start of the page it began in.
   */
  lemma WriteExactIffPageSafe(a: nat, n: nat)
    ensures PageSafe(a, n) <==>
            forall data: seq<Byte> :: |data| == n ==>
              QspiWrite(Blank(a + n), a, data) == ProgramAt(Blank(a + n), a, data)
  {
    var m := Blank(a + n);
    if PageSafe(a, n) {
      forall data: seq<Byte> | |data| == n ensures QspiWrite(m, a, data) == ProgramAt(m, a, data) {
        SafeWriteIsLinear(m, a, data);
      }
    } else {
      CrossingWriteDamages(a, n);
      var zeros: seq<Byte> := seq(n, _ => 0);
      assert |zeros| == n;
    }
  }

  /** Zeros written over the end of a page clear the first cell of that page. */
  lemma CrossingWriteDamages(a: nat, n: nat)
    requires !PageSafe(a, n)
    ensures var zeros: seq<Byte> := seq(n, _ => 0);
            QspiWrite(Blank(a + n), a, zeros) != ProgramAt(Blank(a + n), a, zeros)
  {
    var m, zeros: seq<Byte> := Blank(a + n), seq(n, _ => 0);
    var c := Min(PAGE, n);
    var base := PAGE * (a / 256);
    PageOffset(base, a);
    assert zeros[..c][PAGE - a % 256] == 0;
    WriteOnlyClears(PageProgram(m, a, zeros[..c]), a + c, zeros[c..], base);
    assert QspiWrite(m, a, zeros)[base] == 0;
    assert ProgramAt(m, a, zeros)[base] == ERASED;
  }

  /** Binary digit `k`. */
  function Digit(x: nat, k: nat): nat {
    if k == 0 then x % 2 else Digit(x / 2, k - 1)
  }

  lemma {:induction false} AndDigits(a: nat, b: nat, k: nat)
    ensures Digit(And(a, b), k) == 1 <==> Digit(a, k) == 1 && Digit(b, k) == 1
    decreases k
  {
    if a == 0 {
      ZeroDigits(k);
    } else if b == 0 {
      ZeroDigits(k);
    } else {
      assert And(a, b) / 2 == And(a / 2, b / 2);
      if k > 0 {
        AndDigits(a / 2, b / 2, k - 1);
      }
    }
  }

  lemma {:induction false} ZeroDigits(k: nat)
    ensures Digit(0, k) == 0
  {
    if k > 0 {
      ZeroDigits(k - 1);
    }
  }

  /** After a write that stays inside its pages a bit is set exactly when it was set before and is in the data. */
  lemma WriteClearsBits(m: Memory, a: nat, data: seq<Byte>, i: nat, k: nat)
    requires PageSafe(a, |data|) && a <= i < a + |data| && i < |m|
    ensures Digit(QspiWrite(m, a, data)[i], k) == 1 <==> Digit(m[i], k) == 1 && Digit(data[i - a], k) == 1
  {
    SafeWriteIsLinear(m, a, data);
    AndDigits(m[i], data[i - a], k);
  }
}
