/** Bytes, little-endian words and the optional values shared by every module. */
module Bytes {
  type Byte = x: int | 0 <= x < 256

  type U16 = x: int | 0 <= x < 0x1_0000

  /** One unsigned 32-bit machine word. */
  type Word = x: int | 0 <= x < WORD

  const WORD := 0x1_0000_0000

  datatype Option<+T> = None | Some(value: T)

  function Min(a: int, b: int): int {
    if a < b then a else b
  }

  /** The `n` low bytes of `v`, least significant first. */
  function Le(n: nat, v: nat): (s: seq<Byte>)
    ensures |s| == n
  {
    if n == 0 then [] else [v % 256] + Le(n - 1, v / 256)
  }

  /** The number whose bytes are `s`, least significant first. */
  function FromLe(s: seq<Byte>): nat {
    if s == [] then 0 else s[0] as int + 256 * FromLe(s[1..])
  }

  /** `n` bytes hold every number below `256^n`. */
  function Span(n: nat): nat {
    if n == 0 then 1 else 256 * Span(n - 1)
  }

  lemma {:induction false} LeRoundTrip(n: nat, v: nat)
    requires v < Span(n)
    ensures FromLe(Le(n, v)) == v
  {
    if n > 0 {
      assert v / 256 < Span(n - 1);
      LeRoundTrip(n - 1, v / 256);
      assert Le(n, v)[1..] == Le(n - 1, v / 256);
    }
  }

  lemma {:induction false} FromLeBound(s: seq<Byte>)
    ensures FromLe(s) < Span(|s|)
  {
    if s != [] {
      FromLeBound(s[1..]);
    }
  }

  /** `u16::to_le_bytes` of the low 16 bits of `v`. */
  function Le16(v: nat): (s: seq<Byte>)
    ensures |s| == 2
  {
    Le(2, v)
  }

  /** `u32::to_le_bytes` of the low 32 bits of `v`. */
  function Le32(v: nat): (s: seq<Byte>)
    ensures |s| == 4
  {
    Le(4, v)
  }

  function FromLe16(s: seq<Byte>): (v: nat)
    requires |s| == 2
    ensures v < 0x1_0000
  {
    FromLeBound(s);
    assert Span(2) == 0x1_0000;
    FromLe(s)
  }

  function FromLe32(s: seq<Byte>): Word
    requires |s| == 4
  {
    FromLeBound(s);
    assert Span(4) == WORD;
    FromLe(s)
  }

  lemma Le16RoundTrip(v: nat)
    requires v < 0x1_0000
    ensures FromLe16(Le16(v)) == v
  {
    assert Span(2) == 0x1_0000;
    LeRoundTrip(2, v);
  }

  lemma Le32RoundTrip(v: Word)
    ensures FromLe32(Le32(v)) == v
  {
    assert Span(4) == WORD;
    LeRoundTrip(4, v);
  }

  /** Different bytes spell different numbers. */
  lemma {:induction false} FromLeInjective(a: seq<Byte>, b: seq<Byte>)
    requires |a| == |b| && FromLe(a) == FromLe(b)
    ensures a == b
  {
    if a != [] {
      SameDigits(a[0], FromLe(a[1..]), b[0], FromLe(b[1..]));
      FromLeInjective(a[1..], b[1..]);
      assert a == [a[0]] + a[1..] && b == [b[0]] + b[1..];
    }
  }

  lemma SameDigits(x: Byte, p: nat, y: Byte, q: nat)
    requires x + 256 * p == y + 256 * q
    ensures x == y && p == q
  {
  }

  /** All members of a list of byte strings, one after the other. */
  function Concat<T>(parts: seq<seq<T>>): seq<T> {
    if parts == [] then [] else Concat(parts[..|parts| - 1]) + parts[|parts| - 1]
  }

  lemma {:induction false} ConcatAppend<T>(a: seq<seq<T>>, b: seq<seq<T>>)
    ensures Concat(a + b) == Concat(a) + Concat(b)
  {
    if b == [] {
      assert a + b == a;
    } else {
      var front, last := b[..|b| - 1], b[|b| - 1];
      assert (a + b)[..|a + b| - 1] == a + front;
      ConcatAppend(a, front);
    }
  }

  lemma ConcatOne<T>(a: seq<seq<T>>, x: seq<T>)
    ensures Concat(a + [x]) == Concat(a) + x
  {
    assert (a + [x])[..|a|] == a;
  }
}
