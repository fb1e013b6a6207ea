/** The count-down timer and the ramp that is drawn by re-anchoring it at its own last output. */
module Ramp {
  import opened Arithmetic
  import opened Bytes

  /** `interp_value`, with the two directions written as the code has them. */
  function InterpValue(left: U16, start: real, end: real): real {
    if left == 0 then end
    else if start > end then start + (end - start) / left as real
    else start - (start - end) / left as real
  }

  /** The same between whole numbers and cut off to a whole number. */
  function Step(left: U16, v: U16, target: U16): U16 {
    if left == 0 then target
    else if v > target then StepFits(v - target, left); v - CeilDiv(v - target, left)
    else StepFits(target - v, left); v + (target - v) / left
  }

  function CeilDiv(d: nat, n: nat): int
    requires n > 0
  {
    (d + n - 1) / n
  }

  lemma StepFits(d: nat, n: nat)
    requires n > 0
    ensures d / n <= d && 0 <= CeilDiv(d, n) <= d
  {
    MulMono(1, n, d);
    assert (d + 1) * n == d * n + n;
    QuotientAtMost(d, n, d);
    QuotientAtMost(d + n - 1, n, d);
  }

  // ---------------------------------------------------------------- the timer

  class EgsCountDownTimer {
    var count: U16

    constructor (v: U16)
      ensures count == v
    {
      count := v;
    }

    method Decrement()
      modifies this
      ensures count == if old(count) == 0 then 0 else old(count) - 1
    {
      if count > 0 {
        count := count - 1;
      }
    }

    method Reset()
      modifies this
      ensures Ended()
    {
      count := 0;
    }

    predicate Ended()
      reads this
    {
      count == 0
    }

    function Interp(start: real, end: real): real
      reads this
    {
      InterpValue(count, start, end)
    }

    /**
      The control loop's use of the timer: every cycle moves the value on from where it is and counts
      down. What is left of the way after any number of cycles is the closed form `Remaining`.
     */
    method RampBy(v0: U16, target: U16, cycles: nat) returns (v: U16)
      modifies this
      ensures old(count) > 0 ==> v == Remaining(old(count), v0, target, cycles)
      ensures cycles >= old(count) && cycles > 0 ==> v == target
      ensures count == if cycles >= old(count) then 0 else old(count) - cycles
    {
      ghost var n := count;
      v := v0;
      if n > 0 {
        RemainingAtStart(n, v0, target);
      }
      for k := 0 to cycles
        invariant count == if k >= n then 0 else n - k
        invariant n > 0 ==> v == Remaining(n, v0, target, k)
        invariant k >= n && k > 0 ==> v == target
      {
        if n > 0 {
          RemainingStep(n, v0, target, k);
        }
        var next := Interp(v as real, target as real);
        StepIsFloor(count, v, target);
        v := next.Floor;
        Decrement();
      }
    }
  }

  // ---------------------------------------------------------------- over the reals

  function Line(left: U16, v: real, target: real, cycles: nat): real
    decreases cycles
  {
    if cycles == 0 then v
    else Line(if left == 0 then 0 else left - 1, InterpValue(left, v, target), target, cycles - 1)
  }

  /** After k cycles of n the fraction (n - k) / n of the way f is left. */
  predicate OnTheLine(left: real, way: real, n: int, k: int) {
    left * n as real == way * (n - k) as real
  }

  lemma FirstPoint(left: U16, v: real, target: real)
    requires left > 0
    ensures OnTheLine(target - InterpValue(left, v, target), target - v, left, 1)
  {
    var n := left as real;
    var q := (target - v) / n;
    assert q * n == target - v;
    assert (v - target) / n == -q by {
      NegatedQuotient(target - v, n);
      assert -(target - v) == v - target;
    }
    assert InterpValue(left, v, target) == v + q;
    assert (target - v - q) * n == (target - v) * n - (target - v);
    assert (target - v) * (left - 1) as real == (target - v) * n - (target - v);
  }

  lemma NextPoint(d: real, e: real, f: real, n: int, k: int)
    requires n > 1 && OnTheLine(d, e, n - 1, k - 1) && OnTheLine(e, f, n, 1)
    ensures OnTheLine(d, f, n, k)
  {
    Cancel(d, n as real, (n - 1) as real, e, f, (n - k) as real);
  }

  /** Re-anchored at its own output every cycle, the ramp is the straight line from start to target. */
  lemma {:induction false} RampIsStraight(left: U16, v: real, target: real, cycles: nat)
    requires 0 < left && cycles <= left
    ensures OnTheLine(target - Line(left, v, target, cycles), target - v, left, cycles)
    decreases cycles
  {
    if cycles > 0 {
      var next := InterpValue(left, v, target);
      FirstPoint(left, v, target);
      if left > 1 {
        RampIsStraight(left - 1, next, target, cycles - 1);
        NextPoint(target - Line(left, v, target, cycles), target - next, target - v, left, cycles);
      }
    }
  }

  /** From d * m == e * k and e * n == f * m to d * n == f * k. */
  lemma Cancel(d: real, n: real, m: real, e: real, f: real, k: real)
    requires m != 0.0 && d * m == e * k && e * n == f * m
    ensures d * n == f * k
  {
    assert (d * n) * m == (d * m) * n;
    assert (e * k) * n == (e * n) * k;
    assert (f * m) * k == (f * k) * m;
    assert (d * n - f * k) * m == 0.0;
  }

  // ---------------------------------------------------------------- cut off to whole numbers

  lemma FloorOfQuotient(d: nat, n: nat)
    requires n > 0
    ensures (d as real / n as real).Floor == d / n
  {
    var q := d / n;
    assert q * n <= d < (q + 1) * n;
    var r := d as real / n as real;
    assert r * n as real == d as real;
    RealQuotientBounds(r, n as real, q as real, d as real);
  }

  lemma RealQuotientBounds(r: real, n: real, q: real, d: real)
    requires n > 0.0 && r * n == d && q * n <= d < (q + 1.0) * n
    ensures q <= r < q + 1.0
  {
    assert (r - q) * n == d - q * n;
    NotNegativeFactor(r - q, n);
    assert (q + 1.0 - r) * n == (q + 1.0) * n - d;
    PositiveFactor(q + 1.0 - r, n);
  }

  lemma NotNegativeFactor(a: real, n: real)
    requires n > 0.0 && a * n >= 0.0
    ensures a >= 0.0
  {
  }

  lemma PositiveFactor(a: real, n: real)
    requires n > 0.0 && a * n > 0.0
    ensures a > 0.0
  {
  }

  lemma CeilIsFloor(d: nat, n: nat)
    requires n > 0
    ensures (-(d as real / n as real)).Floor == -CeilDiv(d, n)
  {
    var c := CeilDiv(d, n);
    assert c * n <= d + n - 1 < (c + 1) * n;
    var r := d as real / n as real;
    assert r * n as real == d as real;
    assert (c - 1) * n < d <= c * n;
    RealCeilBounds(r, n as real, c as real, d as real);
  }

  lemma RealCeilBounds(r: real, n: real, c: real, d: real)
    requires n > 0.0 && r * n == d && (c - 1.0) * n < d <= c * n
    ensures c - 1.0 < r <= c
  {
    assert (c - r) * n == c * n - d;
    NotNegativeFactor(c - r, n);
    assert (r - (c - 1.0)) * n == d - (c - 1.0) * n;
    PositiveFactor(r - (c - 1.0), n);
  }

  /** The whole-number step is the real one cut off. */
  lemma StepIsFloor(left: U16, v: U16, target: U16)
    ensures InterpValue(left, v as real, target as real).Floor == Step(left, v, target)
  {
    if left != 0 {
      if v > target {
        CeilIsFloor(v - target, left);
        var r := (v - target) as real / left as real;
        assert (target as real - v as real) / left as real == -r by {
          NegatedQuotient((v - target) as real, left as real);
        }
        FloorShift(v, -r);
      } else {
        FloorOfQuotient(target - v, left);
        var r := (target - v) as real / left as real;
        assert (v as real - target as real) / left as real == -r by {
          NegatedQuotient((target - v) as real, left as real);
        }
        FloorShift(v, r);
      }
    }
  }

  lemma NegatedQuotient(a: real, b: real)
    requires b != 0.0
    ensures (-a) / b == -(a / b)
  {
    var p, q := (-a) / b, a / b;
    assert p * b == -a && q * b == a;
    assert (p + q) * b == 0.0;
  }

  lemma FloorShift(i: int, r: real)
    ensures (i as real + r).Floor == i + r.Floor
  {
  }

  function Max(a: int, b: int): int {
    if a <= b then b else a
  }

  /**
    Way still to go, k cycles into a ramp of n: the larger steps come last when rising and first when
    falling.
   */
  function LeftRising(n: nat, d: nat, k: nat): int
    requires n > 0
  {
    if k >= n then 0 else (d / n) * (n - k) + Min(d % n, n - k)
  }

  function LeftFalling(n: nat, d: nat, k: nat): int
    requires n > 0
  {
    if k >= n then 0 else (d / n) * (n - k) + Max(d % n - k, 0)
  }

  /** The value k cycles into a ramp of n. */
  function Remaining(n: nat, v: U16, target: U16, k: nat): int
    requires n > 0
  {
    if v > target then target + LeftFalling(n, v - target, k) else target - LeftRising(n, target - v, k)
  }

  lemma DivMod(d: nat, n: nat)
    requires n > 0
    ensures d == (d / n) * n + d % n && 0 <= d % n < n
  {
  }

  lemma RemainingAtStart(n: nat, v: U16, target: U16)
    requires n > 0
    ensures Remaining(n, v, target, 0) == v
  {
    DivMod(if v > target then v - target else target - v, n);
  }

  /** q(m-1) and what a step of q or q + 1 leaves of qm. */
  lemma OneLess(q: nat, m: nat)
    requires m > 0
    ensures q * (m - 1) == q * m - q && (q + 1) * m == q * m + m && q * m >= 0
  {
  }

  lemma RisingQuotient(q: nat, m: nat, r: nat)
    requires m > 0
    ensures q * m + Min(r, m) >= 0 && (q * m + Min(r, m)) / m == if r < m then q else q + 1
  {
    OneLess(q, m);
    if r < m {
      QuotientByRest(m, q, r, q * m + r);
    } else {
      QuotientByRest(m, q + 1, 0, q * m + m);
    }
  }

  lemma FallingQuotient(q: nat, m: nat, up: int)
    requires 0 <= up < m
    ensures q * m + up >= 0 && CeilDiv(q * m + up, m) == if up == 0 then q else q + 1
  {
    OneLess(q, m);
    if up == 0 {
      QuotientByRest(m, q, m - 1, q * m + m - 1);
    } else {
      QuotientByRest(m, q + 1, up - 1, q * m + up + m - 1);
    }
  }

  /** One rising step in the closed form. */
  lemma RisingStep(n: nat, d: nat, k: nat)
    requires k < n
    ensures LeftRising(n, d, k) >= 0
    ensures LeftRising(n, d, k + 1) == LeftRising(n, d, k) - LeftRising(n, d, k) / (n - k)
  {
    RisingQuotient(d / n, n - k, d % n);
    OneLess(d / n, n - k);
  }

  /** One falling step in the closed form. */
  lemma FallingStep(n: nat, d: nat, k: nat)
    requires k < n
    ensures LeftFalling(n, d, k) >= 0
    ensures LeftFalling(n, d, k + 1) == LeftFalling(n, d, k) - CeilDiv(LeftFalling(n, d, k), n - k)
  {
    FallingQuotient(d / n, n - k, Max(d % n - k, 0));
    OneLess(d / n, n - k);
  }

  lemma PartOfWhole(q: nat, n: nat, k: nat)
    requires k < n
    ensures 0 <= q * (n - k) <= q * n
  {
    MulMono(n - k, n, q);
  }

  lemma WithinWhole(q: nat, n: nat, k: nat, r: nat, d: nat)
    requires k < n && d == q * n + r
    ensures 0 <= q * (n - k) + Min(r, n - k) <= d
    ensures 0 <= q * (n - k) + Max(r - k, 0) <= d
  {
    PartOfWhole(q, n, k);
  }

  lemma RisingBound(n: nat, d: nat, k: nat)
    requires n > 0
    ensures 0 <= LeftRising(n, d, k) <= d
  {
    DivMod(d, n);
    if k < n {
      WithinWhole(d / n, n, k, d % n, d);
    }
  }

  lemma FallingBound(n: nat, d: nat, k: nat)
    requires n > 0
    ensures 0 <= LeftFalling(n, d, k) <= d
  {
    DivMod(d, n);
    if k < n {
      WithinWhole(d / n, n, k, d % n, d);
    }
  }

  /** The ramp never overshoots: every value lies between start and target. */
  lemma RampNeverOvershoots(n: nat, v: U16, target: U16, k: nat)
    requires n > 0
    ensures Min(v, target) <= Remaining(n, v, target, k) <= Max(v, target)
  {
    if v > target {
      FallingBound(n, v - target, k);
    } else {
      RisingBound(n, target - v, k);
    }
  }

  lemma FallingRemaining(n: U16, v: U16, target: U16, k: nat)
    requires k < n && v > target
    ensures 0 <= Remaining(n, v, target, k) < 0x1_0000
    ensures Step(n - k, Remaining(n, v, target, k), target) == Remaining(n, v, target, k + 1)
  {
    FallingBound(n, v - target, k);
    FallingStep(n, v - target, k);
    if LeftFalling(n, v - target, k) == 0 {
      QuotientIs(n - k - 1, n - k, 0);
      QuotientIs(0, n - k, 0);
    }
  }

  lemma RisingRemaining(n: U16, v: U16, target: U16, k: nat)
    requires k < n && v <= target
    ensures 0 <= Remaining(n, v, target, k) < 0x1_0000
    ensures Step(n - k, Remaining(n, v, target, k), target) == Remaining(n, v, target, k + 1)
  {
    RisingBound(n, target - v, k);
    RisingStep(n, target - v, k);
  }

  /** One step of the timer in the closed form. */
  lemma RemainingStep(n: U16, v: U16, target: U16, k: nat)
    requires n > 0
    ensures 0 <= Remaining(n, v, target, k) < 0x1_0000
    ensures Step(if k >= n then 0 else n - k, Remaining(n, v, target, k), target) == Remaining(n, v, target, k + 1)
  {
    if k < n {
      if v > target {
        FallingRemaining(n, v, target, k);
      } else {
        RisingRemaining(n, v, target, k);
      }
    }
  }
}
