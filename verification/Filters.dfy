/** The integer low-pass filter and the monitored value built on it. */
module Filters {
  import opened Arithmetic
  import opened Bytes

  predicate FitsI32(x: int) {
    -0x8000_0000 <= x <= 0x7FFF_FFFF
  }

  type I32 = x: int | -0x8000_0000 <= x <= 0x7FFF_FFFF

  /** What is left of a result in 32 bits. */
  function Wrap(x: int): I32 {
    (x + 0x8000_0000) % 0x1_0000_0000 - 0x8000_0000
  }

  /** Division that cuts off towards zero. */
  function TruncDiv(a: int, b: int): int
    requires b > 0
  {
    if a >= 0 then a / b else -((-a) / b)
  }

  function AddOne(factor: Byte): int {
    if factor == 255 then 255 else factor + 1
  }

  /** `first_order_filter_i32` over the integers. */
  function Filter(input: int, prev: int, factor: Byte): int {
    TruncDiv(input + factor * prev, AddOne(factor))
  }

  const PRECISION := 100

  /** No intermediate result of a sample leaves the 32 bits. */
  predicate Exact(val: I32, raw: I32, factor: Byte) {
    FitsI32(raw * PRECISION) && FitsI32(factor * val) && FitsI32(raw * PRECISION + factor * val)
  }

  /** `first_order_filter_i32` as the 32-bit code computes it. */
  function FirstOrderFilter(input: I32, prev: I32, factor: Byte): I32 {
    var sum := Wrap(input + Wrap(factor * prev));
    TruncShrinks(sum, AddOne(factor));
    TruncDiv(sum, AddOne(factor))
  }

  /** One sample: the reading is scaled and filtered in. */
  function Sample(val: I32, raw: I32, factor: Byte): I32 {
    FirstOrderFilter(Wrap(raw * PRECISION), val, factor)
  }

  function Abs(x: int): nat {
    if x < 0 then -x else x
  }

  // ---------------------------------------------------------------- the monitored value

  class FilteredMonitoredVal {
    var val: I32
    var lastRawVal: I32
    var eCounter: Byte
    const eMax: Byte

    function State(): Monitor
      reads this
    {
      Monitor(val, eCounter, eMax)
    }

    constructor (eMax: Byte)
      ensures State() == Monitor(0, 0, eMax) && lastRawVal == 0
    {
      val, lastRawVal, eCounter := 0, 0, 0;
      this.eMax := eMax;
    }

    /** The start value is taken over without the scaling every sample gets. */
    constructor WithInitValue(v: I32, eMax: Byte)
      ensures State() == Monitor(v, 0, eMax) && lastRawVal == v
    {
      val, lastRawVal, eCounter := v, v, 0;
      this.eMax := eMax;
    }

    function Value(): (v: Option<int>)
      reads this
      ensures v == State().Value()
    {
      if eMax != 0 && eCounter >= eMax then None else Some(TruncDiv(val, PRECISION))
    }

    method AddValidValue(raw: I32, factor: Byte) returns (filtered: I32)
      modifies this
      ensures State() == After(old(State()), Valid(raw, factor))
      ensures filtered == val && lastRawVal == raw
    {
      val := FirstOrderFilter(Wrap(raw * PRECISION), val, factor);
      lastRawVal := raw;
      filtered := val;
    }

    method MarkInvalid()
      modifies this
      ensures State() == After(old(State()), Invalid) && lastRawVal == old(lastRawVal)
    {
      var counted := if eCounter < 255 then eCounter + 1 else eCounter;
      eCounter := if counted < eMax then counted else eMax;
    }
  }

  datatype Monitor = Monitor(val: I32, eCounter: Byte, eMax: Byte) {
    function Value(): Option<int> {
      if eMax != 0 && eCounter >= eMax then None else Some(TruncDiv(val, PRECISION))
    }
  }

  datatype Reading = Valid(raw: I32, factor: Byte) | Invalid

  function After(m: Monitor, r: Reading): Monitor {
    match r
    case Valid(raw, factor) => m.(val := Sample(m.val, raw, factor))
    case Invalid => m.(eCounter := if m.eCounter < m.eMax then m.eCounter + 1 else m.eMax)
  }

  lemma TruncShrinks(a: int, b: int)
    requires b > 0
    ensures Abs(TruncDiv(a, b)) <= Abs(a)
  {
    MulMono(1, b, Abs(a));
    assert (Abs(a) + 1) * b == Abs(a) * b + b;
    QuotientAtMost(Abs(a), b, Abs(a));
  }

  /** Cut-off division respects whole-number bounds on the exact quotient. */
  lemma TruncBounds(a: int, b: int, lo: int, hi: int)
    requires b > 0 && lo * b <= a <= hi * b
    ensures lo <= TruncDiv(a, b) <= hi
  {
    assert (hi + 1) * b == hi * b + b && (-lo + 1) * b == -(lo * b) + b && (-hi) * b == -(hi * b);
    if a >= 0 {
      QuotientAtMost(a, b, hi);
      QuotientAtLeast(a, b, lo);
    } else {
      QuotientAtMost(-a, b, -lo);
      QuotientAtLeast(-a, b, -hi);
    }
  }

  // ---------------------------------------------------------------- no overflow

  const LARGEST_INPUT := 84215
  const LARGEST_VALUE := 8421500

  predicate Within(x: int, bound: int) {
    -bound <= x <= bound
  }

  lemma Weighted(val: int, factor: Byte)
    requires Within(val, LARGEST_VALUE) && factor <= 254
    ensures Within(factor * val, factor * LARGEST_VALUE)
  {
    MulMono(val, LARGEST_VALUE, factor);
    MulMono(-LARGEST_VALUE, val, factor);
  }

  /** In range one sample is exact, and the value stays in range. */
  lemma SampleStaysInRange(val: I32, raw: I32, factor: Byte)
    requires Within(val, LARGEST_VALUE) && Within(raw, LARGEST_INPUT) && factor <= 254
    ensures Exact(val, raw, factor)
    ensures Sample(val, raw, factor) == Filter(raw * PRECISION, val, factor)
    ensures Within(Sample(val, raw, factor), LARGEST_VALUE)
  {
    Weighted(val, factor);
    WrapFits(raw * PRECISION);
    WrapFits(factor * val);
    WrapFits(raw * PRECISION + factor * val);
    OutputBetween(raw * PRECISION, val, factor);
  }

  lemma WrapFits(x: int)
    requires FitsI32(x)
    ensures Wrap(x) == x
  {
  }

  function RunMonitor(m: Monitor, readings: seq<Reading>): Monitor
    decreases |readings|
  {
    if readings == [] then m else RunMonitor(After(m, readings[0]), readings[1..])
  }

  predicate AllExact(m: Monitor, readings: seq<Reading>)
    decreases |readings|
  {
    readings == []
    || ((readings[0].Valid? ==> Exact(m.val, readings[0].raw, readings[0].factor))
        && AllExact(After(m, readings[0]), readings[1..]))
  }

  predicate Bounded(readings: seq<Reading>, bound: nat) {
    forall i :: 0 <= i < |readings| && readings[i].Valid? ==>
      Within(readings[i].raw, bound) && readings[i].factor <= 254
  }

  lemma {:induction false} BoundedRunsAreExact(m: Monitor, readings: seq<Reading>)
    requires Within(m.val, LARGEST_VALUE) && Bounded(readings, LARGEST_INPUT)
    ensures AllExact(m, readings) && Within(RunMonitor(m, readings).val, LARGEST_VALUE)
    decreases |readings|
  {
    if readings != [] {
      if readings[0].Valid? {
        SampleStaysInRange(m.val, readings[0].raw, readings[0].factor);
      }
      BoundedRunsAreExact(After(m, readings[0]), readings[1..]);
    }
  }

  ghost predicate SafeBound(bound: nat) {
    forall readings, eMax :: Bounded(readings, bound) ==> AllExact(Monitor(0, 0, eMax), readings)
  }

  /** The largest input bound with which no run of any length ever overflows is 84215. */
  lemma SafeBoundIs(bound: nat)
    ensures SafeBound(bound) <==> bound <= LARGEST_INPUT
  {
    if bound <= LARGEST_INPUT {
      forall readings, eMax | Bounded(readings, bound) ensures AllExact(Monitor(0, 0, eMax), readings) {
        BoundedRunsAreExact(Monitor(0, 0, eMax), readings);
      }
    } else {
      FirstSample();
      SecondSample();
      var readings := [Valid(84216, 0), Valid(84216, 254)];
      assert readings[1..] == [Valid(84216, 254)];
      assert Bounded(readings, bound);
    }
  }

  lemma FirstSample()
    ensures After(Monitor(0, 0, 0), Valid(84216, 0)) == Monitor(8421600, 0, 0)
  {
    WrapFits(84216 * PRECISION);
  }

  lemma SecondSample()
    ensures !AllExact(Monitor(8421600, 0, 0), [Valid(84216, 254)])
  {
    assert !FitsI32(84216 * PRECISION + 254 * 8421600);
  }

  // ---------------------------------------------------------------- what the filter does

  lemma WeightedSum(input: int, prev: int, factor: Byte, lo: int, hi: int)
    requires lo <= input <= hi && lo <= prev <= hi
    ensures lo * (factor + 1) <= input + factor * prev <= hi * (factor + 1)
  {
    MulMono(lo, prev, factor);
    MulMono(prev, hi, factor);
    assert lo * (factor + 1) == lo + lo * factor && hi * (factor + 1) == hi + hi * factor;
  }

  /** The output lies between the old value and the input. */
  lemma OutputBetween(input: int, prev: int, factor: Byte)
    requires factor <= 254
    ensures input <= prev ==> input <= Filter(input, prev, factor) <= prev
    ensures prev <= input ==> prev <= Filter(input, prev, factor) <= input
  {
    var lo, hi := if input <= prev then input else prev, if input <= prev then prev else input;
    WeightedSum(input, prev, factor, lo, hi);
    TruncBounds(input + factor * prev, factor + 1, lo, hi);
  }

  /** With the factor the code saturates at, and only there, the output can leave that range. */
  lemma BetweenIff(factor: Byte)
    ensures factor <= 254 <==>
            forall input, prev :: input <= prev ==> input <= Filter(input, prev, factor) <= prev
  {
    if factor <= 254 {
      forall input, prev | input <= prev ensures input <= Filter(input, prev, factor) <= prev {
        OutputBetween(input, prev, factor);
      }
    } else {
      assert Filter(25500, 25500, factor) == 25600;
    }
  }

  function Distance(a: int, b: int): nat {
    Abs(a - b)
  }

  /** Outside a band as wide as the factor every sample comes closer to the input. */
  lemma ComesCloser(input: int, prev: int, factor: Byte)
    requires factor <= 254
    ensures Distance(input, prev) > factor ==> Distance(input, Filter(input, prev, factor)) < Distance(input, prev)
    ensures Distance(input, Filter(input, prev, factor)) <= Distance(input, prev)
  {
    OutputBetween(input, prev, factor);
    if prev - input > factor {
      StepDown(input, prev, factor);
    } else if input - prev > factor {
      StepUp(input, prev, factor);
    }
  }

  lemma TruncRest(a: int, b: int)
    requires b > 0
    ensures Abs(a - TruncDiv(a, b) * b) < b
  {
    if a >= 0 {
      assert a == a / b * b + a % b;
    } else {
      assert -a == -a / b * b + -a % b;
      assert TruncDiv(a, b) * b == -(-a / b * b);
    }
  }

  lemma AbsProduct(f: nat, x: int)
    ensures Abs(f * x) == f * Abs(x)
  {
    if x < 0 {
      assert f * x == -(f * -x);
      MulMono(0, -x, f);
    } else {
      MulMono(0, x, f);
    }
  }

  /**
    How far one sample comes: what is left of the distance is the old one times factor over factor plus one, to
    within one.
   */
  lemma DistanceShrinksByFactor(input: int, prev: int, factor: Byte, next: int)
    requires factor <= 254 && next == Filter(input, prev, factor)
    ensures Abs(Distance(input, next) * (factor + 1) - Distance(input, prev) * factor) < factor + 1
  {
    TruncRest(input + factor * prev, factor + 1);
    Shrinks(input, prev, next, factor, factor + 1);
  }

  lemma Shrinks(input: int, prev: int, next: int, f: nat, n: nat)
    requires n == f + 1 && Abs(input + f * prev - next * n) < n
    ensures Abs(Distance(input, next) * n - Distance(input, prev) * f) < n
  {
    var nx, fx := input * n, input * f;
    assert nx == input + fx;
    LeftOver(input, next, n, nx, next * n);
    LeftOver(input, prev, f, fx, prev * f);
    Apart(nx - next * n, fx - prev * f, input + f * prev - next * n, n);
  }

  /** A distance times `n`, from the products of its two ends. */
  lemma LeftOver(x: int, y: int, n: nat, nx: int, ny: int)
    requires nx == x * n && ny == y * n
    ensures Distance(x, y) * n == Abs(nx - ny)
  {
    assert nx - ny == n * (x - y);
    AbsProduct(n, x - y);
  }

  lemma Apart(a: int, b: int, rest: int, n: nat)
    requires a - b == rest && Abs(rest) < n
    ensures Abs(Abs(a) - Abs(b)) < n
  {
  }

  lemma StepDown(input: int, prev: int, factor: nat)
    requires prev - input > factor
    ensures input <= TruncDiv(input + factor * prev, factor + 1) <= prev - 1
  {
    MulMono(input, prev, factor);
    assert input * (factor + 1) == input + factor * input;
    assert (prev - 1) * (factor + 1) == prev + factor * prev - 1 - factor;
    TruncBounds(input + factor * prev, factor + 1, input, prev - 1);
  }

  lemma StepUp(input: int, prev: int, factor: nat)
    requires input - prev > factor
    ensures prev + 1 <= TruncDiv(input + factor * prev, factor + 1) <= input
  {
    MulMono(prev, input, factor);
    assert input * (factor + 1) == input + factor * input;
    assert (prev + 1) * (factor + 1) == prev + factor * prev + 1 + factor;
    TruncBounds(input + factor * prev, factor + 1, prev + 1, input);
  }

  function Hold(input: int, prev: int, factor: Byte, samples: nat): int
    decreases samples
  {
    if samples == 0 then prev else Hold(input, Filter(input, prev, factor), factor, samples - 1)
  }

  lemma {:induction false} NeverFurther(input: int, prev: int, factor: Byte, samples: nat)
    requires factor <= 254
    ensures Distance(input, Hold(input, prev, factor, samples)) <= Distance(input, prev)
    decreases samples
  {
    if samples > 0 {
      ComesCloser(input, prev, factor);
      NeverFurther(input, Filter(input, prev, factor), factor, samples - 1);
    }
  }

  /** Under a constant input the filter is in the band at the latest after one sample per unit of distance, for good. */
  lemma {:induction false} Settles(input: int, prev: int, factor: Byte, samples: nat)
    requires factor <= 254 && samples >= Distance(input, prev)
    ensures Distance(input, Hold(input, prev, factor, samples)) <= factor
    decreases samples
  {
    if Distance(input, prev) <= factor {
      NeverFurther(input, prev, factor, samples);
    } else {
      ComesCloser(input, prev, factor);
      Settles(input, Filter(input, prev, factor), factor, samples - 1);
    }
  }

  /** Towards zero the cut-off helps: with input zero the filter decays to exactly zero. */
  lemma {:induction false} DecaysToZero(prev: int, factor: Byte, samples: nat)
    requires factor <= 254 && samples >= Abs(prev)
    ensures Hold(0, prev, factor, samples) == 0
    decreases samples
  {
    var next := Filter(0, prev, factor);
    OutputBetween(0, prev, factor);
    if prev == 0 {
      if samples > 0 {
        DecaysToZero(next, factor, samples - 1);
      }
    } else {
      StepTowardsZero(prev, factor);
      DecaysToZero(next, factor, samples - 1);
    }
  }

  lemma StepTowardsZero(prev: int, factor: Byte)
    requires factor <= 254 && prev != 0
    ensures Abs(Filter(0, prev, factor)) < Abs(prev)
  {
    var a := Abs(prev);
    assert factor * a == if prev < 0 then -(factor * prev) else factor * prev;
    assert 0 <= factor * a;
    assert (a - 1) * (factor + 1) == factor * a + a - 1 - factor;
    WeightedLess(a, factor);
  }

  lemma WeightedLess(a: nat, factor: nat)
    requires a > 0
    ensures 0 <= (factor * a) / (factor + 1) < a
  {
    var q := (factor * a) / (factor + 1);
    assert q * (factor + 1) <= factor * a;
    assert a * (factor + 1) == factor * a + a;
    if a <= q {
      MulMono(a, q, factor + 1);
    }
  }

  // ---------------------------------------------------------------- the error counter

  function Invalids(readings: seq<Reading>): nat {
    if readings == [] then 0 else (if readings[0].Invalid? then 1 else 0) + Invalids(readings[1..])
  }

  lemma {:induction false} CounterCounts(m: Monitor, readings: seq<Reading>)
    requires m.eCounter <= m.eMax
    ensures var end := RunMonitor(m, readings); var n := m.eCounter + Invalids(readings);
            end.eMax == m.eMax && end.eCounter == if n < m.eMax then n else m.eMax
    decreases |readings|
  {
    if readings != [] {
      CounterCounts(After(m, readings[0]), readings[1..]);
    }
  }

  /**
    In every run the value is lost exactly when monitoring is on and as many readings as allowed have been
    invalid, in all; valid readings in between never make up for one.
   */
  lemma ValueLostIff(v: I32, eMax: Byte, readings: seq<Reading>)
    ensures RunMonitor(Monitor(v, 0, eMax), readings).Value().None? <==> eMax != 0 && Invalids(readings) >= eMax
  {
    CounterCounts(Monitor(v, 0, eMax), readings);
  }

  // ---------------------------------------------------------------- the value handed out

  /**
    What is handed out after enough equal readings, in the readings' own unit: the reading, to within one more
    than a hundredth of the factor.
   */
  lemma SettledValueIsReading(raw: int, prev: int, factor: Byte, samples: nat, eCounter: Byte, eMax: Byte)
    requires factor <= 254 && samples >= Distance(raw * PRECISION, prev)
    requires FitsI32(Hold(raw * PRECISION, prev, factor, samples)) && (eMax == 0 || eCounter < eMax)
    ensures var m := Monitor(Hold(raw * PRECISION, prev, factor, samples), eCounter, eMax);
            m.Value().Some? && 100 * Distance(raw, m.Value().value) < factor + 100
  {
    var val := Hold(raw * PRECISION, prev, factor, samples);
    Settles(raw * PRECISION, prev, factor, samples);
    TruncRest(val, PRECISION);
  }
}
