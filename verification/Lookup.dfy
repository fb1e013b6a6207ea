/** Searching an axis and interpolating a table along it, over the reals. */
module Lookup {
  import opened Bytes

  // ---------------------------------------------------------------- the search

  /** Only the two ends of the axis decide which way it is taken to run. */
  predicate Ascending(axis: seq<real>)
    requires axis != []
  {
    axis[0] < axis[|axis| - 1]
  }

  predicate IsBefore(axis: seq<real>, v: real)
    requires axis != []
  {
    if Ascending(axis) then v < axis[0] else v > axis[0]
  }

  predicate IsAfter(axis: seq<real>, v: real)
    requires axis != []
  {
    if Ascending(axis) then v > axis[|axis| - 1] else v < axis[|axis| - 1]
  }

  predicate InCell(axis: seq<real>, i: nat, v: real)
    requires i + 1 < |axis|
  {
    if Ascending(axis) then axis[i] <= v <= axis[i + 1] else axis[i + 1] <= v <= axis[i]
  }

  /** The first cell from `from` on that holds the value. */
  function FirstCell(axis: seq<real>, v: real, from: nat): (r: Option<nat>)
    requires axis != []
    ensures r.Some? ==> from <= r.value < |axis| - 1 && InCell(axis, r.value, v)
    ensures r.Some? ==> forall i :: from <= i < r.value ==> !InCell(axis, i, v)
    ensures r.None? ==> forall i :: from <= i < |axis| - 1 ==> !InCell(axis, i, v)
    decreases |axis| - from
  {
    if from + 1 >= |axis| then None
    else if InCell(axis, from, v) then Some(from)
    else FirstCell(axis, v, from + 1)
  }

  /** The two ends of a cell, or the one knot the value is on. */
  function Low(axis: seq<real>, i: nat, v: real): nat
    requires i + 1 < |axis|
  {
    if v == axis[i + 1] then i + 1 else i
  }

  function High(axis: seq<real>, i: nat, v: real): nat
    requires i + 1 < |axis|
  {
    if v != axis[i] then i + 1 else i
  }

  function Found(axis: seq<real>, v: real): (r: (nat, nat))
    requires axis != []
    ensures r.0 < |axis| && r.1 < |axis|
  {
    if |axis| == 1 || IsBefore(axis, v) then (0, 0)
    else if IsAfter(axis, v) then (|axis| - 1, |axis| - 1)
    else
      match FirstCell(axis, v, 0)
      case None => (0, |axis| - 1)
      case Some(i) => (Low(axis, i, v), High(axis, i, v))
  }

  /** `search_value`. */
  method SearchValue(value: real, values: seq<real>) returns (minIdx: nat, maxIdx: nat)
    requires values != []
    ensures (minIdx, maxIdx) == Found(values, value)
  {
    var n := |values|;
    if n == 1 {
      return 0, 0;
    }
    var ascending := values[0] < values[n - 1];
    if ascending && value < values[0] {
      return 0, 0;
    } else if ascending && value > values[n - 1] {
      return n - 1, n - 1;
    } else if !ascending && value > values[0] {
      return 0, 0;
    } else if !ascending && value < values[n - 1] {
      return n - 1, n - 1;
    }
    minIdx, maxIdx := 0, n - 1;
    for idx := 0 to n - 1
      invariant minIdx == 0 && maxIdx == n - 1
      invariant FirstCell(values, value, 0) == FirstCell(values, value, idx)
    {
      var min, max := values[idx], values[idx + 1];
      if (ascending && value >= min && value <= max) || (!ascending && value >= max && value <= min) {
        minIdx := if value == max then idx + 1 else idx;
        maxIdx := if value != min then idx + 1 else idx;
        break;
      }
    }
  }

  /** Between its two ends any axis at all has a cell for the value, so the search never falls through. */
  lemma {:induction false} CellAlwaysFound(axis: seq<real>, v: real, from: nat)
    requires from + 1 < |axis| && !IsAfter(axis, v)
    requires if Ascending(axis) then axis[from] <= v else v <= axis[from]
    ensures FirstCell(axis, v, from).Some?
    decreases |axis| - from
  {
    if !InCell(axis, from, v) {
      CellAlwaysFound(axis, v, from + 1);
    }
  }

  /**
    On any axis the two knots found are neighbours or one and the same, with the value between them or past an
    end, and no cell that ends before them holds it.
   */
  lemma FoundIsCellOrEnd(axis: seq<real>, v: real)
    requires axis != []
    ensures var (a, b) := Found(axis, v);
            var (first, last) := (axis[0], axis[|axis| - 1]);
            && (b == a || b == a + 1 || a == b + 1)
            && (|axis| > 1 && first < last && first <= v <= last ==> axis[a] <= v <= axis[b])
            && (|axis| > 1 && first >= last && first >= v >= last ==> axis[a] >= v >= axis[b])
            && (|axis| > 1 && (first <= v <= last || first >= v >= last) ==>
                  forall i :: 0 <= i && i + 1 < a && i + 1 < b ==> !InCell(axis, i, v))
            && ((if first < last then v < first else v > first) ==> a == b == 0)
            && ((if first < last then v > last else v < last) ==> a == b == |axis| - 1)
  {
    if |axis| > 1 && !IsBefore(axis, v) && !IsAfter(axis, v) {
      CellAlwaysFound(axis, v, 0);
    }
  }

  predicate StrictlyAscending(axis: seq<real>) {
    forall i, j :: 0 <= i < j < |axis| ==> axis[i] < axis[j]
  }

  predicate StrictlyDescending(axis: seq<real>) {
    forall i, j :: 0 <= i < j < |axis| ==> axis[i] > axis[j]
  }

  predicate Strict(axis: seq<real>) {
    StrictlyAscending(axis) || StrictlyDescending(axis)
  }

  function Mirror(s: seq<real>): (m: seq<real>)
    ensures |m| == |s| && forall i :: 0 <= i < |s| ==> m[i] == -s[i]
  {
    seq(|s|, i requires 0 <= i < |s| => -s[i])
  }

  /** A descending axis is searched like its mirror image. */
  lemma FoundInMirror(axis: seq<real>, v: real)
    requires StrictlyDescending(axis) && |axis| > 1
    ensures StrictlyAscending(Mirror(axis))
    ensures Found(axis, v) == Found(Mirror(axis), -v)
  {
    FirstCellInMirror(axis, v, 0);
  }

  lemma {:induction false} FirstCellInMirror(axis: seq<real>, v: real, from: nat)
    requires StrictlyDescending(axis) && |axis| > 1
    ensures FirstCell(axis, v, from) == FirstCell(Mirror(axis), -v, from)
    decreases |axis| - from
  {
    assert axis[0] > axis[|axis| - 1];
    if from + 1 < |axis| && !InCell(axis, from, v) {
      FirstCellInMirror(axis, v, from + 1);
    }
  }

  /** Inside the axis there is a cell. */
  lemma {:induction false} CellExists(axis: seq<real>, v: real, from: nat) returns (i: nat)
    requires |axis| > 1 && from < |axis| - 1 && axis[from] <= v <= axis[|axis| - 1]
    ensures from <= i < |axis| - 1 && axis[i] <= v <= axis[i + 1]
    decreases |axis| - from
  {
    if v <= axis[from + 1] {
      i := from;
    } else {
      i := CellExists(axis, v, from + 1);
    }
  }

  /** A value is in two cells only when they are neighbours and it is on the knot between them. */
  lemma KnotsInOrder(axis: seq<real>, k: nat, i: nat, v: real)
    requires StrictlyAscending(axis) && k <= i && i + 1 < |axis|
    requires axis[k] <= v <= axis[k + 1] && axis[i] <= v <= axis[i + 1]
    ensures k == i || (k + 1 == i && v == axis[i])
  {
  }

  /** On an ascending axis the search finds the cell of the value, or the knot it is on. */
  lemma FoundInCell(axis: seq<real>, i: nat, v: real)
    requires StrictlyAscending(axis) && i + 1 < |axis| && axis[i] <= v <= axis[i + 1]
    ensures Found(axis, v) == if v == axis[i] then (i, i) else if v == axis[i + 1] then (i + 1, i + 1) else (i, i + 1)
  {
    var n := |axis|;
    assert axis[0] < axis[n - 1] && axis[0] <= axis[i] && axis[i + 1] <= axis[n - 1];
    var first := FirstCell(axis, v, 0);
    assert InCell(axis, i, v);
    var k := first.value;
    KnotsInOrder(axis, k, i, v);
  }

  /** The value lies strictly between two neighbouring knots, whichever way the axis runs. */
  predicate StrictlyInside(axis: seq<real>, i: nat, v: real)
    requires i + 1 < |axis|
  {
    axis[i] < v < axis[i + 1] || axis[i] > v > axis[i + 1]
  }

  /**
    On every strictly monotone axis the search returns neighbours or one knot twice: neighbours around a
    value strictly inside their cell, the knot a value is on, and the nearest end for a value outside.
   */
  lemma SearchBrackets(axis: seq<real>, v: real)
    requires axis != [] && Strict(axis)
    ensures var (a, b) := Found(axis, v);
            && (b == a || b == a + 1)
            && (b == a + 1 ==> StrictlyInside(axis, a, v))
            && (b == a ==> axis[a] == v || (a == 0 && IsBefore(axis, v)) || (a == |axis| - 1 && IsAfter(axis, v)))
  {
    if |axis| > 1 {
      if StrictlyAscending(axis) {
        AscendingBrackets(axis, v);
      } else {
        DescendingBrackets(axis, v);
      }
    }
  }

  lemma DescendingBrackets(axis: seq<real>, v: real)
    requires |axis| > 1 && StrictlyDescending(axis)
    ensures var (a, b) := Found(axis, v);
            && (b == a || b == a + 1)
            && (b == a + 1 ==> axis[a] > v > axis[b])
            && (b == a ==> axis[a] == v || (a == 0 && v > axis[0]) || (a == |axis| - 1 && v < axis[|axis| - 1]))
  {
    FoundInMirror(axis, v);
    AscendingBrackets(Mirror(axis), -v);
  }

  lemma AscendingBrackets(axis: seq<real>, v: real)
    requires |axis| > 1 && StrictlyAscending(axis)
    ensures var (a, b) := Found(axis, v);
            && (b == a || b == a + 1)
            && (b == a + 1 ==> axis[a] < v < axis[b])
            && (b == a ==> axis[a] == v || (a == 0 && v < axis[0]) || (a == |axis| - 1 && v > axis[|axis| - 1]))
  {
    if axis[0] <= v <= axis[|axis| - 1] {
      var i := CellExists(axis, v, 0);
      FoundInCell(axis, i, v);
    }
  }

  lemma AscendingKnot(axis: seq<real>, k: nat)
    requires k < |axis| && |axis| > 1 && StrictlyAscending(axis)
    ensures Found(axis, axis[k]) == (k, k)
  {
    FoundInCell(axis, if k + 1 < |axis| then k else k - 1, axis[k]);
  }

  lemma DescendingKnot(axis: seq<real>, k: nat)
    requires k < |axis| && |axis| > 1 && StrictlyDescending(axis)
    ensures Found(axis, axis[k]) == (k, k)
  {
    FoundInMirror(axis, axis[k]);
    AscendingKnot(Mirror(axis), k);
  }

  /** On a strictly monotone axis a knot finds itself. */
  lemma KnotFindsItself(axis: seq<real>, k: nat)
    requires k < |axis| && Strict(axis)
    ensures Found(axis, axis[k]) == (k, k)
  {
    if |axis| > 1 {
      if StrictlyAscending(axis) {
        AscendingKnot(axis, k);
      } else {
        DescendingKnot(axis, k);
      }
    }
  }

  // ---------------------------------------------------------------- one interpolation

  /** `interp_linear`. */
  function InterpLinear(v: real, x1: real, x2: real, y1: real, y2: real): real {
    if x1 > x2 then Between(v, x2, x1, y2, y1)
    else if x1 < x2 then Between(v, x1, x2, y1, y2)
    else y1
  }

  function Between(v: real, xMin: real, xMax: real, yMin: real, yMax: real): real
    requires xMin < xMax
  {
    if v < xMin then yMin
    else if v > xMax then yMax
    else yMin + ((yMax - yMin) / (xMax - xMin)) * (v - xMin)
  }

  /** How far along from x1 to x2 a value is, from 0 to 1. */
  function Fraction(v: real, x1: real, x2: real): real {
    if x1 == x2 then 0.0
    else if x1 < x2 then AscendingFraction(v, x1, x2)
    else AscendingFraction(-v, -x1, -x2)
  }

  function AscendingFraction(v: real, x1: real, x2: real): real
    requires x1 < x2
  {
    if v < x1 then 0.0 else if v > x2 then 1.0 else (v - x1) / (x2 - x1)
  }

  function Line(y1: real, y2: real, t: real): real {
    y1 + (y2 - y1) * t
  }

  lemma QuotientTimes(a: real, b: real, c: real)
    requires b != 0.0
    ensures (a / b) * c == a * (c / b)
  {
    var q, r := a / b, c / b;
    assert q * b == a && r * b == c;
    assert q * (r * b) == (q * b) * r;
  }

  lemma QuotientIs(a: real, b: real, q: real)
    requires b != 0.0 && q * b == a
    ensures a / b == q
  {
    var r := a / b;
    assert (r - q) * b == 0.0;
  }

  lemma QuotientNotNegative(a: real, b: real)
    requires a >= 0.0 && b > 0.0
    ensures a / b >= 0.0
  {
  }

  lemma ComplementQuotient(a: real, b: real)
    requires b != 0.0
    ensures (b - a) / b == 1.0 - a / b
  {
    var q := a / b;
    assert (1.0 - q) * b == b - a;
    QuotientIs(b - a, b, 1.0 - q);
  }

  lemma QuotientInUnit(a: real, b: real)
    requires 0.0 <= a <= b && b > 0.0
    ensures 0.0 <= a / b <= 1.0
  {
    QuotientNotNegative(a, b);
    QuotientNotNegative(b - a, b);
    ComplementQuotient(a, b);
  }

  lemma FractionInUnit(v: real, x1: real, x2: real)
    ensures 0.0 <= Fraction(v, x1, x2) <= 1.0
  {
    if x1 < x2 {
      AscendingFractionInUnit(v, x1, x2);
    } else if x2 < x1 {
      AscendingFractionInUnit(-v, -x1, -x2);
    }
  }

  lemma AscendingFractionInUnit(v: real, x1: real, x2: real)
    requires x1 < x2
    ensures 0.0 <= AscendingFraction(v, x1, x2) <= 1.0
  {
    if x1 <= v <= x2 {
      QuotientInUnit(v - x1, x2 - x1);
    }
  }

  lemma BetweenIsLine(v: real, xMin: real, xMax: real, yMin: real, yMax: real)
    requires xMin < xMax
    ensures Between(v, xMin, xMax, yMin, yMax) == Line(yMin, yMax, AscendingFraction(v, xMin, xMax))
  {
    QuotientTimes(yMax - yMin, xMax - xMin, v - xMin);
  }

  /** Seen from the other end the fraction is the complement. */
  lemma FractionFromOtherEnd(v: real, x1: real, x2: real)
    requires x2 < x1
    ensures AscendingFraction(-v, -x1, -x2) == 1.0 - AscendingFraction(v, x2, x1)
  {
    if x2 <= v <= x1 {
      ComplementQuotient(v - x2, x1 - x2);
      assert (x1 - x2) - (v - x2) == -v - -x1;
    }
  }

  /** For all inputs one interpolation is a point on a line, at a fraction the y values have no part in. */
  lemma InterpIsLine(v: real, x1: real, x2: real, y1: real, y2: real)
    ensures InterpLinear(v, x1, x2, y1, y2) == Line(y1, y2, Fraction(v, x1, x2))
  {
    if x1 < x2 {
      BetweenIsLine(v, x1, x2, y1, y2);
    } else if x2 < x1 {
      BetweenIsLine(v, x2, x1, y2, y1);
      FractionFromOtherEnd(v, x1, x2);
      LineReversed(y1, y2, Fraction(v, x1, x2));
    }
  }

  lemma LineReversed(y1: real, y2: real, t: real)
    ensures Line(y1, y2, t) == Line(y2, y1, 1.0 - t)
  {
    assert (y2 - y1) * t == (y2 - y1) - (y2 - y1) * (1.0 - t);
    assert (y1 - y2) * (1.0 - t) == -((y2 - y1) * (1.0 - t));
  }

  function Lesser(a: real, b: real): real {
    if a <= b then a else b
  }

  function Greater(a: real, b: real): real {
    if a <= b then b else a
  }

  lemma LineStaysBetween(y1: real, y2: real, t: real)
    requires 0.0 <= t <= 1.0
    ensures Lesser(y1, y2) <= Line(y1, y2, t) <= Greater(y1, y2)
  {
    if y1 <= y2 {
      RisingLine(y1, y2, t);
    } else {
      LineReversed(y1, y2, t);
      RisingLine(y2, y1, 1.0 - t);
    }
  }

  lemma RisingLine(y1: real, y2: real, t: real)
    requires y1 <= y2 && 0.0 <= t <= 1.0
    ensures y1 <= Line(y1, y2, t) <= y2
  {
    var d := y2 - y1;
    ScaledByUnit(d, t);
    assert Line(y1, y2, t) == y1 + d * t;
  }

  lemma ScaledByUnit(d: real, t: real)
    requires d >= 0.0 && 0.0 <= t <= 1.0
    ensures 0.0 <= d * t <= d
  {
    assert d * (1.0 - t) >= 0.0;
    assert d * (1.0 - t) == d - d * t;
  }

  lemma LineRises(y1: real, y2: real, t: real, u: real)
    requires y1 <= y2 && t <= u
    ensures Line(y1, y2, t) <= Line(y1, y2, u)
  {
    assert (y2 - y1) * (u - t) >= 0.0;
    assert (y2 - y1) * (u - t) == (y2 - y1) * u - (y2 - y1) * t;
  }

  /** A line between two lines is no higher when both its ends are no higher. */
  lemma LineOfLower(a: real, b: real, c: real, d: real, t: real)
    requires a <= c && b <= d && 0.0 <= t <= 1.0
    ensures Line(a, b, t) <= Line(c, d, t)
  {
    assert Line(c, d, t) - Line(a, b, t) == Line(c - a, d - b, t) by {
      assert (d - c) * t - (b - a) * t == ((d - b) - (c - a)) * t;
    }
    LineStaysBetween(c - a, d - b, t);
  }

  // ---------------------------------------------------------------- tables

  /** `Map1d::interp_1d`. */
  function Interp1d(x: seq<real>, z: seq<real>, v: real): real
    requires x != [] && |z| == |x|
  {
    var (a, b) := Found(x, v);
    if a != b then InterpLinear(v, x[a], x[b], z[a], z[b]) else z[a]
  }

  /** `TupleMap::interp_1d`: axis and values are pulled apart first. */
  function TupleInterp1d(data: seq<(real, real)>, v: real): real
    requires data != []
  {
    Interp1d(
      seq(|data|, i requires 0 <= i < |data| => data[i].0),
      seq(|data|, i requires 0 <= i < |data| => data[i].1), v)
  }

  /** Axis and values side by side, as a tuple map holds them. */
  function Zip(x: seq<real>, z: seq<real>): (data: seq<(real, real)>)
    requires |z| == |x|
    ensures |data| == |x| && forall i :: 0 <= i < |x| ==> data[i] == (x[i], z[i])
  {
    seq(|x|, i requires 0 <= i < |x| => (x[i], z[i]))
  }

  /** A tuple map looks up what a map over the same axis and values does, so all of the below holds of it. */
  lemma TupleMapIsMap(x: seq<real>, z: seq<real>, v: real)
    requires x != [] && |z| == |x|
    ensures TupleInterp1d(Zip(x, z), v) == Interp1d(x, z, v)
  {
    var data := Zip(x, z);
    assert seq(|data|, i requires 0 <= i < |data| => data[i].0) == x;
    assert seq(|data|, i requires 0 <= i < |data| => data[i].1) == z;
  }

  function At(x: seq<real>, v: real): real
    requires x != []
  {
    Fraction(v, x[Found(x, v).0], x[Found(x, v).1])
  }

  /** The lookup as a line between the two selected values, on any axis. */
  lemma LookupIsLine(x: seq<real>, z: seq<real>, v: real)
    requires x != [] && |z| == |x|
    ensures Interp1d(x, z, v) == Line(z[Found(x, v).0], z[Found(x, v).1], At(x, v))
  {
    var (a, b) := Found(x, v);
    if a != b {
      InterpIsLine(v, x[a], x[b], z[a], z[b]);
    }
  }

  /** On any axis at all the result lies between the two selected values. */
  lemma LookupStaysBetween(x: seq<real>, z: seq<real>, v: real)
    requires x != [] && |z| == |x|
    ensures var (a, b) := Found(x, v);
            Lesser(z[a], z[b]) <= Interp1d(x, z, v) <= Greater(z[a], z[b])
  {
    var (a, b) := Found(x, v);
    LookupIsLine(x, z, v);
    FractionInUnit(v, x[a], x[b]);
    LineStaysBetween(z[a], z[b], At(x, v));
  }

  lemma LookupExactAtKnots(x: seq<real>, z: seq<real>, k: nat)
    requires k < |x| && |z| == |x| && Strict(x)
    ensures Interp1d(x, z, x[k]) == z[k]
  {
    KnotFindsItself(x, k);
  }

  lemma LookupInMirror(x: seq<real>, z: seq<real>, v: real, m: seq<real>, u: real)
    requires |x| > 1 && |z| == |x| && StrictlyDescending(x) && m == Mirror(x) && u == -v
    ensures Interp1d(x, z, v) == Interp1d(m, z, u)
  {
    FoundInMirror(x, v);
    var (a, b) := Found(x, v);
    InterpInMirror(v, x[a], x[b], z[a], z[b]);
  }

  lemma InterpInMirror(v: real, x1: real, x2: real, y1: real, y2: real)
    ensures InterpLinear(v, x1, x2, y1, y2) == InterpLinear(-v, -x1, -x2, y1, y2)
  {
    InterpIsLine(v, x1, x2, y1, y2);
    InterpIsLine(-v, -x1, -x2, y1, y2);
    FractionInMirror(v, x1, x2);
  }

  lemma FractionInMirror(v: real, x1: real, x2: real)
    ensures Fraction(v, x1, x2) == Fraction(-v, -x1, -x2)
  {
    assert -(-v) == v && -(-x1) == x1 && -(-x2) == x2;
  }

  lemma FractionAtEnds(x1: real, x2: real)
    requires x1 < x2
    ensures Fraction(x1, x1, x2) == 0.0 && Fraction(x2, x1, x2) == 1.0
  {
    QuotientIs(0.0, x2 - x1, 0.0);
    QuotientIs(x2 - x1, x2 - x1, 1.0);
  }

  lemma AscendingLookupIsChord(x: seq<real>, z: seq<real>, i: nat, v: real)
    requires i + 1 < |x| && |z| == |x| && StrictlyAscending(x) && x[i] <= v <= x[i + 1]
    ensures Interp1d(x, z, v) == Line(z[i], z[i + 1], Fraction(v, x[i], x[i + 1]))
  {
    FoundInCell(x, i, v);
    LookupIsLine(x, z, v);
    FractionAtEnds(x[i], x[i + 1]);
  }

  lemma DescendingLookupIsChord(x: seq<real>, z: seq<real>, i: nat, v: real, m: seq<real>, u: real)
    requires i + 1 < |x| && |z| == |x| && StrictlyDescending(x) && x[i] >= v >= x[i + 1]
    requires m == Mirror(x) && u == -v
    ensures Interp1d(x, z, v) == Line(z[i], z[i + 1], Fraction(v, x[i], x[i + 1]))
  {
    LookupInMirror(x, z, v, m, u);
    MirrorAscends(x, m);
    assert m[i] == -x[i] && m[i + 1] == -x[i + 1];
    AscendingLookupIsChord(m, z, i, u);
    SameFraction(v, x[i], x[i + 1], u, m[i], m[i + 1]);
  }

  lemma SameFraction(v: real, x1: real, x2: real, u: real, m1: real, m2: real)
    requires u == -v && m1 == -x1 && m2 == -x2
    ensures Fraction(v, x1, x2) == Fraction(u, m1, m2)
  {
    FractionInMirror(v, x1, x2);
  }

  lemma MirrorAscends(x: seq<real>, m: seq<real>)
    requires StrictlyDescending(x) && m == Mirror(x)
    ensures StrictlyAscending(m) && |m| == |x|
  {
  }

  /** The whole graph on a monotone axis of either kind: in every cell, both ends included, its chord. */
  lemma LookupIsChord(x: seq<real>, z: seq<real>, i: nat, v: real)
    requires i + 1 < |x| && |z| == |x| && Strict(x)
    requires x[i] <= v <= x[i + 1] || x[i] >= v >= x[i + 1]
    ensures Interp1d(x, z, v) == Line(z[i], z[i + 1], Fraction(v, x[i], x[i + 1]))
  {
    if StrictlyAscending(x) {
      AscendingLookupIsChord(x, z, i, v);
    } else {
      DescendingLookupIsChord(x, z, i, v, Mirror(x), -v);
    }
  }

  predicate Rising(z: seq<real>) {
    forall i, j :: 0 <= i <= j < |z| ==> z[i] <= z[j]
  }

  /** v is no later on the axis than w. */
  predicate NoLater(x: seq<real>, v: real, w: real) {
    if StrictlyAscending(x) then v <= w else v >= w
  }

  lemma FractionRises(v: real, w: real, x1: real, x2: real)
    requires x1 < x2 && x1 <= v <= w <= x2
    ensures Fraction(v, x1, x2) <= Fraction(w, x1, x2)
  {
    QuotientTimes(1.0, x2 - x1, v - x1);
    QuotientTimes(1.0, x2 - x1, w - x1);
    QuotientInUnit(w - v, x2 - x1);
    assert (w - x1) / (x2 - x1) - (v - x1) / (x2 - x1) == (w - v) / (x2 - x1);
  }

  lemma LaterCell(x: seq<real>, i: nat, j: nat, w: real)
    requires StrictlyAscending(x) && i + 1 < |x| && j + 1 < |x| && x[i + 1] < w <= x[j + 1]
    ensures i < j
  {
  }

  lemma RisesInAxis(x: seq<real>, z: seq<real>, v: real, w: real)
    requires |x| > 1 && |z| == |x| && StrictlyAscending(x) && Rising(z)
    requires x[0] <= v <= w <= x[|x| - 1]
    ensures Interp1d(x, z, v) <= Interp1d(x, z, w)
  {
    var i := CellExists(x, v, 0);
    var j := CellExists(x, w, 0);
    if v <= w <= x[i + 1] {
      AscendingLookupIsChord(x, z, i, v);
      AscendingLookupIsChord(x, z, i, w);
      FractionRises(v, w, x[i], x[i + 1]);
      LineRises(z[i], z[i + 1], Fraction(v, x[i], x[i + 1]), Fraction(w, x[i], x[i + 1]));
    } else {
      LaterCell(x, i, j, w);
      ChordBounds(x, z, i, v);
      ChordBounds(x, z, j, w);
    }
  }

  lemma ChordBounds(x: seq<real>, z: seq<real>, i: nat, v: real)
    requires i + 1 < |x| && |z| == |x| && StrictlyAscending(x) && Rising(z) && x[i] <= v <= x[i + 1]
    ensures z[i] <= Interp1d(x, z, v) <= z[i + 1]
  {
    AscendingLookupIsChord(x, z, i, v);
    FractionInUnit(v, x[i], x[i + 1]);
    LineStaysBetween(z[i], z[i + 1], Fraction(v, x[i], x[i + 1]));
  }

  /** The nearest value on the axis. */
  function Clamp(x: seq<real>, v: real): real
    requires x != []
  {
    if IsBefore(x, v) then x[0] else if IsAfter(x, v) then x[|x| - 1] else v
  }

  /** Outside the axis the lookup gives what it gives at the nearest end. */
  lemma LookupOfClamped(x: seq<real>, z: seq<real>, v: real)
    requires x != [] && |z| == |x| && Strict(x)
    ensures Interp1d(x, z, v) == Interp1d(x, z, Clamp(x, v))
  {
    LookupExactAtKnots(x, z, 0);
    LookupExactAtKnots(x, z, |x| - 1);
  }

  lemma AscendingLookupRises(x: seq<real>, z: seq<real>, v: real, w: real)
    requires |x| > 1 && |z| == |x| && StrictlyAscending(x) && Rising(z) && v <= w
    ensures Interp1d(x, z, v) <= Interp1d(x, z, w)
  {
    LookupOfClamped(x, z, v);
    LookupOfClamped(x, z, w);
    assert x[0] < x[|x| - 1];
    RisesInAxis(x, z, Clamp(x, v), Clamp(x, w));
  }

  lemma DescendingLookupRises(x: seq<real>, z: seq<real>, v: real, w: real)
    requires |x| > 1 && |z| == |x| && StrictlyDescending(x) && Rising(z) && v >= w
    ensures Interp1d(x, z, v) <= Interp1d(x, z, w)
  {
    FoundInMirror(x, v);
    var m, a, b := Mirror(x), -v, -w;
    AscendingLookupRises(m, z, a, b);
    LookupInMirror(x, z, v, m, a);
    LookupInMirror(x, z, w, m, b);
  }

  /** A table that rises along its axis gives a lookup that does, across all cells and both ends. */
  lemma LookupRises(x: seq<real>, z: seq<real>, v: real, w: real)
    requires x != [] && |z| == |x| && Strict(x) && Rising(z) && NoLater(x, v, w)
    ensures Interp1d(x, z, v) <= Interp1d(x, z, w)
  {
    if |x| > 1 {
      if StrictlyAscending(x) {
        AscendingLookupRises(x, z, v, w);
      } else {
        DescendingLookupRises(x, z, v, w);
      }
    }
  }

  /** And one that falls along its axis gives a lookup that falls. */
  lemma LookupFalls(x: seq<real>, z: seq<real>, v: real, w: real)
    requires x != [] && |z| == |x| && Strict(x) && Rising(Mirror(z)) && NoLater(x, v, w)
    ensures Interp1d(x, z, v) >= Interp1d(x, z, w)
  {
    LookupOfMirrored(x, z, v);
    LookupOfMirrored(x, z, w);
    LookupRises(x, Mirror(z), v, w);
  }

  lemma LookupOfMirrored(x: seq<real>, z: seq<real>, v: real)
    requires x != [] && |z| == |x|
    ensures Interp1d(x, Mirror(z), v) == -Interp1d(x, z, v)
  {
    LookupIsLine(x, z, v);
    LookupIsLine(x, Mirror(z), v);
    var (a, b) := Found(x, v);
    assert (-z[b] - -z[a]) * At(x, v) == -((z[b] - z[a]) * At(x, v));
  }
}
