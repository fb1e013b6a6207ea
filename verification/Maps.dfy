/** Bilinear lookup in a table over two axes. */
module Maps {
  import opened Arithmetic
  import opened Lookup

  datatype Map2d = Map2d(x: seq<real>, y: seq<real>, z: seq<real>) {
    predicate Valid() {
      x != [] && y != [] && |z| == |x| * |y|
    }

    /** The value at column i of row j. */
    function Cell(i: nat, j: nat): real
      requires Valid() && i < |x| && j < |y|
    {
      CellInTable(|x|, |y|, j, i);
      z[j * |x| + i]
    }
  }

  /** `Map2d::interp`. */
  function Interp(m: Map2d, xVal: real, yVal: real): real
    requires m.Valid()
  {
    var (xMin, xMax) := Found(m.x, xVal);
    var (yMin, yMax) := Found(m.y, yVal);
    var low := InterpLinear(xVal, m.x[xMin], m.x[xMax], m.Cell(xMin, yMin), m.Cell(xMax, yMin));
    var high := InterpLinear(xVal, m.x[xMin], m.x[xMax], m.Cell(xMin, yMax), m.Cell(xMax, yMax));
    InterpLinear(yVal, m.y[yMin], m.y[yMax], low, high)
  }

  function Row(m: Map2d, j: nat): (r: seq<real>)
    requires m.Valid() && j < |m.y|
    ensures |r| == |m.x| && forall i :: 0 <= i < |m.x| ==> r[i] == m.Cell(i, j)
  {
    seq(|m.x|, i requires 0 <= i < |m.x| => m.Cell(i, j))
  }

  /** Every row looked up at the same x. */
  function Column(m: Map2d, xVal: real): (c: seq<real>)
    requires m.Valid()
    ensures |c| == |m.y| && forall j :: 0 <= j < |m.y| ==> c[j] == Interp1d(m.x, Row(m, j), xVal)
  {
    seq(|m.y|, j requires 0 <= j < |m.y| => Interp1d(m.x, Row(m, j), xVal))
  }

  /** A lookup that has found one knot twice interpolates to the value there. */
  lemma InterpOfFound(x: seq<real>, z: seq<real>, v: real)
    requires x != [] && |z| == |x|
    ensures var (a, b) := Found(x, v); InterpLinear(v, x[a], x[b], z[a], z[b]) == Interp1d(x, z, v)
  {
  }

  /** The bilinear lookup is two one-dimensional ones: along x in every row, then along y; on any axes. */
  lemma IsTwoLookups(m: Map2d, xVal: real, yVal: real)
    requires m.Valid()
    ensures Interp(m, xVal, yVal) == Interp1d(m.y, Column(m, xVal), yVal)
  {
    var (yMin, yMax) := Found(m.y, yVal);
    InterpOfFound(m.x, Row(m, yMin), xVal);
    InterpOfFound(m.x, Row(m, yMax), xVal);
    InterpOfFound(m.y, Column(m, xVal), yVal);
  }

  function Upright(m: Map2d, i: nat): (c: seq<real>)
    requires m.Valid() && i < |m.x|
    ensures |c| == |m.y| && forall j :: 0 <= j < |m.y| ==> c[j] == m.Cell(i, j)
  {
    seq(|m.y|, j requires 0 <= j < |m.y| => m.Cell(i, j))
  }

  /** Every column of the table looked up at the same y. */
  function Level(m: Map2d, yVal: real): (r: seq<real>)
    requires m.Valid()
    ensures |r| == |m.x| && forall i :: 0 <= i < |m.x| ==> r[i] == Interp1d(m.y, Upright(m, i), yVal)
  {
    seq(|m.x|, i requires 0 <= i < |m.x| => Interp1d(m.y, Upright(m, i), yVal))
  }

  /** Interpolating along y first and then along x gives the same, on any axes and at any point. */
  lemma OrderDoesNotMatter(m: Map2d, xVal: real, yVal: real)
    requires m.Valid()
    ensures Interp(m, xVal, yVal) == Interp1d(m.x, Level(m, yVal), xVal)
  {
    var (a, b) := Found(m.x, xVal);
    var (c, d) := Found(m.y, yVal);
    InterpOfFound(m.y, Upright(m, a), yVal);
    InterpOfFound(m.y, Upright(m, b), yVal);
    InterpOfFound(m.x, Level(m, yVal), xVal);
    FourCorners(xVal, m.x[a], m.x[b], yVal, m.y[c], m.y[d], m.Cell(a, c), m.Cell(b, c), m.Cell(a, d), m.Cell(b, d));
  }

  lemma FourCorners(
      xVal: real, x1: real, x2: real, yVal: real, y1: real, y2: real, f11: real, f12: real, f21: real, f22: real)
    ensures InterpLinear(yVal, y1, y2, InterpLinear(xVal, x1, x2, f11, f12), InterpLinear(xVal, x1, x2, f21, f22))
         == InterpLinear(xVal, x1, x2, InterpLinear(yVal, y1, y2, f11, f21), InterpLinear(yVal, y1, y2, f12, f22))
  {
    var s, t := Fraction(xVal, x1, x2), Fraction(yVal, y1, y2);
    InterpIsLine(xVal, x1, x2, f11, f12);
    InterpIsLine(xVal, x1, x2, f21, f22);
    InterpIsLine(yVal, y1, y2, f11, f21);
    InterpIsLine(yVal, y1, y2, f12, f22);
    InterpIsLine(yVal, y1, y2, Line(f11, f12, s), Line(f21, f22, s));
    InterpIsLine(xVal, x1, x2, Line(f11, f21, t), Line(f12, f22, t));
    LinesCommute(f11, f12, f21, f22, s, t);
  }

  lemma LinesCommute(f11: real, f12: real, f21: real, f22: real, s: real, t: real)
    ensures Line(Line(f11, f12, s), Line(f21, f22, s), t) == Line(Line(f11, f21, t), Line(f12, f22, t), s)
  {
  }

  function Least(a: real, b: real, c: real, d: real): real {
    Lesser(Lesser(a, b), Lesser(c, d))
  }

  function Greatest(a: real, b: real, c: real, d: real): real {
    Greater(Greater(a, b), Greater(c, d))
  }

  /** On any axes the result lies between the least and the greatest of the four corners. */
  lemma BetweenTheCorners(m: Map2d, xVal: real, yVal: real)
    requires m.Valid()
    ensures var (a, b) := Found(m.x, xVal); var (c, d) := Found(m.y, yVal);
            Least(m.Cell(a, c), m.Cell(b, c), m.Cell(a, d), m.Cell(b, d))
            <= Interp(m, xVal, yVal)
            <= Greatest(m.Cell(a, c), m.Cell(b, c), m.Cell(a, d), m.Cell(b, d))
  {
    var (c, d) := Found(m.y, yVal);
    IsTwoLookups(m, xVal, yVal);
    LookupStaysBetween(m.y, Column(m, xVal), yVal);
    LookupStaysBetween(m.x, Row(m, c), xVal);
    LookupStaysBetween(m.x, Row(m, d), xVal);
  }

  /** At a grid point the lookup gives the table value. */
  lemma ExactOnTheGrid(m: Map2d, i: nat, j: nat)
    requires m.Valid() && Strict(m.x) && Strict(m.y) && i < |m.x| && j < |m.y|
    ensures j * |m.x| + i < |m.z| && Interp(m, m.x[i], m.y[j]) == m.z[j * |m.x| + i]
  {
    CellInTable(|m.x|, |m.y|, j, i);
    IsTwoLookups(m, m.x[i], m.y[j]);
    LookupExactAtKnots(m.y, Column(m, m.x[i]), j);
    LookupExactAtKnots(m.x, Row(m, j), i);
  }

  lemma ColumnOfClamped(m: Map2d, xVal: real)
    requires m.Valid() && Strict(m.x)
    ensures Column(m, xVal) == Column(m, Clamp(m.x, xVal))
  {
    forall j | 0 <= j < |m.y| ensures Column(m, xVal)[j] == Column(m, Clamp(m.x, xVal))[j] {
      LookupOfClamped(m.x, Row(m, j), xVal);
    }
  }

  /** Outside the table the lookup gives what it gives at the nearest point of the edge. */
  lemma ClampedOutside(m: Map2d, xVal: real, yVal: real)
    requires m.Valid() && Strict(m.x) && Strict(m.y)
    ensures Interp(m, xVal, yVal) == Interp(m, Clamp(m.x, xVal), Clamp(m.y, yVal))
  {
    IsTwoLookups(m, xVal, yVal);
    IsTwoLookups(m, Clamp(m.x, xVal), Clamp(m.y, yVal));
    ColumnOfClamped(m, xVal);
    LookupOfClamped(m.y, Column(m, xVal), yVal);
  }

  predicate RisesAlongX(m: Map2d)
    requires m.Valid()
  {
    forall j :: 0 <= j < |m.y| ==> Rising(Row(m, j))
  }

  predicate FallsAlongX(m: Map2d)
    requires m.Valid()
  {
    forall j :: 0 <= j < |m.y| ==> Rising(Mirror(Row(m, j)))
  }

  predicate RisesAlongY(m: Map2d)
    requires m.Valid()
  {
    forall i, j, k :: 0 <= i < |m.x| && 0 <= j <= k < |m.y| ==> m.Cell(i, j) <= m.Cell(i, k)
  }

  predicate FallsAlongY(m: Map2d)
    requires m.Valid()
  {
    forall i, j, k :: 0 <= i < |m.x| && 0 <= j <= k < |m.y| ==> m.Cell(i, j) >= m.Cell(i, k)
  }

  /** A lookup is no higher in a table that is nowhere higher. */
  lemma LookupOfLower(x: seq<real>, z: seq<real>, w: seq<real>, v: real)
    requires x != [] && |z| == |w| == |x| && forall i :: 0 <= i < |z| ==> z[i] <= w[i]
    ensures Interp1d(x, z, v) <= Interp1d(x, w, v)
  {
    var (a, b) := Found(x, v);
    LookupIsLine(x, z, v);
    LookupIsLine(x, w, v);
    FractionInUnit(v, x[a], x[b]);
    LineOfLower(z[a], z[b], w[a], w[b], At(x, v));
  }

  /** Across all cells the lookup rises along x when the table does, at every y. */
  lemma RisesWithX(m: Map2d, xVal: real, xLater: real, yVal: real)
    requires m.Valid() && Strict(m.x) && RisesAlongX(m) && NoLater(m.x, xVal, xLater)
    ensures Interp(m, xVal, yVal) <= Interp(m, xLater, yVal)
  {
    IsTwoLookups(m, xVal, yVal);
    IsTwoLookups(m, xLater, yVal);
    forall j | 0 <= j < |m.y| ensures Column(m, xVal)[j] <= Column(m, xLater)[j] {
      LookupRises(m.x, Row(m, j), xVal, xLater);
    }
    LookupOfLower(m.y, Column(m, xVal), Column(m, xLater), yVal);
  }

  lemma FallsWithX(m: Map2d, xVal: real, xLater: real, yVal: real)
    requires m.Valid() && Strict(m.x) && FallsAlongX(m) && NoLater(m.x, xVal, xLater)
    ensures Interp(m, xVal, yVal) >= Interp(m, xLater, yVal)
  {
    IsTwoLookups(m, xVal, yVal);
    IsTwoLookups(m, xLater, yVal);
    forall j | 0 <= j < |m.y| ensures Column(m, xLater)[j] <= Column(m, xVal)[j] {
      LookupFalls(m.x, Row(m, j), xVal, xLater);
    }
    LookupOfLower(m.y, Column(m, xLater), Column(m, xVal), yVal);
  }

  /** And along y when the table does, at every x. */
  lemma RisesWithY(m: Map2d, xVal: real, yVal: real, yLater: real)
    requires m.Valid() && Strict(m.y) && RisesAlongY(m) && NoLater(m.y, yVal, yLater)
    ensures Interp(m, xVal, yVal) <= Interp(m, xVal, yLater)
  {
    IsTwoLookups(m, xVal, yVal);
    IsTwoLookups(m, xVal, yLater);
    forall j, k | 0 <= j <= k < |m.y| ensures Column(m, xVal)[j] <= Column(m, xVal)[k] {
      LookupOfLower(m.x, Row(m, j), Row(m, k), xVal);
    }
    LookupRises(m.y, Column(m, xVal), yVal, yLater);
  }

  lemma FallsWithY(m: Map2d, xVal: real, yVal: real, yLater: real)
    requires m.Valid() && Strict(m.y) && FallsAlongY(m) && NoLater(m.y, yVal, yLater)
    ensures Interp(m, xVal, yVal) >= Interp(m, xVal, yLater)
  {
    IsTwoLookups(m, xVal, yVal);
    IsTwoLookups(m, xVal, yLater);
    var c := Column(m, xVal);
    forall j, k | 0 <= j <= k < |m.y| ensures c[k] <= c[j] {
      LookupOfLower(m.x, Row(m, k), Row(m, j), xVal);
    }
    LookupFalls(m.y, c, yVal, yLater);
  }

  /**
    Along x the bilinear lookup is monotone, across all cells and both ends and in the same direction, when
    every row of the table is; on ascending and on descending axes.
   */
  lemma MonotoneAlongX(m: Map2d, xVal: real, xLater: real, yVal: real)
    requires m.Valid() && Strict(m.x) && NoLater(m.x, xVal, xLater)
    ensures RisesAlongX(m) ==> Interp(m, xVal, yVal) <= Interp(m, xLater, yVal)
    ensures FallsAlongX(m) ==> Interp(m, xVal, yVal) >= Interp(m, xLater, yVal)
  {
    if RisesAlongX(m) {
      RisesWithX(m, xVal, xLater, yVal);
    }
    if FallsAlongX(m) {
      FallsWithX(m, xVal, xLater, yVal);
    }
  }

  /** Likewise along y when every column of the table is monotone. */
  lemma MonotoneAlongY(m: Map2d, xVal: real, yVal: real, yLater: real)
    requires m.Valid() && Strict(m.y) && NoLater(m.y, yVal, yLater)
    ensures RisesAlongY(m) ==> Interp(m, xVal, yVal) <= Interp(m, xVal, yLater)
    ensures FallsAlongY(m) ==> Interp(m, xVal, yVal) >= Interp(m, xVal, yLater)
  {
    if RisesAlongY(m) {
      RisesWithY(m, xVal, yVal, yLater);
    }
    if FallsAlongY(m) {
      FallsWithY(m, xVal, yVal, yLater);
    }
  }
}
