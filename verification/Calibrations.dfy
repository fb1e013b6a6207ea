/** Calibration blocks, their plausibility checks, and the indexed 2-D table behind the friction map. */
module Calibrations {
  import opened Arithmetic
  import opened Bytes

  datatype Gear = N | G1 | G2 | G3 | G4 | G5 | R1 | R2 {
    function Index(): nat {
      match this
      case N => 0 case G1 => 1 case G2 => 2 case G3 => 3
      case G4 => 4 case G5 => 5 case R1 => 6 case R2 => 7
    }
  }

  datatype Clutch = K1 | K2 | K3 | B1 | B2 | B3 {
    function Index(): nat {
      match this
      case K1 => 0 case K2 => 1 case K3 => 2 case B1 => 3 case B2 => 4 case B3 => 5
    }
  }

  /**
    `get_at`: the cells are viewed as `ys` rows of `xs` cells, and then the x index selects the row.
    An index outside its array is a panic, `None` here.
   */
  function GetAt<Z>(z: seq<Z>, xs: nat, ys: nat, x: nat, y: nat): Option<Z>
    requires |z| == xs * ys
  {
    if x < ys && y < xs then
      CellInTable(xs, ys, x, y);
      Some(z[x * xs + y])
    else None
  }

  /** Where the interpolating lookup keeps the cell for (x, y). */
  function CellOf(xs: nat, x: nat, y: nat): nat {
    y * xs + x
  }

  /** Every in-range access succeeds exactly in a square table. */
  lemma NeverPanicsIffSquare<Z>(z: seq<Z>, xs: nat, ys: nat)
    requires |z| == xs * ys && xs > 0 && ys > 0
    ensures (forall x: nat, y: nat :: x < xs && y < ys ==> GetAt(z, xs, ys, x, y).Some?) <==> xs == ys
  {
    if xs < ys {
      assert GetAt(z, xs, ys, 0, xs).None?;
    } else if ys < xs {
      assert GetAt(z, xs, ys, ys, 0).None?;
    }
  }

  /** In a table at least two cells wide the access reads the cell meant only on the diagonal. */
  lemma GetAtIsTransposed<Z>(z: seq<Z>, xs: nat, ys: nat, x: nat, y: nat)
    requires |z| == xs * ys && xs > 1 && GetAt(z, xs, ys, x, y).Some?
    ensures x * xs + y < |z| && GetAt(z, xs, ys, x, y) == Some(z[x * xs + y])
    ensures CellOf(xs, x, y) == x * xs + y <==> x == y
  {
    CellInTable(xs, ys, x, y);
    if x != y {
      var d := x - y;
      assert x * xs + y - CellOf(xs, x, y) == d * (xs - 1) by {
        assert x * xs - y * xs == d * xs;
      }
      NonZeroProduct(d, xs - 1);
    }
  }

  lemma NonZeroProduct(a: int, b: int)
    requires a != 0 && b != 0
    ensures a * b != 0
  {
  }

  datatype HydrCal = HydrCal(
    pMulti1: U16, pMultiOther: U16, lpRegSpringPressure: U16, shiftRegSpringPressure: U16,
    minMpcPressure: U16, filterFactor: Byte, extraPNotShifting: U16,
    pcsMapX: seq<U16>, pcsMapY: seq<U16>, pcsMapZ: seq<U16>)
  {
    predicate Shaped() {
      |pcsMapX| == 7 && |pcsMapY| == 4 && |pcsMapZ| == 28
    }

    predicate IsValid() {
      && pMulti1 != 0 && pMultiOther != 0 && lpRegSpringPressure != 0 && shiftRegSpringPressure != 0
      && minMpcPressure != 0
      && (forall i :: 0 <= i < |pcsMapX| ==> pcsMapX[i] <= 10000)
      && (forall i :: 0 <= i < |pcsMapY| ==> pcsMapY[i] <= 200)
      && (forall i :: 0 <= i < |pcsMapZ| ==> pcsMapZ[i] <= 3000)
    }

    function MaxPcsPressure(): U16
      requires Shaped()
    {
      pcsMapX[6]
    }
  }

  datatype MechCal = MechCal(
    gbTy: Byte, ratioTable: seq<U16>, frictionMap: seq<U16>, releaseSpring: seq<U16>, strongestLoaded: seq<Byte>)
  {
    predicate Shaped() {
      |ratioTable| == 8 && |frictionMap| == 48 && |releaseSpring| == 6 && |strongestLoaded| == 8
    }

    /** Friction value of a clutch in a gear: 6 clutches wide, 8 gears high. */
    function Friction(c: Clutch, g: Gear): Option<U16>
      requires Shaped()
    {
      GetAt(frictionMap, 6, 8, c.Index(), g.Index())
    }
  }

  /** The three clutches that carry torque in each driving gear, first to reverse. */
  const CLUTCH_COMBO: seq<(Gear, seq<Clutch>)> := [
    (G1, [K3, B1, B2]), (G2, [K1, K3, B2]), (G3, [K2, K2, B2]), (G4, [K1, K2, K3]),
    (G5, [K2, K3, B1]), (R1, [K3, B1, B3]), (R2, [K1, K3, B3])]

  /** Are the friction values of one gear all there, up to the first that is zero? */
  function CheckGear(m: MechCal, g: Gear, clutches: seq<Clutch>): Option<bool>
    requires m.Shaped()
  {
    if clutches == [] then Some(true)
    else
      var f := m.Friction(clutches[0], g);
      if f.None? then None
      else if f.value == 0 then Some(false)
      else CheckGear(m, g, clutches[1..])
  }

  /** `check_coef_map`: every gear is looked at, whatever was found before. */
  function CheckCoefMap(m: MechCal, gears: seq<(Gear, seq<Clutch>)>): Option<bool>
    requires m.Shaped()
  {
    if gears == [] then Some(true)
    else
      var first := CheckGear(m, gears[0].0, gears[0].1);
      var rest := CheckCoefMap(m, gears[1..]);
      if first.None? || rest.None? then None else Some(first.value && rest.value)
  }

  /** The tests of `is_valid` that come before the friction map. */
  predicate Plausible(m: MechCal)
    requires m.Shaped()
  {
    && m.gbTy < 2
    && (forall i :: 1 <= i < 8 ==> m.ratioTable[i] != 0)
    && (forall i :: 1 <= i < 8 ==> m.strongestLoaded[i] <= 6)
  }

  /** `MechCal::is_valid`; `None` is a panic. */
  function MechIsValid(m: MechCal): Option<bool>
    requires m.Shaped()
  {
    if !Plausible(m) then Some(false) else CheckCoefMap(m, CLUTCH_COMBO)
  }

  /** A friction lookup panics exactly in the two reverse gears. */
  lemma FrictionPanicsInReverse(m: MechCal, c: Clutch, g: Gear)
    requires m.Shaped()
    ensures m.Friction(c, g).None? <==> g == R1 || g == R2
  {
  }

  /** The cell of the friction table that is read for a clutch in a gear. */
  function FrictionAt(m: MechCal, c: Clutch, g: Gear): U16
    requires m.Shaped()
  {
    m.frictionMap[6 * c.Index() + g.Index()]
  }

  predicate Forward(g: Gear) {
    g != R1 && g != R2
  }

  lemma {:induction false} CheckGearIff(m: MechCal, g: Gear, clutches: seq<Clutch>)
    requires m.Shaped() && Forward(g)
    ensures CheckGear(m, g, clutches) == Some(forall c :: c in clutches ==> FrictionAt(m, c, g) != 0)
    decreases |clutches|
  {
    if clutches != [] {
      assert m.Friction(clutches[0], g) == Some(FrictionAt(m, clutches[0], g));
      CheckGearIff(m, g, clutches[1..]);
      assert forall c :: c in clutches <==> c == clutches[0] || c in clutches[1..];
    }
  }

  /** Without the reverse gears the check would do what it is for: no listed friction value may be zero. */
  lemma {:induction false} ForwardCheckIff(m: MechCal, gears: seq<(Gear, seq<Clutch>)>)
    requires m.Shaped() && forall p :: p in gears ==> Forward(p.0)
    ensures CheckCoefMap(m, gears)
            == Some(forall p, c :: p in gears && c in p.1 ==> FrictionAt(m, c, p.0) != 0)
    decreases |gears|
  {
    if gears != [] {
      CheckGearIff(m, gears[0].0, gears[0].1);
      ForwardCheckIff(m, gears[1..]);
      assert forall p :: p in gears <==> p == gears[0] || p in gears[1..];
    }
  }

  lemma {:induction false} AnyPanicWins(m: MechCal, gears: seq<(Gear, seq<Clutch>)>, i: nat)
    requires m.Shaped() && i < |gears| && CheckGear(m, gears[i].0, gears[i].1).None?
    ensures CheckCoefMap(m, gears).None?
    decreases |gears|
  {
    if i > 0 {
      assert gears[1..][i - 1] == gears[i];
      AnyPanicWins(m, gears[1..], i - 1);
    }
  }

  /**
    The check of a mechanical calibration never succeeds: it reports an implausible block as invalid and
    panics on every plausible one, at the friction value of the first reverse gear.
   */
  lemma MechCheckNeverSucceeds(m: MechCal)
    requires m.Shaped()
    ensures MechIsValid(m) == if Plausible(m) then None else Some(false)
  {
    assert CLUTCH_COMBO[5] == (R1, [K3, B1, B3]);
    FrictionPanicsInReverse(m, K3, R1);
    AnyPanicWins(m, CLUTCH_COMBO, 5);
  }
}
