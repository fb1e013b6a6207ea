/** Working pressure in a gear: the pressure the loaded clutch needs, and the filter on its way down. */
module Pressure {
  import opened Arithmetic
  import opened Bytes
  import opened Calibrations

  function AbsReal(x: real): real {
    if x < 0.0 then -x else x
  }

  /** A float cast to 16 bits. */
  function ToU16(x: real): U16 {
    if x <= 0.0 then 0 else if x >= 65535.0 then 65535 else x.Floor
  }

  function SatSub(a: U16, b: U16): U16 {
    if a < b then 0 else a - b
  }

  function MinU16(a: U16, b: U16): U16 {
    if a <= b then a else b
  }

  function MaxU16(a: U16, b: U16): U16 {
    if a <= b then b else a
  }

  function ClutchAt(index: Byte): Option<Clutch> {
    match index
    case 0 => Some(K1) case 1 => Some(K2) case 2 => Some(K3)
    case 3 => Some(B1) case 4 => Some(B2) case 5 => Some(B3)
    case _ => None
  }

  /** The table knows no such clutch, a lookup panicked, or this is the pressure needed. */
  datatype Need = NoClutch | Panics | Needs(p: U16)

  /** Pressure on the clutch in millibar, before it is reduced to what the solenoid has to give. */
  function ClutchPressure(coef: U16, torque: real, spring: U16, extra: U16, multi: U16): real {
    (AbsReal(coef as real * torque) / 100.0 + spring as real + extra as real) * (multi as real / 1000.0)
  }

  function Multiplier(gear: Gear, h: HydrCal): U16 {
    if gear == G1 || gear == R1 then h.pMulti1 else h.pMultiOther
  }

  function Required(torque: real, gear: Gear, h: HydrCal, m: MechCal): Need
    requires h.Shaped() && m.Shaped()
  {
    if gear == N then Needs(0)
    else
      match ClutchAt(m.strongestLoaded[gear.Index()])
      case None => NoClutch
      case Some(clutch) =>
        match m.Friction(clutch, gear)
        case None => Panics
        case Some(coef) =>
          Needs(SolenoidPressure(ClutchPressure(coef, torque, m.releaseSpring[clutch.Index()], h.extraPNotShifting,
                                                Multiplier(gear, h)), h))
  }

  /** What is left for the solenoid beside the regulator spring, as far as it goes. */
  function SolenoidPressure(clutchP: real, h: HydrCal): U16
    requires h.Shaped()
  {
    MinU16(SatSub(ToU16(clutchP), h.lpRegSpringPressure), h.MaxPcsPressure())
  }

  /** `first_order_filter` cut off to a whole number; the sum fits in the 24 bits a float is exact in. */
  function Drop(target: U16, prev: U16, factor: Byte): U16
    requires target < prev
  {
    DropIsBetween(target, prev, factor);
    (target + factor * prev) / (factor + 1)
  }

  /** `calculate_mpc_in_gear`; `None` is a panic. */
  function MpcInGear(torque: real, gear: Gear, prev: U16, h: HydrCal, m: MechCal): Option<U16>
    requires h.Shaped() && m.Shaped()
  {
    match Required(torque, gear, h, m)
    case NoClutch => Some(h.MaxPcsPressure())
    case Panics => None
    case Needs(p) => Some(Filtered(MaxU16(p, h.minMpcPressure), prev, h.filterFactor))
  }

  function Filtered(target: U16, prev: U16, factor: Byte): U16 {
    if target < prev then Drop(target, prev, factor) else target
  }

  /** A falling step comes at least one down and does not go below the target. */
  lemma DropIsBetween(target: int, prev: int, factor: nat)
    requires target < prev
    ensures target <= (target + factor * prev) / (factor + 1) < prev
  {
    var n, q := factor + 1, (target + factor * prev) / (factor + 1);
    assert q * n <= target + factor * prev < (q + 1) * n;
    assert prev * n == factor * prev + prev;
    assert target * n == factor * target + target;
    MulMono(target, prev, factor);
    if q < target {
      MulMono(q + 1, target, n);
    }
    if prev <= q {
      MulMono(prev, q, n);
    }
  }

  /** The lookup panics exactly in the reverse gears, and there only when the table names a real clutch. */
  lemma DefinedIff(torque: real, gear: Gear, prev: U16, h: HydrCal, m: MechCal)
    requires h.Shaped() && m.Shaped()
    ensures MpcInGear(torque, gear, prev, h, m).None?
            <==> (gear == R1 || gear == R2) && m.strongestLoaded[gear.Index()] <= 5
  {
    if gear != N {
      match ClutchAt(m.strongestLoaded[gear.Index()])
      case None =>
      case Some(clutch) => FrictionPanicsInReverse(m, clutch, gear);
    }
  }

  /**
    Clutch index 6 passes the check of the calibration but names no clutch: every driving gear that has it
    runs at full pressure, whatever torque, earlier pressure and least pressure are.
   */
  lemma AcceptedIndexWithoutClutch(m: MechCal, gear: Gear, torque: real, prev: U16, h: HydrCal)
    requires h.Shaped() && m.Shaped() && Plausible(m) && gear != N
    ensures Required(torque, gear, h, m).NoClutch? <==> m.strongestLoaded[gear.Index()] == 6
    ensures m.strongestLoaded[gear.Index()] == 6 ==> MpcInGear(torque, gear, prev, h, m) == Some(h.MaxPcsPressure())
  {
    var i := gear.Index();
    assert 1 <= i < 8 && m.strongestLoaded[i] <= 6;
  }

  // ---------------------------------------------------------------- what the pressure is for

  /**
    Together with the regulator spring the solenoid holds the clutch: to within one unit when it is not at
    its limit, and without more than is needed unless the spring alone is enough.
   */
  lemma SolenoidHoldsClutch(clutchP: real, h: HydrCal)
    requires h.Shaped() && clutchP < 65536.0
    ensures var p := SolenoidPressure(clutchP, h);
            && p <= h.MaxPcsPressure()
            && (p < h.MaxPcsPressure() ==> (p + h.lpRegSpringPressure) as real > clutchP - 1.0)
            && (p > 0 ==> (p + h.lpRegSpringPressure) as real <= clutchP)
  {
  }

  /** First gear and R1 go by their own multiplier, every other gear by the other one. */
  lemma OtherMultiplierIsUnused(torque: real, gear: Gear, h: HydrCal, m: MechCal, x: U16)
    requires h.Shaped() && m.Shaped()
    ensures var changed := if gear == G1 || gear == R1 then h.(pMultiOther := x) else h.(pMulti1 := x);
            Required(torque, gear, changed, m) == Required(torque, gear, h, m)
  {
  }

  // ---------------------------------------------------------------- the pressure in numbers of the calibration

  /** A hundred thousand times the pressure that holds a clutch under `torque`. */
  function LoadOf(friction: U16, torque: real, springs: nat, multi: U16): real {
    var f := friction as real * torque;
    ((if f < 0.0 then -f else f) + (100 * springs) as real) * multi as real
  }

  /**
    The same in a forward gear: friction value in clutch row and gear column of the table, release spring and
    extra pressure, and the gear's multiplier.
   */
  function Load(torque: real, gear: Gear, c: Clutch, h: HydrCal, m: MechCal): real
    requires m.Shaped() && G1.Index() <= gear.Index() <= G5.Index()
  {
    LoadOf(m.frictionMap[6 * c.Index() + gear.Index()], torque,
           m.releaseSpring[c.Index()] as int + h.extraPNotShifting as int,
           if gear == G1 then h.pMulti1 else h.pMultiOther)
  }

  lemma Scaled(a: real, springs: real, multi: real)
    ensures (a + 100.0 * springs) * multi == 100000.0 * ((a / 100.0 + springs) * (multi / 1000.0))
  {
    var b := a / 100.0 + springs;
    assert a + 100.0 * springs == 100.0 * b;
    assert b * (multi / 1000.0) == b * multi / 1000.0;
    assert 100.0 * b * multi == 100.0 * (b * multi);
  }

  lemma LoadIsClutchPressure(friction: U16, torque: real, spring: U16, extra: U16, multi: U16)
    ensures LoadOf(friction, torque, spring as int + extra as int, multi)
            == 100000.0 * ClutchPressure(friction, torque, spring, extra, multi)
  {
    var a, springs: int := AbsReal(friction as real * torque), spring as int + extra as int;
    Scaled(a, springs as real, multi as real);
    assert a / 100.0 + springs as real == a / 100.0 + spring as real + extra as real;
    assert (100 * springs) as real == 100.0 * springs as real;
  }

  lemma FrictionCell(c: Clutch, gear: Gear, m: MechCal)
    requires m.Shaped() && G1.Index() <= gear.Index() <= G5.Index()
    ensures m.Friction(c, gear) == Some(m.frictionMap[6 * c.Index() + gear.Index()])
  {
  }

  lemma NeededInGear(torque: real, gear: Gear, c: Clutch, h: HydrCal, m: MechCal) returns (clutchP: real)
    requires h.Shaped() && m.Shaped() && G1.Index() <= gear.Index() <= G5.Index()
    requires m.strongestLoaded[gear.Index()] == c.Index()
    ensures 100000.0 * clutchP == Load(torque, gear, c, h, m)
    ensures Required(torque, gear, h, m) == Needs(SolenoidPressure(clutchP, h))
  {
    var coef := m.frictionMap[6 * c.Index() + gear.Index()];
    var spring, extra, multi := m.releaseSpring[c.Index()], h.extraPNotShifting, Multiplier(gear, h);
    FrictionCell(c, gear, m);
    clutchP := ClutchPressure(coef, torque, spring, extra, multi);
    LoadIsClutchPressure(coef, torque, spring, extra, multi);
    assert ClutchAt(m.strongestLoaded[gear.Index()]) == Some(c);
  }

  /** The solenoid has to give at least `q` exactly when the clutch needs `q` more than the spring gives. */
  lemma SolenoidAtLeast(clutchP: real, h: HydrCal, q: U16)
    requires h.Shaped() && q > 0
    ensures q <= SolenoidPressure(clutchP, h) <==>
              && q <= h.MaxPcsPressure() && q + h.lpRegSpringPressure <= 65535
              && (q + h.lpRegSpringPressure) as real <= clutchP
  {
  }

  /** The spring and `q` together in the units of `Load`, within what a 16-bit number holds. */
  predicate Loaded(h: HydrCal, q: nat, load: real) {
    q + h.lpRegSpringPressure <= 65535 && 100000.0 * (q + h.lpRegSpringPressure) as real <= load
  }

  /**
    The working pressure of a forward gear that is not falling, against every pressure `q`: it is at least `q`
    exactly when that is no more than the least pressure, or within the limit and carried by the load. So it is
    the load's whole pressure beyond the regulator spring, clipped to the limit and raised to the least pressure.
   */
  lemma PressureIs(torque: real, gear: Gear, c: Clutch, h: HydrCal, m: MechCal, q: U16)
    requires h.Shaped() && m.Shaped() && G1.Index() <= gear.Index() <= G5.Index()
    requires m.strongestLoaded[gear.Index()] == c.Index()
    ensures var p := MpcInGear(torque, gear, 0, h, m);
            p.Some? && (q <= p.value <==>
              q <= h.minMpcPressure || (q <= h.pcsMapX[6] && Loaded(h, q, Load(torque, gear, c, h, m))))
  {
    var clutchP := NeededInGear(torque, gear, c, h, m);
    if q > 0 {
      SolenoidAtLeast(clutchP, h, q);
      ScaledMono(clutchP, q + h.lpRegSpringPressure);
    }
  }

  lemma ScaledMono(x: real, n: nat)
    ensures n as real <= x <==> 100000.0 * n as real <= 100000.0 * x
  {
  }

  /** Strictly between least pressure and limit it is the load beyond the regulator spring, cut off. */
  lemma PressureFormula(torque: real, gear: Gear, c: Clutch, h: HydrCal, m: MechCal)
    requires h.Shaped() && m.Shaped() && G1.Index() <= gear.Index() <= G5.Index()
    requires m.strongestLoaded[gear.Index()] == c.Index()
    ensures MpcInGear(torque, gear, 0, h, m).Some?
    ensures var p, load := MpcInGear(torque, gear, 0, h, m).value, Load(torque, gear, c, h, m);
            var sum := p + h.lpRegSpringPressure;
            && (h.minMpcPressure < p < h.pcsMapX[6] && sum < 65535 ==>
                  100000.0 * sum as real <= load < 100000.0 * (sum + 1) as real)
            && (p == h.minMpcPressure < h.pcsMapX[6] && sum < 65535 ==> load < 100000.0 * (sum + 1) as real)
            && (h.minMpcPressure < p == h.pcsMapX[6] ==> 100000.0 * sum as real <= load)
            && h.minMpcPressure <= p && (p <= h.minMpcPressure || p <= h.pcsMapX[6])
  {
    var p := MpcInGear(torque, gear, 0, h, m).value;
    PressureIs(torque, gear, c, h, m, p);
    if p < 65535 {
      PressureIs(torque, gear, c, h, m, p + 1);
    }
    PressureIs(torque, gear, c, h, m, h.minMpcPressure);
  }

  /** In neutral the least pressure, and in a driving gear without a clutch in the table the limit. */
  lemma PressureWithoutClutch(torque: real, gear: Gear, prev: U16, h: HydrCal, m: MechCal)
    requires h.Shaped() && m.Shaped()
    ensures MpcInGear(torque, N, 0, h, m) == Some(h.minMpcPressure)
    ensures gear != N && m.strongestLoaded[gear.Index()] > 5 ==>
              MpcInGear(torque, gear, prev, h, m) == Some(h.pcsMapX[6])
  {
  }

  /**
    From an earlier pressure above it the pressure comes down to the weighted mean of that and the pressure it
    would have otherwise, cut off; from one below it goes there at once.
   */
  lemma FallsToMean(torque: real, gear: Gear, prev: U16, h: HydrCal, m: MechCal)
    requires h.Shaped() && m.Shaped()
    requires MpcInGear(torque, gear, 0, h, m).Some? && (gear == N || m.strongestLoaded[gear.Index()] <= 5)
    ensures MpcInGear(torque, gear, prev, h, m).Some?
    ensures var target, p := MpcInGear(torque, gear, 0, h, m).value, MpcInGear(torque, gear, prev, h, m).value;
            var f := h.filterFactor;
            && (prev <= target ==> p == target)
            && (prev > target ==> p * (f + 1) <= target + f * prev < (p + 1) * (f + 1))
  {
    var target, f := MpcInGear(torque, gear, 0, h, m).value, h.filterFactor;
    if prev > target {
      DropIsBetween(target, prev, f);
      QuotientBounds(target + f * prev, f + 1);
    }
  }

  lemma QuotientBounds(x: nat, n: nat)
    requires n > 0
    ensures x / n * n <= x < (x / n + 1) * n
  {
    assert x == x / n * n + x % n;
    assert (x / n + 1) * n == x / n * n + n;
  }

  // ---------------------------------------------------------------- run on its own result

  function Iterate(target: U16, prev: U16, factor: Byte, cycles: nat): U16
    decreases cycles
  {
    if cycles == 0 then prev else Iterate(target, Filtered(target, prev, factor), factor, cycles - 1)
  }

  /** The pressure after some cycles of the control loop with everything else unchanged. */
  function Cycles(torque: real, gear: Gear, prev: U16, h: HydrCal, m: MechCal, cycles: nat): Option<U16>
    requires h.Shaped() && m.Shaped()
    decreases cycles
  {
    if cycles == 0 then Some(prev)
    else
      match MpcInGear(torque, gear, prev, h, m)
      case None => None
      case Some(next) => Cycles(torque, gear, next, h, m, cycles - 1)
  }

  lemma {:induction false} CyclesIterate(torque: real, gear: Gear, prev: U16, h: HydrCal, m: MechCal, cycles: nat)
    requires h.Shaped() && m.Shaped() && Required(torque, gear, h, m).Needs?
    ensures Cycles(torque, gear, prev, h, m, cycles)
         == Some(Iterate(MaxU16(Required(torque, gear, h, m).p, h.minMpcPressure), prev, h.filterFactor, cycles))
    decreases cycles
  {
    if cycles > 0 {
      var target := MaxU16(Required(torque, gear, h, m).p, h.minMpcPressure);
      CyclesIterate(torque, gear, Filtered(target, prev, h.filterFactor), h, m, cycles - 1);
    }
  }

  lemma {:induction false} IterateSettles(target: U16, prev: U16, factor: Byte, cycles: nat)
    ensures cycles > 0 ==> target <= Iterate(target, prev, factor, cycles)
    ensures cycles > 0 && prev <= target ==> Iterate(target, prev, factor, cycles) == target
    ensures cycles > 0 && prev > target ==> Iterate(target, prev, factor, cycles) < prev
    ensures cycles > 0 && cycles >= prev - target ==> Iterate(target, prev, factor, cycles) == target
    decreases cycles
  {
    if cycles > 0 {
      if target < prev {
        DropIsBetween(target, prev, factor);
      }
      IterateSettles(target, Filtered(target, prev, factor), factor, cycles - 1);
    }
  }

  /**
    Run on its own result under constant inputs the pressure is never below what the clutch needs nor below
    the least pressure; it rises to the greater of the two in one cycle and falls, one down a cycle at
    least, to exactly that in no more cycles than it has units to fall.
   */
  lemma PressureSettles(torque: real, gear: Gear, prev: U16, h: HydrCal, m: MechCal, cycles: nat)
    requires h.Shaped() && m.Shaped() && Required(torque, gear, h, m).Needs? && cycles > 0
    ensures var need := Required(torque, gear, h, m).p; var target := MaxU16(need, h.minMpcPressure);
            var p := Cycles(torque, gear, prev, h, m, cycles);
            && p.Some? && need <= p.value && h.minMpcPressure <= p.value
            && (prev <= target ==> p == Some(target))
            && (prev > target ==> p.value < prev)
            && (cycles >= prev - target ==> p == Some(target))
  {
    CyclesIterate(torque, gear, prev, h, m, cycles);
    IterateSettles(MaxU16(Required(torque, gear, h, m).p, h.minMpcPressure), prev, h.filterFactor, cycles);
  }

  // ---------------------------------------------------------------- more torque, no less pressure

  lemma FloorMono(x: real, y: real)
    requires x <= y
    ensures ToU16(x) <= ToU16(y)
  {
  }

  lemma ProductMono(a: real, b: real, c: real)
    requires a <= b && c >= 0.0
    ensures a * c <= b * c
  {
  }

  lemma AbsProduct(a: real, b: real)
    requires a >= 0.0
    ensures AbsReal(a * b) == AbsReal(b) * a
  {
    if b < 0.0 {
      assert a * -b == -(a * b);
      ProductMono(b, 0.0, a);
    } else {
      ProductMono(0.0, b, a);
    }
  }

  lemma ClutchPressureMono(coef: U16, t: real, u: real, spring: U16, extra: U16, multi: U16)
    requires AbsReal(t) <= AbsReal(u)
    ensures ClutchPressure(coef, t, spring, extra, multi) <= ClutchPressure(coef, u, spring, extra, multi)
  {
    var c := coef as real;
    AbsProduct(c, t);
    AbsProduct(c, u);
    ProductMono(AbsReal(t), AbsReal(u), c);
    var rest := spring as real + extra as real;
    ProductMono(AbsReal(c * t) / 100.0 + spring as real + extra as real,
                AbsReal(c * u) / 100.0 + spring as real + extra as real, multi as real / 1000.0);
  }

  lemma FilteredMono(target: U16, higher: U16, prev: U16, factor: Byte)
    requires target <= higher
    ensures Filtered(target, prev, factor) <= Filtered(higher, prev, factor)
  {
    if target < prev {
      DropIsBetween(target, prev, factor);
      if higher < prev {
        QuotientMono(target + factor * prev, higher + factor * prev, factor + 1);
      }
    }
  }

  /** A greater torque, either way round, never gives a lower pressure in the same gear and cycle. */
  lemma MoreTorqueNoLessPressure(t: real, u: real, gear: Gear, prev: U16, h: HydrCal, m: MechCal)
    requires h.Shaped() && m.Shaped() && AbsReal(t) <= AbsReal(u)
    ensures var low, high := MpcInGear(t, gear, prev, h, m), MpcInGear(u, gear, prev, h, m);
            && low.Some? == high.Some?
            && (low.Some? ==> low.value <= high.value)
  {
    var low, high := Required(t, gear, h, m), Required(u, gear, h, m);
    if low.Needs? {
      NeedMono(t, u, gear, h, m);
      FilteredMono(MaxU16(low.p, h.minMpcPressure), MaxU16(high.p, h.minMpcPressure), prev, h.filterFactor);
    }
  }

  lemma NeedMono(t: real, u: real, gear: Gear, h: HydrCal, m: MechCal)
    requires h.Shaped() && m.Shaped() && AbsReal(t) <= AbsReal(u) && Required(t, gear, h, m).Needs?
    ensures Required(u, gear, h, m).Needs? && Required(t, gear, h, m).p <= Required(u, gear, h, m).p
  {
    if gear != N {
      var clutch := ClutchAt(m.strongestLoaded[gear.Index()]).value;
      var coef := m.Friction(clutch, gear).value;
      var spring, multi := m.releaseSpring[clutch.Index()], Multiplier(gear, h);
      ClutchPressureMono(coef, t, u, spring, h.extraPNotShifting, multi);
      FloorMono(ClutchPressure(coef, t, spring, h.extraPNotShifting, multi),
                ClutchPressure(coef, u, spring, h.extraPNotShifting, multi));
    }
  }
}
