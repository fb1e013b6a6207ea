/** What start-up of the gearbox control ends in, for every store of calibrations and every interleaving. */
module GearboxStart {
  import opened Bytes
  import opened Calibrations
  import opened CalHandshake
  import opened GearboxModes

  /** No flag is set from outside the control loop. */
  predicate LeftAlone(events: seq<Event>) {
    forall i :: 0 <= i < |events| ==> !events[i].SetMode?
  }

  /** The mode before and after the last of the four answers has arrived; a panic leaves it as it was. */
  predicate StartedUp(w: World, db: Store, check: MechCheck) {
    && !w.out.milLight
    && if !w.link.client.AllArrived() then w.mode == {Init} && !w.halted && w.out == PowerOn().out
       else
         match StoreVerdict(db, check)
         case Error => w.mode == {TempEmergency} && !w.halted
         case Ready => w.mode == {}
         case Panicked => w.mode == {Init} && w.halted
         case Waiting => false
  }

  lemma InitCycleStarts(w: World, cap: nat, db: Store, check: MechCheck)
    requires StoreShaped(db) && Invariant(w.link, cap, db) && StartedUp(w, db, check)
    requires w.mode == {Init} && !w.halted
    ensures StartedUp(InitCycle(w, cap, check), db, check)
  {
    MoveKeepsInvariant(w.link, ClientPolls, cap, db);
    var link := Poll(w.link, cap);
    if link.client.AllArrived() {
      VerdictIsTheStores(link, db, check);
      assert {Init} - {Init} == {} && {} + {TempEmergency} == {TempEmergency};
    }
  }

  lemma ErrorFlagIsError()
    ensures HasError({TempEmergency}) && !HasError({}) && !HasError({Init})
  {
    assert TempEmergency in {TempEmergency} * ERRORS;
    var none: Mode := {};
    assert {Init} * ERRORS == {} && none * ERRORS == {};
  }

  lemma ControlCycleKeeps(w: World, drive: Option<Drive>, db: Store, check: MechCheck)
    requires StartedUp(w, db, check) && Init !in w.mode && !w.halted
    ensures StartedUp(ControlCycle(w, drive), db, check)
  {
    ErrorFlagIsError();
  }

  lemma TaskStepKeeps(w: World, step: Move, cap: nat, db: Store, check: MechCheck)
    requires StartedUp(w, db, check) && !step.ClientPolls? && Enabled(w.link, step, cap)
    ensures StartedUp(w.(link := Apply(w.link, step, cap, db)), db, check)
  {
  }

  lemma EventStarts(w: World, e: Event, cap: nat, db: Store, check: MechCheck)
    requires StoreShaped(db) && Invariant(w.link, cap, db) && StartedUp(w, db, check)
    requires Possible(w, e, cap) && !e.SetMode?
    ensures Invariant(GearboxModes.Next(w, e, cap, db, check).link, cap, db)
    ensures StartedUp(GearboxModes.Next(w, e, cap, db, check), db, check)
  {
    match e
    case Update(drive) =>
      if Init in w.mode {
        MoveKeepsInvariant(w.link, ClientPolls, cap, db);
        InitCycleStarts(w, cap, db, check);
      } else {
        ControlCycleKeeps(w, drive, db, check);
      }
    case Task(step) =>
      MoveKeepsInvariant(w.link, step, cap, db);
      TaskStepKeeps(w, step, cap, db, check);
  }

  lemma {:induction false} RunStarts(w: World, events: seq<Event>, cap: nat, db: Store, check: MechCheck)
    requires StoreShaped(db) && Invariant(w.link, cap, db) && StartedUp(w, db, check)
    requires GearboxModes.Legal(w, events, cap, db, check) && LeftAlone(events)
    ensures Invariant(RunEvents(w, events, cap, db, check).link, cap, db)
    ensures StartedUp(RunEvents(w, events, cap, db, check), db, check)
    decreases |events|
  {
    if events != [] {
      EventStarts(w, events[0], cap, db, check);
      RunStarts(GearboxModes.Next(w, events[0], cap, db, check), events[1..], cap, db, check);
    }
  }

  /**
    After every run from power-on in which nobody else sets a flag: the mode is that of start-up until the last
    of the four answers is in, with all outputs as they were. From then on it is the temporary emergency mode if
    the store leads to an error, and no flag at all if it leads to ready; a check that panics stops the program.
    The warning light is never on.
   */
  lemma StartUpEndsAsStored(events: seq<Event>, cap: nat, db: Store, check: MechCheck)
    requires StoreShaped(db) && GearboxModes.Legal(PowerOn(), events, cap, db, check) && LeftAlone(events)
    ensures StartedUp(RunEvents(PowerOn(), events, cap, db, check), db, check)
  {
    InitialInvariant(cap, db);
    RunStarts(PowerOn(), events, cap, db, check);
  }

  /** A control cycle after an error at start-up: everything off, the gearbox not in order, no warning light. */
  lemma EmergencyCycle(events: seq<Event>, drive: Option<Drive>, cap: nat, db: Store, check: MechCheck)
    requires StoreShaped(db) && GearboxModes.Legal(PowerOn(), events, cap, db, check) && LeftAlone(events)
    requires RunEvents(PowerOn(), events, cap, db, check).link.client.AllArrived()
    requires StoreVerdict(db, check) == Error
    ensures var w := RunEvents(PowerOn(), events, cap, db, check);
            Possible(w, Update(drive), cap)
            && GearboxModes.Next(w, Update(drive), cap, db, check).out
               == Outputs(false, false, false, 0, 0, 0, false, false, false)
  {
    StartUpEndsAsStored(events, cap, db, check);
    ErrorFlagIsError();
  }

  /** And one after a start-up without an error: what the shift logic asks for, with power and in order. */
  lemma WorkingCycle(events: seq<Event>, drive: Drive, cap: nat, db: Store, check: MechCheck)
    requires StoreShaped(db) && GearboxModes.Legal(PowerOn(), events, cap, db, check) && LeftAlone(events)
    requires RunEvents(PowerOn(), events, cap, db, check).link.client.AllArrived()
    requires StoreVerdict(db, check) == Ready && !RunEvents(PowerOn(), events, cap, db, check).halted
    ensures var w := RunEvents(PowerOn(), events, cap, db, check);
            Possible(w, Update(Some(drive)), cap)
            && GearboxModes.Next(w, Update(Some(drive)), cap, db, check).out
               == Outputs(drive.y3, drive.y4, drive.y5, w.out.tccPwm, drive.mpcCurrent, drive.spcCurrent,
                          true, true, false)
  {
    StartUpEndsAsStored(events, cap, db, check);
    ErrorFlagIsError();
  }

  /** Once in slave mode, which nothing leaves, control cycles change nothing at all however many there are. */
  lemma {:induction false} SlaveCyclesIdle(
      w: World, events: seq<Event>, cap: nat, db: Store, check: MechCheck)
    requires Init !in w.mode && Slave in w.mode && GearboxModes.Legal(w, events, cap, db, check)
    requires forall i :: 0 <= i < |events| ==> events[i].Update?
    ensures RunEvents(w, events, cap, db, check) == w
    decreases |events|
  {
    if events != [] {
      SlaveCyclesIdle(w, events[1..], cap, db, check);
    }
  }

  // ---------------------------------------------------------------- the store in its own numbers

  /** A hydraulic block is stored, none of its five numbers is zero, and its pressure map is within its limits. */
  predicate HydraulicsUsable(db: Store) {
    && db.hydr.Some?
    && var h := db.hydr.value;
    && 0 !in [h.pMulti1, h.pMultiOther, h.lpRegSpringPressure, h.shiftRegSpringPressure, h.minMpcPressure]
    && (forall p :: p in h.pcsMapX ==> p <= 10000)
    && (forall t :: t in h.pcsMapY ==> t <= 200)
    && (forall c :: c in h.pcsMapZ ==> c <= 3000)
  }

  /** A mechanical block is stored with a known gearbox type, and names a ratio and a clutch for every gear. */
  predicate MechanicsUsable(db: Store) {
    && db.mech.Some? && db.mech.value.Shaped()
    && var m := db.mech.value;
    && m.gbTy in {0, 1} && 0 !in m.ratioTable[1..] && (forall c :: c in m.strongestLoaded[1..] ==> c <= 6)
  }

  lemma HydraulicsChecked(h: HydrCal)
    ensures h.IsValid() <==> HydraulicsUsable(Store(None, Some(h)))
  {
    forall i | 0 <= i < |h.pcsMapX| ensures h.pcsMapX[i] in h.pcsMapX {
    }
    forall i | 0 <= i < |h.pcsMapY| ensures h.pcsMapY[i] in h.pcsMapY {
    }
    forall i | 0 <= i < |h.pcsMapZ| ensures h.pcsMapZ[i] in h.pcsMapZ {
    }
  }

  lemma MechanicsChecked(m: MechCal)
    requires m.Shaped()
    ensures Plausible(m) <==> MechanicsUsable(Store(Some(m), None))
  {
    forall i | 1 <= i < 8
      ensures m.ratioTable[i] in m.ratioTable[1..] && m.strongestLoaded[i] in m.strongestLoaded[1..]
    {
      assert m.ratioTable[1..][i - 1] == m.ratioTable[i];
      assert m.strongestLoaded[1..][i - 1] == m.strongestLoaded[i];
    }
  }

  /**
    As shipped: a store without a usable block of either kind leads to an error, and one with both stops the
    program with a panic.
   */
  lemma ShippedStart(db: Store)
    requires StoreShaped(db)
    ensures StoreVerdict(db, Shipped()) == if HydraulicsUsable(db) && MechanicsUsable(db) then Panicked else Error
  {
    if db.hydr.Some? {
      HydraulicsChecked(db.hydr.value);
    }
    var m := OrDefault(db.mech, DefaultMech());
    MechCheckNeverSucceeds(m);
    if db.mech.Some? {
      MechanicsChecked(m);
    } else {
      assert m.ratioTable[1] == 0;
    }
  }
}
