/** The mode flags of the gearbox control loop, its start-up, and the outputs it may switch on. */
module GearboxModes {
  import opened Bytes
  import opened Calibrations
  import opened CalHandshake

  datatype Flag =
    | Normal | Montage | Roller | Slave | TempEmergency | HardwareErr | PermEmergency | UndervoltageEmergency
    | Init | Wep | ConditionalEmergency

  type Mode = set<Flag>

  const ERRORS: Mode :=
    {TempEmergency, PermEmergency, HardwareErr, UndervoltageEmergency, ConditionalEmergency}

  predicate HasError(m: Mode) {
    m * ERRORS != {}
  }

  datatype Outputs = Outputs(
    y3: bool, y4: bool, y5: bool, tccPwm: U16, mpcCurrent: U16, spcCurrent: U16, pwrEn: bool,
    gearboxOk: bool, milLight: bool)
  {
    predicate AllOff() {
      !y3 && !y4 && !y5 && tccPwm == 0 && mpcCurrent == 0 && spcCurrent == 0 && !pwrEn
    }
  }

  /** What one cycle of the shift logic asks for when there is no error. */
  datatype Drive = Drive(y3: bool, y4: bool, y5: bool, mpcCurrent: U16, spcCurrent: U16)

  const STORAGES := 4

  /** Gearbox, its calibration storage with both channels, and whether the program has panicked. */
  datatype World = World(mode: Mode, out: Outputs, halted: bool, link: Link)

  function ModeAfterInit(m: Mode, verdict: Outcome): Mode {
    match verdict
    case Waiting => m
    case Ready => m - {Init}
    case Error => m - {Init} + {TempEmergency}
    case Panicked => m
  }

  /** A start-up cycle: only the calibration storage can do anything but report ready. */
  function InitCycle(w: World, cap: nat, check: MechCheck): World {
    var link := Poll(w.link, cap);
    w.(link := link, mode := ModeAfterInit(w.mode, Verdict(link.client, check)),
       halted := Verdict(link.client, check).Panicked?)
  }

  /** A control cycle that has computed `drive`; without an error it may panic instead, and then writes nothing. */
  function ControlCycle(w: World, drive: Option<Drive>): World {
    if HasError(w.mode) then
      w.(out := Outputs(false, false, false, 0, 0, 0, false, false, PermEmergency in w.mode))
    else if drive.None? then w.(halted := true)
    else
      w.(out := Outputs(drive.value.y3, drive.value.y4, drive.value.y5, w.out.tccPwm, drive.value.mpcCurrent,
                        drive.value.spcCurrent, true, true, false))
  }

  function Cycle(w: World, drive: Option<Drive>, cap: nat, check: MechCheck): World {
    if Init in w.mode then InitCycle(w, cap, check)
    else if Slave in w.mode then w
    else ControlCycle(w, drive)
  }

  class Gearbox {
    var mode: Mode
    var out: Outputs
    var halted: bool
    const cal: EgsCalStorage

    ghost function View(): World
      reads this, cal, cal.tx, cal.rx
    {
      World(mode, out, halted, cal.View())
    }

    constructor (cal: EgsCalStorage)
      ensures mode == {Init} && out.AllOff() && !halted && this.cal == cal
    {
      mode, halted := {Init}, false;
      out := Outputs(false, false, false, 0, 0, 0, false, false, false);
      this.cal := cal;
    }

    /** Flags set from anywhere in the program. */
    method SetDevMode(flags: Mode)
      requires !halted
      modifies this`mode
      ensures forall db: Store :: View() == Next(old(View()), SetMode(flags), cal.tx.cap, db, cal.mechCheck)
    {
      mode := mode + flags;
    }

    /** Polls the four storages in turn, up to the first that fails. */
    method PollStorages() returns (verdict: Outcome)
      requires cal.State().Valid() && StoredShapes(cal.rx.items)
      modifies this`mode, this`halted, cal, cal.tx, cal.rx
      ensures cal.View() == Poll(old(cal.View()), cal.tx.cap)
      ensures verdict == Verdict(cal.State(), cal.mechCheck)
      ensures mode == ModeAfterInit(old(mode), verdict) && halted == (old(halted) || verdict.Panicked?)
    {
      verdict := cal.InitPoll();
      var poll, ready, i := verdict, 0, 0;
      while i < STORAGES
        invariant 0 <= i <= STORAGES
        invariant poll == if i == 0 then verdict else Ready
        invariant !verdict.Error? || i == 0
        invariant !verdict.Panicked? || i == 0
        invariant ready == if verdict.Ready? then i else if i == 0 then 0 else i - 1
        invariant mode == old(mode) && halted == old(halted)
      {
        match poll {
          case Waiting =>
          case Ready => ready := ready + 1;
          case Error =>
            mode := mode - {Init};
            mode := mode + {TempEmergency};
            break;
          case Panicked =>
            halted := true;
            return;
        }
        poll, i := Ready, i + 1;
      }
      if ready == STORAGES {
        mode := mode - {Init};
      }
    }

    method SafetyFn()
      modifies this`out
      ensures out == if HasError(mode)
                     then Outputs(false, false, false, 0, 0, 0, false, old(out).gearboxOk, old(out).milLight)
                     else old(out)
    {
      if HasError(mode) {
        out := out.(y3 := false, y4 := false, y5 := false, tccPwm := 0, mpcCurrent := 0, spcCurrent := 0,
                    pwrEn := false);
      }
    }

    method WriteCanOutputs()
      modifies this`out
      ensures out == old(out).(
                       gearboxOk := !HasError(mode), pwrEn := !HasError(mode), milLight := PermEmergency in mode)
    {
      out := out.(gearboxOk := !HasError(mode));
      out := out.(pwrEn := !HasError(mode));
      out := out.(milLight := PermEmergency in mode);
    }

    /** The shift logic's last step; `drive` is what it computed, nothing when it panicked. */
    method CalculateSolenoidStatus(drive: Option<Drive>) returns (ok: bool)
      modifies this`out
      ensures ok == (HasError(mode) || drive.Some?)
      ensures out == if HasError(mode)
                     then old(out).(y3 := false, y4 := false, y5 := false, mpcCurrent := 0, spcCurrent := 0)
                     else if drive.None? then old(out)
                     else old(out).(y3 := drive.value.y3, y4 := drive.value.y4, y5 := drive.value.y5,
                                    mpcCurrent := drive.value.mpcCurrent, spcCurrent := drive.value.spcCurrent)
    {
      if HasError(mode) {
        out := out.(spcCurrent := 0, mpcCurrent := 0, y3 := false, y4 := false, y5 := false);
      } else {
        if drive.None? {
          return false;
        }
        var d := drive.value;
        out := out.(spcCurrent := d.spcCurrent, mpcCurrent := d.mpcCurrent, y3 := d.y3, y4 := d.y4, y5 := d.y5);
      }
      ok := true;
    }

    /** One 20 ms cycle. */
    method Update(drive: Option<Drive>)
      requires !halted && cal.State().Valid() && StoredShapes(cal.rx.items)
      modifies this, cal, cal.tx, cal.rx
      ensures View() == Cycle(old(View()), drive, cal.tx.cap, cal.mechCheck)
    {
      if Init in mode {
        var verdict := PollStorages();
      } else if Slave !in mode {
        PermIsError(mode);
        var ok := CalculateSolenoidStatus(drive);
        if !ok {
          halted := true;
          return;
        }
        SafetyFn();
        WriteCanOutputs();
      }
    }
  }

  lemma PermIsError(m: Mode)
    ensures PermEmergency in m ==> HasError(m)
  {
    assert PermEmergency in m ==> PermEmergency in m * ERRORS;
  }

  // ---------------------------------------------------------------- whole runs

  /** A control cycle, flags set from anywhere in the program, or a step of the storage task. */
  datatype Event = Update(drive: Option<Drive>) | SetMode(flags: Mode) | Task(step: Move)

  predicate Possible(w: World, e: Event, cap: nat) {
    && !w.halted
    && (e.Task? ==> !e.step.ClientPolls? && Enabled(w.link, e.step, cap))
  }

  function Next(w: World, e: Event, cap: nat, db: Store, check: MechCheck): World
    requires Possible(w, e, cap)
  {
    match e
    case Update(drive) => Cycle(w, drive, cap, check)
    case SetMode(flags) => w.(mode := w.mode + flags)
    case Task(step) => w.(link := Apply(w.link, step, cap, db))
  }

  predicate Legal(w: World, events: seq<Event>, cap: nat, db: Store, check: MechCheck)
    decreases |events|
  {
    events == []
    || (Possible(w, events[0], cap) && Legal(Next(w, events[0], cap, db, check), events[1..], cap, db, check))
  }

  function RunEvents(w: World, events: seq<Event>, cap: nat, db: Store, check: MechCheck): World
    requires Legal(w, events, cap, db, check)
    decreases |events|
  {
    if events == [] then w else RunEvents(Next(w, events[0], cap, db, check), events[1..], cap, db, check)
  }

  function PowerOn(): World {
    World({Init}, Outputs(false, false, false, 0, 0, 0, false, false, false), false, Initial())
  }

  /** All four calibrations are in and were found good. */
  predicate Cleared(w: World, check: MechCheck) {
    w.link.client.AllArrived() && Verdict(w.link.client, check) == Ready
  }

  predicate Safe(w: World, cap: nat, db: Store, check: MechCheck) {
    && Invariant(w.link, cap, db)
    && (Init !in w.mode && !HasError(w.mode) ==> Cleared(w, check))
    && (w.out.pwrEn ==> Cleared(w, check))
  }

  /** Once everything has arrived a poll changes nothing more. */
  lemma PollAfterArrival(l: Link, cap: nat, db: Store)
    requires Invariant(l, cap, db) && l.client.AllArrived()
    ensures Poll(l, cap) == l
  {
    Stations(l);
  }

  lemma NewErrorIsError(m: Mode)
    ensures HasError(m + {TempEmergency})
  {
    assert TempEmergency in (m + {TempEmergency}) * ERRORS;
  }

  lemma InitIsNoError(m: Mode)
    ensures (m - {Init}) * ERRORS == m * ERRORS
  {
  }

  lemma InitCycleIsSafe(w: World, cap: nat, db: Store, check: MechCheck)
    requires StoreShaped(db) && Safe(w, cap, db, check) && Init in w.mode
    ensures Safe(InitCycle(w, cap, check), cap, db, check)
  {
    MoveKeepsInvariant(w.link, ClientPolls, cap, db);
    if w.link.client.AllArrived() {
      PollAfterArrival(w.link, cap, db);
    }
    NewErrorIsError(w.mode - {Init});
  }

  lemma SetModeIsSafe(w: World, flags: Mode, cap: nat, db: Store, check: MechCheck)
    requires Safe(w, cap, db, check)
    ensures Safe(w.(mode := w.mode + flags), cap, db, check)
  {
    if !HasError(w.mode + flags) {
      assert w.mode * ERRORS <= (w.mode + flags) * ERRORS;
    }
  }

  lemma TaskStepIsSafe(w: World, step: Move, cap: nat, db: Store, check: MechCheck)
    requires StoreShaped(db) && Safe(w, cap, db, check) && !step.ClientPolls? && Enabled(w.link, step, cap)
    ensures Safe(w.(link := Apply(w.link, step, cap, db)), cap, db, check)
  {
    MoveKeepsInvariant(w.link, step, cap, db);
  }

  lemma EventIsSafe(w: World, e: Event, cap: nat, db: Store, check: MechCheck)
    requires StoreShaped(db) && Safe(w, cap, db, check) && Possible(w, e, cap)
    ensures Safe(Next(w, e, cap, db, check), cap, db, check)
  {
    match e
    case Update(drive) =>
      if Init in w.mode {
        InitCycleIsSafe(w, cap, db, check);
      }
    case SetMode(flags) => SetModeIsSafe(w, flags, cap, db, check);
    case Task(step) => TaskStepIsSafe(w, step, cap, db, check);
  }

  lemma {:induction false} RunIsSafe(w: World, events: seq<Event>, cap: nat, db: Store, check: MechCheck)
    requires StoreShaped(db) && Safe(w, cap, db, check) && Legal(w, events, cap, db, check)
    ensures Safe(RunEvents(w, events, cap, db, check), cap, db, check)
    decreases |events|
  {
    if events != [] {
      EventIsSafe(w, events[0], cap, db, check);
      RunIsSafe(Next(w, events[0], cap, db, check), events[1..], cap, db, check);
    }
  }

  /**
    Solenoid power is on in a reachable state only when all four calibrations have arrived, both checked
    ones are stored, and both passed their check; whatever the check of the mechanical one is.
   */
  lemma PowerNeedsCalibrations(events: seq<Event>, cap: nat, db: Store, check: MechCheck)
    requires StoreShaped(db) && Legal(PowerOn(), events, cap, db, check)
    ensures var end := RunEvents(PowerOn(), events, cap, db, check);
            end.out.pwrEn ==>
              && end.link.client.AllArrived()
              && db.hydr.Some? && end.link.client.hydr == db.hydr.value && db.hydr.value.IsValid()
              && end.link.client.mech == OrDefault(db.mech, DefaultMech()) && check(end.link.client.mech) == Some(true)
  {
    InitialInvariant(cap, db);
    RunIsSafe(PowerOn(), events, cap, db, check);
  }

  /** With the mechanical check as shipped, solenoid power never comes on. */
  lemma PowerStaysOffAsShipped(events: seq<Event>, cap: nat, db: Store)
    requires StoreShaped(db) && Legal(PowerOn(), events, cap, db, Shipped())
    ensures !RunEvents(PowerOn(), events, cap, db, Shipped()).out.pwrEn
  {
    InitialInvariant(cap, db);
    RunIsSafe(PowerOn(), events, cap, db, Shipped());
    MechCheckNeverSucceeds(RunEvents(PowerOn(), events, cap, db, Shipped()).link.client.mech);
  }

  lemma EventKeepsErrors(w: World, e: Event, cap: nat, db: Store, check: MechCheck)
    requires Possible(w, e, cap)
    ensures w.mode * ERRORS <= Next(w, e, cap, db, check).mode * ERRORS
  {
    InitIsNoError(w.mode);
  }

  /** Error bits are never cleared. */
  lemma {:induction false} ErrorsAreNeverCleared(w: World, events: seq<Event>, cap: nat, db: Store, check: MechCheck)
    requires Legal(w, events, cap, db, check)
    ensures w.mode * ERRORS <= RunEvents(w, events, cap, db, check).mode * ERRORS
    decreases |events|
  {
    if events != [] {
      EventKeepsErrors(w, events[0], cap, db, check);
      ErrorsAreNeverCleared(Next(w, events[0], cap, db, check), events[1..], cap, db, check);
    }
  }

  /**
    Once an error bit has been set, every control cycle that runs after that, however much later, ends with
    all solenoid outputs off and the gearbox reported as not in order, and with the warning light on exactly when
    the emergency is a permanent one.
   */
  lemma ErrorSwitchesOff(
      w: World, events: seq<Event>, drive: Option<Drive>, cap: nat, db: Store, check: MechCheck)
    requires HasError(w.mode) && Legal(w, events, cap, db, check)
    requires var late := RunEvents(w, events, cap, db, check);
             Possible(late, Update(drive), cap) && Init !in late.mode && Slave !in late.mode
    ensures var end := Next(RunEvents(w, events, cap, db, check), Update(drive), cap, db, check);
            && end.out.AllOff() && !end.out.gearboxOk && !end.halted
            && (end.out.milLight <==> PermEmergency in RunEvents(w, events, cap, db, check).mode)
  {
    ErrorsAreNeverCleared(w, events, cap, db, check);
  }

  /** After a cycle power is on in spite of an error exactly when it was on before a cycle that controls nothing. */
  lemma PowerInErrorIff(w: World, drive: Option<Drive>, cap: nat, check: MechCheck)
    requires !w.halted
    ensures var end := Cycle(w, drive, cap, check);
            end.out.pwrEn && HasError(end.mode)
            <==> w.out.pwrEn && HasError(end.mode) && (Init in w.mode || Slave in w.mode)
  {
  }
}
