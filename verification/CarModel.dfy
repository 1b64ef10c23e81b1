/**
 The simulated car of the cluster demo (2d-wow-cluster-demo/src/app_cl_carmodel.c): speed sweeps up and
 down with pauses, and the gear box keeps the engine speed in its band. Speeds are in twentieths of a
 km/h, so that a step of 0.95 km/h is exact.
 */
module CarModel {

  const STEP: int := 19
  const SPEED_MAX: int := 4800
  const SPEED_MIN: int := 200
  const SPEED_MID: int := 1000
  const PAUSE: nat := 100
  const RPM_MAX: nat := 8000
  const RPM_MIN: nat := 100
  const GEAR_DOWN_RPM: nat := 2700
  const GEAR_UP_RPM: nat := 5500
  const GEAR_MAX: nat := 5
  const GEAR_MIN: nat := 1

  /** Speeds whose product with any translation fits the 16-bit engine speed. */
  const FITS: int := 6553

  /** `wait` is the static counter of locUpdateSpeed. */
  datatype Car = Car(rpm: nat, speed: int, gear: nat, direction: int, wait: nat)

  /** locGearTrans. */
  function Translation(gear: nat): nat
    requires gear <= GEAR_MAX
  {
    if gear <= 1 then 200 else if gear == 2 then 150 else if gear == 3 then 100 else if gear == 4 then 50 else 25
  }

  /** Engine speed, its fraction cut off as by the conversion to `uint16_t`. */
  function Rpm(speed: int, gear: nat): nat
    requires 0 <= speed && gear <= GEAR_MAX
  {
    speed * Translation(gear) / 20
  }

  /** States on which the C code is defined: no index or conversion out of range. */
  predicate Defined(s: Car) { 0 <= s.speed <= FITS && s.gear <= GEAR_MAX }

  // ---- one tick

  predicate Pausing(speed: int) {
    speed <= SPEED_MIN || SPEED_MID <= speed < SPEED_MID + STEP || speed >= SPEED_MAX
  }

  function SpeedStep(s: Car): Car {
    if Pausing(s.speed) && s.wait < PAUSE - 1 then s.(wait := s.wait + 1) else
      var wait := if Pausing(s.speed) && s.wait < PAUSE then 0 else s.wait;
      var speed := s.speed + STEP * s.direction;
      if speed > SPEED_MAX then s.(wait := wait, speed := SPEED_MAX, direction := -1)
      else if speed <= SPEED_MIN then s.(wait := wait, speed := SPEED_MIN, direction := 1)
      else s.(wait := wait, speed := speed)
  }

  /** One pass of the loop that sets engine speed and gear. */
  function Pass(s: Car): (p: Car)
    requires Defined(s)
    ensures Defined(p)
  {
    var rpm := Rpm(s.speed, s.gear);
    var gear :=
      if rpm > GEAR_UP_RPM && s.direction > 0 then (if s.gear < GEAR_MAX then s.gear + 1 else s.gear)
      else if rpm < GEAR_DOWN_RPM && s.direction < 0 && s.gear > GEAR_MIN then s.gear - 1
      else s.gear;
    s.(rpm := Rpm(s.speed, gear), gear := gear)
  }

  predicate InRange(s: Car) { RPM_MIN <= s.rpm <= RPM_MAX }

  function Passes(s: Car, n: nat): (p: Car)
    requires Defined(s)
    ensures Defined(p)
    decreases n
  {
    if n == 0 then s else Passes(Pass(s), n - 1)
  }

  // ---- when the loop ends

  /** Shifting can still bring the engine speed into range, or it is there. */
  predicate CanSettle(s: Car)
    requires Defined(s)
  {
    var lowest := if s.direction < 0 then Rpm(s.speed, GEAR_MIN) else Rpm(s.speed, s.gear);
    var highest := if s.direction > 0 then Rpm(s.speed, GEAR_MAX) else Rpm(s.speed, s.gear);
    lowest >= RPM_MIN && highest <= RPM_MAX
  }

  /** The number of passes still possible, at most. */
  function ShiftsLeft(s: Car): nat {
    if s.direction > 0 then (if s.gear <= GEAR_MAX then GEAR_MAX - s.gear else 0) else s.gear
  }

  lemma HigherGearIsSlower(speed: int, gear: nat, gear': nat)
    requires 0 <= speed && gear <= gear' <= GEAR_MAX
    ensures Rpm(speed, gear') <= Rpm(speed, gear)
  {
    assert speed * 25 <= speed * 50 <= speed * 100 <= speed * 150 <= speed * 200;
  }

  /** A neighbouring gear at most doubles or halves the engine speed. */
  lemma NeighbourGear(speed: int, gear: nat)
    requires 0 <= speed && gear < GEAR_MAX
    ensures Rpm(speed, gear) <= 2 * Rpm(speed, gear + 1) + 1
  {
  }

  /** A pass keeps the outlook; a pass that misses the range shifts a gear or is all that ever happens. */
  lemma PassKeepsOutlook(s: Car)
    requires Defined(s)
    ensures InRange(Pass(s)) ==> CanSettle(s)
    ensures !InRange(Pass(s)) ==> (CanSettle(Pass(s)) <==> CanSettle(s))
    ensures !InRange(Pass(s)) && CanSettle(s) ==> ShiftsLeft(Pass(s)) < ShiftsLeft(s)
  {
    HigherGearIsSlower(s.speed, s.gear, GEAR_MAX);
    HigherGearIsSlower(s.speed, if s.gear < GEAR_MIN then s.gear else GEAR_MIN, s.gear);
    if s.gear < GEAR_MAX { NeighbourGear(s.speed, s.gear); }
    if s.gear > 0 { NeighbourGear(s.speed, s.gear - 1); }
  }

  /** The state in which the loop ends. */
  function Settle(s: Car): (p: Car)
    requires Defined(s) && CanSettle(s)
    ensures Defined(p) && InRange(p)
    ensures p.speed == s.speed && p.direction == s.direction && p.wait == s.wait
    ensures p.rpm == Rpm(p.speed, p.gear)
    decreases ShiftsLeft(s)
  {
    PassKeepsOutlook(s);
    if InRange(Pass(s)) then Pass(s) else Settle(Pass(s))
  }

  lemma {:induction false} SettleIsAPass(s: Car) returns (n: nat)
    requires Defined(s) && CanSettle(s)
    ensures n > 0 && Passes(s, n) == Settle(s)
    decreases ShiftsLeft(s)
  {
    PassKeepsOutlook(s);
    if InRange(Pass(s)) {
      n := 1;
      assert Passes(Pass(s), 0) == Pass(s);
    } else {
      var m := SettleIsAPass(Pass(s));
      n := m + 1;
    }
  }

  lemma {:induction false} NeverInRange(s: Car, n: nat)
    requires Defined(s) && !CanSettle(s)
    ensures !InRange(Passes(s, n + 1))
    decreases n
  {
    PassKeepsOutlook(s);
    if n > 0 {
      NeverInRange(Pass(s), n - 1);
    } else {
      assert Passes(Pass(s), 0) == Pass(s);
    }
  }

  /** The loop ends exactly on the states from which shifting in the driving direction can help. */
  lemma LoopEndsExactly(s: Car)
    requires Defined(s)
    ensures (exists n: nat :: n > 0 && InRange(Passes(s, n))) <==> CanSettle(s)
  {
    if CanSettle(s) {
      var n := SettleIsAPass(s);
      assert InRange(Passes(s, n));
    } else {
      forall n: nat | n > 0 ensures !InRange(Passes(s, n)) { NeverInRange(s, n - 1); }
    }
  }

  /** Braking in first gear above 8000 rpm, the loop would never end. */
  lemma BrakingTooFastLoops(n: nat)
    ensures !InRange(Passes(Car(0, 1000, 1, -1, 0), n + 1))
  {
    NeverInRange(Car(0, 1000, 1, -1, 0), n);
  }

  // ---- runs

  predicate Initial(s: Car) {
    s.speed == 600 && s.gear == 1 && s.direction == 1 && s.wait < PAUSE
  }

  /** What holds after every tick: the gear suits the speed, and everything is in its range. */
  predicate Cruising(s: Car) {
    SPEED_MIN <= s.speed <= SPEED_MAX && GEAR_MIN <= s.gear <= GEAR_MAX && s.wait < PAUSE
    && (s.direction == 1 || s.direction == -1)
    && s.rpm == Rpm(s.speed, s.gear) && RPM_MIN <= s.rpm <= 6000
    && (s.gear == GEAR_MAX || s.rpm <= GEAR_UP_RPM)
    && (s.gear == GEAR_MIN || s.rpm >= GEAR_DOWN_RPM)
  }

  lemma SpeedStepIsSmall(s: Car)
    requires Initial(s) || Cruising(s)
    ensures var t := SpeedStep(s);
            SPEED_MIN <= t.speed <= SPEED_MAX && s.speed - STEP <= t.speed <= s.speed + STEP
            && (t.direction == 1 || t.direction == -1) && t.wait < PAUSE
            && t.gear == s.gear && t.rpm == s.rpm
            && (t.direction == s.direction || t.speed == if t.direction > 0 then SPEED_MIN else SPEED_MAX)
            && (t.direction > 0 ==> t.speed >= s.speed || t.speed == SPEED_MIN)
            && (t.direction < 0 ==> t.speed <= s.speed || t.speed == SPEED_MAX)
  {
  }

  /** Speeding up from a fitting gear, at most one shift up is due. */
  lemma SpeedingUpCruises(t: Car, speed: int)
    requires SPEED_MIN <= speed <= SPEED_MAX && GEAR_MIN <= t.gear <= GEAR_MAX && t.wait < PAUSE
    requires t.direction == 1 && (speed <= t.speed <= speed + STEP || t.speed == SPEED_MIN) && t.speed <= SPEED_MAX
    requires t.gear == GEAR_MAX || Rpm(speed, t.gear) <= 6000
    requires t.gear == GEAR_MIN || Rpm(speed, t.gear) >= GEAR_DOWN_RPM
    requires t.speed == SPEED_MIN ==> speed <= SPEED_MIN + STEP
    ensures Cruising(Pass(t))
  {
    if t.gear == 1 {
    } else if t.gear == 2 {
    } else if t.gear == 3 {
    } else if t.gear == 4 {
    }
  }

  lemma SlowingDownCruises(t: Car, speed: int)
    requires SPEED_MIN <= speed <= SPEED_MAX && GEAR_MIN <= t.gear <= GEAR_MAX && t.wait < PAUSE
    requires t.direction == -1 && (speed - STEP <= t.speed <= speed || t.speed == SPEED_MAX) && t.speed >= SPEED_MIN
    requires t.gear == GEAR_MAX || Rpm(speed, t.gear) <= GEAR_UP_RPM
    requires t.gear == GEAR_MIN || Rpm(speed, t.gear) >= GEAR_DOWN_RPM
    requires t.speed == SPEED_MAX ==> speed >= SPEED_MAX - STEP
    ensures Cruising(Pass(t))
  {
    if t.gear == 1 {
    } else if t.gear == 2 {
    } else if t.gear == 3 {
    } else if t.gear == 4 {
    }
  }

  /** The next tick needs one pass of the loop, and keeps the ranges. */
  lemma TickCruises(s: Car)
    requires Initial(s) || Cruising(s)
    ensures Defined(SpeedStep(s)) && CanSettle(SpeedStep(s))
    ensures Settle(SpeedStep(s)) == Pass(SpeedStep(s))
    ensures Cruising(Pass(SpeedStep(s)))
  {
    SpeedStepIsSmall(s);
    var t := SpeedStep(s);
    if t.direction > 0 { SpeedingUpCruises(t, s.speed); } else { SlowingDownCruises(t, s.speed); }
    assert Cruising(Pass(t));
    PassKeepsOutlook(t);
  }

  function Tick(s: Car): (t: Car)
    requires Initial(s) || Cruising(s)
    ensures Cruising(t)
  {
    TickCruises(s);
    Pass(SpeedStep(s))
  }

  function Ticks(s: Car, n: nat): (t: Car)
    requires Initial(s) || Cruising(s)
    ensures n > 0 ==> Cruising(t)
    ensures n == 0 ==> t == s
    decreases n
  {
    if n == 0 then s else Ticks(Tick(s), n - 1)
  }

  /** One tick in numbers: engine speed and gear follow the new speed at the thresholds of 5500 and 2700 rpm. */
  lemma TickShifts(s: Car)
    requires Initial(s) || Cruising(s)
    ensures var t, table := Tick(s), [200, 200, 150, 100, 50, 25];
            var rpm := t.speed * table[s.gear] / 20;
            && t.gear == (if rpm > 5500 && t.direction > 0 && s.gear < 5 then s.gear + 1
                          else if rpm < 2700 && t.direction < 0 && s.gear > 1 then s.gear - 1 else s.gear)
            && t.rpm == t.speed * table[t.gear] / 20
  {
  }

  /** Outside its pauses the car moves by 0.95 km/h in its direction, and turns at 240 and 10 km/h. */
  lemma TickMoves(s: Car)
    requires (Initial(s) || Cruising(s)) && 200 < s.speed < 4800 && !(1000 <= s.speed < 1019)
    ensures var t, next := Tick(s), if s.direction > 0 then s.speed + 19 else s.speed - 19;
            && t.speed == (if next > 4800 then 4800 else if next < 200 then 200 else next) && t.wait == s.wait
            && t.direction == (if next > 4800 then -1 else if next <= 200 then 1 else s.direction)
  {
    SpeedStepIsSmall(s);
  }

  /** At 10, 50 and 240 km/h it pauses for 100 ticks, of which `s.wait` are over. */
  lemma {:induction false} Pauses(s: Car, n: nat)
    requires Cruising(s) && (s.speed == 200 || 1000 <= s.speed < 1019 || s.speed == 4800) && s.wait + n <= 100
    ensures s.wait + n < 100 ==> Ticks(s, n) == s.(wait := s.wait + n)
    ensures s.wait + n == 100 ==>
              Ticks(s, n).wait == 0
              && (Ticks(s, n).speed != s.speed || Ticks(s, n).direction != s.direction)
    decreases n
  {
    if n > 0 {
      if s.wait < 99 {
        assert Tick(s) == s.(wait := s.wait + 1);
        Pauses(Tick(s), n - 1);
      } else {
        assert Ticks(Tick(s), 0) == Tick(s);
      }
    }
  }

  /** The ticks until the direction changes, at most. */
  function TicksToTurn(s: Car): int {
    6 * (if s.direction > 0 then SPEED_MAX - s.speed else s.speed - SPEED_MIN) + PAUSE - s.wait
  }

  lemma TurnComesCloser(s: Car)
    requires Initial(s) || Cruising(s)
    ensures var t := Tick(s);
            if t.direction == s.direction then 0 < TicksToTurn(t) < TicksToTurn(s)
            else t.speed == if t.direction < 0 then SPEED_MAX else SPEED_MIN
  {
    SpeedStepIsSmall(s);
  }

  /** No pause lasts: the car turns around at the end of its speed range, again and again. */
  lemma {:induction false} AlwaysTurns(s: Car) returns (n: nat)
    requires Initial(s) || Cruising(s)
    ensures 0 < n <= TicksToTurn(s) <= 27700
    ensures Ticks(s, n).direction == -s.direction
    ensures Ticks(s, n).speed == if s.direction > 0 then SPEED_MAX else SPEED_MIN
    decreases TicksToTurn(s)
  {
    TurnComesCloser(s);
    if Tick(s).direction == s.direction {
      var m := AlwaysTurns(Tick(s));
      n := m + 1;
    } else {
      n := 1;
      assert Ticks(Tick(s), 0) == Tick(s);
    }
  }

  // ---- the car

  class CarData {
    var rpm: nat
    var speed: int
    var gear: nat
    var direction: int
    var wait: nat

    function View(): Car reads this { Car(rpm, speed, gear, direction, wait) }

    constructor ()
      ensures View() == Car(0, 0, 0, 0, 0)
    {
      rpm, speed, gear, direction, wait := 0, 0, 0, 0, 0;
    }

    method InitCarModel()
      requires wait < PAUSE
      modifies this
      ensures View() == Car(25, 600, 1, 1, old(wait)) && Initial(View())
    {
      speed := 600;
      rpm := 25;
      gear := 1;
      direction := 1;
    }

    /** `locUpdateSpeed` */
    method UpdateSpeed()
      modifies this
      ensures View() == SpeedStep(old(View()))
    {
      if (speed <= SPEED_MIN || (speed >= SPEED_MID && speed < SPEED_MID + STEP) || speed >= SPEED_MAX)
         && wait < PAUSE {
        wait := wait + 1;
        if wait < PAUSE { return; }
        wait := 0;
      }
      speed := speed + STEP * direction;
      if speed > SPEED_MAX {
        speed := SPEED_MAX;
        direction := -1;
      } else if speed <= SPEED_MIN {
        speed := SPEED_MIN;
        direction := 1;
      }
    }

    /** `locUpdateRpm`: ends on every state from which its loop can end. */
    method UpdateRpm()
      requires Defined(View()) && CanSettle(View())
      modifies this
      ensures View() == Settle(old(View()))
    {
      while true
        invariant Defined(View()) && CanSettle(View()) && Settle(View()) == Settle(old(View()))
        decreases ShiftsLeft(View())
      {
        ghost var before := View();
        PassKeepsOutlook(before);
        rpm := speed * Translation(gear) / 20;
        if rpm > GEAR_UP_RPM && direction > 0 {
          if gear < GEAR_MAX {
            gear := gear + 1;
            rpm := speed * Translation(gear) / 20;
          }
        } else if rpm < GEAR_DOWN_RPM && direction < 0 {
          if gear > GEAR_MIN {
            gear := gear - 1;
            rpm := speed * Translation(gear) / 20;
          }
        }
        assert View() == Pass(before);
        if !(rpm > RPM_MAX || rpm < RPM_MIN) { break; }
      }
    }

    /** The part of `CarModelUpdate` that moves the car. */
    method CarModelUpdate()
      requires Initial(View()) || Cruising(View())
      modifies this
      ensures View() == Tick(old(View())) && Cruising(View())
    {
      TickCruises(View());
      UpdateSpeed();
      UpdateRpm();
    }
  }
}
