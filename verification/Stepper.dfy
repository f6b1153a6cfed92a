/** The pan-tilt driver: two stepper motors moved by a timer, one coil pattern a tick. */
module Stepper {
  import opened Arithmetic

  const FORWARD := 1

  /** stMotorCtrl. */
  datatype Motor = Motor(enable: int, dir: int, steps: int)

  const STOPPED := Motor(0, 0, 0)

  /** One motor with its place in the four patterns of a step and its four lines. */
  datatype Axis = Axis(motor: Motor, phase: nat, idle: bool, lines: seq<bool>)

  datatype State = State(running: bool, armed: bool, x: Axis, y: Axis)

  const LOW: seq<bool> := [false, false, false, false]
  const STILL := Axis(STOPPED, 0, false, LOW)
  const INITIAL := State(false, false, STILL, STILL)

  /** iForewardTiming and iBackwardTiming. */
  const FORWARD_TIMING: seq<int> := [3, 6, 12, 9]
  const BACKWARD_TIMING: seq<int> := [9, 12, 6, 3]

  /** The four lines of a pattern. */
  function Bits(v: int): (r: seq<bool>)
    ensures |r| == 4
  {
    [And(v, 1) != 0, And(v, 2) != 0, And(v, 4) != 0, And(v, 8) != 0]
  }

  function Pattern(dir: int, phase: nat): seq<bool>
    requires phase < 4
  {
    Bits(if dir == FORWARD then FORWARD_TIMING[phase] else BACKWARD_TIMING[phase])
  }

  // ----- The machine

  datatype Event = Tick | RunBoth(x: Motor, y: Motor) | StopBoth | Other

  /** A motor without steps left is switched off. */
  function Expire(a: Axis): Axis {
    if a.motor.steps <= 0 then a.(motor := a.motor.(enable := 0)) else a
  }

  /** An axis that is on shows its next pattern; after the fourth a step is done. */
  function Energise(a: Axis): (r: Axis)
    requires a.phase < 4
    ensures !r.idle
  {
    var last := a.phase >= 3;
    var m := if last && a.motor.steps != 0 then a.motor.(steps := a.motor.steps - 1) else a.motor;
    Axis(m, if last then 0 else a.phase + 1, false, Pattern(a.motor.dir, a.phase))
  }

  /** An axis that is off takes its lines down once. */
  function Relax(a: Axis): Axis {
    a.(phase := 0, idle := true, lines := if a.idle then a.lines else LOW)
  }

  function Move(a: Axis): Axis
    requires a.phase < 4
  {
    if a.motor.enable != 0 then Energise(a) else Relax(a)
  }

  ghost predicate Phased(s: State) {
    s.x.phase < 4 && s.y.phase < 4 && |s.x.lines| == |s.y.lines| == 4
  }

  /** hi_ptz_running, when the timer fires. */
  function Ticked(s: State): State
    requires Phased(s)
  {
    var x, y := Expire(s.x), Expire(s.y);
    if s.running && (x.motor.enable != 0 || y.motor.enable != 0)
    then State(true, s.armed, Move(x), Move(y))
    else State(false, false, Relax(Off(x)), Relax(Off(y)))
  }

  function Off(a: Axis): Axis { a.(motor := a.motor.(enable := 0)) }

  function Load(a: Axis, m: Motor): Axis { if m.enable != 0 then a.(motor := m) else a }

  function Step(s: State, e: Event): State
    requires Phased(s)
  {
    match e
    case Tick => if s.armed then Ticked(s) else s
    case RunBoth(x, y) => State(s.running || x.enable != 0 || y.enable != 0, true, Load(s.x, x), Load(s.y, y))
    case StopBoth => State(false, true, s.x.(motor := STOPPED), s.y.(motor := STOPPED))
    case Other => s.(armed := true)
  }

  /** How many more ticks the axis is energised for if nothing disturbs it. */
  function Left(a: Axis): int {
    if a.motor.enable != 0 && a.motor.steps > 0 then 4 * a.motor.steps - a.phase else 0
  }

  /** Kept over every interleaving: while anything is left to do the machine runs, while it runs the
      timer is armed, and without the timer all lines are low. */
  ghost predicate Safe(s: State) {
    && Phased(s) && (s.running ==> s.armed) && (Left(s.x) > 0 || Left(s.y) > 0 ==> s.running)
    && (s.x.idle ==> s.x.lines == LOW) && (s.y.idle ==> s.y.lines == LOW)
    && (!s.armed ==> Resting(s.x) && Resting(s.y))
  }

  ghost predicate Resting(a: Axis) {
    a.motor.enable == 0 && a.phase == 0 && a.lines == LOW
  }

  /** What is decided for an axis before its lines are driven: with the machine `on`, an axis that is on
      shows its pattern; else its phase is reset, and with the machine off it is switched off. */
  predicate Decided(a: Axis, on: bool, m: Motor, phase: nat, run: bool, values: seq<bool>)
    requires a.phase < 4
  {
    && run == (on && a.motor.enable != 0)
    && if run then m == Energise(a).motor && phase == Energise(a).phase && values == Energise(a).lines
       else phase == 0 && m == if on then a.motor else a.motor.(enable := 0)
  }

  lemma Shown(a: Axis, on: bool, m: Motor, phase: nat, run: bool, values: seq<bool>, r: Axis)
    requires a.phase < 4 && Decided(a, on, m, phase, run, values)
    requires r == Axis(m, phase, !run, if run then values else if a.idle then a.lines else LOW)
    ensures r == if on then Move(a) else Relax(Off(a))
  {
    hide Bits, Pattern;
  }

  lemma TickedIs(s: State, r: State)
    requires Phased(s)
    requires var x, y := Expire(s.x), Expire(s.y);
             if s.running && (x.motor.enable != 0 || y.motor.enable != 0)
             then r == State(true, s.armed, Move(x), Move(y))
             else r == State(false, false, Relax(Off(x)), Relax(Off(y)))
    ensures r == Ticked(s)
  {
  }

  lemma SafePhases(s: State)
    requires Safe(s)
    ensures Phased(s)
  {
  }

  lemma StepSafe(s: State, e: Event)
    requires Safe(s)
    ensures Safe(Step(s, e))
  {
    hide Bits;
  }

  // ----- What requests do

  /** The places in the pattern and the lines are as they were. */
  predicate LinesKept(a: Axis, b: Axis) { b.phase == a.phase && b.idle == a.idle && b.lines == a.lines }

  /** A run request replaces the command of each axis it enables, leaves the other axis alone, moves
      nothing by itself, and sees to it that the timer will. */
  lemma RunLoads(s: State, x: Motor, y: Motor)
    requires Safe(s)
    ensures var t := Step(s, RunBoth(x, y));
            && t.armed && (t.running <==> s.running || x.enable != 0 || y.enable != 0)
            && LinesKept(s.x, t.x) && t.x.motor == (if x.enable != 0 then x else s.x.motor)
            && LinesKept(s.y, t.y) && t.y.motor == (if y.enable != 0 then y else s.y.motor)
  {
  }

  /** A request that cannot be read, or is unknown, only starts the timer. */
  lemma OtherArms(s: State)
    requires Safe(s)
    ensures Step(s, Other).armed && Step(s, Other).(armed := s.armed) == s
  {
  }

  /** A stop request leaves nothing to do, and the next tick takes all lines down and disarms the timer. */
  lemma StopRests(s: State)
    requires Safe(s)
    ensures var t := Step(s, StopBoth);
            && !t.running && t.armed && LinesKept(s.x, t.x) && LinesKept(s.y, t.y)
            && t.x.motor == Motor(0, 0, 0) && t.y.motor == Motor(0, 0, 0)
            && var u := Step(t, Tick);
            && !u.running && !u.armed && Resting(u.x) && Resting(u.y)
            && u.x.lines == u.y.lines == [false, false, false, false]
  {
    hide Bits;
  }

  // ----- How long a run takes

  /** A tick seen from one axis: the axes do not disturb each other. */
  function AxisTick(a: Axis): Axis
    requires a.phase < 4
  {
    if Left(a) > 0 then Energise(a) else Relax(Off(a))
  }

  lemma AxesTick(s: State)
    requires Safe(s) && s.armed
    ensures Ticked(s).x == AxisTick(s.x) && Ticked(s).y == AxisTick(s.y)
    ensures Ticked(s).armed <==> Left(s.x) > 0 || Left(s.y) > 0
  {
    hide Bits;
  }

  function Ticks(s: State, n: nat): (r: State)
    requires Safe(s)
    ensures Safe(r)
    decreases n
  {
    if n == 0 then s else StepSafe(s, Tick); Ticks(Step(s, Tick), n - 1)
  }

  function Max(i: int, j: int): int { if i < j then j else i }

  /** What `n` undisturbed ticks make of an axis: it is energised for exactly Left of them, pattern after
      pattern, and its lines are low from then on. */
  ghost predicate Progress(a: Axis, b: Axis, n: nat) {
    && a.phase < 4 && Left(b) == Max(0, Left(a) - n)
    && (1 <= n <= Left(a) ==> b.lines == Pattern(a.motor.dir, (a.phase + n + 3) % 4) != LOW)
    && (n > Left(a) ==> Resting(b))
  }

  lemma AxisProgress(a: Axis, b: Axis, n: nat)
    requires a.phase < 4 && (a.idle ==> a.lines == LOW) && Progress(AxisTick(a), b, n)
    requires n == 0 ==> b == AxisTick(a)
    ensures Progress(a, b, n + 1)
  {
    hide Bits, Pattern;
    PatternResidue(a.motor.dir, a.phase);
    PhaseSum(a.phase, n);
  }

  lemma PhaseSum(phase: nat, n: nat)
    requires phase < 4
    ensures ((if phase >= 3 then 0 else phase + 1) + n + 3) % 4 == (phase + n) % 4
  {
  }

  /** The whole run: each axis keeps its own length, and the timer is disarmed, with every line low, by
      the tick after the longer of the two. */
  lemma {:induction false} RunLength(s: State, n: nat)
    requires Safe(s) && s.armed
    ensures var t := Ticks(s, n);
            && Progress(s.x, t.x, n) && Progress(s.y, t.y, n)
            && (t.armed <==> n <= Max(Left(s.x), Left(s.y)))
            && (!t.armed ==> Resting(t.x) && Resting(t.y))
    decreases n
  {
    hide Bits, Pattern, Progress;
    if n == 0 {
      NoProgress(s.x);
      NoProgress(s.y);
    } else {
      var t := Step(s, Tick);
      StepSafe(s, Tick);
      AxesTick(s);
      if t.armed {
        RunLength(t, n - 1);
      } else {
        Disarmed(t, n - 1);
      }
      AxisProgress(s.x, Ticks(t, n - 1).x, n - 1);
      AxisProgress(s.y, Ticks(t, n - 1).y, n - 1);
    }
  }

  lemma NoProgress(a: Axis)
    requires a.phase < 4
    ensures Progress(a, a, 0)
  {
  }

  lemma {:induction false} Disarmed(s: State, n: nat)
    requires Safe(s) && !s.armed
    ensures Ticks(s, n) == s && Progress(s.x, s.x, n) && Progress(s.y, s.y, n)
    decreases n
  {
    if n > 0 { Disarmed(s, n - 1); }
  }

  // ----- Where the rotor is

  /** The residue of a pattern: 3, 6, 12, 9 in the forward order. */
  function Residue(lines: seq<bool>): (r: nat)
    ensures r < 4
  {
    if lines == Bits(3) then 0 else if lines == Bits(6) then 1 else if lines == Bits(12) then 2 else 3
  }

  /** The rotor follows the energised coils by the shorter way; without current it stays. */
  function Follow(p: int, lines: seq<bool>): int {
    var d := (Residue(lines) - p) % 4;
    if lines == LOW then p else if d == 3 then p - 1 else p + d
  }

  /** The rotor's unwrapped position, and the signed steps asked for so far. */
  datatype Rotor = Rotor(position: int, asked: int)

  function Signed(m: Motor): int {
    if m.steps <= 0 then 0 else if m.dir == FORWARD then m.steps else -m.steps
  }

  /** What an event does to the rotor of an axis that carries out `m` when told to, and ends with `lines`. */
  function Turn(r: Rotor, e: Event, m: Motor, lines: seq<bool>): Rotor {
    match e
    case Tick => r.(position := Follow(r.position, lines))
    case RunBoth(_, _) => if m.enable != 0 then r.(asked := r.asked + Signed(m)) else r
    case _ => r
  }

  /** One axis, by itself, through an event. */
  function AxisStep(a: Axis, e: Event, m: Motor, armed: bool): Axis
    requires a.phase < 4
  {
    match e
    case Tick => if armed then AxisTick(a) else a
    case RunBoth(_, _) => Load(a, m)
    case StopBoth => a.(motor := STOPPED)
    case Other => a
  }

  /** The commands for the axis meet it with its run completed. */
  predicate Waits(a: Axis, e: Event, m: Motor) {
    (e.RunBoth? && m.enable != 0) || e.StopBoth? ==> Left(a) == 0
  }

  /** The rotor at the `k`-th pattern of a step that began at the end of whole step `b`. */
  predicate Between(p: int, b: int, dir: int, k: nat) {
    if k == 0 then p == 4 * b || p == 4 * b - 1
    else if dir == FORWARD then p == 4 * b + k - 1 else p == 4 * b - k
  }

  /** Position and commands agree: what is left of the current run is all that is missing. */
  predicate Tracked(a: Axis, r: Rotor) {
    && a.phase < 4
    && if Left(a) > 0 then Between(r.position, r.asked - Signed(a.motor), a.motor.dir, a.phase)
       else a.phase == 0 && Between(r.position, r.asked, FORWARD, 0)
  }

  lemma BitsAre()
    ensures Bits(3) == [true, true, false, false] && Bits(6) == [false, true, true, false]
    ensures Bits(12) == [false, false, true, true] && Bits(9) == [true, false, false, true]
  {
  }

  /** Which lines are high in the four patterns of a step: forward two neighbours at a time, moving up by
      one; backward the same patterns in the opposite order. */
  lemma Patterns()
    ensures [Pattern(1, 0), Pattern(1, 1), Pattern(1, 2), Pattern(1, 3)] ==
            [[true, true, false, false], [false, true, true, false],
             [false, false, true, true], [true, false, false, true]]
    ensures forall dir, k :: dir != 1 && 0 <= k < 4 ==> Pattern(dir, k) == Pattern(1, 3 - k)
  {
    hide Bits;
    BitsAre();
  }

  lemma Residues()
    ensures Residue(Bits(3)) == 0 && Residue(Bits(6)) == 1 && Residue(Bits(12)) == 2 && Residue(Bits(9)) == 3
    ensures LOW !in {Bits(3), Bits(6), Bits(12), Bits(9)}
  {
    hide Bits;
    BitsAre();
    assert !Bits(3)[2] && Bits(6)[2] && !Bits(12)[0] && Bits(9)[0] && !Bits(9)[1] && Bits(3)[1] && Bits(12)[2];
  }

  /** The patterns of a step, read as residues. */
  lemma PatternResidue(dir: int, k: nat)
    requires k < 4
    ensures Pattern(dir, k) != LOW && Residue(Pattern(dir, k)) == if dir == FORWARD then k else 3 - k
  {
    hide Bits, Residue;
    Residues();
  }

  /** One energised tick turns the rotor by one quarter step at most. */
  lemma PatternTurns(p: int, b: int, dir: int, k: nat)
    requires k < 4 && Between(p, b, dir, k)
    ensures var q := Follow(p, Pattern(dir, k));
            && -1 <= q - p <= 1
            && q == (if dir == FORWARD then 4 * b + k else 4 * b - k - 1)
  {
    hide Pattern, Residue;
    PatternResidue(dir, k);
  }

  lemma AxisTracked(a: Axis, e: Event, m: Motor, armed: bool, r: Rotor)
    requires Tracked(a, r) && Waits(a, e, m) && (a.idle ==> a.lines == LOW) && (!armed ==> Resting(a))
    ensures var a' := AxisStep(a, e, m, armed);
            Tracked(a', Turn(r, e, m, a'.lines))
  {
    hide Pattern, Follow;
    if e.Tick? && Left(a) > 0 {
      PatternTurns(r.position, r.asked - Signed(a.motor), a.motor.dir, a.phase);
    }
    StaysWithoutCurrent(r.position);
  }

  /** The axis of the whole machine does the same. */
  lemma AxisAlone(s: State, e: Event)
    requires Safe(s)
    ensures Step(s, e).x == AxisStep(s.x, e, if e.RunBoth? then e.x else STOPPED, s.armed)
    ensures Step(s, e).y == AxisStep(s.y, e, if e.RunBoth? then e.y else STOPPED, s.armed)
  {
    hide Ticked, Energise, Relax;
    if s.armed { AxesTick(s); }
  }

  datatype Rig = Rig(state: State, x: Rotor, y: Rotor)

  function ForX(e: Event): Motor { if e.RunBoth? then e.x else STOPPED }
  function ForY(e: Event): Motor { if e.RunBoth? then e.y else STOPPED }

  function Play(g: Rig, e: Event): Rig
    requires Phased(g.state)
  {
    var s := Step(g.state, e);
    Rig(s, Turn(g.x, e, ForX(e), s.x.lines), Turn(g.y, e, ForY(e), s.y.lines))
  }

  function Played(g: Rig, es: seq<Event>): (r: Rig)
    requires Safe(g.state)
    ensures Safe(r.state)
    decreases |es|
  {
    if es == [] then g else StepSafe(g.state, es[0]); Played(Play(g, es[0]), es[1..])
  }

  /** Throughout the run every command that concerns the axis waits for the axis to be done. */
  ghost predicate Patient(g: Rig, es: seq<Event>, forX: bool)
    requires Safe(g.state)
    decreases |es|
  {
    es == [] ||
    (&& (if forX then Waits(g.state.x, es[0], ForX(es[0])) else Waits(g.state.y, es[0], ForY(es[0])))
     && (StepSafe(g.state, es[0]); Patient(Play(g, es[0]), es[1..], forX)))
  }

  const START := Rig(INITIAL, Rotor(0, 0), Rotor(0, 0))

  function Ceil4(p: int): int { (p + 3) / 4 }

  lemma {:induction false} StaysTracked(g: Rig, es: seq<Event>, forX: bool)
    requires Safe(g.state) && Patient(g, es, forX) &&
             (if forX then Tracked(g.state.x, g.x) else Tracked(g.state.y, g.y))
    ensures var r := Played(g, es);
            if forX then Tracked(r.state.x, r.x) else Tracked(r.state.y, r.y)
    decreases |es|
  {
    hide Step, Tracked, Turn, Waits, AxisStep;
    if es != [] {
      StepSafe(g.state, es[0]);
      AxisAlone(g.state, es[0]);
      if forX {
        AxisTracked(g.state.x, es[0], ForX(es[0]), g.state.armed, g.x);
      } else {
        AxisTracked(g.state.y, es[0], ForY(es[0]), g.state.armed, g.y);
      }
      StaysTracked(Play(g, es[0]), es[1..], forX);
    }
  }

  /** No drift: from the start, through any interleaving of ticks and commands that lets each run of the
      axis complete, whenever the axis is done its whole steps are exactly the signed sum of those asked for. */
  lemma NoDrift(es: seq<Event>, forX: bool)
    requires Patient(START, es, forX)
    ensures var g := Played(START, es);
            var a, r := if forX then g.state.x else g.state.y, if forX then g.x else g.y;
            Left(a) == 0 ==> Ceil4(r.position) == r.asked
  {
    StaysTracked(START, es, forX);
  }

  lemma StaysWithoutCurrent(p: int)
    ensures Follow(p, LOW) == p
  {
  }

  // ----- The driver's code

  datatype Command = Run(x: Motor, y: Motor) | Stop | Unknown

  class Driver {
    var running: bool
    var timerUse: bool
    var xMotor: Motor
    var yMotor: Motor
    var xx: nat
    var yy: nat
    var xIdle: bool
    var yIdle: bool
    var xLines: seq<bool>
    var yLines: seq<bool>

    ghost function Now(): State
      reads this
    {
      State(running, timerUse, X(), Y())
    }

    ghost function X(): Axis
      reads this
    {
      Axis(xMotor, xx, xIdle, xLines)
    }

    ghost function Y(): Axis
      reads this
    {
      Axis(yMotor, yy, yIdle, yLines)
    }

    constructor ()
      ensures Now() == INITIAL && Safe(Now())
    {
      running, timerUse, xMotor, yMotor, xx, yy, xIdle, yIdle := false, false, STOPPED, STOPPED, 0, 0, false, false;
      xLines, yLines := LOW, LOW;
    }

    /** hi_ptz_running: the timer fires. */
    method HiPtzRunning()
      requires Safe(Now()) && timerUse
      modifies this
      ensures Safe(Now()) && Now() == Step(old(Now()), Tick)
    {
      hide Bits, Energise, Safe, Ticked, Move, Relax, Off, Decided;
      ghost var was := Now();
      SafePhases(was);
      StepSafe(was, Tick);
      var xRun, xValues, yRun, yValues := Decide();
      ghost var x, y, on := Expire(was.x), Expire(was.y), running;
      DriveX(xRun, xValues);
      DriveY(yRun, yValues);
      Shown(x, on, xMotor, xx, xRun, xValues, X());
      Shown(y, on, yMotor, yy, yRun, yValues, Y());
      TickedIs(was, Now());
    }

    /** The part before the lines are driven: which motors go on, with which pattern. */
    method Decide() returns (xRun: bool, xValues: seq<bool>, yRun: bool, yValues: seq<bool>)
      requires Phased(Now())
      modifies this`running, this`timerUse, this`xMotor, this`yMotor, this`xx, this`yy
      ensures var x, y := Expire(old(X())), Expire(old(Y()));
              && running == (old(running) && (x.motor.enable != 0 || y.motor.enable != 0))
              && timerUse == (running && old(timerUse))
              && Decided(x, running, xMotor, xx, xRun, xValues) && Decided(y, running, yMotor, yy, yRun, yValues)
    {
      hide Bits, Energise;
      xRun, yRun, xValues, yValues := false, false, LOW, LOW;
      if xMotor.steps <= 0 { xMotor := xMotor.(enable := 0); }
      if yMotor.steps <= 0 { yMotor := yMotor.(enable := 0); }
      if xMotor.enable == 0 && yMotor.enable == 0 { running := false; }
      if running {
        xRun, xValues := PulseX();
        yRun, yValues := PulseY();
      } else {
        xx, yy, timerUse := 0, 0, false;
        xMotor, yMotor := xMotor.(enable := 0), yMotor.(enable := 0);
      }
    }

    /** The x motor's share of a tick: the pattern to show, if the motor is on. */
    method PulseX() returns (run: bool, values: seq<bool>)
      requires xx < 4
      modifies this`xMotor, this`xx
      ensures run <==> old(xMotor.enable) != 0
      ensures !run ==> xMotor == old(xMotor) && xx == 0
      ensures run ==> var e := Energise(old(X()));
                xMotor == e.motor && xx == e.phase && values == e.lines
    {
      hide Bits;
      run, values := false, LOW;
      if xMotor.enable != 0 {
        var timing := if xMotor.dir == FORWARD then FORWARD_TIMING else BACKWARD_TIMING;
        values := Bits(timing[xx]);
        if xx >= 3 {
          xx := 0;
          if xMotor.steps != 0 { xMotor := xMotor.(steps := xMotor.steps - 1); }
        } else {
          xx := xx + 1;
        }
        run := true;
      } else {
        xx := 0;
      }
    }

    /** The x lines: the pattern, or low as soon as the motor is off. */
    method DriveX(run: bool, values: seq<bool>)
      modifies this`xLines, this`xIdle
      ensures xIdle == !run && xLines == if run then values else if old(xIdle) then old(xLines) else LOW
    {
      if run {
        xLines := values;
        xIdle := false;
      } else {
        if !xIdle { xLines := LOW; }
        xIdle := true;
      }
    }

    /** The y motor's share of a tick: the pattern to show, if the motor is on. */
    method PulseY() returns (run: bool, values: seq<bool>)
      requires yy < 4
      modifies this`yMotor, this`yy
      ensures run <==> old(yMotor.enable) != 0
      ensures !run ==> yMotor == old(yMotor) && yy == 0
      ensures run ==> var e := Energise(old(Y()));
                yMotor == e.motor && yy == e.phase && values == e.lines
    {
      hide Bits;
      run, values := false, LOW;
      if yMotor.enable != 0 {
        var timing := if yMotor.dir == FORWARD then FORWARD_TIMING else BACKWARD_TIMING;
        values := Bits(timing[yy]);
        if yy >= 3 {
          yy := 0;
          if yMotor.steps != 0 { yMotor := yMotor.(steps := yMotor.steps - 1); }
        } else {
          yy := yy + 1;
        }
        run := true;
      } else {
        yy := 0;
      }
    }

    /** The y lines: the pattern, or low as soon as the motor is off. */
    method DriveY(run: bool, values: seq<bool>)
      modifies this`yLines, this`yIdle
      ensures yIdle == !run && yLines == if run then values else if old(yIdle) then old(yLines) else LOW
    {
      if run {
        yLines := values;
        yIdle := false;
      } else {
        if !yIdle { yLines := LOW; }
        yIdle := true;
      }
    }

    /** hi_ptz_ctrl_ioctl; `copied` says whether copy_from_user succeeded. */
    method HiPtzCtrlIoctl(command: Command, copied: bool)
      requires Safe(Now())
      modifies this
      ensures Safe(Now())
      ensures Now() == Step(old(Now()), match command
                case Run(x, y) => if copied then RunBoth(x, y) else Other
                case Stop => StopBoth
                case Unknown => Other)
    {
      hide Bits, Ticked;
      ghost var was := Now();
      match command {
        case Run(x, y) =>
          if copied {
            if x.enable != 0 {
              xMotor := x;
              running := true;
            }
            if y.enable != 0 {
              yMotor := y;
              running := true;
            }
          }
          StepSafe(was, if copied then RunBoth(x, y) else Other);
        case Stop =>
          running := false;
          xMotor, yMotor := STOPPED, STOPPED;
          StepSafe(was, StopBoth);
        case Unknown =>
          StepSafe(was, Other);
      }
      if !timerUse { timerUse := true; }
    }
  }
}
