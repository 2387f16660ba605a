/** What the commands, the controllers and the avoidance make the wheels do, in numbers and sides. */
module DriveLaws {
  import opened Common
  import opened Bits
  import opened Flags
  import opened Avoidance
  import opened Geometry
  import opened Drive
  import opened DriveSafety

  // ----- Velocities and duty cycles -----

  /** The duty cycle d is the velocity v in the characteristic of the left motor, truncated toward zero. */
  predicate TruncatesLeft(v: real, d: int) {
    if v >= 0.0133 then d >= 0 && d as real * 0.0033 + 0.0133 <= v < (d + 1) as real * 0.0033 + 0.0133
    else d <= 0 && (d - 1) as real * 0.0033 + 0.0133 < v <= d as real * 0.0033 + 0.0133
  }

  predicate TruncatesRight(v: real, d: int) {
    if v >= 0.0133 then d >= 0 && d as real * 0.0034 + 0.0133 <= v < (d + 1) as real * 0.0034 + 0.0133
    else d <= 0 && (d - 1) as real * 0.0034 + 0.0133 < v <= d as real * 0.0034 + 0.0133
  }

  /** Velocities whose duty cycle, and its negation, is a 16-bit number. */
  predicate InRange(v: real) { -100.0 < v < 100.0 }

  lemma TruncateTowardZero(x: real)
    ensures x >= 0.0 ==> 0 <= Truncate(x) && Truncate(x) as real <= x < Truncate(x) as real + 1.0
    ensures x < 0.0 ==> Truncate(x) <= 0 && Truncate(x) as real - 1.0 < x <= Truncate(x) as real
  {
  }

  lemma InInt16(n: int)
    requires -0x8000 < n < 0x8000
    ensures Int16(n) == n
  {
  }

  lemma DutyLeft(v: real)
    requires InRange(v)
    ensures TruncatesLeft(v, VelocityToDutyLeft(v)) && -0x8000 < VelocityToDutyLeft(v) < 0x8000
  {
    var x := (v - 0.0133) / 0.0033;
    assert v == x * 0.0033 + 0.0133;
    TruncateTowardZero(x);
    InInt16(Truncate(x));
    hide Int16, Truncate;
  }

  lemma DutyRight(v: real)
    requires InRange(v)
    ensures TruncatesRight(v, VelocityToDutyRight(v)) && -0x8000 < VelocityToDutyRight(v) < 0x8000
  {
    var x := (v - 0.0133) / 0.0034;
    assert v == x * 0.0034 + 0.0133;
    TruncateTowardZero(x);
    InInt16(Truncate(x));
    hide Int16, Truncate;
  }

  /** The truncation is determined; so a duty cycle comes back from its own velocity. */
  lemma DutyIsUnique(n: nat, d: int)
    ensures TruncatesLeft(n as real * 0.0033 + 0.0133, d) ==> d == n
    ensures TruncatesRight(n as real * 0.0034 + 0.0133, d) ==> d == n
  {
  }

  // ----- The velocity controller -----

  /** A tick of the velocity controller switches the motors on, each wheel with the duty cycle of its
      own target velocity. */
  lemma VelocityTick(s: State, i: Input)
    requires Exclusive(s) && s.vel.active && !s.firstTime && Ignored(i)
    requires Execute(s.vel, i.velTime) && !Execute(s.stop, i.stopTime)
    requires InRange(s.left.velocity) && InRange(s.right.velocity)
    ensures var s' := Turn(s, i);
            && s'.enabled && TruncatesLeft(s.left.velocity, s'.dutyLeft) && TruncatesRight(s.right.velocity, s'.dutyRight)
            && s'.vel.active && s'.vel.last == i.velTime
  {
    if i.command.Some? {
      RefusedCommand(s, i);
    }
    DutyLeft(s.left.velocity);
    DutyRight(s.right.velocity);
    hide HandleCommand, VelocityToDutyLeft, VelocityToDutyRight, RunTask, Elapsed, TruncatesLeft, TruncatesRight, Counts;
  }

  /** The first tick after power-up or a finished move only takes the counts; its period stays over, so
      the next turn drives. */
  lemma VelocityStarts(s: State, i: Input)
    requires Exclusive(s) && s.vel.active && s.firstTime && Ignored(i)
    requires Execute(s.vel, i.velTime) && !Execute(s.stop, i.stopTime)
    ensures var s' := Turn(s, i);
            && !s'.firstTime && s'.oldLeft == LeftCounts(s, i) && s'.oldRight == RightCounts(s, i)
            && s'.vel.active && s'.vel.last == s.vel.last
  {
    if i.command.Some? {
      RefusedCommand(s, i);
    }
    hide HandleCommand, VelocityToDutyLeft, VelocityToDutyRight, RunTask, Elapsed, Counts;
  }

  // ----- The distance controller -----

  /** A duty cycle in the direction of what remains. */
  predicate TowardsLeft(remaining: real, v: real, d: int) { TruncatesLeft(v, if remaining > 0.0 then d else -d) }

  predicate TowardsRight(remaining: real, v: real, d: int) { TruncatesRight(v, if remaining > 0.0 then d else -d) }

  /** A tick of the distance controller that does not end the move switches the motors on, each wheel
      with the duty cycle of its own target velocity, in the direction of what remains of its track. */
  lemma DistanceTick(s: State, i: Input)
    requires Exclusive(s) && s.dist.active && !s.firstTime && Ignored(i)
    requires Execute(s.dist, i.distTime) && !Execute(s.stop, i.stopTime)
    requires InRange(s.left.velocity) && InRange(s.right.velocity)
    ensures var s' := Turn(s, i);
            s'.dist.active ==>
              && s'.enabled && s'.left.velocity == s.left.velocity && s'.right.velocity == s.right.velocity
              && s'.dist == s.dist.(last := i.distTime)
              && TowardsLeft(s'.left.position, s.left.velocity, s'.dutyLeft)
              && TowardsRight(s'.right.position, s.right.velocity, s'.dutyRight)
  {
    OnlyDistance(s, i);
    DutyLeft(s.left.velocity);
    DutyRight(s.right.velocity);
    NegatedDuty(VelocityToDutyLeft(s.left.velocity));
    NegatedDuty(VelocityToDutyRight(s.right.velocity));
    hide Turn, VelocityToDutyLeft, VelocityToDutyRight, CountsToDistance, Elapsed, TruncatesLeft, TruncatesRight, Reached, Int16;
  }

  lemma NegatedDuty(d: int)
    requires -0x8000 < d < 0x8000
    ensures Int16(-1 * d) == -d
  {
  }

  lemma TurnKeepsVelocities(s: State, i: Input, o: Order)
    requires Moving(s, o) && Undisturbed(s, i)
    ensures var s' := Turn(s, i);
            s'.dist.active ==> s'.left.velocity == s.left.velocity && s'.right.velocity == s.right.velocity
  {
    OnlyDistance(s, i);
    hide Turn, VelocityToDutyLeft, VelocityToDutyRight, CountsToDistance, Elapsed, Reached;
  }

  lemma {:induction false} MoveKeepsVelocities(s: State, inputs: seq<Input>, o: Order)
    requires Moving(s, o) && AllUndisturbed(s, inputs) && NeverReached(s, inputs, o)
    ensures var s' := Run(s, inputs); s'.left.velocity == s.left.velocity && s'.right.velocity == s.right.velocity
    decreases |inputs|
  {
    if inputs == [] {
    } else {
      hide Turn, Undisturbed, Execute, OrderReached;
      var before, last := inputs[..|inputs| - 1], inputs[|inputs| - 1];
      MoveKeepsVelocities(s, before, o);
      MoveRun(s, before, o);
      MoveRun(s, inputs, o);
      TurnKeepsVelocities(Run(s, before), last, o);
    }
  }

  /** A straight move over a whole undisturbed run: every tick that does not end it drives both wheels
      at 75 percent, forward or backward as what remains of the track. */
  lemma StraightMoveDuties(s: State, inputs: seq<Input>, o: Order, i: Input)
    requires Moving(s, o) && AllUndisturbed(s, inputs) && NeverReached(s, inputs, o)
    requires s.left.velocity == 75.0 * 0.0033 + 0.0133 && s.right.velocity == 75.0 * 0.0034 + 0.0133
    requires var t := Run(s, inputs); Undisturbed(t, i) && Execute(t.dist, i.distTime)
    ensures var s' := Turn(Run(s, inputs), i);
            s'.dist.active ==>
              && s'.enabled
              && s'.dutyLeft == (if s'.left.position > 0.0 then 75 else -75)
              && s'.dutyRight == (if s'.right.position > 0.0 then 75 else -75)
  {
    var t := Run(s, inputs);
    MoveRun(s, inputs, o);
    MoveKeepsVelocities(s, inputs, o);
    var s' := Turn(t, i);
    hide Run, Turn, AllUndisturbed, NeverReached;
    DistanceTick(t, i);
    DutyIsUnique(75, if s'.left.position > 0.0 then s'.dutyLeft else -s'.dutyLeft);
    DutyIsUnique(75, if s'.right.position > 0.0 then s'.dutyRight else -s'.dutyRight);
  }

  /** Counts as distances: they add up, and 22743 of them are 25 turns of a wheel of radius 0.0195. */
  lemma CountsAreDistances(a: int, b: int)
    requires FitsInt16(a) && FitsInt16(b) && FitsInt16(a + b)
    ensures CountsToDistance(a) + CountsToDistance(b) == CountsToDistance(a + b)
    ensures CountsToDistance(22743) == 25.0 * (2.0 * 3.14159 * 0.0195)
  {
  }

  // ----- Between the ticks, and when the motors are off -----

  predicate Due(f: Flag, now: nat) { f.active && ((now - f.last) % 0x1_0000_0000) as real >= f.duration }

  /** A turn without a command in which no period and no limit is over changes nothing. */
  lemma NothingDue(s: State, i: Input)
    requires i.command.None?
    requires !Due(s.timedPwm, i.timedTime) && !Due(s.dist, i.distTime) && !Due(s.vel, i.velTime)
    requires !Due(s.stop, i.stopTime) && !Due(s.avoid, i.avoidTime)
    ensures Turn(s, i) == s
  {
    hide CountsToDistance, VelocityToDutyLeft, VelocityToDutyRight, RunTask, Reached, Counts;
  }

  predicate OffIsZero(s: State) { s.enabled || (s.dutyLeft == 0 && s.dutyRight == 0) }

  lemma CommandOff(s: State, c: Command, battery: real, now: nat, wheels: Wheels)
    requires OffIsZero(s)
    ensures OffIsZero(HandleCommand(s, c, battery, now, wheels))
  {
    hide DistanceMove, VelocityMove;
  }

  lemma TurnOff(s: State, i: Input)
    requires OffIsZero(s)
    ensures OffIsZero(Turn(s, i))
  {
    if i.command.Some? {
      CommandOff(s, i.command.value, i.battery, i.commandTime, i.commandWheels);
    }
    hide HandleCommand, CountsToDistance, VelocityToDutyLeft, VelocityToDutyRight, RunTask, Elapsed, Reached, Counts;
  }

  /** In every reachable state in which the motors are off both duty cycles are 0. */
  lemma {:induction false} MotorsOffIsZero(inputs: seq<Input>)
    ensures OffIsZero(Run(POWERED, inputs))
    decreases |inputs|
  {
    if inputs == [] {
    } else {
      hide Turn, OffIsZero;
      MotorsOffIsZero(inputs[..|inputs| - 1]);
      TurnOff(Run(POWERED, inputs[..|inputs| - 1]), inputs[|inputs| - 1]);
    }
  }

  // ----- What the commands set -----

  /** Below 4.75 V no drive command does anything. */
  lemma LowBattery(s: State, c: Command, battery: real, now: nat, wheels: Wheels)
    requires battery < 4.75 && !c.StopMotors? && !c.Restart?
    ensures HandleCommand(s, c, battery, now, wheels) == s
  {
  }

  /** Which controllers are on. */
  datatype Modes = Modes(timedPwm: bool, dist: bool, vel: bool, stop: bool, avoid: bool)

  function ModesOf(s: State): Modes {
    Modes(s.timedPwm.active, s.dist.active, s.vel.active, s.stop.active, s.avoid.active)
  }

  /** From 4.75 V on each drive command leaves exactly its own controllers on; only the direct duty
      cycles leave a running avoidance alone. */
  lemma CommandModes(s: State, c: Command, battery: real, now: nat, wheels: Wheels)
    requires battery >= 4.75
    ensures var m := ModesOf(HandleCommand(s, c, battery, now, wheels));
            match c
            case SetPwm(_, _) => m == Modes(false, false, false, false, s.avoid.active)
            case TimedPwm(_, _, t) => m == if t > 0.0 then Modes(true, false, false, false, s.avoid.active) else ModesOf(s)
            case StopMotors => m == Modes(false, false, false, false, false)
            case MoveBy(_, _) => m == Modes(false, true, false, false, false)
            case MoveByFor(_, _, _) => m == Modes(false, true, false, true, false)
            case DriveAt(_, _) => m == Modes(false, false, true, false, false)
            case DriveAtFor(_, _, _) => m == Modes(false, false, true, true, false)
            case Avoid(t) => m == if t > 0.0 then Modes(false, false, false, false, true) else ModesOf(s)
            case Restart => m == Modes(false, false, s.vel.active, false, s.avoid.active)
            case Other => m == ModesOf(s)
  {
    hide DistanceMove, VelocityMove;
  }

  /** The time limits are the seconds of the command, from now on; the avoidance period is its seconds. */
  lemma CommandTimes(s: State, c: Command, battery: real, now: nat, wheels: Wheels)
    requires battery >= 4.75
    ensures var s' := HandleCommand(s, c, battery, now, wheels);
            && (c.TimedPwm? && c.seconds > 0.0 ==> s'.timedPwm.last == now && s'.timedPwm.duration == 1000.0 * c.seconds)
            && (c.MoveByFor? || c.DriveAtFor? ==> s'.stop.last == now && s'.stop.duration == 1000.0 * c.seconds)
            && (c.Avoid? && c.seconds > 0.0 ==> s'.avoid.duration == 1000.0 * c.seconds)
            && (c.MoveBy? || c.MoveByFor? ==> s'.dist.duration == 10.0)
            && (c.DriveAt? || c.DriveAtFor? ==> s'.vel.duration == 10.0)
  {
    hide DistanceMove, VelocityMove;
  }

  /** Moves and velocity drives start with both counters at zero; no other command zeroes them. */
  lemma CommandZeroes(s: State, c: Command, battery: real, now: nat, wheels: Wheels)
    requires battery >= 4.75
    ensures var s' := HandleCommand(s, c, battery, now, wheels);
            if c.MoveBy? || c.MoveByFor? || c.DriveAt? || c.DriveAtFor?
            then Counts(wheels.left, s'.zero.left) == 0 && Counts(wheels.right, s'.zero.right) == 0
            else s'.zero == s.zero
  {
    hide DistanceMove, VelocityMove;
  }

  /** Turns that handle an accepted 'p', or a 'P' whose limit is not over at once, end with the motors on
      and each wheel at its own duty cycle. */
  lemma DirectDuties(s: State, i: Input)
    requires i.command.Some? && i.battery >= 4.75
    requires i.command.value.SetPwm? ||
             (i.command.value.TimedPwm? && i.command.value.seconds > 0.0 &&
              !TimedOut(i, i.commandTime, i.command.value.seconds * 1000.0))
    ensures var s' := Turn(s, i);
            s'.enabled && s'.dutyLeft == i.command.value.left && s'.dutyRight == i.command.value.right
  {
    hide RunTask, Elapsed, Counts;
  }

  /** Their duty cycles stay as long as the motors stay on, in every run without another accepted drive
      command, '~' included. */
  lemma {:induction false} DutiesStay(s: State, inputs: seq<Input>)
    requires Calm(s) && forall k :: 0 <= k < |inputs| ==> NoDrive(inputs[k])
    ensures var s' := Run(s, inputs);
            Calm(s') && (s'.enabled ==> s'.dutyLeft == s.dutyLeft && s'.dutyRight == s.dutyRight && s.enabled)
    decreases |inputs|
  {
    if inputs == [] {
    } else {
      hide Turn, Calm, NoDrive;
      DutiesStay(s, inputs[..|inputs| - 1]);
      CalmDuties(Run(s, inputs[..|inputs| - 1]), inputs[|inputs| - 1]);
    }
  }

  lemma CalmDuties(s: State, i: Input)
    requires Calm(s) && NoDrive(i)
    ensures var s' := Turn(s, i);
            Calm(s') && (s'.enabled ==> s'.dutyLeft == s.dutyLeft && s'.dutyRight == s.dutyRight && s.enabled)
  {
    CalmTurn(s, i);
    if i.command.Some? && i.command != Some(StopMotors) {
      IdleCommand(s, i);
    }
    hide RunTask, Elapsed, AboutToDrive, HandleCommand;
  }

  /** The targets of an accepted 'd' or 'D'. Straight: both tracks the distance, at 75 percent. An arc:
      the outer track is longer by wheel base times angle, the inner one is the distance, and both need
      the same time. A spin turns left about half the angle, at 25 percent. */
  lemma MoveTargets(s: State, c: Command, battery: real, now: nat, wheels: Wheels)
    requires (c.MoveBy? || c.MoveByFor?) && battery >= 4.75
    ensures var s' := HandleCommand(s, c, battery, now, wheels);
            var l, r := s'.left, s'.right;
            if -0.01 < c.angular < 0.01 then
              && l.position == r.position == c.linear
              && l.velocity == 75.0 * 0.0033 + 0.0133 && r.velocity == 75.0 * 0.0034 + 0.0133
            else if Geometry.Abs(c.linear) >= 0.04 then
              && r.position - l.position == 0.098 * c.angular && l.velocity * r.position == r.velocity * l.position
              && (if c.angular > 0.0 then l.position == Geometry.Abs(c.linear) && l.velocity == 0.1
                  else r.position == Geometry.Abs(c.linear) && r.velocity == 0.1)
            else
              && l.position == -r.position < 0.0 && r.position - l.position == 0.098 * Geometry.Abs(c.angular) / 2.0
              && l.velocity == 25.0 * 0.0033 + 0.0133 && r.velocity == 25.0 * 0.0034 + 0.0133
  {
    var m := DistanceMove(c.linear, c.angular);
    if !GoesStraight(c.angular) {
      if Geometry.Abs(c.linear) >= 0.04 {
        ArcTurn(c.linear, c.angular);
        InnerVelocity(c.linear, c.angular);
      } else {
        SpinTurn(c.linear, c.angular);
      }
      hide DistanceMove;
    }
  }

  lemma InnerVelocity(linear: real, angular: real)
    requires !GoesStraight(angular) && Geometry.Abs(linear) >= MIN_TURN_ARC
    ensures var m := DistanceMove(linear, angular);
            if angular > 0.0 then m.velocity.left == 0.1 else m.velocity.right == 0.1
  {
  }

  lemma SpinTurn(linear: real, angular: real)
    requires !GoesStraight(angular) && Geometry.Abs(linear) < MIN_TURN_ARC
    ensures var m := DistanceMove(linear, angular);
            && m.position.left == -m.position.right < 0.0
            && m.position.right - m.position.left == 0.098 * Geometry.Abs(angular) / 2.0
            && m.velocity == Targets(25.0 * 0.0033 + 0.0133, 25.0 * 0.0034 + 0.0133)
  {
  }

  /** The targets of an accepted 'v' or 'V': both the velocity, or the right wheel faster by wheel base
      times the magnitude of the angular velocity. */
  lemma DriveTargets(s: State, c: Command, battery: real, now: nat, wheels: Wheels)
    requires (c.DriveAt? || c.DriveAtFor?) && battery >= 4.75
    ensures var s' := HandleCommand(s, c, battery, now, wheels);
            var l, r := s'.left.velocity, s'.right.velocity;
            if -0.01 < c.angular < 0.01 then l == r == c.velocity
            else r - l == 0.098 * Geometry.Abs(c.angular) && (if c.angular > 0.0 then l else r) == c.velocity
  {
    if !GoesStraight(c.angular) {
      VelocityTurnsLeft(c.velocity, c.angular);
    }
  }

  // ----- The avoidance -----

  /** A decision was taken in this turn. */
  predicate Decides(s: State, i: Input) { |Turn(s, i).oa.decisions| == |s.oa.decisions| + 1 }

  /** A turn up to the avoidance handler. */
  function UpToAvoid(s: State, i: Input): State {
    var s1 := if i.command.Some? then HandleCommand(s, i.command.value, i.battery, i.commandTime, i.commandWheels) else s;
    var s2 := TimedTurn(s1, i.timedTime);
    var s3 := DistTurn(s2, i.distTime, LeftCounts(s2, i), RightCounts(s2, i));
    var s4 := VelTurn(s3, i.velTime, LeftCounts(s3, i), RightCounts(s3, i));
    StopTurn(s4, i.stopTime)
  }

  ghost predicate SameAvoidance(s: State, t: State) {
    t.avoid == s.avoid && t.oa == s.oa && t.left.velocity == s.left.velocity && t.right.velocity == s.right.velocity
  }

  /** A command either leaves the avoidance alone, ends it, or starts it afresh. */
  lemma CommandAndAvoidance(s: State, c: Command, battery: real, now: nat, wheels: Wheels)
    ensures var t := HandleCommand(s, c, battery, now, wheels);
            SameAvoidance(s, t) || !t.avoid.active || t.oa == STARTED
    ensures Exclusive(s) ==> Exclusive(HandleCommand(s, c, battery, now, wheels))
  {
    hide DistanceMove, VelocityMove;
  }

  lemma HandlersAndAvoidance(s: State, i: Input)
    requires Exclusive(s) && s.avoid.active && i.command.None?
    ensures SameAvoidance(s, UpToAvoid(s, i))
  {
    hide Elapsed, Counts, VelocityToDutyLeft, VelocityToDutyRight, CountsToDistance;
  }

  lemma HandlersKeepInactive(s: State, i: Input)
    requires i.command.None? && !s.avoid.active
    ensures !UpToAvoid(s, i).avoid.active
  {
    hide Elapsed, Counts, VelocityToDutyLeft, VelocityToDutyRight, CountsToDistance;
  }

  lemma TaskDecides(oa: Oa, ir: Proximity)
    ensures |RunTask(oa, ir).0.decisions| <= |oa.decisions| + 1
    ensures oa == STARTED ==> |RunTask(oa, ir).0.decisions| == 0
  {
    hide Decide;
  }

  lemma TurnParts(s: State, i: Input)
    ensures Turn(s, i) == AvoidTurn(UpToAvoid(s, i), i.avoidTime, i.ir)
    ensures i.command.Some? ==>
              UpToAvoid(s, i) ==
              UpToAvoid(HandleCommand(s, i.command.value, i.battery, i.commandTime, i.commandWheels), i.(command := None))
  {
    hide HandleCommand, TimedTurn, DistTurn, VelTurn, StopTurn, AvoidTurn;
  }

  /** At a decision the avoidance is the one from before the turn. */
  lemma DecisionState(s: State, i: Input)
    requires Exclusive(s) && Decides(s, i)
    ensures s.avoid.active && SameAvoidance(s, UpToAvoid(s, i))
  {
    var i' := i.(command := None);
    var s1 := if i.command.Some? then HandleCommand(s, i.command.value, i.battery, i.commandTime, i.commandWheels) else s;
    TurnParts(s, i);
    if i.command.Some? {
      CommandAndAvoidance(s, i.command.value, i.battery, i.commandTime, i.commandWheels);
    }
    assert i.command.None? ==> i' == i;
    hide HandleCommand, UpToAvoid, Turn, RunTask, Elapsed, Exclusive;
    if s1.avoid.active {
      HandlersAndAvoidance(s1, i');
    } else {
      HandlersKeepInactive(s1, i');
      InactiveOa(s, i);
    }
    TaskDecides(UpToAvoid(s, i).oa, i.ir);
  }

  /** Without avoidance no turn decides. */
  lemma InactiveOa(s: State, i: Input)
    requires !UpToAvoid(s, i).avoid.active
    ensures !Decides(s, i)
  {
    TurnParts(s, i);
    hide HandleCommand, RunTask, Elapsed, Counts, VelocityToDutyLeft, VelocityToDutyRight, CountsToDistance, Turn, UpToAvoid;
    OaOnlyReset(s, i);
  }

  lemma CommandOa(s: State, c: Command, battery: real, now: nat, wheels: Wheels)
    ensures HandleCommand(s, c, battery, now, wheels).oa in {s.oa, STARTED}
  {
    hide DistanceMove, VelocityMove;
  }

  lemma HandlersOa(s: State, i: Input)
    ensures TimedTurn(s, i.timedTime).oa == s.oa && StopTurn(s, i.stopTime).oa == s.oa
    ensures forall l, r :: DistTurn(s, i.distTime, l, r).oa == s.oa && VelTurn(s, i.velTime, l, r).oa == s.oa
  {
    hide Elapsed, VelocityToDutyLeft, VelocityToDutyRight, CountsToDistance;
  }

  lemma OaOnlyReset(s: State, i: Input)
    ensures UpToAvoid(s, i).oa == s.oa || UpToAvoid(s, i).oa == STARTED
  {
    hide HandleCommand, TimedTurn, DistTurn, VelTurn, StopTurn;
    if i.command.Some? {
      CommandOa(s, i.command.value, i.battery, i.commandTime, i.commandWheels);
    }
    var s1 := if i.command.Some? then HandleCommand(s, i.command.value, i.battery, i.commandTime, i.commandWheels) else s;
    HandlersOa(s1, i);
    var s2 := TimedTurn(s1, i.timedTime);
    HandlersOa(s2, i);
    var s3 := DistTurn(s2, i.distTime, LeftCounts(s2, i), RightCounts(s2, i));
    HandlersOa(s3, i);
    HandlersOa(VelTurn(s3, i.velTime, LeftCounts(s3, i), RightCounts(s3, i)), i);
  }

  lemma DecisionTurn(s: State, i: Input)
    requires Exclusive(s) && Decides(s, i)
    ensures var (oa, targets, isSet) := Decide(s.oa, i.ir);
            var s' := Turn(s, i);
            && s.avoid.active && s'.oa.decision == oa.decision
            && s'.left.velocity == (if isSet then targets.left else s.left.velocity)
            && s'.right.velocity == (if isSet then targets.right else s.right.velocity)
  {
    DecisionState(s, i);
    TurnParts(s, i);
    hide Decide, Elapsed, UpToAvoid, Turn, Exclusive;
  }

  /** In every reachable state: driving straight or at the start, an obstacle makes the car turn away
      from it, the wheel on its side being the faster one; without an obstacle it drives straight, at
      30 percent. A turn goes on, unchanged, until nothing is in sight, and only then becomes a hold. A
      hold does not look. */
  lemma DecisionFollowsReading(s: State, i: Input)
    requires Inv(s) && Decides(s, i)
    ensures var before, s' := s.oa.decision, Turn(s, i);
            var l, r := s'.left.velocity, s'.right.velocity;
            && (before == Init || before == DriveStraight ==>
                  if i.ir.count == 0
                  then s'.oa.decision == DriveStraight && l == 30.0 * 0.0033 + 0.0133 && r == 30.0 * 0.0034 + 0.0133
                  else if i.ir.side == RightSide then s'.oa.decision == TurnLeft && r > l
                  else s'.oa.decision == TurnRight && l > r)
            && (before == TurnLeft || before == TurnRight ==>
                  && s'.oa.decision == (if i.ir.count == 0 then Holding else before)
                  && l == s.left.velocity && r == s.right.velocity)
            && (before == Holding ==>
                  if HoldAge(s.oa.decisions) == 4
                  then s'.oa.decision == DriveStraight && l == 30.0 * 0.0033 + 0.0133 && r == 30.0 * 0.0034 + 0.0133
                  else s'.oa.decision == Holding && l == s.left.velocity && r == s.right.velocity)
  {
    DecisionTurn(s, i);
    assert AlphaCounts(s.oa) && s.avoid.active;
    if s.oa.decision == DriveStraight {
      assert s.oa.decisions != [] && Following(s.oa.decisions) == DriveStraight;
      assert TargetsMatch(s.left, s.right, DriveStraight);
    }
    hide Turn, Following, HoldAge, Inv;
  }

  /** The same along every run from power-up. */
  lemma EveryDecisionFollowsReading(inputs: seq<Input>, i: Input)
    requires Decides(Run(POWERED, inputs), i)
    ensures var s, s' := Run(POWERED, inputs), Turn(Run(POWERED, inputs), i);
            && (s'.oa.decision == TurnLeft && s.oa.decision != TurnLeft ==>
                  i.ir.count > 0 && i.ir.side == RightSide && s'.right.velocity > s'.left.velocity)
            && (s'.oa.decision == TurnRight && s.oa.decision != TurnRight ==>
                  i.ir.count > 0 && i.ir.side == LeftSide && s'.left.velocity > s'.right.velocity)
            && (s'.oa.decision == Holding && s.oa.decision != Holding ==> i.ir.count == 0)
  {
    ReachableInv(inputs);
    DecisionFollowsReading(Run(POWERED, inputs), i);
    hide Run, Turn, Inv;
  }

  /** The first decision starts the velocity controller, at its period of 10 ms. */
  lemma FirstDecisionDrives(s: State, i: Input)
    requires Exclusive(s) && Decides(s, i) && s.oa.decision == Init
    ensures Turn(s, i).vel.active && Turn(s, i).vel.duration == 10.0
  {
    DecisionState(s, i);
    TurnParts(s, i);
    DecisionIsRun(s, i);
    hide Elapsed, UpToAvoid, Turn, Exclusive;
  }

  lemma DecisionIsRun(s: State, i: Input)
    requires Exclusive(s) && Decides(s, i)
    ensures UpToAvoid(s, i).oa.readState == RunDecision && Execute(UpToAvoid(s, i).avoid, i.avoidTime)
  {
    DecisionState(s, i);
    TurnParts(s, i);
    hide UpToAvoid, Turn, Exclusive, Decide, Elapsed;
  }

  /** The avoidance acts in exactly the turns in which its period is over, and the period starts anew
      with each decision only. */
  lemma AvoidancePeriod(s: State, i: Input)
    requires Exclusive(s) && s.avoid.active && i.command.None?
    ensures var s' := Turn(s, i);
            && |s'.oa.actions| == |s.oa.actions| + (if Elapsed(i.avoidTime, s.avoid.last) as real >= s.avoid.duration then 1 else 0)
            && s'.avoid == s.avoid.(last := if Decides(s, i) then i.avoidTime else s.avoid.last)
  {
    HandlersAndAvoidance(s, i);
    TurnParts(s, i);
    hide UpToAvoid, Turn, Exclusive, Decide, Elapsed;
  }

  /** At power-up nothing moves. */
  lemma PoweredIsStopped()
    ensures Stopped(POWERED) && POWERED.firstTime && POWERED.dutyLeft == 0 && POWERED.dutyRight == 0
  {
  }

  /** Avoidance driving straight: a tick of the velocity controller sets 30 percent on both wheels. */
  lemma AvoidanceStraightDuty(s: State, i: Input)
    requires Inv(s) && s.avoid.active && s.oa.decision == DriveStraight
    requires s.vel.active && !s.firstTime && Ignored(i) && Execute(s.vel, i.velTime)
    ensures var s' := Turn(s, i); s'.enabled && s'.dutyLeft == 30 && s'.dutyRight == 30
  {
    assert s.oa.decisions != [] && Following(s.oa.decisions) == DriveStraight;
    assert TargetsMatch(s.left, s.right, DriveStraight);
    var s' := Turn(s, i);
    hide Turn;
    VelocityTick(s, i);
    DutyIsUnique(30, s'.dutyLeft);
    DutyIsUnique(30, s'.dutyRight);
  }
}
