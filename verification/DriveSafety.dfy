/** What holds in every reachable state and over every run of the drive state machine. */
module DriveSafety {
  import opened Common
  import opened Bits
  import opened Flags
  import opened Avoidance
  import opened Geometry
  import opened Drive

  // ----- Mode exclusion and agreement of the avoidance targets -----

  /** Distance control excludes velocity control, avoidance and timed PWM; an armed stop excludes
      avoidance and timed PWM. */
  ghost predicate Exclusive(s: State) {
    && (s.dist.active ==> !s.vel.active && !s.avoid.active && !s.timedPwm.active)
    && (s.stop.active ==> !s.avoid.active && !s.timedPwm.active)
  }

  /** The decision the car still follows: holding prolongs the turn before it. */
  function Following(ds: seq<Decision>): Decision
    decreases |ds|
  {
    if ds == [] then Init
    else if ds[|ds| - 1] == Holding then Following(ds[..|ds| - 1])
    else ds[|ds| - 1]
  }

  ghost predicate TargetsMatch(left: Motor, right: Motor, d: Decision) {
    match d
    case DriveStraight => Targets(left.velocity, right.velocity) == STRAIGHT
    case TurnLeft => Targets(left.velocity, right.velocity) == LEFT_PAIR
    case TurnRight => Targets(left.velocity, right.velocity) == RIGHT_PAIR
    case Holding => false
    case Init => true
  }

  ghost predicate Inv(s: State) {
    && Exclusive(s)
    && OaInv(s.oa)
    && (s.avoid.active ==> TargetsMatch(s.left, s.right, Following(s.oa.decisions)))
  }

  lemma FollowingAppend(ds: seq<Decision>, d: Decision)
    ensures Following(ds + [d]) == if d == Holding then Following(ds) else d
  {
    assert (ds + [d])[..|ds|] == ds;
  }

  /** A decision assigns the targets of the state it enters, or leaves what is being followed. */
  lemma DecisionTargets(oa: Oa, ir: Proximity)
    requires AlphaCounts(oa)
    ensures var (oa', targets, isSet) := Decide(oa, ir);
            var d := Following(oa.decisions + [oa'.decision]);
            if isSet then d == oa'.decision && TargetsMatch(Motor(0.0, targets.left), Motor(0.0, targets.right), d)
            else d == Following(oa.decisions)
  {
    FollowingAppend(oa.decisions, Decide(oa, ir).0.decision);
    if oa.decisions != [] && oa.decision != Holding {
      assert Following(oa.decisions) == oa.decision;
    }
  }

  lemma AvoidKeepsInv(s: State, now: nat, ir: Proximity)
    requires Inv(s)
    ensures Inv(AvoidTurn(s, now, ir))
  {
    TaskKeepsInv(s.oa, ir);
    DecisionTargets(s.oa, ir);
    hide OaInv, Following, Decide, Execute;
  }

  lemma StartIsInv()
    ensures OaInv(STARTED) && Inv(POWERED)
  {
  }

  lemma CommandKeepsInv(s: State, c: Command, battery: real, now: nat, wheels: Wheels)
    requires Inv(s)
    ensures Inv(HandleCommand(s, c, battery, now, wheels))
  {
    StartIsInv();
    hide OaInv, DistanceMove, VelocityMove;
  }

  lemma HandlersKeepInv(s: State, i: Input)
    requires Inv(s)
    ensures Inv(TimedTurn(s, i.timedTime))
    ensures Inv(DistTurn(s, i.distTime, LeftCounts(s, i), RightCounts(s, i)))
    ensures Inv(VelTurn(s, i.velTime, LeftCounts(s, i), RightCounts(s, i)))
    ensures Inv(StopTurn(s, i.stopTime))
  {
    hide OaInv, Following, Elapsed, CountsToDistance, VelocityToDutyLeft, VelocityToDutyRight;
  }

  lemma TurnKeepsInv(s: State, i: Input)
    requires Inv(s)
    ensures Inv(Turn(s, i))
  {
    hide Inv, TimedTurn, DistTurn, VelTurn, StopTurn, AvoidTurn, HandleCommand;
    var s1 := if i.command.Some? then HandleCommand(s, i.command.value, i.battery, i.commandTime, i.commandWheels) else s;
    if i.command.Some? {
      CommandKeepsInv(s, i.command.value, i.battery, i.commandTime, i.commandWheels);
    }
    HandlersKeepInv(s1, i);
    var s2 := TimedTurn(s1, i.timedTime);
    HandlersKeepInv(s2, i);
    var s3 := DistTurn(s2, i.distTime, LeftCounts(s2, i), RightCounts(s2, i));
    HandlersKeepInv(s3, i);
    var s4 := VelTurn(s3, i.velTime, LeftCounts(s3, i), RightCounts(s3, i));
    HandlersKeepInv(s4, i);
    AvoidKeepsInv(StopTurn(s4, i.stopTime), i.avoidTime, i.ir);
  }

  /** In every reachable state, after any commands, clock values, encoder counts and sensor readings:
      the modes exclude each other, holds last four decisions, every decision follows a fresh reading
      of both sides, and during avoidance the targets are those of the decision being followed. */
  lemma {:induction false} ReachableInv(inputs: seq<Input>)
    ensures Inv(Run(POWERED, inputs))
    decreases |inputs|
  {
    hide Inv, Turn;
    if inputs == [] {
      StartIsInv();
    } else {
      ReachableInv(inputs[..|inputs| - 1]);
      TurnKeepsInv(Run(POWERED, inputs[..|inputs| - 1]), inputs[|inputs| - 1]);
    }
  }

  // ----- Stopping -----

  ghost predicate Stopped(s: State) {
    !s.enabled && !s.timedPwm.active && !s.dist.active && !s.vel.active && !s.stop.active && !s.avoid.active
  }

  /** No drive command is accepted in this turn. */
  ghost predicate NoDrive(i: Input) { i.command.Some? ==> !Accepted(i.command.value, i.battery) }

  lemma StopStops(s: State, i: Input)
    requires i.command == Some(StopMotors)
    ensures Stopped(Turn(s, i))
  {
  }

  lemma StoppedStays(s: State, i: Input)
    requires Stopped(s) && NoDrive(i)
    ensures Stopped(Turn(s, i))
  {
    hide DistanceMove, VelocityMove, RunTask, Accepted;
  }

  lemma {:induction false} StoppedThroughout(s: State, inputs: seq<Input>)
    requires Stopped(s) && forall k :: 0 <= k < |inputs| ==> NoDrive(inputs[k])
    ensures Stopped(Run(s, inputs))
    decreases |inputs|
  {
    if inputs == [] {
    } else {
      hide Stopped, NoDrive, Turn;
      StoppedThroughout(s, inputs[..|inputs| - 1]);
      StoppedStays(Run(s, inputs[..|inputs| - 1]), inputs[|inputs| - 1]);
    }
  }

  /** From any state: once 's' was handled the motors stay off and every drive flag down, until a later
      drive command is accepted. */
  lemma StopIsSafe(s: State, i: Input, later: seq<Input>)
    requires i.command == Some(StopMotors) && forall k :: 0 <= k < |later| ==> NoDrive(later[k])
    ensures Stopped(Run(Turn(s, i), later))
  {
    StopStops(s, i);
    StoppedThroughout(Turn(s, i), later);
  }

  // ----- The deadman timer of 'D' and 'V' -----

  ghost predicate Armed(s: State, since: nat, duration: real) {
    Exclusive(s) && s.stop == Flag(true, duration, since)
  }

  /** The places of a turn where the clock is compared with a time limit. */
  datatype Clock = StopClock | TimedClock

  ghost predicate Due(i: Input, clock: Clock, since: nat, duration: real) {
    Elapsed(if clock == StopClock then i.stopTime else i.timedTime, since) as real >= duration
  }

  ghost predicate Expired(i: Input, since: nat, duration: real) { Due(i, StopClock, since, duration) }

  ghost predicate NoRestart(i: Input) { i.command != Some(Restart) }

  /** The millisecond counter may wrap: what counts is the time passed modulo 2^32. */
  lemma ElapsedAcrossWrap(since: nat, passed: nat)
    requires since < WRAP
    ensures Elapsed((since + passed) % WRAP, since) == passed % WRAP
  {
    var now := (since + passed) % WRAP;
    var q := (since + passed) / WRAP;
    assert now - since == passed + (-q) * WRAP;
    ModShift(passed, -q, WRAP);
  }

  lemma ArmedHandlers(s: State, i: Input, since: nat, duration: real)
    requires Armed(s, since, duration)
    ensures Armed(TimedTurn(s, i.timedTime), since, duration)
    ensures Armed(DistTurn(s, i.distTime, LeftCounts(s, i), RightCounts(s, i)), since, duration)
    ensures Armed(VelTurn(s, i.velTime, LeftCounts(s, i), RightCounts(s, i)), since, duration)
  {
    hide CountsToDistance, VelocityToDutyLeft, VelocityToDutyRight;
  }

  lemma ArmedEnd(s: State, i: Input, since: nat, duration: real)
    requires Armed(s, since, duration)
    ensures var s' := AvoidTurn(StopTurn(s, i.stopTime), i.avoidTime, i.ir);
            if Expired(i, since, duration) then Stopped(s') else Armed(s', since, duration)
  {
    hide RunTask, Elapsed;
  }

  /** The handlers after the command: an armed stop fires in the first turn that finds it expired. */
  lemma ArmedRest(s: State, i: Input, since: nat, duration: real)
    requires Armed(s, since, duration)
    ensures var s' := Turn(s, i.(command := None));
            if Expired(i, since, duration) then Stopped(s') else Armed(s', since, duration)
  {
    hide Armed, TimedTurn, DistTurn, VelTurn, StopTurn, AvoidTurn, Stopped, Expired;
    ArmedHandlers(s, i, since, duration);
    var s2 := TimedTurn(s, i.timedTime);
    ArmedHandlers(s2, i, since, duration);
    var s3 := DistTurn(s2, i.distTime, LeftCounts(s2, i), RightCounts(s2, i));
    ArmedHandlers(s3, i, since, duration);
    ArmedEnd(VelTurn(s3, i.velTime, LeftCounts(s3, i), RightCounts(s3, i)), i, since, duration);
  }

  lemma TurnSplits(s: State, i: Input)
    requires i.command.Some?
    ensures Turn(s, i) == Turn(HandleCommand(s, i.command.value, i.battery, i.commandTime, i.commandWheels), i.(command := None))
  {
    hide HandleCommand, TimedTurn, DistTurn, VelTurn, StopTurn, AvoidTurn;
  }

  lemma ArmedTurn(s: State, i: Input, since: nat, duration: real)
    requires Armed(s, since, duration) && NoDrive(i) && NoRestart(i)
    ensures var s' := Turn(s, i);
            Stopped(s') || (Armed(s', since, duration) && !Expired(i, since, duration))
  {
    hide Turn, Stopped, Expired;
    if i.command == Some(StopMotors) {
      StopStops(s, i);
    } else if i.command.Some? {
      TurnSplits(s, i);
      hide *;
      RefusedCommand(s, i);
      ArmedRest(s, i, since, duration);
    } else {
      assert i.(command := None) == i;
      ArmedRest(s, i, since, duration);
    }
  }

  lemma RefusedCommand(s: State, i: Input)
    requires i.command.Some? && NoDrive(i) && NoRestart(i) && i.command != Some(StopMotors)
    ensures HandleCommand(s, i.command.value, i.battery, i.commandTime, i.commandWheels) == s
  {
  }

  lemma {:induction false} ArmedRun(s: State, inputs: seq<Input>, since: nat, duration: real)
    requires Armed(s, since, duration)
    requires forall k :: 0 <= k < |inputs| ==> NoDrive(inputs[k]) && NoRestart(inputs[k])
    ensures var s' := Run(s, inputs);
            Stopped(s') || (Armed(s', since, duration) &&
                            forall k :: 0 <= k < |inputs| ==> !Expired(inputs[k], since, duration))
    decreases |inputs|
  {
    if inputs == [] {
    } else {
      hide Turn, Stopped, Expired, Armed, NoDrive, NoRestart;
      var before := inputs[..|inputs| - 1];
      ArmedRun(s, before, since, duration);
      if Stopped(Run(s, before)) {
        StoppedStays(Run(s, before), inputs[|inputs| - 1]);
      } else {
        ArmedTurn(Run(s, before), inputs[|inputs| - 1], since, duration);
      }
    }
  }

  /** The commands with a time limit. */
  function Limit(c: Command): Option<real> {
    match c
    case MoveByFor(_, _, seconds) => Some(seconds * 1000.0)
    case DriveAtFor(_, _, seconds) => Some(seconds * 1000.0)
    case _ => None
  }

  lemma LimitArms(s: State, c: Command, battery: real, now: nat, wheels: Wheels)
    requires Exclusive(s) && Accepted(c, battery) && Limit(c).Some?
    ensures Armed(HandleCommand(s, c, battery, now, wheels), now, Limit(c).value)
  {
    hide DistanceMove, VelocityMove;
  }

  /** Deadman: after an accepted 'D' or 'V', in a run without '~' and without another accepted drive
      command, the first turn that finds the limit reached ends with the motors off, and they stay
      off. The clock may wrap (ElapsedAcrossWrap). */
  lemma DeadmanStops(s: State, i: Input, later: seq<Input>, k: nat)
    requires Inv(s) && i.command.Some? && Accepted(i.command.value, i.battery) && Limit(i.command.value).Some?
    requires forall j :: 0 <= j < |later| ==> NoDrive(later[j]) && NoRestart(later[j])
    requires k < |later| && Expired(later[k], i.commandTime, Limit(i.command.value).value)
    ensures Stopped(Run(Turn(s, i), later))
    ensures Stopped(Run(Turn(s, i), later[..k + 1]))
  {
    var duration := Limit(i.command.value).value;
    LimitArms(s, i.command.value, i.battery, i.commandTime, i.commandWheels);
    TurnSplits(s, i);
    hide Turn, Stopped, Expired, Armed, NoDrive, NoRestart, Inv, Accepted, Limit;
    ArmedRest(HandleCommand(s, i.command.value, i.battery, i.commandTime, i.commandWheels), i, i.commandTime, duration);
    var t := Turn(s, i);
    assert later[..k + 1][k] == later[k];
    if Stopped(t) {
      StoppedThroughout(t, later);
      StoppedThroughout(t, later[..k + 1]);
    } else {
      ArmedRun(t, later, i.commandTime, duration);
      ArmedRun(t, later[..k + 1], i.commandTime, duration);
    }
  }

  /** Neither an accepted drive command nor a stop; '~' is allowed. */
  ghost predicate Idle(i: Input) { NoDrive(i) && i.command != Some(StopMotors) }

  /** The motors are on and no flag is left that could switch them off. */
  ghost predicate Unstoppable(s: State) {
    s.enabled && !s.timedPwm.active && !s.dist.active && !s.stop.active
  }

  lemma IdleCommand(s: State, i: Input)
    requires Idle(i) && i.command.Some?
    ensures HandleCommand(s, i.command.value, i.battery, i.commandTime, i.commandWheels) ==
            if i.command == Some(Restart) then Reinitialize(s) else s
  {
  }

  lemma UnstoppableStays(s: State, i: Input)
    requires Unstoppable(s) && Idle(i)
    ensures Unstoppable(Turn(s, i))
  {
    if i.command.Some? {
      IdleCommand(s, i);
    }
    hide RunTask, HandleCommand, Idle;
  }

  lemma {:induction false} UnstoppableRun(s: State, later: seq<Input>)
    requires Unstoppable(s) && forall k :: 0 <= k < |later| ==> Idle(later[k])
    ensures Unstoppable(Run(s, later))
    decreases |later|
  {
    if later == [] {
    } else {
      hide Unstoppable, Turn, Idle;
      UnstoppableRun(s, later[..|later| - 1]);
      UnstoppableStays(Run(s, later[..|later| - 1]), later[|later| - 1]);
    }
  }

  /** The exclusion of '~' is needed, for every kind of drive: it disarms whatever would have ended
      the drive but leaves the motors on. They then stay on until a stop or a drive command is
      handled, although '~' itself is handled again and again. */
  lemma RestartDisarms(s: State, i: Input, later: seq<Input>)
    requires s.enabled && i.command == Some(Restart) && forall k :: 0 <= k < |later| ==> Idle(later[k])
    ensures Unstoppable(Run(Turn(s, i), later))
  {
    TurnSplits(s, i);
    var i' := i.(command := None);
    assert Unstoppable(Reinitialize(s)) && Idle(i');
    hide Unstoppable, Turn, Idle;
    UnstoppableStays(Reinitialize(s), i');
    UnstoppableRun(Turn(s, i), later);
  }

  /** An armed velocity drive, and one whose stop '~' has disarmed. */
  ghost predicate Limited(s: State, since: nat, duration: real) { Armed(s, since, duration) && s.vel.active }

  ghost predicate Disarmed(s: State) { s.vel.active && !s.stop.active }

  lemma DisarmedStays(s: State, i: Input)
    requires Disarmed(s) && Idle(i)
    ensures Disarmed(Turn(s, i))
  {
    if i.command.Some? {
      IdleCommand(s, i);
    }
    hide RunTask, HandleCommand, Idle;
  }

  lemma VelocityKept(s: State, i: Input)
    requires s.vel.active && i.command.None? && !Execute(s.stop, i.stopTime)
    ensures Turn(s, i).vel.active
  {
    hide RunTask, HandleCommand;
  }

  lemma LimitedTurn(s: State, i: Input, since: nat, duration: real)
    requires Limited(s, since, duration) && Idle(i)
    ensures var s' := Turn(s, i);
            if i.command == Some(Restart) then Disarmed(s')
            else if Expired(i, since, duration) then Stopped(s') else Limited(s', since, duration)
  {
    var i' := i.(command := None);
    if i.command.Some? {
      TurnSplits(s, i);
      IdleCommand(s, i);
    }
    assert i.command.None? ==> i' == i;
    if i.command == Some(Restart) {
      DisarmedStays(Reinitialize(s), i');
    } else {
      ArmedRest(s, i', since, duration);
      hide Turn, Stopped, HandleCommand, Idle;
      if !Expired(i, since, duration) {
        VelocityKept(s, i');
      }
    }
  }

  /** Some turn finds the limit reached, and no '~' was handled up to it. */
  ghost predicate LimitReached(inputs: seq<Input>, clock: Clock, since: nat, duration: real) {
    exists k :: 0 <= k < |inputs| && Due(inputs[k], clock, since, duration) && Unrestarted(UpTo(inputs, k))
  }

  /** The turns up to and with the k-th. */
  function UpTo(inputs: seq<Input>, k: nat): seq<Input>
    requires k < |inputs|
  {
    inputs[..k + 1]
  }

  ghost predicate Unrestarted(inputs: seq<Input>) { forall j :: 0 <= j < |inputs| ==> NoRestart(inputs[j]) }

  lemma LimitReachedLast(before: seq<Input>, last: Input, clock: Clock, since: nat, duration: real)
    ensures var inputs := before + [last];
            && (Unrestarted(inputs) <==> Unrestarted(before) && NoRestart(last))
            && (LimitReached(inputs, clock, since, duration) <==>
                  LimitReached(before, clock, since, duration) || (Due(last, clock, since, duration) && Unrestarted(inputs)))
  {
    hide Due, NoRestart;
    var inputs := before + [last];
    assert forall k :: 0 <= k < |before| ==> UpTo(inputs, k) == UpTo(before, k);
    assert UpTo(inputs, |before|) == inputs;
    assert Unrestarted(inputs) ==> inputs[|before|] == last;
    if Unrestarted(before) && NoRestart(last) {
      assert forall j :: 0 <= j < |inputs| ==> NoRestart(inputs[j]);
    }
    if Unrestarted(inputs) {
      assert forall j :: 0 <= j < |before| ==> before[j] == inputs[j];
    }
  }

  lemma {:induction false} LimitedRun(s: State, inputs: seq<Input>, since: nat, duration: real)
    requires Limited(s, since, duration) && forall k :: 0 <= k < |inputs| ==> Idle(inputs[k])
    ensures var s' := Run(s, inputs);
            if LimitReached(inputs, StopClock, since, duration) then Stopped(s')
            else if Unrestarted(inputs) then Limited(s', since, duration) else Disarmed(s')
    decreases |inputs|
  {
    hide Turn, Stopped, Due, Limited, Disarmed, Idle;
    if inputs == [] {
    } else {
      var before, last := inputs[..|inputs| - 1], inputs[|inputs| - 1];
      assert inputs == before + [last];
      hide LimitReached, Unrestarted;
      LimitedRun(s, before, since, duration);
      LimitReachedLast(before, last, StopClock, since, duration);
      var t := Run(s, before);
      if LimitReached(before, StopClock, since, duration) {
        IdleIsNoDrive(last);
        StoppedStays(t, last);
      } else if Unrestarted(before) {
        LimitedTurn(t, last, since, duration);
      } else {
        DisarmedStays(t, last);
      }
    }
  }

  lemma IdleIsNoDrive(i: Input)
    requires Idle(i)
    ensures NoDrive(i)
  {
  }

  lemma LimitedStart(s: State, c: Command, battery: real, now: nat, wheels: Wheels)
    requires c.DriveAtFor? && Exclusive(s) && Accepted(c, battery)
    ensures Limited(HandleCommand(s, c, battery, now, wheels), now, Limit(c).value)
  {
    LimitArms(s, c, battery, now, wheels);
    hide VelocityMove;
  }

  /** The exact condition: after an accepted 'V', with neither a stop nor another accepted drive
      command, the car is stopped if and only if some turn found the limit reached before any '~' was
      handled. */
  lemma DeadmanExactly(s: State, i: Input, later: seq<Input>)
    requires Inv(s) && i.command.Some? && i.command.value.DriveAtFor? && Accepted(i.command.value, i.battery)
    requires forall k :: 0 <= k < |later| ==> Idle(later[k])
    ensures Stopped(Run(Turn(s, i), later)) <==>
              LimitReached([i] + later, StopClock, i.commandTime, Limit(i.command.value).value)
  {
    var since, duration := i.commandTime, Limit(i.command.value).value;
    var i' := i.(command := None);
    var inputs := [i'] + later;
    var s1 := HandleCommand(s, i.command.value, i.battery, i.commandTime, i.commandWheels);
    LimitedStart(s, i.command.value, i.battery, i.commandTime, i.commandWheels);
    TurnSplits(s, i);
    assert Idle(i') && NoRestart(i) && NoRestart(i');
    assert Due(i, StopClock, since, duration) == Due(i', StopClock, since, duration);
    hide HandleCommand, Turn, Due, Limited, Idle, Accepted, Limit, Inv, LimitReached, NoRestart;
    LimitedRun(s1, inputs, since, duration);
    RunFront(s1, i', later);
    SameLimit(i, i', later, StopClock, since, duration);
    LimitedIsNotStopped(Run(s1, inputs), since, duration);
  }

  lemma LimitedIsNotStopped(s: State, since: nat, duration: real)
    ensures Limited(s, since, duration) || Disarmed(s) ==> !Stopped(s)
  {
  }

  lemma SameLimit(i: Input, i': Input, later: seq<Input>, clock: Clock, since: nat, duration: real)
    requires NoRestart(i) && NoRestart(i') && Due(i, clock, since, duration) == Due(i', clock, since, duration)
    ensures LimitReached([i] + later, clock, since, duration) <==> LimitReached([i'] + later, clock, since, duration)
  {
    hide Due, NoRestart;
    var x, y := [i] + later, [i'] + later;
    assert forall k :: 1 <= k < |x| ==> x[k] == y[k];
    forall k | 0 <= k < |x|
      ensures Unrestarted(UpTo(x, k)) <==> Unrestarted(UpTo(y, k))
    {
      assert forall j :: 0 <= j <= k ==> UpTo(x, k)[j] == x[j] && UpTo(y, k)[j] == y[j];
    }
    assert forall k :: 0 <= k < |x| ==> Due(x[k], clock, since, duration) == Due(y[k], clock, since, duration);
  }

  lemma {:induction false} RunFront(s: State, i: Input, later: seq<Input>)
    ensures Run(s, [i] + later) == Run(Turn(s, i), later)
    decreases |later|
  {
    hide Turn;
    if later == [] {
      assert [i] + later == [i] && [i][..0] == [];
      assert Run(s, []) == s;
    } else {
      RunFront(s, i, later[..|later| - 1]);
      assert ([i] + later)[..|later|] == [i] + later[..|later| - 1];
    }
  }

  /** An armed distance move, and one that '~' has disarmed: no flag is left. */
  ghost predicate ArmedMove(s: State, since: nat, duration: real) { Armed(s, since, duration) && !s.vel.active }

  ghost predicate Parked(s: State) {
    !s.timedPwm.active && !s.dist.active && !s.vel.active && !s.stop.active && !s.avoid.active
  }

  lemma ParkedStays(s: State, i: Input)
    requires Parked(s) && Idle(i)
    ensures Parked(Turn(s, i)) && Turn(s, i).enabled == s.enabled
  {
    if i.command.Some? {
      IdleCommand(s, i);
    }
    hide RunTask, HandleCommand, Idle;
  }

  lemma StillKept(s: State, i: Input)
    requires !s.vel.active && !s.avoid.active && i.command.None?
    ensures !Turn(s, i).vel.active
  {
    hide RunTask, HandleCommand;
  }

  lemma ArmedMoveTurn(s: State, i: Input, since: nat, duration: real)
    requires ArmedMove(s, since, duration) && Idle(i)
    ensures var s' := Turn(s, i);
            if i.command == Some(Restart) then Parked(s') && s'.enabled == s.enabled
            else if Expired(i, since, duration) then Stopped(s') else ArmedMove(s', since, duration)
  {
    var i' := i.(command := None);
    if i.command.Some? {
      TurnSplits(s, i);
      IdleCommand(s, i);
    }
    assert i.command.None? ==> i' == i;
    if i.command == Some(Restart) {
      assert Parked(Reinitialize(s)) && Idle(i');
      hide Parked, Turn, HandleCommand, Idle;
      ParkedStays(Reinitialize(s), i');
    } else {
      ArmedRest(s, i', since, duration);
      hide Turn, Stopped, HandleCommand, Idle;
      StillKept(s, i');
    }
  }

  /** The turn that handles the first '~', if there is one. */
  function FirstRestart(inputs: seq<Input>): (k: nat)
    ensures k <= |inputs|
    decreases |inputs|
  {
    if inputs == [] then 0
    else
      var before := inputs[..|inputs| - 1];
      if FirstRestart(before) < |before| || inputs[|inputs| - 1].command != Some(Restart)
      then if FirstRestart(before) < |before| then FirstRestart(before) else |inputs|
      else |before|
  }

  lemma {:induction false} FirstRestartIsFirst(inputs: seq<Input>)
    ensures Unrestarted(inputs) <==> FirstRestart(inputs) == |inputs|
    ensures Unrestarted(inputs[..FirstRestart(inputs)])
    ensures FirstRestart(inputs) < |inputs| ==> inputs[FirstRestart(inputs)].command == Some(Restart)
    decreases |inputs|
  {
    if inputs == [] {
    } else {
      var before, last := inputs[..|inputs| - 1], inputs[|inputs| - 1];
      assert inputs == before + [last] && inputs[..|inputs|] == inputs;
      FirstRestartIsFirst(before);
      LimitReachedLast(before, last, StopClock, 0, 0.0);
      hide Unrestarted, LimitReached;
      assert FirstRestart(before) <= |before| ==> inputs[..FirstRestart(before)] == before[..FirstRestart(before)];
      assert before[..|before|] == before;
    }
  }

  /** Were the motors on when the first '~' was handled? */
  ghost function OnAtRestart(s: State, inputs: seq<Input>): bool { Run(s, inputs[..FirstRestart(inputs)]).enabled }

  lemma OnAtRestartLast(s: State, before: seq<Input>, last: Input)
    ensures !Unrestarted(before) ==> OnAtRestart(s, before + [last]) == OnAtRestart(s, before)
    ensures Unrestarted(before) && !NoRestart(last) ==> OnAtRestart(s, before + [last]) == Run(s, before).enabled
  {
    var inputs := before + [last];
    FirstRestartIsFirst(before);
    assert inputs[..|inputs| - 1] == before;
    hide Run, Unrestarted;
    assert inputs[..FirstRestart(before)] == before[..FirstRestart(before)];
    assert inputs[..|before|] == before;
  }

  lemma {:induction false} ArmedMoveRun(s: State, inputs: seq<Input>, since: nat, duration: real)
    requires ArmedMove(s, since, duration) && forall k :: 0 <= k < |inputs| ==> Idle(inputs[k])
    ensures var s' := Run(s, inputs);
            if LimitReached(inputs, StopClock, since, duration) then Stopped(s')
            else if Unrestarted(inputs) then ArmedMove(s', since, duration)
            else Parked(s') && s'.enabled == OnAtRestart(s, inputs)
    decreases |inputs|
  {
    hide Turn, Stopped, Due, ArmedMove, Parked, Idle, OnAtRestart, NoRestart;
    if inputs == [] {
    } else {
      var before, last := inputs[..|inputs| - 1], inputs[|inputs| - 1];
      assert inputs == before + [last];
      hide LimitReached, Unrestarted;
      ArmedMoveRun(s, before, since, duration);
      LimitReachedLast(before, last, StopClock, since, duration);
      OnAtRestartLast(s, before, last);
      var t := Run(s, before);
      if LimitReached(before, StopClock, since, duration) {
        IdleIsNoDrive(last);
        StoppedStays(t, last);
      } else if Unrestarted(before) {
        ArmedMoveTurn(t, last, since, duration);
        RestartOrNot(last);
      } else {
        ParkedStays(t, last);
      }
    }
  }

  lemma RestartOrNot(i: Input)
    ensures NoRestart(i) <==> i.command != Some(Restart)
  {
  }

  lemma ArmedMoveStart(s: State, c: Command, battery: real, now: nat, wheels: Wheels)
    requires c.MoveByFor? && Exclusive(s) && Accepted(c, battery)
    ensures ArmedMove(HandleCommand(s, c, battery, now, wheels), now, Limit(c).value)
  {
    LimitArms(s, c, battery, now, wheels);
    hide DistanceMove;
  }

  lemma LimitFront(i: Input, later: seq<Input>, clock: Clock, since: nat, duration: real)
    requires NoRestart(i)
    ensures LimitReached([i] + later, clock, since, duration) <==>
              Due(i, clock, since, duration) || LimitReached(later, clock, since, duration)
  {
    hide Due, NoRestart;
    var x := [i] + later;
    assert UpTo(x, 0) == [i];
    forall k | 0 <= k < |later|
      ensures Unrestarted(UpTo(x, k + 1)) <==> Unrestarted(UpTo(later, k))
    {
      assert UpTo(x, k + 1) == [i] + UpTo(later, k);
      UnrestartedFront(i, UpTo(later, k));
    }
    if Due(i, clock, since, duration) {
      assert Due(x[0], clock, since, duration) && Unrestarted(UpTo(x, 0));
    }
    if LimitReached(later, clock, since, duration) {
      var k :| 0 <= k < |later| && Due(later[k], clock, since, duration) && Unrestarted(UpTo(later, k));
      assert Due(x[k + 1], clock, since, duration) && Unrestarted(UpTo(x, k + 1));
    }
    if LimitReached(x, clock, since, duration) {
      var k :| 0 <= k < |x| && Due(x[k], clock, since, duration) && Unrestarted(UpTo(x, k));
      if k > 0 {
        assert Due(later[k - 1], clock, since, duration) && Unrestarted(UpTo(later, k - 1));
      }
    }
  }

  lemma UnrestartedFront(i: Input, later: seq<Input>)
    requires NoRestart(i)
    ensures Unrestarted([i] + later) <==> Unrestarted(later)
  {
    var x := [i] + later;
    assert forall j :: 0 <= j < |later| ==> x[j + 1] == later[j];
  }

  lemma NotStopped(s: State, since: nat, duration: real)
    ensures ArmedMove(s, since, duration) ==> !Stopped(s)
    ensures Parked(s) ==> (Stopped(s) <==> !s.enabled)
  {
  }

  /** The exact condition for 'D': the car is stopped if and only if some turn found the limit reached
      before any '~' was handled, or the first '~' found the motors off already. */
  lemma MoveDeadmanExactly(s: State, i: Input, later: seq<Input>)
    requires Inv(s) && i.command.Some? && i.command.value.MoveByFor? && Accepted(i.command.value, i.battery)
    requires forall k :: 0 <= k < |later| ==> Idle(later[k])
    ensures Stopped(Run(Turn(s, i), later)) <==>
              LimitReached([i] + later, StopClock, i.commandTime, Limit(i.command.value).value) ||
              (!Unrestarted(later) && !OnAtRestart(Turn(s, i), later))
  {
    var since, duration := i.commandTime, Limit(i.command.value).value;
    var i', t := i.(command := None), Turn(s, i);
    var s1 := HandleCommand(s, i.command.value, i.battery, i.commandTime, i.commandWheels);
    ArmedMoveStart(s, i.command.value, i.battery, i.commandTime, i.commandWheels);
    TurnSplits(s, i);
    assert Idle(i') && NoRestart(i) && i'.command != Some(Restart);
    assert Expired(i, since, duration) == Due(i, StopClock, since, duration) == Expired(i', since, duration);
    hide HandleCommand, Turn, Due, Expired, ArmedMove, Idle, Accepted, Limit, Inv, LimitReached, NoRestart, Unrestarted, OnAtRestart;
    ArmedMoveTurn(s1, i', since, duration);
    LimitFront(i, later, StopClock, since, duration);
    if Expired(i, since, duration) {
      forall k | 0 <= k < |later|
        ensures NoDrive(later[k])
      {
        IdleIsNoDrive(later[k]);
      }
      StoppedThroughout(t, later);
    } else {
      ArmedMoveRun(t, later, since, duration);
      NotStopped(Run(t, later), since, duration);
    }
  }

  // ----- The time limit of 'P' -----

  /** The avoidance will, after its first decision, start a velocity drive. */
  ghost predicate AboutToDrive(s: State) {
    s.avoid.active && s.oa.decision == Init && s.avoid.duration <= (WRAP - 1) as real
  }

  /** Nothing but the timed PWM can change the motors. */
  ghost predicate Calm(s: State) { !s.dist.active && !s.vel.active && !s.stop.active && !AboutToDrive(s) }

  ghost predicate Timing(s: State, since: nat, duration: real) {
    Calm(s) && s.enabled && s.timedPwm == Flag(true, duration, since)
  }

  ghost predicate TimedOut(i: Input, since: nat, duration: real) { Due(i, TimedClock, since, duration) }

  lemma CalmAvoid(s: State, now: nat, ir: Proximity)
    requires Calm(s)
    ensures var s' := AvoidTurn(s, now, ir); Calm(s') && s'.enabled == s.enabled && s'.timedPwm == s.timedPwm
  {
  }

  lemma CalmHandlers(s: State, i: Input)
    requires Calm(s) && i.command.None?
    ensures var s', t := Turn(s, i), TimedTurn(s, i.timedTime);
            Calm(s') && s'.enabled == t.enabled && s'.timedPwm == t.timedPwm
  {
    hide RunTask, Elapsed, AvoidTurn, AboutToDrive;
    var s2 := TimedTurn(s, i.timedTime);
    TimedKeepsAvoid(s, i.timedTime);
    CalmAvoid(s2, i.avoidTime, i.ir);
  }

  lemma TimedKeepsAvoid(s: State, now: nat)
    ensures AboutToDrive(TimedTurn(s, now)) == AboutToDrive(s)
  {
  }

  lemma CalmTurn(s: State, i: Input)
    requires Calm(s) && NoDrive(i)
    ensures var s' := Turn(s, i);
            Calm(s') &&
            (if i.command == Some(StopMotors) then !s'.enabled && !s'.timedPwm.active
             else if i.command == Some(Restart) then s'.enabled == s.enabled && !s'.timedPwm.active
             else s'.enabled == TimedTurn(s, i.timedTime).enabled && s'.timedPwm == TimedTurn(s, i.timedTime).timedPwm)
  {
    var i' := i.(command := None);
    if i.command == Some(StopMotors) {
      var s1 := HandleCommand(s, i.command.value, i.battery, i.commandTime, i.commandWheels);
      assert Calm(s1) && !s1.enabled && !s1.timedPwm.active;
      TurnSplits(s, i);
      hide Turn, Calm, HandleCommand;
      CalmHandlers(s1, i');
    } else if i.command.Some? {
      TurnSplits(s, i);
      IdleCommand(s, i);
      var s1 := if i.command == Some(Restart) then Reinitialize(s) else s;
      assert Calm(s1);
      hide Turn, Calm, HandleCommand;
      CalmHandlers(s1, i');
    } else {
      hide Turn, Calm;
      CalmHandlers(s, i);
    }
  }

  lemma TimedTurnBy(s: State, i: Input, since: nat, duration: real)
    ensures s.timedPwm == Flag(true, duration, since) ==>
              var t := TimedTurn(s, i.timedTime);
              if TimedOut(i, since, duration) then !t.enabled && !t.timedPwm.active else t == s
    ensures !s.timedPwm.active ==> TimedTurn(s, i.timedTime) == s
  {
  }

  /** A stop was handled. */
  ghost predicate StopHandled(inputs: seq<Input>) { exists k :: 0 <= k < |inputs| && inputs[k].command == Some(StopMotors) }

  lemma StopHandledLast(before: seq<Input>, last: Input)
    ensures StopHandled(before + [last]) <==> StopHandled(before) || last.command == Some(StopMotors)
  {
    var x := before + [last];
    assert forall k :: 0 <= k < |before| ==> x[k] == before[k];
    assert x[|before|] == last;
  }

  /** What is left of a timed PWM: on, switched off, or on for good since a '~'. */
  lemma {:induction false} TimedRun(s: State, inputs: seq<Input>, since: nat, duration: real)
    requires Timing(s, since, duration) && forall k :: 0 <= k < |inputs| ==> NoDrive(inputs[k])
    ensures var s' := Run(s, inputs);
            Calm(s') &&
            (if StopHandled(inputs) || LimitReached(inputs, TimedClock, since, duration)
             then !s'.enabled && !s'.timedPwm.active
             else s'.enabled && if Unrestarted(inputs) then s'.timedPwm == Flag(true, duration, since) else !s'.timedPwm.active)
    decreases |inputs|
  {
    hide Turn, Calm, NoDrive, NoRestart, Due, TimedTurn;
    if inputs == [] {
    } else {
      var before, last := inputs[..|inputs| - 1], inputs[|inputs| - 1];
      assert inputs == before + [last];
      hide LimitReached, Unrestarted, StopHandled;
      TimedRun(s, before, since, duration);
      LimitReachedLast(before, last, TimedClock, since, duration);
      StopHandledLast(before, last);
      RestartOrNot(last);
      CalmTurn(Run(s, before), last);
      TimedTurnBy(Run(s, before), last, since, duration);
    }
  }

  lemma TimedStart(s: State, c: Command, battery: real, now: nat, wheels: Wheels)
    requires c.TimedPwm? && Accepted(c, battery) && !AboutToDrive(s)
    ensures Timing(HandleCommand(s, c, battery, now, wheels), now, c.seconds * 1000.0)
  {
  }

  /** The exact condition for 'P' over all runs without another accepted drive command: accepted at any
      time but before the first decision of an avoidance, it ends with the motors off if and only if
      some turn found the limit reached before any '~' was handled, or a stop was handled. */
  lemma TimedPwmEnds(s: State, i: Input, later: seq<Input>)
    requires i.command.Some? && i.command.value.TimedPwm? && Accepted(i.command.value, i.battery) && !AboutToDrive(s)
    requires forall k :: 0 <= k < |later| ==> NoDrive(later[k])
    ensures !Run(Turn(s, i), later).enabled <==>
              StopHandled(later) || LimitReached([i] + later, TimedClock, i.commandTime, i.command.value.seconds * 1000.0)
  {
    var since, duration := i.commandTime, i.command.value.seconds * 1000.0;
    var i' := i.(command := None);
    var s1 := HandleCommand(s, i.command.value, i.battery, i.commandTime, i.commandWheels);
    TimedStart(s, i.command.value, i.battery, i.commandTime, i.commandWheels);
    TurnSplits(s, i);
    assert NoDrive(i') && NoRestart(i) && NoRestart(i');
    assert Due(i, TimedClock, since, duration) == Due(i', TimedClock, since, duration);
    var inputs := [i'] + later;
    assert StopHandled(inputs) <==> StopHandled(later) by {
      StopFront(i', later);
    }
    hide HandleCommand, Turn, Due, Timing, Calm, AboutToDrive, NoDrive, Accepted, LimitReached, NoRestart, StopHandled, Unrestarted;
    TimedRun(s1, inputs, since, duration);
    RunFront(s1, i', later);
    SameLimit(i, i', later, TimedClock, since, duration);
  }

  lemma StopFront(i: Input, later: seq<Input>)
    requires i.command != Some(StopMotors)
    ensures StopHandled([i] + later) <==> StopHandled(later)
  {
    var x := [i] + later;
    assert forall k :: 0 <= k < |later| ==> x[k + 1] == later[k];
    if StopHandled(later) {
      var k :| 0 <= k < |later| && later[k].command == Some(StopMotors);
      assert x[k + 1].command == Some(StopMotors);
    }
    if StopHandled(x) {
      var k :| 0 <= k < |x| && x[k].command == Some(StopMotors);
      assert later[k - 1].command == Some(StopMotors);
    }
  }

  /** The avoidance is on its way to a velocity drive, or in it; ranked by the turns still needed. */
  ghost predicate OnTheWay(s: State) {
    && s.avoid.active && s.avoid.duration <= (WRAP - 1) as real && !s.dist.active && !s.stop.active
    && (if s.vel.active then s.vel.duration == UPDATE_PERIOD else s.oa.decision == Init)
  }

  function TurnsToGo(s: State): nat {
    if s.vel.active then if s.firstTime then 1 else 0
    else match s.oa.readState
         case ReadLeft => 4
         case ReadRight => 3
         case RunDecision => 2
  }

  /** A turn so late that every flag is due. */
  function Late(s: State, since: nat): Input {
    Input(None, 0.0, 0, (since + (WRAP - 1)) % WRAP, 0, (s.vel.last + (WRAP - 1)) % WRAP, 0,
          (s.avoid.last + (WRAP - 1)) % WRAP, Wheels(0, 0), Wheels(0, 0), Proximity(0, LeftSide))
  }

  lemma LongPast(last: nat)
    ensures Elapsed((last + (WRAP - 1)) % WRAP, last) == WRAP - 1
  {
    var q := (last + (WRAP - 1)) / WRAP;
    ModShift(WRAP - 1, -q, WRAP);
    assert (last + (WRAP - 1)) % WRAP - last == (WRAP - 1) + (-q) * WRAP;
  }

  lemma LateTurn(s: State, since: nat, duration: real)
    requires OnTheWay(s) && duration <= (WRAP - 1) as real
    requires !s.timedPwm.active || s.timedPwm == Flag(true, duration, since)
    ensures var i, s' := Late(s, since), Turn(s, Late(s, since));
            && OnTheWay(s') && !s'.timedPwm.active && TimedOut(i, since, duration)
            && (if TurnsToGo(s) == 0 then s'.enabled else TurnsToGo(s') < TurnsToGo(s))
  {
    LongPast(since);
    LongPast(s.vel.last);
    LongPast(s.avoid.last);
    hide Elapsed, VelocityToDutyLeft, VelocityToDutyRight, CountsToDistance, Counts;
  }

  lemma {:induction false} LateRun(s: State, since: nat, duration: real) returns (inputs: seq<Input>)
    requires OnTheWay(s) && duration <= (WRAP - 1) as real
    requires !s.timedPwm.active || s.timedPwm == Flag(true, duration, since)
    ensures inputs != [] && TimedOut(inputs[0], since, duration) && Run(s, inputs).enabled
    ensures forall k :: 0 <= k < |inputs| ==> inputs[k].command.None?
    decreases TurnsToGo(s)
  {
    hide Turn, OnTheWay;
    LateTurn(s, since, duration);
    var i := Late(s, since);
    if TurnsToGo(s) == 0 {
      inputs := [i];
      RunFront(s, i, []);
      assert [i] + [] == [i];
    } else {
      var rest := LateRun(Turn(s, i), since, duration);
      inputs := [i] + rest;
      RunFront(s, i, rest);
    }
  }

  lemma AvoidanceGoesOn(s: State, i: Input)
    requires Exclusive(s) && i.command.Some? && i.command.value.TimedPwm? && Accepted(i.command.value, i.battery) && AboutToDrive(s)
    ensures var s' := Turn(s, i);
            OnTheWay(s') && (!s'.timedPwm.active || s'.timedPwm == Flag(true, i.command.value.seconds * 1000.0, i.commandTime))
  {
    hide Elapsed;
  }

  /** Turns without an accepted drive command or '~', one of which finds the limit reached. */
  ghost predicate Outlasts(later: seq<Input>, since: nat, duration: real) {
    && (forall k :: 0 <= k < |later| ==> NoDrive(later[k]) && NoRestart(later[k]))
    && exists k :: 0 <= k < |later| && TimedOut(later[k], since, duration)
  }

  /** 'P' ends with the motors off, and they stay off, in every such run, if and only if it was not
      accepted during an obstacle avoidance that has not decided yet. */
  lemma TimedPwmExactly(s: State, i: Input)
    requires Inv(s) && i.command.Some? && i.command.value.TimedPwm? && Accepted(i.command.value, i.battery)
    requires i.command.value.seconds * 1000.0 <= (WRAP - 1) as real
    ensures (forall later :: Outlasts(later, i.commandTime, i.command.value.seconds * 1000.0) ==> !Run(Turn(s, i), later).enabled)
            <==> !AboutToDrive(s)
  {
    var since, duration := i.commandTime, i.command.value.seconds * 1000.0;
    assert Exclusive(s);
    hide Turn, OnTheWay, AboutToDrive, Accepted, Inv, Due;
    if AboutToDrive(s) {
      AvoidanceGoesOn(s, i);
      var later := LateRun(Turn(s, i), since, duration);
      assert Outlasts(later, since, duration);
    } else {
      forall later | Outlasts(later, since, duration)
        ensures !Run(Turn(s, i), later).enabled
      {
        TimedPwmEnds(s, i, later);
        OutlastsReaches(i, later, since, duration);
      }
    }
  }

  lemma OutlastsReaches(i: Input, later: seq<Input>, since: nat, duration: real)
    requires NoRestart(i) && Outlasts(later, since, duration)
    ensures LimitReached([i] + later, TimedClock, since, duration)
  {
    hide Due, NoDrive;
    LimitFront(i, later, TimedClock, since, duration);
    var k :| 0 <= k < |later| && TimedOut(later[k], since, duration);
    assert Unrestarted(UpTo(later, k));
  }

  // ----- Distance moves -----

  /** Metres of track for an unbounded count. */
  function Metres(counts: int): real { counts as real * 2.0 * 3.14159 * 0.0195 / (12.0 * 75.81) }

  lemma MetresAdd(a: int, b: int)
    ensures Metres(a + b) == Metres(a) + Metres(b)
    ensures a >= 1 ==> Metres(a) >= Metres(1) > 0.0
  {
  }

  ghost predicate FitsInt16(counts: int) { -0x8000 <= counts < 0x8000 }

  lemma SmallDistance(counts: int)
    requires FitsInt16(counts)
    ensures CountsToDistance(counts) == Metres(counts)
  {
  }

  /** One track: what remains plus what was travelled since `base` is what was commanded, and a
      target has not changed its sign. */
  ghost predicate Track(remaining: real, commanded: real, travelled: int) {
    && remaining + Metres(travelled) == commanded
    && (commanded > 0.0 ==> remaining > 0.0)
    && (commanded < 0.0 ==> remaining < 0.0)
    && (commanded == 0.0 ==> remaining <= 0.0)
  }

  /** The commanded distances and the encoder counts they are measured from. */
  datatype Order = Order(left: real, right: real, baseLeft: int, baseRight: int)

  ghost predicate Moving(s: State, o: Order) {
    && Exclusive(s) && s.dist.active && !s.firstTime
    && Track(s.left.position, o.left, s.oldLeft - o.baseLeft)
    && Track(s.right.position, o.right, s.oldRight - o.baseRight)
  }

  /** No command, or one that leaves the drive alone. */
  ghost predicate Ignored(i: Input) { NoDrive(i) && NoRestart(i) && i.command != Some(StopMotors) }

  /** Nothing ends or replaces the move, and no track moved 2^15 counts since the last tick. */
  ghost predicate Undisturbed(s: State, i: Input) {
    && Ignored(i) && !Execute(s.stop, i.stopTime)
    && FitsInt16(LeftCounts(s, i) - s.oldLeft) && FitsInt16(RightCounts(s, i) - s.oldRight)
  }

  /** Total travel against the command. */
  ghost predicate OrderReached(s: State, o: Order, i: Input) {
    Reached(o.left, Metres(LeftCounts(s, i) - o.baseLeft)) || Reached(o.right, Metres(RightCounts(s, i) - o.baseRight))
  }

  lemma TrackTick(remaining: real, commanded: real, travelled: int, step: int)
    requires Track(remaining, commanded, travelled) && FitsInt16(step)
    ensures Reached(remaining, CountsToDistance(step)) <==> Reached(commanded, Metres(travelled + step))
    ensures !Reached(remaining, CountsToDistance(step)) ==>
              Track(remaining - CountsToDistance(step), commanded, travelled + step)
  {
    SmallDistance(step);
    MetresAdd(travelled, step);
    hide Metres, CountsToDistance;
  }

  lemma OnlyDistance(s: State, i: Input)
    requires Exclusive(s) && s.dist.active && Ignored(i) && !Execute(s.stop, i.stopTime)
    ensures var s3 := DistTurn(s, i.distTime, LeftCounts(s, i), RightCounts(s, i));
            Turn(s, i) == s3
  {
    hide CountsToDistance, VelocityToDutyLeft, VelocityToDutyRight, RunTask, Elapsed, Reached;
    if i.command.Some? {
      RefusedCommand(s, i);
    }
    hide HandleCommand;
  }

  lemma DistTick(s: State, i: Input, o: Order)
    requires Moving(s, o) && Undisturbed(s, i) && Execute(s.dist, i.distTime)
    ensures var s' := DistTurn(s, i.distTime, LeftCounts(s, i), RightCounts(s, i));
            if OrderReached(s, o, i)
            then !s'.dist.active && !s'.enabled && s'.firstTime && s'.left == STILL && s'.right == STILL
            else Moving(s', o) && s'.oldLeft == LeftCounts(s, i) && s'.oldRight == RightCounts(s, i)
  {
    hide VelocityToDutyLeft, VelocityToDutyRight, CountsToDistance, Metres, Elapsed, Track, Reached;
    TrackTick(s.left.position, o.left, s.oldLeft - o.baseLeft, LeftCounts(s, i) - s.oldLeft);
    TrackTick(s.right.position, o.right, s.oldRight - o.baseRight, RightCounts(s, i) - s.oldRight);
    assert (s.oldLeft - o.baseLeft) + (LeftCounts(s, i) - s.oldLeft) == LeftCounts(s, i) - o.baseLeft;
    assert (s.oldRight - o.baseRight) + (RightCounts(s, i) - s.oldRight) == RightCounts(s, i) - o.baseRight;
  }

  /** Conservation, tick by tick: the incremental test stops the car in exactly the tick in which the
      total travel of one track reaches the commanded distance; until then nothing is lost. */
  lemma MoveTurn(s: State, i: Input, o: Order)
    requires Moving(s, o) && Undisturbed(s, i)
    ensures var s' := Turn(s, i);
            if !Execute(s.dist, i.distTime) then s' == s
            else if OrderReached(s, o, i)
            then !s'.dist.active && !s'.enabled && s'.firstTime && s'.left == STILL && s'.right == STILL
            else Moving(s', o) && s'.oldLeft == LeftCounts(s, i) && s'.oldRight == RightCounts(s, i)
  {
    OnlyDistance(s, i);
    if Execute(s.dist, i.distTime) {
      DistTick(s, i, o);
    }
  }

  /** The counts a move is measured from: those of its first tick, or, when `first_time` was left
      false by an interrupted drive, the stale ones of that drive. */
  lemma MoveStarts(s: State, i: Input)
    requires Exclusive(s) && s.dist.active && Ignored(i) && !Execute(s.stop, i.stopTime)
    ensures s.firstTime && Execute(s.dist, i.distTime) ==>
              Moving(Turn(s, i), Order(s.left.position, s.right.position, LeftCounts(s, i), RightCounts(s, i)))
    ensures !s.firstTime ==> Moving(s, Order(s.left.position, s.right.position, s.oldLeft, s.oldRight))
  {
    OnlyDistance(s, i);
    hide Elapsed;
  }

  lemma NoDistance(step: int)
    ensures CountsToDistance(step) == 0.0 <==> Int16(step) == 0
  {
    hide Int16;
    var n := Int16(step);
    assert n >= 1 ==> n as real >= 1.0;
    assert n <= -1 ==> n as real <= -1.0;
  }

  /** Exactly when a move is measured from the counts its first tick sees: when `first_time` held, or
      when the stale counts do not differ from them (in 16 bits) and there is a way to go. */
  lemma MeasuredFromStart(s: State, i: Input)
    requires Exclusive(s) && s.dist.active && Ignored(i) && !Execute(s.stop, i.stopTime) && Execute(s.dist, i.distTime)
    ensures Moving(Turn(s, i), Order(s.left.position, s.right.position, LeftCounts(s, i), RightCounts(s, i))) <==>
              s.firstTime ||
              (Int16(LeftCounts(s, i) - s.oldLeft) == 0 && Int16(RightCounts(s, i) - s.oldRight) == 0
               && s.left.position != 0.0 && s.right.position != 0.0)
  {
    OnlyDistance(s, i);
    NoDistance(LeftCounts(s, i) - s.oldLeft);
    NoDistance(RightCounts(s, i) - s.oldRight);
    assert Metres(0) == 0.0;
    hide Turn, Elapsed, CountsToDistance, Int16, Metres, Counts, VelocityToDutyLeft, VelocityToDutyRight;
  }

  /** An accepted 'd' zeroes the encoders: where the wheels stand then, both counts are 0. So its
      distance is measured from there if `first_time` holds at once, or if the stale counts are 0. */
  lemma MoveZeroes(s: State, i: Input)
    requires i.command.Some? && i.command.value.MoveBy? && Accepted(i.command.value, i.battery)
    requires i.wheels == i.commandWheels
    ensures var s1 := HandleCommand(s, i.command.value, i.battery, i.commandTime, i.commandWheels);
            LeftCounts(s1, i) == RightCounts(s1, i) == 0 && s1.firstTime == s.firstTime &&
            s1.oldLeft == s.oldLeft && s1.oldRight == s.oldRight
  {
    hide DistanceMove;
  }

  function At(command: Option<Command>, wheels: Wheels): Input {
    Input(command, 5.0, 100, 100, 100, 100, 100, 100, wheels, wheels, Proximity(0, LeftSide))
  }

  const BACK_UP: seq<Input> := [At(Some(DriveAt(-0.2, 0.0)), Wheels(0, 0)), At(None, Wheels(-1000, -900)),
                                At(Some(StopMotors), Wheels(-1000, -900))]

  const GO: Input := At(Some(MoveBy(0.1, 0.0)), Wheels(-1000, -900))

  lemma BackedUp()
    ensures var s := Run(POWERED, BACK_UP);
            Exclusive(s) && !s.firstTime && s.oldLeft == -1000 && s.oldRight == -900 && s.dist.last == 0
            && !s.enabled && !s.avoid.active
  {
    var a, b, c := BACK_UP[0], BACK_UP[1], BACK_UP[2];
    hide VelocityToDutyLeft, VelocityToDutyRight, CountsToDistance;
    assert BACK_UP[..1] == [a] && BACK_UP[..2] == [a, b] && [a, b][..1] == [a] && [a][..0] == [];
    var s1 := Turn(POWERED, a);
    assert s1.vel.active && !s1.firstTime && s1.oldLeft == 0 && s1.oldRight == 0;
    var s2 := Turn(s1, b);
    assert s2.oldLeft == -1000 && s2.oldRight == -900;
    assert Run(POWERED, []) == POWERED;
    assert Run(POWERED, [a]) == s1;
    assert Run(POWERED, [a, b]) == s2;
    assert Run(POWERED, BACK_UP) == Turn(s2, c);
  }

  lemma StaleTick(s: State)
    requires s.dist == Flag(true, UPDATE_PERIOD, 0) && !s.firstTime && s.oldLeft == -1000 && s.oldRight == -900
    requires s.left.position == 0.1 && s.right.position == 0.1 && s.zero == GO.wheels
    ensures var s' := DistTurn(s, GO.distTime, LeftCounts(s, GO), RightCounts(s, GO));
            !s'.dist.active && !s'.enabled && s'.firstTime
  {
    hide VelocityToDutyLeft, VelocityToDutyRight;
    assert LeftCounts(s, GO) == 0 && RightCounts(s, GO) == 0;
    assert CountsToDistance(1000) >= 0.1;
  }

  /** So "a move travels its commanded distance" is false of the code: a reverse drive is stopped, the
      car stands, and 'd' with a distance of 0.1 is over in its first tick without having moved. */
  lemma StaleMove()
    ensures var s := Run(POWERED, BACK_UP + [GO]); !s.dist.active && !s.enabled && s.firstTime
    ensures GO.wheels == GO.commandWheels == BACK_UP[2].wheels
  {
    var s := Run(POWERED, BACK_UP);
    BackedUp();
    assert (BACK_UP + [GO])[..3] == BACK_UP;
    var s1 := HandleCommand(s, GO.command.value, 5.0, 100, GO.commandWheels);
    var i := GO.(command := None);
    TurnSplits(s, GO);
    hide Run, HandleCommand, Turn, DistTurn, Counts;
    StaleStart(s);
    StaleTick(s1);
    OnlyDistance(s1, i);
  }

  lemma StaleStart(s: State)
    requires Exclusive(s) && s.dist.last == 0
    ensures var s1 := HandleCommand(s, GO.command.value, 5.0, 100, GO.commandWheels);
            && Exclusive(s1) && s1.dist == Flag(true, UPDATE_PERIOD, 0) && !s1.stop.active && s1.zero == GO.wheels
            && s1.left.position == 0.1 && s1.right.position == 0.1
            && s1.firstTime == s.firstTime && s1.oldLeft == s.oldLeft && s1.oldRight == s.oldRight
  {
  }

  ghost predicate AllUndisturbed(s: State, inputs: seq<Input>)
    decreases |inputs|
  {
    inputs != [] ==>
      AllUndisturbed(s, inputs[..|inputs| - 1]) && Undisturbed(Run(s, inputs[..|inputs| - 1]), inputs[|inputs| - 1])
  }

  /** How many turns of a run ran the distance controller. */
  ghost function Ticks(s: State, inputs: seq<Input>): nat
    decreases |inputs|
  {
    if inputs == [] then 0
    else
      Ticks(s, inputs[..|inputs| - 1]) +
      if Execute(Run(s, inputs[..|inputs| - 1]).dist, inputs[|inputs| - 1].distTime) then 1 else 0
  }

  /** No tick reached the order. */
  ghost predicate NeverReached(s: State, inputs: seq<Input>, o: Order)
    decreases |inputs|
  {
    inputs != [] ==>
      var before, last := inputs[..|inputs| - 1], inputs[|inputs| - 1];
      NeverReached(s, before, o) && !(Execute(Run(s, before).dist, last.distTime) && OrderReached(Run(s, before), o, last))
  }

  /** Over a whole undisturbed run: as long as no tick saw the commanded distance travelled, the move
      is on and the books balance. */
  lemma {:induction false} MoveRun(s: State, inputs: seq<Input>, o: Order)
    requires Moving(s, o) && AllUndisturbed(s, inputs) && NeverReached(s, inputs, o)
    ensures Moving(Run(s, inputs), o)
    decreases |inputs|
  {
    if inputs == [] {
    } else {
      hide Moving, Turn, Undisturbed, Execute, OrderReached;
      MoveRun(s, inputs[..|inputs| - 1], o);
      MoveTurn(Run(s, inputs[..|inputs| - 1]), inputs[|inputs| - 1], o);
    }
  }

  datatype TrackId = LeftTrack | RightTrack

  function OldCount(s: State, t: TrackId): int { if t == LeftTrack then s.oldLeft else s.oldRight }

  function NewCount(s: State, i: Input, t: TrackId): int { if t == LeftTrack then LeftCounts(s, i) else RightCounts(s, i) }

  function BaseCount(o: Order, t: TrackId): int { if t == LeftTrack then o.baseLeft else o.baseRight }

  function Commanded(o: Order, t: TrackId): real { if t == LeftTrack then o.left else o.right }

  /** How far the track has come in the commanded direction since the last tick, in counts. */
  function Progress(o: Order, t: TrackId, before: int, after: int): int {
    if Commanded(o, t) > 0.0 then after - before else before - after
  }

  /** Every tick of the run sees the track at least one count further on. */
  ghost predicate Advances(s: State, inputs: seq<Input>, o: Order, t: TrackId)
    decreases |inputs|
  {
    inputs != [] ==>
      var before, last := inputs[..|inputs| - 1], inputs[|inputs| - 1];
      Advances(s, before, o, t) &&
      (Execute(Run(s, before).dist, last.distTime) ==>
         Progress(o, t, OldCount(Run(s, before), t), NewCount(Run(s, before), last, t)) >= 1)
  }

  lemma {:induction false} AdvanceCounts(s: State, inputs: seq<Input>, o: Order, t: TrackId)
    requires Moving(s, o) && AllUndisturbed(s, inputs) && NeverReached(s, inputs, o) && Advances(s, inputs, o, t)
    ensures Progress(o, t, OldCount(s, t), OldCount(Run(s, inputs), t)) >= Ticks(s, inputs)
    decreases |inputs|
  {
    if inputs == [] {
    } else {
      hide Moving, Turn, Undisturbed, Execute, OrderReached;
      var before := inputs[..|inputs| - 1];
      AdvanceCounts(s, before, o, t);
      MoveRun(s, before, o);
      MoveTurn(Run(s, before), inputs[|inputs| - 1], o);
    }
  }

  lemma TrackLeft(s: State, o: Order, t: TrackId)
    requires Moving(s, o) && Commanded(o, t) != 0.0
    ensures Metres(Progress(o, t, BaseCount(o, t), OldCount(s, t))) < Abs(Commanded(o, t))
  {
    var travelled := OldCount(s, t) - BaseCount(o, t);
    MetresAdd(travelled, -travelled);
    assert Metres(0) == 0.0;
    hide Metres;
  }

  /** Termination: ticks that each see at least one count of progress on either track, in the
      commanded direction, are fewer than its commanded distance in counts; one of the next ones ends
      the move. */
  lemma MoveEnds(s: State, inputs: seq<Input>, o: Order, t: TrackId)
    requires Moving(s, o) && Commanded(o, t) != 0.0 && OldCount(s, t) == BaseCount(o, t)
    requires AllUndisturbed(s, inputs) && NeverReached(s, inputs, o) && Advances(s, inputs, o, t)
    ensures Metres(Ticks(s, inputs)) < Abs(Commanded(o, t))
  {
    MoveRun(s, inputs, o);
    AdvanceCounts(s, inputs, o, t);
    TrackLeft(Run(s, inputs), o, t);
    var n, p := Ticks(s, inputs), Progress(o, t, OldCount(s, t), OldCount(Run(s, inputs), t));
    MetresAdd(n, p - n);
    assert Metres(p - n) >= 0.0;
  }
}
