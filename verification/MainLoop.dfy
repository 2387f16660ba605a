/** Application/Main.c: the globals and the flag handlers of the main loop, with the command handlers
    and the obstacle avoidance they share them with. */
module MainLoop {
  import opened Bits
  import opened Flags
  import opened Avoidance
  import opened Geometry
  import opened Drive
  import opened DriveSafety

  class Robot {
    var mfTimedPwm: Flag
    var mfDist: Flag
    var mfVel: Flag
    var mfStop: Flag
    var mfAvoid: Flag
    var pwmEnabled: bool
    var dutyLeft: int
    var dutyRight: int
    var leftMotor: Motor
    var rightMotor: Motor
    var firstTime: bool
    var ticksLeftOld: int
    var ticksRightOld: int
    var zero: Wheels               // what the decoders had counted when they were last zeroed
    var readState: ReadState
    var oaState: Decision
    var alpha: nat
    ghost var actions: seq<Action>
    ghost var decisions: seq<Decision>

    ghost function OaAbs(): Oa
      reads this
    {
      Oa(readState, oaState, alpha, actions, decisions)
    }

    ghost function Abs(): State
      reads this
    {
      State(mfTimedPwm, mfDist, mfVel, mfStop, mfAvoid, pwmEnabled, dutyLeft, dutyRight,
            leftMotor, rightMotor, firstTime, ticksLeftOld, ticksRightOld, zero, OaAbs())
    }

    /** InitializeSystem */
    constructor ()
      ensures Abs() == POWERED && Inv(Abs())
    {
      mfTimedPwm, mfDist, mfVel, mfStop, mfAvoid := CLEARED, CLEARED, ZEROED, CLEARED, ZEROED;
      pwmEnabled, dutyLeft, dutyRight := false, 0, 0;
      leftMotor, rightMotor := STILL, STILL;
      firstTime, ticksLeftOld, ticksRightOld, zero := true, 0, 0, Wheels(0, 0);
      readState, oaState, alpha := ReadLeft, Init, 0;
      actions, decisions := [], [];
      new;
      StartIsInv();
    }

    /** Reset_Drive_Flags */
    method ResetDriveFlags()
      modifies this
      ensures Abs() == ResetFlags(old(Abs()))
    {
      mfAvoid := mfAvoid.(active := false);
      mfDist := mfDist.(active := false);
      mfVel := mfVel.(active := false);
      mfStop := mfStop.(active := false);
      mfTimedPwm := mfTimedPwm.(active := false);
    }

    method SetPwm(left: int, right: int, enable: bool)
      modifies this
      ensures Abs() == old(Abs()).(dutyLeft := left, dutyRight := right, enabled := enable)
    {
      dutyLeft, dutyRight, pwmEnabled := left, right, enable;
    }

    method SetTargets(left: Motor, right: Motor)
      modifies this
      ensures Abs() == old(Abs()).(left := left, right := right)
    {
      leftMotor, rightMotor := left, right;
    }

    /** The drive commands of Message_Handling_Task, and the restart that '~' causes in the same turn. */
    method HandleMessage(c: Command, battery: real, now: nat, wheels: Wheels)
      modifies this
      ensures Abs() == HandleCommand(old(Abs()), c, battery, now, wheels)
    {
      hide StartMove, StartVelocity, ArmStop;
      match c {
        case SetPwm(l, r) =>
          if battery >= ENOUGH_POWER {
            DirectPwm(l, r);
            mfTimedPwm := mfTimedPwm.(active := false);
          }
        case TimedPwm(l, r, seconds) =>
          if battery >= ENOUGH_POWER {
            if seconds > 0.0 {
              DirectPwm(l, r);
              mfTimedPwm := Flag(true, seconds * 1000.0, now);
            }
          }
        case StopMotors =>
          ResetDriveFlags();
          Halt();
        case MoveBy(linear, angular) =>
          if battery >= ENOUGH_POWER {
            BeginMove(linear, angular, wheels);
          }
        case MoveByFor(linear, angular, seconds) =>
          if battery >= ENOUGH_POWER {
            BeginMove(linear, angular, wheels);
            ArmMotorStop(seconds, now);
          }
        case DriveAt(velocity, angular) =>
          if battery >= ENOUGH_POWER {
            BeginDrive(velocity, angular, wheels);
          }
        case DriveAtFor(velocity, angular, seconds) =>
          if battery >= ENOUGH_POWER {
            BeginDrive(velocity, angular, wheels);
            ArmMotorStop(seconds, now);
          }
        case Avoid(seconds) =>
          if battery >= ENOUGH_POWER {
            if seconds > 0.0 {
              BeginAvoidance(seconds);
            }
          }
        case Restart =>
          mfTimedPwm, mfDist, mfStop := CLEARED, CLEARED, CLEARED;
        case Other =>
      }
    }

    method DirectPwm(left: int, right: int)
      modifies this
      ensures var s := old(Abs());
              Abs() == s.(enabled := true, dutyLeft := left, dutyRight := right, dist := Inactive(s.dist),
                          vel := Inactive(s.vel), stop := Inactive(s.stop))
    {
      SetPwm(left, right, true);
      mfDist, mfVel, mfStop := mfDist.(active := false), mfVel.(active := false), mfStop.(active := false);
    }

    method BeginMove(linear: real, angular: real, wheels: Wheels)
      modifies this
      ensures Abs() == StartMove(old(Abs()), linear, angular, wheels)
    {
      hide DistanceMove;
      ResetDriveFlags();
      var m := DistanceMove(linear, angular);
      SetTargets(Motor(m.position.left, m.velocity.left), Motor(m.position.right, m.velocity.right));
      ZeroEncoders(wheels);
      mfDist := mfDist.(active := true, duration := UPDATE_PERIOD);
    }

    method BeginDrive(velocity: real, angular: real, wheels: Wheels)
      modifies this
      ensures Abs() == StartVelocity(old(Abs()), velocity, angular, wheels)
    {
      hide VelocityMove;
      ResetDriveFlags();
      var t := VelocityMove(velocity, angular);
      SetTargets(Motor(0.0, t.left), Motor(0.0, t.right));
      ZeroEncoders(wheels);
      mfVel := mfVel.(active := true, duration := UPDATE_PERIOD);
    }

    method ArmMotorStop(seconds: real, now: nat)
      modifies this
      ensures Abs() == ArmStop(old(Abs()), seconds, now)
    {
      mfStop := Flag(true, seconds * 1000.0, now);
    }

    method BeginAvoidance(seconds: real)
      modifies this
      ensures var s := old(Abs());
              Abs() == ResetFlags(s).(oa := STARTED, avoid := Flag(true, seconds * 1000.0, s.avoid.last))
    {
      ResetDriveFlags();
      InitObstacleAvoidance();
      mfAvoid := mfAvoid.(active := true, duration := seconds * 1000.0);
    }

    /** Zero_Encoders */
    method ZeroEncoders(wheels: Wheels)
      modifies this
      ensures Abs() == old(Abs()).(zero := wheels)
    {
      zero := wheels;
    }

    /** Init_Obstacle_Avoidance */
    method InitObstacleAvoidance()
      modifies this
      ensures Abs() == old(Abs()).(oa := STARTED)
    {
      readState, oaState, alpha := ReadLeft, Init, 0;
      actions, decisions := [], [];
    }

    method TimedPwmHandler(now: nat)
      modifies this
      ensures Abs() == TimedTurn(old(Abs()), now)
    {
      if Execute(mfTimedPwm, now) {
        SetPwm(0, 0, false);
        mfTimedPwm := mfTimedPwm.(active := false);
      }
    }

    method DistanceHandler(now: nat, countsLeft: int, countsRight: int)
      modifies this
      ensures Abs() == DistTurn(old(Abs()), now, countsLeft, countsRight)
    {
      hide CountsToDistance, VelocityToDutyLeft, VelocityToDutyRight, Execute;
      if Execute(mfDist, now) {
        if firstTime {
          ticksLeftOld, ticksRightOld, firstTime := countsLeft, countsRight, false;
        } else {
          ControlDistance(now, countsLeft, countsRight);
        }
      }
    }

    method ControlDistance(now: nat, countsLeft: int, countsRight: int)
      requires Execute(mfDist, now) && !firstTime
      modifies this
      ensures Abs() == DistTurn(old(Abs()), now, countsLeft, countsRight)
    {
      hide CountsToDistance, VelocityToDutyLeft, VelocityToDutyRight, Execute;
      var measuredLeft := CountsToDistance(countsLeft - ticksLeftOld);
      var measuredRight := CountsToDistance(countsRight - ticksRightOld);
      var doneLeft := if leftMotor.position > 0.0 then measuredLeft >= leftMotor.position
                      else measuredLeft <= leftMotor.position;
      var doneRight := if rightMotor.position > 0.0 then measuredRight >= rightMotor.position
                       else measuredRight <= rightMotor.position;
      if doneLeft || doneRight {
        Halt();
        mfDist := mfDist.(active := false);
        firstTime := true;
      } else {
        Steer(measuredLeft, measuredRight);
        ticksLeftOld, ticksRightOld := countsLeft, countsRight;
        mfDist := mfDist.(last := now);
      }
    }

    method Halt()
      modifies this
      ensures Abs() == old(Abs()).(dutyLeft := 0, dutyRight := 0, enabled := false, left := STILL, right := STILL)
    {
      dutyLeft, dutyRight, pwmEnabled := 0, 0, false;
      leftMotor, rightMotor := STILL, STILL;
    }

    /** Both targets shrink by what was travelled; the duties follow the signs of what remains. */
    method Steer(measuredLeft: real, measuredRight: real)
      modifies this
      ensures var s := old(Abs());
              var l, r := s.left.position - measuredLeft, s.right.position - measuredRight;
              Abs() == s.(left := s.left.(position := l), right := s.right.(position := r), enabled := true,
                          dutyLeft := Signed(l, VelocityToDutyLeft(s.left.velocity)),
                          dutyRight := Signed(r, VelocityToDutyRight(s.right.velocity)))
    {
      hide VelocityToDutyLeft, VelocityToDutyRight, Int16;
      leftMotor := leftMotor.(position := leftMotor.position - measuredLeft);
      rightMotor := rightMotor.(position := rightMotor.position - measuredRight);
      var pwmLeft := VelocityToDutyLeft(leftMotor.velocity);
      var pwmRight := VelocityToDutyRight(rightMotor.velocity);
      dutyLeft := if leftMotor.position > 0.0 then pwmLeft else Int16(-1 * pwmLeft);
      dutyRight := if rightMotor.position > 0.0 then pwmRight else Int16(-1 * pwmRight);
      pwmEnabled := true;
    }

    method VelocityHandler(now: nat, countsLeft: int, countsRight: int)
      modifies this
      ensures Abs() == VelTurn(old(Abs()), now, countsLeft, countsRight)
    {
      hide VelocityToDutyLeft, VelocityToDutyRight, Elapsed;
      if Execute(mfVel, now) {
        if firstTime {
          ticksLeftOld, ticksRightOld, firstTime := countsLeft, countsRight, false;
        } else {
          SetPwm(VelocityToDutyLeft(leftMotor.velocity), VelocityToDutyRight(rightMotor.velocity), true);
          ticksLeftOld, ticksRightOld := countsLeft, countsRight;
          mfVel := mfVel.(last := now);
        }
      }
    }

    method StopHandler(now: nat)
      modifies this
      ensures Abs() == StopTurn(old(Abs()), now)
    {
      if Execute(mfStop, now) {
        Halt();
        mfStop, mfDist := mfStop.(active := false), mfDist.(active := false);
        mfVel, mfTimedPwm := mfVel.(active := false), mfTimedPwm.(active := false);
      }
    }

    /** Run_State_Machine */
    method RunStateMachine(ir: Proximity)
      modifies this
      ensures var s, r := old(Abs()), Decide(old(OaAbs()), ir);
              Abs() == s.(oa := r.0,
                          left := if r.2 then s.left.(velocity := r.1.left) else s.left,
                          right := if r.2 then s.right.(velocity := r.1.right) else s.right,
                          vel := if s.oa.decision == Init then Flag(true, UPDATE_PERIOD, s.vel.last) else s.vel)
    {
      match oaState {
        case Init =>
          if ir.count == 0 {
            SetVelocities(STRAIGHT);
            oaState := DriveStraight;
          } else if ir.side == RightSide {
            SetVelocities(LEFT_PAIR);
            oaState := TurnLeft;
          } else {
            SetVelocities(RIGHT_PAIR);
            oaState := TurnRight;
          }
          mfVel := mfVel.(active := true, duration := UPDATE_PERIOD);
        case DriveStraight =>
          if ir.count > 0 {
            if ir.side == RightSide {
              SetVelocities(LEFT_PAIR);
              oaState := TurnLeft;
            } else {
              SetVelocities(RIGHT_PAIR);
              oaState := TurnRight;
            }
          }
        case TurnRight =>
          if ir.count == 0 {
            oaState := Holding;
          }
        case TurnLeft =>
          if ir.count == 0 {
            oaState := Holding;
          }
        case Holding =>
          alpha := alpha + 1;
          if alpha >= OA_HOLD_TIMEOUT {
            alpha := 0;
            SetVelocities(STRAIGHT);
            oaState := DriveStraight;
          }
      }
    }

    method SetVelocities(t: Targets)
      modifies this
      ensures var s := old(Abs());
              Abs() == s.(left := s.left.(velocity := t.left), right := s.right.(velocity := t.right))
    {
      leftMotor := leftMotor.(velocity := t.left);
      rightMotor := rightMotor.(velocity := t.right);
    }

    /** Run_OA_Task under its flag. */
    method AvoidanceHandler(now: nat, ir: Proximity)
      modifies this
      ensures Abs() == AvoidTurn(old(Abs()), now, ir)
    {
      hide Elapsed;
      if Execute(mfAvoid, now) {
        var runAgain := true;
        match readState {
          case ReadLeft =>
            readState := ReadRight;
            actions := actions + [SensedLeft];
          case ReadRight =>
            readState := RunDecision;
            actions := actions + [SensedRight];
          case RunDecision =>
            RunStateMachine(ir);
            runAgain := false;
            readState := ReadLeft;
            actions, decisions := actions + [Decided], decisions + [oaState];
        }
        if !runAgain {
          mfAvoid := mfAvoid.(last := now);
        }
      }
    }

    /** One turn of the main loop keeps the invariants of every reachable state. */
    method Loop(i: Input)
      modifies this
      ensures Abs() == Turn(old(Abs()), i)
      ensures Inv(old(Abs())) ==> Inv(Abs())
    {
      hide HandleCommand, TimedTurn, DistTurn, VelTurn, StopTurn, AvoidTurn, Inv;
      if Inv(Abs()) {
        TurnKeepsInv(Abs(), i);
      }
      if i.command.Some? {
        HandleMessage(i.command.value, i.battery, i.commandTime, i.commandWheels);
      }
      TimedPwmHandler(i.timedTime);
      DistanceHandler(i.distTime, Counts(i.wheels.left, zero.left), Counts(i.wheels.right, zero.right));
      VelocityHandler(i.velTime, Counts(i.wheels.left, zero.left), Counts(i.wheels.right, zero.right));
      StopHandler(i.stopTime);
      AvoidanceHandler(i.avoidTime, i.ir);
    }
  }
}
