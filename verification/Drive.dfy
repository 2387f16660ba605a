/** The drive state machine shared by Application/MEGN540_MessageHandeling.c (commands),
    Application/Main.c (flag handlers) and Application/Obstacle_Avoidance.c. */
module Flags {

  const WRAP: nat := 0x1_0000_0000

  /** MSG_FLAG_t: `last` is a uint32_t millisecond count, `duration` is in milliseconds. */
  datatype Flag = Flag(active: bool, duration: real, last: nat)

  const CLEARED: Flag := Flag(false, -1.0, 0)   // MSG_FLAG_Init
  const ZEROED: Flag := Flag(false, 0.0, 0)     // a static that was never initialised

  /** Milliseconds since a time stamp, modulo 2^32. */
  function Elapsed(now: nat, last: nat): (n: nat)
    ensures n < WRAP
  {
    (now - last) % WRAP
  }

  /** MSG_FLAG_Execute */
  predicate Execute(f: Flag, now: nat) {
    f.active && Elapsed(now, f.last) as real >= f.duration
  }
}

module Avoidance {

  datatype Side = LeftSide | RightSide

  /** IR_Counts: the larger of the two hit counts and its side. */
  datatype Proximity = Proximity(count: nat, side: Side)

  datatype ReadState = ReadLeft | ReadRight | RunDecision

  datatype Decision = Init | DriveStraight | TurnLeft | TurnRight | Holding

  datatype Action = SensedLeft | SensedRight | Decided

  const OA_HOLD_TIMEOUT: nat := 4

  /** The three statics of Obstacle_Avoidance.c, and as history what happened since the last
      Init_Obstacle_Avoidance: the actions, and the decision state after each decision. */
  datatype Oa = Oa(readState: ReadState, decision: Decision, alpha: nat,
                   actions: seq<Action>, decisions: seq<Decision>)

  const STARTED: Oa := Oa(ReadLeft, Init, 0, [], [])

  datatype Targets = Targets(left: real, right: real)

  const STRAIGHT: Targets := Targets(30.0 * 0.0033 + 0.0133, 30.0 * 0.0034 + 0.0133)
  const LEFT_PAIR: Targets := Targets(0.07, 0.07 + 0.098 * 1.5)
  const RIGHT_PAIR: Targets := Targets(0.07 + 0.098 * 1.5, 0.07)

  /** Run_State_Machine: the new state and, where it assigns them, the target velocities. */
  function Decide(oa: Oa, ir: Proximity): (r: (Oa, Targets, bool))
  {
    match oa.decision
    case Init =>
      if ir.count == 0 then (oa.(decision := DriveStraight), STRAIGHT, true)
      else if ir.side == RightSide then (oa.(decision := TurnLeft), LEFT_PAIR, true)
      else (oa.(decision := TurnRight), RIGHT_PAIR, true)
    case DriveStraight =>
      if ir.count > 0 then
        if ir.side == RightSide then (oa.(decision := TurnLeft), LEFT_PAIR, true)
        else (oa.(decision := TurnRight), RIGHT_PAIR, true)
      else (oa, STRAIGHT, false)
    case TurnRight => (if ir.count == 0 then oa.(decision := Holding) else oa, STRAIGHT, false)
    case TurnLeft => (if ir.count == 0 then oa.(decision := Holding) else oa, STRAIGHT, false)
    case Holding =>
      if oa.alpha + 1 >= OA_HOLD_TIMEOUT then (oa.(alpha := 0, decision := DriveStraight), STRAIGHT, true)
      else (oa.(alpha := oa.alpha + 1), STRAIGHT, false)
  }

  // ----- What the histories look like in every reachable state -----

  /** Left read, right read, decision, and again. */
  ghost predicate Cyclic(oa: Oa) {
    && (forall i :: 0 <= i < |oa.actions| ==>
          oa.actions[i] == if i % 3 == 0 then SensedLeft else if i % 3 == 1 then SensedRight else Decided)
    && oa.readState == (if |oa.actions| % 3 == 0 then ReadLeft else if |oa.actions| % 3 == 1 then ReadRight else RunDecision)
    && |oa.decisions| == |oa.actions| / 3
  }

  /** How many decisions the history has been holding for at its end. */
  function HoldAge(ds: seq<Decision>): nat
    decreases |ds|
  {
    if ds == [] || ds[|ds| - 1] != Holding then 0 else 1 + HoldAge(ds[..|ds| - 1])
  }

  /** May the decision state d follow the history ds? A hold is entered from a turn, goes on until it
      has lasted exactly OA_HOLD_TIMEOUT decisions, and only then ends, straight ahead. */
  predicate MayFollow(ds: seq<Decision>, d: Decision) {
    if ds == [] then d != Holding && d != Init
    else
      match ds[|ds| - 1]
      case Init => false
      case DriveStraight => d == DriveStraight || d == TurnLeft || d == TurnRight
      case TurnLeft => d == TurnLeft || d == Holding
      case TurnRight => d == TurnRight || d == Holding
      case Holding => if HoldAge(ds) == OA_HOLD_TIMEOUT then d == DriveStraight else d == Holding
  }

  ghost predicate Legal(ds: seq<Decision>)
    decreases |ds|
  {
    ds != [] ==> Legal(ds[..|ds| - 1]) && MayFollow(ds[..|ds| - 1], ds[|ds| - 1])
  }

  /** alpha counts the decisions since the running hold was entered, and is 0 otherwise. */
  ghost predicate AlphaCounts(oa: Oa) {
    && oa.decision == (if oa.decisions == [] then Init else oa.decisions[|oa.decisions| - 1])
    && oa.alpha < OA_HOLD_TIMEOUT
    && HoldAge(oa.decisions) == (if oa.decision == Holding then oa.alpha + 1 else 0)
    && (oa.decision != Holding ==> oa.alpha == 0)
  }

  ghost predicate OaInv(oa: Oa) { Cyclic(oa) && Legal(oa.decisions) && AlphaCounts(oa) }

  /** Run_OA_Task with its reading of the sensor; the last component says whether it wants to run
      again at once. */
  function RunTask(oa: Oa, ir: Proximity): (r: (Oa, Targets, bool, bool))
  {
    match oa.readState
    case ReadLeft => (oa.(readState := ReadRight, actions := oa.actions + [SensedLeft]), STRAIGHT, false, true)
    case ReadRight => (oa.(readState := RunDecision, actions := oa.actions + [SensedRight]), STRAIGHT, false, true)
    case RunDecision =>
      var (oa', targets, isSet) := Decide(oa, ir);
      (oa'.(readState := ReadLeft, actions := oa.actions + [Decided], decisions := oa.decisions + [oa'.decision]),
       targets, isSet, false)
  }

  lemma DecisionAppends(ds: seq<Decision>, d: Decision)
    ensures Legal(ds + [d]) <==> Legal(ds) && MayFollow(ds, d)
    ensures HoldAge(ds + [d]) == if d == Holding then 1 + HoldAge(ds) else 0
  {
    assert (ds + [d])[..|ds|] == ds;
  }

  lemma DecideIsLegal(oa: Oa, ir: Proximity)
    requires Legal(oa.decisions) && AlphaCounts(oa)
    ensures var oa' := Decide(oa, ir).0;
            MayFollow(oa.decisions, oa'.decision) && oa'.alpha < OA_HOLD_TIMEOUT &&
            (if oa'.decision == Holding then oa'.alpha == HoldAge(oa.decisions) else oa'.alpha == 0)
  {
    hide HoldAge;
  }

  lemma CyclicStep(oa: Oa, ir: Proximity)
    requires Cyclic(oa)
    ensures Cyclic(RunTask(oa, ir).0)
  {
    hide Decide;
    var n := |oa.actions|;
    assert n % 3 == 0 || n % 3 == 1 || n % 3 == 2;
    assert (n + 1) % 3 == if n % 3 == 2 then 0 else n % 3 + 1;
    assert (n + 1) / 3 == if n % 3 == 2 then n / 3 + 1 else n / 3;
  }

  /** One run of the task keeps all of it. */
  lemma TaskKeepsInv(oa: Oa, ir: Proximity)
    requires OaInv(oa)
    ensures OaInv(RunTask(oa, ir).0)
  {
    hide Cyclic, Legal, HoldAge, Decide, MayFollow;
    CyclicStep(oa, ir);
    if oa.readState == RunDecision {
      DecideIsLegal(oa, ir);
      DecisionAppends(oa.decisions, Decide(oa, ir).0.decision);
    }
  }
}

module Geometry {
  import opened Bits
  import opened Avoidance

  const WHEEL_BASE: real := 0.098
  const HALF_WHEEL_BASE: real := 0.049
  const TURN_VELOCITY: real := 0.1
  const MIN_TURN_ARC: real := 0.04
  const SPIN_DUTY: int := 25

  function DutyToVelocityLeft(duty: int): real { duty as real * 0.0033 + 0.0133 }

  function DutyToVelocityRight(duty: int): real { duty as real * 0.0034 + 0.0133 }

  function VelocityToDutyLeft(velocity: real): int { Int16(Truncate((velocity - 0.0133) / 0.0033)) }

  function VelocityToDutyRight(velocity: real): int { Int16(Truncate((velocity - 0.0133) / 0.0034)) }

  predicate GoesStraight(angular: real) { -0.01 < angular < 0.01 }

  function Abs(x: real): real { if x < 0.0 then -x else x }

  /** The target positions and velocities of the commands 'd' and 'D'. */
  datatype Move = Move(position: Targets, velocity: Targets)

  function DistanceMove(linear: real, angular: real): Move {
    if GoesStraight(angular) then
      Move(Targets(linear, linear), Targets(DutyToVelocityLeft(75), DutyToVelocityRight(75)))
    else
      var arc := if linear < 0.0 then linear * -1.0 else linear;
      if arc < MIN_TURN_ARC then
        var d := HALF_WHEEL_BASE * angular / 2.0;
        var spin := Targets(DutyToVelocityLeft(SPIN_DUTY), DutyToVelocityRight(SPIN_DUTY));
        if angular > 0.0 then Move(Targets(-1.0 * d, d), spin) else Move(Targets(d, -1.0 * d), spin)
      else if angular > 0.0 then
        var outer := angular * (arc / angular + WHEEL_BASE);
        Move(Targets(arc, outer), Targets(TURN_VELOCITY, outer / (arc / TURN_VELOCITY)))
      else
        var angle := angular * -1.0;
        var outer := angle * (arc / angle + WHEEL_BASE);
        Move(Targets(outer, arc), Targets(outer / (arc / TURN_VELOCITY), TURN_VELOCITY))
  }

  /** The target velocities of the commands 'v' and 'V'. */
  function VelocityMove(velocity: real, angular: real): Targets {
    if GoesStraight(angular) then Targets(velocity, velocity)
    else if angular > 0.0 then Targets(velocity, velocity + WHEEL_BASE * angular)
    else Targets(velocity + WHEEL_BASE * angular, velocity)
  }

  lemma OuterArc(arc: real, angle: real)
    requires angle > 0.0
    ensures angle * (arc / angle + WHEEL_BASE) == arc + WHEEL_BASE * angle
  {
    var r := arc / angle;
    assert r * angle == arc;
  }

  lemma OuterTime(arc: real, outer: real)
    requires arc >= MIN_TURN_ARC
    ensures (outer / (arc / TURN_VELOCITY)) * arc == outer * TURN_VELOCITY
  {
    var t := arc / TURN_VELOCITY;
    assert t * TURN_VELOCITY == arc;
    var v := outer / t;
    assert v * t == outer;
    assert v * arc == (v * t) * TURN_VELOCITY;
  }

  /** An arc turn: the outer track is longer by the wheel base times the angle, and both tracks need
      the same time (velocity left : velocity right = distance left : distance right). */
  lemma ArcTurn(linear: real, angular: real)
    requires !GoesStraight(angular) && Abs(linear) >= MIN_TURN_ARC
    ensures var m := DistanceMove(linear, angular);
            && m.position.right - m.position.left == WHEEL_BASE * angular
            && m.velocity.left * m.position.right == m.velocity.right * m.position.left
            && (if angular > 0.0 then m.position.left else m.position.right) == Abs(linear)
  {
    var arc, angle := Abs(linear), Abs(angular);
    OuterArc(arc, angle);
    OuterTime(arc, angle * (arc / angle + WHEEL_BASE));
  }

  /** The documentation promises that a negative angle turns right (the left track runs further). For
      'd' and 'D' that is so exactly when the arc is not a spin: spins always go left. */
  lemma NegativeAngleTurnsRight(linear: real, angular: real)
    requires !GoesStraight(angular) && angular < 0.0
    ensures var m := DistanceMove(linear, angular);
            m.position.left > m.position.right <==> Abs(linear) >= MIN_TURN_ARC
  {
    if Abs(linear) >= MIN_TURN_ARC {
      ArcTurn(linear, angular);
    }
  }

  /** For 'v' and 'V' the right track is always the faster one: the car turns left for every angle. */
  lemma VelocityTurnsLeft(velocity: real, angular: real)
    requires !GoesStraight(angular)
    ensures var t := VelocityMove(velocity, angular); t.right - t.left == WHEEL_BASE * Abs(angular) > 0.0
  {
  }

  /** ECount_to_Distance: its parameter is a 16-bit int. */
  function CountsToDistance(counts: int): real {
    Int16(counts) as real * 2.0 * 3.14159 * 0.0195 / (12.0 * 75.81)
  }
}

module Drive {
  import opened Common
  import opened Bits
  import opened Flags
  import opened Avoidance
  import opened Geometry

  /** The decoded commands that matter to the drive; the rest is Other. */
  datatype Command =
    | SetPwm(left: int, right: int)                                       // p
    | TimedPwm(left: int, right: int, seconds: real)                      // P
    | StopMotors                                                          // s, S
    | MoveBy(linear: real, angular: real)                                 // d
    | MoveByFor(linear: real, angular: real, seconds: real)               // D
    | DriveAt(velocity: real, angular: real)                              // v
    | DriveAtFor(velocity: real, angular: real, seconds: real)            // V
    | Avoid(seconds: real)                                                // O
    | Restart                                                             // ~
    | Other

  /** One motor controller: its targets. */
  datatype Motor = Motor(position: real, velocity: real)

  const STILL: Motor := Motor(0.0, 0.0)

  const UPDATE_PERIOD: real := 10.0

  datatype State = State(
    timedPwm: Flag, dist: Flag, vel: Flag, stop: Flag, avoid: Flag,
    enabled: bool, dutyLeft: int, dutyRight: int,
    left: Motor, right: Motor,
    firstTime: bool, oldLeft: int, oldRight: int, zero: Wheels,
    oa: Oa)

  /** What the decoders of the two wheels have counted since power-up, as if they were never zeroed. */
  datatype Wheels = Wheels(left: int, right: int)

  /** Counts_Left and Counts_Right: what was counted since the last zeroing, as an int32_t
      (Quadrature.ZeroingShifts). */
  function Counts(wheel: int, zero: int): int { Int32(wheel - zero) }

  /** What one turn of the main loop reads: the command handled, the filtered battery voltage, the
      clock at each place it is read, the decoders when the command and when the flags are handled,
      the proximity sensor. */
  datatype Input = Input(
    command: Option<Command>, battery: real,
    commandTime: nat, timedTime: nat, distTime: nat, velTime: nat, stopTime: nat, avoidTime: nat,
    commandWheels: Wheels, wheels: Wheels, ir: Proximity)

  const POWERED: State := State(CLEARED, CLEARED, ZEROED, CLEARED, ZEROED, false, 0, 0, STILL, STILL, true, 0, 0, Wheels(0, 0), STARTED)

  function Inactive(f: Flag): Flag { f.(active := false) }

  /** Reset_Drive_Flags */
  function ResetFlags(s: State): State {
    s.(avoid := Inactive(s.avoid), dist := Inactive(s.dist), vel := Inactive(s.vel),
       stop := Inactive(s.stop), timedPwm := Inactive(s.timedPwm))
  }

  /** The part of Message_Handling_Init that concerns the drive: neither the velocity nor the
      avoidance flag is cleared. */
  function Reinitialize(s: State): State {
    s.(timedPwm := CLEARED, dist := CLEARED, stop := CLEARED)
  }

  const ENOUGH_POWER: real := 4.75

  /** Does a drive command start a drive? */
  predicate Accepted(c: Command, battery: real) {
    battery >= ENOUGH_POWER &&
    match c
    case SetPwm(_, _) => true
    case TimedPwm(_, _, seconds) => seconds > 0.0
    case MoveBy(_, _) => true
    case MoveByFor(_, _, _) => true
    case DriveAt(_, _) => true
    case DriveAtFor(_, _, _) => true
    case Avoid(seconds) => seconds > 0.0
    case _ => false
  }

  /** Every started move or drive zeroes the encoders. */
  function StartMove(s: State, linear: real, angular: real, wheels: Wheels): State {
    var m := DistanceMove(linear, angular);
    ResetFlags(s).(zero := wheels,
                   left := Motor(m.position.left, m.velocity.left),
                   right := Motor(m.position.right, m.velocity.right),
                   dist := Flag(true, UPDATE_PERIOD, s.dist.last))
  }

  function StartVelocity(s: State, velocity: real, angular: real, wheels: Wheels): State {
    var t := VelocityMove(velocity, angular);
    ResetFlags(s).(zero := wheels, left := Motor(0.0, t.left), right := Motor(0.0, t.right),
                   vel := Flag(true, UPDATE_PERIOD, s.vel.last))
  }

  function ArmStop(s: State, seconds: real, now: nat): State {
    s.(stop := Flag(true, seconds * 1000.0, now))
  }

  /** The drive part of Message_Handling_Task. */
  function HandleCommand(s: State, c: Command, battery: real, now: nat, wheels: Wheels): State {
    match c
    case StopMotors => ResetFlags(s).(enabled := false, dutyLeft := 0, dutyRight := 0, left := STILL, right := STILL)
    case Restart => Reinitialize(s)
    case Other => s
    case _ =>
      if !Accepted(c, battery) then s
      else
        match c
        case SetPwm(l, r) =>
          s.(enabled := true, dutyLeft := l, dutyRight := r, dist := Inactive(s.dist), vel := Inactive(s.vel),
             stop := Inactive(s.stop), timedPwm := Inactive(s.timedPwm))
        case TimedPwm(l, r, seconds) =>
          s.(enabled := true, dutyLeft := l, dutyRight := r, timedPwm := Flag(true, seconds * 1000.0, now),
             dist := Inactive(s.dist), vel := Inactive(s.vel), stop := Inactive(s.stop))
        case MoveBy(linear, angular) => StartMove(s, linear, angular, wheels)
        case MoveByFor(linear, angular, seconds) => ArmStop(StartMove(s, linear, angular, wheels), seconds, now)
        case DriveAt(velocity, angular) => StartVelocity(s, velocity, angular, wheels)
        case DriveAtFor(velocity, angular, seconds) => ArmStop(StartVelocity(s, velocity, angular, wheels), seconds, now)
        case Avoid(seconds) => ResetFlags(s).(oa := STARTED, avoid := Flag(true, seconds * 1000.0, s.avoid.last))
        case _ => s
  }

  function TimedTurn(s: State, now: nat): State {
    if Execute(s.timedPwm, now)
    then s.(dutyLeft := 0, dutyRight := 0, enabled := false, timedPwm := Inactive(s.timedPwm))
    else s
  }

  predicate Reached(target: real, measured: real) {
    if target > 0.0 then measured >= target else measured <= target
  }

  function Signed(target: real, duty: int): int { if target > 0.0 then duty else Int16(-1 * duty) }

  /** The distance controller: measure both tracks since the last tick, stop if one is done, else
      reduce the targets by what was travelled. */
  function DistTurn(s: State, now: nat, countsLeft: int, countsRight: int): State {
    if !Execute(s.dist, now) then s
    else if s.firstTime then s.(oldLeft := countsLeft, oldRight := countsRight, firstTime := false)
    else
      var measuredLeft := CountsToDistance(countsLeft - s.oldLeft);
      var measuredRight := CountsToDistance(countsRight - s.oldRight);
      if Reached(s.left.position, measuredLeft) || Reached(s.right.position, measuredRight) then
        s.(dutyLeft := 0, dutyRight := 0, enabled := false, left := STILL, right := STILL,
           dist := Inactive(s.dist), firstTime := true)
      else
        var left := s.left.(position := s.left.position - measuredLeft);
        var right := s.right.(position := s.right.position - measuredRight);
        s.(left := left, right := right,
           dutyLeft := Signed(left.position, VelocityToDutyLeft(left.velocity)),
           dutyRight := Signed(right.position, VelocityToDutyRight(right.velocity)),
           enabled := true, oldLeft := countsLeft, oldRight := countsRight, dist := s.dist.(last := now))
  }

  function VelTurn(s: State, now: nat, countsLeft: int, countsRight: int): State {
    if !Execute(s.vel, now) then s
    else if s.firstTime then s.(oldLeft := countsLeft, oldRight := countsRight, firstTime := false)
    else
      s.(dutyLeft := VelocityToDutyLeft(s.left.velocity), dutyRight := VelocityToDutyRight(s.right.velocity),
         enabled := true, oldLeft := countsLeft, oldRight := countsRight, vel := s.vel.(last := now))
  }

  function StopTurn(s: State, now: nat): State {
    if !Execute(s.stop, now) then s
    else
      s.(dutyLeft := 0, dutyRight := 0, enabled := false, left := STILL, right := STILL,
         stop := Inactive(s.stop), dist := Inactive(s.dist), vel := Inactive(s.vel), timedPwm := Inactive(s.timedPwm))
  }

  function AvoidTurn(s: State, now: nat, ir: Proximity): State {
    if !Execute(s.avoid, now) then s
    else
      var (oa, targets, isSet, again) := RunTask(s.oa, ir);
      var starting := s.oa.readState == RunDecision && s.oa.decision == Init;
      s.(oa := oa,
         left := if isSet then s.left.(velocity := targets.left) else s.left,
         right := if isSet then s.right.(velocity := targets.right) else s.right,
         vel := if starting then Flag(true, UPDATE_PERIOD, s.vel.last) else s.vel,
         avoid := if again then s.avoid else s.avoid.(last := now))
  }

  function LeftCounts(s: State, i: Input): int { Counts(i.wheels.left, s.zero.left) }

  function RightCounts(s: State, i: Input): int { Counts(i.wheels.right, s.zero.right) }

  /** One turn of the main loop. */
  function Turn(s: State, i: Input): State {
    var s1 := if i.command.Some? then HandleCommand(s, i.command.value, i.battery, i.commandTime, i.commandWheels) else s;
    var s2 := TimedTurn(s1, i.timedTime);
    var s3 := DistTurn(s2, i.distTime, LeftCounts(s2, i), RightCounts(s2, i));
    var s4 := VelTurn(s3, i.velTime, LeftCounts(s3, i), RightCounts(s3, i));
    var s5 := StopTurn(s4, i.stopTime);
    AvoidTurn(s5, i.avoidTime, i.ir)
  }

  function Run(s: State, inputs: seq<Input>): State
    decreases |inputs|
  {
    if inputs == [] then s else Turn(Run(s, inputs[..|inputs| - 1]), inputs[|inputs| - 1])
  }
}
