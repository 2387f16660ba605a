/** One turn of the whole program: bytes come in, at most one command is dispatched, the drive
    handlers run. */
module Firmware {
  import opened Common
  import opened Bits
  import opened Commands
  import opened ReceiveLoop
  import opened Drive
  import opened DriveSafety

  /** How four bytes are read as a float; the theorems hold for every such reading. */
  type FloatReader = seq<byte> -> real

  function IntAt(p: seq<byte>, i: nat): int
    requires i + 2 <= |p|
  {
    var low: int := p[i];
    var high: int := p[i + 1];
    Int16(low + 256 * high)
  }

  function FloatAt(p: seq<byte>, i: nat, read: FloatReader): real
    requires i + 4 <= |p|
  {
    read(p[i..i + 4])
  }

  /** The payload structures of the handlers. */
  function Decode(cmd: byte, p: seq<byte>, read: FloatReader): Command {
    var c := cmd as char;
    if |p| != PayloadLen(cmd) then Other
    else if c == 'p' then SetPwm(IntAt(p, 0), IntAt(p, 2))
    else if c == 'P' then TimedPwm(IntAt(p, 0), IntAt(p, 2), FloatAt(p, 4, read))
    else if c == 's' || c == 'S' then StopMotors
    else if c == 'd' then MoveBy(FloatAt(p, 0, read), FloatAt(p, 4, read))
    else if c == 'D' then MoveByFor(FloatAt(p, 0, read), FloatAt(p, 4, read), FloatAt(p, 8, read))
    else if c == 'v' then DriveAt(FloatAt(p, 0, read), FloatAt(p, 4, read))
    else if c == 'V' then DriveAtFor(FloatAt(p, 0, read), FloatAt(p, 4, read), FloatAt(p, 8, read))
    else if c == 'O' then Avoid(FloatAt(p, 0, read))
    else Other
  }

  function CommandOf(e: Event, read: FloatReader): Command {
    match e
    case Dispatch(cmd, payload) => Decode(cmd, payload, read)
    case Unrecognised(_) => Other
    case RestartSet => Restart
  }

  datatype Vehicle = Vehicle(rx: Rx, drive: State)

  /** What the outside world contributes to one turn. */
  datatype World = World(arrived: seq<seq<byte>>, input: Input)

  function NewEvents(before: Rx, after: Rx): seq<Event>
    requires |before.log| <= |after.log|
  {
    after.log[|before.log|..]
  }

  lemma AtMostOneEvent(x: Rx, arrived: seq<seq<byte>>)
    requires Fits(x)
    ensures var x' := ReceiveLoop.Turn(x, arrived);
            |x.log| <= |x'.log| <= |x.log| + 1 && x'.log == x.log + NewEvents(x, x')
  {
  }

  /** What the drive sees of a turn: the outside world, and the command dispatched if there was one. */
  function InputOf(r: Vehicle, w: World, read: FloatReader): Input
    requires Fits(r.rx)
  {
    var rx := ReceiveLoop.Turn(r.rx, w.arrived);
    AtMostOneEvent(r.rx, w.arrived);
    var events := NewEvents(r.rx, rx);
    w.input.(command := if events == [] then None else Some(CommandOf(events[0], read)))
  }

  function Step(r: Vehicle, w: World, read: FloatReader): (r': Vehicle)
    requires Fits(r.rx)
    ensures Fits(r'.rx)
  {
    Vehicle(ReceiveLoop.Turn(r.rx, w.arrived), Drive.Turn(r.drive, InputOf(r, w, read)))
  }

  function Run(worlds: seq<World>, read: FloatReader): (r: Vehicle)
    ensures Fits(r.rx)
    decreases |worlds|
  {
    if worlds == [] then Vehicle(START, POWERED)
    else Step(Run(worlds[..|worlds| - 1], read), worlds[|worlds| - 1], read)
  }

  function Arrivals(worlds: seq<World>): (a: seq<seq<seq<byte>>>)
    ensures |a| == |worlds|
  {
    seq(|worlds|, i requires 0 <= i < |worlds| => worlds[i].arrived)
  }

  /** The receive side does not depend on the drive. */
  lemma {:induction false} ReceiveSide(worlds: seq<World>, read: FloatReader)
    ensures Run(worlds, read).rx == ReceiveLoop.Run(Arrivals(worlds))
    decreases |worlds|
  {
    if worlds == [] {
    } else {
      ReceiveSide(worlds[..|worlds| - 1], read);
      assert Arrivals(worlds)[..|worlds| - 1] == Arrivals(worlds[..|worlds| - 1]);
    }
  }

  /** The drive invariants hold for every stream of bytes, garbage and '~' included. */
  lemma {:induction false} EveryByteStreamKeepsInv(worlds: seq<World>, read: FloatReader)
    ensures Inv(Run(worlds, read).drive)
    decreases |worlds|
  {
    if worlds == [] {
      StartIsInv();
    } else {
      EveryByteStreamKeepsInv(worlds[..|worlds| - 1], read);
      hide Inv, InputOf, Drive.Turn;
      var r := Run(worlds[..|worlds| - 1], read);
      TurnKeepsInv(r.drive, InputOf(r, worlds[|worlds| - 1], read));
    }
  }

  // ----- A stop on the wire stops the car -----

  predicate IsDriveCommand(e: Event) {
    e.Dispatch? && (e.cmd as char) in ['p', 'P', 'd', 'D', 'v', 'V', 'O']
  }

  predicate IsStop(e: Event) {
    e.Dispatch? && (e.cmd as char) in ['s', 'S'] && e.payload == []
  }

  /** After the last drive command of the log there was a stop. */
  predicate EndsStopped(log: seq<Event>)
    decreases |log|
  {
    log != [] &&
    var last := log[|log| - 1];
    (IsStop(last) || (!IsDriveCommand(last) && EndsStopped(log[..|log| - 1])))
  }

  lemma EventEffect(e: Event, battery: real, read: FloatReader)
    ensures IsStop(e) ==> CommandOf(e, read) == StopMotors
    ensures !IsDriveCommand(e) ==> !Accepted(CommandOf(e, read), battery)
  {
    hide FloatAt, IntAt;
  }

  lemma StepStops(r: Vehicle, w: World, read: FloatReader)
    requires Fits(r.rx)
    requires EndsStopped(r.rx.log) ==> Stopped(r.drive)
    ensures var r' := Step(r, w, read); EndsStopped(r'.rx.log) ==> Stopped(r'.drive)
  {
    var rx := ReceiveLoop.Turn(r.rx, w.arrived);
    AtMostOneEvent(r.rx, w.arrived);
    var events := NewEvents(r.rx, rx);
    hide ReceiveLoop.Turn, Drive.Turn, CommandOf, Stopped, Accepted;
    if EndsStopped(rx.log) {
      if events == [] {
        assert rx.log == r.rx.log;
        StoppedStays(r.drive, w.input.(command := None));
      } else {
        var e := events[0];
        assert rx.log[|rx.log| - 1] == e && rx.log[..|rx.log| - 1] == r.rx.log;
        EventEffect(e, w.input.battery, read);
        var i := w.input.(command := Some(CommandOf(e, read)));
        if IsStop(e) {
          StopStops(r.drive, i);
        } else {
          StoppedStays(r.drive, i);
        }
      }
    }
  }

  lemma {:induction false} LogStops(worlds: seq<World>, read: FloatReader)
    ensures var r := Run(worlds, read); EndsStopped(r.rx.log) ==> Stopped(r.drive)
    decreases |worlds|
  {
    if worlds == [] {
      assert Run(worlds, read).rx.log == [];
    } else {
      hide Step, Stopped, EndsStopped;
      LogStops(worlds[..|worlds| - 1], read);
      StepStops(Run(worlds[..|worlds| - 1], read), worlds[|worlds| - 1], read);
    }
  }

  /** The whole stack: if the recognised bytes read so far parse to a command list in which a stop
      follows the last drive command, the motors are off and every drive flag is down, however the
      bytes were packed, whatever the clock, the battery, the encoders and the sensor said. */
  lemma StopOnTheWireStops(worlds: seq<World>, read: FloatReader)
    requires Waiting(Parse(Flatten(ReadSoFar(Run(worlds, read).rx))).rest)
    requires EndsStopped(Parse(Flatten(ReadSoFar(Run(worlds, read).rx))).events)
    ensures Stopped(Run(worlds, read).drive)
  {
    ReceiveSide(worlds, read);
    ChunkingIndependence(Arrivals(worlds));
    LogStops(worlds, read);
  }

  // ----- Everything that arrived takes effect -----

  /** Turns in which nothing arrives. */
  predicate Silent(worlds: seq<World>) { forall k :: 0 <= k < |worlds| ==> worlds[k].arrived == [] }

  lemma {:induction false} IdleEnd(x: Rx, n: nat)
    requires Fits(x)
    ensures ReceiveLoop.Idle(x, n + 1) == ReceiveLoop.Turn(ReceiveLoop.Idle(x, n), [])
    decreases n
  {
    hide ReceiveLoop.Turn;
    if n == 0 {
      assert ReceiveLoop.Idle(ReceiveLoop.Turn(x, []), 0) == ReceiveLoop.Turn(x, []);
    } else {
      IdleEnd(ReceiveLoop.Turn(x, []), n - 1);
    }
  }

  lemma {:induction false} SilentRun(before: seq<World>, silent: seq<World>, read: FloatReader)
    requires Silent(silent)
    ensures Run(before + silent, read).rx == ReceiveLoop.Idle(Run(before, read).rx, |silent|)
    decreases |silent|
  {
    hide ReceiveLoop.Turn, Drive.Turn, InputOf;
    if silent == [] {
      assert before + silent == before;
    } else {
      var some, last := silent[..|silent| - 1], silent[|silent| - 1];
      assert last.arrived == [];
      SilentRun(before, some, read);
      IdleEnd(Run(before, read).rx, |some|);
      assert (before + silent)[..|before + silent| - 1] == before + some;
    }
  }

  lemma FlattenEnd(packets: seq<seq<byte>>)
    ensures Flatten(packets + [[]]) == Flatten(packets)
  {
    assert (packets + [[]])[..|packets|] == packets;
    assert Flatten(packets) + [] == Flatten(packets);
  }

  /** Liveness of the whole stack: if all bytes that ever arrived parse to recognised commands in which
      a stop follows the last drive command, then after enough turns the motors are off and every drive
      flag is down. The endpoint must not be blocked by an empty first packet. */
  lemma StopArrives(before: seq<World>, silent: seq<World>, read: FloatReader)
    requires var x := Run(before, read).rx;
             && Silent(silent) && |silent| >= Work(x.packets)
             && (x.packets == [] || x.recv.reading || x.packets[0] != [])
    requires var p := Parse(Flatten(Concat(Arrivals(before)))); Waiting(p.rest) && EndsStopped(p.events)
    ensures Stopped(Run(before + silent, read).drive)
  {
    hide Parse, Flatten, Waiting, EndsStopped, Stopped, Run, ReceiveLoop.Run, ReceiveLoop.Idle, Work, Seen, Silent, Concat;
    var x := Run(before, read).rx;
    var worlds := before + silent;
    ReceiveSide(before, read);
    NothingLost(Arrivals(before));
    SilentRun(before, silent, read);
    EverythingIsRead(x, |silent|);
    var y := Run(worlds, read).rx;
    ReceiveSide(worlds, read);
    RunShape(Arrivals(worlds));
    FlattenEnd(y.done);
    StopOnTheWireStops(worlds, read);
  }

  // ----- A time limit on the wire stops the car -----

  /** A run that goes on from somewhere, and what the drive sees of it. */
  function From(r: Vehicle, worlds: seq<World>, read: FloatReader): (r': Vehicle)
    requires Fits(r.rx)
    ensures Fits(r'.rx)
    decreases |worlds|
  {
    if worlds == [] then r else Step(From(r, worlds[..|worlds| - 1], read), worlds[|worlds| - 1], read)
  }

  function Inputs(r: Vehicle, worlds: seq<World>, read: FloatReader): (inputs: seq<Input>)
    requires Fits(r.rx)
    ensures |inputs| == |worlds|
    decreases |worlds|
  {
    if worlds == [] then []
    else
      var before := worlds[..|worlds| - 1];
      Inputs(r, before, read) + [InputOf(From(r, before, read), worlds[|worlds| - 1], read)]
  }

  lemma {:induction false} RunGoesOn(xs: seq<World>, ys: seq<World>, read: FloatReader)
    ensures Run(xs + ys, read) == From(Run(xs, read), ys, read)
    decreases |ys|
  {
    hide Step;
    if ys == [] {
      assert xs + ys == xs;
    } else {
      RunGoesOn(xs, ys[..|ys| - 1], read);
      assert (xs + ys)[..|xs + ys| - 1] == xs + ys[..|ys| - 1];
    }
  }

  lemma {:induction false} DriveSide(r: Vehicle, worlds: seq<World>, read: FloatReader)
    requires Fits(r.rx)
    ensures From(r, worlds, read).drive == Drive.Run(r.drive, Inputs(r, worlds, read))
    decreases |worlds|
  {
    hide Drive.Turn, ReceiveLoop.Turn, InputOf;
    if worlds == [] {
    } else {
      var before := worlds[..|worlds| - 1];
      DriveSide(r, before, read);
      assert Inputs(r, worlds, read)[..|before|] == Inputs(r, before, read);
    }
  }

  /** Neither a drive command nor a '~' from the n-th event on. */
  ghost predicate Harmless(log: seq<Event>, n: nat) {
    forall j :: n <= j < |log| ==> !IsDriveCommand(log[j]) && log[j] != RestartSet
  }

  lemma InputIsHarmless(r: Vehicle, w: World, read: FloatReader)
    requires Fits(r.rx) && Harmless(Step(r, w, read).rx.log, |r.rx.log|)
    ensures NoDrive(InputOf(r, w, read)) && NoRestart(InputOf(r, w, read))
    ensures InputOf(r, w, read).stopTime == w.input.stopTime
  {
    hide ReceiveLoop.Turn, Drive.Turn, Accepted, Decode;
    var rx := ReceiveLoop.Turn(r.rx, w.arrived);
    AtMostOneEvent(r.rx, w.arrived);
    if NewEvents(r.rx, rx) != [] {
      var e := rx.log[|r.rx.log|];
      EventEffect(e, w.input.battery, read);
      DecodesNoRestart(e, read);
    }
  }

  lemma DecodesNoRestart(e: Event, read: FloatReader)
    ensures e != RestartSet ==> CommandOf(e, read) != Restart
  {
    hide FloatAt, IntAt;
  }

  lemma {:induction false} InputsAreHarmless(r: Vehicle, worlds: seq<World>, read: FloatReader)
    requires Fits(r.rx) && Harmless(From(r, worlds, read).rx.log, |r.rx.log|)
    ensures r.rx.log <= From(r, worlds, read).rx.log
    ensures var inputs := Inputs(r, worlds, read);
            forall k :: 0 <= k < |worlds| ==>
              NoDrive(inputs[k]) && NoRestart(inputs[k]) && inputs[k].stopTime == worlds[k].input.stopTime
    decreases |worlds|
  {
    hide InputOf, NoDrive, NoRestart, Step;
    if worlds == [] {
    } else {
      var before, last := worlds[..|worlds| - 1], worlds[|worlds| - 1];
      var e := From(r, before, read);
      StepGrowsLog(e, last, read);
      LogGrows(r, before, read);
      HarmlessParts(e.rx.log, Step(e, last, read).rx.log, |r.rx.log|);
      InputsAreHarmless(r, before, read);
      InputIsHarmless(e, last, read);
    }
  }

  lemma HarmlessParts(x: seq<Event>, y: seq<Event>, n: nat)
    requires x <= y && Harmless(y, n) && n <= |x|
    ensures Harmless(x, n) && Harmless(y, |x|)
  {
    assert forall j :: n <= j < |x| ==> x[j] == y[j];
  }

  lemma StepGrowsLog(r: Vehicle, w: World, read: FloatReader)
    requires Fits(r.rx)
    ensures r.rx.log <= Step(r, w, read).rx.log
  {
    hide ReceiveLoop.Turn, Drive.Turn, InputOf;
    AtMostOneEvent(r.rx, w.arrived);
  }

  lemma {:induction false} LogGrows(r: Vehicle, worlds: seq<World>, read: FloatReader)
    requires Fits(r.rx)
    ensures r.rx.log <= From(r, worlds, read).rx.log
    decreases |worlds|
  {
    hide Step;
    if worlds == [] {
    } else {
      LogGrows(r, worlds[..|worlds| - 1], read);
      StepGrowsLog(From(r, worlds[..|worlds| - 1], read), worlds[|worlds| - 1], read);
    }
  }

  /** The command that a turn dispatched: its log grew by it. */
  lemma DispatchedCommand(r: Vehicle, w: World, read: FloatReader)
    requires Fits(r.rx) && |r.rx.log| < |Step(r, w, read).rx.log|
    ensures var log := Step(r, w, read).rx.log;
            InputOf(r, w, read) == w.input.(command := Some(CommandOf(log[|log| - 1], read)))
  {
    hide ReceiveLoop.Turn, Drive.Turn, CommandOf;
    AtMostOneEvent(r.rx, w.arrived);
  }

  /** All bytes the vehicle has read. */
  function BytesRead(r: Vehicle): seq<byte> { Flatten(ReadSoFar(r.rx)) }

  /** An accepted command with a time limit, and a later turn that finds the limit reached. */
  ghost predicate LimitPassed(e: Event, w: World, later: World, read: FloatReader) {
    var c := CommandOf(e, read);
    Accepted(c, w.input.battery) && Limit(c).Some? && Expired(later.input, w.input.commandTime, Limit(c).value)
  }

  lemma DeadmanFrom(r: Vehicle, w: World, after: seq<World>, k: nat, n: nat, read: FloatReader)
    requires Fits(r.rx) && Inv(r.drive) && |r.rx.log| < n == |Step(r, w, read).rx.log| && k < |after|
    requires Harmless(From(Step(r, w, read), after, read).rx.log, n)
    requires LimitPassed(Step(r, w, read).rx.log[n - 1], w, after[k], read)
    ensures Stopped(From(Step(r, w, read), after, read).drive)
  {
    hide Step, InputOf, LimitPassed, Accepted, Limit, Expired, Stopped, NoDrive, NoRestart, Harmless, Inv, From, Inputs;
    var r1 := Step(r, w, read);
    var inputs := Inputs(r1, after, read);
    InputsAreHarmless(r1, after, read);
    LimitArmed(r, w, after[k], n, read);
    SameStop(inputs[k], after[k].input);
    DriveSide(r1, after, read);
    DriveOfStep(r, w, read);
    DeadmanStops(r.drive, InputOf(r, w, read), inputs, k);
  }

  lemma LimitArmed(r: Vehicle, w: World, later: World, n: nat, read: FloatReader)
    requires Fits(r.rx) && |r.rx.log| < n == |Step(r, w, read).rx.log|
    requires LimitPassed(Step(r, w, read).rx.log[n - 1], w, later, read)
    ensures var i := InputOf(r, w, read);
            && i.command.Some? && Accepted(i.command.value, i.battery) && Limit(i.command.value).Some?
            && Expired(later.input, i.commandTime, Limit(i.command.value).value)
  {
    hide Step, InputOf, CommandOf, Accepted, Limit, Expired;
    DispatchedCommand(r, w, read);
  }

  lemma SameStop(x: Input, y: Input)
    requires x.stopTime == y.stopTime
    ensures forall since, duration :: Expired(x, since, duration) == Expired(y, since, duration)
  {
  }

  /** All the bytes read parse to recognised commands, and these are the commands. */
  ghost predicate Recognised(worlds: seq<World>, read: FloatReader) { Waiting(Parse(BytesRead(Run(worlds, read))).rest) }

  function CommandsRead(worlds: seq<World>, read: FloatReader): seq<Event> { Parse(BytesRead(Run(worlds, read))).events }

  /** How many of them were dispatched. */
  function Dispatched(worlds: seq<World>, read: FloatReader): nat { |Run(worlds, read).rx.log| }

  predicate NoDriveFrom(events: seq<Event>, n: nat) { forall j :: n <= j < |events| ==> !IsDriveCommand(events[j]) }

  /** The whole stack: all the bytes read parse to recognised commands; the turn after `before`
      dispatched the n-th of them, a 'D' or 'V' that was accepted; no drive command follows it; a later
      turn found its limit reached. Then the motors are off and every drive flag is down, however the
      bytes were packed and whatever the clocks and sensors said. */
  lemma DeadmanOnTheWire(before: seq<World>, w: World, after: seq<World>, k: nat, n: nat, read: FloatReader)
    requires Recognised(before + [w] + after, read) && k < |after|
    requires Dispatched(before, read) < n == Dispatched(before + [w], read) <= |CommandsRead(before + [w] + after, read)|
    requires LimitPassed(CommandsRead(before + [w] + after, read)[n - 1], w, after[k], read)
    requires NoDriveFrom(CommandsRead(before + [w] + after, read), n)
    ensures Stopped(Run(before + [w] + after, read).drive)
  {
    hide Parse, Step, Run, From, LimitPassed, IsDriveCommand, Stopped, BytesRead, Inv;
    LogIsParsed(before + [w] + after, read);
    RunSplits(before, w, after, read);
    RunSplits(before, w, [], read);
    assert before + [w] + [] == before + [w];
    FromNothing(Step(Run(before, read), w, read), read);
    EveryByteStreamKeepsInv(before, read);
    DeadmanFrom(Run(before, read), w, after, k, n, read);
  }

  lemma FromNothing(r: Vehicle, read: FloatReader)
    requires Fits(r.rx)
    ensures From(r, [], read) == r
  {
  }

  lemma LogIsParsed(worlds: seq<World>, read: FloatReader)
    requires Waiting(Parse(BytesRead(Run(worlds, read))).rest)
    ensures var log := Run(worlds, read).rx.log;
            log == Parse(BytesRead(Run(worlds, read))).events && RestartSet !in log
  {
    hide Parse, Waiting, ReceiveLoop.Run;
    ReceiveSide(worlds, read);
    ChunkingIndependence(Arrivals(worlds));
    ParseHasNoRestart(BytesRead(Run(worlds, read)));
  }

  lemma RunSplits(before: seq<World>, w: World, after: seq<World>, read: FloatReader)
    ensures var r1 := Step(Run(before, read), w, read);
            Run(before + [w] + after, read) == From(r1, after, read) && r1.rx.log <= From(r1, after, read).rx.log
  {
    hide Step, From;
    assert (before + [w])[..|before|] == before;
    RunGoesOn(before + [w], after, read);
    LogGrows(Step(Run(before, read), w, read), after, read);
  }

  lemma DriveOfStep(r: Vehicle, w: World, read: FloatReader)
    requires Fits(r.rx)
    ensures Step(r, w, read).drive == Drive.Turn(r.drive, InputOf(r, w, read))
  {
  }
}

/** What the host sends and what the vehicle does. */
module HostToVehicle {
  import opened Common
  import opened Bits
  import WireFormat
  import opened Commands
  import opened ReceiveLoop
  import D = Drive
  import opened DriveSafety
  import opened Firmware
  import opened HostCommands

  /** What a command asks the drive to do. */
  function Meaning(c: HostCommand, read: FloatReader): D.Command {
    match c
    case Pwm(left, right) => D.SetPwm(left, right)
    case PwmFor(left, right, duration) => D.TimedPwm(left, right, read(duration))
    case Stop => D.StopMotors
    case StopCapital => D.StopMotors
    case Move(linear, angular) => D.MoveBy(read(linear), read(angular))
    case MoveFor(linear, angular, duration) => D.MoveByFor(read(linear), read(angular), read(duration))
    case Drive(velocity, angular) => D.DriveAt(read(velocity), read(angular))
    case DriveFor(velocity, angular, duration) => D.DriveAtFor(read(velocity), read(angular), read(duration))
    case AvoidObstacles(duration) => D.Avoid(read(duration))
    case _ => D.Other
  }

  lemma TwoFloats(a: Float32, b: Float32, read: FloatReader)
    ensures FloatAt(a + b, 0, read) == read(a) && FloatAt(a + b, 4, read) == read(b)
  {
    assert (a + b)[0..4] == a && (a + b)[4..8] == b;
  }

  lemma ThreeFloats(a: Float32, b: Float32, c: Float32, read: FloatReader)
    ensures var p := a + b + c;
            FloatAt(p, 0, read) == read(a) && FloatAt(p, 4, read) == read(b) && FloatAt(p, 8, read) == read(c)
  {
    var p := a + b + c;
    assert p[0..4] == a && p[4..8] == b && p[8..12] == c;
  }

  function Bytes16(v: Int16Value): (raw: seq<byte>)
    ensures |raw| == 2
  {
    WireFormat.PackField(WireFormat.I16(v))
  }

  lemma ReadInt16(v: Int16Value)
    ensures IntAt(Bytes16(v), 0) == v
  {
    WireFormat.Int16Bytes(v);
    hide Int16;
  }

  lemma IntInside(p: seq<byte>, i: nat, raw: seq<byte>)
    requires |raw| == 2 && i + 2 <= |p| && p[i..i + 2] == raw
    ensures IntAt(p, i) == IntAt(raw, 0)
  {
    assert raw[0] == p[i] && raw[1] == p[i + 1];
  }

  lemma TwoInts(l: Int16Value, r: Int16Value, tail: seq<byte>)
    ensures var p := Bytes16(l) + Bytes16(r) + tail; IntAt(p, 0) == l && IntAt(p, 2) == r
  {
    hide IntAt, Bytes16;
    var x, y := Bytes16(l), Bytes16(r);
    var p := x + y + tail;
    assert p[0..2] == x && p[2..4] == y;
    IntInside(p, 0, x);
    IntInside(p, 2, y);
    ReadInt16(l);
    ReadInt16(r);
  }

  /** What the handlers see of a command: its code, its values, and that all of them are there. */
  lemma SizeFits(c: HostCommand)
    ensures |Payload(c)| == PayloadLen(CodeOf(c))
  {
    LengthAgrees(c);
    HandlersConsumeMessage(CodeOf(c));
    hide Payload, CodeOf, EncodeCommand, MessageLen, PayloadLen;
  }

  lemma PwmParts(c: HostCommand)
    requires c.Pwm? || c.PwmFor?
    ensures Payload(c) == Bytes16(c.left) + Bytes16(c.right) + if c.PwmFor? then c.duration else []
    ensures CodeOf(c) == (if c.Pwm? then 'p' else 'P') as int
  {
    PayloadBytes(c);
    hide Payload, Bytes16;
    BytesAre(c.left);
    BytesAre(c.right);
  }

  lemma BytesAre(v: Int16Value)
    ensures Bytes16(v) == WireFormat.PackField(WireFormat.I16(v))
  {
  }

  lemma PwmMeaning(c: HostCommand, read: FloatReader)
    requires c.Pwm? || c.PwmFor?
    ensures Decode(CodeOf(c), Payload(c), read) == Meaning(c, read)
  {
    hide IntAt, FloatAt, PayloadLen, Payload, CodeOf, ValuesOf, Bytes16;
    SizeFits(c);
    PwmParts(c);
    TwoInts(c.left, c.right, if c.PwmFor? then c.duration else []);
    if c.PwmFor? {
      LastFloat(Bytes16(c.left) + Bytes16(c.right), c.duration, read);
    }
  }

  lemma PairParts(c: HostCommand)
    requires c.Move? || c.Drive?
    ensures Payload(c) == (if c.Move? then c.linear + c.angular else c.velocity + c.angular)
    ensures CodeOf(c) == (if c.Move? then 'd' else 'v') as int
  {
    PayloadBytes(c);
    hide Payload;
  }

  lemma PairMeaning(c: HostCommand, read: FloatReader)
    requires c.Move? || c.Drive?
    ensures Decode(CodeOf(c), Payload(c), read) == Meaning(c, read)
  {
    hide FloatAt, PayloadLen, Payload, CodeOf, ValuesOf;
    SizeFits(c);
    PairParts(c);
    TwoFloats(if c.Move? then c.linear else c.velocity, c.angular, read);
  }

  lemma TripleParts(c: HostCommand)
    requires c.MoveFor? || c.DriveFor?
    ensures Payload(c) == (if c.MoveFor? then c.linear else c.velocity) + c.angular + c.duration
    ensures CodeOf(c) == (if c.MoveFor? then 'D' else 'V') as int
  {
    PayloadBytes(c);
    hide Payload;
  }

  lemma TripleMeaning(c: HostCommand, read: FloatReader)
    requires c.MoveFor? || c.DriveFor?
    ensures Decode(CodeOf(c), Payload(c), read) == Meaning(c, read)
  {
    hide FloatAt, PayloadLen, Payload, CodeOf, ValuesOf;
    SizeFits(c);
    TripleParts(c);
    ThreeFloats(if c.MoveFor? then c.linear else c.velocity, c.angular, c.duration, read);
  }

  lemma AvoidParts(c: HostCommand)
    requires c.AvoidObstacles?
    ensures Payload(c) == c.duration && CodeOf(c) == 'O' as int
  {
    PayloadBytes(c);
    hide Payload;
  }

  lemma AvoidMeaning(c: HostCommand, read: FloatReader)
    requires c.AvoidObstacles?
    ensures Decode(CodeOf(c), Payload(c), read) == Meaning(c, read)
  {
    hide FloatAt, PayloadLen, Payload, CodeOf, ValuesOf;
    SizeFits(c);
    AvoidParts(c);
    LastFloat([], c.duration, read);
    assert [] + c.duration == Payload(c);
  }

  lemma OtherCode(c: HostCommand)
    requires !IsDrive(c)
    ensures var ch := CodeOf(c) as char;
            && ch != 'p' && ch != 'P' && ch != 'd' && ch != 'D' && ch != 'v' && ch != 'V' && ch != 'O'
            && (ch == 's' || ch == 'S' <==> c.Stop? || c.StopCapital?)
  {
  }

  lemma OtherMeaning(c: HostCommand, read: FloatReader)
    requires !IsDrive(c)
    ensures Decode(CodeOf(c), Payload(c), read) == Meaning(c, read)
  {
    hide IntAt, FloatAt, PayloadLen, Payload, CodeOf, ValuesOf;
    SizeFits(c);
    OtherCode(c);
  }

  /** The handlers read back exactly the values the host packed, each in its place. */
  lemma DecodeMeaning(c: HostCommand, read: FloatReader)
    ensures CommandOf(EventOf(c), read) == Meaning(c, read)
  {
    hide Decode, CodeOf, Payload, Meaning;
    if c.Pwm? || c.PwmFor? {
      PwmMeaning(c, read);
    } else if c.Move? || c.Drive? {
      PairMeaning(c, read);
    } else if c.MoveFor? || c.DriveFor? {
      TripleMeaning(c, read);
    } else if c.AvoidObstacles? {
      AvoidMeaning(c, read);
    } else {
      OtherMeaning(c, read);
    }
  }

  lemma LastFloat(x: seq<byte>, f: Float32, read: FloatReader)
    ensures FloatAt(x + f, |x|, read) == read(f)
  {
    assert (x + f)[|x|..|x| + 4] == f;
  }

  // ----- On the wire -----

  /** The commands the drive handled, in order. */
  function Handled(worlds: seq<World>, read: FloatReader): seq<D.Command>
    decreases |worlds|
  {
    if worlds == [] then []
    else
      var before := worlds[..|worlds| - 1];
      var command := InputOf(Firmware.Run(before, read), worlds[|worlds| - 1], read).command;
      Handled(before, read) + if command.Some? then [command.value] else []
  }

  function CommandsOf(events: seq<Event>, read: FloatReader): (commands: seq<D.Command>)
    ensures |commands| == |events| && forall i :: 0 <= i < |events| ==> commands[i] == CommandOf(events[i], read)
  {
    seq(|events|, i requires 0 <= i < |events| => CommandOf(events[i], read))
  }

  lemma {:induction false} HandledIsLog(worlds: seq<World>, read: FloatReader)
    ensures Handled(worlds, read) == CommandsOf(Firmware.Run(worlds, read).rx.log, read)
    decreases |worlds|
  {
    hide CommandOf, ReceiveLoop.Turn, D.Turn;
    if worlds == [] {
      assert Firmware.Run(worlds, read).rx.log == [];
    } else {
      var before, last := worlds[..|worlds| - 1], worlds[|worlds| - 1];
      var r := Firmware.Run(before, read);
      HandledIsLog(before, read);
      AtMostOneEvent(r.rx, last.arrived);
      var x, e := r.rx.log, NewEvents(r.rx, ReceiveLoop.Turn(r.rx, last.arrived));
      assert Firmware.Run(worlds, read).rx.log == x + e;
      if e == [] {
        assert x + e == x;
      } else {
        assert e == [e[0]];
        assert CommandsOf(x + e, read) == CommandsOf(x, read) + [CommandOf(e[0], read)];
      }
    }
  }

  function Meanings(cs: seq<HostCommand>, read: FloatReader): (commands: seq<D.Command>)
    ensures |commands| == |cs| && forall i :: 0 <= i < |cs| ==> commands[i] == Meaning(cs[i], read)
  {
    seq(|cs|, i requires 0 <= i < |cs| => Meaning(cs[i], read))
  }

  /** From the host to the drive: when the bytes read are some commands and the beginning of another,
      then, however they were packed and spread over turns, the drive has handled exactly what these
      commands mean, in order. */
  lemma CommandsHandled(worlds: seq<World>, cs: seq<HostCommand>, part: seq<byte>, read: FloatReader)
    requires BytesRead(Firmware.Run(worlds, read)) == EncodeStream(cs) + part && Partial(part)
    ensures Handled(worlds, read) == Meanings(cs, read)
    ensures Firmware.Run(worlds, read).rx.log == EventsOf(cs)
  {
    hide Parse, Firmware.Run, Handled, CommandOf, Meaning, BytesRead, EventOf, Waiting, Partial, EncodeStream;
    StreamParses(cs, part);
    PartialWaits(part);
    assert EventsOf(cs) + [] == EventsOf(cs);
    LogIsParsed(worlds, read);
    HandledIsLog(worlds, read);
    forall i | 0 <= i < |cs|
      ensures CommandOf(EventOf(cs[i]), read) == Meaning(cs[i], read)
    {
      DecodeMeaning(cs[i], read);
    }
  }

  predicate IsDrive(c: HostCommand) {
    c.Pwm? || c.PwmFor? || c.Move? || c.MoveFor? || c.Drive? || c.DriveFor? || c.AvoidObstacles?
  }

  /** A stop, and no drive command after it. */
  predicate LastIsStop(cs: seq<HostCommand>) {
    exists k :: 0 <= k < |cs| && (cs[k].Stop? || cs[k].StopCapital?) && forall j :: k < j < |cs| ==> !IsDrive(cs[j])
  }

  lemma StopEvent(c: HostCommand)
    ensures c.Stop? || c.StopCapital? ==> IsStop(EventOf(c))
    ensures !IsDrive(c) ==> !IsDriveCommand(EventOf(c))
  {
    PayloadBytes(c);
    hide Payload;
  }

  lemma {:induction false} StopEvents(cs: seq<HostCommand>, k: nat)
    requires k < |cs| && (cs[k].Stop? || cs[k].StopCapital?) && forall j :: k < j < |cs| ==> !IsDrive(cs[j])
    ensures EndsStopped(EventsOf(cs))
    decreases |cs|
  {
    hide EventOf, IsStop, IsDriveCommand, IsDrive;
    var n := |cs| - 1;
    var events := EventsOf(cs);
    StopEvent(cs[n]);
    if k == n {
    } else {
      StopEvents(cs[..n], k);
      assert events[..n] == EventsOf(cs[..n]);
    }
  }

  /** A stop sent after the last drive command arrives: once the packets were read, the motors are off
      and every drive flag is down. */
  lemma StopSentStops(before: seq<World>, silent: seq<World>, cs: seq<HostCommand>, read: FloatReader)
    requires var x := Firmware.Run(before, read).rx;
             && Silent(silent) && |silent| >= Work(x.packets)
             && (x.packets == [] || x.recv.reading || x.packets[0] != [])
    requires Flatten(Concat(Arrivals(before))) == EncodeStream(cs) && LastIsStop(cs)
    ensures Stopped(Firmware.Run(before + silent, read).drive)
  {
    hide Parse, Firmware.Run, Flatten, Concat, Work, Stopped, EventOf, EndsStopped, IsDrive, EncodeStream;
    var k :| 0 <= k < |cs| && (cs[k].Stop? || cs[k].StopCapital?) && forall j :: k < j < |cs| ==> !IsDrive(cs[j]);
    StopEvents(cs, k);
    StreamParses(cs, []);
    NothingParses();
    assert EncodeStream(cs) + [] == EncodeStream(cs) && EventsOf(cs) + [] == EventsOf(cs);
    StopArrives(before, silent, read);
  }

  lemma NothingParses()
    ensures Parse([]) == Parsed([], []) && Waiting([])
  {
  }

  /** A turn that finds one byte in the first packet after power-up. */
  lemma FirstByte(w: World, b: byte, read: FloatReader)
    requires w.arrived == [[b]]
    ensures BytesRead(Firmware.Run([w], read)) == [b]
  {
    hide D.Turn, InputOf, HandleMessages;
    assert [w][..0] == [] && START.packets + w.arrived == w.arrived;
    assert Firmware.Run([], read) == Vehicle(START, D.POWERED);
    var rx := ReceiveLoop.Turn(START, w.arrived);
    assert rx.done == [] && rx.read == [] + [b] == [b];
    assert Firmware.Run([w], read).rx == rx;
    FlattenOne([b]);
  }

  /** The stop byte alone, from power-up: one turn reads it, dispatches it and leaves the car stopped. */
  lemma StopByteStops(w: World, read: FloatReader)
    requires w.arrived == [['s' as int]] || w.arrived == [['S' as int]]
    ensures Handled([w], read) == [D.StopMotors] && Stopped(Firmware.Run([w], read).drive)
  {
    hide Firmware.Run, Parse, EndsStopped, Stopped, BytesRead, EncodeStream, Meanings, Handled, Partial;
    var c := if w.arrived == [['s' as int]] then Stop else StopCapital;
    FirstByte(w, CodeOf(c), read);
    OneStop(c);
    CommandsHandled([w], [c], [], read);
    LogStops([w], read);
  }

  lemma FlattenOne(bytes: seq<byte>)
    ensures Flatten([] + [bytes]) == bytes && [] + [bytes] == [bytes]
  {
    assert [bytes][..0] == [];
    assert Flatten([]) + bytes == bytes;
  }

  lemma OneStop(c: HostCommand)
    requires c.Stop? || c.StopCapital?
    ensures EncodeStream([c]) + [] == [CodeOf(c)] && Partial([]) && EndsStopped(EventsOf([c]))
    ensures forall read :: Meanings([c], read) == [D.StopMotors]
  {
    EncodingParts(c);
    PayloadBytes(c);
    assert [c][1..] == [] && EncodeStream([c]) == EncodeCommand(c) + EncodeStream([]);
    assert [] <= EncodeCommand(c) && [] != EncodeCommand(c);
    StopEvents([c], 0);
  }
}
