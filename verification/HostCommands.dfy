/** User/serial_monitor_lib.py, the sending half of the host: commands with their typed values, packed
    like any other message. */
module HostCommands {
  import opened Common
  import opened WireFormat
  import opened Commands

  type Float32 = raw: seq<byte> | |raw| == 4 witness [0, 0, 0, 0]

  type Int16Value = v: int | -0x8000 <= v < 0x8000

  /** All commands the documentation lists but '~', with the values they carry. */
  datatype HostCommand =
    | Multiply(v1: Float32, v2: Float32)
    | Divide(v1: Float32, v2: Float32)
    | Add(v1: Float32, v2: Float32)
    | Subtract(v1: Float32, v2: Float32)
    | SendTime(action: byte)
    | RepeatTime(action: byte, duration: Float32)
    | SendEncoder
    | RepeatEncoder(duration: Float32)
    | SendBattery
    | RepeatBattery(duration: Float32)
    | Pwm(left: Int16Value, right: Int16Value)
    | PwmFor(left: Int16Value, right: Int16Value, duration: Float32)
    | Stop
    | StopCapital
    | SendSystem
    | RepeatSystem(duration: Float32)
    | Move(linear: Float32, angular: Float32)
    | MoveFor(linear: Float32, angular: Float32, duration: Float32)
    | Drive(velocity: Float32, angular: Float32)
    | DriveFor(velocity: Float32, angular: Float32, duration: Float32)
    | SendProximity
    | RepeatProximity(duration: Float32)
    | Gripper(position: byte)
    | AvoidObstacles(duration: Float32)

  function CodeOf(c: HostCommand): (code: byte)
    ensures 0 < code < 128
  {
    var ch: char :=
      match c
      case Multiply(_, _) => '*'
      case Divide(_, _) => '/'
      case Add(_, _) => '+'
      case Subtract(_, _) => '-'
      case SendTime(_) => 't'
      case RepeatTime(_, _) => 'T'
      case SendEncoder => 'e'
      case RepeatEncoder(_) => 'E'
      case SendBattery => 'b'
      case RepeatBattery(_) => 'B'
      case Pwm(_, _) => 'p'
      case PwmFor(_, _, _) => 'P'
      case Stop => 's'
      case StopCapital => 'S'
      case SendSystem => 'q'
      case RepeatSystem(_) => 'Q'
      case Move(_, _) => 'd'
      case MoveFor(_, _, _) => 'D'
      case Drive(_, _) => 'v'
      case DriveFor(_, _, _) => 'V'
      case SendProximity => 'i'
      case RepeatProximity(_) => 'I'
      case Gripper(_) => 'G'
      case AvoidObstacles(_) => 'O';
    ch as int
  }

  /** The values behind the command character. */
  function ValuesOf(c: HostCommand): seq<Field> {
    match c
    case Multiply(v1, v2) => [F32(v1), F32(v2)]
    case Divide(v1, v2) => [F32(v1), F32(v2)]
    case Add(v1, v2) => [F32(v1), F32(v2)]
    case Subtract(v1, v2) => [F32(v1), F32(v2)]
    case SendTime(action) => [U8(action)]
    case RepeatTime(action, duration) => [U8(action), F32(duration)]
    case SendEncoder => []
    case RepeatEncoder(duration) => [F32(duration)]
    case SendBattery => []
    case RepeatBattery(duration) => [F32(duration)]
    case Pwm(left, right) => [I16(left), I16(right)]
    case PwmFor(left, right, duration) => [I16(left), I16(right), F32(duration)]
    case Stop => []
    case StopCapital => []
    case SendSystem => []
    case RepeatSystem(duration) => [F32(duration)]
    case Move(linear, angular) => [F32(linear), F32(angular)]
    case MoveFor(linear, angular, duration) => [F32(linear), F32(angular), F32(duration)]
    case Drive(velocity, angular) => [F32(velocity), F32(angular)]
    case DriveFor(velocity, angular, duration) => [F32(velocity), F32(angular), F32(duration)]
    case SendProximity => []
    case RepeatProximity(duration) => [F32(duration)]
    case Gripper(position) => [U8(position)]
    case AvoidObstacles(duration) => [F32(duration)]
  }

  function Payload(c: HostCommand): seq<byte> { Pack(ValuesOf(c)) }

  /** SerialData.write: the command character and the values, packed as one message. */
  function EncodeCommand(c: HostCommand): seq<byte> { Pack([Chr(CodeOf(c))] + ValuesOf(c)) }

  function EncodeStream(cs: seq<HostCommand>): seq<byte>
    decreases |cs|
  {
    if cs == [] then [] else EncodeCommand(cs[0]) + EncodeStream(cs[1..])
  }

  function EventOf(c: HostCommand): Event { Dispatch(CodeOf(c), Payload(c)) }

  function EventsOf(cs: seq<HostCommand>): (events: seq<Event>)
    ensures |events| == |cs| && forall i :: 0 <= i < |cs| ==> events[i] == EventOf(cs[i])
  {
    seq(|cs|, i requires 0 <= i < |cs| => EventOf(cs[i]))
  }

  lemma PackUpToThree(a: Field, b: Field, c: Field)
    ensures Pack([]) == [] && Pack([a]) == PackField(a) && Pack([a, b]) == PackField(a) + PackField(b)
    ensures Pack([a, b, c]) == PackField(a) + PackField(b) + PackField(c)
  {
    hide PackField;
    assert [a, b, c][..2] == [a, b] && [a, b][..1] == [a] && [a][..0] == [];
    PackLast([a]);
    PackLast([a, b]);
    PackLast([a, b, c]);
    PackNone();
  }

  lemma EncodingParts(c: HostCommand)
    ensures EncodeCommand(c) == [CodeOf(c)] + Payload(c)
  {
    hide Pack, CodeOf, ValuesOf;
    var m := [Chr(CodeOf(c))] + ValuesOf(c);
    PackFront(m);
    assert m[1..] == ValuesOf(c);
  }

  /** The bytes of the values, one after the other. */
  lemma PayloadBytes(c: HostCommand)
    ensures Payload(c) ==
            match |ValuesOf(c)|
            case 0 => []
            case 1 => PackField(ValuesOf(c)[0])
            case 2 => PackField(ValuesOf(c)[0]) + PackField(ValuesOf(c)[1])
            case _ => PackField(ValuesOf(c)[0]) + PackField(ValuesOf(c)[1]) + PackField(ValuesOf(c)[2])
    ensures |ValuesOf(c)| <= 3
  {
    hide PackField, Pack;
    var v := ValuesOf(c);
    var x := Chr(0);
    PackUpToThree(if |v| > 0 then v[0] else x, if |v| > 1 then v[1] else x, if |v| > 2 then v[2] else x);
    assert v == [] || v == [v[0]] || v == [v[0], v[1]] || v == [v[0], v[1], v[2]];
  }

  /** The length table of the firmware agrees with what the host packs. */
  lemma LengthAgrees(c: HostCommand)
    ensures CodeOf(c) != RESTART && MessageLen(CodeOf(c)) == |EncodeCommand(c)| == 1 + |Payload(c)|
  {
    EncodingParts(c);
    PayloadBytes(c);
    hide Payload, EncodeCommand, Pack;
  }

  /** The commands the firmware recognises are those of the host, and '~'. */
  lemma RecognisedExactly(code: byte)
    ensures MessageLen(code) > 0 <==> code == RESTART || exists c: HostCommand :: CodeOf(c) == code
  {
    forall c: HostCommand | CodeOf(c) == code
      ensures MessageLen(code) > 0
    {
      LengthAgrees(c);
    }
    if MessageLen(code) > 0 && code != RESTART {
      assert CodeOf(Example(code)) == code;
    }
  }

  /** A command with a given code, if there is one. */
  function Example(code: byte): HostCommand {
    var f: Float32 := [0, 0, 0, 0];
    var c := code as char;
    if c == '*' then Multiply(f, f) else if c == '/' then Divide(f, f) else if c == '+' then Add(f, f)
    else if c == '-' then Subtract(f, f) else if c == 't' then SendTime(0) else if c == 'T' then RepeatTime(0, f)
    else if c == 'e' then SendEncoder else if c == 'E' then RepeatEncoder(f) else if c == 'b' then SendBattery
    else if c == 'B' then RepeatBattery(f) else if c == 'p' then Pwm(0, 0) else if c == 'P' then PwmFor(0, 0, f)
    else if c == 's' then Stop else if c == 'S' then StopCapital else if c == 'q' then SendSystem
    else if c == 'Q' then RepeatSystem(f) else if c == 'd' then Move(f, f) else if c == 'D' then MoveFor(f, f, f)
    else if c == 'v' then Drive(f, f) else if c == 'V' then DriveFor(f, f, f) else if c == 'i' then SendProximity
    else if c == 'I' then RepeatProximity(f) else if c == 'G' then Gripper(0) else AvoidObstacles(f)
  }

  /** Whatever follows, the bytes of a command are dispatched as that command. */
  lemma CommandParses(c: HostCommand, rest: seq<byte>)
    ensures Parse(EncodeCommand(c) + rest) == Parsed([EventOf(c)] + Parse(rest).events, Parse(rest).rest)
  {
    EncodingParts(c);
    LengthAgrees(c);
    hide EncodeCommand, Payload, CodeOf, MessageLen;
    var bytes := EncodeCommand(c) + rest;
    var n := MessageLen(CodeOf(c));
    assert bytes[0] == CodeOf(c) && bytes[n..] == rest && bytes[1..n] == Payload(c);
  }

  /** A stream of commands is dispatched command by command. */
  lemma {:induction false} StreamParses(cs: seq<HostCommand>, tail: seq<byte>)
    ensures Parse(EncodeStream(cs) + tail) == Parsed(EventsOf(cs) + Parse(tail).events, Parse(tail).rest)
    decreases |cs|
  {
    hide EncodeCommand, Parse, EventOf;
    if cs == [] {
      assert EncodeStream(cs) + tail == tail && EventsOf(cs) + Parse(tail).events == Parse(tail).events;
    } else {
      var more := EncodeStream(cs[1..]) + tail;
      assert EncodeStream(cs) + tail == EncodeCommand(cs[0]) + more;
      CommandParses(cs[0], more);
      StreamParses(cs[1..], tail);
      assert EventsOf(cs) == [EventOf(cs[0])] + EventsOf(cs[1..]);
      assert EventsOf(cs) + Parse(tail).events == [EventOf(cs[0])] + (EventsOf(cs[1..]) + Parse(tail).events);
    }
  }

  /** The beginning of a command, possibly nothing. */
  ghost predicate Partial(part: seq<byte>) { exists c :: part <= EncodeCommand(c) && part != EncodeCommand(c) }

  lemma PartialWaits(part: seq<byte>)
    requires Partial(part)
    ensures Waiting(part) && Parse(part) == Parsed([], part)
  {
    var c :| part <= EncodeCommand(c) && part != EncodeCommand(c);
    EncodingParts(c);
    LengthAgrees(c);
    hide EncodeCommand, Payload, CodeOf, MessageLen;
    assert |part| < |EncodeCommand(c)|;
    if part != [] {
      assert part[0] == EncodeCommand(c)[0];
    }
  }
}
