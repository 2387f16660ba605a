/** Application/MEGN540_MessageHandeling.c, receiving half: commands are cut out of a byte stream that
    arrives in packets, one byte per turn of the main loop. */
module Commands {
  import opened Common

  /** MEGN540_Message_Len; 0 for an unrecognised command. */
  function MessageLen(cmd: byte): (n: nat)
    ensures n <= 13
  {
    var c := cmd as char;
    if c == '~' then 1
    else if c == '*' || c == '/' || c == '+' || c == '-' then 9
    else if c == 't' || c == 'G' then 2
    else if c == 'T' then 6
    else if c == 'e' || c == 'b' || c == 's' || c == 'S' || c == 'q' || c == 'i' then 1
    else if c == 'E' || c == 'B' || c == 'Q' || c == 'I' || c == 'O' || c == 'p' then 5
    else if c == 'P' || c == 'd' || c == 'v' then 9
    else if c == 'D' || c == 'V' then 13
    else 0
  }

  /** What the handler of a command reads after the command byte: two floats, two 16-bit ints, ... */
  function PayloadLen(cmd: byte): nat {
    var c := cmd as char;
    if c == '*' || c == '/' || c == '+' || c == '-' then 4 + 4
    else if c == 't' || c == 'G' then 1
    else if c == 'T' then 1 + 4
    else if c == 'E' || c == 'B' || c == 'Q' || c == 'I' || c == 'O' then 4
    else if c == 'p' then 2 + 2
    else if c == 'P' then 2 + 2 + 4
    else if c == 'd' || c == 'v' then 4 + 4
    else if c == 'D' || c == 'V' then 4 + 4 + 4
    else 0
  }

  const RESTART: byte := '~' as int

  /** Every handler but the one of '~' removes exactly the message. */
  lemma HandlersConsumeMessage(cmd: byte)
    requires MessageLen(cmd) > 0
    ensures MessageLen(cmd) == 1 + PayloadLen(cmd)
  {
  }

  datatype Event = Dispatch(cmd: byte, payload: seq<byte>) | Unrecognised(cmd: byte) | RestartSet

  // ----- The reference: a one-shot parse of a byte string -----

  /** The commands at the front of `bytes`, and what is left when no whole recognised command other
      than '~' is at the front any more. */
  datatype Parsed = Parsed(events: seq<Event>, rest: seq<byte>)

  predicate Consumable(bytes: seq<byte>) {
    bytes != [] && bytes[0] != RESTART && 0 < MessageLen(bytes[0]) <= |bytes|
  }

  function Parse(bytes: seq<byte>): (p: Parsed)
    ensures !Consumable(p.rest)
    decreases |bytes|
  {
    if !Consumable(bytes) then Parsed([], bytes)
    else
      var n := MessageLen(bytes[0]);
      var p := Parse(bytes[n..]);
      Parsed([Dispatch(bytes[0], bytes[1..n])] + p.events, p.rest)
  }

  ghost predicate StartsUnrecognised(bytes: seq<byte>) { bytes != [] && MessageLen(bytes[0]) == 0 }

  ghost predicate StartsRestart(bytes: seq<byte>) { bytes != [] && bytes[0] == RESTART }

  /** Empty, or the beginning of a recognised command other than '~'. */
  ghost predicate Waiting(bytes: seq<byte>) {
    bytes == [] || (bytes[0] != RESTART && |bytes| < MessageLen(bytes[0]))
  }

  lemma RestCases(bytes: seq<byte>)
    requires !Consumable(bytes)
    ensures Waiting(bytes) || StartsUnrecognised(bytes) || StartsRestart(bytes)
  {
  }

  /** Parsing goes on from what was left. */
  lemma {:induction false} ParseAppend(x: seq<byte>, y: seq<byte>)
    ensures Parse(x + y) == Parsed(Parse(x).events + Parse(Parse(x).rest + y).events, Parse(Parse(x).rest + y).rest)
    decreases |x|
  {
    if Consumable(x) {
      hide MessageLen;
      var n := MessageLen(x[0]);
      assert (x + y)[n..] == x[n..] + y;
      assert (x + y)[1..n] == x[1..n];
      var e := [Dispatch(x[0], x[1..n])];
      var p, q := Parse(x[n..]), Parse(Parse(x[n..]).rest + y);
      assert (e + p.events) + q.events == e + (p.events + q.events);
      assert Parse(x) == Parsed(e + p.events, p.rest);
      assert Parse(x + y) == Parsed(e + Parse(x[n..] + y).events, Parse(x[n..] + y).rest);
      hide *;
      ParseAppend(x[n..], y);
    } else {
      assert [] + Parse(x + y).events == Parse(x + y).events;
    }
  }

  // ----- The reference over packets -----

  /** events: the log; pending: the beginning of a command; bad: the last packet held an unrecognised
      command, so that its remainder is void; stuck: a '~' was at the front. */
  datatype Outcome = Outcome(events: seq<Event>, pending: seq<byte>, bad: bool, stuck: bool)

  ghost function Conclude(o: Outcome, p: Parsed): Outcome {
    if StartsUnrecognised(p.rest) then Outcome(o.events + p.events + [Unrecognised(p.rest[0])], [], true, o.stuck)
    else Outcome(o.events + p.events, p.rest, false, o.stuck || StartsRestart(p.rest))
  }

  /** Packet after packet: parse what is pending and the packet; an unrecognised command voids the
      rest of its packet and nothing else. */
  ghost function Reference(packets: seq<seq<byte>>): Outcome
    decreases |packets|
  {
    if packets == [] then Outcome([], [], false, false)
    else
      var o := Reference(packets[..|packets| - 1]);
      Conclude(o, Parse(o.pending + packets[|packets| - 1]))
  }

  lemma {:induction false} PendingWaits(packets: seq<seq<byte>>)
    ensures var o := Reference(packets); !o.stuck ==> Waiting(o.pending)
    decreases |packets|
  {
    if packets == [] {
    } else {
      var o := Reference(packets[..|packets| - 1]);
      RestCases(Parse(o.pending + packets[|packets| - 1]).rest);
    }
  }

  function Flatten(packets: seq<seq<byte>>): seq<byte>
    decreases |packets|
  {
    if packets == [] then [] else Flatten(packets[..|packets| - 1]) + packets[|packets| - 1]
  }

  lemma HaltedParseStays(x: seq<byte>, y: seq<byte>)
    requires StartsUnrecognised(x) || StartsRestart(x)
    ensures Parse(x + y) == Parsed([], x + y)
    ensures StartsUnrecognised(x) ==> StartsUnrecognised(x + y)
    ensures StartsRestart(x) ==> StartsRestart(x + y)
  {
  }

  /** For a stream that is recognised throughout, packet boundaries do not matter: the reference is
      the one-shot parse of all bytes. */
  lemma {:induction false} RecognisedStreamIgnoresPackets(packets: seq<seq<byte>>)
    requires Waiting(Parse(Flatten(packets)).rest)
    ensures var p := Parse(Flatten(packets)); Reference(packets) == Outcome(p.events, p.rest, false, false)
    decreases |packets|
  {
    if packets == [] {
    } else {
      var init, last := packets[..|packets| - 1], packets[|packets| - 1];
      var before := Parse(Flatten(init));
      ParseAppend(Flatten(init), last);
      RestCases(before.rest);
      if !Waiting(before.rest) {
        HaltedParseStays(before.rest, last);
        assert false;
      }
      RecognisedStreamIgnoresPackets(init);
      NotBoth(Parse(Flatten(packets)).rest);
    }
  }

  lemma NotBoth(x: seq<byte>)
    ensures Waiting(x) ==> !StartsUnrecognised(x) && !StartsRestart(x)
  {
  }
}

module ReceiveLoop {
  import opened Common
  import opened Deque
  import opened SerialIO
  import opened Commands

  /** One run of Message_Handling_Task on the receive ring. */
  datatype Handled = Handled(ring: seq<byte>, flush: bool, events: seq<Event>)

  function HandleMessages(ring: seq<byte>): (h: Handled)
    ensures |h.ring| <= |ring|
  {
    if ring == [] then Handled(ring, false, [])
    else
      var n := MessageLen(ring[0]);
      if n == 0 then Handled([], true, [Unrecognised(ring[0])])
      else if |ring| < n then Handled(ring, false, [])
      else if ring[0] == RESTART then Handled(ring, false, [RestartSet])
      else Handled(ring[n..], false, [Dispatch(ring[0], ring[1..n])])
  }

  /** The receive side of the firmware; `done` and `read` are history: the packets acknowledged so
      far and the bytes read of the current one. */
  datatype Rx = Rx(recv: Receiver, packets: seq<seq<byte>>, log: seq<Event>,
                   done: seq<seq<byte>>, read: seq<byte>)

  const START: Rx := Rx(Receiver([], false, false), [], [], [], [])

  predicate Fits(x: Rx) { |x.recv.ring| <= CAPACITY }

  function ReadTurn(x: Rx): (x': Rx)
    requires Fits(x)
    ensures Fits(x')
  {
    var (recv, packets) := ReadByte(x.recv, x.packets);
    var x' := x.(recv := recv, packets := packets);
    if x.packets == [] then x'
    else if x.packets[0] != [] then x'.(read := x.read + [x.packets[0][0]])
    else if x.recv.reading then x'.(done := x.done + [x.read], read := [])
    else x'
  }

  function HandleTurn(x: Rx): (x': Rx)
    requires Fits(x)
    ensures Fits(x')
  {
    var h := HandleMessages(x.recv.ring);
    x.(recv := x.recv.(ring := h.ring, clearBuffer := x.recv.clearBuffer || h.flush), log := x.log + h.events)
  }

  /** One turn of the main loop: packets may arrive, at most one byte is read, one command handled. */
  function Turn(x: Rx, arrived: seq<seq<byte>>): (x': Rx)
    requires Fits(x)
    ensures Fits(x')
  {
    HandleTurn(ReadTurn(x.(packets := x.packets + arrived)))
  }

  function Run(arrivals: seq<seq<seq<byte>>>): (x: Rx)
    ensures Fits(x)
    decreases |arrivals|
  {
    if arrivals == [] then START
    else Turn(Run(arrivals[..|arrivals| - 1]), arrivals[|arrivals| - 1])
  }

  /** Everything read so far, cut at the packet boundaries. */
  function ReadSoFar(x: Rx): seq<seq<byte>> { x.done + [x.read] }

  ghost predicate Agrees(x: Rx) {
    var o := Reference(ReadSoFar(x));
    x.log == o.events && x.recv.ring == o.pending && x.recv.clearBuffer == o.bad
  }

  ghost predicate NotStuck(x: Rx) { !Reference(ReadSoFar(x)).stuck }

  lemma ReferenceLast(done: seq<seq<byte>>, read: seq<byte>)
    ensures Reference(done + [read]) == Conclude(Reference(done), Parse(Reference(done).pending + read))
  {
    assert (done + [read])[..|done|] == done;
  }

  /** One more byte of the current packet: once stuck, always stuck; after an unrecognised command
      nothing changes; otherwise the byte joins what is pending. */
  lemma ReferenceByte(done: seq<seq<byte>>, read: seq<byte>, b: byte)
    ensures var o, o' := Reference(done + [read]), Reference(done + [read + [b]]);
            (o.stuck ==> o'.stuck) &&
            (o.bad ==> o' == o) &&
            (!o.stuck && !o.bad ==> o' == Conclude(o, Parse(o.pending + [b])))
  {
    var base := Reference(done);
    var x := base.pending + read;
    ReferenceLast(done, read);
    ReferenceLast(done, read + [b]);
    assert base.pending + (read + [b]) == x + [b];
    ParseAppend(x, [b]);
    hide Reference, Parse, Conclude, MessageLen;
    var rest := Parse(x).rest;
    if StartsUnrecognised(rest) || StartsRestart(rest) {
      HaltedParseStays(rest, [b]);
      ConcludeStopped(base, Parse(x), [b]);
    } else {
      ConcludeTwice(base, Parse(x), Parse(rest + [b]));
    }
  }

  lemma ConcludeStopped(base: Outcome, p: Parsed, y: seq<byte>)
    requires StartsUnrecognised(p.rest) || StartsRestart(p.rest)
    ensures var o, o' := Conclude(base, p), Conclude(base, Parsed(p.events + [], p.rest + y));
            (o.stuck ==> o'.stuck) && (o.bad ==> o' == o) && (o.stuck || o.bad)
  {
    assert p.events + [] == p.events;
  }

  lemma ConcludeTwice(base: Outcome, p: Parsed, q: Parsed)
    requires !StartsUnrecognised(p.rest) && !StartsRestart(p.rest)
    ensures var o, o' := Conclude(base, p), Conclude(base, Parsed(p.events + q.events, q.rest));
            !o.bad && o' == Conclude(o, q) && o.pending == p.rest && (o.stuck ==> o'.stuck)
  {
    assert base.events + (p.events + q.events) == (base.events + p.events) + q.events;
  }

  /** The end of a packet: what is pending stays pending, an unrecognised command is forgotten. */
  lemma ReferencePacketEnd(done: seq<seq<byte>>, read: seq<byte>)
    ensures var o, o' := Reference(done + [read]), Reference(done + [read] + [[]]);
            (o.stuck ==> o'.stuck) &&
            (!o.stuck ==> o' == Outcome(o.events, o.pending, false, false))
  {
    var o := Reference(done + [read]);
    ReferenceLast(done + [read], []);
    PendingWaits(done + [read]);
    assert o.pending + [] == o.pending;
    assert o.events + [] == o.events;
    if !o.stuck {
      WaitingStops(o.pending);
    }
  }

  lemma WaitingStops(x: seq<byte>)
    requires Waiting(x)
    ensures Parse(x) == Parsed([], x) && !StartsUnrecognised(x) && !StartsRestart(x)
    ensures HandleMessages(x) == Handled(x, false, [])
  {
  }

  /** With a byte more, one call of the task does what the reference does. */
  lemma HandleOneMore(x: seq<byte>, b: byte)
    requires Waiting(x)
    ensures var h, o := HandleMessages(x + [b]), Conclude(Outcome([], [], false, false), Parse(x + [b]));
            !o.stuck ==> h == Handled(o.pending, o.bad, o.events)
  {
    var y := x + [b];
    if Consumable(y) {
      var n := MessageLen(y[0]);
      assert n == |y|;
      assert Parse(y[n..]) == Parsed([], []);
    }
  }

  lemma ConcludeShift(o: Outcome, p: Parsed)
    ensures var c := Conclude(Outcome([], [], false, false), p);
            !o.stuck ==> Conclude(o, p) == Outcome(o.events + c.events, c.pending, c.bad, c.stuck)
  {
  }

  lemma TurnAgrees(x: Rx, arrived: seq<seq<byte>>)
    requires Fits(x) && Agrees(x) && NotStuck(x) && (x.packets == [] ==> x.read == [])
    ensures var x' := Turn(x, arrived); NotStuck(x') ==> Agrees(x')
  {
    var y := x.(packets := x.packets + arrived);
    var o := Reference(ReadSoFar(x));
    PendingWaits(ReadSoFar(x));
    assert o.events + [] == o.events;
    hide Reference, Parse, Conclude, MessageLen, Waiting;
    if y.packets == [] || (y.packets[0] == [] && !y.recv.reading) {
      WaitingStops(o.pending);
    } else if y.packets[0] == [] {
      ReferencePacketEnd(x.done, x.read);
      WaitingStops(o.pending);
    } else {
      var b := y.packets[0][0];
      ReferenceByte(x.done, x.read, b);
      if o.bad {
        WaitingStops(o.pending);
      } else {
        WaitingIsShort(o.pending);
        HandleOneMore(o.pending, b);
        ConcludeShift(o, Parse(o.pending + [b]));
      }
    }
  }

  lemma WaitingIsShort(x: seq<byte>)
    requires Waiting(x)
    ensures |x| <= 12
  {
  }

  // ----- Every run -----

  lemma {:induction false} RunShape(arrivals: seq<seq<seq<byte>>>)
    ensures Run(arrivals).packets == [] ==> Run(arrivals).read == []
    decreases |arrivals|
  {
    if arrivals == [] {
    } else {
      RunShape(arrivals[..|arrivals| - 1]);
    }
  }

  lemma StuckForever(x: Rx, arrived: seq<seq<byte>>)
    requires Fits(x) && !NotStuck(x)
    ensures !NotStuck(Turn(x, arrived))
  {
    var y := x.(packets := x.packets + arrived);
    if y.packets != [] {
      if y.packets[0] != [] {
        ReferenceByte(x.done, x.read, y.packets[0][0]);
      } else {
        ReferencePacketEnd(x.done, x.read);
      }
    }
  }

  /** Flush exactness, for every way packets arrive and every number of turns: as long as no '~' came
      to the front, the log of dispatched and refused commands is the one of the reference, in which
      an unrecognised command voids exactly the rest of its own packet; `clear_buffer` is set exactly
      while that packet is unacknowledged, and the ring holds only the beginning of a command. */
  lemma {:induction false} FlushIsExact(arrivals: seq<seq<seq<byte>>>)
    requires NotStuck(Run(arrivals))
    ensures var x := Run(arrivals); Agrees(x) && Waiting(x.recv.ring) && |x.recv.ring| <= 12
    decreases |arrivals|
  {
    var x := Run(arrivals);
    if arrivals == [] {
      assert ReadSoFar(START)[..0] == [];
      assert Parse([]) == Parsed([], []);
      assert Reference([[]]) == Conclude(Reference([]), Parse([] + []));
    } else {
      var before := Run(arrivals[..|arrivals| - 1]);
      if !NotStuck(before) {
        StuckForever(before, arrivals[|arrivals| - 1]);
        assert false;
      }
      FlushIsExact(arrivals[..|arrivals| - 1]);
      RunShape(arrivals[..|arrivals| - 1]);
      TurnAgrees(before, arrivals[|arrivals| - 1]);
    }
    PendingWaits(ReadSoFar(x));
    WaitingIsShort(x.recv.ring);
  }

  /** Chunking independence: if the bytes read so far are recognised commands (none of them '~'),
      then, however they were cut into packets and spread over turns, the dispatched commands are
      those of a one-shot parse of all the bytes. */
  lemma ChunkingIndependence(arrivals: seq<seq<seq<byte>>>)
    requires Waiting(Parse(Flatten(ReadSoFar(Run(arrivals)))).rest)
    ensures var x, p := Run(arrivals), Parse(Flatten(ReadSoFar(Run(arrivals))));
            x.log == p.events && x.recv.ring == p.rest && !x.recv.clearBuffer && |x.recv.ring| <= 12
  {
    RecognisedStreamIgnoresPackets(ReadSoFar(Run(arrivals)));
    FlushIsExact(arrivals);
  }

  // ----- The condition of flush exactness is exact -----

  lemma {:induction false} ParseHasNoRestart(bytes: seq<byte>)
    ensures RestartSet !in Parse(bytes).events
    decreases |bytes|
  {
    if !Consumable(bytes) {
    } else {
      ParseHasNoRestart(bytes[MessageLen(bytes[0])..]);
    }
  }

  lemma {:induction false} ReferenceHasNoRestart(packets: seq<seq<byte>>)
    ensures RestartSet !in Reference(packets).events
    decreases |packets|
  {
    if packets == [] {
    } else {
      var o := Reference(packets[..|packets| - 1]);
      ReferenceHasNoRestart(packets[..|packets| - 1]);
      ParseHasNoRestart(o.pending + packets[|packets| - 1]);
    }
  }

  /** Only a '~' right at the front makes the reference stop. */
  lemma StuckByRestart(x: seq<byte>, b: byte)
    requires Waiting(x) && StartsRestart(Parse(x + [b]).rest)
    ensures x == [] && b == RESTART && HandleMessages(x + [b]) == Handled(x + [b], false, [RestartSet])
  {
    WholeParsed(x + [b]);
  }

  lemma WholeParsed(y: seq<byte>)
    ensures Consumable(y) && MessageLen(y[0]) == |y| ==> Parse(y).rest == []
  {
    if Consumable(y) && MessageLen(y[0]) == |y| {
      assert Parse(y[|y|..]) == Parsed([], []);
    }
  }

  lemma StartIsNotStuck()
    ensures NotStuck(START)
  {
    assert ReadSoFar(START)[..0] == [];
    assert Parse([]) == Parsed([], []);
    assert Reference([[]]) == Conclude(Reference([]), Parse([] + []));
  }

  lemma TurnGetsStuck(x: Rx, arrived: seq<seq<byte>>)
    requires Fits(x) && Agrees(x) && NotStuck(x) && !NotStuck(Turn(x, arrived))
    ensures RestartSet in Turn(x, arrived).log
  {
    var y := x.(packets := x.packets + arrived);
    var o := Reference(ReadSoFar(x));
    PendingWaits(ReadSoFar(x));
    hide Reference, Parse, MessageLen, Waiting, HandleMessages;
    if y.packets == [] || (y.packets[0] == [] && !y.recv.reading) {
    } else if y.packets[0] == [] {
      ReferencePacketEnd(x.done, x.read);
    } else {
      var b := y.packets[0][0];
      ReferenceByte(x.done, x.read, b);
      StuckByRestart(o.pending, b);
    }
  }

  lemma TurnKeepsLog(x: Rx, arrived: seq<seq<byte>>)
    requires Fits(x)
    ensures x.log <= Turn(x, arrived).log
  {
    hide HandleMessages;
  }

  lemma {:induction false} StuckIsLogged(arrivals: seq<seq<seq<byte>>>)
    requires !NotStuck(Run(arrivals))
    ensures RestartSet in Run(arrivals).log
    decreases |arrivals|
  {
    StartIsNotStuck();
    if arrivals == [] {
    } else {
      var before, arrived := Run(arrivals[..|arrivals| - 1]), arrivals[|arrivals| - 1];
      hide Turn, Reference;
      if NotStuck(before) {
        FlushIsExact(arrivals[..|arrivals| - 1]);
        TurnGetsStuck(before, arrived);
      } else {
        StuckIsLogged(arrivals[..|arrivals| - 1]);
        TurnKeepsLog(before, arrived);
      }
    }
  }

  /** Flush exactness and its condition: the receive path does what the reference does if and only if
      no '~' came to the front of what was read. */
  lemma AgreesExactly(arrivals: seq<seq<seq<byte>>>)
    ensures Agrees(Run(arrivals)) <==> NotStuck(Run(arrivals))
  {
    var x := Run(arrivals);
    if NotStuck(x) {
      FlushIsExact(arrivals);
    } else {
      StuckIsLogged(arrivals);
      ReferenceHasNoRestart(ReadSoFar(x));
    }
  }

  // ----- Nothing is lost, everything is read -----

  function Concat(arrivals: seq<seq<seq<byte>>>): seq<seq<byte>>
    decreases |arrivals|
  {
    if arrivals == [] then [] else Concat(arrivals[..|arrivals| - 1]) + arrivals[|arrivals| - 1]
  }

  /** The packets acknowledged, the current one and those waiting. */
  function Seen(x: Rx): seq<seq<byte>> {
    if x.packets == [] then x.done else x.done + [x.read + x.packets[0]] + x.packets[1..]
  }

  lemma {:induction false} NothingLost(arrivals: seq<seq<seq<byte>>>)
    ensures Seen(Run(arrivals)) == Concat(arrivals)
    decreases |arrivals|
  {
    if arrivals == [] {
    } else {
      var before, arrived := Run(arrivals[..|arrivals| - 1]), arrivals[|arrivals| - 1];
      NothingLost(arrivals[..|arrivals| - 1]);
      RunShape(arrivals[..|arrivals| - 1]);
      hide HandleMessages;
      SeenArrival(before, arrived);
      SeenRead(before.(packets := before.packets + arrived));
    }
  }

  lemma SeenArrival(x: Rx, arrived: seq<seq<byte>>)
    requires x.packets == [] ==> x.read == []
    ensures Seen(x.(packets := x.packets + arrived)) == Seen(x) + arrived
  {
    if x.packets == [] && arrived != [] {
      assert [] + arrived[0] == arrived[0];
      assert arrived == [arrived[0]] + arrived[1..];
      assert x.read + arrived[0] == arrived[0];
    } else if x.packets != [] {
      assert (x.packets + arrived)[1..] == x.packets[1..] + arrived;
    }
  }

  lemma SeenRead(x: Rx)
    requires Fits(x)
    ensures Seen(ReadTurn(x)) == Seen(x)
  {
    if x.packets != [] {
      var p := x.packets[0];
      if p != [] {
        assert (x.read + [p[0]]) + p[1..] == x.read + p;
        assert x.packets[0 := p[1..]][1..] == x.packets[1..];
      } else if x.recv.reading {
        assert x.read + p == x.read;
        if x.packets[1..] != [] {
          assert x.packets[1..] == [x.packets[1]] + x.packets[2..];
          assert [] + x.packets[1] == x.packets[1];
        }
      }
    }
  }

  /** Turns still needed to read and acknowledge the waiting packets. */
  function Work(packets: seq<seq<byte>>): nat
    decreases |packets|
  {
    if packets == [] then 0 else |packets[0]| + 1 + Work(packets[1..])
  }

  /** A turn makes progress on waiting packets exactly when a byte was read before or the front
      packet is not empty: an empty packet before the first byte blocks the endpoint. */
  lemma TurnProgresses(x: Rx)
    requires Fits(x) && x.packets != []
    ensures var x' := Turn(x, []);
            if x.recv.reading || x.packets[0] != []
            then x'.recv.reading && Work(x'.packets) == Work(x.packets) - 1
            else x'.packets == x.packets && x'.recv.reading == x.recv.reading
  {
    assert x.packets + [] == x.packets;
    if x.packets[0] != [] {
      assert x.packets[0 := x.packets[0][1..]][1..] == x.packets[1..];
    }
  }

  /** n turns during which nothing arrives. */
  function Idle(x: Rx, n: nat): (x': Rx)
    requires Fits(x)
    ensures Fits(x')
    decreases n
  {
    if n == 0 then x else Idle(Turn(x, []), n - 1)
  }

  lemma TurnKeepsSeen(x: Rx)
    requires Fits(x)
    ensures Seen(Turn(x, [])) == Seen(x)
  {
    assert x.packets + [] == x.packets;
    SeenRead(x);
  }

  lemma NothingToRead(x: Rx)
    requires Fits(x) && x.packets == []
    ensures Turn(x, []).packets == [] && Turn(x, []).done == x.done && Work([]) == 0
  {
    assert x.packets + [] == x.packets;
  }

  /** After enough turns every waiting packet is read and acknowledged. */
  lemma {:induction false} EverythingIsRead(x: Rx, n: nat)
    requires Fits(x) && n >= Work(x.packets)
    requires x.packets == [] || x.recv.reading || x.packets[0] != []
    ensures Idle(x, n).packets == [] && Idle(x, n).done == Seen(x)
    decreases n
  {
    hide Turn, Fits;
    if n == 0 {
    } else if x.packets == [] {
      NothingToRead(x);
      EverythingIsRead(Turn(x, []), n - 1);
    } else {
      hide Seen;
      TurnProgresses(x);
      TurnKeepsSeen(x);
      EverythingIsRead(Turn(x, []), n - 1);
    }
  }

  // ----- The command '~' -----

  /** '~' is never removed: as long as the ring has room, nothing behind it is handled; the byte that
      finds the ring full drops it. */
  lemma RestartBlocks(x: Rx)
    requires Fits(x) && StartsRestart(x.recv.ring) && !x.recv.clearBuffer && x.packets != [] && x.packets[0] != []
    ensures var y, b := ReadTurn(x), x.packets[0][0];
            if |x.recv.ring| < CAPACITY
            then Turn(x, []).recv.ring == x.recv.ring + [b] && Turn(x, []).log == x.log + [RestartSet]
            else y.recv.ring == x.recv.ring[1..] + [b]
  {
    assert x.packets + [] == x.packets;
  }

  function TotalBytes(packets: seq<seq<byte>>): nat
    decreases |packets|
  {
    if packets == [] then 0 else |packets[0]| + TotalBytes(packets[1..])
  }

  lemma RestartTurn(x: Rx)
    requires Fits(x) && StartsRestart(x.recv.ring) && !x.recv.clearBuffer
    requires |x.recv.ring| + TotalBytes(x.packets) <= CAPACITY
    ensures var y := Turn(x, []);
            StartsRestart(y.recv.ring) && !y.recv.clearBuffer && y.log == x.log + [RestartSet] &&
            |y.recv.ring| + TotalBytes(y.packets) == |x.recv.ring| + TotalBytes(x.packets)
  {
    assert x.packets + [] == x.packets;
    if x.packets != [] && x.packets[0] != [] {
      assert x.packets[0 := x.packets[0][1..]][1..] == x.packets[1..];
    }
  }

  /** So, although the length table gives '~' one byte, the one-shot parse does not describe a stream
      with a '~' in it: as long as the ring has room for all that follows, every turn only sets the
      restart flag again and no later command is dispatched. */
  lemma {:induction false} RestartBlocksRun(x: Rx, n: nat)
    requires Fits(x) && StartsRestart(x.recv.ring) && !x.recv.clearBuffer
    requires |x.recv.ring| + TotalBytes(x.packets) <= CAPACITY
    ensures Idle(x, n).log == x.log + Repeat(n, RestartSet) && StartsRestart(Idle(x, n).recv.ring)
    decreases n
  {
    if n > 0 {
      RestartTurn(x);
      hide Turn, StartsRestart;
      RestartBlocksRun(Turn(x, []), n - 1);
      assert [RestartSet] + Repeat(n - 1, RestartSet) == Repeat(n, RestartSet);
      assert (x.log + [RestartSet]) + Repeat(n - 1, RestartSet) == x.log + Repeat(n, RestartSet);
    } else {
      assert x.log + Repeat(0, RestartSet) == x.log;
    }
  }

  /** A packet with a '~' and a stop behind it, from power-up: the stop is never dispatched. */
  lemma StopBehindRestart(n: nat)
    ensures var x := Run([[[RESTART, 's' as int]]]);
            Idle(x, n).log == Repeat(n + 1, RestartSet) && !Agrees(x)
  {
    var arrivals: seq<seq<seq<byte>>> := [[[RESTART, 's' as int]]];
    assert arrivals[..0] == [];
    assert Run([]) == START;
    var x := Run(arrivals);
    assert x == Turn(START, arrivals[0]);
    assert [] + arrivals[0] == arrivals[0];
    assert x.recv.ring == [RESTART] && x.log == [RestartSet] && x.packets == [['s' as int]] && x.recv.reading;
    assert TotalBytes(x.packets) == 1 + TotalBytes([]);
    RestartLogged(x);
    hide Turn, Run, Agrees;
    RestartBlocksRun(x, n);
    assert [RestartSet] + Repeat(n, RestartSet) == Repeat(n + 1, RestartSet);
  }

  lemma RestartLogged(x: Rx)
    requires RestartSet in x.log
    ensures !Agrees(x)
  {
    ReferenceHasNoRestart(ReadSoFar(x));
  }

  // ----- Everything is dispatched; what an overflow loses -----

  function Unread(packets: seq<seq<byte>>): seq<byte>
    decreases |packets|
  {
    if packets == [] then [] else packets[0] + Unread(packets[1..])
  }

  /** The bytes that are still to be handled are recognised commands and perhaps the beginning of one. */
  ghost predicate Flowing(x: Rx) {
    && x.recv.reading && !x.recv.clearBuffer && |x.recv.ring| < CAPACITY
    && Waiting(Parse(x.recv.ring + Unread(x.packets)).rest)
  }

  function Effort(x: Rx): nat { 2 * Work(x.packets) + |x.recv.ring| }

  lemma FlowingRead(x: Rx)
    requires Flowing(x)
    ensures Fits(x)
    ensures var y := ReadTurn(x);
            && y.recv.ring + Unread(y.packets) == x.recv.ring + Unread(x.packets)
            && y.log == x.log && y.recv.reading && !y.recv.clearBuffer
            && (if x.packets == [] then y == x
                else 2 * Work(y.packets) + |y.recv.ring| < Effort(x) && |y.recv.ring| <= |x.recv.ring| + 1)
  {
    hide Parse, Waiting;
    if x.packets == [] {
    } else if x.packets[0] != [] {
      var p := x.packets[0];
      assert x.packets[0 := p[1..]][1..] == x.packets[1..];
      assert (x.recv.ring + [p[0]]) + (p[1..] + Unread(x.packets[1..])) == x.recv.ring + (p + Unread(x.packets[1..]));
    } else {
      assert [] + Unread(x.packets[1..]) == Unread(x.packets[1..]);
    }
  }

  /** One call of the task on the front of a recognised stream. */
  lemma FlowingHandle(ring: seq<byte>, more: seq<byte>)
    requires Waiting(Parse(ring + more).rest)
    ensures var h, p := HandleMessages(ring), Parse(ring + more);
            && !h.flush && Parse(h.ring + more).rest == p.rest && h.events + Parse(h.ring + more).events == p.events
            && (if Consumable(ring) then |h.ring| < |ring| else h.ring == ring && h.events == [] && |ring| <= 12)
  {
    if StartsUnrecognised(ring) || StartsRestart(ring) {
      HaltedParseStays(ring, more);
      NotBoth(ring + more);
    } else if Consumable(ring) {
      var n := MessageLen(ring[0]);
      assert (ring + more)[n..] == ring[n..] + more && (ring + more)[1..n] == ring[1..n];
    } else {
      RestCases(ring);
      WaitingStops(ring);
      WaitingIsShort(ring);
      assert [] + Parse(ring + more).events == Parse(ring + more).events;
    }
  }

  lemma FlowingTurn(x: Rx)
    requires Flowing(x) && (x.packets != [] || Consumable(x.recv.ring))
    ensures Fits(x)
    ensures var x' := Turn(x, []);
            var p, p' := Parse(x.recv.ring + Unread(x.packets)), Parse(x'.recv.ring + Unread(x'.packets));
            Flowing(x') && Effort(x') < Effort(x) && x'.log + p'.events == x.log + p.events && p'.rest == p.rest
  {
    hide ReadTurn, HandleMessages, Parse, Consumable, Waiting, Work;
    assert x.packets + [] == x.packets;
    FlowingRead(x);
    var y := ReadTurn(x);
    FlowingHandle(y.recv.ring, Unread(y.packets));
    var h := HandleMessages(y.recv.ring);
    assert Turn(x, []) == y.(recv := y.recv.(ring := h.ring), log := y.log + h.events);
    hide Unread;
    Joined(y.log, h.events, Parse(h.ring + Unread(y.packets)).events);
  }

  lemma Joined<T>(a: seq<T>, b: seq<T>, c: seq<T>)
    ensures (a + b) + c == a + (b + c)
  {
  }

  lemma AtRest(x: Rx)
    requires Flowing(x) && x.packets == [] && !Consumable(x.recv.ring)
    ensures Fits(x) && Turn(x, []) == x && Parse(x.recv.ring + Unread(x.packets)) == Parsed([], x.recv.ring)
  {
    assert x.packets + [] == x.packets && x.recv.ring + [] == x.recv.ring && x.log + [] == x.log;
    FlowingHandle(x.recv.ring, []);
  }

  /** Liveness: after enough turns all that waits in a recognised stream is dispatched, as the one-shot
      parse says. */
  lemma {:induction false} AllDispatched(x: Rx, n: nat)
    requires Flowing(x) && n >= Effort(x)
    ensures Fits(x)
    ensures var p := Parse(x.recv.ring + Unread(x.packets));
            Idle(x, n).log == x.log + p.events && Idle(x, n).recv.ring == p.rest
    decreases n
  {
    hide Turn, Parse, Consumable, Work, Waiting;
    if x.packets == [] && !Consumable(x.recv.ring) {
      AtRest(x);
      StaysAtRest(x, n);
      assert x.log + [] == x.log;
    } else {
      FlowingTurn(x);
      hide Flowing, Effort, Unread;
      AllDispatched(Turn(x, []), n - 1);
    }
  }

  lemma {:induction false} StaysAtRest(x: Rx, n: nat)
    requires Fits(x) && Turn(x, []) == x
    ensures Idle(x, n) == x
    decreases n
  {
    hide Turn;
    if n == 0 {
    } else {
      StaysAtRest(x, n - 1);
    }
  }

  /** What an overflow loses: the byte that finds the ring full drops the '~' and nothing else, and if
      what stood behind it is recognised, dispatch resumes with the very next byte. */
  lemma OverflowDropsRestart(x: Rx, n: nat)
    requires StartsRestart(x.recv.ring) && |x.recv.ring| == CAPACITY && !x.recv.clearBuffer
    requires x.packets != [] && x.packets[0] != []
    requires Waiting(Parse(x.recv.ring[1..] + Unread(x.packets)).rest) && n >= Effort(x)
    ensures Fits(x)
    ensures var p := Parse(x.recv.ring[1..] + Unread(x.packets));
            Idle(x, n).log == x.log + p.events && Idle(x, n).recv.ring == p.rest
  {
    var y := x.(recv := x.recv.(ring := x.recv.ring[1..], reading := true));
    assert Flowing(y) && Effort(y) < Effort(x);
    assert x.packets + [] == x.packets;
    assert ReadTurn(y) == ReadTurn(x);
    assert Turn(y, []) == Turn(x, []);
    hide Turn, Parse, Flowing, Consumable, Effort, ReadTurn;
    AllDispatched(y, n);
  }
}

module MessageHandling {
  import opened Common
  import opened Deque
  import opened Ring_Buffer
  import opened WireFormat
  import opened SerialIO
  import opened Commands
  import opened ReceiveLoop

  const BAD_INPUT: byte := '?' as int

  class MessageTask {
    const serial: Serial
    var restart: bool              // mf_restart.active
    ghost var log: seq<Event>

    ghost predicate Valid()
      reads this, serial, serial.receiveBuffer, serial.receiveBuffer.buffer, serial.sendBuffer, serial.sendBuffer.buffer
    {
      serial.Valid()
    }

    constructor (serial: Serial)
      requires serial.Valid()
      ensures this.serial == serial && Valid() && !restart && log == []
    {
      this.serial, restart, log := serial, false, [];
    }

    /** Message_Handling_Task: a whole command is removed and handed on, an unrecognised one flushes
        the input and is answered with '?'. `reply` is what the handler of a dispatched command sends,
        whatever that is. */
    method Run(reply: seq<byte>)
      requires Valid()
      modifies this, serial`clearBuffer, serial.receiveBuffer, serial.sendBuffer, serial.sendBuffer.buffer
      ensures Valid()
      ensures var h := HandleMessages(old(serial.receiveBuffer.contents));
              serial.receiveBuffer.contents == h.ring && log == old(log) + h.events &&
              serial.clearBuffer == (old(serial.clearBuffer) || h.flush) &&
              restart == (old(restart) || h.events == [RestartSet]) &&
              serial.sendBuffer.contents ==
              PushAll(CAPACITY, old(serial.sendBuffer.contents),
                      if h.flush then Frame(Codes("cc"), old(serial.receiveBuffer.contents)[0], [BAD_INPUT])
                      else if h.events != [] && h.events[0].Dispatch? then reply
                      else [])
      ensures serial.reading == old(serial.reading)
    {
      hide Live, IsRingSize, PushAll, MessageLen, PayloadLen, Frame;
      ghost var ring := serial.receiveBuffer.contents;
      PushAllNone(CAPACITY, serial.sendBuffer.contents);
      var length := serial.MsgLength();
      if length == 0 {
        return;
      }
      var command := serial.MsgPeek();
      if MessageLen(command) == 0 {
        serial.FlushInputBuffer();
        serial.SendMsg(Codes("cc"), command, [BAD_INPUT]);
        log := log + [Unrecognised(command)];
      } else if length >= MessageLen(command) {
        if command == RESTART {
          restart := true;
          log := log + [RestartSet];
        } else {
          HandlersConsumeMessage(command);
          var first := serial.MsgGet();
          var ok, payload := serial.MsgReadInto(PayloadLen(command));
          assert ok;
          ConsumedParts(ring, PayloadLen(command));
          log := log + [Dispatch(command, payload)];
          serial.SendData(reply);
        }
      }
    }

    /** The receiving part of a turn of the main loop: usb_read_next_byte, then the task. */
    method Turn(out: OutEndpoint, reply: seq<byte>, ghost before: Rx)
      requires Valid() && before.recv == serial.Rx() && before.packets == out.packets && before.log == log
      modifies this, out, serial`clearBuffer, serial`reading, serial.receiveBuffer, serial.receiveBuffer.buffer
      modifies serial.sendBuffer, serial.sendBuffer.buffer
      ensures Valid()
      ensures var after := ReceiveLoop.Turn(before, []);
              serial.Rx() == after.recv && out.packets == after.packets && log == after.log
    {
      hide Live, IsRingSize, PushAll, MessageLen, Frame, ReadByte;
      assert before.packets + [] == before.packets;
      serial.ReadNextByte(out);
      Run(reply);
    }
  }

  lemma ConsumedParts(ring: seq<byte>, n: nat)
    requires n + 1 <= |ring|
    ensures ring[1..][..n] == ring[1..n + 1] && ring[1..][n..] == ring[n + 1..]
  {
  }
}
