/** The transmit ring, the wire and the host reader as one system: framing end to end. */
module Link {
  import opened Common
  import opened Deque
  import opened WireFormat
  import opened HostSpec
  import opened SerialIO

  /** `ring` is the firmware's send ring, `wire` the bytes waiting at the host. */
  datatype Link = Link(ring: seq<byte>, wire: seq<byte>, host: Host)

  datatype Action = Send(m: seq<Field>) | Drain(inReady: bool) | HostTurn

  const START: Link := Link([], [], IDLE)

  function Step(l: Link, a: Action): (l': Link)
    requires |l.ring| <= CAPACITY
    ensures |l'.ring| <= CAPACITY
  {
    match a
    case Send(m) => l.(ring := PushAll(CAPACITY, l.ring, Encode(m)))
    case Drain(inReady) =>
      if inReady && l.ring != [] then l.(ring := l.ring[1..], wire := l.wire + [l.ring[0]]) else l
    case HostTurn =>
      var (host, wire) := HostStep(l.host, l.wire); l.(host := host, wire := wire)
  }

  function Run(l: Link, actions: seq<Action>): (l': Link)
    requires |l.ring| <= CAPACITY
    ensures |l'.ring| <= CAPACITY
    decreases |actions|
  {
    if actions == [] then l
    else Step(Run(l, actions[..|actions| - 1]), actions[|actions| - 1])
  }

  function Sent(actions: seq<Action>): seq<seq<Field>>
    decreases |actions|
  {
    if actions == [] then []
    else
      var last := actions[|actions| - 1];
      Sent(actions[..|actions| - 1]) + if last.Send? then [last.m] else []
  }

  /** Messages the firmware can form, whose characters the host can decode. */
  ghost predicate Proper(m: seq<Field>) { IsMessage(m) && Ascii(m) }

  /** Every message is proper and finds room in the ring when it is sent. */
  ghost predicate Roomy(actions: seq<Action>)
    decreases |actions|
  {
    actions != [] ==>
      var before, last := actions[..|actions| - 1], actions[|actions| - 1];
      Roomy(before) &&
      (last.Send? ==> Proper(last.m) && |Run(START, before).ring| + |Encode(last.m)| <= CAPACITY)
  }

  function EncodeAll(ms: seq<seq<Field>>): seq<byte>
    decreases |ms|
  {
    if ms == [] then [] else Encode(ms[0]) + EncodeAll(ms[1..])
  }

  lemma {:induction false} EncodeAllAppend(ms: seq<seq<Field>>, m: seq<Field>)
    ensures EncodeAll(ms + [m]) == EncodeAll(ms) + Encode(m)
    decreases |ms|
  {
    hide Encode;
    if ms == [] {
      assert ms + [m] == [m] && [m][1..] == [];
      assert EncodeAll([m]) == Encode(m) + EncodeAll([]);
    } else {
      EncodeAllAppend(ms[1..], m);
      assert (ms + [m])[0] == ms[0] && (ms + [m])[1..] == ms[1..] + [m];
    }
  }

  // ----- The invariant -----

  /** Between frames: everything still travelling is whole frames. */
  ghost predicate Between(h: Host, stream: seq<byte>, rest: seq<seq<Field>>) {
    h.numBytes == -1 && h.format == [] && stream == EncodeAll(rest)
  }

  /** The tail of a frame whose length byte and first j format characters were read. */
  function Remaining(m: seq<Field>, j: nat): seq<byte>
    requires j <= |m|
  {
    FormatOf(m)[j..] + ([0] + Pack(m))
  }

  /** Inside the frame of rest[0]. */
  ghost predicate Inside(h: Host, stream: seq<byte>, rest: seq<seq<Field>>) {
    && rest != [] && |h.format| <= |rest[0]|
    && h.format == FormatOf(rest[0])[..|h.format|]
    && h.numBytes == |Remaining(rest[0], |h.format|)|
    && stream == Remaining(rest[0], |h.format|) + EncodeAll(rest[1..])
  }

  ghost predicate Good(m: seq<Field>) { Proper(m) && |Encode(m)| <= CAPACITY }

  ghost predicate AllGood(ms: seq<seq<Field>>) { forall i :: 0 <= i < |ms| ==> Good(ms[i]) }

  ghost predicate Position(h: Host, stream: seq<byte>, rest: seq<seq<Field>>) {
    h.isRun && AllGood(rest) && (Between(h, stream, rest) || Inside(h, stream, rest))
  }

  ghost predicate Inv(l: Link, sent: seq<seq<Field>>) {
    && AllGood(sent) && l.host.delivered <= sent
    && Position(l.host, l.wire + l.ring, sent[|l.host.delivered|..])
  }

  lemma SplitHead<T>(w: seq<T>, r: seq<T>, x: T, t: seq<T>)
    requires w != [] && w + r == [x] + t
    ensures w == [x] + w[1..] && w[1..] + r == t
  {
    assert w[0] == (w + r)[0];
    assert (w + r)[1..] == w[1..] + r;
    assert ([x] + t)[1..] == t;
  }

  lemma SplitPrefix<T>(w: seq<T>, r: seq<T>, p: seq<T>, t: seq<T>)
    requires |p| <= |w| && w + r == p + t
    ensures w == p + w[|p|..] && w[|p|..] + r == t
  {
    assert (w + r)[..|p|] == w[..|p|] && (p + t)[..|p|] == p;
    assert (w + r)[|p|..] == w[|p|..] + r && (p + t)[|p|..] == t;
  }

  lemma PositionSend(h: Host, stream: seq<byte>, rest: seq<seq<Field>>, m: seq<Field>)
    requires Position(h, stream, rest) && Good(m)
    ensures Position(h, stream + Encode(m), rest + [m])
  {
    hide Encode, Good, Remaining;
    if Between(h, stream, rest) {
      EncodeAllAppend(rest, m);
    } else {
      EncodeAllAppend(rest[1..], m);
      assert (rest + [m])[1..] == rest[1..] + [m];
      var p := Remaining(rest[0], |h.format|);
      assert (p + EncodeAll(rest[1..])) + Encode(m) == p + (EncodeAll(rest[1..]) + Encode(m));
    }
  }

  lemma SendKeepsInv(l: Link, sent: seq<seq<Field>>, m: seq<Field>)
    requires |l.ring| <= CAPACITY && Inv(l, sent) && Good(m) && |l.ring| + |Encode(m)| <= CAPACITY
    ensures Inv(Step(l, Send(m)), sent + [m])
  {
    var k := |l.host.delivered|;
    PushAllKeepsLast(CAPACITY, l.ring, Encode(m));
    assert (sent + [m])[k..] == sent[k..] + [m];
    assert l.wire + (l.ring + Encode(m)) == (l.wire + l.ring) + Encode(m);
    hide Encode, Good, Position, PushAll;
    PositionSend(l.host, l.wire + l.ring, sent[k..], m);
  }

  lemma DrainKeepsInv(l: Link, sent: seq<seq<Field>>, inReady: bool)
    requires |l.ring| <= CAPACITY && Inv(l, sent)
    ensures Inv(Step(l, Drain(inReady)), sent)
    ensures var l' := Step(l, Drain(inReady)); l'.wire + l'.ring == l.wire + l.ring
  {
    hide Position, AllGood;
    var l' := Step(l, Drain(inReady));
    assert l'.wire + l'.ring == l.wire + l.ring;
  }

  lemma PackIsNotEmpty(m: seq<Field>)
    requires Good(m)
    ensures m != [] && |Pack(m)| >= 1
  {
    PackFront(m);
  }

  lemma Associate<T>(a: seq<T>, b: seq<T>, c: seq<T>, d: seq<T>)
    ensures a + b + c + d == a + (b + (c + d))
  {
  }

  lemma EncodeParts(m: seq<Field>)
    requires Good(m)
    ensures Encode(m) == [|Remaining(m, 0)|] + Remaining(m, 0)
    ensures 3 <= |Remaining(m, 0)| < CAPACITY
  {
    PackIsNotEmpty(m);
    hide Pack, FormatOf, IsMessage, Ascii;
    var f, p := FormatOf(m), Pack(m);
    assert f[0..] == f;
    Associate([1 + |m| + |p|], f, [0], p);
  }

  /** Reading the length byte enters the frame. */
  lemma LengthTurn(h: Host, wire: seq<byte>, ring: seq<byte>, rest: seq<seq<Field>>)
    requires h.isRun && AllGood(rest) && Between(h, wire + ring, rest) && wire != []
    ensures var (h', wire') := HostStep(h, wire);
            wire' == wire[1..] && h'.delivered == h.delivered && Position(h', wire' + ring, rest)
  {
    assert wire + ring != [];
    assert rest != [];
    var m := rest[0];
    assert Good(m);
    EncodeParts(m);
    hide Encode, Good, Remaining;
    var p, t := Remaining(m, 0), EncodeAll(rest[1..]);
    assert ([|p|] + p) + t == [|p|] + (p + t);
    SplitHead(wire, ring, |p|, p + t);
    var h' := h.(numBytes := |p|);
    assert HostStep(h, wire) == (h', wire[1..]);
    assert h'.format == FormatOf(m)[..0];
    assert Inside(h', wire[1..] + ring, rest);
  }

  lemma RemainingStep(m: seq<Field>, j: nat)
    requires j < |m|
    ensures Remaining(m, j) == [FormatOf(m)[j]] + Remaining(m, j + 1)
  {
    hide Pack;
    assert FormatOf(m)[j..] == [FormatOf(m)[j]] + FormatOf(m)[j + 1..];
  }

  lemma RemainingEnd(m: seq<Field>)
    ensures Remaining(m, |m|) == [0] + Pack(m) && FormatOf(m)[..|m|] == FormatOf(m)
  {
    hide Pack;
    assert FormatOf(m)[|m|..] == [];
  }

  /** Reading one more format character. */
  lemma FormatTurn(h: Host, wire: seq<byte>, ring: seq<byte>, rest: seq<seq<Field>>)
    requires h.isRun && AllGood(rest) && Inside(h, wire + ring, rest)
    requires |h.format| < |rest[0]| && |wire| >= h.numBytes
    ensures var (h', wire') := HostStep(h, wire);
            wire' == wire[1..] && h'.delivered == h.delivered && Position(h', wire' + ring, rest)
  {
    hide Encode, Remaining, HostStep, EncodeAll, Pack;
    var m, j := rest[0], |h.format|;
    assert Good(m);
    var c := FormatOf(m)[j];
    RemainingStep(m, j);
    hide Good, FormatOf;
    var p, t := Remaining(m, j + 1), EncodeAll(rest[1..]);
    assert ([c] + p) + t == [c] + (p + t);
    SplitHead(wire, ring, c, p + t);
    FormatByteRead(h, m, j, wire[1..]);
    var h' := h.(numBytes := h.numBytes - 1, format := FormatOf(m)[..j + 1]);
    assert Inside(h', wire[1..] + ring, rest);
  }

  /** The NUL: the whole payload is waiting, and exactly this message is delivered. */
  lemma PayloadTurn(h: Host, wire: seq<byte>, ring: seq<byte>, rest: seq<seq<Field>>)
    requires h.isRun && AllGood(rest) && Inside(h, wire + ring, rest)
    requires |h.format| == |rest[0]| && |wire| >= h.numBytes
    ensures var (h', wire') := HostStep(h, wire);
            |wire'| == |wire| - h.numBytes && h'.delivered == h.delivered + [rest[0]] &&
            Position(h', wire' + ring, rest[1..])
  {
    var m := rest[0];
    assert Good(m);
    RemainingEnd(m);
    hide Encode, Remaining, HostStep, FormatOf, Pack;
    var p := [0] + Pack(m);
    SplitPrefix(wire, ring, p, EncodeAll(rest[1..]));
    PayloadRead(h, m, wire[|p|..]);
    assert Between(h.Reset(), wire[|p|..] + ring, rest[1..]);
  }

  lemma DeliverOne(sent: seq<seq<Field>>, delivered: seq<seq<Field>>)
    requires delivered <= sent && |delivered| < |sent|
    ensures delivered + [sent[|delivered|]] <= sent
    ensures sent[|delivered|..][0] == sent[|delivered|]
    ensures sent[|delivered|..][1..] == sent[|delivered| + 1..]
  {
  }

  /** No turn of the reader leaves the invariant, and with a whole frame in sight it always reads. */
  lemma TurnKeepsInv(l: Link, sent: seq<seq<Field>>)
    requires |l.ring| <= CAPACITY && Inv(l, sent)
    ensures Inv(Step(l, HostTurn), sent)
    ensures l.ring == [] && l.wire != [] ==> |Step(l, HostTurn).wire| < |l.wire|
  {
    var h, rest := l.host, sent[|l.host.delivered|..];
    hide Encode, Good, Remaining, AllGood, EncodeAll;
    if Between(h, l.wire + l.ring, rest) {
      if l.wire != [] {
        LengthTurn(h, l.wire, l.ring, rest);
      }
    } else {
      RemainingSize(rest[0], |h.format|);
      if |l.wire| >= h.numBytes {
        if |h.format| < |rest[0]| {
          FormatTurn(h, l.wire, l.ring, rest);
        } else {
          DeliverOne(sent, h.delivered);
          PayloadTurn(h, l.wire, l.ring, rest);
        }
      }
    }
  }

  lemma RemainingSize(m: seq<Field>, j: nat)
    requires j <= |m|
    ensures |Remaining(m, j)| == |m| - j + 1 + |Pack(m)|
  {
  }

  // ----- Every run -----

  lemma {:induction false} RunKeepsInv(actions: seq<Action>)
    requires Roomy(actions)
    ensures Inv(Run(START, actions), Sent(actions))
    decreases |actions|
  {
    if actions == [] {
      assert EncodeAll([]) == [];
    } else {
      var before, last := actions[..|actions| - 1], actions[|actions| - 1];
      RunKeepsInv(before);
      var l := Run(START, before);
      assert Run(START, actions) == Step(l, last);
      assert last.Send? ==> Proper(last.m) && |l.ring| + |Encode(last.m)| <= CAPACITY;
      assert last.Send? ==> Good(last.m);
      assert Sent(actions) == Sent(before) + if last.Send? then [last.m] else [];
      assert Sent(before) + [] == Sent(before);
      hide *;
      match last
      case Send(m) => SendKeepsInv(l, Sent(before), m);
      case Drain(inReady) => DrainKeepsInv(l, Sent(before), inReady);
      case HostTurn => TurnKeepsInv(l, Sent(before));
    }
  }

  /** Safety, for any interleaving of sends, one-byte drains and reader turns: the reader never
      fails, what it delivered is a prefix of what was sent, and whenever it starts on a payload all
      bytes of the payload are waiting. */
  lemma DeliveredIsPrefix(actions: seq<Action>)
    requires Roomy(actions)
    ensures var l := Run(START, actions);
            && l.host.isRun && l.host.delivered <= Sent(actions)
            && (l.host.numBytes > 0 && |l.wire| >= l.host.numBytes && l.wire[0] == 0 ==>
                  CalcSize(l.host.format) == Some(l.host.numBytes - 1))
  {
    hide Run, Sent, Roomy, AllGood, Between, Inside, CalcSize;
    RunKeepsInv(actions);
    var l := Run(START, actions);
    if l.host.numBytes > 0 && |l.wire| >= l.host.numBytes && l.wire[0] == 0 {
      PayloadSizeMatches(l.host, l.wire, l.ring, Sent(actions)[|l.host.delivered|..]);
    }
  }

  lemma FormatCharNotNul(m: seq<Field>, j: nat, t: seq<byte>)
    requires AllSendable(m) && j < |m|
    ensures (Remaining(m, j) + t)[0] != 0
  {
    FieldRoundTrip(m[j]);
    RemainingStep(m, j);
  }

  lemma PayloadSizeMatches(h: Host, wire: seq<byte>, ring: seq<byte>, rest: seq<seq<Field>>)
    requires Position(h, wire + ring, rest) && h.numBytes > 0 && |wire| >= h.numBytes && wire[0] == 0
    ensures CalcSize(h.format) == Some(h.numBytes - 1)
  {
    hide Encode, Remaining, CalcSize, Pack, FormatOf, EncodeAll;
    assert Inside(h, wire + ring, rest);
    var m := rest[0];
    assert Good(m);
    RemainingSize(m, |h.format|);
    assert (wire + ring)[0] == 0;
    hide Position, Between, Inside;
    if |h.format| < |m| {
      FormatCharNotNul(m, |h.format|, EncodeAll(rest[1..]));
      assert false;
    }
    RemainingEnd(m);
    UnpackPack(m);
  }

  function Turns(n: nat): seq<Action> { seq(n, i => HostTurn) }

  function Drains(n: nat): seq<Action> { seq(n, i => Drain(true)) }

  lemma {:induction false} RunAppend(l: Link, xs: seq<Action>, ys: seq<Action>)
    requires |l.ring| <= CAPACITY
    ensures Run(l, xs + ys) == Run(Run(l, xs), ys)
    decreases |ys|
  {
    if ys == [] {
      assert xs + ys == xs;
    } else {
      RunAppend(l, xs, ys[..|ys| - 1]);
      assert (xs + ys)[..|xs + ys| - 1] == xs + ys[..|ys| - 1];
    }
  }

  lemma InsideTravels(h: Host, stream: seq<byte>, rest: seq<seq<Field>>)
    ensures Inside(h, stream, rest) ==> stream != []
  {
    if rest != [] && |h.format| <= |rest[0]| {
      RemainingSize(rest[0], |h.format|);
    }
  }

  lemma NothingTravelling(l: Link, sent: seq<seq<Field>>)
    requires Inv(l, sent) && l.wire == [] && l.ring == []
    ensures l.host.delivered == sent
  {
    var rest := sent[|l.host.delivered|..];
    assert l.wire + l.ring == [];
    InsideTravels(l.host, [], rest);
    assert Between(l.host, [], rest);
    assert rest == [];
  }

  predicate NoSends(actions: seq<Action>) { forall i :: 0 <= i < |actions| ==> !actions[i].Send? }

  /** Drains that find the endpoint ready, and turns of the reader. */
  function ReadyDrains(actions: seq<Action>): nat
    decreases |actions|
  {
    if actions == [] then 0
    else ReadyDrains(actions[..|actions| - 1]) + if actions[|actions| - 1] == Drain(true) then 1 else 0
  }

  function HostTurns(actions: seq<Action>): nat
    decreases |actions|
  {
    if actions == [] then 0
    else HostTurns(actions[..|actions| - 1]) + if actions[|actions| - 1].HostTurn? then 1 else 0
  }

  lemma QuietStep(l: Link, sent: seq<seq<Field>>, a: Action)
    requires |l.ring| <= CAPACITY && Inv(l, sent) && !a.Send?
    ensures var l' := Step(l, a);
            && Inv(l', sent) && |l'.wire| + |l'.ring| <= |l.wire| + |l.ring|
            && |l'.ring| == (if a == Drain(true) && l.ring != [] then |l.ring| - 1 else |l.ring|)
            && (a.HostTurn? && l.ring == [] && l.wire != [] ==> |l'.wire| < |l.wire|)
  {
    hide Inv;
    match a
    case Drain(inReady) => DrainKeepsInv(l, sent, inReady);
    case HostTurn =>
      TurnKeepsInv(l, sent);
      HostTakes(l.host, l.wire);
      hide HostStep;
  }

  lemma HostTakes(h: Host, waiting: seq<byte>)
    ensures |HostStep(h, waiting).1| <= |waiting|
  {
  }

  /** Without sends the ring empties by the ready drains; once it is empty, the wire by the turns. */
  lemma {:induction false} QuietRun(l: Link, sent: seq<seq<Field>>, more: seq<Action>)
    requires |l.ring| <= CAPACITY && Inv(l, sent) && NoSends(more)
    ensures var l' := Run(l, more);
            && Inv(l', sent) && |l'.wire| + |l'.ring| <= |l.wire| + |l.ring|
            && (l'.ring == [] || |l'.ring| + ReadyDrains(more) <= |l.ring|)
            && (l.ring == [] ==> l'.ring == [] && (l'.wire == [] || |l'.wire| + HostTurns(more) <= |l.wire|))
    decreases |more|
  {
    hide Inv, Step;
    if more == [] {
    } else {
      QuietRun(l, sent, more[..|more| - 1]);
      QuietStep(Run(l, more[..|more| - 1]), sent, more[|more| - 1]);
    }
  }

  /** In any order: everything sent was delivered exactly when nothing travels any more. */
  lemma DeliveredExactly(actions: seq<Action>)
    requires Roomy(actions)
    ensures var l := Run(START, actions); l.host.delivered == Sent(actions) <==> l.wire == [] && l.ring == []
  {
    hide Run, Sent, Roomy;
    RunKeepsInv(actions);
    var l, sent := Run(START, actions), Sent(actions);
    assert sent[|sent|..] == [] && EncodeAll([]) == [];
    if l.wire == [] && l.ring == [] {
      NothingTravelling(l, sent);
    }
  }

  /** Completeness: from every reachable state, enough ready drains and after them enough turns of the
      reader, in any order with anything but sends between them, deliver exactly the messages sent, in
      order. */
  lemma EverythingArrives(actions: seq<Action>, drains: seq<Action>, turns: seq<Action>)
    requires Roomy(actions) && NoSends(drains) && NoSends(turns)
    requires var l := Run(START, actions);
             ReadyDrains(drains) >= |l.ring| && HostTurns(turns) >= |l.wire| + |l.ring|
    ensures Run(Run(START, actions), drains + turns).host.delivered == Sent(actions)
  {
    hide Inv, Run, Roomy, Sent, ReadyDrains, HostTurns, NoSends;
    RunKeepsInv(actions);
    var l, sent := Run(START, actions), Sent(actions);
    QuietRun(l, sent, drains);
    var l1 := Run(l, drains);
    QuietRun(l1, sent, turns);
    RunAppend(l, drains, turns);
    NothingTravelling(Run(l1, turns), sent);
  }

  // ----- Sending without room -----

  /** The bytes of a message on the wire. */
  function Weight(m: seq<Field>): nat { 2 + |m| + |Pack(m)| }

  function TotalWeight(ms: seq<seq<Field>>): nat
    decreases |ms|
  {
    if ms == [] then 0 else TotalWeight(ms[..|ms| - 1]) + Weight(ms[|ms| - 1])
  }

  lemma TotalWeightSnoc(ms: seq<seq<Field>>, m: seq<Field>)
    ensures TotalWeight(ms + [m]) == TotalWeight(ms) + Weight(m)
  {
    assert (ms + [m])[..|ms|] == ms;
  }

  /** The bytes the reader has used: those of what it delivered and of the frame it is in. */
  function Used(h: Host): nat { TotalWeight(h.delivered) + |h.format| + if h.numBytes >= 0 then 1 else 0 }

  /** The reader delivers nothing that it did not read. */
  lemma HostUses(h: Host, waiting: seq<byte>)
    ensures var r := HostStep(h, waiting); Used(r.0) + |r.1| <= Used(h) + |waiting|
  {
    hide CalcSize, Unpack, IsAscii, TotalWeight, Weight;
    if h.isRun && !(waiting != [] && h.numBytes == -1) && |waiting| >= h.numBytes && h.numBytes > 0 && waiting[0] == 0 {
      DoneUses(h.(numBytes := h.numBytes - 1), waiting[1..]);
    }
  }

  lemma DoneUses(h: Host, rest: seq<byte>)
    requires 0 <= h.numBytes <= |rest|
    ensures var r := FormatDone(h, rest); Used(r.0) + |r.1| <= Used(h) + |rest| + 1
  {
    hide CalcSize, Unpack, IsAscii, TotalWeight;
    if CalcSize(h.format) == Some(h.numBytes) {
      var data := rest[..h.numBytes];
      UnpackSize(h.format, data);
      TotalWeightSnoc(h.delivered, Unpack(h.format, data));
    }
  }

  /** Everything that is still around. */
  function Around(l: Link): nat { Used(l.host) + |l.wire| + |l.ring| }

  lemma EncodeWeight(m: seq<Field>)
    ensures |Encode(m)| == Weight(m)
  {
  }

  /** A send without room loses bytes, nothing ever wins any. */
  lemma StepLoses(l: Link, a: Action)
    requires |l.ring| <= CAPACITY
    ensures var l' := Step(l, a);
            match a
            case Send(m) => Around(l') <= Around(l) + Weight(m) &&
                            (|l.ring| + |Encode(m)| > CAPACITY ==> Around(l') < Around(l) + Weight(m))
            case _ => Around(l') <= Around(l)
  {
    hide Used, Encode, HostStep, PushAll;
    match a
    case Send(m) =>
      EncodeWeight(m);
      PushAllKeepsLast(CAPACITY, l.ring, Encode(m));
    case Drain(_) =>
    case HostTurn =>
      HostUses(l.host, l.wire);
  }

  ghost predicate AllMessages(ms: seq<seq<Field>>) { forall i :: 0 <= i < |ms| ==> IsMessage(ms[i]) }

  ghost predicate AllAscii(ms: seq<seq<Field>>) { forall i :: 0 <= i < |ms| ==> Ascii(ms[i]) }

  lemma MessageParts(ms: seq<seq<Field>>, m: seq<Field>)
    ensures AllMessages(ms + [m]) <==> AllMessages(ms) && IsMessage(m)
    ensures AllAscii(ms + [m]) <==> AllAscii(ms) && Ascii(m)
  {
    hide IsMessage, Ascii;
    var x := ms + [m];
    assert forall i :: 0 <= i < |ms| ==> ms[i] == x[i];
    assert x[|ms|] == m;
  }

  lemma {:induction false} RunLoses(actions: seq<Action>)
    requires AllMessages(Sent(actions)) && AllAscii(Sent(actions))
    ensures var around, sent := Around(Run(START, actions)), TotalWeight(Sent(actions));
            around <= sent && (!Roomy(actions) ==> around < sent)
    decreases |actions|
  {
    if actions == [] {
    } else {
      var before, last := actions[..|actions| - 1], actions[|actions| - 1];
      var l := Run(START, before);
      hide Step, Around, TotalWeight, AllMessages, AllAscii, IsMessage, Ascii, Encode, Weight;
      assert Sent(before) + [] == Sent(before);
      if last.Send? {
        MessageParts(Sent(before), last.m);
        TotalWeightSnoc(Sent(before), last.m);
      }
      RunLoses(before);
      StepLoses(l, last);
    }
  }

  /** The reader delivers no character it cannot decode. */
  lemma HostDeliversAscii(h: Host, waiting: seq<byte>)
    requires AllAscii(h.delivered)
    ensures AllAscii(HostStep(h, waiting).0.delivered)
  {
    hide CalcSize, Unpack, AllAscii;
    if h.isRun && !(waiting != [] && h.numBytes == -1) && |waiting| >= h.numBytes && h.numBytes > 0 && waiting[0] == 0
       && CalcSize(h.format) == Some(h.numBytes - 1) {
      MessageParts(h.delivered, Unpack(h.format, waiting[1..][..h.numBytes - 1]));
    }
  }

  lemma {:induction false} RunDeliversAscii(actions: seq<Action>)
    ensures AllAscii(Run(START, actions).host.delivered)
    decreases |actions|
  {
    hide HostStep, AllAscii, PushAll;
    if actions == [] {
      NoneIsAscii();
    } else {
      var l := Run(START, actions[..|actions| - 1]);
      RunDeliversAscii(actions[..|actions| - 1]);
      HostDeliversAscii(l.host, l.wire);
    }
  }

  lemma NoneIsAscii()
    ensures AllAscii([])
  {
  }

  lemma {:induction false} QuietActions(actions: seq<Action>, more: seq<Action>)
    requires NoSends(more)
    ensures Sent(actions + more) == Sent(actions) && (Roomy(actions + more) <==> Roomy(actions))
    decreases |more|
  {
    if more == [] {
      assert actions + more == actions;
    } else {
      hide Proper;
      var before := more[..|more| - 1];
      QuietActions(actions, before);
      assert (actions + more)[..|actions + more| - 1] == actions + before;
      assert !more[|more| - 1].Send?;
      assert Sent(actions + before) + [] == Sent(actions + before);
    }
  }

  lemma {:induction false} CountDrains(n: nat)
    ensures ReadyDrains(Drains(n)) == n && NoSends(Drains(n))
    decreases n
  {
    if n == 0 {
    } else {
      assert Drains(n)[..n - 1] == Drains(n - 1);
      CountDrains(n - 1);
    }
  }

  lemma {:induction false} CountTurns(n: nat)
    ensures HostTurns(Turns(n)) == n && NoSends(Turns(n))
    decreases n
  {
    if n == 0 {
    } else {
      assert Turns(n)[..n - 1] == Turns(n - 1);
      CountTurns(n - 1);
    }
  }

  /** What the room and the characters are for: the messages sent can all still be delivered, by any
      actions but further sends, if and only if each of them found room in the ring when it was sent
      and has only ASCII characters. */
  lemma DeliverableExactly(actions: seq<Action>)
    requires AllMessages(Sent(actions))
    ensures (exists more :: NoSends(more) && Run(Run(START, actions), more).host.delivered == Sent(actions)) <==> Roomy(actions)
  {
    hide Run, Roomy, Sent, Inv, AllMessages, AllAscii, TotalWeight, NoSends, ReadyDrains, HostTurns;
    var l := Run(START, actions);
    if Roomy(actions) {
      var drains, turns := Drains(|l.ring|), Turns(|l.wire| + |l.ring|);
      CountDrains(|l.ring|);
      CountTurns(|l.wire| + |l.ring|);
      EverythingArrives(actions, drains, turns);
      NoSendsAppend(drains, turns);
      assert NoSends(drains + turns);
    } else {
      forall more | NoSends(more)
        ensures Run(l, more).host.delivered != Sent(actions)
      {
        QuietActions(actions, more);
        RunAppend(START, actions, more);
        RunDeliversAscii(actions + more);
        if AllAscii(Sent(actions)) {
          RunLoses(actions + more);
        }
      }
    }
  }

  lemma NoSendsAppend(x: seq<Action>, y: seq<Action>)
    requires NoSends(x) && NoSends(y)
    ensures NoSends(x + y)
  {
  }
}
