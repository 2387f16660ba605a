/** Driver/Encoder.c: the XOR-decoded quadrature counters of the two wheels. */
module Quadrature {
  import opened Bits

  /** What the interrupt remembers of one encoder, and its int32_t counter. */
  datatype Channel = Channel(lastA: bool, lastB: bool, lastXor: bool, counts: int)

  function BoolToInt(b: bool): int { if b then 1 else 0 }

  /** bit_is_set: the masked bit of the register, so not 1 but the mask itself. */
  function BitIsSet(pin: bool, mask: bv8): bv8 { if pin then mask else 0 }

  /** Left_A and Right_A: the exclusive or of two masked bits, converted to bool. */
  function ChannelA(xorPin: bool, xorMask: bv8, bPin: bool, bMask: bv8): bool {
    BitIsSet(xorPin, xorMask) ^ BitIsSet(bPin, bMask) != 0
  }

  /** The two masks differ, so that is the inclusive or of the two pins. */
  lemma ChannelAIsOr(xorPin: bool, xorMask: bv8, bPin: bool, bMask: bv8)
    requires xorMask != 0 && bMask != 0 && xorMask != bMask
    ensures ChannelA(xorPin, xorMask, bPin, bMask) == (xorPin || bPin)
  {
  }

  /** One interrupt: nothing unless the XOR pin changed. */
  function Interrupt(c: Channel, xorPin: bool, bPin: bool): Channel {
    if c.lastXor == xorPin then c
    else
      var a := xorPin || bPin;
      Channel(a, bPin, xorPin,
              Int32(c.counts + BoolToInt(c.lastB != a) - BoolToInt(c.lastA != bPin)))
  }

  function Zeroed(c: Channel): Channel { c.(counts := 0) }

  // ----- The wheel: an integer position whose Gray code drives the pins -----

  function A(position: int): bool { position % 4 == 1 || position % 4 == 2 }

  function B(position: int): bool { position % 4 == 2 || position % 4 == 3 }

  function Xor(position: int): bool { A(position) != B(position) }

  /** What the interrupt takes for channel A: wrong in phase 3, where both pins are set. */
  function ReadA(position: int): bool { Xor(position) || B(position) }

  /** Encoders_Init at a position of the wheel: here channel A is the exclusive or of two bools. */
  function InitAt(position: int): Channel {
    Channel(B(position) != Xor(position), B(position), Xor(position), 0)
  }

  /** The channel after the interrupt ran at each of the positions walk[0..n] in turn. */
  function Track(c: Channel, walk: seq<int>, n: nat): Channel
    requires n <= |walk|
  {
    if n == 0 then c else Interrupt(Track(c, walk, n - 1), Xor(walk[n - 1]), B(walk[n - 1]))
  }

  /** The position at the last interrupt that was not ignored. */
  function LastRecorded(start: int, walk: seq<int>, n: nat): int
    requires n <= |walk|
  {
    if n == 0 then start
    else
      var last := LastRecorded(start, walk, n - 1);
      if (walk[n - 1] - last) % 2 == 0 then last else walk[n - 1]
  }

  /** The channel holds a sample that the interrupt took at this position. */
  ghost predicate Remembers(c: Channel, position: int) {
    c.lastA == ReadA(position) && c.lastB == B(position) && c.lastXor == Xor(position)
  }

  lemma Int32Idempotent(x: int, d: int)
    ensures Int32(Int32(x) + d) == Int32(x + d)
  {
    var q := (x + 0x8000_0000) / 0x1_0000_0000;
    var r := Int32(x) + d + 0x8000_0000;
    assert x + d + 0x8000_0000 == r + q * 0x1_0000_0000;
    QuotientUnique(q + r / 0x1_0000_0000, r % 0x1_0000_0000, 0x1_0000_0000);
  }

  lemma PhaseDifference(from: int, to: int)
    ensures (to - from) % 4 == (to % 4 - from % 4) % 4
    ensures (to - from) % 2 == (to % 4 - from % 4) % 2
  {
    var d, k := to % 4 - from % 4, to / 4 - from / 4;
    assert to - from == d + 4 * k;
    ModShift(d, k, 4);
    ModShift(d, 2 * k, 2);
  }

  // ----- What the decoder counts -----

  /** Of each cycle of four positions only the first two steps are counted. */
  function Half(position: int): int {
    2 * (position / 4) + if position % 4 < 2 then position % 4 else 2
  }

  lemma HalfStep(p: int)
    ensures Half(p + 1) - Half(p) == if p % 4 < 2 then 1 else 0
    ensures Half(p) - Half(p - 1) == if p % 4 == 1 || p % 4 == 2 then 1 else 0
  {
    var q, r := p / 4, p % 4;
    assert p == 4 * q + r;
    assert r == 3 ==> (p + 1) / 4 == q + 1 && (p + 1) % 4 == 0;
    assert r < 3 ==> (p + 1) / 4 == q && (p + 1) % 4 == r + 1;
    assert r == 0 ==> (p - 1) / 4 == q - 1 && (p - 1) % 4 == 3;
    assert r > 0 ==> (p - 1) / 4 == q && (p - 1) % 4 == r - 1;
  }

  /** The Gray neighbour of `from` with the phase of `to`. */
  function Nearest(from: int, to: int): int { if (to - from) % 4 == 1 then from + 1 else from - 1 }

  /** How one interrupt moves the counter: an even move is ignored, an odd one counts what the step to
      the nearest Gray neighbour with that phase counts. */
  lemma InterruptCounts(c: Channel, from: int, to: int)
    requires Remembers(c, from)
    ensures (to - from) % 2 == 0 ==> Interrupt(c, Xor(to), B(to)) == c
    ensures (to - from) % 2 == 1 ==>
              Remembers(Interrupt(c, Xor(to), B(to)), to) &&
              Interrupt(c, Xor(to), B(to)).counts == Int32(c.counts + (Half(Nearest(from, to)) - Half(from)))
  {
    HalfStep(from);
    hide Int32, Half;
    PhaseDifference(from, to);
    var f, t := from % 4, to % 4;
    assert f == 0 || f == 1 || f == 2 || f == 3;
    assert t == 0 || t == 1 || t == 2 || t == 3;
  }

  /** Where the wheel was before the i-th interrupt of a walk. */
  function Before(start: int, walk: seq<int>, i: nat): int
    requires i <= |walk|
  {
    if i == 0 then start else walk[i - 1]
  }

  /** Every interrupt sees the wheel at most one Gray step away from the previous one. */
  ghost predicate SingleSteps(start: int, walk: seq<int>) {
    forall i :: 0 <= i < |walk| ==> -1 <= walk[i] - Before(start, walk, i) <= 1
  }

  lemma StepCounts(c: Channel, from: int, to: int)
    requires Remembers(c, from) && -1 <= to - from <= 1
    ensures var c' := Interrupt(c, Xor(to), B(to));
            Remembers(c', to) && (to == from ==> c' == c) &&
            (to != from ==> c'.counts == Int32(c.counts + (Half(to) - Half(from))))
  {
    hide Half, Int32;
    InterruptCounts(c, from, to);
    hide Interrupt, Remembers;
    assert to - from == -1 ==> (to - from) % 4 == 3;
  }

  /** Without missed edges the int32_t counter is the difference of the half counts since it was
      zeroed: every cycle of four steps counts two. */
  lemma {:induction false} CountIsHalf(c: Channel, start: int, walk: seq<int>, n: nat)
    requires Remembers(c, start) && SingleSteps(start, walk) && n <= |walk|
    ensures var position := Before(start, walk, n);
            Remembers(Track(Zeroed(c), walk, n), position) &&
            Track(Zeroed(c), walk, n).counts == Int32(Half(position) - Half(start))
  {
    hide Half, Int32, Interrupt, Xor, B, Remembers;
    if n == 0 {
      SmallInt32(0);
      ZeroedRemembers(c, start);
    } else {
      CountIsHalf(c, start, walk, n - 1);
      var from, to := Before(start, walk, n - 1), walk[n - 1];
      StepCounts(Track(Zeroed(c), walk, n - 1), from, to);
      Int32Idempotent(Half(from) - Half(start), Half(to) - Half(from));
    }
  }

  lemma ZeroedRemembers(c: Channel, position: int)
    requires Remembers(c, position)
    ensures Remembers(Zeroed(c), position)
  {
  }

  lemma SmallInt32(x: int)
    requires -0x8000_0000 <= x < 0x8000_0000
    ensures Int32(x) == x
  {
  }

  lemma InterruptShift(c: Channel, z: int, xorPin: bool, bPin: bool)
    ensures Interrupt(c.(counts := Int32(c.counts - z)), xorPin, bPin) ==
            var c' := Interrupt(c, xorPin, bPin);
            c'.(counts := Int32(c'.counts - z))
  {
    var d := BoolToInt(c.lastB != (xorPin || bPin)) - BoolToInt(c.lastA != bPin);
    Int32Idempotent(c.counts - z, d);
    Int32Idempotent(c.counts + d, -z);
    hide Int32, BoolToInt;
  }

  /** Zeroing does not change what is counted from then on: the count since a zeroing is the count
      without it less the one at the zeroing. */
  lemma {:induction false} ZeroingShifts(c: Channel, walk: seq<int>, n: nat)
    requires n <= |walk|
    ensures Track(Zeroed(c), walk, n) ==
            var t := Track(c, walk, n);
            t.(counts := Int32(t.counts - c.counts))
  {
    hide Int32, Interrupt, Xor, B;
    if n == 0 {
      SmallInt32(0);
    } else {
      ZeroingShifts(c, walk, n - 1);
      InterruptShift(Track(c, walk, n - 1), c.counts, Xor(walk[n - 1]), B(walk[n - 1]));
    }
  }

  // ----- Count and displacement -----

  /** The steps a position is behind its half count: those into and out of phase 3. */
  lemma HalfIsBehind(p: int)
    ensures p - Half(p) == 2 * (p / 4) + if p % 4 == 3 then 1 else 0
  {
  }

  /** No step is lost between two positions. */
  predicate InOneStretch(a: int, b: int) { a == b || (a / 4 == b / 4 && a % 4 != 3 && b % 4 != 3) }

  lemma SameDistance(a: int, b: int)
    ensures Half(b) - Half(a) == b - a <==> InOneStretch(a, b)
  {
    HalfIsBehind(a);
    HalfIsBehind(b);
    hide Half;
  }

  lemma HalfIsCloser(a: int, b: int)
    ensures a <= b ==> 0 <= Half(b) - Half(a) <= b - a
    ensures b <= a ==> b - a <= Half(b) - Half(a) <= 0
  {
    var p, r, q, t := a / 4, a % 4, b / 4, b % 4;
    assert a == 4 * p + r && b == 4 * q + t;
    assert Half(a) == 2 * p + (if r < 2 then r else 2) && Half(b) == 2 * q + (if t < 2 then t else 2);
    hide Half;
  }

  /** Exactly when the counter is the displacement since it was zeroed: as long as no step into or out
      of phase 3, where both pins are set, lies between the two positions. */
  lemma CountIsDisplacement(c: Channel, start: int, walk: seq<int>, n: nat)
    requires Remembers(c, start) && SingleSteps(start, walk) && n <= |walk|
    requires -0x8000_0000 <= Before(start, walk, n) - start < 0x8000_0000
    ensures Track(Zeroed(c), walk, n).counts == Before(start, walk, n) - start <==> InOneStretch(start, Before(start, walk, n))
  {
    hide Track, Half, InOneStretch, Remembers;
    var position := Before(start, walk, n);
    CountIsHalf(c, start, walk, n);
    HalfIsCloser(start, position);
    SmallInt32(Half(position) - Half(start));
    SameDistance(start, position);
  }

  lemma FourStepsFrom(walk: seq<int>)
    requires |walk| == 4 && walk[2] == 3 && walk[3] == 4 && SingleSteps(0, walk)
    ensures Track(InitAt(0), walk, 4).counts == 2 && Track(InitAt(0), walk, 3).counts == 2
  {
    hide Track, Int32, SingleSteps;
    assert Remembers(InitAt(0), 0) && Zeroed(InitAt(0)) == InitAt(0);
    CountIsHalf(InitAt(0), 0, walk, 4);
    CountIsHalf(InitAt(0), 0, walk, 3);
    SmallInt32(2);
  }

  /** So "the count is the displacement" is false of the code: four single steps count two, and so do
      the first three, which is not even the displacement modulo 4. */
  lemma FourStepsCountTwo()
    ensures SingleSteps(0, [1, 2, 3, 4])
    ensures Track(InitAt(0), [1, 2, 3, 4], 4).counts == 2 && Track(InitAt(0), [1, 2, 3, 4], 3).counts == 2
  {
    hide Track, InitAt;
    FourStepsFrom([1, 2, 3, 4]);
  }

  /** The counter follows one interrupt exactly when the wheel did not move, or moved by one step
      neither from nor to phase 3. */
  lemma StepIsExact(c: Channel, from: int, to: int)
    requires Remembers(c, from) && -0x8000_0000 < c.counts < 0x7fff_ffff
    ensures Interrupt(c, Xor(to), B(to)).counts == c.counts + (to - from) <==>
              to == from || (-1 <= to - from <= 1 && from % 4 != 3 && to % 4 != 3)
  {
    InterruptCounts(c, from, to);
    HalfStep(from);
    SmallInt32(c.counts + 1);
    SmallInt32(c.counts - 1);
    SmallInt32(c.counts);
    hide Interrupt, Half, Int32, Remembers, Xor, B;
    var d := to - from;
    assert d == 1 ==> d % 4 == 1;
    assert d == -1 ==> d % 4 == 3;
  }

  lemma HalfCycles(a: int, k: int)
    ensures Half(a + 4 * k) == Half(a) + 2 * k
  {
    var p, r := a / 4, a % 4;
    assert a + 4 * k == (p + k) * 4 + r;
    QuotientUnique(p + k, r, 4);
  }

  lemma OddDistance(d: int) returns (k: int)
    requires d % 2 == 1
    ensures d == 4 * k + if d % 4 == 1 then 1 else -1
  {
    var q, r := d / 4, d % 4;
    assert d == 4 * q + r;
    ModShift(r, 2 * q, 2);
    assert r % 2 == 1;
    k := if r == 1 then q else q + 1;
  }

  lemma NearestCycles(from: int, to: int)
    requires (to - from) % 2 == 1
    ensures (Half(to) - Half(Nearest(from, to))) % 2 == 0
  {
    var near := Nearest(from, to);
    var k := OddDistance(to - from);
    assert to == near + 4 * k;
    HalfCycles(near, k);
    hide Half, Nearest;
    ModShift(0, k, 2);
  }

  lemma Int32Even(x: int)
    ensures (Int32(x) - x) % 2 == 0
  {
    var q := (x + 0x8000_0000) / 0x1_0000_0000;
    var y := -q * 0x8000_0000;
    assert Int32(x) - x == 0 + y * 2;
    hide Int32;
    ModShift(0, y, 2);
  }

  lemma EvenStep(count: int, count': int, x: int, y: int, z: int, start: int)
    requires (count - (x - start)) % 2 == 0 && (count' - (count + (y - x))) % 2 == 0 && (z - y) % 2 == 0
    ensures (count' - (z - start)) % 2 == 0
  {
  }

  /** Whatever edges were missed, the counter has the parity of the half counts at the last recorded
      sample. */
  lemma {:induction false} CountParity(c: Channel, start: int, walk: seq<int>, n: nat)
    requires Remembers(c, start) && n <= |walk|
    ensures var last := LastRecorded(start, walk, n);
            Remembers(Track(Zeroed(c), walk, n), last) &&
            (Track(Zeroed(c), walk, n).counts - (Half(last) - Half(start))) % 2 == 0
  {
    hide Half, Int32, Interrupt, Remembers, Xor, B, Nearest;
    if n == 0 {
      ZeroedRemembers(c, start);
    } else {
      CountParity(c, start, walk, n - 1);
      var t, last, to := Track(Zeroed(c), walk, n - 1), LastRecorded(start, walk, n - 1), walk[n - 1];
      InterruptCounts(t, last, to);
      if (to - last) % 2 == 1 {
        var near := Nearest(last, to);
        NearestCycles(last, to);
        Int32Even(t.counts + (Half(near) - Half(last)));
        EvenStep(t.counts, Int32(t.counts + (Half(near) - Half(last))), Half(last), Half(near), Half(to), Half(start));
      }
    }
  }

  // ----- From the initialisation -----

  /** The sample of Encoders_Init is one the interrupt would take, except in phase 3. */
  lemma InitIsSample(position: int)
    ensures Remembers(InitAt(position), position) <==> position % 4 != 3
  {
  }

  /** The first step of a walk that starts to move. */
  function FirstMove(start: int, walk: seq<int>, n: nat): int
    requires n <= |walk|
  {
    if n == 0 then 0
    else if FirstMove(start, walk, n - 1) != 0 then FirstMove(start, walk, n - 1)
    else walk[n - 1] - start
  }

  lemma FirstStep(start: int, to: int)
    requires start % 4 == 3 && -1 <= to - start <= 1 && to != start
    ensures var c := Interrupt(InitAt(start), Xor(to), B(to));
            Remembers(c, to) && c.counts == to - start && Half(to) == Half(start)
  {
    HalfStep(start);
    assert to == start + 1 ==> to % 4 == 0;
    assert to == start - 1 ==> to % 4 == 2;
  }

  /** Since power-up in phase 3, the first step is counted, and from then on half of the steps. */
  lemma {:induction false} CountFromInit(start: int, walk: seq<int>, n: nat)
    requires start % 4 == 3 && SingleSteps(start, walk) && n <= |walk|
    ensures var t, position, first := Track(InitAt(start), walk, n), Before(start, walk, n), FirstMove(start, walk, n);
            if first == 0 then position == start && t == InitAt(start)
            else Remembers(t, position) && t.counts == Int32(Half(position) - Half(start) + first)
  {
    hide Half, Int32, Remembers, Xor, B, InitAt;
    if n == 0 {
    } else {
      CountFromInit(start, walk, n - 1);
      var t, from, to := Track(InitAt(start), walk, n - 1), Before(start, walk, n - 1), walk[n - 1];
      var first := FirstMove(start, walk, n - 1);
      if first != 0 {
        hide Interrupt;
        StepCounts(t, from, to);
        Int32Idempotent(Half(from) - Half(start) + first, Half(to) - Half(from));
      } else if to != start {
        hide Interrupt;
        FirstStep(start, to);
        SmallInt32(to - start);
      } else {
        InitUnmoved(start);
      }
    }
  }

  lemma InitUnmoved(position: int)
    ensures Interrupt(InitAt(position), Xor(position), B(position)) == InitAt(position)
  {
  }
}

module Encoder {
  import opened Bits
  import opened Quadrature

  class Encoders {
    var lastLeftA: bool
    var lastLeftB: bool
    var lastLeftXor: bool
    var leftCounts: int
    var lastRightA: bool
    var lastRightB: bool
    var lastRightXor: bool
    var rightCounts: int

    ghost function Left(): Channel
      reads this
    {
      Channel(lastLeftA, lastLeftB, lastLeftXor, leftCounts)
    }

    ghost function Right(): Channel
      reads this
    {
      Channel(lastRightA, lastRightB, lastRightXor, rightCounts)
    }

    /** Encoders_Init: the pins are sampled, the counters start at zero. */
    constructor (leftXor: bool, leftB: bool, rightXor: bool, rightB: bool)
      ensures Left() == Channel(leftXor != leftB, leftB, leftXor, 0)
      ensures Right() == Channel(rightXor != rightB, rightB, rightXor, 0)
    {
      lastLeftB, lastLeftXor := leftB, leftXor;
      lastLeftA := leftB != leftXor;
      lastRightB, lastRightXor := rightB, rightXor;
      lastRightA := rightB != rightXor;
      leftCounts, rightCounts := 0, 0;
    }

    /** ISR(PCINT0_vect) */
    method LeftInterrupt(leftXor: bool, leftB: bool)
      modifies this
      ensures Left() == Interrupt(old(Left()), leftXor, leftB) && Right() == old(Right())
    {
      if lastLeftXor != leftXor {
        ChannelAIsOr(leftXor, 0x10, leftB, 0x04);
        var leftA := ChannelA(leftXor, 0x10, leftB, 0x04);
        leftCounts := Int32(leftCounts + BoolToInt(lastLeftB != leftA) - BoolToInt(lastLeftA != leftB));
        lastLeftA, lastLeftB, lastLeftXor := leftA, leftB, leftXor;
      }
    }

    /** ISR(INT6_vect) */
    method RightInterrupt(rightXor: bool, rightB: bool)
      modifies this
      ensures Right() == Interrupt(old(Right()), rightXor, rightB) && Left() == old(Left())
    {
      if lastRightXor != rightXor {
        ChannelAIsOr(rightXor, 0x40, rightB, 0x01);
        var rightA := ChannelA(rightXor, 0x40, rightB, 0x01);
        rightCounts := Int32(rightCounts + BoolToInt(lastRightB != rightA) - BoolToInt(lastRightA != rightB));
        lastRightA, lastRightB, lastRightXor := rightA, rightB, rightXor;
      }
    }

    /** Zero_Encoders */
    method Zero()
      modifies this
      ensures Left() == Zeroed(old(Left())) && Right() == Zeroed(old(Right()))
    {
      rightCounts := 0;
      leftCounts := 0;
    }
  }
}
