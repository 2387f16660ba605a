/** Driver/MotorPWM.c: duty cycles as timer compare values, with both truncating conversions. */
module Pwm {
  import opened Bits

  /** The duty cycle after the sign was moved to the direction pin and the value saturated;
      negating the int16_t minimum leaves it unchanged. */
  function Saturated(request: int): (pwm: int)
    requires -0x8000 <= request < 0x8000
    ensures request != -0x8000 ==> 0 <= pwm <= 100
  {
    var pwm := if request < 0 then Int16(request * -1) else request;
    if pwm > 100 then 100 else pwm
  }

  /** (int16_t)((pwm * -0.01 + 1) * TOP), stored in a 16-bit compare register. */
  function Compare(pwm: int, top: nat): (c: nat)
    ensures c < 0x10000
  {
    Int16(Truncate((pwm as real * -0.01 + 1.0) * top as real)) % 0x10000
  }

  /** The getter: -100 * (compare / TOP) + 100, converted to int16_t. */
  function DutyOf(compare: nat, top: nat): (pwm: int)
    requires top > 0
  {
    Int16(Truncate(-100.0 * (compare as real / top as real) + 100.0))
  }

  function Clamped(request: int): int {
    var magnitude := if request < 0 then -request else request;
    if magnitude > 100 then 100 else magnitude
  }

  lemma FloorUnique(x: real, n: int)
    requires n as real <= x < n as real + 1.0
    ensures x.Floor == n
  {
  }

  lemma ProductToReal(a: nat, b: nat)
    ensures (a * b) as real == a as real * b as real
  {
    if a > 0 {
      ProductToReal(a - 1, b);
      assert a * b == (a - 1) * b + b;
    }
  }

  lemma ShareBounds(pwm: int, top: nat)
    requires 0 <= pwm <= 100
    ensures 0 <= (100 - pwm) * top <= 100 * top
  {
    assert (100 - pwm) * top + pwm * top == 100 * top;
  }

  lemma FloorOfHundredth(n: nat)
    ensures (n as real / 100.0).Floor == n / 100
    ensures 100 * (n / 100) <= n < 100 * (n / 100) + 100
  {
    FloorUnique(n as real / 100.0, n / 100);
  }

  lemma StoredCompare(x: real, c: nat)
    requires 0.0 <= x && x.Floor == c < 0x10000
    ensures Int16(Truncate(x)) % 0x10000 == c
  {
  }

  lemma ShareOfTop(p: real, t: real)
    ensures (p * -0.01 + 1.0) * t == ((100.0 - p) * t) / 100.0
  {
  }

  /** The compare value is the rounded-down share (100 - pwm)% of TOP. */
  lemma CompareValue(pwm: int, top: nat)
    requires 0 <= pwm <= 100 && top < 0x10000
    ensures Compare(pwm, top) == (100 - pwm) * top / 100
    ensures 100 * Compare(pwm, top) <= (100 - pwm) * top < 100 * Compare(pwm, top) + 100
    ensures Compare(pwm, top) <= top
  {
    var n := (100 - pwm) * top;
    var x := (pwm as real * -0.01 + 1.0) * top as real;
    ShareBounds(pwm, top);
    assert x == n as real / 100.0 by {
      ShareOfTop(pwm as real, top as real);
      ProductToReal(100 - pwm, top);
      assert (100 - pwm) as real == 100.0 - pwm as real;
    }
    FloorOfHundredth(n);
    StoredCompare(x, n / 100);
  }

  lemma RealQuotient(c: real, t: real, q: real)
    requires t > 0.0 && 100.0 * c <= q * t < 100.0 * c + 100.0
    ensures q >= 100.0 * (c / t)
    ensures t >= 100.0 ==> q < 100.0 * (c / t) + 1.0
  {
    var z := c / t;
    assert z * t == c;
    var d := q - 100.0 * z;
    assert d * t == q * t - 100.0 * c;
    assert d < 0.0 ==> d * t < 0.0;
    assert d >= 1.0 && t >= 100.0 ==> d * t >= 100.0;
  }

  /** The getter value before truncation lies in [pwm, pwm + 1). */
  lemma DutyBounds(pwm: int, top: nat)
    requires 0 <= pwm <= 100 && 100 <= top < 0x10000
    ensures DutyOf(Compare(pwm, top), top) == pwm
  {
    var c := Compare(pwm, top);
    CompareValue(pwm, top);
    ProductToReal(100 - pwm, top);
    RealQuotient(c as real, top as real, (100 - pwm) as real);
    FloorUnique(-100.0 * (c as real / top as real) + 100.0, pwm);
  }

  lemma RoundTrip(request: int, top: nat)
    requires -0x8000 < request < 0x8000 && 100 <= top < 0x10000
    ensures 0 <= Compare(Saturated(request), top) <= top
    ensures DutyOf(Compare(Saturated(request), top), top) == Clamped(request)
  {
    hide Compare, DutyOf;
    CompareValue(Saturated(request), top);
    DutyBounds(Saturated(request), top);
  }

  lemma LostPercent(top: nat)
    requires 0 < top < 100
    ensures DutyOf(Compare(Saturated(99), top), top) == 100
  {
    CompareValue(99, top);
    assert top / 100 == 0;
  }

  /** Setting a duty cycle and reading it back gives min(|request|, 100) for every request (except
      the int16_t minimum) exactly when TOP is at least 100. */
  lemma RoundTripNeedsHundredSteps(top: nat)
    requires 0 < top < 0x10000
    ensures (forall request: int :: -0x8000 < request < 0x8000 ==>
               DutyOf(Compare(Saturated(request), top), top) == Clamped(request))
            <==> top >= 100
  {
    if top >= 100 {
      forall request: int | -0x8000 < request < 0x8000
        ensures DutyOf(Compare(Saturated(request), top), top) == Clamped(request)
      {
        RoundTrip(request, top);
      }
    } else {
      LostPercent(top);
      assert Clamped(99) == 99;
    }
  }

  lemma FloorOf(x: real, n: int)
    requires x == n as real / 100.0 && n >= 0
    ensures x.Floor == n / 100
  {
    FloorOfHundredth(n);
  }

  /** The compare value of the int16_t minimum: 32868 percent of TOP, cut to 16 bits. */
  lemma MinimumCompare(top: nat)
    requires top < 0x10000
    ensures Compare(Saturated(-0x8000), top) == 32868 * top / 100 % 0x10000
  {
    MinimumSaturates();
    var x := ((-0x8000) as real * -0.01 + 1.0) * top as real;
    FloorOf(x, 32868 * top);
    var n := 32868 * top / 100;
    assert Truncate(x) == n;
    assert Compare(-0x8000, top) == Int16(n) % 0x10000;
    hide *;
    LowBits(n);
  }

  lemma MinimumSaturates()
    ensures Saturated(-0x8000) == -0x8000
  {
    assert Int16(0x8000) == -0x8000;
  }

  lemma LowBits(n: int)
    ensures Int16(n) % 0x10000 == n % 0x10000
  {
  }

  /** A compare value reads back as 100 only if it is 0. */
  lemma ReadsFull(compare: nat, top: nat)
    requires 0 < top && 100 * compare <= 32868 * top
    ensures DutyOf(compare, top) == 100 <==> compare == 0
  {
    var q := compare as real / top as real;
    QuotientBound(compare as real, top as real);
    var y := -100.0 * q + 100.0;
    DutyIs(compare, top);
    hide DutyOf;
    TruncateNear(y);
  }

  lemma QuotientBound(c: real, t: real)
    requires t > 0.0 && 0.0 <= c && 100.0 * c <= 32868.0 * t
    ensures 0.0 <= c / t <= 328.68 && (c / t == 0.0 <==> c == 0.0)
  {
    var q := c / t;
    assert q * t == c;
    assert (328.68 - q) * t >= 0.0;
  }

  lemma DutyIs(compare: nat, top: nat)
    requires top > 0
    ensures DutyOf(compare, top) == Int16(Truncate(-100.0 * (compare as real / top as real) + 100.0))
  {
  }

  lemma TruncateNear(y: real)
    requires -32768.0 <= y <= 100.0
    ensures Int16(Truncate(y)) == 100 <==> y == 100.0
  {
  }

  /** 8217 * 42271 is the only small multiple of 8217 just above a multiple of 1638400. */
  lemma OnlyTop(top: nat, r: nat, m: nat)
    requires 0 < top < 0x10000 && 8217 * top == 1638400 * m + r && r < 25
    ensures top == 42271
  {
    // 474153 is the inverse of 8217 modulo 1638400
    var n := 474153 * m - 2378 * top;
    assert top == 474153 * r + 1638400 * n;
    SmallMultiple(top, r, n);
    MediumMultiple(top, r, n);
    LargeMultiple(top, r, n);
  }

  lemma SmallMultiple(top: nat, r: nat, n: int)
    requires 0 < top < 0x10000 && top == 474153 * r + 1638400 * n
    ensures r < 8 ==> top == 42271
  {
    assert r != 0 && r != 1 && r != 2 && r != 3 && r != 4 && r != 5 && r != 6;
  }

  lemma MediumMultiple(top: nat, r: nat, n: int)
    requires 0 < top < 0x10000 && top == 474153 * r + 1638400 * n
    ensures r < 8 || r >= 16
  {
    assert r != 8 && r != 9 && r != 10 && r != 11 && r != 12 && r != 13 && r != 14 && r != 15;
  }

  lemma LargeMultiple(top: nat, r: nat, n: int)
    requires 0 < top < 0x10000 && top == 474153 * r + 1638400 * n
    ensures r < 16 || r >= 25
  {
    assert r != 16 && r != 17 && r != 18 && r != 19 && r != 20 && r != 21 && r != 22 && r != 23 && r != 24;
  }

  lemma CompareIsZero(top: nat)
    requires 0 < top < 0x10000
    ensures 32868 * top / 100 % 0x10000 == 0 <==> top == 42271
  {
    var c := 32868 * top / 100;
    if c % 0x10000 == 0 {
      var m := c / 0x10000;
      var r := 32868 * top - 100 * c;
      assert 4 * (8217 * top) == 4 * (1638400 * m) + r;
      OnlyTop(top, 8217 * top - 1638400 * m, m);
    }
  }

  /** The excluded request: the int16_t minimum is read back as 100 for TOP 42271, where its compare
      value happens to be 0, and wrongly for every other TOP. */
  lemma MinimumRequest(top: nat)
    requires 0 < top < 0x10000
    ensures DutyOf(Compare(Saturated(-0x8000), top), top) == Clamped(-0x8000) <==> top == 42271
  {
    hide DutyOf, Compare, Saturated;
    MinimumCompare(top);
    CompareIsZero(top);
    var c := 32868 * top / 100 % 0x10000;
    assert 100 * c <= 32868 * top;
    ReadsFull(c, top);
  }
}

module MotorPWM {
  import opened Bits
  import opened Pwm

  /** The timer registers behind the two motors. */
  class MotorTimer {
    var enabled: bool        // COM1x bits of TCCR1A
    var leftReverse: bool    // PORTB bit 2
    var rightReverse: bool   // PORTB bit 1
    var compareLeft: nat     // OCR1B
    var compareRight: nat    // OCR1A
    var top: nat             // ICR1

    ghost predicate Valid()
      reads this
    {
      0 < top < 0x10000
    }

    constructor (maxPwm: nat)
      requires 0 < maxPwm < 0x10000
      ensures Valid() && !enabled && top == maxPwm
    {
      enabled, top := false, maxPwm;
      leftReverse, rightReverse, compareLeft, compareRight := false, false, 0, 0;
    }

    method Enable(enable: bool)
      modifies this`enabled
      ensures enabled == enable
    {
      enabled := enable;
    }

    method Left(request: int)
      requires Valid() && -0x8000 <= request < 0x8000
      modifies this`leftReverse, this`compareLeft
      ensures leftReverse <==> request < 0
      ensures compareLeft == Compare(Saturated(request), top)
      ensures request != -0x8000 ==> compareLeft <= top
    {
      hide Compare;
      var pwm := request;
      if pwm < 0 {
        leftReverse := true;
        pwm := Int16(pwm * -1);
      } else {
        leftReverse := false;
      }
      pwm := if pwm > 100 then 100 else pwm;
      if 0 <= pwm {
        CompareValue(pwm, top);
      }
      compareLeft := Compare(pwm, top);
    }

    method Right(request: int)
      requires Valid() && -0x8000 <= request < 0x8000
      modifies this`rightReverse, this`compareRight
      ensures rightReverse <==> request < 0
      ensures compareRight == Compare(Saturated(request), top)
      ensures request != -0x8000 ==> compareRight <= top
    {
      hide Compare;
      var pwm := request;
      if pwm < 0 {
        rightReverse := true;
        pwm := Int16(pwm * -1);
      } else {
        rightReverse := false;
      }
      pwm := if pwm > 100 then 100 else pwm;
      if 0 <= pwm {
        CompareValue(pwm, top);
      }
      compareRight := Compare(pwm, top);
    }

    /** Reading back right after setting: right from TOP 100 on; for the int16_t minimum only with
        TOP 42271. */
    method SetAndReadLeft(request: int) returns (duty: int)
      requires Valid() && -0x8000 <= request < 0x8000
      modifies this`leftReverse, this`compareLeft
      ensures request != -0x8000 && top >= 100 ==> duty == Clamped(request)
      ensures request == -0x8000 ==> (duty == Clamped(request) <==> top == 42271)
      ensures compareLeft == Compare(Saturated(request), top) && duty == DutyOf(compareLeft, top)
    {
      hide Compare, DutyOf;
      Left(request);
      if request == -0x8000 {
        MinimumRequest(top);
      } else if top >= 100 {
        RoundTrip(request, top);
      }
      duty := GetLeft();
    }

    method GetLeft() returns (duty: int)
      requires Valid()
      ensures duty == DutyOf(compareLeft, top)
    {
      duty := Int16(Truncate(-100.0 * (compareLeft as real / top as real) + 100.0));
    }

    method GetRight() returns (duty: int)
      requires Valid()
      ensures duty == DutyOf(compareRight, top)
    {
      duty := Int16(Truncate(-100.0 * (compareRight as real / top as real) + 100.0));
    }
  }
}
