/** Driver/Filter.c: an IIR filter whose coefficients and histories live in four float rings. */
module FilterSpec {
  import opened Deque

  /** The four lists; the histories hold the newest value first. */
  datatype State = State(num: seq<real>, den: seq<real>, ins: seq<real>, outs: seq<real>)
  {
    ghost predicate Valid() {
      1 <= |num| == |den| == |ins| == |outs| && den[0] != 0.0
    }
  }

  // Named so that proofs about long sums can hide the nonlinear arithmetic.
  function Times(x: real, y: real): real { x * y }

  function Over(x: real, y: real): real
    requires y != 0.0
  {
    x / y
  }

  /** u[0] * v[0] + ... + u[n-1] * v[n-1] */
  function Dot(u: seq<real>, v: seq<real>, n: nat): real
    requires n <= |u| && n <= |v|
  {
    if n == 0 then 0.0 else Dot(u, v, n - 1) + Times(u[n - 1], v[n - 1])
  }

  function Sum(u: seq<real>, n: nat): real
    requires n <= |u|
  {
    if n == 0 then 0.0 else Sum(u, n - 1) + u[n - 1]
  }

  /** One call of Filter_Value. */
  function Step(f: State, x: real): (f': State)
    requires f.Valid()
    ensures f'.Valid() && f'.num == f.num && f'.den == f.den
  {
    var n := |f.num|;
    var ins := [x] + f.ins[..n - 1];
    var y := Over(Dot(f.num, ins, n) - Dot(f.den[1..], f.outs[..n - 1], n - 1), f.den[0]);
    f.(ins := ins, outs := [y] + f.outs[..n - 1])
  }

  function Init(b: seq<real>, a: seq<real>): State
    requires |b| == |a|
  {
    State(b, a, Repeat(|b|, 0.0), Repeat(|b|, 0.0))
  }

  function Added(u: seq<real>, s: real): (r: seq<real>)
    ensures |r| == |u| && forall i :: 0 <= i < |u| ==> r[i] == u[i] + s
  {
    seq(|u|, i requires 0 <= i < |u| => u[i] + s)
  }

  /** Filter_ShiftBy */
  function Shift(f: State, s: real): State {
    f.(ins := Added(f.ins, s), outs := Added(f.outs, s))
  }

  /** Filter_SetTo */
  function Fill(f: State, c: real): State {
    f.(ins := Repeat(|f.ins|, c), outs := Repeat(|f.outs|, c))
  }

  /** The state after the first k values of xs were filtered. */
  function Run(f: State, xs: seq<real>, k: nat): (f': State)
    requires f.Valid() && k <= |xs|
    ensures f'.Valid() && f'.num == f.num && f'.den == f.den
  {
    if k == 0 then f else Step(Run(f, xs, k - 1), xs[k - 1])
  }

  // ----- The difference equation on the whole, unbounded history -----

  function X(xs: seq<real>, k: int): real {
    if 0 <= k < |xs| then xs[k] else 0.0
  }

  /** sum of b[i] * x[k - i] for i < j */
  function Forward(b: seq<real>, xs: seq<real>, k: int, j: nat): real
    requires j <= |b|
  {
    if j == 0 then 0.0 else Forward(b, xs, k, j - 1) + Times(b[j - 1], X(xs, k - (j - 1)))
  }

  /** sum of a[i] * y[k - i] for 1 <= i <= j */
  function Feedback(b: seq<real>, a: seq<real>, xs: seq<real>, k: nat, j: nat): real
    requires j < |a| == |b| && a[0] != 0.0
    decreases k + 1, 0, j
  {
    if j == 0 then 0.0 else Feedback(b, a, xs, k, j - 1) + Times(a[j], Y(b, a, xs, k - j))
  }

  /** y[k] = (sum b[i] x[k-i] - sum_{i>=1} a[i] y[k-i]) / a[0], zero before the first input */
  function Y(b: seq<real>, a: seq<real>, xs: seq<real>, k: int): real
    requires 1 <= |a| == |b| && a[0] != 0.0
    decreases if k < 0 then 0 else k + 1, 1, 0
  {
    if k < 0 then 0.0
    else Over(Forward(b, xs, k, |b|) - Feedback(b, a, xs, k, |a| - 1), a[0])
  }
}

module FilterLaws {
  import opened Deque
  import opened FilterSpec

  /** The rings hold the last |b| inputs and outputs of the unbounded recurrence, newest first. */
  ghost predicate Tracks(f: State, b: seq<real>, a: seq<real>, xs: seq<real>, k: nat) {
    && f.Valid() && f.num == b && f.den == a
    && (forall i :: 0 <= i < |b| ==> f.ins[i] == X(xs, k - 1 - i))
    && (forall i :: 0 <= i < |b| ==> f.outs[i] == Y(b, a, xs, k - 1 - i))
  }

  lemma {:induction false} DotIsForward(b: seq<real>, ins: seq<real>, xs: seq<real>, k: int, j: nat)
    requires j <= |b| && j <= |ins|
    requires forall i :: 0 <= i < j ==> ins[i] == X(xs, k - i)
    ensures Dot(b, ins, j) == Forward(b, xs, k, j)
  {
    if j == 0 {
    } else {
      DotIsForward(b, ins, xs, k, j - 1);
    }
  }

  lemma {:induction false} DotIsFeedback(b: seq<real>, a: seq<real>, outs: seq<real>, xs: seq<real>, k: nat, j: nat)
    requires j < |a| == |b| && a[0] != 0.0 && j <= |outs|
    requires forall i :: 0 <= i < j ==> outs[i] == Y(b, a, xs, k - 1 - i)
    ensures Dot(a[1..], outs, j) == Feedback(b, a, xs, k, j)
  {
    if j == 0 {
    } else {
      DotIsFeedback(b, a, outs, xs, k, j - 1);
      assert outs[j - 1] == Y(b, a, xs, k - j);
    }
  }

  lemma StepTracks(f: State, b: seq<real>, a: seq<real>, xs: seq<real>, k: nat)
    requires k < |xs| && Tracks(f, b, a, xs, k)
    ensures Tracks(Step(f, xs[k]), b, a, xs, k + 1)
  {
    var n := |b|;
    var f' := Step(f, xs[k]);
    forall i | 0 <= i < n
      ensures f'.ins[i] == X(xs, k - i)
    {
      if i > 0 {
        assert f'.ins[i] == f.ins[i - 1];
      }
    }
    DotIsForward(b, f'.ins, xs, k, n);
    DotIsFeedback(b, a, f.outs[..n - 1], xs, k, n - 1);
    assert f'.outs[0] == Y(b, a, xs, k);
    forall i | 1 <= i < n
      ensures f'.outs[i] == Y(b, a, xs, k - i)
    {
      assert f'.outs[i] == f.outs[i - 1];
    }
  }

  /** Refinement: after any number of calls, every output is the one of the difference equation on
      the full history, although the rings remember only the last |b| values. */
  lemma {:induction false} RunRefinesDifferenceEquation(b: seq<real>, a: seq<real>, xs: seq<real>, k: nat)
    requires 1 <= |a| == |b| && a[0] != 0.0 && k <= |xs|
    ensures Tracks(Run(Init(b, a), xs, k), b, a, xs, k)
  {
    if k == 0 {
    } else {
      hide Step, Tracks, Init;
      RunRefinesDifferenceEquation(b, a, xs, k - 1);
      StepTracks(Run(Init(b, a), xs, k - 1), b, a, xs, k - 1);
    }
  }

  /** The k-th value returned by Filter_Value. */
  function Output(b: seq<real>, a: seq<real>, xs: seq<real>, k: nat): real
    requires 1 <= |a| == |b| && a[0] != 0.0 && k < |xs|
  {
    Run(Init(b, a), xs, k + 1).outs[0]
  }

  lemma OutputIsY(b: seq<real>, a: seq<real>, xs: seq<real>, k: nat)
    requires 1 <= |a| == |b| && a[0] != 0.0 && k < |xs|
    ensures Output(b, a, xs, k) == Y(b, a, xs, k)
  {
    RunRefinesDifferenceEquation(b, a, xs, k + 1);
  }

  // ----- Linearity -----

  function Mix(s: real, xs: seq<real>, t: real, zs: seq<real>): (r: seq<real>)
    requires |xs| == |zs|
    ensures |r| == |xs| && forall i :: 0 <= i < |xs| ==> r[i] == Times(s, xs[i]) + Times(t, zs[i])
  {
    seq(|xs|, i requires 0 <= i < |xs| => Times(s, xs[i]) + Times(t, zs[i]))
  }

  lemma TimesZero(s: real)
    ensures Times(s, 0.0) == 0.0
  {
  }

  lemma LinearStep(s: real, t: real, c: real, f: real, f1: real, f2: real, x: real, x1: real, x2: real)
    requires f == Times(s, f1) + Times(t, f2) && x == Times(s, x1) + Times(t, x2)
    ensures f + Times(c, x) == Times(s, f1 + Times(c, x1)) + Times(t, f2 + Times(c, x2))
  {
    assert c * x == s * (c * x1) + t * (c * x2);
  }

  lemma LinearQuotient(s: real, t: real, d: real, p: real, p1: real, p2: real, q: real, q1: real, q2: real)
    requires d != 0.0
    requires p == Times(s, p1) + Times(t, p2) && q == Times(s, q1) + Times(t, q2)
    ensures Over(p - q, d) == Times(s, Over(p1 - q1, d)) + Times(t, Over(p2 - q2, d))
  {
    var y1, y2 := Over(p1 - q1, d), Over(p2 - q2, d);
    assert p1 - q1 == y1 * d && p2 - q2 == y2 * d;
    assert p - q == s * (p1 - q1) + t * (p2 - q2);
    assert s * (y1 * d) + t * (y2 * d) == (s * y1 + t * y2) * d;
  }

  /** m is the signal s * xs + t * zs, at every time. */
  ghost predicate IsMix(m: seq<real>, s: real, xs: seq<real>, t: real, zs: seq<real>) {
    forall i: int :: X(m, i) == Times(s, X(xs, i)) + Times(t, X(zs, i))
  }

  lemma MixIsMix(s: real, xs: seq<real>, t: real, zs: seq<real>)
    requires |xs| == |zs|
    ensures IsMix(Mix(s, xs, t, zs), s, xs, t, zs)
  {
  }

  lemma {:induction false} ForwardLinear(b: seq<real>, m: seq<real>, s: real, xs: seq<real>, t: real, zs: seq<real>, k: int, j: nat)
    requires IsMix(m, s, xs, t, zs) && j <= |b|
    ensures Forward(b, m, k, j) == Times(s, Forward(b, xs, k, j)) + Times(t, Forward(b, zs, k, j))
  {
    hide Times, Over;
    TimesZero(s);
    TimesZero(t);
    if j == 0 {
    } else {
      ForwardLinear(b, m, s, xs, t, zs, k, j - 1);
      var i := k - (j - 1);
      LinearStep(s, t, b[j - 1],
                 Forward(b, m, k, j - 1), Forward(b, xs, k, j - 1), Forward(b, zs, k, j - 1),
                 X(m, i), X(xs, i), X(zs, i));
    }
  }

  lemma {:induction false} FeedbackLinear(b: seq<real>, a: seq<real>, m: seq<real>, s: real, xs: seq<real>, t: real, zs: seq<real>, k: nat, j: nat)
    requires IsMix(m, s, xs, t, zs) && j < |a| == |b| && a[0] != 0.0
    ensures Feedback(b, a, m, k, j) == Times(s, Feedback(b, a, xs, k, j)) + Times(t, Feedback(b, a, zs, k, j))
    decreases k + 1, 0, j
  {
    hide Times, Over;
    TimesZero(s);
    TimesZero(t);
    if j == 0 {
    } else {
      FeedbackLinear(b, a, m, s, xs, t, zs, k, j - 1);
      YLinear(b, a, m, s, xs, t, zs, k - j);
      LinearStep(s, t, a[j],
                 Feedback(b, a, m, k, j - 1), Feedback(b, a, xs, k, j - 1), Feedback(b, a, zs, k, j - 1),
                 Y(b, a, m, k - j), Y(b, a, xs, k - j), Y(b, a, zs, k - j));
    }
  }

  lemma {:induction false} YLinear(b: seq<real>, a: seq<real>, m: seq<real>, s: real, xs: seq<real>, t: real, zs: seq<real>, k: int)
    requires IsMix(m, s, xs, t, zs) && 1 <= |a| == |b| && a[0] != 0.0
    ensures Y(b, a, m, k) == Times(s, Y(b, a, xs, k)) + Times(t, Y(b, a, zs, k))
    decreases if k < 0 then 0 else k + 1, 1, 0
  {
    hide Times, Over;
    TimesZero(s);
    TimesZero(t);
    if k >= 0 {
      var n := |b|;
      ForwardLinear(b, m, s, xs, t, zs, k, n);
      FeedbackLinear(b, a, m, s, xs, t, zs, k, n - 1);
      LinearQuotient(s, t, a[0],
                     Forward(b, m, k, n), Forward(b, xs, k, n), Forward(b, zs, k, n),
                     Feedback(b, a, m, k, n - 1), Feedback(b, a, xs, k, n - 1), Feedback(b, a, zs, k, n - 1));
    }
  }

  /** Filtering a mix of two signals from the zero state mixes the two filtered signals. */
  lemma FilterIsLinear(b: seq<real>, a: seq<real>, s: real, xs: seq<real>, t: real, zs: seq<real>, k: nat)
    requires |xs| == |zs| && 1 <= |a| == |b| && a[0] != 0.0 && k < |xs|
    ensures Output(b, a, Mix(s, xs, t, zs), k) == s * Output(b, a, xs, k) + t * Output(b, a, zs, k)
  {
    OutputIsY(b, a, Mix(s, xs, t, zs), k);
    OutputIsY(b, a, xs, k);
    OutputIsY(b, a, zs, k);
    MixIsMix(s, xs, t, zs);
    YLinear(b, a, Mix(s, xs, t, zs), s, xs, t, zs, k);
  }

  // ----- Shifting and unit gain -----

  lemma AddedStep(u: real, v: real, s: real, g: real)
    ensures Times(u, v + s) == Times(u, v) + Times(s, u)
    ensures Times(s, g) + Times(s, u) == Times(s, g + u)
  {
  }

  lemma {:induction false} DotAdded(u: seq<real>, v: seq<real>, s: real, n: nat)
    requires n <= |u| && n <= |v|
    ensures Dot(u, Added(v, s), n) == Dot(u, v, n) + Times(s, Sum(u, n))
  {
    if n == 0 {
    } else {
      hide Times;
      DotAdded(u, v, s, n - 1);
      AddedStep(u[n - 1], v[n - 1], s, Sum(u, n - 1));
    }
  }

  lemma {:induction false} SumTail(u: seq<real>, n: nat)
    requires n < |u|
    ensures Sum(u[1..], n) == Sum(u, n + 1) - u[0]
  {
    if n == 0 {
    } else {
      SumTail(u, n - 1);
    }
  }

  lemma ShiftedQuotient(p: real, q: real, s: real, g: real, h: real, d: real)
    requires d != 0.0
    ensures Over(p + Times(s, g) - (q + Times(s, h)), d) == Over(p - q, d) + s <==> s == 0.0 || g == h + d
  {
    var y := Over(p + Times(s, g) - (q + Times(s, h)), d);
    var z := Over(p - q, d);
    assert y * d == p - q + s * (g - h);
    assert z * d == p - q;
    assert (y - z - s) * d == s * (g - h - d);
  }

  ghost predicate UnitGain(f: State) {
    f.Valid() && Sum(f.num, |f.num|) == Sum(f.den, |f.den|)
  }

  lemma OutputShifts(f: State, ins: seq<real>, outs: seq<real>, s: real)
    requires f.Valid() && |ins| == |f.num| && |outs| == |f.num| - 1
    ensures Over(Dot(f.num, Added(ins, s), |f.num|) - Dot(f.den[1..], Added(outs, s), |f.num| - 1), f.den[0]) ==
            Over(Dot(f.num, ins, |f.num|) - Dot(f.den[1..], outs, |f.num| - 1), f.den[0]) + s
            <==> s == 0.0 || UnitGain(f)
  {
    hide Times, Over, Dot, Sum;
    var n := |f.num|;
    var a := f.den[1..];
    SumTail(f.den, n - 1);
    DotAdded(f.num, ins, s, n);
    DotAdded(a, outs, s, n - 1);
    ShiftedQuotient(Dot(f.num, ins, n), Dot(a, outs, n - 1), s, Sum(f.num, n), Sum(a, n - 1), f.den[0]);
  }

  lemma StepShifts(f: State, s: real, x: real)
    requires f.Valid()
    ensures Shift(f, s).Valid()
    ensures Step(Shift(f, s), x + s) == Shift(Step(f, x), s) <==> s == 0.0 || UnitGain(f)
  {
    hide Times, Over, Dot, Sum;
    var n := |f.num|;
    var g := Shift(f, s);
    var f', g' := Step(f, x), Step(g, x + s);
    assert g'.ins == Added(f'.ins, s);
    assert g.outs[..n - 1] == Added(f.outs[..n - 1], s);
    OutputShifts(f, f'.ins, f.outs[..n - 1], s);
    var t := Shift(f', s);
    assert g'.outs[0] == t.outs[0] <==> s == 0.0 || UnitGain(f);
    assert g'.outs[0] == t.outs[0] ==> g'.outs == t.outs;
  }

  lemma {:induction false} RunShifts(f: State, s: real, xs: seq<real>, k: nat)
    requires f.Valid() && (s == 0.0 || UnitGain(f)) && k <= |xs|
    ensures Shift(f, s).Valid() && Run(Shift(f, s), Added(xs, s), k) == Shift(Run(f, xs, k), s)
  {
    hide Times, Over, Dot, Step;
    if k == 0 {
    } else {
      RunShifts(f, s, xs, k - 1);
      StepShifts(Run(f, xs, k - 1), s, xs[k - 1]);
      assert Added(xs, s)[k - 1] == xs[k - 1] + s;
    }
  }

  lemma RunOnce(f: State, xs: seq<real>)
    requires f.Valid() && |xs| == 1
    ensures Run(f, xs, 1) == Step(f, xs[0])
  {
    hide Step;
    assert Run(f, xs, 0) == f;
  }

  /** Shifting the filter by s and every later input by s shifts every later output by s, exactly when
      the two coefficient sums agree (or s is zero). */
  lemma ShiftCarriesOver(f: State, s: real)
    requires f.Valid()
    ensures Shift(f, s).Valid()
    ensures (forall xs: seq<real>, k: nat :: k <= |xs| ==> Run(Shift(f, s), Added(xs, s), k) == Shift(Run(f, xs, k), s))
            <==> s == 0.0 || UnitGain(f)
  {
    hide Step;
    if s == 0.0 || UnitGain(f) {
      forall xs: seq<real>, k: nat | k <= |xs|
        ensures Run(Shift(f, s), Added(xs, s), k) == Shift(Run(f, xs, k), s)
      {
        RunShifts(f, s, xs, k);
      }
    } else {
      var xs := [0.0];
      StepShifts(f, s, 0.0);
      RunOnce(f, xs);
      RunOnce(Shift(f, s), Added(xs, s));
      assert Added(xs, s)[0] == 0.0 + s;
      hide Run, Shift, Added;
      assert Run(Shift(f, s), Added(xs, s), 1) != Shift(Run(f, xs, 1), s);
    }
  }

  lemma {:induction false} DotConstant(u: seq<real>, v: seq<real>, c: real, n: nat)
    requires n <= |u| && n <= |v|
    requires forall i :: 0 <= i < n ==> v[i] == c
    ensures Dot(u, v, n) == Times(c, Sum(u, n))
  {
    if n == 0 {
    } else {
      DotConstant(u, v, c, n - 1);
    }
  }

  lemma ConstantQuotient(c: real, g: real, h: real, d: real)
    requires d != 0.0
    ensures Over(Times(c, g) - Times(c, h), d) == c <==> c == 0.0 || g == h + d
  {
    var y := (c * g - c * h) / d;
    assert y * d == c * (g - h);
    assert (y - c) * d == c * (g - h - d);
  }

  lemma ConstantOutput(f: State, ins: seq<real>, outs: seq<real>, c: real)
    requires f.Valid() && |ins| == |f.num| && |outs| == |f.num| - 1
    requires (forall i :: 0 <= i < |ins| ==> ins[i] == c) && (forall i :: 0 <= i < |outs| ==> outs[i] == c)
    ensures Over(Dot(f.num, ins, |f.num|) - Dot(f.den[1..], outs, |f.num| - 1), f.den[0]) == c
            <==> c == 0.0 || UnitGain(f)
  {
    hide Times, Over;
    var n := |f.num|;
    DotConstant(f.num, ins, c, n);
    DotConstant(f.den[1..], outs, c, n - 1);
    SumTail(f.den, n - 1);
    ConstantQuotient(c, Sum(f.num, n), Sum(f.den[1..], n - 1), f.den[0]);
  }

  lemma FilledStep(f: State, c: real)
    requires f.Valid()
    ensures Fill(f, c).Valid()
    ensures Step(Fill(f, c), c) == Fill(f, c) <==> c == 0.0 || UnitGain(f)
  {
    hide Times, Over, Dot;
    var n := |f.num|;
    var g := Fill(f, c);
    var g' := Step(g, c);
    ConstantOutput(f, g'.ins, g.outs[..n - 1], c);
    assert g'.ins == g.ins;
    assert g'.outs[0] == c ==> g'.outs == g.outs;
    assert g.outs[0] == c;
  }

  /** Filter_SetTo(c) followed by the constant input c answers c forever, exactly when the two
      coefficient sums agree (or c is zero). */
  lemma SetToHolds(f: State, c: real)
    requires f.Valid()
    ensures Fill(f, c).Valid()
    ensures (forall k: nat :: Run(Fill(f, c), Repeat(k, c), k) == Fill(f, c)) <==> c == 0.0 || UnitGain(f)
  {
    FilledStep(f, c);
    if c == 0.0 || UnitGain(f) {
      forall k: nat
        ensures Run(Fill(f, c), Repeat(k, c), k) == Fill(f, c)
      {
        ConstantRun(f, c, Repeat(k, c), k);
      }
    } else {
      assert Run(Fill(f, c), Repeat(1, c), 1) == Step(Run(Fill(f, c), Repeat(1, c), 0), c);
      assert Run(Fill(f, c), Repeat(1, c), 1) != Fill(f, c);
    }
  }

  lemma {:induction false} ConstantRun(f: State, c: real, xs: seq<real>, k: nat)
    requires f.Valid() && Fill(f, c).Valid() && Step(Fill(f, c), c) == Fill(f, c)
    requires k <= |xs| && forall i :: 0 <= i < |xs| ==> xs[i] == c
    ensures Run(Fill(f, c), xs, k) == Fill(f, c)
  {
    hide Step, Fill;
    if k == 0 {
    } else {
      ConstantRun(f, c, xs, k - 1);
    }
  }

  // ----- The motor controllers: one pole at 1 -----

  lemma IntegratorY(b: seq<real>, xs: seq<real>, k: nat)
    requires |b| == 2
    ensures Y(b, [1.0, -1.0], xs, k) == b[0] * X(xs, k) + b[1] * X(xs, k - 1) + Y(b, [1.0, -1.0], xs, k - 1)
  {
    var a := [1.0, -1.0];
    assert Forward(b, xs, k, 2) == Forward(b, xs, k, 1) + b[1] * X(xs, k - 1);
    assert Forward(b, xs, k, 1) == Forward(b, xs, k, 0) + b[0] * X(xs, k);
    assert Feedback(b, a, xs, k, 1) == Feedback(b, a, xs, k, 0) + a[1] * Y(b, a, xs, k - 1);
  }

  lemma IntegratorSum(b0: real, b1: real, s: real, x: real)
    ensures (b0 + b1) * (s + x) == (b0 * x + (b0 + b1) * s) + b1 * x
  {
  }

  lemma {:induction false} IntegratorClosedForm(b: seq<real>, xs: seq<real>, k: nat)
    requires |b| == 2 && k < |xs|
    ensures Y(b, [1.0, -1.0], xs, k) == b[0] * xs[k] + (b[0] + b[1]) * Sum(xs, k)
  {
    IntegratorY(b, xs, k);
    if k == 0 {
    } else {
      IntegratorClosedForm(b, xs, k - 1);
      IntegratorSum(b[0], b[1], Sum(xs, k - 1), xs[k - 1]);
    }
  }

  /** Denominator {1, -1}: the output is b0 times the newest input plus (b0 + b1) times the sum of
      all earlier ones, that is, a proportional and an integral part. */
  lemma ControllerIntegrates(b: seq<real>, xs: seq<real>, k: nat)
    requires |b| == 2 && k < |xs|
    ensures Output(b, [1.0, -1.0], xs, k) == b[0] * xs[k] + (b[0] + b[1]) * Sum(xs, k)
  {
    OutputIsY(b, [1.0, -1.0], xs, k);
    IntegratorClosedForm(b, xs, k);
  }

  /** Filter_Init keeps every coefficient exactly when the order is at most 6: one more and the
      8-cell ring drops coefficient 0. */
  lemma InitKeepsCoefficients(coefficients: seq<real>)
    ensures |PushAll(7, [], coefficients)| == |coefficients| <==> |coefficients| <= 7
    ensures |coefficients| <= 7 ==> PushAll(7, [], coefficients) == coefficients
    ensures |coefficients| > 7 ==> PushAll(7, [], coefficients) == coefficients[|coefficients| - 7..]
  {
    PushAllKeepsLast(7, [], coefficients);
    assert [] + coefficients == coefficients;
  }
}

module Filter {
  import opened Bits
  import opened Deque
  import opened Ring_Buffer
  import opened FilterSpec
  import opened FilterLaws

  const RB_LENGTH_F: nat := 8

  lemma RingSize()
    ensures IsRingSize(RB_LENGTH_F)
  {
    assert Pow2(3) == 8;
  }

  class FilterData {
    const numerator: RingBuffer<real>
    const denominator: RingBuffer<real>
    const inList: RingBuffer<real>
    const outList: RingBuffer<real>

    /** The four rings exist, have 8 cells and share nothing. */
    ghost predicate Storage()
      reads numerator, numerator.buffer, denominator, denominator.buffer
      reads inList, inList.buffer, outList, outList.buffer
    {
      && numerator != denominator && numerator != inList && numerator != outList
      && denominator != inList && denominator != outList && inList != outList
      && numerator.buffer != denominator.buffer && numerator.buffer != inList.buffer
      && numerator.buffer != outList.buffer && denominator.buffer != inList.buffer
      && denominator.buffer != outList.buffer && inList.buffer != outList.buffer
      && numerator.Valid() && denominator.Valid() && inList.Valid() && outList.Valid()
      && numerator.buffer.Length == RB_LENGTH_F && denominator.buffer.Length == RB_LENGTH_F
      && inList.buffer.Length == RB_LENGTH_F && outList.buffer.Length == RB_LENGTH_F
    }

    ghost function Abs(): State
      requires Storage()
      reads numerator, numerator.buffer, denominator, denominator.buffer
      reads inList, inList.buffer, outList, outList.buffer
    {
      State(numerator.contents, denominator.contents, inList.contents, outList.contents)
    }

    ghost predicate Valid()
      reads numerator, numerator.buffer, denominator, denominator.buffer
      reads inList, inList.buffer, outList, outList.buffer
    {
      Storage() && Abs().Valid()
    }

    constructor ()
      ensures Storage() && fresh(numerator) && fresh(numerator.buffer) && fresh(denominator)
      ensures fresh(denominator.buffer) && fresh(inList) && fresh(inList.buffer) && fresh(outList) && fresh(outList.buffer)
    {
      hide Live;
      RingSize();
      var cells0, cells1 := new real[RB_LENGTH_F], new real[RB_LENGTH_F];
      var cells2, cells3 := new real[RB_LENGTH_F], new real[RB_LENGTH_F];
      numerator := new RingBuffer(cells0, 0.0);
      denominator := new RingBuffer(cells1, 0.0);
      inList := new RingBuffer(cells2, 0.0);
      outList := new RingBuffer(cells3, 0.0);
    }

    /** One turn of the loop of Filter_Init. */
    method PushCoefficients(b: real, a: real)
      requires Storage()
      modifies numerator, numerator.buffer, denominator, denominator.buffer
      modifies inList, inList.buffer, outList, outList.buffer
      ensures Storage()
      ensures numerator.contents == Deque.PushBack(7, old(numerator.contents), b)
      ensures denominator.contents == Deque.PushBack(7, old(denominator.contents), a)
      ensures inList.contents == Deque.PushBack(7, old(inList.contents), 0.0)
      ensures outList.contents == Deque.PushBack(7, old(outList.contents), 0.0)
    {
      hide Live, IsRingSize, Deque.PushBack;
      numerator.PushBack(b);
      denominator.PushBack(a);
      inList.PushBack(0.0);
      outList.PushBack(0.0);
    }

    /** Filter_Init; orders above 6 lose their first coefficients (FilterLaws.InitKeepsCoefficients). */
    method Init(numeratorCoeffs: seq<real>, denominatorCoeffs: seq<real>, order: nat)
      requires Storage() && order < |numeratorCoeffs| && order < |denominatorCoeffs|
      modifies numerator, numerator.buffer, denominator, denominator.buffer
      modifies inList, inList.buffer, outList, outList.buffer
      ensures Storage()
      ensures Abs().num == PushAll(7, [], numeratorCoeffs[..order + 1])
      ensures Abs().den == PushAll(7, [], denominatorCoeffs[..order + 1])
      ensures Abs().ins == Abs().outs == PushAll(7, [], Repeat(order + 1, 0.0))
    {
      hide Live, IsRingSize, PushAll, Deque.PushBack;
      numerator.Initialize();
      denominator.Initialize();
      inList.Initialize();
      outList.Initialize();
      PushNothing(numeratorCoeffs);
      PushNothing(denominatorCoeffs);
      PushNothing(Repeat(order + 1, 0.0));
      for i := 0 to order + 1
        invariant Storage()
        invariant numerator.contents == PushAll(7, [], numeratorCoeffs[..i])
        invariant denominator.contents == PushAll(7, [], denominatorCoeffs[..i])
        invariant inList.contents == PushAll(7, [], Repeat(order + 1, 0.0)[..i])
        invariant outList.contents == PushAll(7, [], Repeat(order + 1, 0.0)[..i])
      {
        PushAllNext(7, [], numeratorCoeffs, i);
        PushAllNext(7, [], denominatorCoeffs, i);
        PushAllNext(7, [], Repeat(order + 1, 0.0), i);
        PushCoefficients(numeratorCoeffs[i], denominatorCoeffs[i]);
      }
      assert Repeat(order + 1, 0.0)[..order + 1] == Repeat(order + 1, 0.0);
    }

    /** Filter_ShiftBy */
    method ShiftBy(shiftAmount: real)
      requires Valid()
      modifies inList, inList.buffer, outList, outList.buffer
      ensures Valid() && Abs() == Shift(old(Abs()), shiftAmount)
    {
      hide Live, IsRingSize, Added, PartlyAdded;
      var n := inList.Length();
      ghost var ins, outs := inList.contents, outList.contents;
      PartlyAddedEnds(ins, shiftAmount);
      PartlyAddedEnds(outs, shiftAmount);
      for i := 0 to n
        invariant Storage()
        invariant inList.contents == PartlyAdded(ins, shiftAmount, i)
        invariant outList.contents == PartlyAdded(outs, shiftAmount, i)
      {
        PartlyAddedNext(ins, shiftAmount, i);
        PartlyAddedNext(outs, shiftAmount, i);
        var x := inList.Get(i);
        inList.Set(i, x + shiftAmount);
        var y := outList.Get(i);
        outList.Set(i, y + shiftAmount);
      }
    }

    /** Filter_SetTo */
    method SetTo(amount: real)
      requires Valid()
      modifies inList, inList.buffer, outList, outList.buffer
      ensures Valid() && Abs() == Fill(old(Abs()), amount)
    {
      hide Live, IsRingSize, PartlyFilled;
      var n := inList.Length();
      ghost var ins, outs := inList.contents, outList.contents;
      PartlyFilledEnds(ins, amount);
      PartlyFilledEnds(outs, amount);
      for i := 0 to n
        invariant Storage()
        invariant inList.contents == PartlyFilled(ins, amount, i)
        invariant outList.contents == PartlyFilled(outs, amount, i)
      {
        PartlyFilledNext(ins, amount, i);
        PartlyFilledNext(outs, amount, i);
        inList.Set(i, amount);
        outList.Set(i, amount);
      }
    }

    /** The two sums of Filter_Value, taken while the newest output is still missing. */
    method Sums(n: nat) returns (topSum: real, bottomSum: real)
      requires Storage() && 1 <= n <= 7
      requires |numerator.contents| == |denominator.contents| == |inList.contents| == n
      requires |outList.contents| == n - 1
      ensures topSum == Dot(numerator.contents, inList.contents, n)
      ensures bottomSum == Dot(denominator.contents[1..], outList.contents, n - 1)
    {
      hide Live, IsRingSize;
      topSum, bottomSum := 0.0, 0.0;
      for i := 0 to n
        invariant topSum == Dot(numerator.contents, inList.contents, i)
        invariant bottomSum == Dot(denominator.contents[1..], outList.contents, if i < n then i else n - 1)
      {
        var b := numerator.Get(i);
        var x := inList.Get(i);
        topSum := topSum + Times(b, x);
        if i < n - 1 {
          var a := denominator.Get(i + 1);
          var z := outList.Get(i);
          bottomSum := bottomSum + Times(a, z);
        }
      }
    }

    /** Filter_Value, up to its sums: drop the oldest input and output, take the new input in. */
    method TakeIn(value: real)
      requires Valid()
      modifies inList, inList.buffer, outList, outList.buffer
      ensures Storage()
      ensures inList.contents == [value] + old(inList.contents)[..|old(inList.contents)| - 1]
      ensures outList.contents == old(outList.contents)[..|old(outList.contents)| - 1]
    {
      hide Live, IsRingSize, Deque.PushFront;
      PushFrontRoom(inList.contents[..|inList.contents| - 1], value);
      var oldest := inList.PopBack();
      oldest := outList.PopBack();
      inList.PushFront(value);
    }

    method Emit(y: real)
      requires Storage()
      modifies outList, outList.buffer
      ensures Storage() && outList.contents == Deque.PushFront(7, old(outList.contents), y)
    {
      hide Live, IsRingSize, Deque.PushFront;
      outList.PushFront(y);
    }

    /** Filter_Value */
    method Value(value: real) returns (y: real)
      requires Valid()
      modifies inList, inList.buffer, outList, outList.buffer
      ensures Valid() && Abs() == Step(old(Abs()), value) && y == Abs().outs[0]
    {
      hide Live, IsRingSize, Dot, Over, Step, Deque.PushFront;
      var n := inList.Length();
      ghost var f := Abs();
      TakeIn(value);
      var topSum, bottomSum := Sums(n);
      var a0 := denominator.Get(0);
      Emit(Over(topSum - bottomSum, a0));
      StepParts(f, value, inList.contents, outList.contents);
      y := outList.Get(0);
    }

    /** Filter_Last_Output */
    method LastOutput() returns (y: real)
      requires Valid()
      ensures y == Abs().outs[0]
    {
      y := outList.Get(0);
    }
  }

  /** ins with its first i values shifted by s. */
  ghost function PartlyAdded(ins: seq<real>, s: real, i: nat): (r: seq<real>)
    ensures |r| == |ins|
  {
    seq(|ins|, k requires 0 <= k < |ins| => if k < i then ins[k] + s else ins[k])
  }

  lemma PartlyAddedEnds(ins: seq<real>, s: real)
    ensures PartlyAdded(ins, s, 0) == ins
    ensures PartlyAdded(ins, s, |ins|) == Added(ins, s)
  {
  }

  lemma PartlyAddedNext(ins: seq<real>, s: real, i: nat)
    requires i < |ins|
    ensures PartlyAdded(ins, s, i)[i] == ins[i]
    ensures PartlyAdded(ins, s, i)[i := ins[i] + s] == PartlyAdded(ins, s, i + 1)
  {
  }

  /** ins with its first i values replaced by c. */
  ghost function PartlyFilled(ins: seq<real>, c: real, i: nat): (r: seq<real>)
    ensures |r| == |ins|
  {
    seq(|ins|, k requires 0 <= k < |ins| => if k < i then c else ins[k])
  }

  lemma PartlyFilledEnds(ins: seq<real>, c: real)
    ensures PartlyFilled(ins, c, 0) == ins
    ensures PartlyFilled(ins, c, |ins|) == Repeat(|ins|, c)
  {
  }

  lemma PartlyFilledNext(ins: seq<real>, c: real, i: nat)
    requires i < |ins|
    ensures PartlyFilled(ins, c, i)[i := c] == PartlyFilled(ins, c, i + 1)
  {
  }

  lemma PushNothing(xs: seq<real>)
    ensures PushAll(7, [], xs[..0]) == []
  {
  }

  /** Up to order 6 the initialised object is the zero state of the difference equation. */
  lemma InitIsZeroState(num: seq<real>, den: seq<real>)
    requires |num| == |den| <= 7
    ensures State(PushAll(7, [], num), PushAll(7, [], den),
                  PushAll(7, [], Repeat(|num|, 0.0)), PushAll(7, [], Repeat(|num|, 0.0))) == FilterSpec.Init(num, den)
  {
    InitKeepsCoefficients(num);
    InitKeepsCoefficients(den);
    InitKeepsCoefficients(Repeat(|num|, 0.0));
  }

  lemma PushFrontRoom(q: seq<real>, x: real)
    requires |q| < 7
    ensures Deque.PushFront(7, q, x) == [x] + q
  {
  }

  lemma StepParts(f: State, x: real, ins: seq<real>, outs: seq<real>)
    requires f.Valid() && |f.num| <= 7
    requires ins == [x] + f.ins[..|f.num| - 1]
    requires outs == Deque.PushFront(7, f.outs[..|f.num| - 1],
                                     Over(Dot(f.num, ins, |f.num|) -
                                          Dot(f.den[1..], f.outs[..|f.num| - 1], |f.num| - 1), f.den[0]))
    ensures Step(f, x) == State(f.num, f.den, ins, outs)
  {
  }
}
