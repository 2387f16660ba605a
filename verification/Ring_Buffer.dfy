/** Driver/Ring_Buffer.c: a masked circular buffer over an array of a power-of-two size,
    refining a deque of capacity size - 1 that drops the opposite end when it is full. */
module Deque {

  /** Append at the back; a full deque loses its front. */
  function PushBack<T>(cap: nat, q: seq<T>, x: T): (r: seq<T>)
    requires |q| <= cap && cap > 0
    ensures |r| <= cap
  {
    if |q| == cap then q[1..] + [x] else q + [x]
  }

  /** Append at the front; a full deque loses its back. */
  function PushFront<T>(cap: nat, q: seq<T>, x: T): (r: seq<T>)
    requires |q| <= cap && cap > 0
    ensures |r| <= cap
  {
    if |q| == cap then [x] + q[..|q| - 1] else [x] + q
  }

  /** Append a whole sequence, one element at a time. */
  function PushAll<T>(cap: nat, q: seq<T>, xs: seq<T>): (r: seq<T>)
    requires |q| <= cap && cap > 0
    ensures |r| <= cap
    decreases |xs|
  {
    if xs == [] then q else PushAll(cap, PushBack(cap, q, xs[0]), xs[1..])
  }

  /** The same value pushed n times. */
  function Repeat<T>(n: nat, x: T): (r: seq<T>)
    ensures |r| == n && forall i :: 0 <= i < n ==> r[i] == x
  {
    seq(n, i => x)
  }

  function LastOf<T>(cap: nat, xs: seq<T>): (r: seq<T>)
    ensures |r| <= cap
  {
    if |xs| <= cap then xs else xs[|xs| - cap..]
  }

  /** What survives of a stream of pushes is exactly its last `cap` elements. */
  lemma {:induction false} PushAllKeepsLast<T>(cap: nat, q: seq<T>, xs: seq<T>)
    requires |q| <= cap && cap > 0
    ensures PushAll(cap, q, xs) == LastOf(cap, q + xs)
    decreases |xs|
  {
    if xs == [] {
      assert q + xs == q;
    } else {
      hide LastOf, PushBack;
      PushAllKeepsLast(cap, PushBack(cap, q, xs[0]), xs[1..]);
      KeepLastStep(cap, q, xs);
    }
  }

  lemma KeepLastStep<T>(cap: nat, q: seq<T>, xs: seq<T>)
    requires |q| <= cap && cap > 0 && xs != []
    ensures LastOf(cap, PushBack(cap, q, xs[0]) + xs[1..]) == LastOf(cap, q + xs)
  {
    hide LastOf;
    var x, tail := xs[0], xs[1..];
    assert xs == [x] + tail;
    assert q + xs == (q + [x]) + tail;
    if |q| == cap {
      assert (q + [x])[1..] == q[1..] + [x];
      DropFirst(cap, q + [x], tail);
    }
  }

  lemma DropFirst<T>(cap: nat, q: seq<T>, tail: seq<T>)
    requires |q| > cap
    ensures LastOf(cap, q[1..] + tail) == LastOf(cap, q + tail)
  {
    assert (q + tail)[1..] == q[1..] + tail;
  }

  lemma {:induction false} PushAllAppend<T>(cap: nat, q: seq<T>, xs: seq<T>, ys: seq<T>)
    requires |q| <= cap && cap > 0
    ensures PushAll(cap, q, xs + ys) == PushAll(cap, PushAll(cap, q, xs), ys)
    decreases |xs|
  {
    if xs == [] {
      assert xs + ys == ys;
    } else {
      assert (xs + ys)[0] == xs[0] && (xs + ys)[1..] == xs[1..] + ys;
      PushAllAppend(cap, PushBack(cap, q, xs[0]), xs[1..], ys);
    }
  }

  lemma PushAllNext<T>(cap: nat, q: seq<T>, xs: seq<T>, i: nat)
    requires |q| <= cap && cap > 0 && i < |xs|
    ensures PushAll(cap, q, xs[..i + 1]) == PushBack(cap, PushAll(cap, q, xs[..i]), xs[i])
  {
    assert xs[..i + 1] == xs[..i] + [xs[i]];
    PushAllAppend(cap, q, xs[..i], [xs[i]]);
    PushAllOne(cap, PushAll(cap, q, xs[..i]), xs[i]);
    hide *;
  }

  lemma PushAllNone<T>(cap: nat, q: seq<T>)
    requires |q| <= cap && cap > 0
    ensures PushAll(cap, q, []) == q
  {
  }

  lemma PushAllOne<T>(cap: nat, q: seq<T>, x: T)
    requires |q| <= cap && cap > 0
    ensures PushAll(cap, q, [x]) == PushBack(cap, q, x)
  {
    assert PushAll(cap, PushBack(cap, q, x), [x][1..]) == PushBack(cap, q, x);
  }

  lemma Regroup<T>(a: seq<T>, b: seq<T>, c: seq<T>, d: seq<T>, e: seq<T>)
    ensures a + b + c + d + e == a + (b + c) + d + e
  {
  }

  /** A frame pushed piece by piece. */
  lemma PushAllPieces<T>(cap: nat, q: seq<T>, a: T, s: seq<T>, b: T, data: seq<T>)
    requires |q| <= cap && cap > 0
    ensures PushAll(cap, q, [a] + s + [b] + data) ==
            PushAll(cap, PushBack(cap, PushAll(cap, PushBack(cap, q, a), s), b), data)
  {
    hide PushAll, PushBack;
    PushAllAppend(cap, q, [a] + s + [b], data);
    PushAllAppend(cap, q, [a] + s, [b]);
    PushAllAppend(cap, q, [a], s);
    PushAllOne(cap, q, a);
    PushAllOne(cap, PushAll(cap, q, [a] + s), b);
  }

  function Mirror<T>(q: seq<T>): (r: seq<T>)
    ensures |r| == |q| && forall i :: 0 <= i < |q| ==> r[i] == q[|q| - 1 - i]
  {
    seq(|q|, i requires 0 <= i < |q| => q[|q| - 1 - i])
  }

  /** Pushing at the front is pushing at the back of the mirrored deque. */
  lemma PushFrontMirrors<T>(cap: nat, q: seq<T>, x: T)
    requires |q| <= cap && cap > 0
    ensures Mirror(PushFront(cap, q, x)) == PushBack(cap, Mirror(q), x)
  {
  }

  /** rb_set past the end pushes until the index is in range; that ever happens exactly when the
      index is below the capacity, so index size - 1 loops forever. */
  lemma SetLoopExits<T>(cap: nat, q: seq<T>, x: T, index: nat)
    requires |q| <= cap && cap > 0
    ensures (exists n: nat :: index < |PushAll(cap, q, Repeat(n, x))|) <==> index < cap
  {
    if index < cap {
      PushAllKeepsLast(cap, q, Repeat(cap, x));
      assert index < |PushAll(cap, q, Repeat(cap, x))|;
    }
  }
}

module Ring_Buffer {
  import opened Bits
  import opened Deque

  /** RB_LENGTH_x: a power of two, at most 256. */
  ghost predicate IsRingSize(n: nat) {
    exists k: nat :: 1 <= k <= 8 && n == Pow2(k)
  }

  lemma RingSizeBounds(n: nat)
    requires IsRingSize(n)
    ensures 2 <= n <= 256
  {
    var k: nat :| 1 <= k <= 8 && n == Pow2(k);
    Pow2Monotone(1, k);
    Pow2Monotone(k, 8);
    Pow2Is16();
    assert Pow2(1) == 2;
  }

  lemma {:induction false} Pow2Monotone(j: nat, k: nat)
    requires j <= k
    ensures Pow2(j) <= Pow2(k)
    decreases k
  {
    if j < k {
      Pow2Monotone(j, k - 1);
    }
  }

  lemma IndexWraps(x: int, n: nat)
    requires IsRingSize(n) && 0 - n <= x < 2 * n
    ensures Masked(x, n) == if x < 0 then x + n else if x < n then x else x - n
  {
    var k: nat :| 1 <= k <= 8 && n == Pow2(k);
    MaskedWraps(x, n);
  }

  /** The cells from the start index up to, and without, the end index. */
  ghost function Live<T>(cells: seq<T>, startIndex: nat, endIndex: nat): (q: seq<T>)
    requires startIndex < |cells| && endIndex < |cells|
    ensures |q| < |cells|
  {
    if startIndex <= endIndex then cells[startIndex..endIndex]
    else cells[startIndex..] + cells[..endIndex]
  }

  function Next(i: nat, n: nat): nat { if i + 1 < n then i + 1 else 0 }

  function Previous(i: nat, n: nat): nat
    requires n > 0
  {
    if i == 0 then n - 1 else i - 1
  }

  lemma LivePushBack<T>(cells: seq<T>, s: nat, e: nat, value: T)
    requires s < |cells| && e < |cells| && 2 <= |cells|
    ensures var e' := Next(e, |cells|);
            Live(cells[e := value], if e' == s then Next(s, |cells|) else s, e') ==
            Deque.PushBack(|cells| - 1, Live(cells, s, e), value)
  {
    if s <= e {
      LivePushBackStraight(cells, s, e, value);
    } else {
      LivePushBackWrapped(cells, s, e, value);
    }
  }

  lemma LivePushBackStraight<T>(cells: seq<T>, s: nat, e: nat, value: T)
    requires s <= e < |cells| && 2 <= |cells|
    ensures var e' := Next(e, |cells|);
            Live(cells[e := value], if e' == s then Next(s, |cells|) else s, e') ==
            Deque.PushBack(|cells| - 1, cells[s..e], value)
  {
    var n := |cells|;
    var cells' := cells[e := value];
    assert cells'[s..e + 1] == cells[s..e] + [value];
    if e + 1 < n {
      assert Live(cells', s, e + 1) == cells'[s..e + 1];
    } else if s > 0 {
      assert Live(cells', s, 0) == cells'[s..] + cells'[..0] == cells'[s..e + 1];
    } else {
      assert Live(cells', 1, 0) == cells'[1..] + cells'[..0] == cells'[1..];
      assert cells'[1..] == cells[0..e][1..] + [value];
    }
  }

  lemma LivePushBackWrapped<T>(cells: seq<T>, s: nat, e: nat, value: T)
    requires e < s < |cells|
    ensures var e' := Next(e, |cells|);
            Live(cells[e := value], if e' == s then Next(s, |cells|) else s, e') ==
            Deque.PushBack(|cells| - 1, cells[s..] + cells[..e], value)
  {
    var cells' := cells[e := value];
    assert cells'[..e + 1] == cells[..e] + [value];
    assert cells'[s..] == cells[s..];
    if e + 1 == s {
      assert (cells[s..] + cells[..e])[1..] == cells[s + 1..] + cells[..e];
      assert cells'[s + 1..] == cells[s + 1..];
      if s + 1 == |cells| {
        assert cells'[0..e + 1] == cells'[..e + 1];
      }
    }
  }

  lemma LivePushFront<T>(cells: seq<T>, s: nat, e: nat, value: T)
    requires s < |cells| && e < |cells| && 2 <= |cells|
    ensures var s' := Previous(s, |cells|);
            Live(cells[s' := value], s', if s' == e then Previous(e, |cells|) else e) ==
            Deque.PushFront(|cells| - 1, Live(cells, s, e), value)
  {
    if s == 0 {
      PushFrontAtZero(cells, e, value);
    } else if s <= e {
      assert cells[s - 1 := value][s - 1..e] == [value] + cells[s..e];
    } else {
      PushFrontWrapped(cells, s, e, value);
    }
  }

  lemma PushFrontAtZero<T>(cells: seq<T>, e: nat, value: T)
    requires e < |cells| && 2 <= |cells|
    ensures var s' := |cells| - 1;
            Live(cells[s' := value], s', if s' == e then Previous(e, |cells|) else e) ==
            Deque.PushFront(|cells| - 1, Live(cells, 0, e), value)
  {
    var s' := |cells| - 1;
    var cells' := cells[s' := value];
    assert cells'[s'..] == [value];
    if e == s' {
      assert cells'[..e - 1] == cells[..e - 1];
      assert cells[0..e][..e - 1] == cells[..e - 1];
    } else {
      assert cells'[..e] == cells[0..e];
    }
  }

  lemma PushFrontWrapped<T>(cells: seq<T>, s: nat, e: nat, value: T)
    requires e < s < |cells| && 2 <= |cells|
    ensures var s' := s - 1;
            Live(cells[s' := value], s', if s' == e then Previous(e, |cells|) else e) ==
            Deque.PushFront(|cells| - 1, Live(cells, s, e), value)
  {
    hide Live, Deque.PushFront;
    if e < s - 1 {
      PushFrontRoomy(cells, s, e, value);
    } else if e > 0 {
      PushFrontFull(cells, s, value);
    } else {
      FullAtOne(cells, value);
    }
  }

  /** The live elements of a ring that wraps around. */
  lemma LiveWrapped<T>(cells: seq<T>, s: nat, e: nat)
    requires e < s < |cells|
    ensures Live(cells, s, e) == cells[s..] + cells[..e]
  {
  }

  lemma PushFrontParts<T>(cap: nat, value: T, tail: seq<T>, head: seq<T>)
    requires |tail| + |head| <= cap && cap > 0
    ensures |tail| + |head| < cap ==> Deque.PushFront(cap, tail + head, value) == [value] + tail + head
    ensures |tail| + |head| == cap && head != [] ==>
              Deque.PushFront(cap, tail + head, value) == [value] + tail + head[..|head| - 1]
  {
    if head != [] {
      DropLast(tail, head);
    }
  }

  lemma PushFrontRoomy<T>(cells: seq<T>, s: nat, e: nat, value: T)
    requires e + 1 < s < |cells|
    ensures Live(cells[s - 1 := value], s - 1, e) == Deque.PushFront(|cells| - 1, Live(cells, s, e), value)
  {
    hide Live, Deque.PushFront;
    var cells' := cells[s - 1 := value];
    assert cells'[s - 1..] == [value] + cells[s..];
    assert cells'[..e] == cells[..e];
    LiveWrapped(cells', s - 1, e);
    LiveWrapped(cells, s, e);
    PushFrontParts(|cells| - 1, value, cells[s..], cells[..e]);
  }

  lemma PushFrontFull<T>(cells: seq<T>, s: nat, value: T)
    requires 1 < s < |cells|
    ensures Live(cells[s - 1 := value], s - 1, s - 2) == Deque.PushFront(|cells| - 1, Live(cells, s, s - 1), value)
  {
    hide Live, Deque.PushFront;
    var cells' := cells[s - 1 := value];
    var tail, head := cells[s..], cells[..s - 1];
    assert cells'[s - 1..] == [value] + tail;
    assert cells'[..s - 2] == head[..s - 2];
    LiveWrapped(cells', s - 1, s - 2);
    LiveWrapped(cells, s, s - 1);
    PushFrontParts(|cells| - 1, value, tail, head);
  }

  lemma DropLast<T>(x: seq<T>, y: seq<T>)
    requires y != []
    ensures (x + y)[..|x + y| - 1] == x + y[..|y| - 1]
  {
  }

  /** A full ring that starts at index 1. */
  lemma FullAtOne<T>(cells: seq<T>, value: T)
    requires 2 <= |cells|
    ensures Live(cells[0 := value], 0, |cells| - 1) == Deque.PushFront(|cells| - 1, Live(cells, 1, 0), value)
  {
    var n := |cells|;
    assert cells[1..] + cells[..0] == cells[1..];
    assert cells[0 := value][0..n - 1] == [value] + cells[1..n - 1];
    assert cells[1..][..n - 2] == cells[1..n - 1];
  }

  lemma MaskedInside(x: nat, n: nat)
    requires IsRingSize(n)
    ensures Masked(x, n) < n
  {
    var k: nat :| 1 <= k <= 8 && n == Pow2(k);
    MaskedIsMod(x, n, k);
  }

  /** The masked steps of an index. */
  lemma MaskedSteps(i: nat, n: nat)
    requires IsRingSize(n) && i < n
    ensures n >= 2 && Masked(i + 1, n) == Next(i, n) < n && Masked(i - 1, n) == Previous(i, n) < n
  {
    RingSizeBounds(n);
    IndexWraps(i + 1, n);
    IndexWraps(i - 1, n);
  }

  class RingBuffer<T> {
    const buffer: array<T>
    const empty: T            // what popping an empty ring returns
    var startIndex: nat
    var endIndex: nat
    ghost var contents: seq<T>  // the deque this ring stands for

    ghost predicate Valid()
      reads this, buffer
    {
      && IsRingSize(buffer.Length) && startIndex < buffer.Length && endIndex < buffer.Length
      && |contents| < buffer.Length
      && contents == Live(buffer[..], startIndex, endIndex)
    }

    constructor (storage: array<T>, empty: T)
      requires IsRingSize(storage.Length)
      ensures buffer == storage && this.empty == empty
      ensures Valid() && contents == []
    {
      buffer, this.empty := storage, empty;
      startIndex, endIndex := 0, 0;
      contents := [];
      new;
      RingSizeBounds(storage.Length);
    }

    method Initialize()
      requires IsRingSize(buffer.Length)
      modifies this
      ensures Valid() && contents == []
    {
      RingSizeBounds(buffer.Length);
      startIndex, endIndex := 0, 0;
      contents := [];
    }

    /** The masked difference of the two indices is the number of live elements. */
    method Length() returns (n: nat)
      requires Valid()
      ensures n == |contents|
    {
      IndexWraps(endIndex - startIndex, buffer.Length);
      n := Masked(endIndex - startIndex, buffer.Length);
    }

    method PushBack(value: T)
      requires Valid()
      modifies this, buffer
      ensures Valid()
      ensures contents == Deque.PushBack(buffer.Length - 1, old(contents), value)
    {
      hide Live, Deque.PushBack, Masked, IsRingSize, Next, Previous;
      MaskedSteps(endIndex, buffer.Length);
      MaskedSteps(startIndex, buffer.Length);
      LivePushBack(buffer[..], startIndex, endIndex, value);
      ghost var cells := buffer[..][endIndex := value];
      buffer[endIndex] := value;
      assert buffer[..] == cells;
      endIndex := Masked(endIndex + 1, buffer.Length);
      if endIndex == startIndex {
        startIndex := Masked(startIndex + 1, buffer.Length);
      }
      contents := Deque.PushBack(buffer.Length - 1, contents, value);
    }

    method PushFront(value: T)
      requires Valid()
      modifies this, buffer
      ensures Valid()
      ensures contents == Deque.PushFront(buffer.Length - 1, old(contents), value)
    {
      hide Live, Deque.PushFront, Masked, IsRingSize, Next, Previous;
      MaskedSteps(endIndex, buffer.Length);
      MaskedSteps(startIndex, buffer.Length);
      LivePushFront(buffer[..], startIndex, endIndex, value);
      startIndex := Masked(startIndex - 1, buffer.Length);
      ghost var cells := buffer[..][startIndex := value];
      buffer[startIndex] := value;
      assert buffer[..] == cells;
      if startIndex == endIndex {
        endIndex := Masked(endIndex - 1, buffer.Length);
      }
      contents := Deque.PushFront(buffer.Length - 1, contents, value);
    }

    method PopBack() returns (value: T)
      requires Valid()
      modifies this
      ensures Valid()
      ensures old(contents) == [] ==> value == empty && contents == []
      ensures old(contents) != [] ==>
                var q := old(contents); value == q[|q| - 1] && contents == q[..|q| - 1]
    {
      if startIndex != endIndex {
        IndexWraps(endIndex - 1, buffer.Length);
        endIndex := Masked(endIndex - 1, buffer.Length);
        value := buffer[endIndex];
        contents := contents[..|contents| - 1];
      } else {
        value := empty;
      }
    }

    method PopFront() returns (value: T)
      requires Valid()
      modifies this
      ensures Valid()
      ensures old(contents) == [] ==> value == empty && contents == []
      ensures old(contents) != [] ==>
                value == old(contents)[0] && contents == old(contents)[1..]
    {
      if endIndex != startIndex {
        IndexWraps(startIndex + 1, buffer.Length);
        startIndex := Masked(startIndex + 1, buffer.Length);
        IndexWraps(startIndex - 1, buffer.Length);
        value := buffer[Masked(startIndex - 1, buffer.Length)];
        contents := contents[1..];
      } else {
        value := empty;
      }
    }

    /** Any 8-bit index reads some cell; an index inside the active length reads that element. */
    method Get(index: nat) returns (value: T)
      requires Valid() && index < 256
      ensures index < |contents| ==> value == contents[index]
    {
      hide Masked;
      MaskedInside(startIndex + index, buffer.Length);
      if index < |contents| {
        IndexWraps(startIndex + index, buffer.Length);
      }
      hide IsRingSize;
      value := buffer[Masked(startIndex + index, buffer.Length)];
    }

    /** Store at an index inside the active length. */
    method Overwrite(index: nat, value: T)
      requires Valid() && index < |contents|
      modifies this, buffer
      ensures Valid() && contents == old(contents)[index := value]
    {
      IndexWraps(startIndex + index, buffer.Length);
      buffer[Masked(startIndex + index, buffer.Length)] := value;
      contents := contents[index := value];
    }

    /** Index size - 1 is excluded: there the loop has no exit (Deque.SetLoopExits). */
    method Set(index: nat, value: T)
      requires Valid() && index < 256 && index != buffer.Length - 1
      modifies this, buffer
      ensures Valid()
      ensures index < |old(contents)| ==> contents == old(contents)[index := value]
      ensures |old(contents)| <= index < (buffer.Length - 1) ==>
                contents == old(contents) + Repeat(index + 1 - |old(contents)|, value)
      ensures index >= buffer.Length ==> contents == old(contents)
    {
      var length := Length();
      ghost var q0 := contents;
      if index >= length {
        if !(index >= buffer.Length) {
          while index >= length
            invariant Valid() && length == |contents| && |q0| <= length <= index + 1
            invariant contents == q0 + Repeat(length - |q0|, value)
            decreases index + 1 - length
          {
            assert Repeat(length - |q0|, value) + [value] == Repeat(length + 1 - |q0|, value);
            PushBack(value);
            length := Length();
          }
        }
      } else {
        Overwrite(index, value);
      }
    }
  }
}
