/** The flash memory behind lufa/Bootloaders/Printer/BootloaderAPI.c, which all three loaders use:
    page erase, word fill into the page buffer, page write. */
module Flash {
  import opened Common
  import opened Bits

  /** SPM_PAGESIZE and BOOT_START_ADDR are fixed when a loader is built. They stay arbitrary here:
      everything holds for every power of two up to 256 and every page boundary. */
  predicate IsPageSize(n: nat) { n in {2, 4, 8, 16, 32, 64, 128, 256} }

  type PageSize = n: nat | IsPageSize(n) witness 128

  const PAGE: PageSize

  type BootStart = n: nat | 0 < n < 0x100_0000 && n % PAGE == 0 witness PAGE

  const BOOT_START: BootStart

  /** The position of an address within its page. */
  function Rem(address: nat): (r: nat)
    ensures r < PAGE && r <= address
    decreases address
  {
    if address < PAGE then address else Rem(address - PAGE)
  }

  lemma {:induction false} RemIsMod(address: nat)
    ensures Rem(address) == address % PAGE
    decreases address
  {
    ModDown(address, PAGE);
    if address < PAGE {
    } else {
      RemIsMod(address - PAGE);
    }
  }

  /** Address & (SPM_PAGESIZE - 1) */
  function Offset(address: nat): nat { And(address, PAGE - 1) }

  /** Address & ~(SPM_PAGESIZE - 1) */
  function PageStart(address: nat): int { address - Offset(address) }

  lemma PageIsPow2() returns (k: nat)
    ensures 1 <= k <= 8 && PAGE == Pow2(k)
  {
    assert Pow2(1) == 2 && Pow2(2) == 4;
    assert Pow2(3) == 8 && Pow2(4) == 16;
    assert Pow2(5) == 32 && Pow2(6) == 64;
    assert Pow2(7) == 128 && Pow2(8) == 256;
    k := if PAGE == 2 then 1 else if PAGE == 4 then 2 else if PAGE == 8 then 3 else if PAGE == 16 then 4
         else if PAGE == 32 then 5 else if PAGE == 64 then 6 else if PAGE == 128 then 7 else 8;
  }

  lemma OffsetIsRem(address: nat)
    ensures Offset(address) == Rem(address)
  {
    var k := PageIsPow2();
    AndMaskIsMod(address, k);
    RemIsMod(address);
  }

  /** The page of an address, by its defining bounds. */
  lemma PageStartUnique(address: nat, q: nat, r: nat)
    requires Rem(q) == 0 && r < PAGE && address == q + r
    ensures Offset(address) == r && PageStart(address) == q
  {
    OffsetIsRem(address);
    AddPages(q, r);
  }

  lemma {:induction false} AddPages(base: nat, n: nat)
    requires Rem(base) == 0
    ensures Rem(base + n) == Rem(n)
    decreases base
  {
    if base == 0 {
    } else {
      assert base >= PAGE;
      AddPages(base - PAGE, n);
    }
  }

  lemma {:induction false} PagesApart(q: nat, b: nat)
    requires Rem(q) == 0 && Rem(b) == 0 && q < b
    ensures q + PAGE <= b
    decreases q
  {
    assert b >= PAGE;
    if q == 0 {
    } else {
      assert q >= PAGE;
      PagesApart(q - PAGE, b - PAGE);
    }
  }

  lemma PageFits(q: nat)
    requires Rem(q) == 0 && q < BOOT_START
    ensures q + PAGE <= BOOT_START
  {
    RemIsMod(BOOT_START);
    PagesApart(q, BOOT_START);
  }

  lemma EvenPage()
    ensures PAGE % 2 == 0 && PAGE >= 2
  {
  }

  lemma {:induction false} PageBelow(n: nat)
    ensures Rem(n - Rem(n)) == 0
    decreases n
  {
    if n < PAGE {
    } else {
      PageBelow(n - PAGE);
    }
  }

  // ----- The memory and the three operations -----

  /** cells: the flash; buffer: the page buffer, blank after reset and after every page write.
      Programming can only clear bits. */
  datatype Memory = Memory(cells: seq<byte>, buffer: seq<byte>)

  const BLANK: byte := 255

  function Blank(n: nat): (s: seq<byte>)
    ensures |s| == n && forall i :: 0 <= i < n ==> s[i] == BLANK
  {
    seq(n, i => BLANK)
  }

  ghost predicate ValidMemory(m: Memory) { BOOT_START <= |m.cells| && |m.buffer| == PAGE }

  datatype Op = Erase(address: nat) | Fill(address: nat, low: byte, high: byte) | Commit(address: nat)

  /** IsPageAddressValid */
  predicate PageAddressValid(address: nat) { address < BOOT_START && Offset(address) == 0 }

  function ProgramByte(cell: byte, b: byte): (r: byte)
  {
    AndByte(cell, b);
    And(cell, b)
  }

  lemma AndByte(a: nat, b: nat)
    ensures And(a, b) <= b
    decreases b
  {
    if a != 0 && b != 0 {
      AndByte(a / 2, b / 2);
    }
  }

  lemma ProgramErased(b: byte)
    ensures ProgramByte(BLANK, b) == b
  {
    hide And, Pow2;
    AndSymmetric(BLANK, b);
    Pow2Is16();
    AndMaskIsMod(b, 8);
  }

  lemma {:induction false} AndSymmetric(a: nat, b: nat)
    ensures And(a, b) == And(b, a)
    decreases b
  {
    if a != 0 && b != 0 {
      AndSymmetric(a / 2, b / 2);
    }
  }

  function Apply(m: Memory, op: Op): (m': Memory)
    requires ValidMemory(m)
    ensures ValidMemory(m') && |m'.cells| == |m.cells|
  {
    match op
    case Erase(a) =>
      if !PageAddressValid(a) then m
      else
        m.(cells := seq(|m.cells|, i requires 0 <= i < |m.cells| => if a <= i < a + PAGE then BLANK else m.cells[i]))
    case Fill(a, low, high) =>
      var o := Offset(a) - Offset(a) % 2;
      m.(buffer := seq(PAGE, i requires 0 <= i < PAGE =>
                         if i == o then low else if i == o + 1 then high else m.buffer[i]))
    case Commit(a) =>
      if !PageAddressValid(a) then m
      else
        Memory(seq(|m.cells|, i requires 0 <= i < |m.cells| =>
                     if a <= i < a + PAGE then ProgramByte(m.cells[i], m.buffer[i - a]) else m.cells[i]),
               Blank(PAGE))
  }

  function ApplyAll(m: Memory, ops: seq<Op>): (m': Memory)
    requires ValidMemory(m)
    ensures ValidMemory(m') && |m'.cells| == |m.cells|
    decreases |ops|
  {
    if ops == [] then m else Apply(ApplyAll(m, ops[..|ops| - 1]), ops[|ops| - 1])
  }

  lemma {:induction false} ApplyAppend(m: Memory, xs: seq<Op>, ys: seq<Op>)
    requires ValidMemory(m)
    ensures ApplyAll(m, xs + ys) == ApplyAll(ApplyAll(m, xs), ys)
    decreases |ys|
  {
    if ys == [] {
      assert xs + ys == xs;
    } else {
      assert (xs + ys)[..|xs + ys| - 1] == xs + ys[..|ys| - 1];
      hide Apply;
      ApplyAppend(m, xs, ys[..|ys| - 1]);
    }
  }

  lemma ApplySnoc(m: Memory, ops: seq<Op>, op: Op)
    requires ValidMemory(m)
    ensures ApplyAll(m, ops + [op]) == Apply(ApplyAll(m, ops), op)
  {
    hide Apply;
    assert (ops + [op])[..|ops|] == ops;
  }

  lemma ApplyOne(m: Memory, op: Op)
    requires ValidMemory(m)
    ensures ApplyAll(m, [op]) == Apply(m, op)
  {
    assert [op][..0] == [];
    assert ApplyAll(m, []) == m;
  }

  // ----- Programming an image page by page -----

  /** The first word of a page needs an erase, the last one is followed by the commit. */
  function EraseOps(base: nat, a: nat): seq<Op> {
    if Rem(a) == 0 then [Erase(base + a)] else []
  }

  function CommitOps(base: nat, n: nat): seq<Op>
    requires n >= 2
  {
    if Rem(n) == 0 && n >= PAGE then [Commit(base + n - PAGE)] else []
  }

  /** The operations that load the word at a. */
  function WordOps(base: nat, image: seq<byte>, a: nat): seq<Op>
    requires a + 2 <= |image|
  {
    EraseOps(base, a) + [Fill(base + a, image[a], image[a + 1])] + CommitOps(base, a + 2)
  }

  /** The operations that load the first n bytes (n even) of an image at a page boundary: a page is
      erased before its first word and committed after its last. */
  function ProgramOps(base: nat, image: seq<byte>, n: nat): seq<Op>
    requires n <= |image| && n % 2 == 0
  {
    if n == 0 then [] else ProgramOps(base, image, n - 2) + WordOps(base, image, n - 2)
  }

  /** Committing an unfinished last page. */
  function FinishOps(base: nat, n: nat): seq<Op> {
    if Rem(n) == 0 then [] else [Commit(base + n - Rem(n))]
  }

  /** What the buffer holds when the page at q is begun: the first one finds what was left in it, the
      others what a page write leaves. */
  function Leftover(m: Memory, q: nat): (b: seq<byte>)
    requires |m.buffer| == PAGE
    ensures |b| == PAGE
  {
    if q == 0 then m.buffer else Blank(PAGE)
  }

  /** The first q bytes of the image are in place, the bytes from q to n are buffered; if `open`, the
      page at q is erased. */
  function Loaded(m: Memory, base: nat, image: seq<byte>, q: nat, n: nat, open: bool): (x: Memory)
    requires q <= n <= |image| && |m.buffer| == PAGE
    ensures |x.cells| == |m.cells| && |x.buffer| == PAGE
  {
    var left := Leftover(m, q);
    Memory(seq(|m.cells|, i requires 0 <= i < |m.cells| =>
                 if base <= i < base + q then image[i - base]
                 else if open && base + q <= i < base + q + PAGE then BLANK
                 else m.cells[i]),
           seq(PAGE, i requires 0 <= i < PAGE => if q + i < n then image[q + i] else left[i]))
  }

  /** What fills up the last page of an image of n bytes, by the position from its start: a first page
      that is not full is filled up with what the buffer held before, all else is blank. */
  function Rest(m: Memory, n: nat): seq<byte> { if n < PAGE then m.buffer else [] }

  /** The image is in flash, its last page is filled up, nothing else has changed. */
  function Complete(m: Memory, base: nat, image: seq<byte>, end: nat): (x: Memory)
    ensures |x.cells| == |m.cells| && |x.buffer| == PAGE
  {
    var rest := Rest(m, |image|);
    Memory(seq(|m.cells|, i requires 0 <= i < |m.cells| =>
                 if base <= i < base + |image| then image[i - base]
                 else if base + |image| <= i < end then if i - base < |rest| then rest[i - base] else BLANK
                 else m.cells[i]),
           Blank(PAGE))
  }

  /** Exactly when the rest of the last page is blank: when the image has a whole page, or when the
      buffer was blank there. */
  lemma RestIsBlank(m: Memory, base: nat, image: seq<byte>)
    requires Loadable(m, base, image) && 0 < |image|
    ensures EndOf(base, |image|) <= |m.cells|
    ensures (forall i :: base + |image| <= i < EndOf(base, |image|) ==> Complete(m, base, image, EndOf(base, |image|)).cells[i] == BLANK)
            <==> |image| >= PAGE || forall k :: |image| <= k < PAGE ==> m.buffer[k] == BLANK
  {
    var n := |image|;
    var cells := Complete(m, base, image, EndOf(base, n)).cells;
    LastPageFits(base, n);
    if n < PAGE {
      assert EndOf(base, n) == base + PAGE;
      hide Rem, Complete;
      forall k | n <= k < PAGE
        ensures cells[base + k] == m.buffer[k]
      {
        RestAt(m, base, image, k);
      }
      assert forall i :: base + n <= i < base + PAGE ==> cells[i] == m.buffer[i - base];
    }
  }

  lemma RestAt(m: Memory, base: nat, image: seq<byte>, k: nat)
    requires ValidMemory(m) && |image| <= k < PAGE && base + PAGE <= |m.cells|
    ensures Complete(m, base, image, base + PAGE).cells[base + k] == m.buffer[k]
  {
  }

  lemma LastPageFits(base: nat, n: nat)
    requires Rem(base) == 0 && 0 < n && base + n <= BOOT_START
    ensures EndOf(base, n) <= BOOT_START
  {
    if Rem(n) > 0 {
      PageBelow(n);
      PageAt(base, n - Rem(n));
    }
  }

  /** An image of whole words at a page boundary below the boot section. */
  ghost predicate Loadable(m: Memory, base: nat, image: seq<byte>) {
    ValidMemory(m) && Rem(base) == 0 && base + |image| <= BOOT_START
  }

  lemma PageAt(base: nat, q: nat)
    requires Rem(base) == 0 && Rem(q) == 0 && base + q < BOOT_START
    ensures PageAddressValid(base + q) && base + q + PAGE <= BOOT_START
  {
    hide Rem, Offset;
    AddPages(base, q);
    PageStartUnique(base + q, base + q, 0);
    PageFits(base + q);
  }

  lemma ErasePage(m: Memory, base: nat, image: seq<byte>, q: nat)
    requires Loadable(m, base, image) && q < |image| && Rem(q) == 0
    ensures Apply(Loaded(m, base, image, q, q, false), Erase(base + q)) == Loaded(m, base, image, q, q, true)
  {
    hide Offset, PageAddressValid, Rem;
    PageAt(base, q);
    var x, y := Apply(Loaded(m, base, image, q, q, false), Erase(base + q)), Loaded(m, base, image, q, q, true);
    assert x.cells == y.cells && x.buffer == y.buffer;
  }

  lemma FillWord(m: Memory, base: nat, image: seq<byte>, q: nat, n: nat)
    requires Loadable(m, base, image) && q <= n && n + 2 <= |image| && Rem(q) == 0
    requires (n - q) % 2 == 0 && n - q + 2 <= PAGE
    ensures Apply(Loaded(m, base, image, q, n, true), Fill(base + n, image[n], image[n + 1])) ==
            Loaded(m, base, image, q, n + 2, true)
  {
    hide Offset, PageAddressValid, Rem;
    AddPages(base, q);
    PageStartUnique(base + n, base + q, n - q);
    var o := n - q;
    var x := Apply(Loaded(m, base, image, q, n, true), Fill(base + n, image[n], image[n + 1]));
    var y := Loaded(m, base, image, q, n + 2, true);
    assert x.cells == y.cells;
    FillBuffer(x.buffer, image, Leftover(m, q), q, o);
    FillBuffer(y.buffer, image, Leftover(m, q), q, o);
  }

  lemma FillBuffer(b: seq<byte>, image: seq<byte>, left: seq<byte>, q: nat, o: nat)
    requires |b| == |left| == PAGE && q + o + 2 <= |image|
    requires forall i :: 0 <= i < PAGE ==> b[i] == if i < o + 2 then image[q + i] else left[i]
    ensures b == seq<byte>(PAGE, i requires 0 <= i < PAGE => if i < o + 2 then image[q + i] else left[i])
  {
  }

  lemma CommitPage(m: Memory, base: nat, image: seq<byte>, q: nat, n: nat)
    requires Loadable(m, base, image) && q <= n <= |image| && q < |image| && Rem(q) == 0 && n - q <= PAGE
    ensures Apply(Loaded(m, base, image, q, n, true), Commit(base + q)) == Complete(m, base, image[..n], base + q + PAGE)
  {
    hide Offset, PageAddressValid, Rem, ProgramByte;
    PageAt(base, q);
    FirstOrLater(q);
    forall b: byte {
      ProgramErased(b);
    }
    var x := Apply(Loaded(m, base, image, q, n, true), Commit(base + q));
    var y := Complete(m, base, image[..n], base + q + PAGE);
    forall i | 0 <= i < |m.cells|
      ensures x.cells[i] == y.cells[i]
    {
    }
  }

  lemma FirstOrLater(q: nat)
    requires Rem(q) == 0
    ensures q == 0 || q >= PAGE
  {
  }

  lemma FullPageComplete(m: Memory, base: nat, image: seq<byte>, n: nat)
    requires 0 < n <= |image| && |m.buffer| == PAGE
    ensures Complete(m, base, image[..n], base + n) == Loaded(m, base, image, n, n, false)
  {
  }

  /** The memory in the middle of loading: whole pages in place, the open one erased and buffered. */
  function AfterBytes(m: Memory, base: nat, image: seq<byte>, n: nat): Memory
    requires n <= |image| && |m.buffer| == PAGE
  {
    Loaded(m, base, image, n - Rem(n), n, Rem(n) != 0)
  }

  /** Two bytes further: the remainder within the page. */
  lemma {:induction false} WordStep(a: nat)
    requires a % 2 == 0
    ensures Rem(a) % 2 == 0 && Rem(a) + 2 <= PAGE
    ensures Rem(a + 2) == if Rem(a) + 2 == PAGE then 0 else Rem(a) + 2
    ensures Rem(a - Rem(a)) == 0
    decreases a
  {
    EvenPage();
    if a < PAGE {
    } else {
      WordStep(a - PAGE);
    }
  }

  lemma OpenPage(m: Memory, base: nat, image: seq<byte>, a: nat)
    requires Loadable(m, base, image) && a % 2 == 0 && a + 2 <= |image|
    ensures ApplyAll(AfterBytes(m, base, image, a), EraseOps(base, a)) == Loaded(m, base, image, a - Rem(a), a, true)
  {
    hide Apply, Loaded;
    if Rem(a) == 0 {
      ErasePage(m, base, image, a);
      ApplyOne(AfterBytes(m, base, image, a), Erase(base + a));
    }
  }

  lemma CommitIf(m: Memory, base: nat, image: seq<byte>, q: nat, n: nat, when: bool)
    requires Loadable(m, base, image) && q < n <= |image| && Rem(q) == 0 && n - q <= PAGE
    ensures var x := Loaded(m, base, image, q, n, true);
            ApplyAll(x, if when then [Commit(base + q)] else []) ==
            if when then Complete(m, base, image[..n], base + q + PAGE) else x
  {
    var x := Loaded(m, base, image, q, n, true);
    CommitPage(m, base, image, q, n);
    ApplyOne(x, Commit(base + q));
    hide Apply, Loaded, Complete, Rem;
  }

  lemma ClosePage(m: Memory, base: nat, image: seq<byte>, a: nat)
    requires Loadable(m, base, image) && a % 2 == 0 && a + 2 <= |image|
    ensures ApplyAll(Loaded(m, base, image, a - Rem(a), a + 2, true), CommitOps(base, a + 2)) ==
            AfterBytes(m, base, image, a + 2)
  {
    hide Apply, ApplyAll, Loaded, Complete, Rem;
    WordStep(a);
    var q, n := a - Rem(a), a + 2;
    assert AfterBytes(m, base, image, n) == Loaded(m, base, image, n - Rem(n), n, Rem(n) != 0);
    assert CommitOps(base, n) == if Rem(n) == 0 then [Commit(base + q)] else [];
    assert Rem(n) == 0 ==> q + PAGE == n;
    hide *;
    CommitIf(m, base, image, q, n, Rem(n) == 0);
    FullPageComplete(m, base, image, n);
  }

  lemma LoadableIsValid(m: Memory, base: nat, image: seq<byte>)
    requires Loadable(m, base, image)
    ensures ValidMemory(m)
  {
  }

  lemma ProgramWord(m: Memory, base: nat, image: seq<byte>, a: nat)
    requires Loadable(m, base, image) && a % 2 == 0 && a + 2 <= |image|
    ensures ApplyAll(AfterBytes(m, base, image, a), WordOps(base, image, a)) == AfterBytes(m, base, image, a + 2)
  {
    hide Apply, ApplyAll, Loaded, Rem, EraseOps, CommitOps, Loadable;
    LoadableIsValid(m, base, image);
    WordStep(a);
    OpenPage(m, base, image, a);
    ClosePage(m, base, image, a);
    var q := a - Rem(a);
    FillWord(m, base, image, q, a);
    var m0 := AfterBytes(m, base, image, a);
    var fill := Fill(base + a, image[a], image[a + 1]);
    assert WordOps(base, image, a) == EraseOps(base, a) + [fill] + CommitOps(base, a + 2);
    assert ValidMemory(m0) && ValidMemory(Loaded(m, base, image, q, a, true));
    hide *;
    ApplyAppend(m0, EraseOps(base, a) + [fill], CommitOps(base, a + 2));
    ApplyAppend(m0, EraseOps(base, a), [fill]);
    ApplyOne(Loaded(m, base, image, q, a, true), fill);
  }

  lemma LoadedNone(m: Memory, base: nat, image: seq<byte>)
    requires |m.buffer| == PAGE
    ensures Loaded(m, base, image, 0, 0, false) == m
  {
    var x := Loaded(m, base, image, 0, 0, false);
    assert x.cells == m.cells && x.buffer == m.buffer;
  }

  /** Loading n bytes leaves exactly the described memory. */
  lemma {:induction false} ProgramOpsLoad(m: Memory, base: nat, image: seq<byte>, n: nat)
    requires Loadable(m, base, image) && n <= |image| && n % 2 == 0
    ensures ApplyAll(m, ProgramOps(base, image, n)) == AfterBytes(m, base, image, n)
    decreases n
  {
    hide Apply, Loaded, WordOps;
    if n == 0 {
      LoadedNone(m, base, image);
    } else {
      hide AfterBytes;
      var a := n - 2;
      ProgramOpsLoad(m, base, image, a);
      ProgramWord(m, base, image, a);
      ApplyAppend(m, ProgramOps(base, image, a), WordOps(base, image, a));
    }
  }

  /** Where the last page that holds a byte of the image ends. */
  function EndOf(base: nat, n: nat): nat { if Rem(n) == 0 then base + n else base + n - Rem(n) + PAGE }

  /** After committing the last page the image is in flash, its last page is filled up and nothing
      else has changed, whatever the page buffer held before. */
  lemma ProgramOpsComplete(m: Memory, base: nat, image: seq<byte>)
    requires Loadable(m, base, image) && |image| % 2 == 0 && image != []
    ensures ApplyAll(m, ProgramOps(base, image, |image|) + FinishOps(base, |image|)) ==
            Complete(m, base, image, EndOf(base, |image|))
  {
    var n := |image|;
    ProgramOpsLoad(m, base, image, n);
    FinishPage(m, base, image);
    hide Apply, AfterBytes, Complete;
    ApplyAppend(m, ProgramOps(base, image, n), FinishOps(base, n));
  }

  lemma FinishPage(m: Memory, base: nat, image: seq<byte>)
    requires Loadable(m, base, image) && |image| % 2 == 0 && image != []
    ensures ApplyAll(AfterBytes(m, base, image, |image|), FinishOps(base, |image|)) ==
            Complete(m, base, image, EndOf(base, |image|))
  {
    hide Apply, Loaded, Complete, Rem;
    var n := |image|;
    assert image[..n] == image;
    PageBelow(n);
    if Rem(n) == 0 {
      assert AfterBytes(m, base, image, n) == Loaded(m, base, image, n, n, false);
      assert FinishOps(base, n) == [] && EndOf(base, n) == base + n;
      assert ApplyAll(Loaded(m, base, image, n, n, false), []) == Loaded(m, base, image, n, n, false);
      hide *;
      FullPageComplete(m, base, image, n);
    } else {
      assert AfterBytes(m, base, image, n) == Loaded(m, base, image, n - Rem(n), n, true);
      assert FinishOps(base, n) == [Commit(base + n - Rem(n))] && EndOf(base, n) == base + n - Rem(n) + PAGE;
      hide *;
      CommitIf(m, base, image, n - Rem(n), n, true);
    }
  }

  // ----- The order of the operations -----

  /** Which page is open, and where the next one starts. */
  datatype Phase = Closed(next: nat) | Open(page: nat) | Wrong

  /** A page is opened by its erase, filled only while it is open, and closed by its commit; pages
      come in ascending order, so each is erased once and committed once. */
  function NextPhase(before: Phase, op: Op): Phase {
    match op
    case Erase(a) => if before == Closed(a) then Open(a) else Wrong
    case Fill(a, _, _) => if before.Open? && before.page <= a < before.page + PAGE then before else Wrong
    case Commit(a) => if before == Open(a) then Closed(a + PAGE) else Wrong
  }

  function PhaseAfter(base: nat, ops: seq<Op>): Phase
    decreases |ops|
  {
    if ops == [] then Closed(base) else NextPhase(PhaseAfter(base, ops[..|ops| - 1]), ops[|ops| - 1])
  }

  lemma PhaseIf(base: nat, ops: seq<Op>, op: Op, when: bool)
    ensures PhaseAfter(base, ops + if when then [op] else []) ==
            if when then NextPhase(PhaseAfter(base, ops), op) else PhaseAfter(base, ops)
  {
    if when {
      assert (ops + [op])[..|ops|] == ops;
    } else {
      assert ops + [] == ops;
    }
  }

  /** Where n loaded bytes leave the pages: closed at a boundary, else open. */
  function PhaseAt(base: nat, n: nat): Phase {
    if Rem(n) == 0 then Closed(base + n) else Open(base + n - Rem(n))
  }

  lemma {:induction false} ProgramOpsInOrder(base: nat, image: seq<byte>, n: nat)
    requires n <= |image| && n % 2 == 0
    ensures PhaseAfter(base, ProgramOps(base, image, n)) == PhaseAt(base, n)
    decreases n
  {
    if n == 0 {
    } else {
      hide WordOps, PhaseAt, PhaseAfter;
      ProgramOpsInOrder(base, image, n - 2);
      WordInOrder(base, ProgramOps(base, image, n - 2), image, n - 2);
    }
  }

  lemma WordPhases(base: nat, a: nat, low: byte, high: byte)
    requires a % 2 == 0
    ensures var p0 := PhaseAt(base, a);
            var p1 := if Rem(a) == 0 then NextPhase(p0, Erase(base + a)) else p0;
            var p2 := NextPhase(p1, Fill(base + a, low, high));
            var p3 := if Rem(a + 2) == 0 then NextPhase(p2, Commit(base + a - Rem(a))) else p2;
            p3 == PhaseAt(base, a + 2)
  {
    WordStep(a);
    hide Rem;
  }

  lemma Regroup<T>(a: seq<T>, b: seq<T>, c: seq<T>, d: seq<T>)
    ensures a + (b + c + d) == a + b + c + d
  {
  }

  lemma WordInOrder(base: nat, ops: seq<Op>, image: seq<byte>, a: nat)
    requires a % 2 == 0 && a + 2 <= |image| && PhaseAfter(base, ops) == PhaseAt(base, a)
    ensures PhaseAfter(base, ops + WordOps(base, image, a)) == PhaseAt(base, a + 2)
  {
    var e, c := EraseOps(base, a), CommitOps(base, a + 2);
    var fill := Fill(base + a, image[a], image[a + 1]);
    WordOpsParts(base, image, a);
    WordPhases(base, a, image[a], image[a + 1]);
    hide *;
    Regroup(ops, e, [fill], c);
    PhaseIf(base, ops, Erase(base + a), Rem(a) == 0);
    PhaseIf(base, ops + e, fill, true);
    PhaseIf(base, ops + e + [fill], Commit(base + a - Rem(a)), Rem(a + 2) == 0);
  }

  lemma WordOpsParts(base: nat, image: seq<byte>, a: nat)
    requires a % 2 == 0 && a + 2 <= |image|
    ensures WordOps(base, image, a) ==
            EraseOps(base, a) + [Fill(base + a, image[a], image[a + 1])] + CommitOps(base, a + 2)
    ensures EraseOps(base, a) == if Rem(a) == 0 then [Erase(base + a)] else []
    ensures CommitOps(base, a + 2) == if Rem(a + 2) == 0 then [Commit(base + a - Rem(a))] else []
  {
    WordStep(a);
    hide Rem;
  }

  // ----- What no operation changes -----

  /** No sequence of operations changes a cell of the boot section. */
  lemma {:induction false} BootSectionKept(m: Memory, ops: seq<Op>)
    requires ValidMemory(m)
    ensures forall i :: BOOT_START <= i < |m.cells| ==> ApplyAll(m, ops).cells[i] == m.cells[i]
    decreases |ops|
  {
    hide Apply;
    if ops == [] {
    } else {
      BootSectionKept(m, ops[..|ops| - 1]);
      OpKeepsBootSection(ApplyAll(m, ops[..|ops| - 1]), ops[|ops| - 1]);
    }
  }

  lemma OpKeepsBootSection(m: Memory, op: Op)
    requires ValidMemory(m)
    ensures forall i :: BOOT_START <= i < |m.cells| ==> Apply(m, op).cells[i] == m.cells[i]
  {
    if op.Fill? || !PageAddressValid(op.address) {
    } else {
      OffsetIsRem(op.address);
      PageFits(op.address);
      hide Rem, Offset, ProgramByte;
    }
  }

  /** Operations that reach no cell: fills, and erases and commits at addresses that are ignored. */
  predicate IsIdle(op: Op) { op.Fill? || !PageAddressValid(op.address) }

  predicate AreIdle(ops: seq<Op>) { forall k :: 0 <= k < |ops| ==> IsIdle(ops[k]) }

  lemma IdleAppend(x: seq<Op>, y: seq<Op>)
    requires AreIdle(x) && AreIdle(y)
    ensures AreIdle(x + y)
  {
    hide IsIdle;
  }

  lemma {:induction false} IdleOpsKeepCells(m: Memory, ops: seq<Op>)
    requires ValidMemory(m) && AreIdle(ops)
    ensures ApplyAll(m, ops).cells == m.cells
    decreases |ops|
  {
    hide PageAddressValid, Offset;
    if ops == [] {
    } else {
      IdleOpsKeepCells(m, ops[..|ops| - 1]);
      assert IsIdle(ops[|ops| - 1]);
    }
  }

  lemma OffPage(base: nat, a: nat)
    requires Rem(base) != 0 && Rem(a) == 0
    ensures !PageAddressValid(base + a)
  {
    AddPages(a, base);
    OffsetIsRem(base + a);
  }

  lemma WordIsIdle(base: nat, image: seq<byte>, a: nat)
    requires Rem(base) != 0 && a % 2 == 0 && a + 2 <= |image|
    ensures AreIdle(WordOps(base, image, a))
  {
    WordStep(a);
    WordOpsParts(base, image, a);
    hide Rem, PageAddressValid;
    OffPage(base, a - Rem(a));
  }

  lemma {:induction false} ProgramOpsAreIdle(base: nat, image: seq<byte>, n: nat)
    requires Rem(base) != 0 && n <= |image| && n % 2 == 0
    ensures AreIdle(ProgramOps(base, image, n))
    decreases n
  {
    hide Rem, WordOps, IsIdle;
    if n == 0 {
    } else {
      hide AreIdle;
      ProgramOpsAreIdle(base, image, n - 2);
      WordIsIdle(base, image, n - 2);
      IdleAppend(ProgramOps(base, image, n - 2), WordOps(base, image, n - 2));
    }
  }

  lemma FinishIsIdle(base: nat, n: nat)
    requires Rem(base) != 0
    ensures AreIdle(FinishOps(base, n))
  {
    hide Rem, PageAddressValid;
    PageBelow(n);
    OffPage(base, n - Rem(n));
  }

  /** Loading at an address off a page boundary writes no cell at all. */
  lemma UnalignedWritesNothing(m: Memory, base: nat, image: seq<byte>)
    requires ValidMemory(m) && Rem(base) != 0 && |image| % 2 == 0
    ensures ApplyAll(m, ProgramOps(base, image, |image|) + FinishOps(base, |image|)).cells == m.cells
  {
    hide Rem, ProgramOps, AreIdle, ApplyAll;
    var n := |image|;
    ProgramOpsAreIdle(base, image, n);
    FinishIsIdle(base, n);
    IdleAppend(ProgramOps(base, image, n), FinishOps(base, n));
    IdleOpsKeepCells(m, ProgramOps(base, image, n) + FinishOps(base, n));
  }

  // ----- Erasing the whole application section -----

  /** Erasing the application section, page by page from the given address. */
  function EraseFrom(address: nat): seq<Op>
    decreases if address < BOOT_START then BOOT_START - address else 0
  {
    if address >= BOOT_START then [] else [Erase(address)] + EraseFrom(address + PAGE)
  }

  const CHIP_ERASE: seq<Op> := EraseFrom(0)

  lemma EraseFromCases(ops: seq<Op>, address: nat)
    ensures ops + EraseFrom(address) ==
            if address >= BOOT_START then ops else ops + [Erase(address)] + EraseFrom(address + PAGE)
    ensures EraseFrom(0) == CHIP_ERASE && [] + CHIP_ERASE == CHIP_ERASE
  {
  }

  /** The chip erase leaves nothing of the old application. */
  lemma ChipEraseBlanks(m: Memory)
    requires ValidMemory(m)
    ensures forall i :: 0 <= i < BOOT_START ==> ApplyAll(m, CHIP_ERASE).cells[i] == BLANK
  {
    var first: nat := 0;
    assert CHIP_ERASE == EraseFrom(first);
    EraseFromBlanks(m, first);
  }

  lemma EraseOne(m: Memory, address: nat)
    requires ValidMemory(m) && Rem(address) == 0 && address < BOOT_START
    ensures Rem(address + PAGE) == 0
    ensures var cells := Apply(m, Erase(address)).cells;
            forall i :: 0 <= i < |m.cells| ==> cells[i] == if address <= i < address + PAGE then BLANK else m.cells[i]
  {
    hide Offset, Rem;
    PageFits(address);
    NextPage(address);
    PageStartUnique(address, address, 0);
  }

  lemma NextPage(address: nat)
    requires Rem(address) == 0
    ensures Rem(address + PAGE) == 0
  {
    AddPages(address, PAGE);
  }

  lemma EraseFromStep(m: Memory, address: nat)
    requires ValidMemory(m) && address < BOOT_START
    ensures ApplyAll(m, EraseFrom(address)) == ApplyAll(Apply(m, Erase(address)), EraseFrom(address + PAGE))
  {
    hide ApplyAll, Apply;
    ApplyAppend(m, [Erase(address)], EraseFrom(address + PAGE));
    ApplyOne(m, Erase(address));
  }

  lemma {:induction false} EraseFromBlanks(m: Memory, address: nat)
    requires ValidMemory(m) && Rem(address) == 0
    ensures var cells := ApplyAll(m, EraseFrom(address)).cells;
            (forall i :: address <= i < BOOT_START ==> cells[i] == BLANK) &&
            (forall i :: 0 <= i < address && i < |m.cells| ==> cells[i] == m.cells[i])
    decreases if address < BOOT_START then BOOT_START - address else 0
  {
    hide Apply, Rem;
    if address >= BOOT_START {
    } else {
      hide ApplyAll, EraseFrom;
      EraseFromStep(m, address);
      EraseOne(m, address);
      EraseFromBlanks(Apply(m, Erase(address)), address + PAGE);
    }
  }

  // ----- Streams and reads -----

  function Take(stream: nat -> byte, n: nat): (s: seq<byte>)
    ensures |s| == n
  {
    seq(n, i requires 0 <= i < n => stream(i))
  }

  lemma TakeAt(stream: nat -> byte, n: nat, i: nat)
    requires i < n
    ensures Take(stream, n)[i] == stream(i) && (i + 1 < n ==> Take(stream, n)[i + 1] == stream(i + 1))
  {
  }

  function CellAt(cells: seq<byte>, address: nat): byte {
    if address < |cells| then cells[address] else BLANK
  }

  function FlashBytes(cells: seq<byte>, address: nat, n: nat): (s: seq<byte>)
    ensures |s| == n
  {
    seq<byte>(n, i requires 0 <= i < n => CellAt(cells, address + i))
  }

  lemma FlashSlice(cells: seq<byte>, address: nat, n: nat)
    requires address + n <= |cells|
    ensures FlashBytes(cells, address, n) == cells[address..address + n]
  {
    var s := FlashBytes(cells, address, n);
    forall i | 0 <= i < n
      ensures s[i] == cells[address + i]
    {
      assert s[i] == CellAt(cells, address + i);
    }
  }
}

/** The device as the loaders see it. */
module BootloaderAPI {
  import opened Common
  import opened Bits
  import opened Flash

  class FlashDevice {
    var memory: Memory
    ghost const initial: Memory
    ghost var ops: seq<Op>      // every call made so far

    ghost predicate Valid()
      reads this
    {
      ValidMemory(initial) && ValidMemory(memory) && memory == ApplyAll(initial, ops)
    }

    constructor (cells: seq<byte>)
      requires BOOT_START <= |cells|
      ensures Valid() && initial == memory == Memory(cells, Blank(PAGE)) && ops == []
    {
      memory, initial, ops := Memory(cells, Blank(PAGE)), Memory(cells, Blank(PAGE)), [];
    }

    /** IsPageAddressValid: aligned to a page and below the boot section. */
    method IsPageAddressValid(address: nat) returns (valid: bool)
      ensures valid == PageAddressValid(address) == IsPage(address)
    {
      OffsetIsRem(address);
      RemIsMod(address);
      var aligned := And(address, PAGE - 1) == 0;
      valid := address < BOOT_START && aligned;
    }

    /** BootloaderAPI_ErasePage: the cells of a valid page are blank, all others are kept; any other
        address is ignored. */
    method ErasePage(address: nat)
      requires Valid()
      modifies this
      ensures Valid() && memory == Apply(old(memory), Erase(address)) && ops == old(ops) + [Erase(address)]
      ensures memory.buffer == old(memory.buffer) && |memory.cells| == |old(memory.cells)|
      ensures forall i :: 0 <= i < |memory.cells| ==>
                memory.cells[i] == if IsPage(address) && address <= i < address + PAGE then BLANK else old(memory.cells)[i]
    {
      hide And, Rem, ApplyAll;
      var valid := IsPageAddressValid(address);
      ghost var before := memory;
      ApplySnoc(initial, ops, Erase(address));
      ops := ops + [Erase(address)];
      if valid {
        PageEnds(address);
        memory := Memory(memory.cells[..address] + Blank(PAGE) + memory.cells[address + PAGE..], memory.buffer);
        assert memory.cells == Apply(before, Erase(address)).cells;
      }
    }

    /** BootloaderAPI_WritePage: the cells of a valid page take the bits the buffer clears (a blank cell
        takes the buffered byte), all others are kept, and the buffer is blank; any other address is
        ignored. */
    method WritePage(address: nat)
      requires Valid()
      modifies this
      ensures Valid() && memory == Apply(old(memory), Commit(address)) && ops == old(ops) + [Commit(address)]
      ensures memory.buffer == if IsPage(address) then Blank(PAGE) else old(memory.buffer)
      ensures |memory.cells| == |old(memory.cells)|
      ensures forall i :: 0 <= i < |memory.cells| ==>
                if IsPage(address) && address <= i < address + PAGE
                then old(memory.cells)[i] == BLANK ==> memory.cells[i] == old(memory.buffer)[i - address]
                else memory.cells[i] == old(memory.cells)[i]
    {
      hide And, Rem, ProgramByte, ApplyAll;
      var valid := IsPageAddressValid(address);
      ghost var before := memory;
      ApplySnoc(initial, ops, Commit(address));
      ops := ops + [Commit(address)];
      if valid {
        PageEnds(address);
        var cells, buffer := memory.cells, memory.buffer;
        for k := 0 to PAGE
          invariant |cells| == |before.cells|
          invariant forall i :: 0 <= i < |cells| ==>
                      cells[i] == if address <= i < address + k then ProgramByte(before.cells[i], buffer[i - address])
                                  else before.cells[i]
        {
          cells := cells[address + k := ProgramByte(cells[address + k], buffer[k])];
        }
        memory := Memory(cells, Blank(PAGE));
        assert memory.cells == Apply(before, Commit(address)).cells;
        forall b: byte {
          ProgramErased(b);
        }
      }
    }

    /** BootloaderAPI_FillWord: the word replaces the one at its place in the page buffer; flash is
        untouched. */
    method FillWord(address: nat, low: byte, high: byte)
      requires Valid()
      modifies this
      ensures Valid() && memory == Apply(old(memory), Fill(address, low, high))
      ensures ops == old(ops) + [Fill(address, low, high)]
      ensures memory.cells == old(memory.cells) && |memory.buffer| == PAGE
      ensures forall k :: 0 <= k < PAGE ==>
                memory.buffer[k] ==
                if k == WordPlace(address) then low else if k == WordPlace(address) + 1 then high else old(memory.buffer)[k]
    {
      hide And, Rem, ApplyAll;
      OffsetIsRem(address);
      ghost var before := memory;
      ApplySnoc(initial, ops, Fill(address, low, high));
      ops := ops + [Fill(address, low, high)];
      var o := And(address, PAGE - 1);
      o := o - o % 2;
      memory := Memory(memory.cells, memory.buffer[o := low][o + 1 := high]);
      assert memory.buffer == Apply(before, Fill(address, low, high)).buffer;
    }
  }

  /** Where the word of an address is in the page buffer. */
  function WordPlace(address: nat): (o: nat)
    ensures o % 2 == 0 && o + 1 < PAGE
  {
    EvenPage();
    2 * (Rem(address) / 2)
  }

  /** A page of the application section. */
  predicate IsPage(address: nat) { address < BOOT_START && address % PAGE == 0 }

  lemma PageEnds(address: nat)
    requires IsPage(address)
    ensures address + PAGE <= BOOT_START
  {
    RemIsMod(address);
    PageFits(address);
  }
}
