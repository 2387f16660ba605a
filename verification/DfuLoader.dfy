/** lufa/Bootloaders/DFU/BootloaderDFU.c: the DFU class loader as a machine over USB control requests. */
module DfuMachine {
  import opened Common
  import opened Flash
  import Eeprom

  datatype DfuState = Idle | DownloadIdle | UploadIdle | Error

  datatype Status = OK | ErrWrite | ErrCheckErased | ErrAddress

  /** SentCommand: the command byte, its five parameter bytes, the data bytes still to come. */
  datatype SentCommand = SentCommand(command: byte, data: seq<byte>, dataSize: nat)

  /** Everything the loader does to, or reveals of, the device's memories. */
  datatype Effect = FlashOp(op: Op) | EepromWrite(address: nat, value: byte) | Uploaded(bytes: seq<byte>)

  datatype Dfu = Dfu(
    isSecure: bool, running: bool, waitForExit: bool, state: DfuState, status: Status, sent: SentCommand,
    response: byte, page64: byte, start: nat, end: nat, memory: Memory, eeprom: seq<byte>, effects: seq<Effect>)

  const PROG_START: byte := 0x01
  const DISP_DATA: byte := 0x03
  const WRITE: byte := 0x04
  const READ: byte := 0x05
  const CHANGE_BASE: byte := 0x06

  const BOOTLOADER_INFO: seq<byte> := [0x20, 0xDC, 0xFB]

  /** The device signature, whatever it is. */
  const SIGNATURE: (byte, byte, byte)

  /** A control request of the DFU class. A download carries `first`, the bytes of its first packet,
      and `firmware`, the byte stream the host supplies after the filler for as long as it is asked. */
  datatype Request =
    | Download(wLength: nat, first: seq<byte>, firmware: nat -> byte)
    | Upload(wLength: nat) | GetStatus(wLength: nat) | ClearStatus(wLength: nat) | GetState(wLength: nat)
    | Abort(wLength: nat) | Other(wLength: nat)

  ghost predicate Ok(d: Dfu) {
    && ValidMemory(d.memory) && |d.sent.data| == 5 && |d.eeprom| == 0x10000
    && d.start < 0x10000 && d.end < 0x10000
  }

  function FlashEffects(ops: seq<Op>): seq<Effect> { seq(|ops|, i requires 0 <= i < |ops| => FlashOp(ops[i])) }

  function DoOps(d: Dfu, ops: seq<Op>): (d': Dfu)
    requires Ok(d)
    ensures Ok(d')
  {
    d.(memory := ApplyAll(d.memory, ops), effects := d.effects + FlashEffects(ops))
  }

  /** {.Words = {StartAddr, Flash64KBPage}} */
  function FlashAddress(d: Dfu): nat { d.start + 0x10000 * d.page64 }

  /** LoadStartEndAddresses: the high bytes come first. */
  function LoadAddresses(d: Dfu): (d': Dfu)
    requires Ok(d)
    ensures Ok(d')
  {
    d.(start := Word(d.sent.data[1], d.sent.data[2]), end := Word(d.sent.data[3], d.sent.data[4]))
  }

  /** ProcessMemProgCommand */
  function MemProg(d: Dfu): (d': Dfu)
    requires Ok(d)
    ensures Ok(d')
  {
    if d.sent.data[0] == 0x00 || d.sent.data[0] == 0x01 then
      var d1 := LoadAddresses(d);
      var d2 := if d.sent.data[0] == 0x00 then DoOps(d1, [Erase(FlashAddress(d1))]) else d1;
      d2.(state := DownloadIdle)
    else d
  }

  /** The address of the first byte of the application section that is not blank. */
  function FirstUsed(cells: seq<byte>, address: nat): Option<nat>
    requires BOOT_START <= |cells|
    decreases if address < BOOT_START then BOOT_START - address else 0
  {
    if address >= BOOT_START then None
    else if cells[address] != BLANK then Some(address)
    else FirstUsed(cells, address + 1)
  }

  /** ProcessMemReadCommand */
  function MemRead(d: Dfu): (d': Dfu)
    requires Ok(d)
    ensures Ok(d')
  {
    if d.sent.data[0] == 0x00 || d.sent.data[0] == 0x02 then LoadAddresses(d).(state := UploadIdle)
    else if d.sent.data[0] == 0x01 then
      var used := FirstUsed(d.memory.cells, 0);
      if used.None? then d
      else d.(page64 := used.value / 0x10000 % 256, start := used.value % 0x10000, state := Error, status := ErrCheckErased)
    else d
  }

  /** ProcessWriteCommand */
  function WriteCommand(d: Dfu): (d': Dfu)
    requires Ok(d)
    ensures Ok(d')
  {
    if d.sent.data[0] == 0x03 then
      var d1 := d.(waitForExit := true);
      if d.sent.dataSize == 0 && d.sent.data[1] != 0x00 && d.memory.cells[0] == BLANK && d.memory.cells[1] == BLANK
      then d1.(running := false) else d1
    else if d.sent.data[0] == 0x00 && d.sent.data[1] == 0xFF then DoOps(d, CHIP_ERASE).(isSecure := false)
    else d
  }

  /** ProcessReadCommand */
  function ReadCommand(d: Dfu): (d': Dfu)
    requires Ok(d)
    ensures Ok(d')
  {
    var i := d.sent.data[1];
    if d.sent.data[0] == 0x00 then
      if i < 3 then d.(response := BOOTLOADER_INFO[i]) else d.(state := Error, status := ErrAddress)
    else if d.sent.data[0] == 0x01 then
      if i == 0x30 then d.(response := 0x58)
      else if i == 0x31 then d.(response := SIGNATURE.0)
      else if i == 0x60 then d.(response := SIGNATURE.1)
      else if i == 0x61 then d.(response := SIGNATURE.2)
      else d.(state := Error, status := ErrAddress)
    else d
  }

  /** In secure mode only a chip erase and reads of the loader's own data get through. */
  predicate Permitted(d: Dfu)
    requires |d.sent.data| == 5
  {
    !d.isSecure
    || (d.sent.command == WRITE && d.sent.data[0] == 0x00 && d.sent.data[1] == 0xFF)
    || d.sent.command == READ
  }

  /** ProcessBootloaderCommand */
  function ProcessCommand(d: Dfu): (d': Dfu)
    requires Ok(d)
    ensures Ok(d')
  {
    if !Permitted(d) then d.(state := Error, status := ErrWrite)
    else if d.sent.command == PROG_START then MemProg(d)
    else if d.sent.command == DISP_DATA then MemRead(d)
    else if d.sent.command == WRITE then WriteCommand(d)
    else if d.sent.command == READ then ReadCommand(d)
    else if d.sent.command == CHANGE_BASE && d.sent.data[0] == 0x03 && d.sent.data[1] == 0x00 then
      d.(page64 := d.sent.data[2])
    else d
  }

  /** The parameters the first packet carries overwrite the old ones. */
  function LoadCommand(d: Dfu, first: seq<byte>): (d': Dfu)
    requires Ok(d)
    ensures Ok(d')
  {
    var n := if |first| > 6 then 5 else if |first| > 0 then |first| - 1 else 0;
    var data := seq(5, i requires 0 <= i < 5 => if i < n then first[1 + i] else d.sent.data[i]);
    d.(sent := SentCommand(if |first| > 0 then first[0] else 0, data, (d.sent.dataSize - 1 - n) % 0x10000))
  }

  /** The program loop: fill, and at the end of a page or of the data commit, then erase the next. */
  function WriteLoop(address: nat, pageStart: nat, words: nat, data: seq<byte>): seq<Op>
    decreases |data|
  {
    if |data| < 2 then []
    else
      var fill := [Fill(address, data[0], data[1])];
      var rest := data[2..];
      if (words + 1) % 256 == PAGE / 2 || |rest| < 2 then
        fill + [Commit(pageStart)] +
        (if |rest| < 2 then [] else [Erase(address + 2)] + WriteLoop(address + 2, address + 2, 0, rest))
      else fill + WriteLoop(address + 2, pageStart, (words + 1) % 256, rest)
  }

  /** (EndAddr - StartAddr) + 1 in 16 bits */
  function BytesRemaining(d: Dfu): nat { (d.end - d.start + 1) % 0x10000 }

  /** Writes of an EEPROM range; the 16-bit address counter wraps. */
  function WriteEeprom(d: Dfu, data: seq<byte>): (d': Dfu)
    requires Ok(d)
    ensures Ok(d')
    decreases |data|
  {
    if data == [] then d
    else
      WriteEeprom(d.(eeprom := d.eeprom[d.start := data[0]], effects := d.effects + [EepromWrite(d.start, data[0])],
                     start := (d.start + 1) % 0x10000), data[1..])
  }

  /** The data part of a download. */
  function WriteData(d: Dfu, firmware: nat -> byte): (d': Dfu)
    requires Ok(d)
    ensures Ok(d')
  {
    if d.sent.dataSize == 0 then d.(state := Idle)
    else
      var n := BytesRemaining(d);
      if d.sent.data[0] == 0x00 then
        DoOps(d, WriteLoop(FlashAddress(d), FlashAddress(d), 0, Take(firmware, 2 * (n / 2)))).(start := d.end)
      else WriteEeprom(d, Take(firmware, n))
  }

  /** The reply to an upload and the new state. */
  function UploadData(d: Dfu): (r: (Dfu, seq<byte>))
    requires Ok(d)
    ensures Ok(r.0)
  {
    if d.state != UploadIdle then
      if d.state == Error && d.sent.data[0] == 0x01 then
        var low: byte := d.start % 256;
        var high: byte := d.start / 256;
        (d, [low, high])
      else (d, [d.response])
    else
      var n := BytesRemaining(d);
      if d.sent.data[0] == 0x00 then
        var bytes := FlashBytes(d.memory.cells, FlashAddress(d), 2 * (n / 2));
        (d.(start := d.end, state := Idle, effects := d.effects + [Uploaded(bytes)]), bytes)
      else if d.sent.data[0] == 0x02 then
        var bytes: seq<byte> := Eeprom.Bytes(d.eeprom, d.start, n);
        (d.(start := (d.start + n) % 0x10000, state := Idle, effects := d.effects + [Uploaded(bytes)]), bytes)
      else (d.(state := Idle), [])
  }

  /** Every request first loads its length. */
  function Sized(d: Dfu, wLength: nat): (d': Dfu)
    requires Ok(d)
    ensures Ok(d')
  {
    d.(sent := d.sent.(dataSize := wLength))
  }

  /** DNLOAD, up to its data part: a pending exit first runs the previous command again. */
  function DownloadCommand(d: Dfu, first: seq<byte>): (d': Dfu)
    requires Ok(d)
    ensures Ok(d')
  {
    var d1 := if d.waitForExit then ProcessCommand(d).(waitForExit := false) else d;
    if d1.sent.dataSize != 0 then ProcessCommand(LoadCommand(d1, first)) else d1
  }

  /** EVENT_USB_Device_ControlRequest */
  function Step(d: Dfu, r: Request): (d': Dfu)
    requires Ok(d)
    ensures Ok(d')
  {
    var d0 := Sized(d, r.wLength);
    match r
    case Download(wLength, first, firmware) =>
      var d1 := DownloadCommand(d0, first);
      if d1.state == DownloadIdle then WriteData(d1, firmware) else d1
    case Upload(_) => UploadData(d0).0
    case ClearStatus(_) => d0.(status := OK)
    case Abort(_) => d0.(state := Idle)
    case _ => d0
  }

  /** The byte values the DFU class gives to states and status codes. */
  function StateCode(state: DfuState): byte {
    match state
    case Idle => 2
    case DownloadIdle => 5
    case UploadIdle => 9
    case Error => 10
  }

  function StatusCode(status: Status): byte {
    match status
    case OK => 0
    case ErrWrite => 3
    case ErrCheckErased => 5
    case ErrAddress => 8
  }

  /** What a request sends back to the host. */
  function Reply(d: Dfu, r: Request): seq<byte>
    requires Ok(d)
  {
    match r
    case Upload(wLength) => UploadData(Sized(d, wLength)).1
    case GetStatus(_) => [StatusCode(d.status), 0, 0, 0, StateCode(d.state), 0]
    case GetState(_) => [StateCode(d.state)]
    case _ => []
  }

  function Run(d: Dfu, requests: seq<Request>): (d': Dfu)
    requires Ok(d)
    ensures Ok(d')
    decreases |requests|
  {
    if requests == [] then d else Step(Run(d, requests[..|requests| - 1]), requests[|requests| - 1])
  }

  /** After reset. */
  ghost predicate Fresh(d: Dfu, secure: bool) {
    Ok(d) && d.isSecure == secure && d.state == Idle && !d.waitForExit && d.effects == []
  }
}

module DfuProofs {
  import opened Common
  import opened Flash
  import Eeprom
  import opened DfuMachine

  // ----- The secure gate -----

  const GATE: seq<Effect> := FlashEffects(CHIP_ERASE)

  /** While secure: no memory was touched or revealed, and no transfer can be pending. Afterwards:
      the first thing that happened was a complete chip erase. */
  ghost predicate Gated(d: Dfu) {
    if d.isSecure then d.effects == [] && (d.state == Idle || d.state == Error)
    else GATE <= d.effects
  }

  lemma {:induction false} EepromGrows(d: Dfu, data: seq<byte>)
    requires Ok(d)
    ensures d.effects <= WriteEeprom(d, data).effects
    ensures var e := WriteEeprom(d, data);
            e.isSecure == d.isSecure && e.running == d.running && e.waitForExit == d.waitForExit && e.state == d.state
            && e.memory == d.memory && e.sent == d.sent
    decreases |data|
  {
    if data == [] {
    } else {
      EepromGrows(d.(eeprom := d.eeprom[d.start := data[0]], effects := d.effects + [EepromWrite(d.start, data[0])],
                     start := (d.start + 1) % 0x10000), data[1..]);
    }
  }

  lemma CommandKeepsGate(d: Dfu)
    requires Ok(d) && Gated(d)
    ensures Gated(ProcessCommand(d))
  {
    hide ApplyAll, FirstUsed, FlashEffects, EraseFrom;
    assert [] + GATE == GATE;
  }

  lemma DownloadKeepsGate(d: Dfu, first: seq<byte>)
    requires Ok(d) && Gated(d)
    ensures Gated(DownloadCommand(d, first))
  {
    hide ProcessCommand, LoadCommand;
    CommandKeepsGate(d);
    var d1 := if d.waitForExit then ProcessCommand(d).(waitForExit := false) else d;
    LoadKeepsGate(d1, first);
    CommandKeepsGate(LoadCommand(d1, first));
  }

  lemma LoadKeepsGate(d: Dfu, first: seq<byte>)
    requires Ok(d) && Gated(d)
    ensures Gated(LoadCommand(d, first))
  {
  }

  lemma StepKeepsGate(d: Dfu, r: Request)
    requires Ok(d) && Gated(d)
    ensures Gated(Step(d, r))
  {
    hide ProcessCommand, DownloadCommand, ApplyAll, WriteLoop, FlashEffects, GATE;
    match r
    case Download(wLength, first, firmware) =>
      DownloadKeepsGate(Sized(d, wLength), first);
      var d1 := DownloadCommand(Sized(d, wLength), first);
      EepromGrows(d1, Take(firmware, BytesRemaining(d1)));
    case _ =>
  }

  /** Over every sequence of requests to a loader built in secure mode: no erase, fill, page commit,
      EEPROM write or memory upload happens before a chip erase command has erased every page of the
      application section; until then the state is only ever idle or error. */
  lemma {:induction false} SecureGate(d: Dfu, requests: seq<Request>)
    requires Fresh(d, true)
    ensures Gated(Run(d, requests))
    decreases |requests|
  {
    if requests == [] {
    } else {
      hide Step, Gated;
      SecureGate(d, requests[..|requests| - 1]);
      StepKeepsGate(Run(d, requests[..|requests| - 1]), requests[|requests| - 1]);
    }
  }

  // ----- Programming and reading back -----

  /** The program loop at byte a of an image. */
  function LoopAt(base: nat, image: seq<byte>, a: nat): seq<Op>
    requires a <= |image|
  {
    WriteLoop(base + a, base + a - Rem(a), Rem(a) / 2, image[a..])
  }

  lemma LoopUnfold(address: nat, pageStart: nat, words: nat, data: seq<byte>)
    requires |data| >= 2
    ensures WriteLoop(address, pageStart, words, data) ==
            if (words + 1) % 256 == PAGE / 2 || |data| < 4 then
              [Fill(address, data[0], data[1])] + [Commit(pageStart)] +
              (if |data| < 4 then [] else [Erase(address + 2)] + WriteLoop(address + 2, address + 2, 0, data[2..]))
            else [Fill(address, data[0], data[1])] + WriteLoop(address + 2, pageStart, (words + 1) % 256, data[2..])
  {
  }

  /** The counters of the loop: a page ends when the next address starts one. */
  lemma LoopCounters(a: nat)
    requires a % 2 == 0
    ensures (Rem(a) / 2 + 1) % 256 == PAGE / 2 <==> Rem(a + 2) == 0
    ensures Rem(a + 2) != 0 ==> (Rem(a) / 2 + 1) % 256 == Rem(a + 2) / 2 && a + 2 - Rem(a + 2) == a - Rem(a)
    ensures Rem(a + 2) == 0 ==> a + 2 - PAGE == a - Rem(a)
  {
    WordStep(a);
    EvenPage();
    hide Rem;
    CountWords(Rem(a), PAGE);
  }

  lemma CountWords(r: nat, page: nat)
    requires r % 2 == 0 && page % 2 == 0 && r + 2 <= page <= 256
    ensures (r / 2 + 1) % 256 == (r + 2) / 2
    ensures (r + 2) / 2 == page / 2 <==> r + 2 == page
  {
  }

  lemma LoopEnds(base: nat, image: seq<byte>, a: nat)
    requires a % 2 == 0 && a + 2 == |image|
    ensures LoopAt(base, image, a) ==
            [Fill(base + a, image[a], image[a + 1])] + (CommitOps(base, a + 2) + FinishOps(base, a + 2))
  {
    hide Rem, WriteLoop;
    LoopCounters(a);
    LoopUnfold(base + a, base + a - Rem(a), Rem(a) / 2, image[a..]);
  }

  lemma LoopGoesOn(base: nat, image: seq<byte>, a: nat)
    requires a % 2 == 0 && a + 4 <= |image|
    ensures LoopAt(base, image, a) ==
            [Fill(base + a, image[a], image[a + 1])] + (CommitOps(base, a + 2) + (EraseOps(base, a + 2) + LoopAt(base, image, a + 2)))
  {
    hide Rem, WriteLoop;
    LoopCounters(a);
    LoopUnfold(base + a, base + a - Rem(a), Rem(a) / 2, image[a..]);
    assert image[a..][2..] == image[a + 2..];
  }

  lemma Chain<T>(p: seq<T>, e: seq<T>, f: seq<T>, c: seq<T>, x: seq<T>)
    ensures p + e + (f + (c + x)) == p + (e + f + c) + x
  {
  }

  lemma Associative<T>(p: seq<T>, e: seq<T>, x: seq<T>)
    ensures p + (e + x) == p + e + x
  {
  }

  lemma ProgramNext(base: nat, image: seq<byte>, a: nat)
    requires a % 2 == 0 && a + 2 <= |image|
    ensures ProgramOps(base, image, a + 2) == ProgramOps(base, image, a) +
            (EraseOps(base, a) + [Fill(base + a, image[a], image[a + 1])] + CommitOps(base, a + 2))
  {
    hide EraseOps, CommitOps, Rem;
  }

  /** From any word on, the loop completes what was done so far. */
  lemma {:induction false} LoopFrom(base: nat, image: seq<byte>, a: nat)
    requires a % 2 == 0 && |image| % 2 == 0 && a + 2 <= |image|
    ensures ProgramOps(base, image, a) + EraseOps(base, a) + LoopAt(base, image, a) ==
            ProgramOps(base, image, |image|) + FinishOps(base, |image|)
    decreases |image| - a
  {
    hide *;
    var p, e, c := ProgramOps(base, image, a), EraseOps(base, a), CommitOps(base, a + 2);
    var f := [Fill(base + a, image[a], image[a + 1])];
    var p' := ProgramOps(base, image, a + 2);
    ProgramNext(base, image, a);
    if a + 2 == |image| {
      LoopEnds(base, image, a);
      Chain(p, e, f, c, FinishOps(base, a + 2));
    } else {
      LoopGoesOn(base, image, a);
      LoopFrom(base, image, a + 2);
      var e', x := EraseOps(base, a + 2), LoopAt(base, image, a + 2);
      Chain(p, e, f, c, e' + x);
      Associative(p', e', x);
    }
  }

  lemma LoopAtZero(base: nat, image: seq<byte>)
    ensures LoopAt(base, image, 0) == WriteLoop(base, base, 0, image)
  {
    hide WriteLoop;
    assert image[0..] == image;
  }

  /** The erase of the program command and the write loop are together the page-wise load. */
  lemma LoopIsProgram(base: nat, image: seq<byte>)
    requires |image| % 2 == 0 && |image| > 0
    ensures [Erase(base)] + WriteLoop(base, base, 0, image) ==
            ProgramOps(base, image, |image|) + FinishOps(base, |image|)
  {
    hide WriteLoop, WordOps, CommitOps, FinishOps;
    assert image[0..] == image;
    assert ProgramOps(base, image, 0) + EraseOps(base, 0) == [Erase(base)];
    hide *;
    LoopFrom(base, image, 0);
    LoopAtZero(base, image);
  }

  // ----- A download, and the upload of the same range -----

  /** The parameters of the command in a first packet. */
  function StartOf(first: seq<byte>): nat
    requires |first| >= 6
  {
    Word(first[2], first[3])
  }

  function EndOfRange(first: seq<byte>): nat
    requires |first| >= 6
  {
    Word(first[4], first[5])
  }

  /** A packet with a flash command for a range of an even number of bytes, at least one word, at
      most all but one word of a 64K bank. */
  predicate RangeCommand(first: seq<byte>, command: byte) {
    && |first| >= 6 && first[0] == command && first[1] == 0x00
    && StartOf(first) < EndOfRange(first) && (EndOfRange(first) - StartOf(first) + 1) % 2 == 0
    && EndOfRange(first) - StartOf(first) + 1 < 0x10000
  }

  function Length(first: seq<byte>): nat
    requires |first| >= 6 && StartOf(first) < EndOfRange(first)
  {
    EndOfRange(first) - StartOf(first) + 1
  }

  function Base(d: Dfu, first: seq<byte>): nat
    requires |first| >= 6
  {
    StartOf(first) + 0x10000 * d.page64
  }

  /** Ready for commands: an erase has opened the gate and no exit is pending. */
  ghost predicate Ready(d: Dfu) { Ok(d) && !d.isSecure && !d.waitForExit }

  lemma Loads(d: Dfu, first: seq<byte>)
    requires Ok(d) && |first| >= 6
    ensures var s := LoadCommand(d, first).sent;
            s.command == first[0] && s.data == first[1..6] && s.dataSize == (d.sent.dataSize - 6) % 0x10000
    ensures LoadCommand(d, first) == d.(sent := LoadCommand(d, first).sent)
  {
  }

  lemma LoadsAddresses(d: Dfu, first: seq<byte>)
    requires Ok(d) && |first| >= 6
    ensures var d1 := LoadAddresses(LoadCommand(d, first));
            d1 == LoadCommand(d, first).(start := StartOf(first), end := EndOfRange(first))
  {
    hide Word;
    Loads(d, first);
    var data := LoadCommand(d, first).sent.data;
    assert data[1] == first[2] && data[2] == first[3] && data[3] == first[4] && data[4] == first[5];
  }

  /** Up to its data part a download without a pending exit loads and processes its command. */
  lemma DownloadLoads(d: Dfu, wLength: nat, first: seq<byte>)
    requires Ready(d) && 6 <= wLength < 0x10000 && |first| >= 6
    ensures var d0 := LoadCommand(Sized(d, wLength), first);
            && DownloadCommand(Sized(d, wLength), first) == ProcessCommand(d0) && d0 == d.(sent := d0.sent) && Ready(d0)
            && d0.sent.command == first[0] && d0.sent.data[0] == first[1] && d0.sent.dataSize == wLength - 6
  {
    hide ProcessCommand;
    Loads(Sized(d, wLength), first);
    hide LoadCommand;
  }

  /** What a program command leaves before its data part: the first page is erased. */
  lemma ProgramLoaded(d: Dfu, wLength: nat, first: seq<byte>)
    requires Ready(d) && RangeCommand(first, PROG_START) && 6 <= wLength < 0x10000
    ensures var d1 := DownloadCommand(Sized(d, wLength), first);
            var base := Base(d, first);
            && Ready(d1) && d1.page64 == d.page64 && d1.sent.data[0] == 0x00 && d1.sent.dataSize == wLength - 6
            && d1.start == StartOf(first) && d1.end == EndOfRange(first) && d1.state == DownloadIdle
            && d1.memory == Apply(d.memory, Erase(base)) && d1.effects == d.effects + FlashEffects([Erase(base)])
  {
    hide DownloadCommand, LoadCommand, ProcessCommand, StartOf, EndOfRange, LoadAddresses, Apply, FlashEffects;
    DownloadLoads(d, wLength, first);
    LoadsAddresses(Sized(d, wLength), first);
    ProgramCommand(LoadCommand(Sized(d, wLength), first));
  }

  /** What a display command leaves: only the range and the state. */
  lemma DisplayLoaded(d: Dfu, wLength: nat, first: seq<byte>)
    requires Ready(d) && RangeCommand(first, DISP_DATA) && 6 <= wLength < 0x10000
    ensures var d1 := DownloadCommand(Sized(d, wLength), first);
            && Ready(d1) && d1.page64 == d.page64 && d1.sent.data[0] == 0x00 && d1.state == UploadIdle
            && d1.start == StartOf(first) && d1.end == EndOfRange(first) && d1.memory == d.memory
  {
    hide DownloadCommand, LoadCommand, ProcessCommand, StartOf, EndOfRange, LoadAddresses;
    DownloadLoads(d, wLength, first);
    LoadsAddresses(Sized(d, wLength), first);
    DisplayCommand(LoadCommand(Sized(d, wLength), first));
  }

  lemma ProgramCommand(d: Dfu)
    requires Ready(d) && d.sent.command == PROG_START && d.sent.data[0] == 0x00
    ensures var d1 := LoadAddresses(d);
            var base := FlashAddress(d1);
            ProcessCommand(d) == d1.(memory := Apply(d.memory, Erase(base)), effects := d.effects + FlashEffects([Erase(base)]),
                                     state := DownloadIdle)
  {
    hide Apply, ApplyAll, FlashEffects, FlashAddress, LoadAddresses;
    var d1 := LoadAddresses(d);
    AddressesOnly(d);
    ApplyOne(d.memory, Erase(FlashAddress(d1)));
  }

  lemma AddressesOnly(d: Dfu)
    requires Ok(d)
    ensures LoadAddresses(d) == d.(start := LoadAddresses(d).start, end := LoadAddresses(d).end)
  {
  }

  lemma DisplayCommand(d: Dfu)
    requires Ready(d) && d.sent.command == DISP_DATA && d.sent.data[0] == 0x00
    ensures ProcessCommand(d) == LoadAddresses(d).(state := UploadIdle)
  {
    hide LoadAddresses;
  }

  lemma EffectsAppend(xs: seq<Op>, ys: seq<Op>)
    ensures FlashEffects(xs + ys) == FlashEffects(xs) + FlashEffects(ys)
  {
  }

  /** The data part: with the erase before it, the page-wise load of the streamed words. */
  lemma DataWritten(d: Dfu, m: Memory, base: nat, firmware: nat -> byte, n: nat)
    requires Ok(d) && d.sent.data[0] == 0x00 && d.sent.dataSize > 0 && FlashAddress(d) == base
    requires n == BytesRemaining(d) && n > 0 && n % 2 == 0
    requires ValidMemory(m) && d.memory == Apply(m, Erase(base))
    ensures var d1 := WriteData(d, firmware);
            var image := Take(firmware, n);
            && d1.memory == ApplyAll(m, ProgramOps(base, image, n) + FinishOps(base, n))
            && d1 == d.(memory := d1.memory, effects := d.effects + FlashEffects(WriteLoop(base, base, 0, image)), start := d.end)
  {
    hide Apply, ApplyAll, WriteLoop, ProgramOps, FinishOps, FlashEffects, FlashAddress, BytesRemaining;
    var image := Take(firmware, n);
    assert 2 * (n / 2) == n;
    LoopIsProgram(base, image);
    ApplyAppend(m, [Erase(base)], WriteLoop(base, base, 0, image));
    ApplyOne(m, Erase(base));
  }

  /** The image is in flash, and the page-wise load, each page once, is all that happened to it. */
  ghost predicate Programmed(d: Dfu, d1: Dfu, base: nat, image: seq<byte>) {
    |image| % 2 == 0 &&
    var ops := ProgramOps(base, image, |image|) + FinishOps(base, |image|);
    && d1.memory == Complete(d.memory, base, image, EndOf(base, |image|))
    && d1.effects == d.effects + FlashEffects(ops) && PhaseAfter(base, ops).Closed?
  }

  /** Programming a page-aligned range leaves exactly the streamed words in it, its last page
      filled up and everything else as it was; the flash saw just the page-wise load. */
  lemma ProgramDownload(d: Dfu, wLength: nat, first: seq<byte>, firmware: nat -> byte)
    requires Ready(d) && RangeCommand(first, PROG_START) && 6 < wLength < 0x10000
    requires Loadable(d.memory, Base(d, first), Take(firmware, Length(first)))
    ensures var d1 := Step(d, Download(wLength, first, firmware));
            && Ready(d1) && d1.page64 == d.page64 && d1.start == d1.end == EndOfRange(first)
            && Programmed(d, d1, Base(d, first), Take(firmware, Length(first)))
  {
    var base, n := Base(d, first), Length(first);
    var image := Take(firmware, n);
    assert |image| == n && n > 0 && n % 2 == 0;
    hide DownloadCommand, WriteData, Apply, ApplyAll, ProgramOps, FinishOps, Complete, WriteLoop, FlashEffects,
         PhaseAfter, EndOf, Take, StartOf, EndOfRange, FlashAddress, BytesRemaining, Loadable;
    ProgramLoaded(d, wLength, first);
    var d1 := DownloadCommand(Sized(d, wLength), first);
    RangeOfCommand(d, d1, first);
    DataWritten(d1, d.memory, base, firmware, n);
    ProgramEffects(d, base, image);
  }

  lemma RangeRemaining(d: Dfu, n: nat)
    requires d.start + n == d.end + 1 && n < 0x10000
    ensures BytesRemaining(d) == n
  {
  }

  lemma RangeOfCommand(d: Dfu, d1: Dfu, first: seq<byte>)
    requires |first| >= 6 && StartOf(first) < EndOfRange(first) && Length(first) < 0x10000
    requires d1.start == StartOf(first) && d1.end == EndOfRange(first) && d1.page64 == d.page64
    ensures FlashAddress(d1) == Base(d, first) && BytesRemaining(d1) == Length(first)
  {
    hide StartOf, EndOfRange;
    RangeRemaining(d1, Length(first));
  }

  lemma ProgramEffects(d: Dfu, base: nat, image: seq<byte>)
    requires |image| > 0 && |image| % 2 == 0 && Loadable(d.memory, base, image)
    ensures var ops := ProgramOps(base, image, |image|) + FinishOps(base, |image|);
            && ApplyAll(d.memory, ops) == Complete(d.memory, base, image, EndOf(base, |image|))
            && d.effects + FlashEffects([Erase(base)]) + FlashEffects(WriteLoop(base, base, 0, image)) ==
               d.effects + FlashEffects(ops)
            && PhaseAfter(base, ops).Closed?
  {
    assert ValidMemory(d.memory);
    hide *;
    ProgramOpsComplete(d.memory, base, image);
    LoadInOrder(base, image);
    LoopIsProgram(base, image);
    EffectsAppend([Erase(base)], WriteLoop(base, base, 0, image));
    Associative(d.effects, FlashEffects([Erase(base)]), FlashEffects(WriteLoop(base, base, 0, image)));
  }

  /** Each page of the range was erased once before its fills and committed once after them. */
  lemma LoadInOrder(base: nat, image: seq<byte>)
    requires |image| % 2 == 0
    ensures PhaseAfter(base, ProgramOps(base, image, |image|) + FinishOps(base, |image|)).Closed?
  {
    hide PhaseAfter, ProgramOps, Rem;
    var n := |image|;
    ProgramOpsInOrder(base, image, n);
    PhaseIf(base, ProgramOps(base, image, n), Commit(base + n - Rem(n)), Rem(n) != 0);
  }

  lemma UploadOf(d: Dfu, length: nat, base: nat, n: nat)
    requires Ok(d) && d.state == UploadIdle && d.sent.data[0] == 0x00
    requires BytesRemaining(d) == n && FlashAddress(d) == base && n % 2 == 0 && base + n <= |d.memory.cells|
    ensures Reply(d, Upload(length)) == d.memory.cells[base..base + n]
  {
    var d0 := Sized(d, length);
    assert BytesRemaining(d0) == n && FlashAddress(d0) == base;
    hide BytesRemaining, FlashAddress;
    assert 2 * (n / 2) == n;
    assert UploadData(d0).1 == FlashBytes(d.memory.cells, base, n);
    FlashSlice(d.memory.cells, base, n);
  }

  /** Selecting a range of flash and uploading it returns exactly the bytes of the range. */
  lemma ReadRange(d: Dfu, wLength: nat, first: seq<byte>, firmware: nat -> byte, length: nat)
    requires Ready(d) && RangeCommand(first, DISP_DATA) && 6 <= wLength < 0x10000
    requires Base(d, first) + Length(first) <= |d.memory.cells|
    ensures var d1 := Step(d, Download(wLength, first, firmware));
            d1.memory == d.memory &&
            Reply(d1, Upload(length)) == d.memory.cells[Base(d, first)..Base(d, first) + Length(first)]
  {
    hide DownloadCommand, BytesRemaining, Reply, WriteData, StartOf, EndOfRange;
    DisplayLoaded(d, wLength, first);
    var d1 := DownloadCommand(Sized(d, wLength), first);
    RangeRemaining(d1, Length(first));
    UploadOf(d1, length, Base(d, first), Length(first));
  }

  /** Requests other than downloads. */
  predicate Quiet(requests: seq<Request>) { forall i :: 0 <= i < |requests| ==> !requests[i].Download? }

  lemma {:induction false} QuietRun(d: Dfu, requests: seq<Request>)
    requires Ready(d) && Quiet(requests)
    ensures var e := Run(d, requests);
            Ready(e) && e.memory == d.memory && e.page64 == d.page64 && e.eeprom == d.eeprom
    decreases |requests|
  {
    if requests == [] {
    } else {
      QuietRun(d, requests[..|requests| - 1]);
      assert !requests[|requests| - 1].Download?;
    }
  }

  lemma CompleteHolds(m: Memory, base: nat, image: seq<byte>, end: nat)
    requires Loadable(m, base, image)
    ensures Complete(m, base, image, end).cells[base..base + |image|] == image
  {
  }

  /** At a start off a page boundary a download writes no cell. */
  lemma UnalignedDownload(d: Dfu, wLength: nat, first: seq<byte>, firmware: nat -> byte)
    requires Ready(d) && RangeCommand(first, PROG_START) && 6 < wLength < 0x10000 && Rem(Base(d, first)) != 0
    ensures Step(d, Download(wLength, first, firmware)).memory.cells == d.memory.cells
  {
    var base, n := Base(d, first), Length(first);
    var image := Take(firmware, n);
    assert |image| == n && n > 0 && n % 2 == 0 && ValidMemory(d.memory);
    hide DownloadCommand, WriteData, Apply, ApplyAll, ProgramOps, FinishOps, WriteLoop, FlashEffects, Rem, Take, StartOf,
         EndOfRange, FlashAddress, BytesRemaining;
    ProgramLoaded(d, wLength, first);
    var d1 := DownloadCommand(Sized(d, wLength), first);
    RangeOfCommand(d, d1, first);
    DataWritten(d1, d.memory, base, firmware, n);
    UnalignedWritesNothing(d.memory, base, image);
  }

  lemma SizeOfProcess(d: Dfu)
    requires Ok(d)
    ensures |ProcessCommand(d).memory.cells| == |d.memory.cells|
  {
    hide FirstUsed, FlashEffects, EraseFrom;
  }

  lemma SizeOfCommand(d: Dfu, first: seq<byte>)
    requires Ok(d)
    ensures |DownloadCommand(d, first).memory.cells| == |d.memory.cells|
  {
    hide ProcessCommand, LoadCommand;
    SizeOfProcess(d);
    var d1 := AfterPending(d);
    LoadIsBlind(d1, d1.memory, d1.eeprom, first);
    SizeOfProcess(LoadCommand(d1, first));
    assert WithMemories(d1, d1.memory, d1.eeprom) == d1;
  }

  lemma SizeOfData(d: Dfu, firmware: nat -> byte)
    requires Ok(d)
    ensures |WriteData(d, firmware).memory.cells| == |d.memory.cells|
  {
    hide WriteLoop, FlashEffects;
    EepromGrows(d, Take(firmware, BytesRemaining(d)));
  }

  lemma SameSize(d: Dfu, r: Request)
    requires Ok(d)
    ensures |Step(d, r).memory.cells| == |d.memory.cells|
  {
    hide ApplyAll, WriteLoop, FlashEffects, EraseFrom, FirstUsed;
    match r
    case Download(wLength, first, firmware) =>
      SizeOfCommand(Sized(d, wLength), first);
      SizeOfData(DownloadCommand(Sized(d, wLength), first), firmware);
    case _ =>
  }

  /** Exactly when a download to a range below the boot section leaves the streamed words in it: when
      its start is a page boundary, or the words were there before. */
  lemma ProgramDownloadExactly(d: Dfu, wLength: nat, first: seq<byte>, firmware: nat -> byte)
    requires Ready(d) && RangeCommand(first, PROG_START) && 6 < wLength < 0x10000
    requires Base(d, first) + Length(first) <= BOOT_START
    ensures var base, n := Base(d, first), Length(first);
            var cells := Step(d, Download(wLength, first, firmware)).memory.cells;
            |cells| == |d.memory.cells| &&
            (cells[base..base + n] == Take(firmware, n) <==> Rem(base) == 0 || d.memory.cells[base..base + n] == Take(firmware, n))
  {
    var base, n := Base(d, first), Length(first);
    assert |Take(firmware, n)| == n && ValidMemory(d.memory);
    assert Rem(base) == 0 ==> Loadable(d.memory, base, Take(firmware, n));
    hide Step, Take, Rem, StartOf, EndOfRange, Base, Loadable;
    if Rem(base) == 0 {
      ProgramHolds(d, wLength, first, firmware);
      SameSize(d, Download(wLength, first, firmware));
    } else {
      UnalignedDownload(d, wLength, first, firmware);
    }
  }

  lemma ProgramHolds(d: Dfu, write: nat, program: seq<byte>, firmware: nat -> byte)
    requires Ready(d) && RangeCommand(program, PROG_START) && 6 < write < 0x10000
    requires Loadable(d.memory, Base(d, program), Take(firmware, Length(program)))
    ensures var base := Base(d, program);
            var e := Step(d, Download(write, program, firmware));
            Ready(e) && e.page64 == d.page64 && base + Length(program) <= |e.memory.cells| &&
            e.memory.cells[base..base + Length(program)] == Take(firmware, Length(program))
  {
    hide Step, Complete, Loadable, StartOf, EndOfRange, Base, EndOf, PhaseAfter, FlashEffects, ProgramOps, FinishOps;
    ProgramDownload(d, write, program, firmware);
    RangeFits(d, program, firmware);
    CompleteHolds(d.memory, Base(d, program), Take(firmware, Length(program)), EndOf(Base(d, program), Length(program)));
  }

  lemma ProgramThenQuiet(d: Dfu, write: nat, program: seq<byte>, firmware: nat -> byte, between: seq<Request>)
    requires Ready(d) && RangeCommand(program, PROG_START) && 6 < write < 0x10000 && Quiet(between)
    requires Loadable(d.memory, Base(d, program), Take(firmware, Length(program)))
    ensures var base := Base(d, program);
            var e := Run(Step(d, Download(write, program, firmware)), between);
            Ready(e) && e.page64 == d.page64 && base + Length(program) <= |e.memory.cells| &&
            e.memory.cells[base..base + Length(program)] == Take(firmware, Length(program))
  {
    hide Step, Run, Loadable, StartOf, EndOfRange, Base, Take, Quiet;
    ProgramHolds(d, write, program, firmware);
    QuietRun(Step(d, Download(write, program, firmware)), between);
  }

  /** Program and read back: after a download to a page-aligned range, any requests other than
      downloads, and a display command for the same range, the upload returns the bytes downloaded. */
  lemma ProgramReadBack(d: Dfu, write: nat, program: seq<byte>, firmware: nat -> byte, between: seq<Request>,
                        read: nat, display: seq<byte>, ignored: nat -> byte, length: nat)
    requires Ready(d) && RangeCommand(program, PROG_START) && 6 < write < 0x10000 && Quiet(between)
    requires RangeCommand(display, DISP_DATA) && display[2..6] == program[2..6] && 6 <= read < 0x10000
    requires Loadable(d.memory, Base(d, program), Take(firmware, Length(program)))
    ensures var d1 := Step(d, Download(write, program, firmware));
            var d2 := Step(Run(d1, between), Download(read, display, ignored));
            Reply(d2, Upload(length)) == Take(firmware, Length(program))
  {
    hide Step, Run, Loadable, StartOf, EndOfRange, Base, Take, Quiet, Reply;
    ProgramThenQuiet(d, write, program, firmware, between);
    var e := Run(Step(d, Download(write, program, firmware)), between);
    SameRange(d, e, program, display);
    ReadRange(e, read, display, ignored, length);
  }

  lemma RangeFits(d: Dfu, first: seq<byte>, firmware: nat -> byte)
    requires |first| >= 6 && StartOf(first) < EndOfRange(first)
    requires Loadable(d.memory, Base(d, first), Take(firmware, Length(first)))
    ensures Base(d, first) + Length(first) <= |d.memory.cells|
  {
    hide Base, Length, StartOf, EndOfRange;
  }

  lemma SameRange(d: Dfu, e: Dfu, program: seq<byte>, display: seq<byte>)
    requires |program| >= 6 && |display| >= 6 && display[2..6] == program[2..6] && d.page64 == e.page64
    ensures StartOf(display) == StartOf(program) && EndOfRange(display) == EndOfRange(program)
    ensures Base(e, display) == Base(d, program)
    ensures StartOf(program) < EndOfRange(program) ==> Length(display) == Length(program)
  {
    assert forall i :: 2 <= i < 6 ==> display[i] == display[2..6][i - 2] && program[i] == program[2..6][i - 2];
  }

  /** An EEPROM download overwrites the range byte by byte and leaves the address after it. */
  lemma {:induction false} EepromWritten(d: Dfu, data: seq<byte>)
    requires Ok(d) && |data| <= Eeprom.SIZE
    ensures WriteEeprom(d, data).eeprom == Eeprom.Overwritten(d.eeprom, d.start, data)
    ensures WriteEeprom(d, data).memory == d.memory && WriteEeprom(d, data).end == d.end
    decreases |data|
  {
    hide Eeprom.Overwritten;
    if data == [] {
      Eeprom.WriteNone(d.eeprom, d.start);
    } else {
      EepromWritten(d.(eeprom := d.eeprom[d.start := data[0]], effects := d.effects + [EepromWrite(d.start, data[0])],
                       start := (d.start + 1) % 0x10000), data[1..]);
      Eeprom.WriteFirst(d.eeprom, d.start, data[0], data[1..]);
      assert [data[0]] + data[1..] == data;
    }
  }

  lemma EepromBytesBack(d: Dfu, firmware: nat -> byte, e: Dfu, length: nat)
    requires Ok(d) && d.sent.data[0] != 0x00 && d.sent.dataSize > 0
    requires Ok(e) && e.eeprom == WriteData(d, firmware).eeprom && e.start == d.start && e.end == d.end
    requires e.state == UploadIdle && e.sent.data[0] == 0x02
    ensures Reply(e, Upload(length)) == Take(firmware, BytesRemaining(d))
  {
    hide Eeprom.Overwritten, Eeprom.Bytes, WriteEeprom;
    var data := Take(firmware, BytesRemaining(d));
    EepromWritten(d, data);
    Eeprom.ReadBack(d.eeprom, d.start, data);
    assert BytesRemaining(Sized(e, length)) == |data|;
  }

  lemma EepromSelected(d: Dfu, command: byte)
    requires Ready(d) && d.sent.command == command
    requires (command == PROG_START && d.sent.data[0] == 0x01) || (command == DISP_DATA && d.sent.data[0] == 0x02)
    ensures ProcessCommand(d) == LoadAddresses(d).(state := if command == PROG_START then DownloadIdle else UploadIdle)
  {
    hide LoadAddresses;
  }

  /** What an EEPROM command leaves before its data part: the range and the state. */
  lemma EepromLoaded(d: Dfu, wLength: nat, first: seq<byte>)
    requires Ready(d) && |first| >= 6 && 6 <= wLength < 0x10000
    requires (first[0] == PROG_START && first[1] == 0x01) || (first[0] == DISP_DATA && first[1] == 0x02)
    ensures var d1 := DownloadCommand(Sized(d, wLength), first);
            && Ready(d1) && d1.sent.data[0] == first[1] && d1.sent.dataSize == wLength - 6 && d1.eeprom == d.eeprom
            && d1.start == StartOf(first) && d1.end == EndOfRange(first)
            && d1.state == if first[0] == PROG_START then DownloadIdle else UploadIdle
  {
    hide DownloadCommand, LoadCommand, ProcessCommand, StartOf, EndOfRange, LoadAddresses;
    DownloadLoads(d, wLength, first);
    LoadsAddresses(Sized(d, wLength), first);
    EepromSelected(LoadCommand(Sized(d, wLength), first), first[0]);
  }

  /** (EndAddr - StartAddr) + 1 of a range command, in 16 bits. */
  function CountOf(first: seq<byte>): nat
    requires |first| >= 6
  {
    (EndOfRange(first) - StartOf(first) + 1) % 0x10000
  }

  lemma EepromDownloaded(d: Dfu, write: nat, program: seq<byte>, firmware: nat -> byte)
    requires Ready(d) && |program| >= 6 && program[0] == PROG_START && program[1] == 0x01 && 6 < write < 0x10000
    ensures var d0 := DownloadCommand(Sized(d, write), program);
            var d1 := Step(d, Download(write, program, firmware));
            && Ready(d1) && d1 == WriteData(d0, firmware) && BytesRemaining(d0) == CountOf(program)
            && d0.start == StartOf(program) && d0.end == EndOfRange(program)
            && d0.sent.data[0] != 0x00 && d0.sent.dataSize > 0
  {
    hide DownloadCommand, WriteEeprom, StartOf, EndOfRange, Take;
    EepromLoaded(d, write, program);
    var d0 := DownloadCommand(Sized(d, write), program);
    EepromGrows(d0, Take(firmware, BytesRemaining(d0)));
  }

  /** EEPROM program and read back, for every range: a download, any requests other than downloads, a
      display command for the same range, and the upload returns the bytes downloaded. */
  lemma EepromReadBack(d: Dfu, write: nat, program: seq<byte>, firmware: nat -> byte, between: seq<Request>,
                       read: nat, display: seq<byte>, ignored: nat -> byte, length: nat)
    requires Ready(d) && |program| >= 6 && program[0] == PROG_START && program[1] == 0x01 && 6 < write < 0x10000
    requires |display| >= 6 && display[0] == DISP_DATA && display[1] == 0x02 && display[2..6] == program[2..6]
    requires Quiet(between) && 6 <= read < 0x10000
    ensures var d1 := Step(d, Download(write, program, firmware));
            var d2 := Step(Run(d1, between), Download(read, display, ignored));
            Reply(d2, Upload(length)) == Take(firmware, CountOf(program))
  {
    hide DownloadCommand, Run, Reply, WriteData, StartOf, EndOfRange, Take, BytesRemaining, CountOf, Quiet;
    EepromDownloaded(d, write, program, firmware);
    var d1 := Step(d, Download(write, program, firmware));
    QuietRun(d1, between);
    var e := Run(d1, between);
    SameRange(d, e.(page64 := d.page64), program, display);
    EepromLoaded(e, read, display);
    EepromBytesBack(DownloadCommand(Sized(d, write), program), firmware, DownloadCommand(Sized(e, read), display), length);
  }

  // ----- The other commands -----

  /** A request that carries just a command of two to five bytes. */
  predicate CommandRequest(r: Request, bytes: seq<byte>) {
    r.Download? && r.first == bytes && r.wLength == |bytes| && 3 <= |bytes| <= 6
  }

  lemma CommandLoaded(d: Dfu, r: Request, bytes: seq<byte>)
    requires Ok(d) && !d.waitForExit && CommandRequest(r, bytes)
    ensures var d0 := LoadCommand(Sized(d, r.wLength), r.first);
            && DownloadCommand(Sized(d, r.wLength), r.first) == ProcessCommand(d0) && d0 == d.(sent := d0.sent)
            && d0.sent.command == bytes[0] && d0.sent.data[0] == bytes[1] && d0.sent.data[1] == bytes[2]
            && d0.sent.dataSize == 0 && (|bytes| > 3 ==> d0.sent.data[2] == bytes[3])
  {
    hide ProcessCommand;
  }

  /** Such a request is its command; a download that was still waiting for data ends. */
  lemma CommandStep(d: Dfu, r: Request, bytes: seq<byte>)
    requires Ok(d) && !d.waitForExit && CommandRequest(r, bytes)
    ensures var d0 := LoadCommand(Sized(d, r.wLength), r.first);
            var d1 := ProcessCommand(d0);
            Step(d, r) == if d1.state == DownloadIdle then d1.(state := Idle) else d1
  {
    CommandLoaded(d, r, bytes);
    var d0 := LoadCommand(Sized(d, r.wLength), r.first);
    SentKept(d0);
    hide DownloadCommand, LoadCommand, ProcessCommand, WriteLoop, WriteEeprom;
  }

  lemma SentKept(d: Dfu)
    requires Ok(d)
    ensures ProcessCommand(d).sent == d.sent
  {
    hide ApplyAll, FirstUsed, FlashEffects, EraseFrom;
  }

  /** Only a start command leaves an exit pending, so that is the command a pending exit runs again. */
  ghost predicate PendingStart(d: Dfu) {
    Ok(d) && (d.waitForExit ==> !d.isSecure && d.sent.command == WRITE && d.sent.data[0] == 0x03)
  }

  lemma CommandPends(d: Dfu)
    requires Ok(d) && !d.waitForExit
    ensures PendingStart(ProcessCommand(d))
  {
    hide ApplyAll, FirstUsed, FlashEffects, EraseFrom;
  }

  lemma WriteDataPends(d: Dfu, firmware: nat -> byte)
    requires PendingStart(d)
    ensures PendingStart(WriteData(d, firmware))
  {
    hide ApplyAll, WriteLoop, FlashEffects;
    EepromGrows(d, Take(firmware, BytesRemaining(d)));
  }

  lemma LoadsSent(d: Dfu, first: seq<byte>)
    requires Ok(d)
    ensures LoadCommand(d, first) == d.(sent := LoadCommand(d, first).sent)
  {
  }

  lemma StepPends(d: Dfu, r: Request)
    requires PendingStart(d)
    ensures PendingStart(Step(d, r))
  {
    hide ProcessCommand, WriteData, LoadCommand;
    match r
    case Download(wLength, first, firmware) =>
      var d0 := Sized(d, wLength);
      var d1 := AfterPending(d0);
      PendingKeepsFlash(d0);
      LoadsSent(d1, first);
      CommandPends(LoadCommand(d1, first));
      WriteDataPends(DownloadCommand(d0, first), firmware);
    case _ =>
  }

  lemma {:induction false} RunPends(d: Dfu, requests: seq<Request>)
    requires Fresh(d, d.isSecure)
    ensures PendingStart(Run(d, requests))
    decreases |requests|
  {
    if requests == [] {
    } else {
      hide Step, PendingStart;
      RunPends(d, requests[..|requests| - 1]);
      StepPends(Run(d, requests[..|requests| - 1]), requests[|requests| - 1]);
    }
  }

  /** A pending exit does not touch what is in flash. */
  lemma PendingKeepsFlash(d: Dfu)
    requires PendingStart(d)
    ensures var d1 := AfterPending(d); !d1.waitForExit && d1.memory == d.memory && d1.sent == d.sent
  {
  }

  /** The erase command blanks the whole application section, in every state of the loader, secure or
      not, with an exit pending or not, and opens the gate. */
  lemma EraseCommandErases(d: Dfu, r: Request)
    requires PendingStart(d) && CommandRequest(r, [0x04, 0x00, 0xFF])
    ensures var d1 := Step(d, r);
            !d1.isSecure && (forall i :: 0 <= i < BOOT_START ==> d1.memory.cells[i] == BLANK)
    ensures forall i :: BOOT_START <= i < |d.memory.cells| ==> Step(d, r).memory.cells[i] == d.memory.cells[i]
  {
    PendingKeepsFlash(Sized(d, r.wLength));
    var d' := AfterPending(Sized(d, r.wLength));
    SameAsAfterPending(d, r);
    CommandLoaded(d', r, [0x04, 0x00, 0xFF]);
    CommandStep(d', r, [0x04, 0x00, 0xFF]);
    var d0 := LoadCommand(Sized(d', r.wLength), r.first);
    ChipEraseBlanks(d.memory);
    BootSectionKept(d.memory, CHIP_ERASE);
    hide Step, LoadCommand, ApplyAll, EraseFrom, FlashEffects, FirstUsed, CHIP_ERASE, AfterPending;
    assert ProcessCommand(d0) == WriteCommand(d0);
  }

  lemma SameAsAfterPending(d: Dfu, r: Request)
    requires PendingStart(d) && r.Download?
    ensures Step(d, r) == Step(AfterPending(Sized(d, r.wLength)), r)
  {
    PendingKeepsFlash(Sized(d, r.wLength));
    var d0 := Sized(d, r.wLength);
    var d1 := AfterPending(d0);
    assert Sized(d1, r.wLength) == d1;
    hide ProcessCommand, LoadCommand, WriteData;
  }

  /** So it does after any requests from power-up. */
  lemma EraseAlwaysErases(d: Dfu, requests: seq<Request>, r: Request)
    requires Fresh(d, d.isSecure) && CommandRequest(r, [0x04, 0x00, 0xFF])
    ensures var d1 := Run(d, requests + [r]);
            !d1.isSecure && forall i :: 0 <= i < BOOT_START ==> d1.memory.cells[i] == BLANK
  {
    RunPends(d, requests);
    var all := requests + [r];
    assert all[..|all| - 1] == requests && all[|all| - 1] == r;
    EraseCommandErases(Run(d, requests), r);
    hide Step, PendingStart;
  }

  predicate WordZeroBlank(d: Dfu)
    requires Ok(d)
  {
    d.memory.cells[0] == BLANK && d.memory.cells[1] == BLANK
  }

  /** A start command leaves the exit pending until the next download; the loader ends, or not, with the
      command itself. */
  lemma StartCommand(d: Dfu, r: Request, how: byte, firmware: nat -> byte)
    requires Ready(d) && CommandRequest(r, [0x04, 0x03, how])
    ensures var d1 := Step(d, r);
            d1.waitForExit && d1.memory == d.memory && d1.running == (d.running && !(how != 0 && WordZeroBlank(d)))
    ensures var d1 := Step(d, r);
            var d2 := Step(d1, Download(0, [], firmware));
            !d2.waitForExit && d2.running == d1.running && d2.memory == d.memory
  {
    CommandLoaded(d, r, [0x04, 0x03, how]);
    CommandStep(d, r, [0x04, 0x03, how]);
    var d0 := LoadCommand(Sized(d, r.wLength), r.first);
    hide LoadCommand, MemProg, MemRead, ReadCommand, ApplyAll, EraseFrom, FlashEffects, CHIP_ERASE, CommandRequest;
    assert ProcessCommand(d0) == WriteCommand(d0);
    var d1 := Step(d, r);
    assert d1 == d0.(waitForExit := true, running := d1.running, state := d1.state) && d1.state != DownloadIdle;
    assert ProcessCommand(Sized(d1, 0)) == WriteCommand(Sized(d1, 0));
  }

  /** An upload ends the reading of a range and touches no other state. */
  lemma UploadEnds(d: Dfu, length: nat, other: nat)
    requires Ok(d)
    ensures var d1 := Step(d, Upload(length));
            && Reply(d1, GetState(other)) == (if d.state == UploadIdle then [2] else Reply(d, GetState(other)))
            && d1.status == d.status && d1.memory == d.memory && d1.eeprom == d.eeprom
  {
    hide FlashBytes;
  }

  /** Where an upload leaves the range: at its last address for flash, behind it for the EEPROM. */
  lemma UploadMoves(d: Dfu, length: nat)
    requires Ok(d)
    ensures var d1 := Step(d, Upload(length));
            && d1.end == d.end && d1.page64 == d.page64
            && d1.start == (if d.state != UploadIdle then d.start
                            else if d.sent.data[0] == 0x00 then d.end
                            else if d.sent.data[0] == 0x02 then (d.end + 1) % 0x10000
                            else d.start)
  {
    hide FlashBytes;
    CountEnds(d.start, d.end);
  }

  lemma CountEnds(first: nat, last: nat)
    requires first < 0x10000 && last < 0x10000
    ensures (first + (last - first + 1) % 0x10000) % 0x10000 == (last + 1) % 0x10000
  {
  }

  /** A download in progress ends with the first request without data. */
  lemma EmptyDownloadEnds(d: Dfu, firmware: nat -> byte, other: nat)
    requires Ok(d) && !d.waitForExit && d.state == DownloadIdle
    ensures var d1 := Step(d, Download(0, [], firmware));
            Reply(d1, GetState(other)) == [2] && d1.memory == d.memory && d1.eeprom == d.eeprom
  {
  }

  /** The loader's version and identification bytes, and the device signature, as an upload returns them;
      any other index is an address error. */
  lemma InfoReads(d: Dfu, r: Request, which: byte, index: byte, length: nat)
    requires Ok(d) && !d.waitForExit && d.state == Idle && which in {0x00, 0x01}
    requires CommandRequest(r, [0x05, which, index])
    ensures var d1 := Step(d, r);
            match (which, index)
            case (0x00, 0x00) => Reply(d1, Upload(length)) == [0x20]
            case (0x00, 0x01) => Reply(d1, Upload(length)) == [0xDC]
            case (0x00, 0x02) => Reply(d1, Upload(length)) == [0xFB]
            case (0x01, 0x30) => Reply(d1, Upload(length)) == [0x58]
            case (0x01, 0x31) => Reply(d1, Upload(length)) == [SIGNATURE.0]
            case (0x01, 0x60) => Reply(d1, Upload(length)) == [SIGNATURE.1]
            case (0x01, 0x61) => Reply(d1, Upload(length)) == [SIGNATURE.2]
            case _ => Reply(d1, GetStatus(length)) == [8, 0, 0, 0, 10, 0]
  {
    CommandLoaded(d, r, [0x05, which, index]);
    CommandStep(d, r, [0x05, which, index]);
    var d0 := LoadCommand(Sized(d, r.wLength), r.first);
    hide Step, LoadCommand, MemProg, MemRead, WriteCommand;
    assert ProcessCommand(d0) == ReadCommand(d0);
  }

  lemma {:induction false} FirstUsedIsFirst(cells: seq<byte>, address: nat)
    requires BOOT_START <= |cells|
    ensures var used := FirstUsed(cells, address);
            if used.None? then forall i :: address <= i < BOOT_START ==> cells[i] == BLANK
            else address <= used.value < BOOT_START && cells[used.value] != BLANK &&
                 forall i :: address <= i < used.value ==> cells[i] == BLANK
    decreases if address < BOOT_START then BOOT_START - address else 0
  {
    if address >= BOOT_START {
    } else {
      FirstUsedIsFirst(cells, address + 1);
    }
  }

  lemma BlankCheckStep(d: Dfu, r: Request)
    requires Ready(d) && d.state == Idle && CommandRequest(r, [0x03, 0x01, 0x00])
    ensures var d1, used := Step(d, r), FirstUsed(d.memory.cells, 0);
            if used.None? then d1 == d.(sent := d1.sent)
            else d1 == d.(sent := d1.sent, page64 := used.value / 0x10000 % 256, start := used.value % 0x10000,
                          state := Error, status := ErrCheckErased)
    ensures Step(d, r).sent.data[0] == 0x01
  {
    CommandLoaded(d, r, [0x03, 0x01, 0x00]);
    CommandStep(d, r, [0x03, 0x01, 0x00]);
    var d0 := LoadCommand(Sized(d, r.wLength), r.first);
    hide Step, LoadCommand, MemProg, ReadCommand, WriteCommand, FirstUsed;
    assert ProcessCommand(d0) == MemRead(d0);
  }

  /** The first cell of the application section that is not blank. */
  ghost predicate IsFirstUsed(cells: seq<byte>, a: nat)
    requires BOOT_START <= |cells|
  {
    a < BOOT_START && cells[a] != BLANK && forall i :: 0 <= i < a ==> cells[i] == BLANK
  }

  lemma AddressParts(a: nat)
    requires a < 0x100_0000
    ensures a == 0x10000 * (a / 0x10000 % 256) + a % 0x10000
  {
    var bank := a / 0x10000;
    assert bank < 256;
  }

  lemma WordParts(n: nat)
    requires n < 0x10000
    ensures Word(n / 256, n % 256) == n
  {
  }

  lemma BlankCheckReply(d1: Dfu, a: nat, length: nat)
    requires Ok(d1) && a < 0x100_0000 && d1.page64 == a / 0x10000 % 256 && d1.start == a % 0x10000
    requires d1.state == Error && d1.status == ErrCheckErased && d1.sent.data[0] == 0x01
    ensures Reply(d1, GetStatus(length)) == [5, 0, 0, 0, 10, 0]
    ensures var reply := Reply(d1, Upload(length)); |reply| == 2 && a == 0x10000 * d1.page64 + Word(reply[1], reply[0])
  {
    AddressParts(a);
    WordParts(d1.start);
    hide Word;
  }

  /** The blank check: a blank application section is no error; otherwise the status says so, and the
      upload returns the address of the first cell in use, its low 16 bits with the low byte first, its
      upper bits being the selected bank. */
  lemma BlankCheck(d: Dfu, r: Request, length: nat)
    requires Ready(d) && d.state == Idle && CommandRequest(r, [0x03, 0x01, 0x00])
    ensures var d1, cells := Step(d, r), d.memory.cells;
            if forall i :: 0 <= i < BOOT_START ==> cells[i] == BLANK then d1.state == Idle && d1.status == d.status
            else
              var reply := Reply(d1, Upload(length));
              && |reply| == 2 && IsFirstUsed(cells, 0x10000 * d1.page64 + Word(reply[1], reply[0]))
              && Reply(d1, GetStatus(length)) == [5, 0, 0, 0, 10, 0]
  {
    BlankCheckStep(d, r);
    FirstUsedIsFirst(d.memory.cells, 0);
    var used := FirstUsed(d.memory.cells, 0);
    hide Step, FirstUsed, Reply, Word;
    if used.Some? {
      BlankCheckReply(Step(d, r), used.value, length);
    }
  }

  /** Selecting a 64K bank. */
  lemma BankSelected(d: Dfu, r: Request, bank: byte)
    requires Ready(d) && CommandRequest(r, [0x06, 0x03, 0x00, bank])
    ensures Step(d, r).page64 == bank
  {
    CommandLoaded(d, r, [0x06, 0x03, 0x00, bank]);
    CommandStep(d, r, [0x06, 0x03, 0x00, bank]);
    hide Step, LoadCommand;
  }

  /** In secure mode every other command is a write error. */
  lemma SecureRefuses(d: Dfu, r: Request, bytes: seq<byte>, length: nat)
    requires Ok(d) && d.isSecure && !d.waitForExit && CommandRequest(r, bytes)
    requires bytes[0] != 0x05 && bytes[..3] != [0x04, 0x00, 0xFF]
    ensures Reply(Step(d, r), GetStatus(length)) == [3, 0, 0, 0, 10, 0]
  {
    CommandLoaded(d, r, bytes);
    CommandStep(d, r, bytes);
    assert bytes[..3] == [bytes[0], bytes[1], bytes[2]];
    hide Step, LoadCommand;
  }

  /** Clearing the status and aborting, as the host sees them. */
  lemma StatusAndState(d: Dfu, length: nat, other: nat)
    requires Ok(d)
    ensures Reply(Step(d, ClearStatus(length)), GetStatus(other))[0] == 0
    ensures Reply(Step(d, Abort(length)), GetState(other)) == [2]
    ensures Step(d, GetStatus(length)) == d.(sent := Step(d, GetStatus(length)).sent)
  {
  }

  // ----- Leaving for the application -----

  /** The command that ends the loader: "start application" without data, by a jump, with a blank
      word 0. */
  predicate StartsApplication(d: Dfu)
    requires Ok(d)
  {
    && Permitted(d) && d.sent.command == WRITE && d.sent.data[0] == 0x03 && d.sent.dataSize == 0
    && d.sent.data[1] != 0x00 && d.memory.cells[0] == BLANK && d.memory.cells[1] == BLANK
  }

  lemma CommandRunning(d: Dfu)
    requires Ok(d)
    ensures ProcessCommand(d).running == (d.running && !StartsApplication(d))
  {
    hide ApplyAll, FirstUsed, FlashEffects, EraseFrom;
  }

  /** A download runs up to two commands: with an exit pending the previous one again, then its own. */
  function AfterPending(d: Dfu): (d': Dfu)
    requires Ok(d)
    ensures Ok(d')
  {
    if d.waitForExit then ProcessCommand(d).(waitForExit := false) else d
  }

  predicate Leaves(d: Dfu, r: Request)
    requires Ok(d)
  {
    r.Download? &&
    var d0 := Sized(d, r.wLength);
    (d0.waitForExit && StartsApplication(d0)) ||
    (AfterPending(d0).sent.dataSize != 0 && StartsApplication(LoadCommand(AfterPending(d0), r.first)))
  }

  lemma WriteDataRunning(d: Dfu, firmware: nat -> byte)
    requires Ok(d)
    ensures WriteData(d, firmware).running == d.running
  {
    hide ApplyAll, WriteLoop, FlashEffects;
    EepromGrows(d, Take(firmware, BytesRemaining(d)));
  }

  lemma DownloadRunning(d: Dfu, first: seq<byte>)
    requires Ok(d)
    ensures DownloadCommand(d, first).running ==
            (d.running && !(d.waitForExit && StartsApplication(d)) &&
             !(AfterPending(d).sent.dataSize != 0 && StartsApplication(LoadCommand(AfterPending(d), first))))
  {
    hide ProcessCommand, StartsApplication;
    CommandRunning(d);
    LoadRunning(AfterPending(d), first);
    hide LoadCommand;
    CommandRunning(LoadCommand(AfterPending(d), first));
  }

  lemma LoadRunning(d: Dfu, first: seq<byte>)
    requires Ok(d)
    ensures LoadCommand(d, first).running == d.running
  {
  }

  lemma StepRunning(d: Dfu, r: Request)
    requires Ok(d)
    ensures Step(d, r).running == (d.running && !Leaves(d, r))
  {
    hide DownloadCommand, WriteData, StartsApplication, AfterPending, LoadCommand;
    match r
    case Download(wLength, first, firmware) =>
      DownloadRunning(Sized(d, wLength), first);
      WriteDataRunning(DownloadCommand(Sized(d, wLength), first), firmware);
    case _ =>
  }

  /** The k-th request starts the application. */
  predicate LeavesAt(d: Dfu, requests: seq<Request>, k: nat)
    requires Ok(d) && k < |requests|
  {
    Leaves(Run(d, requests[..k]), requests[k])
  }

  lemma LeavesEarlier(d: Dfu, before: seq<Request>, last: Request)
    requires Ok(d)
    ensures forall k :: 0 <= k < |before| ==> LeavesAt(d, before + [last], k) == LeavesAt(d, before, k)
    ensures LeavesAt(d, before + [last], |before|) == Leaves(Run(d, before), last)
    ensures Run(d, before + [last]) == Step(Run(d, before), last)
  {
    hide Leaves, Step;
    var requests := before + [last];
    assert requests[..|before|] == before;
    forall k | 0 <= k < |before|
      ensures LeavesAt(d, requests, k) == LeavesAt(d, before, k)
    {
      assert requests[..k] == before[..k];
    }
  }

  /** Over every request sequence: the loader runs on if and only if no request made it start the
      application, which takes a blank word 0 at that moment. */
  lemma {:induction false} RunsUnlessStarted(d: Dfu, requests: seq<Request>)
    requires Ok(d)
    ensures Run(d, requests).running <==> d.running && forall k :: 0 <= k < |requests| ==> !LeavesAt(d, requests, k)
    decreases |requests|
  {
    if requests == [] {
    } else {
      hide Step, Leaves, LeavesAt, Run;
      var before, last := requests[..|requests| - 1], requests[|requests| - 1];
      assert requests == before + [last];
      RunsUnlessStarted(d, before);
      StepRunning(Run(d, before), last);
      LeavesEarlier(d, before, last);
    }
  }

  /** The bound on the range is needed: the 16-bit count of a whole 64K bank is 0, so its download
      writes nothing and its upload returns nothing. For every other even range the count is right. */
  lemma WholeBankIsEmpty(d: Dfu, firmware: nat -> byte, length: nat)
    requires Ok(d) && d.sent.data[0] == 0x00 && d.start < d.end && (d.end - d.start + 1) % 2 == 0
    ensures BytesRemaining(d) == d.end - d.start + 1 <==> !(d.start == 0 && d.end == 0xFFFF)
    ensures d.start == 0 && d.end == 0xFFFF ==>
              WriteData(d, firmware).memory == d.memory && (d.state == UploadIdle ==> Reply(d, Upload(length)) == [])
  {
    hide Apply, FlashEffects;
    if d.start == 0 && d.end == 0xFFFF {
      assert BytesRemaining(d) == 0 == BytesRemaining(Sized(d, length));
      hide BytesRemaining, FlashAddress;
      assert Take(firmware, 0) == [];
      assert ApplyAll(d.memory, []) == d.memory;
    }
  }

  // ----- While secure, nothing depends on the memories -----

  /** Changing the contents of the memories. */
  function WithMemories(d: Dfu, m: Memory, eeprom: seq<byte>): Dfu { d.(memory := m, eeprom := eeprom) }

  lemma CommandIsBlind(d: Dfu, m: Memory, eeprom: seq<byte>)
    requires Ok(d) && ValidMemory(m) && |eeprom| == 0x10000 && d.isSecure
    ensures ProcessCommand(d).isSecure ==>
              ProcessCommand(WithMemories(d, m, eeprom)) == WithMemories(ProcessCommand(d), m, eeprom)
    ensures ProcessCommand(WithMemories(d, m, eeprom)).isSecure == ProcessCommand(d).isSecure
  {
    hide ApplyAll, FirstUsed, FlashEffects, EraseFrom, MemProg, MemRead;
  }

  lemma DownloadIsBlind(d: Dfu, m: Memory, eeprom: seq<byte>, first: seq<byte>)
    requires Ok(d) && ValidMemory(m) && |eeprom| == 0x10000
    requires DownloadCommand(d, first).isSecure
    ensures DownloadCommand(WithMemories(d, m, eeprom), first) ==
            WithMemories(DownloadCommand(d, first), m, eeprom)
  {
    hide ProcessCommand, LoadCommand;
    StaysOpen(d);
    var d1 := if d.waitForExit then ProcessCommand(d).(waitForExit := false) else d;
    StaysOpen(LoadCommand(d1, first));
    LoadIsBlind(d1, m, eeprom, first);
    if d.isSecure {
      CommandIsBlind(d, m, eeprom);
    }
    if LoadCommand(d1, first).isSecure {
      CommandIsBlind(LoadCommand(d1, first), m, eeprom);
    }
  }

  lemma StaysOpen(d: Dfu)
    requires Ok(d)
    ensures !d.isSecure ==> !ProcessCommand(d).isSecure
  {
    hide ApplyAll, FirstUsed, FlashEffects, EraseFrom;
  }

  lemma LoadIsBlind(d: Dfu, m: Memory, eeprom: seq<byte>, first: seq<byte>)
    requires Ok(d) && ValidMemory(m) && |eeprom| == 0x10000
    ensures LoadCommand(WithMemories(d, m, eeprom), first) == WithMemories(LoadCommand(d, first), m, eeprom)
    ensures LoadCommand(d, first).isSecure == d.isSecure
  {
  }

  /** While the loader stays secure a request neither depends on the memories nor changes them, and
      neither does its reply. */
  lemma StepIsBlind(d: Dfu, m: Memory, eeprom: seq<byte>, r: Request)
    requires Ok(d) && ValidMemory(m) && |eeprom| == 0x10000 && Gated(d) && Step(d, r).isSecure && d.isSecure
    ensures Step(WithMemories(d, m, eeprom), r) == WithMemories(Step(d, r), m, eeprom)
    ensures Reply(WithMemories(d, m, eeprom), r) == Reply(d, r)
  {
    hide ProcessCommand, DownloadCommand, WriteData;
    match r
    case Download(wLength, first, firmware) =>
      DownloadKeepsGate(Sized(d, wLength), first);
      WriteDataKeepsSecure(DownloadCommand(Sized(d, wLength), first), firmware);
      DownloadIsBlind(Sized(d, wLength), m, eeprom, first);
    case _ =>
  }

  lemma WriteDataKeepsSecure(d: Dfu, firmware: nat -> byte)
    requires Ok(d)
    ensures WriteData(d, firmware).isSecure == d.isSecure
  {
    hide ApplyAll, WriteLoop, FlashEffects;
    EepromGrows(d, Take(firmware, BytesRemaining(d)));
  }

  lemma DownloadStaysOpen(d: Dfu, first: seq<byte>)
    requires Ok(d) && !d.isSecure
    ensures !DownloadCommand(d, first).isSecure
  {
    hide ProcessCommand, LoadCommand;
    StaysOpen(d);
    var d1 := if d.waitForExit then ProcessCommand(d).(waitForExit := false) else d;
    LoadIsBlind(d1, d1.memory, d1.eeprom, first);
    StaysOpen(LoadCommand(d1, first));
  }

  lemma StepStaysOpen(d: Dfu, r: Request)
    requires Ok(d) && !d.isSecure
    ensures !Step(d, r).isSecure
  {
    hide DownloadCommand, WriteData;
    match r
    case Download(wLength, first, firmware) =>
      DownloadStaysOpen(Sized(d, wLength), first);
      WriteDataKeepsSecure(DownloadCommand(Sized(d, wLength), first), firmware);
    case _ =>
  }

  /** Over whole runs: two loaders that differ only in what their memories hold stay alike for as
      long as they are secure, so no reply tells the memories apart. */
  lemma {:induction false} SecureRunIsBlind(d: Dfu, m: Memory, eeprom: seq<byte>, requests: seq<Request>)
    requires Fresh(d, true) && ValidMemory(m) && |eeprom| == 0x10000 && Run(d, requests).isSecure
    ensures Run(WithMemories(d, m, eeprom), requests) == WithMemories(Run(d, requests), m, eeprom)
    ensures forall r :: Step(Run(d, requests), r).isSecure ==>
              Reply(WithMemories(Run(d, requests), m, eeprom), r) == Reply(Run(d, requests), r)
    decreases |requests|
  {
    hide Step, Gated, Reply;
    if requests == [] {
    } else {
      var before, last := requests[..|requests| - 1], requests[|requests| - 1];
      if !Run(d, before).isSecure {
        StepStaysOpen(Run(d, before), last);
      }
      SecureRunIsBlind(d, m, eeprom, before);
      SecureGate(d, before);
      StepIsBlind(Run(d, before), m, eeprom, last);
    }
    SecureGate(d, requests);
    forall r | Step(Run(d, requests), r).isSecure
      ensures Reply(WithMemories(Run(d, requests), m, eeprom), r) == Reply(Run(d, requests), r)
    {
      StepIsBlind(Run(d, requests), m, eeprom, r);
    }
  }
}

/** The loader itself. */
module DfuLoader {
  import opened Common
  import opened Bits
  import opened Flash
  import Eeprom
  import opened DfuMachine
  import BootloaderAPI

  lemma OpsSnoc(d: Dfu, ops: seq<Op>, op: Op)
    requires Ok(d)
    ensures var d1 := DoOps(d, ops);
            DoOps(d, ops + [op]) == d1.(memory := Apply(d1.memory, op), effects := d1.effects + [FlashOp(op)])
  {
    hide Apply, ApplyAll;
    ApplyAppend(d.memory, ops, [op]);
    ApplyOne(ApplyAll(d.memory, ops), op);
    assert FlashEffects(ops + [op]) == FlashEffects(ops) + [FlashOp(op)];
  }

  lemma NoOps(d: Dfu)
    requires Ok(d)
    ensures DoOps(d, []) == d
  {
    assert d.effects + FlashEffects([]) == d.effects;
    assert ApplyAll(d.memory, []) == d.memory;
  }

  class Loader {
    const device: BootloaderAPI.FlashDevice
    var eeprom: seq<byte>
    var isSecure: bool
    var runBootloader: bool
    var waitForExit: bool
    var dfuState: DfuState
    var dfuStatus: Status
    var sentCommand: SentCommand
    var responseByte: byte
    var flash64KBPage: byte
    var startAddr: nat
    var endAddr: nat
    ghost var effects: seq<Effect>

    ghost function Abs(): Dfu
      reads this, device
    {
      Dfu(isSecure, runBootloader, waitForExit, dfuState, dfuStatus, sentCommand, responseByte, flash64KBPage,
          startAddr, endAddr, device.memory, eeprom, effects)
    }

    ghost predicate Valid()
      reads this, device
    {
      device.Valid() && Ok(Abs())
    }

    constructor (device: BootloaderAPI.FlashDevice, eeprom: seq<byte>, secureMode: bool)
      requires device.Valid() && |eeprom| == 0x10000
      ensures Valid() && this.device == device && this.eeprom == eeprom && Fresh(Abs(), secureMode)
      ensures runBootloader && dfuStatus == OK && flash64KBPage == 0
    {
      this.device, this.eeprom := device, eeprom;
      isSecure, runBootloader, waitForExit, dfuState, dfuStatus := secureMode, true, false, Idle, OK;
      sentCommand := SentCommand(0, [0, 0, 0, 0, 0], 0);
      responseByte, flash64KBPage, startAddr, endAddr := 0, 0, 0, 0;
      effects := [];
    }

    method ErasePage(address: nat, ghost d: Dfu, ghost ops: seq<Op>)
      requires Valid() && Ok(d) && Abs() == DoOps(d, ops)
      modifies this`effects, device
      ensures Valid() && Abs() == DoOps(d, ops + [Erase(address)])
    {
      hide Apply, ApplyAll, FlashEffects;
      OpsSnoc(d, ops, Erase(address));
      device.ErasePage(address);
      effects := effects + [FlashOp(Erase(address))];
    }

    method FillWord(address: nat, low: byte, high: byte, ghost d: Dfu, ghost ops: seq<Op>)
      requires Valid() && Ok(d) && Abs() == DoOps(d, ops)
      modifies this`effects, device
      ensures Valid() && Abs() == DoOps(d, ops + [Fill(address, low, high)])
    {
      hide Apply, ApplyAll, FlashEffects;
      OpsSnoc(d, ops, Fill(address, low, high));
      device.FillWord(address, low, high);
      effects := effects + [FlashOp(Fill(address, low, high))];
    }

    method WritePage(address: nat, ghost d: Dfu, ghost ops: seq<Op>)
      requires Valid() && Ok(d) && Abs() == DoOps(d, ops)
      modifies this`effects, device
      ensures Valid() && Abs() == DoOps(d, ops + [Commit(address)])
    {
      hide Apply, ApplyAll, FlashEffects;
      OpsSnoc(d, ops, Commit(address));
      device.WritePage(address);
      effects := effects + [FlashOp(Commit(address))];
    }

    method LoadStartEndAddresses()
      requires Valid()
      modifies this`startAddr, this`endAddr
      ensures Valid() && Abs() == LoadAddresses(old(Abs()))
    {
      startAddr := Word(sentCommand.data[1], sentCommand.data[2]);
      endAddr := Word(sentCommand.data[3], sentCommand.data[4]);
    }

    method ProcessMemProgCommand()
      requires Valid()
      modifies this, device
      ensures Valid() && Abs() == MemProg(old(Abs()))
    {
      hide Apply, ApplyAll, FlashEffects;
      if sentCommand.data[0] == 0x00 || sentCommand.data[0] == 0x01 {
        LoadStartEndAddresses();
        if sentCommand.data[0] == 0x00 {
          NoOps(Abs());
          assert [] + [Erase(startAddr + 0x10000 * flash64KBPage)] == [Erase(startAddr + 0x10000 * flash64KBPage)];
          ErasePage(startAddr + 0x10000 * flash64KBPage, Abs(), []);
        }
        dfuState := DownloadIdle;
      }
    }

    method ProcessMemReadCommand()
      requires Valid()
      modifies this
      ensures Valid() && Abs() == MemRead(old(Abs()))
    {
      if sentCommand.data[0] == 0x00 || sentCommand.data[0] == 0x02 {
        LoadStartEndAddresses();
        dfuState := UploadIdle;
      } else if sentCommand.data[0] == 0x01 {
        var address := 0;
        while address < BOOT_START && device.memory.cells[address] == BLANK
          invariant 0 <= address <= BOOT_START
          invariant FirstUsed(device.memory.cells, address) == FirstUsed(device.memory.cells, 0)
        {
          address := address + 1;
        }
        if address < BOOT_START {
          flash64KBPage, startAddr := address / 0x10000 % 256, address % 0x10000;
          dfuState, dfuStatus := Error, ErrCheckErased;
        }
      }
    }

    method EraseApplication()
      requires Valid()
      modifies this`effects, device
      ensures Valid() && Abs() == DoOps(old(Abs()), CHIP_ERASE)
    {
      hide DoOps, EraseFrom;
      ghost var d := Abs();
      ghost var ops: seq<Op> := [];
      NoOps(d);
      var address: nat := 0;
      EraseFromCases(ops, address);
      while address < BOOT_START
        invariant Valid() && Abs() == DoOps(d, ops)
        invariant ops + EraseFrom(address) == CHIP_ERASE
        invariant address >= BOOT_START ==> ops + EraseFrom(address) == ops
        decreases if address < BOOT_START then BOOT_START - address else 0
      {
        ErasePage(address, d, ops);
        EraseFromCases(ops, address);
        ops := ops + [Erase(address)];
        address := address + PAGE;
        EraseFromCases(ops, address);
      }
    }

    method ProcessWriteCommand()
      requires Valid()
      modifies this, device
      ensures Valid() && Abs() == WriteCommand(old(Abs()))
    {
      hide DoOps;
      if sentCommand.data[0] == 0x03 {
        waitForExit := true;
        if sentCommand.dataSize == 0 && sentCommand.data[1] != 0x00
           && device.memory.cells[0] == BLANK && device.memory.cells[1] == BLANK {
          runBootloader := false;
        }
      } else if sentCommand.data[0] == 0x00 && sentCommand.data[1] == 0xFF {
        EraseApplication();
        isSecure := false;
      }
    }

    method ProcessReadCommand()
      requires Valid()
      modifies this
      ensures Valid() && Abs() == ReadCommand(old(Abs()))
    {
      var index := sentCommand.data[1];
      var invalid := false;
      if sentCommand.data[0] == 0x00 {
        if index < 3 {
          responseByte := BOOTLOADER_INFO[index];
        } else {
          invalid := true;
        }
      } else if sentCommand.data[0] == 0x01 {
        if index == 0x30 {
          responseByte := 0x58;
        } else if index == 0x31 {
          responseByte := SIGNATURE.0;
        } else if index == 0x60 {
          responseByte := SIGNATURE.1;
        } else if index == 0x61 {
          responseByte := SIGNATURE.2;
        } else {
          invalid := true;
        }
      }
      if invalid {
        dfuState, dfuStatus := Error, ErrAddress;
      }
    }

    method ProcessBootloaderCommand()
      requires Valid()
      modifies this, device
      ensures Valid() && Abs() == ProcessCommand(old(Abs()))
    {
      hide MemProg, MemRead, WriteCommand, ReadCommand;
      if isSecure {
        if !((sentCommand.command == WRITE && sentCommand.data[0] == 0x00 && sentCommand.data[1] == 0xFF)
             || sentCommand.command == READ) {
          dfuState, dfuStatus := Error, ErrWrite;
          return;
        }
      }
      if sentCommand.command == PROG_START {
        ProcessMemProgCommand();
      } else if sentCommand.command == DISP_DATA {
        ProcessMemReadCommand();
      } else if sentCommand.command == WRITE {
        ProcessWriteCommand();
      } else if sentCommand.command == READ {
        ProcessReadCommand();
      } else if sentCommand.command == CHANGE_BASE {
        if sentCommand.data[0] == 0x03 && sentCommand.data[1] == 0x00 {
          flash64KBPage := sentCommand.data[2];
        }
      }
    }

    /** The command and its parameters from the first packet. */
    method ReadCommandBytes(first: seq<byte>)
      requires Valid()
      modifies this`sentCommand
      ensures Valid() && Abs() == LoadCommand(old(Abs()), first)
    {
      var data, size := sentCommand.data, (sentCommand.dataSize - 1) % 0x10000;
      var i := 0;
      while i < 5 && 1 + i < |first|
        invariant 0 <= i <= 5 && (i == 0 || i < |first|) && |data| == 5 && Abs() == old(Abs())
        invariant size == (sentCommand.dataSize - 1 - i) % 0x10000
        invariant forall j :: 0 <= j < 5 ==> data[j] == if j < i then first[1 + j] else sentCommand.data[j]
      {
        SizeDown(sentCommand.dataSize - 1, i);
        data, size, i := data[i := first[1 + i]], (size - 1) % 0x10000, i + 1;
      }
      ghost var d := LoadCommand(Abs(), first);
      assert d.sent.data == data;
      sentCommand := SentCommand(if |first| > 0 then first[0] else 0, data, size);
    }

    /** The word loop of a flash download. */
    method WriteFlash(words: nat, firmware: nat -> byte)
      requires Valid()
      modifies this`effects, device
      ensures Valid()
      ensures var base := FlashAddress(old(Abs()));
              Abs() == DoOps(old(Abs()), WriteLoop(base, base, 0, Take(firmware, 2 * words)))
    {
      hide DoOps, Apply, FlashEffects, WriteLoop, Take;
      ghost var d, ops: seq<Op> := Abs(), [];
      ghost var image := Take(firmware, 2 * words);
      NoOps(d);
      var address: nat := startAddr + 0x10000 * flash64KBPage;
      var pageStart, k := address, 0;
      var wordsInPage: byte := 0;
      assert image[0..] == image;
      assert [] + WriteLoop(address, address, 0, image) == WriteLoop(address, address, 0, image);
      while k < words
        invariant 0 <= k <= words && Valid() && Abs() == DoOps(d, ops)
        invariant ops + WriteLoop(address, pageStart, wordsInPage, image[2 * k..]) ==
                  WriteLoop(FlashAddress(d), FlashAddress(d), 0, image)
      {
        ghost var rest := image[2 * k..];
        TakeAt(firmware, 2 * words, 2 * k);
        DfuLoopStep(ops, address, pageStart, wordsInPage, rest);
        assert rest[2..] == image[2 * (k + 1)..];
        FillWord(address, firmware(2 * k), firmware(2 * k + 1), d, ops);
        ops := ops + [Fill(address, rest[0], rest[1])];
        wordsInPage, address, k := (wordsInPage + 1) % 256, address + 2, k + 1;
        if wordsInPage == PAGE / 2 || k == words {
          WritePage(pageStart, d, ops);
          ops := ops + [Commit(pageStart)];
          if k < words {
            pageStart, wordsInPage := address, 0;
            ErasePage(address, d, ops);
            ops := ops + [Erase(address)];
          }
        }
        if k == words {
          LoopDone(ops, address, pageStart, wordsInPage, rest[2..]);
        }
      }
      LoopDone(ops, address, pageStart, wordsInPage, image[2 * k..]);
    }

    /** The byte loop of an EEPROM download. */
    method WriteEepromBytes(count: nat, firmware: nat -> byte)
      requires Valid()
      modifies this
      ensures Valid() && Abs() == WriteEeprom(old(Abs()), Take(firmware, count))
    {
      ghost var data := Take(firmware, count);
      assert data[0..] == data;
      for i := 0 to count
        invariant Valid() && WriteEeprom(Abs(), data[i..]) == WriteEeprom(old(Abs()), data)
      {
        hide Take;
        TakeAt(firmware, count, i);
        assert data[i..][1..] == data[i + 1..];
        eeprom := eeprom[startAddr := firmware(i)];
        effects := effects + [EepromWrite(startAddr, firmware(i))];
        startAddr := (startAddr + 1) % 0x10000;
      }
    }

    method WriteMemory(firmware: nat -> byte)
      requires Valid()
      modifies this, device
      ensures Valid() && Abs() == WriteData(old(Abs()), firmware)
    {
      hide DoOps, WriteLoop, WriteEeprom, Take;
      if sentCommand.dataSize == 0 {
        dfuState := Idle;
      } else {
        var count := (endAddr - startAddr + 1) % 0x10000;
        if sentCommand.data[0] == 0x00 {
          OpsKeepRest(Abs(), WriteLoop(FlashAddress(Abs()), FlashAddress(Abs()), 0, Take(firmware, 2 * (count / 2))));
          WriteFlash(count / 2, firmware);
          startAddr := endAddr;
        } else {
          WriteEepromBytes(count, firmware);
        }
      }
    }

    /** The data stage of an upload. */
    method UploadMemory() returns (reply: seq<byte>)
      requires Valid()
      modifies this
      ensures Valid() && (Abs(), reply) == UploadData(old(Abs()))
    {
      if dfuState != UploadIdle {
        if dfuState == Error && sentCommand.data[0] == 0x01 {
          var low: byte := startAddr % 256;
          var high: byte := startAddr / 256;
          return [low, high];
        }
        return [responseByte];
      }
      var count := (endAddr - startAddr + 1) % 0x10000;
      reply := [];
      if sentCommand.data[0] == 0x00 {
        reply := ReadFlash(count / 2);
        startAddr := endAddr;
        effects := effects + [Uploaded(reply)];
      } else if sentCommand.data[0] == 0x02 {
        ghost var d := Abs();
        reply := ReadEeprom(count);
        assert BytesRemaining(d) == count && reply == UploadData(d).1;
        effects := effects + [Uploaded(reply)];
      }
      dfuState := Idle;
    }

    method ReadFlash(words: nat) returns (reply: seq<byte>)
      requires Valid()
      ensures reply == FlashBytes(device.memory.cells, FlashAddress(Abs()), 2 * words)
    {
      reply := [];
      var address: nat := startAddr + 0x10000 * flash64KBPage;
      for k := 0 to words
        invariant address == FlashAddress(Abs()) + 2 * k
        invariant reply == FlashBytes(device.memory.cells, FlashAddress(Abs()), 2 * k)
      {
        reply := reply + [CellAt(device.memory.cells, address), CellAt(device.memory.cells, address + 1)];
        address := address + 2;
      }
    }

    method ReadEeprom(count: nat) returns (reply: seq<byte>)
      requires Valid() && count < 0x10000
      modifies this`startAddr
      ensures Valid() && startAddr == (old(startAddr) + count) % 0x10000
      ensures |reply| == count && forall i :: 0 <= i < count ==> reply[i] == eeprom[Eeprom.Position(old(startAddr), i)]
    {
      reply := [];
      for k := 0 to count
        invariant Valid() && startAddr == (old(startAddr) + k) % 0x10000
        invariant |reply| == k && forall i :: 0 <= i < k ==> reply[i] == eeprom[Eeprom.Position(old(startAddr), i)]
      {
        reply := reply + [eeprom[startAddr]];
        startAddr := (startAddr + 1) % 0x10000;
      }
    }

    /** EVENT_USB_Device_ControlRequest */
    method ControlRequest(r: Request) returns (reply: seq<byte>)
      requires Valid()
      modifies this, device
      ensures Valid() && Abs() == Step(old(Abs()), r) && reply == Reply(old(Abs()), r)
    {
      hide ProcessCommand, LoadCommand, WriteData, UploadData;
      sentCommand := sentCommand.(dataSize := r.wLength);
      reply := [];
      match r {
        case Download(_, first, firmware) =>
          ReceiveCommand(first);
          if dfuState == DownloadIdle {
            WriteMemory(firmware);
          }
        case Upload(_) =>
          reply := UploadMemory();
        case GetStatus(_) =>
          reply := [StatusCode(dfuStatus), 0, 0, 0, StateCode(dfuState), 0];
        case ClearStatus(_) =>
          dfuStatus := OK;
        case GetState(_) =>
          reply := [StateCode(dfuState)];
        case Abort(_) =>
          dfuState := Idle;
        case Other(_) =>
      }
    }

    method ReceiveCommand(first: seq<byte>)
      requires Valid()
      modifies this, device
      ensures Valid() && Abs() == DownloadCommand(old(Abs()), first)
    {
      hide ProcessCommand, LoadCommand;
      if waitForExit {
        ProcessBootloaderCommand();
        waitForExit := false;
      }
      if sentCommand.dataSize != 0 {
        ReadCommandBytes(first);
        ProcessBootloaderCommand();
      }
    }
  }

  lemma SizeDown(x: int, i: nat)
    ensures ((x - i) % 0x10000 - 1) % 0x10000 == (x - (i + 1)) % 0x10000
  {
    var q, r := (x - i) / 0x10000, (x - i) % 0x10000;
    assert x - (i + 1) == (r - 1) + q * 0x10000;
    ModShift(r - 1, q, 0x10000);
  }

  lemma OpsKeepRest(d: Dfu, ops: seq<Op>)
    requires Ok(d)
    ensures DoOps(d, ops) == d.(memory := DoOps(d, ops).memory, effects := DoOps(d, ops).effects)
  {
  }

  lemma LoopDone(ops: seq<Op>, address: nat, pageStart: nat, words: nat, data: seq<byte>)
    requires |data| < 2
    ensures ops + WriteLoop(address, pageStart, words, data) == ops
  {
  }

  lemma DfuLoopStep(ops: seq<Op>, address: nat, pageStart: nat, words: nat, data: seq<byte>)
    requires |data| >= 2
    ensures var fill := ops + [Fill(address, data[0], data[1])];
            var w := (words + 1) % 256;
            ops + WriteLoop(address, pageStart, words, data) ==
            if w == PAGE / 2 || |data| < 4 then
              if |data| < 4 then fill + [Commit(pageStart)]
              else fill + [Commit(pageStart)] + [Erase(address + 2)] + WriteLoop(address + 2, address + 2, 0, data[2..])
            else fill + WriteLoop(address + 2, pageStart, w, data[2..])
  {
  }
}
