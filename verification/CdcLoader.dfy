/** lufa/Bootloaders/CDC/BootloaderCDC.c: the AVR109 loader. */
module Avr109 {
  import opened Common
  import opened Bits
  import opened Flash
  import Eeprom

  /** CurrAddress, RunBootloader, the memories and every flash operation so far. */
  datatype Cdc = Cdc(address: nat, running: bool, memory: Memory, eeprom: seq<byte>, ops: seq<Op>)

  /** A command with its parameters; a block write carries the byte stream the host sends. */
  datatype Command =
    | SetAddress(high: byte, low: byte)
    | BlockWrite(sizeHigh: byte, sizeLow: byte, memoryType: char, stream: nat -> byte)
    | BlockRead(sizeHigh: byte, sizeLow: byte, memoryType: char)
    | FillPageWordHigh(value: byte) | FillPageWordLow(value: byte) | WriteFlashPage | ReadFlashWord
    | WriteEepromByte(value: byte) | ReadEepromByte
    | EraseFlash | ExitBootloader | Sync | Unknown

  const DONE: seq<byte> := [13]
  const FAIL: seq<byte> := [63]

  ghost predicate Ok(c: Cdc) { ValidMemory(c.memory) && |c.eeprom| == Eeprom.SIZE && c.address < 0x1_0000_0000 }

  /** The byte is shifted as a 16-bit signed int, then widened to 32 bits unsigned. */
  function SetAddressTo(high: byte, low: byte): (a: nat)
    ensures a < 0x1_0000_0000 && a % 2 == 0
  {
    var h: nat := high;
    var l: nat := low;
    var upper := Uint32(Int16(h * 512));
    assert upper % 512 == 0;
    upper + 2 * l
  }

  function Next(address: nat): nat { Uint32(address + 2) }

  /** CurrAddress >> 1 as a 16-bit pointer. */
  function EepromPointer(address: nat): nat { address / 2 % Eeprom.SIZE }

  function DoOp(c: Cdc, op: Op): (c': Cdc)
    requires Ok(c)
    ensures Ok(c')
  {
    c.(memory := Apply(c.memory, op), ops := c.ops + [op])
  }

  /** The flash branch of the block write loop. */
  function WriteFlash(c: Cdc, highByte: bool, lowByte: byte, data: seq<byte>): (c': Cdc)
    requires Ok(c)
    ensures Ok(c')
    decreases |data|
  {
    if data == [] then c
    else if highByte then
      WriteFlash(DoOp(c, Fill(c.address, lowByte, data[0])).(address := Next(c.address)), false, lowByte, data[1..])
    else WriteFlash(c, true, data[0], data[1..])
  }

  /** Its EEPROM branch. */
  function WriteEeprom(c: Cdc, data: seq<byte>): (c': Cdc)
    requires Ok(c)
    ensures Ok(c')
    decreases |data|
  {
    if data == [] then c
    else
      WriteEeprom(c.(eeprom := c.eeprom[EepromPointer(c.address) := data[0]], address := Next(c.address)), data[1..])
  }

  /** The flash branch of the block read loop: the bytes and the final address. */
  function ReadFlash(cells: seq<byte>, address: nat, highByte: bool, n: nat): (r: (seq<byte>, nat))
    ensures |r.0| == n && (address < 0x1_0000_0000 ==> r.1 < 0x1_0000_0000)
    decreases n
  {
    if n == 0 then ([], address)
    else
      var a := if highByte && address % 2 == 0 then address + 1 else address;
      var rest := ReadFlash(cells, if highByte then Next(address) else address, !highByte, n - 1);
      ([CellAt(cells, a)] + rest.0, rest.1)
  }

  function ReadEeprom(cells: seq<byte>, address: nat, n: nat): (r: (seq<byte>, nat))
    requires |cells| == Eeprom.SIZE
    ensures |r.0| == n && (address < 0x1_0000_0000 ==> r.1 < 0x1_0000_0000)
    decreases n
  {
    if n == 0 then ([], address)
    else
      var rest := ReadEeprom(cells, Next(address), n - 1);
      ([cells[EepromPointer(address)]] + rest.0, rest.1)
  }

  /** ReadWriteMemoryBlock for a write */
  function WriteBlock(c: Cdc, memoryType: char, data: seq<byte>): (c': Cdc)
    requires Ok(c)
    ensures Ok(c')
  {
    if memoryType == 'F' then DoOp(WriteFlash(DoOp(c, Erase(c.address)), false, 0, data), Commit(c.address))
    else if memoryType == 'E' then WriteEeprom(c, data)
    else c
  }

  /** ReadWriteMemoryBlock for a read: reply and final address */
  function ReadBlock(c: Cdc, memoryType: char, n: nat): (r: (seq<byte>, nat))
    requires Ok(c)
    ensures r.1 < 0x1_0000_0000
  {
    if memoryType == 'F' then ReadFlash(c.memory.cells, c.address, false, n)
    else if memoryType == 'E' then ReadEeprom(c.eeprom, c.address, n)
    else (FAIL, c.address)
  }

  function EraseAll(c: Cdc): (c': Cdc)
    requires Ok(c)
    ensures Ok(c')
  {
    c.(memory := ApplyAll(c.memory, CHIP_ERASE), ops := c.ops + CHIP_ERASE)
  }

  /** CDC_Task */
  function Step(c: Cdc, command: Command): (c': Cdc)
    requires Ok(c)
    ensures Ok(c')
  {
    match command
    case SetAddress(high, low) => c.(address := SetAddressTo(high, low))
    case BlockWrite(high, low, memoryType, stream) => WriteBlock(c, memoryType, Take(stream, Word(high, low)))
    case BlockRead(high, low, memoryType) => c.(address := ReadBlock(c, memoryType, Word(high, low)).1)
    case FillPageWordHigh(value) => DoOp(c, Fill(c.address, value, 0))
    case FillPageWordLow(value) =>
      DoOp(c, Fill(if c.address % 2 == 0 then c.address + 1 else c.address, value, 0)).(address := Next(c.address))
    case WriteFlashPage => DoOp(c, Commit(c.address))
    case WriteEepromByte(value) =>
      c.(eeprom := c.eeprom[EepromPointer(c.address) := value], address := Next(c.address))
    case ReadEepromByte => c.(address := Next(c.address))
    case EraseFlash => EraseAll(c)
    case ExitBootloader => c.(running := false)
    case _ => c
  }

  function Reply(c: Cdc, command: Command): seq<byte>
    requires Ok(c)
  {
    match command
    case BlockWrite(_, _, memoryType, _) => if memoryType == 'F' || memoryType == 'E' then DONE else FAIL
    case BlockRead(high, low, memoryType) => ReadBlock(c, memoryType, Word(high, low)).0
    case ReadFlashWord => [CellAt(c.memory.cells, c.address + 1), CellAt(c.memory.cells, c.address)]
    case ReadEepromByte => [c.eeprom[EepromPointer(c.address)]]
    case Sync => []
    case Unknown => FAIL
    case _ => DONE
  }

  function Run(c: Cdc, commands: seq<Command>): (c': Cdc)
    requires Ok(c)
    ensures Ok(c')
    decreases |commands|
  {
    if commands == [] then c else Step(Run(c, commands[..|commands| - 1]), commands[|commands| - 1])
  }
}

module Avr109Proofs {
  import opened Common
  import opened Bits
  import opened Flash
  import opened Avr109
  import Eeprom

  // ----- Addresses -----

  /** What a word address turns into. */
  lemma AddressIs(high: byte, low: byte)
    ensures SetAddressTo(high, low) ==
            (if high % 128 < 0x40 then 0 else 0xFFFF_0000) + 2 * Word(high % 128, low)
  {
    var h: nat := high;
    var r := h % 128;
    assert h * 512 == r * 512 + (h / 128) * 0x10000;
    ModShift(r * 512 + 0x8000, h / 128, 0x10000);
    assert Int16(h * 512) == Int16(r * 512);
  }

  /** A word address becomes its byte address exactly if it is below 0x4000: above, the 16-bit shift
      overflows into the sign. */
  lemma AddressIsExact(high: byte, low: byte)
    ensures SetAddressTo(high, low) == 2 * Word(high, low) <==> high < 0x40
  {
    AddressIs(high, low);
    hide SetAddressTo;
    var h: nat, l: nat := high, low;
    assert h % 128 == if h < 128 then h else h - 128;
    assert Word(high, low) == 256 * h + l && Word(high % 128, low) == 256 * (h % 128) + l;
  }

  lemma NextAdds(address: nat, k: nat)
    ensures Uint32(Next(address) + 2 * k) == Uint32(address + 2 * (k + 1))
  {
  }

  lemma Small(x: nat)
    requires x < 0x1_0000_0000
    ensures Uint32(x) == x
  {
  }

  lemma {:induction false} ReadFlashAddress(cells: seq<byte>, address: nat, highByte: bool, n: nat)
    requires address < 0x1_0000_0000
    ensures ReadFlash(cells, address, highByte, n).1 == Uint32(address + 2 * ((n + if highByte then 1 else 0) / 2))
    decreases n
  {
    hide Next, Uint32, CellAt;
    if n == 0 {
      Small(address);
    } else if highByte {
      PointerFits(address);
      ReadFlashAddress(cells, Next(address), false, n - 1);
      NextAdds(address, (n - 1) / 2);
    } else {
      ReadFlashAddress(cells, address, true, n - 1);
    }
  }

  lemma {:induction false} ReadEepromAddress(cells: seq<byte>, address: nat, n: nat)
    requires |cells| == Eeprom.SIZE && address < 0x1_0000_0000
    ensures ReadEeprom(cells, address, n).1 == Uint32(address + 2 * n)
    decreases n
  {
    hide Next, Uint32, EepromPointer;
    if n == 0 {
      Small(address);
    } else {
      PointerFits(address);
      ReadEepromAddress(cells, Next(address), n - 1);
      NextAdds(address, n - 1);
    }
  }

  lemma {:induction false} WriteEepromAddress(c: Cdc, data: seq<byte>)
    requires Ok(c)
    ensures WriteEeprom(c, data).address == Uint32(c.address + 2 * |data|)
    decreases |data|
  {
    hide Next, Uint32, EepromPointer;
    if data == [] {
      Small(c.address);
    } else {
      PointerFits(c.address);
      WriteEepromAddress(c.(eeprom := c.eeprom[EepromPointer(c.address) := data[0]], address := Next(c.address)), data[1..]);
      NextAdds(c.address, |data| - 1);
    }
  }

  lemma {:induction false} WriteFlashAddress(c: Cdc, highByte: bool, lowByte: byte, data: seq<byte>)
    requires Ok(c)
    ensures WriteFlash(c, highByte, lowByte, data).address ==
            Uint32(c.address + 2 * ((|data| + if highByte then 1 else 0) / 2))
    decreases |data|
  {
    hide DoOp, Next, Uint32;
    if data == [] {
      Small(c.address);
    } else if highByte {
      var c1 := DoOp(c, Fill(c.address, lowByte, data[0]));
      OpKeepsRest(c, Fill(c.address, lowByte, data[0]));
      PointerFits(c.address);
      WriteFlashAddress(c1.(address := Next(c.address)), false, lowByte, data[1..]);
      NextAdds(c.address, (|data| - 1) / 2);
    } else {
      WriteFlashAddress(c, true, data[0], data[1..]);
    }
  }

  lemma OpKeepsRest(c: Cdc, op: Op)
    requires Ok(c)
    ensures DoOp(c, op) == c.(memory := DoOp(c, op).memory, ops := DoOp(c, op).ops)
  {
  }

  /** How far a block command moves the address: a whole number of words of flash, twice the size for
      EEPROM, whose cells are addressed like words. */
  function Advance(memoryType: char, n: nat): (a: nat)
    ensures a % 2 == 0
  {
    if memoryType == 'F' then 2 * (n / 2) else if memoryType == 'E' then 2 * n else 0
  }

  lemma BlockAdvances(c: Cdc, memoryType: char, data: seq<byte>)
    requires Ok(c)
    ensures WriteBlock(c, memoryType, data).address == Uint32(c.address + Advance(memoryType, |data|))
    ensures ReadBlock(c, memoryType, |data|).1 == Uint32(c.address + Advance(memoryType, |data|))
  {
    hide Apply, WriteFlash, ReadFlash, WriteEeprom, ReadEeprom;
    WriteFlashAddress(DoOp(c, Erase(c.address)), false, 0, data);
    ReadFlashAddress(c.memory.cells, c.address, false, |data|);
    WriteEepromAddress(c, data);
    ReadEepromAddress(c.eeprom, c.address, |data|);
  }

  lemma StepKeepsEven(c: Cdc, command: Command)
    requires Ok(c) && c.address % 2 == 0
    ensures Step(c, command).address % 2 == 0
  {
    hide Apply, ApplyAll, WriteBlock, ReadBlock, SetAddressTo, Advance, Uint32;
    EvenSum(c.address, 2);
    match command
    case BlockWrite(high, low, memoryType, stream) =>
      BlockAdvances(c, memoryType, Take(stream, Word(high, low)));
      EvenSum(c.address, Advance(memoryType, Word(high, low)));
    case BlockRead(high, low, memoryType) =>
      BlockAdvances(c, memoryType, Blank(Word(high, low)));
      EvenSum(c.address, Advance(memoryType, Word(high, low)));
    case _ =>
  }

  lemma EvenSum(address: nat, step: nat)
    ensures address % 2 == 0 && step % 2 == 0 ==> Uint32(address + step) % 2 == 0
  {
    ModOfMod(address + step, 2, 0x8000_0000);
  }

  /** Over every run of commands the address stays even. */
  lemma {:induction false} AddressStaysEven(c: Cdc, commands: seq<Command>)
    requires Ok(c) && c.address % 2 == 0
    ensures Run(c, commands).address % 2 == 0
    decreases |commands|
  {
    hide Step;
    if commands == [] {
    } else {
      AddressStaysEven(c, commands[..|commands| - 1]);
      StepKeepsEven(Run(c, commands[..|commands| - 1]), commands[|commands| - 1]);
    }
  }

  // ----- Writing a block of flash -----

  /** The fills of the first k bytes (k even) of a block. */
  function Fills(base: nat, image: seq<byte>, k: nat): seq<Op>
    requires k <= |image| && k % 2 == 0
  {
    if k == 0 then [] else Fills(base, image, k - 2) + [Fill(base + k - 2, image[k - 2], image[k - 1])]
  }

  /** The byte pairing of the loop yields the words of the block in order; an odd last byte is lost. */
  lemma {:induction false} WriteFlashFills(c0: Cdc, c: Cdc, base: nat, image: seq<byte>, k: nat, low: byte)
    requires Ok(c0) && Ok(c) && k <= |image| && k % 2 == 0 && base + |image| + 2 < 0x1_0000_0000
    requires c == c0.(address := base + k, memory := ApplyAll(c0.memory, Fills(base, image, k)),
                      ops := c0.ops + Fills(base, image, k))
    ensures var e := 2 * (|image| / 2);
            WriteFlash(c, false, low, image[k..]) ==
            c0.(address := base + e, memory := ApplyAll(c0.memory, Fills(base, image, e)), ops := c0.ops + Fills(base, image, e))
    decreases |image| - k
  {
    hide WriteFlash, DoOp, ApplyAll, Fills;
    if k + 2 > |image| {
      OddEnd(c, low, image[k..]);
    } else {
      var op := Fill(base + k, image[k], image[k + 1]);
      var c1 := DoOp(c, op).(address := base + k + 2);
      PairWritten(c, low, image[k..]);
      assert image[k..][2..] == image[k + 2..];
      FillsStep(c0, c, base, image, k);
      OpKeepsRest(c, op);
      WriteFlashFills(c0, c1, base, image, k + 2, image[k]);
    }
  }

  lemma OddEnd(c: Cdc, low: byte, data: seq<byte>)
    requires Ok(c) && |data| < 2
    ensures WriteFlash(c, false, low, data) == c
  {
    if |data| == 1 {
      assert data[1..] == [];
      assert WriteFlash(c, true, data[0], []) == c;
    }
  }

  lemma PairWritten(c: Cdc, low: byte, data: seq<byte>)
    requires Ok(c) && |data| >= 2 && c.address + 2 < 0x1_0000_0000
    ensures WriteFlash(c, false, low, data) ==
            WriteFlash(DoOp(c, Fill(c.address, data[0], data[1])).(address := c.address + 2), false, data[0], data[2..])
  {
    hide Apply;
    assert data[1..][0] == data[1] && data[1..][1..] == data[2..];
    var c1 := WriteFlash(c, true, data[0], data[1..]);
  }

  lemma FillsStep(c0: Cdc, c: Cdc, base: nat, image: seq<byte>, k: nat)
    requires Ok(c0) && Ok(c) && k + 2 <= |image| && k % 2 == 0
    requires c.memory == ApplyAll(c0.memory, Fills(base, image, k)) && c.ops == c0.ops + Fills(base, image, k)
    ensures var c1 := DoOp(c, Fill(base + k, image[k], image[k + 1]));
            c1.memory == ApplyAll(c0.memory, Fills(base, image, k + 2)) && c1.ops == c0.ops + Fills(base, image, k + 2)
  {
    hide Apply, ApplyAll;
    var op := Fill(base + k, image[k], image[k + 1]);
    assert Fills(base, image, k + 2) == Fills(base, image, k) + [op];
    ApplyAppend(c0.memory, Fills(base, image, k), [op]);
    ApplyOne(c.memory, op);
  }

  /** All operations of a block write. */
  function BlockOps(base: nat, image: seq<byte>): seq<Op> {
    [Erase(base)] + Fills(base, image, 2 * (|image| / 2)) + [Commit(base)]
  }

  lemma BlockOpsApply(m: Memory, base: nat, image: seq<byte>)
    requires ValidMemory(m)
    ensures ApplyAll(m, BlockOps(base, image)) ==
            Apply(ApplyAll(Apply(m, Erase(base)), Fills(base, image, 2 * (|image| / 2))), Commit(base))
  {
    var f := Fills(base, image, 2 * (|image| / 2));
    assert BlockOps(base, image) == [Erase(base)] + f + [Commit(base)];
    hide *;
    ApplyAppend(m, [Erase(base)] + f, [Commit(base)]);
    ApplyAppend(m, [Erase(base)], f);
    ApplyOne(m, Erase(base));
    ApplyOne(ApplyAll(Apply(m, Erase(base)), f), Commit(base));
  }

  lemma FillsNone(c: Cdc, base: nat, image: seq<byte>)
    requires Ok(c)
    ensures c.(memory := ApplyAll(c.memory, Fills(base, image, 0)), ops := c.ops + Fills(base, image, 0)) == c
    ensures image[0..] == image
  {
    assert Fills(base, image, 0) == [] && ApplyAll(c.memory, []) == c.memory && c.ops + [] == c.ops;
  }

  lemma WriteBlockOps(c: Cdc, image: seq<byte>)
    requires Ok(c) && c.address + |image| + 2 < 0x1_0000_0000
    ensures WriteBlock(c, 'F', image) ==
            c.(address := c.address + 2 * (|image| / 2), memory := ApplyAll(c.memory, BlockOps(c.address, image)),
               ops := c.ops + BlockOps(c.address, image))
  {
    hide WriteFlash, Apply, ApplyAll, Fills;
    var base, f := c.address, Fills(c.address, image, 2 * (|image| / 2));
    var c0 := DoOp(c, Erase(base));
    FillsNone(c0, base, image);
    WriteFlashFills(c0, c0, base, image, 0, 0);
    BlockOpsApply(c.memory, base, image);
    assert c.ops + BlockOps(base, image) == c.ops + [Erase(base)] + f + [Commit(base)];
  }

  lemma {:induction false} FillsLoad(m: Memory, base: nat, image: seq<byte>, k: nat)
    requires Loadable(m, base, image) && k <= |image| <= PAGE && k % 2 == 0
    ensures ApplyAll(Loaded(m, base, image, 0, 0, true), Fills(base, image, k)) == Loaded(m, base, image, 0, k, true)
    decreases k
  {
    hide Apply, Loaded;
    var m0 := Loaded(m, base, image, 0, 0, true);
    if k == 0 {
    } else {
      FillsLoad(m, base, image, k - 2);
      FillWord(m, base, image, 0, k - 2);
      var op := Fill(base + k - 2, image[k - 2], image[k - 1]);
      ApplyAppend(m0, Fills(base, image, k - 2), [op]);
      ApplyOne(ApplyAll(m0, Fills(base, image, k - 2)), op);
    }
  }

  /** A block of at most a page at a page boundary: its whole words are in flash, the rest of the page
      is blank and nothing else has changed. */
  lemma BlockLoads(m: Memory, base: nat, image: seq<byte>)
    requires Loadable(m, base, image) && 0 < |image| <= PAGE
    ensures ApplyAll(m, BlockOps(base, image)) == Complete(m, base, image[..2 * (|image| / 2)], base + PAGE)
  {
    hide Apply, ApplyAll, Complete, Fills;
    LoadedNone(m, base, image);
    hide Loaded;
    var e := 2 * (|image| / 2);
    ErasePage(m, base, image, 0);
    FillsLoad(m, base, image, e);
    CommitPage(m, base, image, 0, e);
    BlockOpsApply(m, base, image);
  }

  lemma {:induction false} FillsStayOpen(base: nat, image: seq<byte>, k: nat)
    requires k <= |image| <= PAGE && k % 2 == 0
    ensures PhaseAfter(base, [Erase(base)] + Fills(base, image, k)) == Open(base)
    decreases k
  {
    if k == 0 {
      assert [Erase(base)] + Fills(base, image, 0) == [] + [Erase(base)];
      PhaseIf(base, [], Erase(base), true);
    } else {
      FillsStayOpen(base, image, k - 2);
      var op := Fill(base + k - 2, image[k - 2], image[k - 1]);
      var ops := [Erase(base)] + Fills(base, image, k - 2);
      assert [Erase(base)] + Fills(base, image, k) == ops + [op];
      PhaseIf(base, ops, op, true);
    }
  }

  /** Erased once before its fills, committed once after them. */
  lemma BlockInOrder(base: nat, image: seq<byte>)
    requires |image| <= PAGE
    ensures PhaseAfter(base, BlockOps(base, image)) == Closed(base + PAGE)
  {
    hide PhaseAfter, Fills;
    FillsStayOpen(base, image, 2 * (|image| / 2));
    PhaseIf(base, [Erase(base)] + Fills(base, image, 2 * (|image| / 2)), Commit(base), true);
  }

  // ----- Reading a block of flash -----

  lemma {:induction false} ReadsFlash(cells: seq<byte>, address: nat, n: nat)
    requires address % 2 == 0 && address + n + 2 < 0x1_0000_0000
    ensures ReadFlash(cells, address, false, n).0 == FlashBytes(cells, address, n)
    decreases n
  {
    var bytes := FlashBytes(cells, address, n);
    if n == 1 {
      assert bytes == [CellAt(cells, address)];
      assert ReadFlash(cells, address, true, 0).0 == [];
    } else if n >= 2 {
      ReadsFlash(cells, address + 2, n - 2);
      ReadPair(cells, address, n);
      hide ReadFlash;
      var rest := FlashBytes(cells, address + 2, n - 2);
      forall i | 2 <= i < n
        ensures bytes[i] == rest[i - 2]
      {
        assert bytes[i] == CellAt(cells, address + i);
        assert rest[i - 2] == CellAt(cells, address + 2 + (i - 2));
      }
      assert bytes[0] == CellAt(cells, address + 0) && bytes[1] == CellAt(cells, address + 1);
      assert bytes == [CellAt(cells, address), CellAt(cells, address + 1)] + rest;
    }
  }

  lemma ReadPair(cells: seq<byte>, address: nat, n: nat)
    requires address % 2 == 0 && address + 2 < 0x1_0000_0000 && n >= 2
    ensures ReadFlash(cells, address, false, n).0 ==
            [CellAt(cells, address), CellAt(cells, address + 1)] + ReadFlash(cells, address + 2, false, n - 2).0
  {
    assert ReadFlash(cells, address, true, n - 1).0 ==
           [CellAt(cells, address + 1)] + ReadFlash(cells, address + 2, false, n - 2).0;
  }

  // ----- Round trips -----

  /** What a block write leaves of the block: an odd last byte is lost, its cell gets what the page
      buffer held there. */
  function Kept(image: seq<byte>, left: seq<byte>): (k: seq<byte>)
    requires |image| <= |left|
    ensures |k| == |image|
    ensures k == image <==> |image| % 2 == 0 || image[|image| - 1] == left[|image| - 1]
  {
    if |image| % 2 == 0 then image else image[..|image| - 1] + [left[|image| - 1]]
  }

  lemma CompleteReads(m: Memory, base: nat, image: seq<byte>)
    requires Loadable(m, base, image) && 0 < |image| <= PAGE
    ensures var cells := Complete(m, base, image[..2 * (|image| / 2)], base + PAGE).cells;
            FlashBytes(cells, base, |image|) == Kept(image, m.buffer)
  {
    hide Complete, Kept, Loadable, FlashBytes;
    EvenPage();
    var n := |image|;
    var e := 2 * (n / 2);
    assert e == n || (e == n - 1 && n < PAGE);
    var cells := Complete(m, base, image[..e], base + PAGE).cells;
    BlockFits(m, base, image);
    FlashSlice(cells, base, n);
    forall i: nat | i < n
      ensures cells[base + i] == Kept(image, m.buffer)[i]
    {
      CompleteAt(m, base, image, e, i);
      KeptAt(image, m.buffer, i);
    }
  }

  lemma BlockFits(m: Memory, base: nat, image: seq<byte>)
    requires Loadable(m, base, image)
    ensures |m.buffer| == PAGE && base + |image| <= |m.cells|
  {
  }

  lemma CompleteAt(m: Memory, base: nat, image: seq<byte>, e: nat, i: nat)
    requires i < |image| <= PAGE && e <= |image| && (e < |image| ==> e < PAGE) && |m.buffer| == PAGE
    requires base + |image| <= |m.cells|
    ensures Complete(m, base, image[..e], base + PAGE).cells[base + i] == if i < e then image[i] else m.buffer[i]
  {
  }

  lemma KeptAt(image: seq<byte>, left: seq<byte>, i: nat)
    requires i < |image| <= |left|
    ensures Kept(image, left)[i] == if i < 2 * (|image| / 2) then image[i] else left[i]
  {
  }

  /** The AVR109 round trip: set a page-aligned address, write a block of at most a page, run any
      commands that keep the flash, set the address again and read: the reply is the block,
      exactly so if its size is even (Kept). */
  lemma FlashRoundTrip(c: Cdc, high: byte, low: byte, sizeHigh: byte, sizeLow: byte, stream: nat -> byte, between: seq<Command>)
    requires Ok(c) && 0 < Word(sizeHigh, sizeLow) <= PAGE && Harmless(between)
    requires Loadable(c.memory, SetAddressTo(high, low), Take(stream, Word(sizeHigh, sizeLow)))
    ensures var image := Take(stream, Word(sizeHigh, sizeLow));
            var c1 := Step(Step(c, SetAddress(high, low)), BlockWrite(sizeHigh, sizeLow, 'F', stream));
            var c2 := Step(Run(c1, between), SetAddress(high, low));
            && c1.memory == Complete(c.memory, SetAddressTo(high, low), image[..2 * (|image| / 2)], SetAddressTo(high, low) + PAGE)
            && c1.ops == c.ops + BlockOps(SetAddressTo(high, low), image)
            && Reply(c2, BlockRead(sizeHigh, sizeLow, 'F')) == Kept(image, c.memory.buffer)
  {
    var base, image := SetAddressTo(high, low), Take(stream, Word(sizeHigh, sizeLow));
    SmallBlock(c.memory, base, image);
    WrittenBlock(c, high, low, sizeHigh, sizeLow, stream);
    hide WriteBlock, Complete, Apply, ApplyAll, BlockOps, ReadFlash, SetAddressTo, Word, Loadable, Step;
    var c1 := Step(Step(c, SetAddress(high, low)), BlockWrite(sizeHigh, sizeLow, 'F', stream));
    HarmlessRun(c1, between);
    CompleteReads(c.memory, base, image);
    ReadAt(Run(c1, between), high, low, sizeHigh, sizeLow);
    ReadsFlash(c1.memory.cells, base, |image|);
  }

  lemma SmallBlock(m: Memory, base: nat, image: seq<byte>)
    requires Loadable(m, base, image)
    ensures base + |image| + 2 < 0x1_0000_0000
  {
  }

  lemma WrittenBlock(c: Cdc, high: byte, low: byte, sizeHigh: byte, sizeLow: byte, stream: nat -> byte)
    requires Ok(c) && 0 < Word(sizeHigh, sizeLow) <= PAGE
    requires Loadable(c.memory, SetAddressTo(high, low), Take(stream, Word(sizeHigh, sizeLow)))
    ensures var image := Take(stream, Word(sizeHigh, sizeLow));
            var c1 := Step(Step(c, SetAddress(high, low)), BlockWrite(sizeHigh, sizeLow, 'F', stream));
            c1.memory == Complete(c.memory, SetAddressTo(high, low), image[..2 * (|image| / 2)], SetAddressTo(high, low) + PAGE)
            && c1.ops == c.ops + BlockOps(SetAddressTo(high, low), image)
  {
    hide WriteBlock, Complete, Apply, ApplyAll, BlockOps, SetAddressTo, Word, Take;
    var base, image := SetAddressTo(high, low), Take(stream, Word(sizeHigh, sizeLow));
    SmallBlock(c.memory, base, image);
    WriteBlockOps(c.(address := base), image);
    BlockLoads(c.memory, base, image);
  }

  lemma {:induction false} WriteFlashKeepsCells(c: Cdc, highByte: bool, lowByte: byte, data: seq<byte>)
    requires Ok(c)
    ensures WriteFlash(c, highByte, lowByte, data).memory.cells == c.memory.cells
    decreases |data|
  {
    hide Offset, Next;
    if data == [] {
    } else if highByte {
      FillKeepsCells(c.memory, c.address, lowByte, data[0]);
      WriteFlashKeepsCells(DoOp(c, Fill(c.address, lowByte, data[0])).(address := NextAddress(c.address)), false, lowByte, data[1..]);
    } else {
      WriteFlashKeepsCells(c, true, data[0], data[1..]);
    }
  }

  function NextAddress(address: nat): (a: nat)
    ensures a == Next(address) < 0x1_0000_0000
  {
    PointerFits(address);
    Next(address)
  }

  lemma FillKeepsCells(m: Memory, a: nat, low: byte, high: byte)
    requires ValidMemory(m)
    ensures Apply(m, Fill(a, low, high)).cells == m.cells
  {
  }

  lemma Ignored(m: Memory, a: nat)
    requires ValidMemory(m) && a >= BOOT_START
    ensures Apply(m, Erase(a)) == m && Apply(m, Commit(a)) == m
  {
  }

  /** So word addresses with bit 14 set cannot be written: a block of any size reaches no flash cell. */
  lemma HighAddressesWriteNothing(c: Cdc, high: byte, low: byte, sizeHigh: byte, sizeLow: byte, stream: nat -> byte)
    requires Ok(c) && high % 128 >= 0x40
    ensures var c1 := Step(Step(c, SetAddress(high, low)), BlockWrite(sizeHigh, sizeLow, 'F', stream));
            c1.memory.cells == c.memory.cells
  {
    AddressIs(high, low);
    hide Apply, SetAddressTo, Word, Take, WriteFlash;
    var c0 := c.(address := SetAddressTo(high, low));
    Ignored(c0.memory, c0.address);
    var c1 := DoOp(c0, Erase(c0.address));
    var data := Take(stream, Word(sizeHigh, sizeLow));
    WriteFlashKeepsCells(c1, false, 0, data);
    Ignored(WriteFlash(c1, false, 0, data).memory, c0.address);
  }

  lemma ReadAt(c: Cdc, high: byte, low: byte, sizeHigh: byte, sizeLow: byte)
    requires Ok(c)
    ensures Reply(Step(c, SetAddress(high, low)), BlockRead(sizeHigh, sizeLow, 'F')) ==
            ReadFlash(c.memory.cells, SetAddressTo(high, low), false, Word(sizeHigh, sizeLow)).0
  {
    hide ReadFlash, SetAddressTo, Word;
  }

  /** Commands that leave flash and page buffer alone. */
  predicate Harmless(commands: seq<Command>) {
    forall i :: 0 <= i < |commands| ==>
      match commands[i]
      case BlockWrite(_, _, memoryType, _) => memoryType != 'F'
      case FillPageWordHigh(_) => false
      case FillPageWordLow(_) => false
      case WriteFlashPage => false
      case EraseFlash => false
      case _ => true
  }

  lemma {:induction false} WriteEepromKeepsFlash(c: Cdc, data: seq<byte>)
    requires Ok(c)
    ensures var e := WriteEeprom(c, data); e.memory == c.memory && e.ops == c.ops && e.running == c.running
    decreases |data|
  {
    if data == [] {
    } else {
      WriteEepromKeepsFlash(c.(eeprom := c.eeprom[EepromPointer(c.address) := data[0]], address := Next(c.address)), data[1..]);
    }
  }

  lemma {:induction false} HarmlessRun(c: Cdc, commands: seq<Command>)
    requires Ok(c) && Harmless(commands)
    ensures Run(c, commands).memory == c.memory && Run(c, commands).ops == c.ops
    decreases |commands|
  {
    hide WriteEeprom, ReadBlock, WriteFlash, Apply, ApplyAll;
    if commands == [] {
    } else {
      var before, last := commands[..|commands| - 1], commands[|commands| - 1];
      HarmlessRun(c, before);
      match last
      case BlockWrite(high, low, memoryType, stream) =>
        WriteEepromKeepsFlash(Run(c, before), Take(stream, Word(high, low)));
      case _ =>
    }
  }

  lemma NextPointer(address: nat)
    requires address < 0x1_0000_0000 && address % 2 == 0
    ensures EepromPointer(Next(address)) == Eeprom.Position(EepromPointer(address), 1) && Next(address) % 2 == 0
  {
    var h := address / 2;
    var h' := if h + 1 == 0x8000_0000 then 0 else h + 1;
    assert address == 2 * h && Next(address) == 2 * h';
    NextPosition(h);
  }

  lemma NextPosition(h: nat)
    ensures (h % Eeprom.SIZE + 1) % Eeprom.SIZE == (h + 1) % Eeprom.SIZE
  {
    var q, r := h / 0x10000, h % 0x10000;
    assert h == q * 0x10000 + r;
    if r + 1 == 0x10000 {
      QuotientUnique(q + 1, 0, 0x10000);
    } else {
      QuotientUnique(q, r + 1, 0x10000);
    }
  }

  /** An EEPROM block overwrites consecutive cells. */
  lemma {:induction false} EepromWritten(c: Cdc, data: seq<byte>)
    requires Ok(c) && c.address % 2 == 0 && |data| < Eeprom.SIZE
    ensures WriteEeprom(c, data).eeprom == Eeprom.Overwritten(c.eeprom, EepromPointer(c.address), data)
    decreases |data|
  {
    hide Eeprom.Overwritten, EepromPointer, Next;
    if data == [] {
      Eeprom.WriteNone(c.eeprom, EepromPointer(c.address));
    } else {
      NextPointer(c.address);
      PointerFits(c.address);
      var p := EepromPointer(c.address);
      EepromWritten(c.(eeprom := c.eeprom[p := data[0]], address := Next(c.address)), data[1..]);
      Eeprom.WriteFirst(c.eeprom, p, data[0], data[1..]);
      assert [data[0]] + data[1..] == data;
    }
  }

  lemma PointerFits(address: nat)
    ensures EepromPointer(address) < Eeprom.SIZE && Next(address) < 0x1_0000_0000
  {
  }

  lemma {:induction false} EepromReads(cells: seq<byte>, address: nat, n: nat)
    requires |cells| == Eeprom.SIZE && address < 0x1_0000_0000 && address % 2 == 0
    ensures ReadEeprom(cells, address, n).0 == Eeprom.Bytes(cells, EepromPointer(address), n)
    decreases n
  {
    hide EepromPointer, Next;
    if n == 0 {
    } else {
      NextPointer(address);
      PointerFits(address);
      EepromReads(cells, Next(address), n - 1);
      BytesFirst(cells, EepromPointer(address), n);
    }
  }

  lemma BytesFirst(cells: seq<byte>, p: nat, n: nat)
    requires |cells| == Eeprom.SIZE && p < Eeprom.SIZE && n > 0
    ensures Eeprom.Bytes(cells, p, n) == [cells[p]] + Eeprom.Bytes(cells, Eeprom.Position(p, 1), n - 1)
  {
    assert Eeprom.Position(p, 0) == p;
    forall i: nat | i < n - 1
      ensures Eeprom.Position(p, i + 1) == Eeprom.Position(Eeprom.Position(p, 1), i)
    {
    }
  }

  /** The EEPROM round trip at any word address and for any size. */
  lemma EepromRoundTrip(c: Cdc, high: byte, low: byte, sizeHigh: byte, sizeLow: byte, stream: nat -> byte)
    requires Ok(c)
    ensures var c1 := Step(Step(c, SetAddress(high, low)), BlockWrite(sizeHigh, sizeLow, 'E', stream));
            var c2 := Step(c1, SetAddress(high, low));
            Reply(c2, BlockRead(sizeHigh, sizeLow, 'E')) == Take(stream, Word(sizeHigh, sizeLow))
  {
    hide WriteEeprom, ReadEeprom, SetAddressTo, Word, Take, Eeprom.Overwritten, Eeprom.Bytes, EepromPointer;
    var a, data := SetAddressTo(high, low), Take(stream, Word(sizeHigh, sizeLow));
    var c0 := c.(address := a);
    EepromWritten(c0, data);
    EepromReads(WriteEeprom(c0, data).eeprom, a, |data|);
    PointerFits(a);
    Eeprom.ReadBack(c.eeprom, EepromPointer(a), data);
  }

  // ----- The single-byte commands -----

  /** The erase command blanks the whole application section and leaves the rest alone. */
  lemma EraseErases(c: Cdc)
    requires Ok(c)
    ensures var cells := Step(c, EraseFlash).memory.cells;
            && (forall i :: 0 <= i < BOOT_START ==> cells[i] == BLANK)
            && (forall i :: BOOT_START <= i < |c.memory.cells| ==> cells[i] == c.memory.cells[i])
  {
    ChipEraseBlanks(c.memory);
    BootSectionKept(c.memory, CHIP_ERASE);
    hide ApplyAll, EraseFrom;
  }

  /** A word read answers the bytes a block read would, in the other order. */
  lemma WordReadsBlock(c: Cdc)
    requires Ok(c) && c.address % 2 == 0
    ensures var w, b := Reply(c, ReadFlashWord), Reply(c, BlockRead(0, 2, 'F'));
            |w| == |b| == 2 && w[0] == b[1] && w[1] == b[0]
  {
    hide ReadFlash, CellAt;
    assert Word(0, 2) == 2;
    ReadTwo(c.memory.cells, c.address);
  }

  lemma ReadTwo(cells: seq<byte>, a: nat)
    requires a % 2 == 0
    ensures ReadFlash(cells, a, false, 2).0 == [CellAt(cells, a), CellAt(cells, a + 1)]
  {
    hide CellAt, Next;
    assert ReadFlash(cells, Next(a), false, 0).0 == [];
    assert ReadFlash(cells, a, true, 1).0 == [CellAt(cells, a + 1)] + [];
  }

  lemma WriteFlashKeepsRest(c: Cdc, highByte: bool, lowByte: byte, data: seq<byte>)
    requires Ok(c)
    ensures var w := WriteFlash(c, highByte, lowByte, data); w.running == c.running && w.eeprom == c.eeprom
    decreases |data|
  {
    hide Apply, Next;
    if data == [] {
    } else if highByte {
      WriteFlashKeepsRest(DoOp(c, Fill(c.address, lowByte, data[0])).(address := NextAddress(c.address)), false, lowByte, data[1..]);
    } else {
      WriteFlashKeepsRest(c, true, data[0], data[1..]);
    }
  }

  /** Block commands for anything but flash and EEPROM are answered with '?' and do nothing; block writes
      to these two are answered with a carriage return. */
  lemma MemoryTypes(c: Cdc, high: byte, low: byte, memoryType: char, stream: nat -> byte)
    requires Ok(c)
    ensures var w, r := BlockWrite(high, low, memoryType, stream), BlockRead(high, low, memoryType);
            if memoryType in {'F', 'E'} then Reply(c, w) == [13] && |Reply(c, r)| == Word(high, low)
            else Reply(c, w) == Reply(c, r) == ['?' as int] && Step(c, w) == c && Step(c, r) == c
  {
    hide ReadFlash, ReadEeprom, WriteFlash, WriteEeprom, Word;
  }

  /** Which commands move the address, and which change flash and EEPROM: no others do. */
  lemma OnlyTheseAct(c: Cdc, command: Command)
    requires Ok(c)
    ensures var c1 := Step(c, command);
            && (c1.address != c.address ==>
                  command.SetAddress? || command.BlockWrite? || command.BlockRead? || command.FillPageWordLow? ||
                  command.WriteEepromByte? || command.ReadEepromByte?)
            && (c1.memory.cells != c.memory.cells ==>
                  (command.BlockWrite? && command.memoryType == 'F') || command.WriteFlashPage? || command.EraseFlash?)
            && (c1.eeprom != c.eeprom ==>
                  (command.BlockWrite? && command.memoryType == 'E') || command.WriteEepromByte?)
  {
    hide WriteFlash, WriteEeprom, ReadBlock, ApplyAll;
    match command
    case BlockWrite(high, low, memoryType, stream) =>
      var data := Take(stream, Word(high, low));
      WriteFlashKeepsRest(DoOp(c, Erase(c.address)), false, 0, data);
      WriteEepromKeepsFlash(c, data);
    case _ =>
  }

  /** Only the exit command ends the loader. */
  lemma RunsUntilExit(c: Cdc, command: Command)
    requires Ok(c)
    ensures Step(c, command).running == (c.running && !command.ExitBootloader?)
  {
    hide WriteFlash, WriteEeprom, ReadBlock, Apply, ApplyAll;
    match command
    case BlockWrite(high, low, memoryType, stream) =>
      var data := Take(stream, Word(high, low));
      WriteFlashKeepsRest(DoOp(c, Erase(c.address)), false, 0, data);
      WriteEepromKeepsFlash(c, data);
    case _ =>
  }

  /** An EEPROM byte written at an address is read from it, and both move on by one cell. */
  lemma EepromByteBack(c: Cdc, high: byte, low: byte, value: byte)
    requires Ok(c)
    ensures var c1 := Step(Step(c, SetAddress(high, low)), WriteEepromByte(value));
            && Reply(Step(c1, SetAddress(high, low)), ReadEepromByte) == [value]
            && c1.address == Step(Step(c, SetAddress(high, low)), ReadEepromByte).address
            && EepromPointer(c1.address) == Eeprom.Position(EepromPointer(SetAddressTo(high, low)), 1)
  {
    hide SetAddressTo, EepromPointer, Next;
    NextPointer(SetAddressTo(high, low));
    PointerFits(SetAddressTo(high, low));
  }

  /** The byte-wise page fill: of a word sent as high and low byte only the last byte is kept, with 0
      above it. So the word meant is in the buffer if and only if its high byte is 0. */
  lemma ByteFills(c: Cdc, high: byte, low: byte)
    requires Ok(c) && c.address % 2 == 0
    ensures var c1 := Step(Step(c, FillPageWordHigh(high)), FillPageWordLow(low));
            var o := Rem(c.address);
            && o + 1 < PAGE && c1.address == Next(c.address) && c1.memory.cells == c.memory.cells
            && c1.memory.buffer[o] == low && c1.memory.buffer[o + 1] == 0
            && (forall k :: 0 <= k < PAGE && k != o && k != o + 1 ==> c1.memory.buffer[k] == c.memory.buffer[k])
            && ([c1.memory.buffer[o], c1.memory.buffer[o + 1]] == [low, high] <==> high == 0)
  {
    hide Apply, Offset, Rem, Next;
    EvenPlace(c.address);
    var m1 := Apply(c.memory, Fill(c.address, high, 0));
    FillAt(c.memory, c.address, Rem(c.address), high, 0);
    FillAt(m1, c.address + 1, Rem(c.address), low, 0);
  }

  lemma FillAt(m: Memory, a: nat, o: nat, low: byte, high: byte)
    requires ValidMemory(m) && o % 2 == 0 && o + 1 < PAGE && (Rem(a) == o || Rem(a) == o + 1)
    ensures var x := Apply(m, Fill(a, low, high));
            x.cells == m.cells && x.buffer == m.buffer[o := low][o + 1 := high]
  {
    OffsetIsRem(a);
    hide Offset, Rem;
  }

  lemma EvenPlace(a: nat)
    requires a % 2 == 0
    ensures Rem(a) % 2 == 0 && Rem(a) + 1 < PAGE && Rem(a + 1) == Rem(a) + 1
  {
    EvenPage();
    if a >= PAGE {
      EvenPlace(a - PAGE);
    }
  }

  /** A page write commits the buffer to the page of the current address. */
  lemma PageWritten(c: Cdc)
    requires Ok(c) && c.address < BOOT_START && Rem(c.address) == 0
    requires forall i :: c.address <= i < c.address + PAGE && i < |c.memory.cells| ==> c.memory.cells[i] == BLANK
    ensures var c1 := Step(c, WriteFlashPage);
            && c.address + PAGE <= |c1.memory.cells| && c1.memory.cells[c.address..c.address + PAGE] == c.memory.buffer
            && c1.memory.buffer == Blank(PAGE)
  {
    PageAt(c.address, 0);
    hide Offset, PageAddressValid, Rem, ProgramByte;
    forall b: byte {
      ProgramErased(b);
    }
  }
}

/** The loader itself. */
module CdcLoader {
  import opened Common
  import opened Flash
  import opened Avr109
  import BootloaderAPI
  import Eeprom

  class Loader {
    const device: BootloaderAPI.FlashDevice
    var eeprom: seq<byte>
    var currAddress: nat
    var runBootloader: bool

    ghost function Abs(): Cdc
      reads this, device
    {
      Cdc(currAddress, runBootloader, device.memory, eeprom, device.ops)
    }

    ghost predicate Valid()
      reads this, device
    {
      device.Valid() && Ok(Abs())
    }

    constructor (device: BootloaderAPI.FlashDevice, eeprom: seq<byte>)
      requires device.Valid() && |eeprom| == Eeprom.SIZE
      ensures Valid() && this.device == device && this.eeprom == eeprom && currAddress == 0 && runBootloader
    {
      this.device, this.eeprom, currAddress, runBootloader := device, eeprom, 0, true;
    }

    method WriteFlashBytes(data: seq<byte>)
      requires Valid()
      modifies this`currAddress, device
      ensures Valid() && Abs() == WriteFlash(old(Abs()), false, 0, data)
    {
      var highByte, lowByte: byte := false, 0;
      assert data[0..] == data;
      for i := 0 to |data|
        invariant Valid()
        invariant WriteFlash(Abs(), highByte, lowByte, data[i..]) == WriteFlash(old(Abs()), false, 0, data)
      {
        hide Apply, Next;
        assert data[i..][1..] == data[i + 1..];
        NextFits(currAddress);
        if highByte {
          device.FillWord(currAddress, lowByte, data[i]);
          currAddress := Next(currAddress);
        } else {
          lowByte := data[i];
        }
        highByte := !highByte;
      }
    }

    method WriteEepromBytes(data: seq<byte>)
      requires Valid()
      modifies this
      ensures Valid() && Abs() == WriteEeprom(old(Abs()), data)
    {
      assert data[0..] == data;
      for i := 0 to |data|
        invariant Valid()
        invariant WriteEeprom(Abs(), data[i..]) == WriteEeprom(old(Abs()), data)
      {
        hide Next, EepromPointer;
        assert data[i..][1..] == data[i + 1..];
        NextFits(currAddress);
        eeprom := eeprom[EepromPointer(currAddress) := data[i]];
        currAddress := Next(currAddress);
      }
    }

    method ReadFlashBytes(n: nat) returns (reply: seq<byte>)
      requires Valid()
      modifies this`currAddress
      ensures Valid() && reply == ReadFlash(device.memory.cells, old(currAddress), false, n).0
      ensures currAddress == ReadFlash(device.memory.cells, old(currAddress), false, n).1
    {
      hide ReadFlash, Next, CellAt;
      var highByte := false;
      reply := [];
      ReadFlashFrom(reply, device.memory.cells, currAddress, highByte, n);
      for i := 0 to n
        invariant Valid()
        invariant var rest := ReadFlash(device.memory.cells, currAddress, highByte, n - i);
                  var all := ReadFlash(device.memory.cells, old(currAddress), false, n);
                  reply + rest.0 == all.0 && rest.1 == all.1
      {
        NextFits(currAddress);
        ReadFlashFrom(reply, device.memory.cells, currAddress, highByte, n - i);
        reply := reply + [CellAt(device.memory.cells, if highByte && currAddress % 2 == 0 then currAddress + 1 else currAddress)];
        if highByte {
          currAddress := Next(currAddress);
        }
        highByte := !highByte;
      }
      ReadFlashFrom(reply, device.memory.cells, currAddress, highByte, 0);
    }

    method ReadEepromBytes(n: nat) returns (reply: seq<byte>)
      requires Valid()
      modifies this`currAddress
      ensures Valid() && reply == ReadEeprom(eeprom, old(currAddress), n).0
      ensures currAddress == ReadEeprom(eeprom, old(currAddress), n).1
    {
      hide ReadEeprom, Next, EepromPointer;
      reply := [];
      ReadEepromFrom(reply, eeprom, currAddress, n);
      for i := 0 to n
        invariant Valid()
        invariant var rest := ReadEeprom(eeprom, currAddress, n - i);
                  var all := ReadEeprom(eeprom, old(currAddress), n);
                  reply + rest.0 == all.0 && rest.1 == all.1
      {
        NextFits(currAddress);
        ReadEepromFrom(reply, eeprom, currAddress, n - i);
        reply := reply + [eeprom[EepromPointer(currAddress)]];
        currAddress := Next(currAddress);
      }
      ReadEepromFrom(reply, eeprom, currAddress, 0);
    }

    /** ReadWriteMemoryBlock, 'B' */
    method WriteMemoryBlock(memoryType: char, data: seq<byte>) returns (reply: seq<byte>)
      requires Valid()
      modifies this, device
      ensures Valid() && Abs() == WriteBlock(old(Abs()), memoryType, data)
      ensures reply == if memoryType == 'F' || memoryType == 'E' then DONE else FAIL
    {
      hide WriteFlash, WriteEeprom, Apply;
      if memoryType != 'F' && memoryType != 'E' {
        return FAIL;
      }
      var pageStartAddress := currAddress;
      if memoryType == 'F' {
        device.ErasePage(pageStartAddress);
        WriteFlashBytes(data);
        device.WritePage(pageStartAddress);
      } else {
        WriteEepromBytes(data);
      }
      reply := DONE;
    }

    /** ReadWriteMemoryBlock, 'g' */
    method ReadMemoryBlock(memoryType: char, n: nat) returns (reply: seq<byte>)
      requires Valid()
      modifies this`currAddress
      ensures Valid() && reply == ReadBlock(old(Abs()), memoryType, n).0
      ensures currAddress == ReadBlock(old(Abs()), memoryType, n).1
    {
      hide ReadFlash, ReadEeprom;
      if memoryType == 'F' {
        reply := ReadFlashBytes(n);
      } else if memoryType == 'E' {
        reply := ReadEepromBytes(n);
      } else {
        reply := FAIL;
      }
    }

    method EraseOne(address: nat, ghost c: Cdc, ghost ops: seq<Op>)
      requires Valid() && Ok(c)
      requires Abs() == c.(memory := ApplyAll(c.memory, ops), ops := c.ops + ops)
      modifies device
      ensures Valid()
      ensures Abs() == c.(memory := ApplyAll(c.memory, ops + [Erase(address)]), ops := c.ops + (ops + [Erase(address)]))
    {
      hide Apply, ApplyAll;
      ApplyAppend(c.memory, ops, [Erase(address)]);
      ApplyOne(device.memory, Erase(address));
      device.ErasePage(address);
    }

    method EraseApplication()
      requires Valid()
      modifies device
      ensures Valid() && Abs() == EraseAll(old(Abs()))
    {
      hide Apply, ApplyAll, EraseFrom;
      ghost var ops: seq<Op> := [];
      var address: nat := 0;
      EraseFromCases(ops, address);
      NoOps(device.memory, device.ops);
      while address < BOOT_START
        invariant Valid()
        invariant Abs() == old(Abs()).(memory := ApplyAll(old(device.memory), ops), ops := old(device.ops) + ops)
        invariant ops + EraseFrom(address) == CHIP_ERASE
        invariant address >= BOOT_START ==> ops + EraseFrom(address) == ops
        decreases if address < BOOT_START then BOOT_START - address else 0
      {
        EraseOne(address, old(Abs()), ops);
        EraseFromCases(ops, address);
        ops := ops + [Erase(address)];
        address := address + PAGE;
        EraseFromCases(ops, address);
      }
    }

    /** CDC_Task with a complete command */
    method Execute(command: Command) returns (reply: seq<byte>)
      requires Valid()
      modifies this, device
      ensures Valid() && Abs() == Step(old(Abs()), command) && reply == Reply(old(Abs()), command)
    {
      hide WriteBlock, ReadBlock, Apply, ApplyAll, Next, EepromPointer, SetAddressTo, CellAt;
      NextFits(currAddress);
      reply := DONE;
      match command {
        case SetAddress(high, low) =>
          currAddress := SetAddressTo(high, low);
        case BlockWrite(sizeHigh, sizeLow, memoryType, stream) =>
          reply := WriteMemoryBlock(memoryType, Take(stream, Word(sizeHigh, sizeLow)));
        case BlockRead(sizeHigh, sizeLow, memoryType) =>
          reply := ReadMemoryBlock(memoryType, Word(sizeHigh, sizeLow));
        case FillPageWordHigh(value) =>
          device.FillWord(currAddress, value, 0);
        case FillPageWordLow(value) =>
          device.FillWord(if currAddress % 2 == 0 then currAddress + 1 else currAddress, value, 0);
          currAddress := Next(currAddress);
        case WriteFlashPage =>
          device.WritePage(currAddress);
        case ReadFlashWord =>
          reply := [CellAt(device.memory.cells, currAddress + 1), CellAt(device.memory.cells, currAddress)];
        case WriteEepromByte(value) =>
          eeprom := eeprom[EepromPointer(currAddress) := value];
          currAddress := Next(currAddress);
        case ReadEepromByte =>
          reply := [eeprom[EepromPointer(currAddress)]];
          currAddress := Next(currAddress);
        case EraseFlash =>
          EraseApplication();
        case ExitBootloader =>
          runBootloader := false;
        case Sync =>
          reply := [];
        case Unknown =>
          reply := FAIL;
      }
    }
  }

  /** One turn of the read loop, and its end. */
  lemma ReadFlashFrom(reply: seq<byte>, cells: seq<byte>, address: nat, highByte: bool, n: nat)
    ensures var all := ReadFlash(cells, address, highByte, n);
            if n == 0 then reply + all.0 == reply && all.1 == address
            else
              var a := if highByte && address % 2 == 0 then address + 1 else address;
              var rest := ReadFlash(cells, if highByte then Next(address) else address, !highByte, n - 1);
              reply + all.0 == reply + [CellAt(cells, a)] + rest.0 && all.1 == rest.1
    ensures [] + ReadFlash(cells, address, highByte, n).0 == ReadFlash(cells, address, highByte, n).0
  {
  }

  lemma ReadEepromFrom(reply: seq<byte>, cells: seq<byte>, address: nat, n: nat)
    requires |cells| == Eeprom.SIZE
    ensures var all := ReadEeprom(cells, address, n);
            if n == 0 then reply + all.0 == reply && all.1 == address
            else
              var rest := ReadEeprom(cells, Next(address), n - 1);
              reply + all.0 == reply + [cells[EepromPointer(address)]] + rest.0 && all.1 == rest.1
    ensures [] + ReadEeprom(cells, address, n).0 == ReadEeprom(cells, address, n).0
  {
  }

  lemma NextFits(address: nat)
    ensures Next(address) < 0x1_0000_0000 && EepromPointer(address) < Eeprom.SIZE
  {
  }

  lemma NoOps(m: Memory, ops: seq<Op>)
    requires ValidMemory(m)
    ensures ApplyAll(m, []) == m && ops + [] == ops
  {
  }
}
