/** The EEPROM behind the 16-bit pointers of the loaders. */
module Eeprom {
  import opened Common

  const SIZE: nat := 0x10000

  /** The i-th cell from an address on; pointers wrap. */
  function Position(address: nat, i: nat): (p: nat)
    ensures p < SIZE
  {
    (address + i) % SIZE
  }

  function CellAfter(cells: seq<byte>, address: nat, data: seq<byte>, a: nat): byte
    requires |cells| == SIZE && a < SIZE
  {
    var k := (a - address) % SIZE;
    if k < |data| then data[k] else cells[a]
  }

  /** The cells after writing the data from an address on. */
  function Overwritten(cells: seq<byte>, address: nat, data: seq<byte>): (r: seq<byte>)
    requires |cells| == SIZE
    ensures |r| == SIZE
  {
    seq<byte>(SIZE, a requires 0 <= a < SIZE => CellAfter(cells, address, data, a))
  }

  function Bytes(cells: seq<byte>, address: nat, n: nat): (s: seq<byte>)
    requires |cells| == SIZE
    ensures |s| == n
  {
    seq<byte>(n, i requires 0 <= i < n => cells[Position(address, i)])
  }

  /** Writing byte by byte. */
  lemma WriteFirst(cells: seq<byte>, address: nat, b: byte, rest: seq<byte>)
    requires |cells| == SIZE && address < SIZE && |rest| < SIZE
    ensures Overwritten(cells[address := b], Position(address, 1), rest) == Overwritten(cells, address, [b] + rest)
  {
    var x := Overwritten(cells[address := b], Position(address, 1), rest);
    var y := Overwritten(cells, address, [b] + rest);
    forall a: nat | a < SIZE
      ensures x[a] == y[a]
    {
      assert x[a] == CellAfter(cells[address := b], Position(address, 1), rest, a);
      assert y[a] == CellAfter(cells, address, [b] + rest, a);
    }
  }

  lemma WriteNone(cells: seq<byte>, address: nat)
    requires |cells| == SIZE
    ensures Overwritten(cells, address, []) == cells
  {
    var x := Overwritten(cells, address, []);
    forall a: nat | a < SIZE
      ensures x[a] == cells[a]
    {
      assert x[a] == CellAfter(cells, address, [], a);
    }
  }

  lemma PositionInverse(address: nat, i: nat)
    requires i < SIZE
    ensures (Position(address, i) - address) % SIZE == i
  {
  }

  lemma InversePosition(address: nat, a: nat)
    requires a < SIZE
    ensures Position(address, (a - address) % SIZE) == a
  {
  }

  /** What was written can be read back. */
  lemma ReadBack(cells: seq<byte>, address: nat, data: seq<byte>)
    requires |cells| == SIZE && |data| <= SIZE
    ensures Bytes(Overwritten(cells, address, data), address, |data|) == data
  {
    hide Position;
    var after := Overwritten(cells, address, data);
    forall i: nat | i < |data|
      ensures Bytes(after, address, |data|)[i] == data[i]
    {
      PositionInverse(address, i);
      var p := Position(address, i);
      assert after[p] == CellAfter(cells, address, data, p);
    }
  }

  /** Nothing outside the range has changed. */
  lemma OthersKept(cells: seq<byte>, address: nat, data: seq<byte>, a: nat)
    requires |cells| == SIZE && a < SIZE && forall i: nat :: i < |data| ==> Position(address, i) != a
    ensures Overwritten(cells, address, data)[a] == cells[a]
  {
    hide Position;
    InversePosition(address, a);
    assert Overwritten(cells, address, data)[a] == CellAfter(cells, address, data, a);
  }
}
