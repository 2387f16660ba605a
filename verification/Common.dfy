/** Types shared by all components. */
module Common {

  type byte = b: int | 0 <= b < 256

  /** A 16-bit word from its two bytes. */
  function Word(high: byte, low: byte): (w: nat)
    ensures w < 0x10000
  {
    var h: nat := high;
    256 * h + low
  }

  datatype Option<T> = None | Some(value: T)
}
