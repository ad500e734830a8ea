/** The machine integers of the 32-bit kernel, and a few small datatypes shared by all modules. */
module Words {
  const WORD := 0x1_0000_0000

  type u32 = x: int | 0 <= x < 0x1_0000_0000
  type byte = x: int | 0 <= x < 256

  datatype Option<+T> = None | Some(value: T)

  /** Unsigned 32-bit addition. */
  function Add32(x: u32, y: u32): u32 {
    (x + y) % WORD
  }

  /** Unsigned 32-bit multiplication. */
  function Mul32(x: u32, y: u32): u32 {
    (x * y) % WORD
  }

  lemma MultipleOf2(k: int)
    ensures (2 * k) % 2 == 0
  {
  }

  lemma MultipleOf4(k: int)
    ensures (4 * k) % 4 == 0
  {
  }

  lemma MultipleOf4096(k: int)
    ensures (4096 * k) % 4096 == 0 && (4096 * k) / 4096 == k
  {
  }

  /** Multiples of the page size. */
  lemma PageMultiple(d: int)
    ensures (4096 * d) / 4096 == d && (4096 * d) % 4096 == 0
    ensures (4096 * d) % 4 == 0 && (4096 * d) % 2 == 0
  {
    MultipleOf4096(d);
    MultipleOf4(1024 * d);
    MultipleOf2(2048 * d);
  }
}
