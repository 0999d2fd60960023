/** Unsigned machine words. */
module Words {
  const TWO32 := 0x1_0000_0000
  const TWO64 := 0x1_0000_0000_0000_0000

  type u32 = x: int | 0 <= x < TWO32
  type u64 = x: int | 0 <= x < TWO64

  /** Addition and subtraction in 64 bits. */
  function Add(a: u64, b: u64): u64 { if a + b < TWO64 then a + b else a + b - TWO64 }

  function Sub(a: u64, b: u64): u64 { if a >= b then a - b else a - b + TWO64 }
}
