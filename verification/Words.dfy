/** Bytes, and 32-bit machine words as the Raspberry Pi's registers and counters hold them. */
module Words {

  type Byte = b: int | 0 <= b < 0x100

  const MODULUS := 0x1_0000_0000

  type Word = w: int | 0 <= w < MODULUS

  /** What a 32-bit register keeps of a mathematical integer. */
  function Truncate(n: int): Word {
    n % MODULUS
  }
}
