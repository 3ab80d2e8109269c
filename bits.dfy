/** Bit-level helpers over the machine's 16-bit words: `sign_extend` and `swap16` of src/vm.h. */
module Bits {

  /** A machine word: every register, memory cell and instruction is a uint16_t. */
  type Word = bv16
  /** One byte of an image file or of the console. */
  type Byte = bv8

  /** The width of an immediate field; `sign_extend` shifts by `bit_count - 1`, so it is at least 1. */
  type Width = n: Word | 1 <= n <= 15 witness 1

  /** Bit `k` of `x`, counted from the least significant bit. */
  predicate Bit(x: Word, k: Word)
    requires k < 16
  {
    (x >> k) & 1 == 1
  }

  /** uint16_t addition: the sum modulo 2^16. */
  function Add16(a: Word, b: Word): Word
  {
    a + b
  }

  /** Bitwise and of two words. */
  function And16(a: Word, b: Word): Word
  {
    a & b
  }

  /** The two's-complement value of a word. */
  function Signed(x: Word): (v: int)
    ensures -0x8000 <= v < 0x8000
    ensures v < 0 <==> Bit(x, 15)
    ensures v == 0 <==> x == 0
  {
    var u := x as int;
    if u < 0x8000 then u else u - 0x1_0000
  }

  /**
   * `sign_extend(x, bit_count)`: when bit `n-1` of `x` is set, every bit from `n` upwards of the
   * result is set; otherwise the result is `x` itself.
   */
  function SignExtend(x: Word, n: Width): (r: Word)
    ensures !Bit(x, n - 1) ==> r == x
    ensures Bit(x, n - 1) ==> r >> n == 0xFFFF >> n
  {
    if (x >> (n - 1)) & 1 == 1 then x | (0xFFFF << n) else x
  }

  /** The low byte of a word; C's `(char)` cast of a uint16_t keeps it. */
  function Lo(x: Word): Byte
  {
    (x & 0xFF) as Byte
  }

  /** The high byte of a word. */
  function Hi(x: Word): Byte
  {
    (x >> 8) as Byte
  }

  /** The word with high byte `hi` and low byte `lo`. */
  function Join(hi: Byte, lo: Byte): (w: Word)
    ensures Hi(w) == hi && Lo(w) == lo
  {
    ((hi as Word) << 8) | (lo as Word)
  }

  /** A word is determined by its two bytes. */
  lemma JoinSplit(w: Word)
    ensures Join(Hi(w), Lo(w)) == w
  {
  }

  /** `swap16`: exchanges the two bytes of a word. */
  function Swap16(x: Word): (r: Word)
    ensures Lo(r) == Hi(x) && Hi(r) == Lo(x)
  {
    (x << 8) | (x >> 8)
  }

  /** Swapping twice gives the word back. */
  lemma Swap16Involutive(x: Word)
    ensures Swap16(Swap16(x)) == x
  {
  }
}
