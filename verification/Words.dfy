/**
 32-bit machine words.  A word is an integer in [0, 2^32); every operation of the C code that can leave that
 range says so by going through `Wrap`.
 */
module Words {

  const WORD_LIMIT: int := 0x1_0000_0000

  type Word = w: int | 0 <= w < WORD_LIMIT

  /** The value a `uint32_t` holds after being assigned `x`. */
  function Wrap(x: int): (w: Word)
    ensures 0 <= x < WORD_LIMIT ==> w == x
  {
    x % WORD_LIMIT
  }

  /** `kernel_panic` never returns, so it is an outcome: a call either completes with a value or halts the kernel. */
  datatype Outcome<+T> = Done(value: T) | Panicked

  datatype Option<+T> = None | Some(value: T)
}
