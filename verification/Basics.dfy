/** Definitions several modules share. */
module Basics {

  /** Unsigned 32-bit arithmetic is modulo this. */
  const UINT32: int := 0x1_0000_0000

  datatype Option<T> = None | Some(value: T)

  function Pow2(n: nat): (r: nat)
    ensures r >= 1
  {
    if n == 0 then 1 else 2 * Pow2(n - 1)
  }
}
