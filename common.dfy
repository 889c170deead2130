/** Small shared vocabulary: the byte type, an optional value and modular
    arithmetic facts used by both ring-buffer variants. */
module Common {

  /** An unsigned 8-bit memory cell (uint8_t / unsigned char). */
  type Byte = bv8

  datatype Option<+T> = None | Some(value: T)

  function Min(a: int, b: int): (m: int)
    ensures m <= a && m <= b && (m == a || m == b)
  {
    if a < b then a else b
  }

  /** Every index the buffers compute is below twice the slot count, so one
      subtraction of the modulus is all that `%` ever does to it. */
  lemma Mod2(x: int, n: int)
    requires 0 < n && 0 <= x < 2 * n
    ensures x % n == if x < n then x else x - n
  {
    if x < n {
      assert x == 0 * n + x;
    } else {
      assert x == 1 * n + (x - n);
    }
  }
}
