/** Shared vocabulary: bytes and the two wrapper datatypes. */
module Common {

  /** An unsigned char. */
  type byte = x: int | 0 <= x < 256

  type bytes = seq<byte>

  datatype Option<+T> = None | Some(value: T)

  datatype Result<+T, +E> = Ok(value: T) | Err(error: E)

  /** A number read in two's complement, `half` being the weight of its sign bit. */
  function Signed(n: nat, half: nat): int {
    if n < half then n else n - 2 * half
  }

  const INT_MAX: nat := 0x7fff_ffff

  /** A number as the C int it is stored in. */
  function CInt(n: int): (r: int)
    ensures 0 <= n <= INT_MAX ==> r == n
    ensures -0x8000_0000 <= r < 0x8000_0000
  {
    var m: int := n % 0x1_0000_0000;
    if m <= INT_MAX then m else m - 0x1_0000_0000
  }
}
