/** Shared vocabulary: bytes as held in a Uint8Array, and the Option / Result wrappers
    that stand for the JavaScript values `undefined` and thrown errors. */
module Base {

  /** One element of a Uint8Array. */
  type byte = x: int | 0 <= x < 256

  const TWO_TO_32: nat := 0x1_0000_0000

  datatype Option<+T> = None | Some(value: T)

  /** The value of a call that either returns normally or throws. */
  datatype Result<+T, +E> = Ok(value: T) | Err(error: E)

  /** A buffer of `n` zero bytes, as `new Uint8Array(n)` allocates. */
  function Zeros(n: nat): (z: seq<byte>)
    ensures |z| == n && forall i :: 0 <= i < n ==> z[i] == 0
  {
    seq(n, _ => 0)
  }
}
