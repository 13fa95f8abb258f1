/** What several components share. */
module Basics {
  import DivMod

  datatype Option<+T> = None | Some(value: T)

  /** The frames that the buffer of a port holds. */
  const FRAMES_PER_BUFFER: int := 8

  /** The call count of a node that has not been pulled. */
  const INITIAL_CALL_COUNT: int := -1

  function Min(a: int, b: int): int {
    if a < b then a else b
  }

  function Max(a: int, b: int): int {
    if a < b then b else a
  }

  function Bytes(bytesPerFrame: int, frames: int): (n: int)
    ensures 0 <= bytesPerFrame && 0 <= frames ==> 0 <= n
  {
    bytesPerFrame * frames
  }

  lemma BytesAdd(bytesPerFrame: int, a: int, b: int)
    ensures Bytes(bytesPerFrame, a + b) == Bytes(bytesPerFrame, a) + Bytes(bytesPerFrame, b)
  {
    DivMod.MulDistributes(a, b, bytesPerFrame);
  }

  lemma BytesOrdered(bytesPerFrame: int, a: int, b: int)
    requires 0 < bytesPerFrame && a <= b
    ensures Bytes(bytesPerFrame, a) <= Bytes(bytesPerFrame, b)
    ensures a < b ==> Bytes(bytesPerFrame, a) < Bytes(bytesPerFrame, b)
    ensures Bytes(bytesPerFrame, b) == Bytes(bytesPerFrame, a) + Bytes(bytesPerFrame, b - a)
  {
    BytesAdd(bytesPerFrame, a, b - a);
    if a < b {
      DivMod.MulMonotone(1, b - a, bytesPerFrame);
    }
  }
}
