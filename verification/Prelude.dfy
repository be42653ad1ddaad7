/** Types shared by every module: bytes, optional values and the error codes the modelled operations return. */
module Prelude {

  type byte = b: int | 0 <= b < 256

  datatype Option<+T> = None | Some(value: T)

  /** The error codes of src/error.rs that the modelled operations can return. */
  datatype KernelError =
    | InvalidArgument
    | DeviceNotReady
    | UblkQueueFull

  datatype Result<+T> = Ok(value: T) | Err(error: KernelError)

  /** `n` copies of `x`. */
  function Filled<T>(x: T, n: nat): (r: seq<T>)
    ensures |r| == n && forall i :: 0 <= i < n ==> r[i] == x
  {
    seq(n, _ => x)
  }

  function Min(x: nat, y: nat): nat {
    if x <= y then x else y
  }

  /** Instant::elapsed, which is zero if the clock has not advanced. */
  function Elapsed(since: nat, now: nat): nat {
    if now <= since then 0 else now - since
  }

  const PAGE_SIZE: nat := 4096
  const U32: nat := 0x1_0000_0000
  const U64: nat := 0x1_0000_0000_0000_0000
}
