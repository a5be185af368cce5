/** Shared vocabulary: 32-bit unsigned arithmetic as C performs it, and errno codes. */
module Common {

  const TWO32: int := 0x1_0000_0000

  /** A C `unsigned int` / `__u32`. */
  type u32 = x: int | 0 <= x < 0x1_0000_0000

  /** A C `__u8`: one byte of a frame or a file. */
  type byte = x: int | 0 <= x < 0x100

  /** A C `__u16`. */
  type u16 = x: int | 0 <= x < 0x1_0000

  /** Reduction modulo 2^32: what an unsigned 32-bit operation keeps of its exact result. */
  function Wrap32(x: int): (r: u32)
    ensures 0 <= x < TWO32 ==> r == x
  {
    x % TWO32
  }

  /** Kernel errno values (include/uapi/asm-generic/errno-base.h); drivers return them negated. */
  const ENOMEM: int := 12
  const EBUSY: int := 16
  const EINVAL: int := 22

  /** One more factor `a + 1` adds one `k`. */
  lemma MulStep(a: int, k: int)
    ensures (a + 1) * k == a * k + k
  {
  }

  lemma MulMono(a: nat, b: nat, k: nat)
    requires a <= b
    ensures a * k <= b * k
  {
  }

  datatype Option<T> = None | Some(value: T)

  datatype Result<T> = Ok(value: T) | Err(code: int)
}
