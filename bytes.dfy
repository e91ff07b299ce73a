/** Machine arithmetic the driver relies on: the 8-bit `byte` a frame holds,
    the wrapping 8-bit addition its checksum accumulates with, and the 32-bit
    `unsigned long` that the millisecond clock returns. */
module Bytes {

  newtype byte = b: int | 0 <= b < 256

  newtype u32 = n: int | 0 <= n < 0x1_0000_0000

  /** `byte + byte` stored back into a `byte`: only the low 8 bits survive. */
  function AddByte(a: byte, b: byte): byte
  {
    ((a as int + b as int) % 256) as byte
  }

  /** The exact (unbounded) sum of the bytes of `s`. */
  function Sum(s: seq<byte>): nat
  {
    if s == [] then 0 else Sum(s[..|s| - 1]) + s[|s| - 1] as nat
  }

  /** The 8-bit checksum of `s`: its sum modulo 256. */
  function Sum8(s: seq<byte>): byte
  {
    (Sum(s) % 256) as byte
  }

  /** Accumulating with 8-bit wrap-around one byte at a time yields the sum modulo 256. */
  lemma Sum8Step(s: seq<byte>, b: byte)
    ensures Sum8(s + [b]) == AddByte(Sum8(s), b)
  {
  }

  /** `now - start` on two `unsigned long` values: the difference modulo 2^32. */
  function Elapsed(start: u32, now: u32): (d: u32)
    ensures start <= now ==> d == now - start
    ensures now < start ==> d as int == 0x1_0000_0000 - (start as int - now as int)
  {
    ((now as int - start as int) % 0x1_0000_0000) as u32
  }
}
