/** Bytes, fixed-width integers and big-endian fields. */
module Bytes {
  type byte = n: int | 0 <= n < 0x100
  type u16 = n: int | 0 <= n < 0x1_0000
  type u32 = n: int | 0 <= n < 0x1_0000_0000
  type u64 = n: int | 0 <= n < 0x1_0000_0000_0000_0000

  /** The 32-bit two's complement value of an unsigned one, as a cast to int gives it. */
  function ToInt32(n: u32): int {
    if n < 0x8000_0000 then n else n - 0x1_0000_0000
  }

  /** The 32-bit pattern of a number, as a cast to unsigned gives it. */
  function ToU32(n: int): u32 {
    n % 0x1_0000_0000
  }

  /** The casts keep the number modulo 2^32 and undo each other. */
  lemma CastsAgree(n: u32)
    ensures -0x8000_0000 <= ToInt32(n) < 0x8000_0000
    ensures ToInt32(n) == n || ToInt32(n) == n - 0x1_0000_0000
    ensures ToU32(ToInt32(n)) == n
  {
  }

  /** Addition of unsigned 32-bit numbers, which wraps. */
  function AddU32(a: u32, n: nat): u32 {
    (a + n) % 0x1_0000_0000
  }

  function BigEndian16(n: u16): (bs: seq<byte>)
    ensures |bs| == 2
  {
    [n / 0x100, n % 0x100]
  }

  function FromBigEndian16(bs: seq<byte>): u16
    requires |bs| == 2
  {
    var hi: int, lo: int := bs[0], bs[1];
    hi * 0x100 + lo
  }

  function BigEndian32(n: u32): (bs: seq<byte>)
    ensures |bs| == 4
  {
    [n / 0x100_0000, n / 0x1_0000 % 0x100, n / 0x100 % 0x100, n % 0x100]
  }

  function FromBigEndian32(bs: seq<byte>): u32
    requires |bs| == 4
  {
    var b3: int, b2: int, b1: int, b0: int := bs[0], bs[1], bs[2], bs[3];
    b3 * 0x100_0000 + b2 * 0x1_0000 + b1 * 0x100 + b0
  }

  lemma BigEndian32RoundTrip(n: u32)
    ensures FromBigEndian32(BigEndian32(n)) == n
  {
    assert n / 0x100 / 0x100 == n / 0x1_0000;
    assert n / 0x1_0000 / 0x100 == n / 0x100_0000;
  }
}
