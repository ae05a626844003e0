/**
 * Bytes, the ASCII codes the Netpbm tokenizer looks at, the fixed-width
 * integer ranges of the BMP header fields, and their little-endian layout.
 */
module Bytes {

  /** An unsigned 8-bit value: a `uint8_t` sample or a byte returned by `fgetc`. */
  type byte = x: int | 0 <= x < 0x100

  type u16 = x: int | 0 <= x < 0x1_0000
  type u32 = x: int | 0 <= x < 0x1_0000_0000
  type i32 = x: int | -0x8000_0000 <= x < 0x8000_0000

  // ASCII codes
  const TAB: byte := 9
  const LF: byte := 10
  const CR: byte := 13
  const SP: byte := 32
  const HASH: byte := 35
  const PLUS: byte := 43
  const MINUS: byte := 45
  const ZERO: byte := 48

  /** `n` zero bytes, what `memset(p, 0, n)` leaves behind. */
  function Zeros(n: nat): (r: seq<byte>)
    ensures |r| == n
    ensures forall i :: 0 <= i < n ==> r[i] == 0
  {
    seq(n, _ => 0)
  }

  /** Little-endian encoding of a 16-bit unsigned field. */
  function LE16(x: u16): (r: seq<byte>)
    ensures |r| == 2 && FromLE16(r) == x
  {
    [x % 0x100, x / 0x100]
  }

  function FromLE16(b: seq<byte>): u16
    requires |b| == 2
  {
    b[0] as int + 0x100 * b[1] as int
  }

  /** Every two bytes are the encoding of exactly one 16-bit value. */
  lemma LE16OfFromLE16(b: seq<byte>)
    requires |b| == 2
    ensures LE16(FromLE16(b)) == b
  {
  }

  /** Little-endian encoding of a 32-bit unsigned field: low half first. */
  function LE32(x: u32): (r: seq<byte>)
    ensures |r| == 4 && FromLE32(r) == x
  {
    LE16(x % 0x1_0000) + LE16(x / 0x1_0000)
  }

  function FromLE32(b: seq<byte>): u32
    requires |b| == 4
  {
    FromLE16(b[..2]) + 0x1_0000 * FromLE16(b[2..])
  }

  /** Every four bytes are the encoding of exactly one 32-bit value. */
  lemma LE32OfFromLE32(b: seq<byte>)
    requires |b| == 4
    ensures LE32(FromLE32(b)) == b
  {
    var lo, hi := FromLE16(b[..2]), FromLE16(b[2..]);
    var x := FromLE32(b);
    assert x % 0x1_0000 == lo && x / 0x1_0000 == hi;
    LE16OfFromLE16(b[..2]);
    LE16OfFromLE16(b[2..]);
    assert b == b[..2] + b[2..];
  }

  /** The bit pattern of a signed 32-bit field in two's complement. */
  function I32Bits(x: i32): (u: u32)
    ensures FromI32Bits(u) == x
  {
    if x < 0 then x + 0x1_0000_0000 else x
  }

  function FromI32Bits(u: u32): (x: i32)
  {
    if u < 0x8000_0000 then u else u - 0x1_0000_0000
  }

  /** Every 32-bit pattern is the encoding of exactly one signed value. */
  lemma I32BitsOfFromI32Bits(u: u32)
    ensures I32Bits(FromI32Bits(u)) == u
  {
  }

  /** Conversion of an `int` to `uint16_t`: the value modulo 2^16. */
  function Wrap16(x: int): (r: u16)
    ensures 0 <= x < 0x1_0000 ==> r == x
  {
    x % 0x1_0000
  }

  /** Truncation of an unsigned sum to 32 bits, as C's `uint32_t` arithmetic does. */
  function Wrap32(x: nat): (r: u32)
    ensures x < 0x1_0000_0000 ==> r == x
  {
    x % 0x1_0000_0000
  }

  /** Adding a multiple of 2^32 does not change the value modulo 2^32. */
  lemma Wrap32Shift(a: int, k: nat)
    ensures (a + k * 0x1_0000_0000) % 0x1_0000_0000 == a % 0x1_0000_0000
  {
    var q, r := a / 0x1_0000_0000, a % 0x1_0000_0000;
    assert a + k * 0x1_0000_0000 == (q + k) * 0x1_0000_0000 + r;
  }

  /** Wrapping a partial sum first does not change the wrapped total. */
  lemma Wrap32Add(a: nat, b: nat)
    ensures Wrap32(Wrap32(a) + b) == Wrap32(a + b)
  {
    var q := a / 0x1_0000_0000;
    assert a + b == Wrap32(a) + b + q * 0x1_0000_0000;
  }
}
