/**
 * Fixed-width unsigned integers, big-endian byte conversions and the
 * Result type shared by every codec of the packet library.
 *
 * Fixed-width values are integer subset types rather than bit-vectors;
 * the library's bit operations are written out arithmetically:
 *   `x << k` on an n-bit value   is  `(x * 2^k) % 2^n`,
 *   `x & (2^k - 1)`               is  `x % 2^k`,
 *   `x >> k`                      is  `x / 2^k`,
 *   `(x & m) != 0` for one bit m  is  `HasBit(x, m)`,
 * and an OR of operands with disjoint bits is their sum.
 */
module Bytes {

  type uint8 = x: int | 0 <= x < 0x100
  type uint16 = x: int | 0 <= x < 0x1_0000
  type uint32 = x: int | 0 <= x < 0x1_0000_0000

  /** The outcome of a decoder: a value or a typed decode failure. */
  datatype Result<+T, +E> = Ok(value: T) | Err(error: E)

  /** Single-bit masks of a 32-bit word. */
  predicate IsBitMask(m: nat) {
    m in {0x1, 0x2, 0x4, 0x8, 0x10, 0x20, 0x40, 0x80,
          0x100, 0x200, 0x400, 0x800, 0x1000, 0x2000, 0x4000, 0x8000}
  }

  /** `(v & m) != 0` for a single-bit mask `m`. */
  predicate HasBit(v: nat, m: nat)
    requires IsBitMask(m)
  {
    (v / m) % 2 == 1
  }

  /** `u16::to_be_bytes`. */
  function BeBytes16(v: uint16): (b: seq<uint8>)
    ensures |b| == 2 && b[0] as int * 0x100 + b[1] == v
  {
    [v / 0x100, v % 0x100]
  }

  /** `u16::from_be_bytes`. */
  function FromBe16(hi: uint8, lo: uint8): uint16
  {
    hi as int * 0x100 + lo
  }

  /** Reading two bytes and writing the value back gives the same two bytes. */
  lemma FromBe16Inverse(hi: uint8, lo: uint8)
    ensures BeBytes16(FromBe16(hi, lo)) == [hi, lo]
  {
  }

  /** `u32::to_be_bytes`. */
  function BeBytes32(v: uint32): (b: seq<uint8>)
    ensures |b| == 4
    ensures ((b[0] as int * 0x100 + b[1]) * 0x100 + b[2]) * 0x100 + b[3] == v
  {
    BeBytes16(v / 0x1_0000) + BeBytes16(v % 0x1_0000)
  }

  /** `u32::from_be_bytes`. */
  function FromBe32(b0: uint8, b1: uint8, b2: uint8, b3: uint8): uint32
  {
    ((b0 as int * 0x100 + b1) * 0x100 + b2) * 0x100 + b3
  }

  /** Reading four bytes and writing the value back gives the same four bytes. */
  lemma FromBe32Inverse(b0: uint8, b1: uint8, b2: uint8, b3: uint8)
    ensures BeBytes32(FromBe32(b0, b1, b2, b3)) == [b0, b1, b2, b3]
  {
    var v, hi, lo := FromBe32(b0, b1, b2, b3), FromBe16(b0, b1), FromBe16(b2, b3);
    assert v == hi as int * 0x1_0000 + lo;
    assert v / 0x1_0000 == hi && v % 0x1_0000 == lo;
    FromBe16Inverse(b0, b1);
    FromBe16Inverse(b2, b3);
  }

  /** A byte value and its 8-bit vector convert into each other. */
  lemma ByteConversion(x: uint8)
    ensures (x as bv8) as int == x
  {
  }

  lemma VectorConversion(x: bv8)
    ensures 0 <= x as int < 0x100 && (x as int) as bv8 == x
  {
  }

  /** A byte is its high nibble shifted left by four, ORed with its low nibble. */
  lemma NibblesRecombine(x: uint8)
    ensures ((x / 0x10) * 0x10) % 0x100 + x % 0x10 == x
  {
    var hi, lo := x / 0x10, x % 0x10;
    assert x == hi * 0x10 + lo;
    assert 0 <= hi * 0x10 < 0x100;
  }

  /** `n` zero bytes, as `Vec::resize(len, 0)` and padding loops append them. */
  function Zeros(n: nat): (z: seq<uint8>)
    ensures |z| == n && forall i :: 0 <= i < n ==> z[i] == 0
  {
    seq(n, _ => 0)
  }
}
