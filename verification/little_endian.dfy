/**
 * Unsigned little-endian fields of an ELF64 image on x86-64 (Elf64_Half, Elf64_Word,
 * Elf64_Off/Elf64_Addr/Elf64_Xword), and the 64-bit wrap-around of `uintptr_t`.
 */
module LittleEndian {
  import opened Arithmetic

  const TWO_16: nat := 0x1_0000
  const TWO_32: nat := 0x1_0000_0000
  const TWO_64: nat := 0x1_0000_0000_0000_0000

  /** One byte of the image or of the mapped region. */
  newtype byte = x: int | 0 <= x < 0x100

  type u16 = x: nat | x < TWO_16
  type u32 = x: nat | x < TWO_32
  type u64 = x: nat | x < TWO_64

  /**
   * The value of `x` in a 64-bit unsigned register (`uintptr_t`, `size_t`): `x` modulo
   * 2^64, which is `x` itself in range and one 2^64 away just outside it.
   */
  function Wrap(x: int): (r: u64)
    ensures 0 <= x < TWO_64 ==> r == x
    ensures x < 0 <= x + TWO_64 ==> r == x + TWO_64
    ensures TWO_64 <= x < 2 * TWO_64 ==> r == x - TWO_64
  {
    x % TWO_64
  }

  /** Values one 2^64 apart are the same `uintptr_t`. */
  lemma SameResidue(d: int, e: int)
    requires e == d || e == d + TWO_64 || e == d - TWO_64
    ensures e % TWO_64 == d % TWO_64
  {
  }

  function U16At(bytes: seq<byte>, off: nat): u16
    requires off + 2 <= |bytes|
  {
    bytes[off] as int + 0x100 * bytes[off + 1] as int
  }

  function U32At(bytes: seq<byte>, off: nat): u32
    requires off + 4 <= |bytes|
  {
    U16At(bytes, off) + TWO_16 * U16At(bytes, off + 2)
  }

  function U64At(bytes: seq<byte>, off: nat): u64
    requires off + 8 <= |bytes|
  {
    U32At(bytes, off) + TWO_32 * U32At(bytes, off + 4)
  }

  function U16Bytes(v: u16): (r: seq<byte>)
    ensures |r| == 2
  {
    [(v % 0x100) as byte, (v / 0x100) as byte]
  }

  function U32Bytes(v: u32): (r: seq<byte>)
    ensures |r| == 4
  {
    U16Bytes(v % TWO_16) + U16Bytes(v / TWO_16)
  }

  function U64Bytes(v: u64): (r: seq<byte>)
    ensures |r| == 8
  {
    U32Bytes(v % TWO_32) + U32Bytes(v / TWO_32)
  }

  /** Reading a 16-bit field where its encoding stands gives the value back. */
  lemma U16RoundTrip(bytes: seq<byte>, off: nat, v: u16)
    requires off + 2 <= |bytes| && bytes[off..off + 2] == U16Bytes(v)
    ensures U16At(bytes, off) == v
  {
    assert bytes[off] == bytes[off..off + 2][0];
    assert bytes[off + 1] == bytes[off..off + 2][1];
    DivModUnique(v, 0x100, v / 0x100, v % 0x100);
  }

  lemma U32RoundTrip(bytes: seq<byte>, off: nat, v: u32)
    requires off + 4 <= |bytes| && bytes[off..off + 4] == U32Bytes(v)
    ensures U32At(bytes, off) == v
  {
    assert bytes[off..off + 2] == bytes[off..off + 4][..2];
    assert bytes[off + 2..off + 4] == bytes[off..off + 4][2..];
    U16RoundTrip(bytes, off, v % TWO_16);
    U16RoundTrip(bytes, off + 2, v / TWO_16);
  }

  lemma U64RoundTrip(bytes: seq<byte>, off: nat, v: u64)
    requires off + 8 <= |bytes| && bytes[off..off + 8] == U64Bytes(v)
    ensures U64At(bytes, off) == v
  {
    assert bytes[off..off + 4] == bytes[off..off + 8][..4];
    assert bytes[off + 4..off + 8] == bytes[off..off + 8][4..];
    U32RoundTrip(bytes, off, v % TWO_32);
    U32RoundTrip(bytes, off + 4, v / TWO_32);
  }
}
