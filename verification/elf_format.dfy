/**
 * The ELF64 records the loader reads, at the offsets of the System V ABI (chapter 4
 * "Object Files": ELF Header, Sections, Symbol Table; chapter 5 "Program Loading":
 * Program Header) for a little-endian machine. Only the fields the loader uses are kept.
 * Each record has an encoder that writes zeroes for the other fields; decoding an encoded
 * record gives the record back.
 */
module ElfFormat {
  import opened LittleEndian

  const EHDR_SIZE: nat := 64   // sizeof(Elf64_Ehdr)
  const PHDR_SIZE: nat := 56   // sizeof(Elf64_Phdr)
  const SHDR_SIZE: nat := 64   // sizeof(Elf64_Shdr)
  const SYM_SIZE: nat := 24    // sizeof(Elf64_Sym)
  const CHAR_SIZE: nat := 1    // sizeof(char)

  const PT_LOAD: u32 := 1
  const SHT_STRTAB: u32 := 3
  const SHT_DYNSYM: u32 := 11
  const SHN_UNDEF: u16 := 0

  /** Elf64_Ehdr: where the two header tables are, and which section holds section names. */
  datatype Ehdr = Ehdr(phoff: u64, shoff: u64, phnum: u16, shnum: u16, shstrndx: u16)

  /** Elf64_Phdr: p_type, p_offset, p_vaddr, p_memsz. */
  datatype Phdr = Phdr(segType: u32, offset: u64, vaddr: u64, memsz: u64)

  /** Elf64_Shdr: sh_name, sh_type, sh_offset, sh_size, sh_entsize. */
  datatype Shdr = Shdr(name: u32, secType: u32, offset: u64, size: u64, entsize: u64)

  /** Elf64_Sym: st_name, st_value. */
  datatype Sym = Sym(name: u32, value: u64)

  function Zeros(n: nat): (r: seq<byte>)
    ensures |r| == n && forall i :: 0 <= i < n ==> r[i] == 0
  {
    seq(n, _ => 0)
  }

  function DecodeEhdr(bytes: seq<byte>, off: nat): Ehdr
    requires off + EHDR_SIZE <= |bytes|
  {
    Ehdr(U64At(bytes, off + 32), U64At(bytes, off + 40), U16At(bytes, off + 56),
         U16At(bytes, off + 60), U16At(bytes, off + 62))
  }

  function DecodePhdr(bytes: seq<byte>, off: nat): Phdr
    requires off + PHDR_SIZE <= |bytes|
  {
    Phdr(U32At(bytes, off), U64At(bytes, off + 8), U64At(bytes, off + 16), U64At(bytes, off + 40))
  }

  function DecodeShdr(bytes: seq<byte>, off: nat): Shdr
    requires off + SHDR_SIZE <= |bytes|
  {
    Shdr(U32At(bytes, off), U32At(bytes, off + 4), U64At(bytes, off + 24),
         U64At(bytes, off + 32), U64At(bytes, off + 56))
  }

  function DecodeSym(bytes: seq<byte>, off: nat): Sym
    requires off + SYM_SIZE <= |bytes|
  {
    Sym(U32At(bytes, off), U64At(bytes, off + 8))
  }

  function EncodeEhdr(h: Ehdr): (r: seq<byte>)
    ensures |r| == EHDR_SIZE
  {
    Zeros(32) + U64Bytes(h.phoff) + U64Bytes(h.shoff) + Zeros(8)
    + U16Bytes(h.phnum) + Zeros(2) + U16Bytes(h.shnum) + U16Bytes(h.shstrndx)
  }

  function EncodePhdr(p: Phdr): (r: seq<byte>)
    ensures |r| == PHDR_SIZE
  {
    U32Bytes(p.segType) + Zeros(4) + U64Bytes(p.offset) + U64Bytes(p.vaddr)
    + Zeros(16) + U64Bytes(p.memsz) + Zeros(8)
  }

  function EncodeShdr(s: Shdr): (r: seq<byte>)
    ensures |r| == SHDR_SIZE
  {
    U32Bytes(s.name) + U32Bytes(s.secType) + Zeros(16) + U64Bytes(s.offset)
    + U64Bytes(s.size) + Zeros(16) + U64Bytes(s.entsize)
  }

  function EncodeSym(s: Sym): (r: seq<byte>)
    ensures |r| == SYM_SIZE
  {
    U32Bytes(s.name) + Zeros(4) + U64Bytes(s.value) + Zeros(8)
  }

  /** The bytes of a field inside a record that stands at `off`. */
  lemma FieldBytes(bytes: seq<byte>, off: nat, rec: seq<byte>, k: nat, w: nat)
    requires off + |rec| <= |bytes| && bytes[off..off + |rec|] == rec && k + w <= |rec|
    ensures bytes[off + k..off + k + w] == rec[k..k + w]
  {
    forall i | k <= i < k + w
      ensures rec[i] == bytes[off + i]
    {
      assert rec[i] == bytes[off..off + |rec|][i];
    }
  }

  lemma EhdrRoundTrip(bytes: seq<byte>, off: nat, h: Ehdr)
    requires off + EHDR_SIZE <= |bytes| && bytes[off..off + EHDR_SIZE] == EncodeEhdr(h)
    ensures DecodeEhdr(bytes, off) == h
  {
    var rec := EncodeEhdr(h);
    FieldBytes(bytes, off, rec, 32, 8);
    assert rec[32..40] == U64Bytes(h.phoff);
    U64RoundTrip(bytes, off + 32, h.phoff);
    FieldBytes(bytes, off, rec, 40, 8);
    assert rec[40..48] == U64Bytes(h.shoff);
    U64RoundTrip(bytes, off + 40, h.shoff);
    FieldBytes(bytes, off, rec, 56, 2);
    assert rec[56..58] == U16Bytes(h.phnum);
    U16RoundTrip(bytes, off + 56, h.phnum);
    FieldBytes(bytes, off, rec, 60, 2);
    assert rec[60..62] == U16Bytes(h.shnum);
    U16RoundTrip(bytes, off + 60, h.shnum);
    FieldBytes(bytes, off, rec, 62, 2);
    assert rec[62..64] == U16Bytes(h.shstrndx);
    U16RoundTrip(bytes, off + 62, h.shstrndx);
  }

  lemma PhdrRoundTrip(bytes: seq<byte>, off: nat, p: Phdr)
    requires off + PHDR_SIZE <= |bytes| && bytes[off..off + PHDR_SIZE] == EncodePhdr(p)
    ensures DecodePhdr(bytes, off) == p
  {
    var rec := EncodePhdr(p);
    FieldBytes(bytes, off, rec, 0, 4);
    assert rec[0..4] == U32Bytes(p.segType);
    U32RoundTrip(bytes, off, p.segType);
    FieldBytes(bytes, off, rec, 8, 8);
    assert rec[8..16] == U64Bytes(p.offset);
    U64RoundTrip(bytes, off + 8, p.offset);
    FieldBytes(bytes, off, rec, 16, 8);
    assert rec[16..24] == U64Bytes(p.vaddr);
    U64RoundTrip(bytes, off + 16, p.vaddr);
    FieldBytes(bytes, off, rec, 40, 8);
    assert rec[40..48] == U64Bytes(p.memsz);
    U64RoundTrip(bytes, off + 40, p.memsz);
  }

  lemma ShdrRoundTrip(bytes: seq<byte>, off: nat, s: Shdr)
    requires off + SHDR_SIZE <= |bytes| && bytes[off..off + SHDR_SIZE] == EncodeShdr(s)
    ensures DecodeShdr(bytes, off) == s
  {
    var rec := EncodeShdr(s);
    FieldBytes(bytes, off, rec, 0, 4);
    assert rec[0..4] == U32Bytes(s.name);
    U32RoundTrip(bytes, off, s.name);
    FieldBytes(bytes, off, rec, 4, 4);
    assert rec[4..8] == U32Bytes(s.secType);
    U32RoundTrip(bytes, off + 4, s.secType);
    FieldBytes(bytes, off, rec, 24, 8);
    assert rec[24..32] == U64Bytes(s.offset);
    U64RoundTrip(bytes, off + 24, s.offset);
    FieldBytes(bytes, off, rec, 32, 8);
    assert rec[32..40] == U64Bytes(s.size);
    U64RoundTrip(bytes, off + 32, s.size);
    FieldBytes(bytes, off, rec, 56, 8);
    assert rec[56..64] == U64Bytes(s.entsize);
    U64RoundTrip(bytes, off + 56, s.entsize);
  }

  lemma SymRoundTrip(bytes: seq<byte>, off: nat, s: Sym)
    requires off + SYM_SIZE <= |bytes| && bytes[off..off + SYM_SIZE] == EncodeSym(s)
    ensures DecodeSym(bytes, off) == s
  {
    var rec := EncodeSym(s);
    FieldBytes(bytes, off, rec, 0, 4);
    assert rec[0..4] == U32Bytes(s.name);
    U32RoundTrip(bytes, off, s.name);
    FieldBytes(bytes, off, rec, 8, 8);
    assert rec[8..16] == U64Bytes(s.value);
    U64RoundTrip(bytes, off + 8, s.value);
  }
}
