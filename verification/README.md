# Minimal ELF64 loader — Dafny model

A model of the core of a minimal userspace ELF64 loader written in C++. The loader
takes the bytes of an ELF64 shared object, builds a read-only *view* of it (file header,
program-header and section-header tables, the section-name string table, the `.dynstr`
symbol string table and the `SHT_DYNSYM` symbol table), computes the page-aligned
*footprint* of the loadable segments, maps a fresh region of that length, copies each
loadable segment into it, and resolves exported symbols to run-time addresses.

The model follows the source's own structure:

- `errors.dfy` (`Errors`): the failure values. Every `assert` of the original program is
  an `Err` result here. So is every read of a header, a table or a name, and every copy,
  that would leave the image or the mapping (undefined behaviour in C++). The one
  exception is a `strcmp` inside a search predicate: when it runs off the end of the
  image, the model counts it as a mismatch rather than an error (see "Left out").
- `span.dfy` (`Spans`): `Span<T>` as a value of byte offsets and an element size, and
  `find_single_in_span`. The search is a specification function (`FindSingle`) plus the
  loop the original runs (`FindSingleInSpan`), which is proved equal to it.
- `little_endian.dfy`, `elf_format.dfy` (`LittleEndian`, `ElfFormat`): the fields of
  `Elf64_Ehdr`, `Elf64_Phdr`, `Elf64_Shdr` and `Elf64_Sym` that the loader reads. They sit
  at the offsets of the System V ABI for a little-endian machine. Each record has an
  encoder, and decoding an encoded record gives it back. The converse does not hold,
  because the encoder writes zeroes for the fields the loader does not read. `Wrap` is the 64-bit wrap-around of
  `uintptr_t`.
- `elf_view.dfy` (`ElfViews`): `ElfView`, which is pure. Its constructor becomes
  `MakeElfView`, and the view it builds is a value.
- `elf_loader.dfy` (`Loader`): `ElfLoader`, which is imperative. It is a class whose
  mapped region is an `array<byte>`. `get_mmap_len` and `copy_segments_to_mem` are loops
  proved against the specification functions `VaddrMin`/`VaddrMax`/`MmapLen` and
  `CopySegments`. `load` runs them in the original's order: footprint, then map, then
  copy.

`get_base_addr` is `Loader.ElfLoader.BaseAddr`: the begin of `mapped_memory`, a span
that is the null span until `MmapPages` places the region.

Some behaviours of the code are worth knowing before reading the model, which keeps
them as written:

- With no loadable segment, `get_mmap_len` does not fail. vaddr_min stays at the largest
  address and vaddr_max at 0, and the wrapped arithmetic passes all four checks with one
  or two pages (`Loader.NoLoadableSegmentStillMaps`).
- A segment is copied to `base + p_vaddr`, not to `base + (p_vaddr - floored vaddr_min)`
  (`Loader.HighSegmentLeavesMapping`).
- No check compares p_filesz with p_memsz. `p_memsz` bytes are copied from `p_offset`.
- An empty table (e_phnum == 0, or an empty `.dynsym`) is `Span(begin, 0)` and reads no
  byte, so it is read as empty wherever its offset points (`ElfViews.InImage`,
  `Loader.NoProgramHeadersStillLoads`).
- `copy_segments_to_mem` and `get_mmap_len` call `get_segment_headers()`, while the view
  declares `get_program_headers()`. Both are taken to be the program-header table.

## Model

| member | source | states |
|---|---|---|
| Spans.Empty | include/span.hpp:12 | the null span is valid, has length 0 and begins where it ends (the loader's `mapped_memory` before a load) |
| Spans.FromCount | include/span.hpp:14 | `Span(begin, size)` has `len() == size` and ends `size` elements after `begin` |
| Spans.Span.At | include/span.hpp:23 | element `index` is at begin + index·elemSize, and lies inside the span whenever `index < len()` |
| Spans.FindSingle | include/span.hpp:27-38 | success only on a unique match; NoMatch exactly when nothing matches; MultipleMatches exactly when two elements match; nothing else is returned |
| Spans.FindSingleSucceedsIffUnique | include/span.hpp:27-38 | the search returns index `i` if and only if element `i` is the only match |
| Spans.FindSingleInSpan | include/span.hpp:28-37 | the loop, which fails at the second match, returns what `FindSingle` specifies, and on success the unique match; it only reads the span |
| ElfFormat.EhdrRoundTrip | src/elf_view.cpp:34 | the header fields read at offsets 32/40/56/60/62 are the ones an encoded header holds |
| ElfFormat.PhdrRoundTrip | src/elf_view.cpp:35 | p_type/p_offset/p_vaddr/p_memsz read at offsets 0/8/16/40 are the encoded ones |
| ElfFormat.ShdrRoundTrip | src/elf_view.cpp:36 | sh_name/sh_type/sh_offset/sh_size/sh_entsize read at 0/4/24/32/56 are the encoded ones |
| ElfFormat.SymRoundTrip | src/elf_view.cpp:60 | st_name/st_value read at offsets 0/8 are the encoded ones |
| ElfViews.CStrEq | src/elf_view.cpp:11 | `strcmp(data + off, name) == 0`: a true result means the bytes at the offset are the name followed by NUL (the converse is `CStrEqIsStringEquality`) |
| ElfViews.CStringAt | include/elf_view.hpp:36-41 | the result is the bytes from the offset up to the first NUL; with no NUL before the end of the image the read fails |
| ElfViews.CStrEqIsStringEquality | src/elf_view.cpp:11 | the byte-by-byte `strcmp(...) == 0` holds exactly when the string at the offset equals the name |
| ElfViews.ReadHeader | src/elf_view.cpp:34 | the header is read from the first 64 bytes, and only when the image has them |
| ElfViews.MakeSpanOfSectionData | include/elf_view.hpp:44-51 | entsize mismatch fails (an entsize of 0 skips the check); a size that is not a multiple fails; otherwise the span is [sh_offset, sh_offset + sh_size) with sh_size/sizeof(T) elements; each direction of the iff |
| ElfViews.SectionHeaderAt | src/elf_view.cpp:28 | `section_headers[index]` is the record at shoff + 64·index, with no check against e_shnum; only the image bounds are checked |
| ElfViews.SectionHeaders | src/elf_view.cpp:36 | the section-header table is read exactly when it lies in the image or is empty (an empty table reads no byte, wherever it begins), and then has e_shnum entries |
| ElfViews.SectionHeadersLayout | src/elf_view.cpp:36 | a readable section-header table has one 64-byte record per entry, entry i decoded at shoff + 64·i |
| ElfViews.ProgramHeaders | src/elf_view.cpp:35 | the program-header table is read exactly when it lies in the image or is empty (e_phnum == 0 reads no byte, wherever e_phoff points), and then has e_phnum entries |
| ElfViews.ProgramHeadersLayout | src/elf_view.cpp:35 | a readable program-header table has one 56-byte record per entry, entry i decoded at phoff + 56·i |
| ElfViews.Symbols | src/elf_view.cpp:60 | the symbol table is read exactly when it lies in the image or is empty (an empty `.dynsym` then gives no match), and then has one entry per element of its span |
| ElfViews.SymbolsLayout | src/elf_view.cpp:60 | a readable symbol table has one 24-byte record per entry, entry i decoded at its begin + 24·i |
| ElfViews.SectionHeaderAtInTable | src/elf_view.cpp:28 | indexing the table agrees with reading the whole table |
| ElfViews.SectionName | include/elf_view.hpp:36-38 | the name is the NUL-terminated string at section-string-table begin + sh_name; the read fails only when no NUL follows that offset in the image |
| ElfViews.SymbolName | include/elf_view.hpp:39-41 | the name is the NUL-terminated string at symbol-string-table begin + st_name; the read fails only when no NUL follows that offset in the image |
| ElfViews.IsNamedIsSectionName | src/elf_view.cpp:10-12 | the `.dynstr` search predicate holds exactly when the section's name is the query |
| ElfViews.HasNameIsSymbolName | src/elf_view.cpp:60-64 | the symbol search predicate holds exactly when the symbol's name is the query |
| ElfViews.MakeSectionStringTable | src/elf_view.cpp:24-30 | fails when e_shstrndx is SHN_UNDEF; otherwise it is the char data of section header e_shstrndx |
| ElfViews.MakeSymbolStringTable | src/elf_view.cpp:9-15 | no `.dynstr` section fails, two fail; a unique one that is not SHT_STRTAB fails; otherwise it is that section's char data |
| ElfViews.MakeSymbolTable | src/elf_view.cpp:17-22 | no SHT_DYNSYM section fails, two fail; otherwise it is the unique one's data as 24-byte symbols |
| ElfViews.MakeElfView | src/elf_view.cpp:32-42 | a view keeps the image unchanged and uncopied; its tables are those of the header at offset 0 (phnum records at phoff, shnum records at shoff) and the results of the three table builders; shstrndx is not SHN_UNDEF |
| ElfViews.MakeElfViewSucceeds | src/elf_view.cpp:32-42 | the constructor builds a view exactly when the 64-byte header is in the image and the section-name string table, the symbol string table and the symbol table builders all succeed |
| ElfViews.ResolveSymbol | src/elf_view.cpp:55-67 | no match fails, two matches fail, and a unique name match is the result |
| ElfViews.UniqueSectionName | src/elf_view.cpp:10-12 | the unique `strcmp` match is the unique section with exactly that name |
| ElfViews.UniqueSymbolName | src/elf_view.cpp:60-64 | the unique `strcmp` match is the unique symbol with exactly that name |
| ElfViews.SymbolStringTableIsDynstr | src/elf_view.cpp:9-15 | a view's symbol string table is the data of the only section named exactly `.dynstr`, and that section is SHT_STRTAB |
| ElfViews.SymbolTableIsDynsym | src/elf_view.cpp:17-22 | a view's symbol table is the data of the only SHT_DYNSYM section, with sh_size/24 entries |
| ElfViews.ResolveSymbolFindsExactName | src/elf_view.cpp:55-67 | resolution succeeds if and only if exactly one symbol is named `name`, and the symbol returned has that name |
| Loader.CopyIgnoresNonLoadable | src/elf_loader.cpp:20-22 | a segment `is_segment_loadable` (`Loader.IsSegmentLoadable`) rejects, because it is not PT_LOAD or has p_memsz == 0, can be inserted anywhere in the table without changing the copied region |
| Loader.CopyIgnoresNonLoadableUpTo | src/elf_loader.cpp:62-73 | after any number of iterations of the copy loop, a rejected segment in the table has changed nothing |
| Loader.MmapLenOf | src/elf_loader.cpp:37-49 | the rounding and the four asserts: a length is returned only when it is a whole number of pages, lies strictly between the vaddr range and that range plus two pages, and the floored base is page-aligned; `RoundingBounds`, `EmptyFootprint` and `OnePageFootprint` characterise which inputs succeed |
| Loader.VaddrMinIsLeast | src/elf_loader.cpp:27-35 | vaddr_min is the least p_vaddr over the loadable segments only, or the largest address when there is none |
| Loader.VaddrMaxIsGreatest | src/elf_loader.cpp:27-35 | vaddr_max is the greatest p_vaddr + p_memsz over the loadable segments only, or 0 when there is none |
| Loader.FootprintIgnoresNonLoadable | src/elf_loader.cpp:20-35 | removing a segment that is not PT_LOAD with nonzero p_memsz changes neither vaddr bound nor the footprint |
| Loader.RoundingBounds | src/elf_loader.cpp:37-49 | without wrap-around the base is page-aligned and at most vaddr_min, and the length is page-aligned, above the raw span, less than span + 2 pages, and reaches vaddr_max |
| Loader.FootprintBounds | src/elf_loader.cpp:24-50 | with a loadable segment and no wrap-around, `get_mmap_len` succeeds; base and length are page-aligned; length is in (span, span + 2 pages); [base, base + len) covers every loadable segment |
| Loader.NoLoadableSegmentStillMaps | src/elf_loader.cpp:27-49 | with no loadable segment the checks pass and the length is one or two pages |
| Loader.Overwrite | src/elf_loader.cpp:70 | after a `memcpy` the destination range holds the source bytes and every other byte is unchanged |
| Loader.CopyLeavesUncovered | src/elf_loader.cpp:62-73 | after copying the first n segments, a mapped byte that none of their loadable ranges covers keeps its value |
| Loader.CopyLastWriterWins | src/elf_loader.cpp:62-73 | after copying the first n segments, a mapped byte holds the image byte of the last of them, in table order, whose loadable range covers it |
| Loader.CopyFidelity | src/elf_loader.cpp:62-73 | with non-overlapping segments, each loadable segment's p_memsz mapped bytes at p_vaddr equal its image bytes at p_offset |
| Loader.LoadPlan | src/elf_loader.cpp:98-102 | a load gets past its checks exactly when its program-header table is readable (in the image, or empty), `get_mmap_len`'s four checks pass and every loadable segment's copy lies inside image and mapping; the length is the one `get_mmap_len` computes |
| Loader.LoadedImage | src/elf_loader.cpp:98-102 | the loaded bytes exist exactly when the plan succeeds, and there are as many as the mapping length |
| Loader.LoadedImageZeroOutside | src/elf_loader.cpp:98-102 | after a load, a mapped byte outside every loadable segment's range is zero |
| Loader.LoadedImageSegmentBytes | src/elf_loader.cpp:98-102 | after a load with non-overlapping loadable segments, a byte a segment covers is that segment's image byte at offset + (address − p_vaddr) |
| Loader.NoProgramHeadersStillLoads | src/elf_loader.cpp:98-102 | with e_phnum == 0, wherever e_phoff points, the table reads as empty, `load` maps one or two pages and every mapped byte is zero |
| Loader.LowImageLoads | src/elf_loader.cpp:98-102 | a load succeeds on an image whose program headers and loadable segments lie in the image, do not wrap, and whose vaddr_min is in the first page |
| Loader.LowImageFits | src/elf_loader.cpp:39-41 | when vaddr_min is in the first page, every segment copied to base + p_vaddr lies inside the mapping |
| Loader.HighSegmentLeavesMapping | src/elf_loader.cpp:65 | a segment shorter than a page at vaddr = page size gets a one-page mapping; the copy to base + p_vaddr leaves that mapping; the copy to base + (p_vaddr − floored vaddr_min) would not |
| Loader.OnePageFootprint | src/elf_loader.cpp:39-49 | a vaddr range inside the second page, with vaddr_min on the page boundary, floors to that boundary and gets a one-page mapping |
| Loader.ElfLoader.constructor | src/elf_loader.cpp:75-76 | the loader holds the view, and `mapped_memory` is the null span `Span()` |
| Loader.ElfLoader.BaseAddr | include/elf_loader.hpp:21 | `get_base_addr` is the begin of `mapped_memory`: 0 before a load, and after `MmapPages` the address the region was placed at |
| Loader.ElfLoader.FromBytes | src/elf_loader.cpp:75-76 | a loader exists exactly when the bytes have a view, and it starts unmapped |
| Loader.ElfLoader.SymbolAddr | include/elf_loader.hpp:23-28 | fails exactly when `resolve_symbol` fails; the address is base + st_value modulo 2^64 |
| Loader.ElfLoader.GetMmapLen | src/elf_loader.cpp:24-50 | the scan loop computes `MmapLen` over the program headers |
| Loader.ElfLoader.MmapPages | src/elf_loader.cpp:52-60 | the mapping is a fresh region of exactly `len` zero bytes at the address the system chose, and `mapped_memory` becomes the span of `len` bytes from that address |
| Loader.ElfLoader.MemCopy | src/elf_loader.cpp:70 | the copy loop writes `len` source bytes at the destination offset and nothing else |
| Loader.ElfLoader.CopySegmentsToMem | src/elf_loader.cpp:62-73 | the mapped bytes become `CopySegments` of the old bytes: loadable segments copied in table order; the image is only read |
| Loader.ElfLoader.CopyLoadable | src/elf_loader.cpp:62-73 | the loop over the program headers copies each loadable segment in table order, leaving `CopySegments` of the old bytes |
| Loader.ElfLoader.Load | src/elf_loader.cpp:98-102 | succeeds exactly when the plan does; on failure nothing changes; on success the mapping is fresh, at the chosen address, and holds `LoadedImage` |
| Loader.SymbolDistanceKept | include/elf_loader.hpp:21-28 | two resolved symbols are as far apart at run time as their st_values (modulo 2^64), whatever the base |

## Left out

- `ElfLoader::relocate` is left out: its whole body is commented out.
- `ElfLoader::unload` is left out: its body is empty.
- `ElfLoader::call` is left out. It casts an address to a function pointer and calls native code, which cannot be modelled.
- `ElfLoader::from_file` is left out. It is file I/O; `Loader.ElfLoader.FromBytes` starts from the bytes it reads.
- `ElfView::print_symbol_table`, and every `printf` and `fflush`, are left out as output only.
- `mmap` and `getpagesize()` are operating-system calls. The page size is a parameter, limited to (0, 2^30) because the original computes `2 * page_size` in an `int`. A mapping is a fresh zero-filled array plus the address the system chose, passed as a parameter. A failing `mmap` is not modelled.
- `include/output.hpp`, `include/shm_*.hpp`, `src/main.cpp` and `lib.cpp` are not part of this model.
- Loader.ElfLoader.Load: the original performs no bounds check on the copy. A segment whose copy would leave the image or the mapping is undefined behaviour there; here it is the error `SegmentOutsideMapping`, reported before anything is mapped.
- ElfViews.MakeElfView: reads outside the image are undefined behaviour in the original and `OutOfBounds` here. A `.dynstr` name comparison that runs off the end of the image counts as a mismatch, not an error. The tables are read whole before being searched, so a table that leaves the image fails even when the match comes earlier.
- ElfViews.ResolveSymbol: a symbol-name comparison (`HasName`, the `strcmp` of src/elf_view.cpp:62) that runs off the end of the image is undefined behaviour in the original. Here it counts as a mismatch, not an `OutOfBounds` error, so such a symbol is skipped rather than failing the resolution.
- Loader.ElfLoader.SymbolAddr: the address is an integer. The cast to a function-pointer type `T` is not modelled.
- Loader.ElfLoader.GetMmapLen: `ori_size + 2 * page_size` is a signed `ptrdiff_t` sum. The model wraps it as unsigned, which is what the comparison with the `size_t` length converts it to. Signed overflow is not modelled separately.
- Update in place, aliasing and pointers: spans are byte offsets into an immutable image. The view is a value and cannot alias the loader's mapping.
