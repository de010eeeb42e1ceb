/**
 * ElfLoader of include/elf_loader.hpp and src/elf_loader.cpp: the mapping footprint of
 * the loadable segments, the copy of those segments into the mapped region, and the
 * runtime address of a symbol. Address arithmetic is on 64-bit `uintptr_t`, so it wraps.
 * The operating system's `mmap` is a fresh zero-filled array together with the address
 * the system chose for it; `getpagesize()` is a parameter.
 */
module Loader {
  import opened Errors
  import opened Arithmetic
  import opened LittleEndian
  import opened ElfFormat
  import opened Spans
  import opened ElfViews

  /** `is_segment_loadable`. */
  predicate IsSegmentLoadable(seg: Phdr)
  {
    seg.segType == PT_LOAD && seg.memsz > 0
  }

  /** `seg.p_vaddr + seg.p_memsz` as a `uintptr_t`. */
  function SegmentEnd(seg: Phdr): u64 {
    Wrap(seg.vaddr + seg.memsz)
  }

  function Min(a: u64, b: u64): u64 { if a <= b then a else b }
  function Max(a: u64, b: u64): u64 { if a >= b then a else b }

  predicate SomeLoadable(phdrs: seq<Phdr>) {
    exists i :: 0 <= i < |phdrs| && IsSegmentLoadable(phdrs[i])
  }

  /**
   * `vaddr_min` after the scan of `get_mmap_len`: it starts at the largest `uintptr_t`
   * and every loadable segment lowers it to its p_vaddr.
   */
  function VaddrMin(phdrs: seq<Phdr>): u64
    decreases |phdrs|
  {
    if |phdrs| == 0 then TWO_64 - 1
    else
      var m := VaddrMin(phdrs[..|phdrs| - 1]);
      var seg := phdrs[|phdrs| - 1];
      if IsSegmentLoadable(seg) then Min(m, seg.vaddr) else m
  }

  /**
   * `vaddr_max` after the scan of `get_mmap_len`: it starts at 0 and every loadable
   * segment raises it to its end address.
   */
  function VaddrMax(phdrs: seq<Phdr>): u64
    decreases |phdrs|
  {
    if |phdrs| == 0 then 0
    else
      var m := VaddrMax(phdrs[..|phdrs| - 1]);
      var seg := phdrs[|phdrs| - 1];
      if IsSegmentLoadable(seg) then Max(m, SegmentEnd(seg)) else m
  }

  /**
   * vaddr_min is the least p_vaddr over the loadable segments only, and the largest
   * address when there is none.
   */
  lemma {:induction false} VaddrMinIsLeast(phdrs: seq<Phdr>)
    ensures forall i :: 0 <= i < |phdrs| && IsSegmentLoadable(phdrs[i]) ==> VaddrMin(phdrs) <= phdrs[i].vaddr
    ensures SomeLoadable(phdrs) ==>
              exists i :: 0 <= i < |phdrs| && IsSegmentLoadable(phdrs[i]) && VaddrMin(phdrs) == phdrs[i].vaddr
    ensures !SomeLoadable(phdrs) ==> VaddrMin(phdrs) == TWO_64 - 1
    decreases |phdrs|
  {
    if |phdrs| > 0 {
      var n := |phdrs| - 1;
      VaddrMinIsLeast(phdrs[..n]);
      assert forall i :: 0 <= i < n ==> phdrs[..n][i] == phdrs[i];
      if SomeLoadable(phdrs[..n]) {
        var k :| 0 <= k < n && IsSegmentLoadable(phdrs[..n][k]) && VaddrMin(phdrs[..n]) == phdrs[..n][k].vaddr;
        assert IsSegmentLoadable(phdrs[k]);
      }
    }
  }

  /**
   * vaddr_max is the greatest end address over the loadable segments only, and 0 when
   * there is none.
   */
  lemma {:induction false} VaddrMaxIsGreatest(phdrs: seq<Phdr>)
    ensures forall i :: 0 <= i < |phdrs| && IsSegmentLoadable(phdrs[i]) ==> SegmentEnd(phdrs[i]) <= VaddrMax(phdrs)
    ensures SomeLoadable(phdrs) ==>
              exists i :: 0 <= i < |phdrs| && IsSegmentLoadable(phdrs[i]) && VaddrMax(phdrs) == SegmentEnd(phdrs[i])
    ensures !SomeLoadable(phdrs) ==> VaddrMax(phdrs) == 0
    decreases |phdrs|
  {
    if |phdrs| > 0 {
      var n := |phdrs| - 1;
      VaddrMaxIsGreatest(phdrs[..n]);
      assert forall i :: 0 <= i < n ==> phdrs[..n][i] == phdrs[i];
      if SomeLoadable(phdrs[..n]) {
        var k :| 0 <= k < n && IsSegmentLoadable(phdrs[..n][k]) && VaddrMax(phdrs[..n]) == SegmentEnd(phdrs[..n][k]);
        assert IsSegmentLoadable(phdrs[k]);
      }
    }
  }

  /** One more program header in the scan of `get_mmap_len`. */
  lemma ScanStep(phdrs: seq<Phdr>, i: nat)
    requires i < |phdrs|
    ensures VaddrMin(phdrs[..i + 1])
            == if IsSegmentLoadable(phdrs[i]) then Min(VaddrMin(phdrs[..i]), phdrs[i].vaddr) else VaddrMin(phdrs[..i])
    ensures VaddrMax(phdrs[..i + 1])
            == if IsSegmentLoadable(phdrs[i]) then Max(VaddrMax(phdrs[..i]), SegmentEnd(phdrs[i])) else VaddrMax(phdrs[..i])
  {
    assert phdrs[..i + 1][..i] == phdrs[..i];
  }

  /** `getpagesize()` is positive, and `2 * page_size` is computed in a 32-bit `int`. */
  predicate PageSizeOk(pageSize: nat) {
    0 < pageSize < 0x4000_0000
  }

  /** `base`: `vaddr` floored to a page boundary. */
  function FloorToPage(vaddr: u64, pageSize: nat): u64
    requires PageSizeOk(pageSize)
  {
    vaddr - vaddr % pageSize
  }

  /**
   * The arithmetic of `get_mmap_len` once vaddr_min and vaddr_max are known: the length
   * from the floored base to vaddr_max rounded up past the next page boundary, then the
   * four checks. All of it wraps as the `uintptr_t`/`size_t` arithmetic of the original
   * does, and the `ptrdiff_t` comparisons are made as unsigned ones, as C++ converts them.
   */
  function MmapLenOf(vaddrMin: u64, vaddrMax: u64, pageSize: nat): (r: Result<u64>)
    requires PageSizeOk(pageSize)
    ensures r.Ok? ==> r.value % pageSize == 0 && FloorToPage(vaddrMin, pageSize) % pageSize == 0
    ensures r.Ok? ==> Wrap(vaddrMax - vaddrMin) < r.value < Wrap(Wrap(vaddrMax - vaddrMin) + 2 * pageSize)
  {
    var base := FloorToPage(vaddrMin, pageSize);
    var span := Wrap(vaddrMax - base);
    var len := Wrap(span + (pageSize - span % pageSize));
    var oriSize := Wrap(vaddrMax - vaddrMin);
    if !(len < Wrap(oriSize + 2 * pageSize)) then Err(ExaggeratedSize)
    else if !(len > oriSize) then Err(LengthBelowRange)
    else if base % pageSize != 0 then Err(BaseNotPageAligned)
    else if len % pageSize != 0 then Err(LengthNotPageAligned)
    else Ok(len)
  }

  /** The value `get_mmap_len` returns, or the failure of one of its checks. */
  function MmapLen(phdrs: seq<Phdr>, pageSize: nat): Result<u64>
    requires PageSizeOk(pageSize)
  {
    MmapLenOf(VaddrMin(phdrs), VaddrMax(phdrs), pageSize)
  }

  /** Flooring to a multiple of the page size. */
  lemma FloorAligned(x: nat, pageSize: nat)
    requires 0 < pageSize
    ensures (x - x % pageSize) % pageSize == 0
  {
    DivModUnique(x, pageSize, x / pageSize, x % pageSize);
    MulDivCancel(x / pageSize, pageSize);
  }

  /** Adding what is missing to the next page boundary (a whole page when aligned). */
  lemma RoundUpAligned(x: nat, pageSize: nat)
    requires 0 < pageSize
    ensures (x + (pageSize - x % pageSize)) % pageSize == 0
  {
    DivModUnique(x, pageSize, x / pageSize, x % pageSize);
    assert x + (pageSize - x % pageSize) == (x / pageSize + 1) * pageSize;
    MulDivCancel(x / pageSize + 1, pageSize);
  }

  /**
   * When vaddr_min < vaddr_max and nothing leaves the 64-bit range, the checks hold:
   * the base is page-aligned and at most vaddr_min, and the length is a whole number of
   * pages, above the vaddr range, less than two pages beyond it, and reaches vaddr_max.
   */
  lemma RoundingBounds(vaddrMin: u64, vaddrMax: u64, pageSize: nat)
    requires PageSizeOk(pageSize)
    requires vaddrMin < vaddrMax && vaddrMax + 2 * pageSize < TWO_64
    ensures var base := FloorToPage(vaddrMin, pageSize);
            var span := vaddrMax - base;
            var len := span + pageSize - span % pageSize;
            base % pageSize == 0 && base <= vaddrMin < base + pageSize
            && MmapLenOf(vaddrMin, vaddrMax, pageSize) == Ok(len)
            && len % pageSize == 0
            && vaddrMax - vaddrMin < len < vaddrMax - vaddrMin + 2 * pageSize
            && vaddrMax < base + len
  {
    var base := FloorToPage(vaddrMin, pageSize);
    FloorAligned(vaddrMin, pageSize);
    var span := vaddrMax - base;
    RoundUpAligned(span, pageSize);
    assert Wrap(vaddrMax - base) == span;
    var len := span + pageSize - span % pageSize;
    assert Wrap(span + (pageSize - span % pageSize)) == len;
    assert Wrap(vaddrMax - vaddrMin) == vaddrMax - vaddrMin;
    assert Wrap(vaddrMax - vaddrMin + 2 * pageSize) == vaddrMax - vaddrMin + 2 * pageSize;
  }

  /**
   * The footprint of the loadable segments: with at least one loadable segment and no
   * end address near the top of the 64-bit range, `get_mmap_len` succeeds, vaddr_min and
   * vaddr_max bound every loadable segment, and the mapping from the floored base covers
   * them all in whole pages, with less than two pages of slack.
   */
  lemma FootprintBounds(phdrs: seq<Phdr>, pageSize: nat)
    requires PageSizeOk(pageSize)
    requires SomeLoadable(phdrs)
    requires forall i :: 0 <= i < |phdrs| && IsSegmentLoadable(phdrs[i]) ==>
               phdrs[i].vaddr + phdrs[i].memsz + 2 * pageSize < TWO_64
    ensures var vmin, vmax := VaddrMin(phdrs), VaddrMax(phdrs);
            var base := FloorToPage(vmin, pageSize);
            MmapLen(phdrs, pageSize).Ok?
            && var len := MmapLen(phdrs, pageSize).value;
            base % pageSize == 0 && len % pageSize == 0
            && vmax - vmin < len < vmax - vmin + 2 * pageSize
            && forall i :: 0 <= i < |phdrs| && IsSegmentLoadable(phdrs[i]) ==>
                 base <= phdrs[i].vaddr && phdrs[i].vaddr + phdrs[i].memsz <= base + len
  {
    VaddrMinIsLeast(phdrs);
    VaddrMaxIsGreatest(phdrs);
    var vmin, vmax := VaddrMin(phdrs), VaddrMax(phdrs);
    var i :| 0 <= i < |phdrs| && IsSegmentLoadable(phdrs[i]) && vmin == phdrs[i].vaddr;
    var j :| 0 <= j < |phdrs| && IsSegmentLoadable(phdrs[j]) && vmax == SegmentEnd(phdrs[j]);
    assert SegmentEnd(phdrs[i]) == phdrs[i].vaddr + phdrs[i].memsz;
    assert vmax == phdrs[j].vaddr + phdrs[j].memsz;
    RoundingBounds(vmin, vmax, pageSize);
    forall k | 0 <= k < |phdrs| && IsSegmentLoadable(phdrs[k])
      ensures phdrs[k].vaddr + phdrs[k].memsz <= vmax
    {
      assert SegmentEnd(phdrs[k]) == phdrs[k].vaddr + phdrs[k].memsz;
    }
  }

  /**
   * With no loadable segment the original does not fail: vaddr_min stays at the largest
   * address and vaddr_max at 0, and the wrapped arithmetic yields one or two pages.
   */
  lemma NoLoadableSegmentStillMaps(phdrs: seq<Phdr>, pageSize: nat)
    requires PageSizeOk(pageSize)
    requires !SomeLoadable(phdrs)
    ensures MmapLen(phdrs, pageSize) == Ok(pageSize) || MmapLen(phdrs, pageSize) == Ok(2 * pageSize)
  {
    VaddrMinIsLeast(phdrs);
    VaddrMaxIsGreatest(phdrs);
    EmptyFootprint(pageSize);
  }

  lemma EmptyFootprint(pageSize: nat)
    requires PageSizeOk(pageSize)
    ensures MmapLenOf(TWO_64 - 1, 0, pageSize) == Ok(pageSize)
            || MmapLenOf(TWO_64 - 1, 0, pageSize) == Ok(2 * pageSize)
  {
    var top: u64 := TWO_64 - 1;
    var q := top % pageSize;
    var base := FloorToPage(top, pageSize);
    FloorAligned(top, pageSize);
    assert base == top - q && 0 < base;
    var span := Wrap(0 - base as int);
    assert span == 1 + q;
    DivModUnique(pageSize, pageSize, 1, 0);
    DivModUnique(2 * pageSize, pageSize, 2, 0);
    if span < pageSize {
      DivModUnique(span, pageSize, 0, span);
      assert Wrap(span + (pageSize - span % pageSize)) == pageSize;
    } else {
      assert Wrap(span + (pageSize - span % pageSize)) == 2 * pageSize;
    }
    assert Wrap(0 - top as int) == 1;
    assert Wrap(1 + 2 * pageSize) == 1 + 2 * pageSize;
  }

  /** Removing a segment that is not loadable does not change the footprint. */
  lemma {:induction false} FootprintIgnoresNonLoadable(a: seq<Phdr>, seg: Phdr, b: seq<Phdr>, pageSize: nat)
    requires !IsSegmentLoadable(seg) && PageSizeOk(pageSize)
    ensures VaddrMin(a + [seg] + b) == VaddrMin(a + b)
    ensures VaddrMax(a + [seg] + b) == VaddrMax(a + b)
    ensures MmapLen(a + [seg] + b, pageSize) == MmapLen(a + b, pageSize)
    decreases |b|
  {
    var with, without := a + [seg] + b, a + b;
    if |b| == 0 {
      assert with[..|a|] == a == without;
    } else {
      var n := |b| - 1;
      FootprintIgnoresNonLoadable(a, seg, b[..n], pageSize);
      assert with[..|with| - 1] == a + [seg] + b[..n];
      assert without[..|without| - 1] == a + b[..n];
      assert with[|with| - 1] == without[|without| - 1];
    }
  }

  /** `mem` with `bytes` written from index `at` (a `memcpy` into it). */
  function Overwrite(mem: seq<byte>, at: nat, bytes: seq<byte>): (r: seq<byte>)
    requires at + |bytes| <= |mem|
    ensures |r| == |mem|
    ensures forall p :: 0 <= p < |mem| ==>
              r[p] == if at <= p < at + |bytes| then bytes[p - at] else mem[p]
  {
    mem[..at] + bytes + mem[at + |bytes|..]
  }

  /**
   * The `memcpy` of a loadable segment stays inside the mapping (destination
   * `base + p_vaddr`) and inside the image (source `p_offset`).
   */
  predicate SegmentFits(seg: Phdr, memLen: nat, imageLen: nat) {
    seg.vaddr + seg.memsz <= memLen && seg.offset + seg.memsz <= imageLen
  }

  predicate SegmentsFit(phdrs: seq<Phdr>, memLen: nat, imageLen: nat) {
    forall i :: 0 <= i < |phdrs| && IsSegmentLoadable(phdrs[i]) ==> SegmentFits(phdrs[i], memLen, imageLen)
  }

  /** Mapped byte `p` lies in the destination range of segment `seg`. */
  predicate Covers(seg: Phdr, p: nat) {
    seg.vaddr <= p < seg.vaddr + seg.memsz
  }

  /**
   * The mapped region after the first `n` iterations of `copy_segments_to_mem`: the
   * loadable segments among the first `n` copied in table order, each `p_memsz` bytes
   * from `p_offset` of the image to `p_vaddr`.
   */
  function CopyFirst(mem: seq<byte>, image: seq<byte>, phdrs: seq<Phdr>, n: nat): (r: seq<byte>)
    requires n <= |phdrs| && SegmentsFit(phdrs, |mem|, |image|)
    ensures |r| == |mem|
  {
    if n == 0 then mem
    else
      var before := CopyFirst(mem, image, phdrs, n - 1);
      var seg := phdrs[n - 1];
      if IsSegmentLoadable(seg) then
        Overwrite(before, seg.vaddr, image[seg.offset..seg.offset + seg.memsz])
      else before
  }

  /** The mapped region after `copy_segments_to_mem`. */
  function CopySegments(mem: seq<byte>, image: seq<byte>, phdrs: seq<Phdr>): (r: seq<byte>)
    requires SegmentsFit(phdrs, |mem|, |image|)
  {
    CopyFirst(mem, image, phdrs, |phdrs|)
  }

  /**
   * A segment `is_segment_loadable` rejects (not PT_LOAD, or p_memsz == 0) is skipped by
   * the copy loop: after any number of iterations the mapped region is the one the loop
   * leaves on the table without it.
   */
  lemma {:induction false} CopyIgnoresNonLoadableUpTo(mem: seq<byte>, image: seq<byte>, a: seq<Phdr>,
                                                       seg: Phdr, b: seq<Phdr>, n: nat)
    requires !IsSegmentLoadable(seg) && SegmentsFit(a + b, |mem|, |image|) && n <= |a + b|
    ensures SegmentsFit(a + [seg] + b, |mem|, |image|)
    ensures n <= |a| ==> CopyFirst(mem, image, a + [seg] + b, n) == CopyFirst(mem, image, a + b, n)
    ensures |a| <= n ==> CopyFirst(mem, image, a + [seg] + b, n + 1) == CopyFirst(mem, image, a + b, n)
    decreases n
  {
    var with, without := a + [seg] + b, a + b;
    forall i | 0 <= i < |with| && IsSegmentLoadable(with[i])
      ensures SegmentFits(with[i], |mem|, |image|)
    {
      assert with[i] == without[if i < |a| then i else i - 1];
    }
    if n > 0 {
      CopyIgnoresNonLoadableUpTo(mem, image, a, seg, b, n - 1);
      if n <= |a| {
        assert with[n - 1] == without[n - 1];
      }
      if n > |a| {
        assert with[n] == without[n - 1];
      }
    }
  }

  /** Inserting a segment `is_segment_loadable` rejects anywhere leaves the copy unchanged. */
  lemma CopyIgnoresNonLoadable(mem: seq<byte>, image: seq<byte>, a: seq<Phdr>, seg: Phdr, b: seq<Phdr>)
    requires !IsSegmentLoadable(seg) && SegmentsFit(a + b, |mem|, |image|)
    ensures SegmentsFit(a + [seg] + b, |mem|, |image|)
    ensures CopySegments(mem, image, a + [seg] + b) == CopySegments(mem, image, a + b)
  {
    CopyIgnoresNonLoadableUpTo(mem, image, a, seg, b, |a + b|);
  }

  /** A mapped byte that none of the first `n` loadable segments covers keeps its value. */
  lemma {:induction false} CopyLeavesUncovered(mem: seq<byte>, image: seq<byte>, phdrs: seq<Phdr>, n: nat, p: nat)
    requires n <= |phdrs| && SegmentsFit(phdrs, |mem|, |image|) && p < |mem|
    requires forall i :: 0 <= i < n && IsSegmentLoadable(phdrs[i]) ==> !Covers(phdrs[i], p)
    ensures CopyFirst(mem, image, phdrs, n)[p] == mem[p]
  {
    if n > 0 {
      CopyLeavesUncovered(mem, image, phdrs, n - 1, p);
    }
  }

  /**
   * A mapped byte holds the image byte of the last loadable segment, in table order,
   * whose destination range covers it.
   */
  lemma {:induction false} CopyLastWriterWins(mem: seq<byte>, image: seq<byte>, phdrs: seq<Phdr>, n: nat, i: nat, p: nat)
    requires n <= |phdrs| && SegmentsFit(phdrs, |mem|, |image|)
    requires i < n && IsSegmentLoadable(phdrs[i]) && Covers(phdrs[i], p)
    requires forall j :: i < j < n && IsSegmentLoadable(phdrs[j]) ==> !Covers(phdrs[j], p)
    ensures p < |mem| && phdrs[i].offset + (p - phdrs[i].vaddr) < |image|
    ensures CopyFirst(mem, image, phdrs, n)[p] == image[phdrs[i].offset + (p - phdrs[i].vaddr)]
  {
    if i < n - 1 {
      CopyLastWriterWins(mem, image, phdrs, n - 1, i, p);
    }
  }

  /** The destination ranges of the loadable segments do not overlap. */
  predicate Disjoint(phdrs: seq<Phdr>) {
    forall i, j :: 0 <= i < j < |phdrs| && IsSegmentLoadable(phdrs[i]) && IsSegmentLoadable(phdrs[j]) ==>
      phdrs[i].vaddr + phdrs[i].memsz <= phdrs[j].vaddr || phdrs[j].vaddr + phdrs[j].memsz <= phdrs[i].vaddr
  }

  /**
   * Copy fidelity: when the loadable segments do not overlap, each one's mapped bytes
   * `[p_vaddr, p_vaddr + p_memsz)` are its image bytes `[p_offset, p_offset + p_memsz)`.
   */
  lemma CopyFidelity(mem: seq<byte>, image: seq<byte>, phdrs: seq<Phdr>, i: nat)
    requires SegmentsFit(phdrs, |mem|, |image|) && Disjoint(phdrs)
    requires i < |phdrs| && IsSegmentLoadable(phdrs[i])
    ensures var seg := phdrs[i];
            CopySegments(mem, image, phdrs)[seg.vaddr..seg.vaddr + seg.memsz]
              == image[seg.offset..seg.offset + seg.memsz]
  {
    var seg, r := phdrs[i], CopySegments(mem, image, phdrs);
    forall p | seg.vaddr <= p < seg.vaddr + seg.memsz
      ensures r[p] == image[seg.offset + (p - seg.vaddr)]
    {
      CopyLastWriterWins(mem, image, phdrs, |phdrs|, i, p);
    }
  }

  /**
   * Whether `load` gets past its footprint and its copy bounds: the program-header table
   * must lie in the image, the checks of `get_mmap_len` must hold, and every loadable
   * segment must be copied inside the image and inside the mapping.
   */
  function LoadPlan(v: ElfView, pageSize: nat): (r: Result<u64>)
    requires v.Valid() && PageSizeOk(pageSize)
    ensures r.Ok? <==>
              (ProgramHeaders(v.data, v.programHeaders).Ok?
               && var phdrs := ProgramHeaders(v.data, v.programHeaders).value;
                  MmapLen(phdrs, pageSize).Ok? && SegmentsFit(phdrs, MmapLen(phdrs, pageSize).value, |v.data|))
    ensures r.Ok? ==> r == MmapLen(ProgramHeaders(v.data, v.programHeaders).value, pageSize)
  {
    var phdrs :- ProgramHeaders(v.data, v.programHeaders);
    var len :- MmapLen(phdrs, pageSize);
    if SegmentsFit(phdrs, len, |v.data|) then Ok(len) else Err(SegmentOutsideMapping)
  }

  /** The bytes of the mapped region after a successful `load`. */
  function LoadedImage(v: ElfView, pageSize: nat): (r: Result<seq<byte>>)
    requires v.Valid() && PageSizeOk(pageSize)
    ensures r.Ok? <==> LoadPlan(v, pageSize).Ok?
    ensures r.Ok? ==> |r.value| == LoadPlan(v, pageSize).value
  {
    var len :- LoadPlan(v, pageSize);
    Ok(CopySegments(Zeros(len), v.data, ProgramHeaders(v.data, v.programHeaders).value))
  }

  /** After a load, bytes outside every loadable segment's range are zero. */
  lemma LoadedImageZeroOutside(v: ElfView, pageSize: nat, p: nat)
    requires v.Valid() && PageSizeOk(pageSize) && LoadedImage(v, pageSize).Ok?
    requires p < |LoadedImage(v, pageSize).value|
    ensures var phdrs := ProgramHeaders(v.data, v.programHeaders).value;
            (forall i :: 0 <= i < |phdrs| && IsSegmentLoadable(phdrs[i]) ==> !Covers(phdrs[i], p))
            ==> LoadedImage(v, pageSize).value[p] == 0
  {
    var phdrs := ProgramHeaders(v.data, v.programHeaders).value;
    if forall i :: 0 <= i < |phdrs| && IsSegmentLoadable(phdrs[i]) ==> !Covers(phdrs[i], p) {
      CopyLeavesUncovered(Zeros(LoadPlan(v, pageSize).value), v.data, phdrs, |phdrs|, p);
    }
  }

  /**
   * After a load, when the loadable segments do not overlap, each segment's mapped bytes
   * are its image bytes.
   */
  lemma LoadedImageSegmentBytes(v: ElfView, pageSize: nat, i: nat, p: nat)
    requires v.Valid() && PageSizeOk(pageSize) && LoadedImage(v, pageSize).Ok?
    requires p < |LoadedImage(v, pageSize).value|
    requires var phdrs := ProgramHeaders(v.data, v.programHeaders).value;
             Disjoint(phdrs) && i < |phdrs| && IsSegmentLoadable(phdrs[i]) && Covers(phdrs[i], p)
    ensures var seg := ProgramHeaders(v.data, v.programHeaders).value[i];
            LoadedImage(v, pageSize).value[p] == v.data[seg.offset + (p - seg.vaddr)]
  {
    var phdrs := ProgramHeaders(v.data, v.programHeaders).value;
    CopyLastWriterWins(Zeros(LoadPlan(v, pageSize).value), v.data, phdrs, |phdrs|, i, p);
  }

  /**
   * The copy destination is `base + p_vaddr`, not `base + (p_vaddr - floored vaddr_min)`,
   * so every segment lands inside the mapping when vaddr_min is in the first page.
   */
  lemma LowImageFits(phdrs: seq<Phdr>, pageSize: nat, imageLen: nat)
    requires PageSizeOk(pageSize) && SomeLoadable(phdrs)
    requires forall i :: 0 <= i < |phdrs| && IsSegmentLoadable(phdrs[i]) ==>
               phdrs[i].vaddr + phdrs[i].memsz + 2 * pageSize < TWO_64
               && phdrs[i].offset + phdrs[i].memsz <= imageLen
    requires VaddrMin(phdrs) < pageSize
    ensures MmapLen(phdrs, pageSize).Ok? && SegmentsFit(phdrs, MmapLen(phdrs, pageSize).value, imageLen)
  {
    FootprintBounds(phdrs, pageSize);
    DivModUnique(VaddrMin(phdrs), pageSize, 0, VaddrMin(phdrs));
    assert FloorToPage(VaddrMin(phdrs), pageSize) == 0;
  }

  /**
   * An empty program-header table (e_phnum == 0) reads no byte, wherever e_phoff points;
   * `load` then maps one or two pages and copies nothing.
   */
  lemma NoProgramHeadersStillLoads(v: ElfView, pageSize: nat)
    requires v.Valid() && PageSizeOk(pageSize) && v.programHeaders.Len() == 0
    ensures ProgramHeaders(v.data, v.programHeaders) == Ok([])
    ensures LoadPlan(v, pageSize) == Ok(pageSize) || LoadPlan(v, pageSize) == Ok(2 * pageSize)
    ensures LoadedImage(v, pageSize).Ok? && forall p :: 0 <= p < |LoadedImage(v, pageSize).value| ==>
              LoadedImage(v, pageSize).value[p] == 0
  {
    NoLoadableSegmentStillMaps([], pageSize);
  }

  /**
   * `load` succeeds on an image whose program headers lie in the image, whose loadable
   * segments lie in the image and do not wrap, and whose vaddr_min is in the first page.
   */
  lemma LowImageLoads(v: ElfView, pageSize: nat, phdrs: seq<Phdr>)
    requires v.Valid() && PageSizeOk(pageSize) && ProgramHeaders(v.data, v.programHeaders) == Ok(phdrs)
    requires SomeLoadable(phdrs) && VaddrMin(phdrs) < pageSize
    requires forall i :: 0 <= i < |phdrs| && IsSegmentLoadable(phdrs[i]) ==>
               phdrs[i].vaddr + phdrs[i].memsz + 2 * pageSize < TWO_64
               && phdrs[i].offset + phdrs[i].memsz <= |v.data|
    ensures LoadPlan(v, pageSize).Ok? && LoadedImage(v, pageSize).Ok?
  {
    LowImageFits(phdrs, pageSize, |v.data|);
  }

  /**
   * A segment whose vaddr is beyond the first page is copied past the end of the mapping:
   * one loadable segment shorter than a page at vaddr `pageSize` gets a one-page mapping,
   * which the destination `base + p_vaddr` already leaves, although the segment would
   * fit at `base + (p_vaddr - floored vaddr_min)`.
   */
  lemma HighSegmentLeavesMapping(pageSize: nat, offset: u64, memsz: u64, imageLen: nat)
    requires PageSizeOk(pageSize) && 0 < memsz < pageSize
    ensures var phdrs := [Phdr(PT_LOAD, offset, pageSize, memsz)];
            MmapLen(phdrs, pageSize) == Ok(pageSize)
            && !SegmentsFit(phdrs, pageSize, imageLen)
            && phdrs[0].vaddr - FloorToPage(VaddrMin(phdrs), pageSize) + phdrs[0].memsz <= pageSize
  {
    var phdrs := [Phdr(PT_LOAD, offset, pageSize, memsz)];
    assert phdrs[..0] == [];
    assert IsSegmentLoadable(phdrs[0]);
    assert VaddrMin(phdrs) == pageSize;
    assert VaddrMax(phdrs) == pageSize + memsz;
    OnePageFootprint(pageSize, memsz);
    assert !SegmentFits(phdrs[0], pageSize, imageLen);
  }

  lemma OnePageFootprint(pageSize: nat, memsz: nat)
    requires PageSizeOk(pageSize) && 0 < memsz < pageSize
    ensures FloorToPage(pageSize, pageSize) == pageSize
    ensures MmapLenOf(pageSize, pageSize + memsz, pageSize) == Ok(pageSize)
  {
    DivModUnique(pageSize, pageSize, 1, 0);
    DivModUnique(memsz, pageSize, 0, memsz);
    RoundingBounds(pageSize, pageSize + memsz, pageSize);
  }

  /** The loader: the view of its image and the region `mmap` returned. */
  class ElfLoader {
    const elf: ElfView
    var mappedMemory: array<byte>
    var mappedAddr: u64

    /** `mapped_memory` as a span of bytes. */
    function MappedSpan(): (s: Span)
      reads this
      ensures s.Valid() && s.begin == mappedAddr && s.Len() == mappedMemory.Length
    {
      Span(mappedAddr, mappedAddr + mappedMemory.Length, 1)
    }

    /** Construction over a view; before `load` the mapped span is the null span. */
    constructor (view: ElfView)
      requires view.Valid()
      ensures elf == view && mappedAddr == 0 && mappedMemory.Length == 0
      ensures MappedSpan() == Empty(1)
    {
      elf := view;
      mappedMemory := new byte[0];
      mappedAddr := 0;
    }

    /** `ElfLoader(std::vector<char>)`: a loader over the view of `data`, if it has one. */
    static method FromBytes(data: seq<byte>) returns (r: Result<ElfLoader>)
      ensures r.Ok? <==> MakeElfView(data).Ok?
      ensures r.Ok? ==> fresh(r.value) && Ok(r.value.elf) == MakeElfView(data)
                        && r.value.mappedAddr == 0 && r.value.mappedMemory.Length == 0
    {
      var view := MakeElfView(data);
      if view.Err? {
        return Err(view.error);
      }
      var loader := new ElfLoader(view.value);
      return Ok(loader);
    }

    /** `get_base_addr`: the start address of the mapped region. */
    function BaseAddr(): (r: u64)
      reads this
      ensures r == MappedSpan().begin
    {
      mappedAddr
    }

    /**
     * `get_symbol_addr`: the base address plus st_value of the symbol `resolve_symbol`
     * finds, in `uintptr_t` arithmetic; it fails exactly when the resolution fails.
     */
    function SymbolAddr(name: CString): (r: Result<u64>)
      requires elf.Valid()
      reads this
      ensures r.Ok? <==> ResolveSymbol(elf, name).Ok?
      ensures r.Ok? ==> var v := ResolveSymbol(elf, name).value.value;
                        r.value == BaseAddr() + v || r.value == BaseAddr() + v - TWO_64
    {
      var sym :- ResolveSymbol(elf, name);
      Ok(Wrap(BaseAddr() + sym.value))
    }

    /**
     * `get_mmap_len`: the scan for vaddr_min and vaddr_max over the program headers,
     * then the rounding and the four checks of `MmapLenOf`.
     */
    method GetMmapLen(pageSize: nat) returns (r: Result<u64>)
      requires elf.Valid() && PageSizeOk(pageSize)
      ensures ProgramHeaders(elf.data, elf.programHeaders).Err? ==> r == Err(OutOfBounds)
      ensures ProgramHeaders(elf.data, elf.programHeaders).Ok? ==>
                r == MmapLen(ProgramHeaders(elf.data, elf.programHeaders).value, pageSize)
    {
      var table := ProgramHeaders(elf.data, elf.programHeaders);
      if table.Err? {
        return Err(table.error);
      }
      var phdrs := table.value;
      var vaddrMin: u64 := TWO_64 - 1;
      var vaddrMax: u64 := 0;
      for i := 0 to |phdrs|
        invariant vaddrMin == VaddrMin(phdrs[..i])
        invariant vaddrMax == VaddrMax(phdrs[..i])
      {
        ScanStep(phdrs, i);
        var seg := phdrs[i];
        if IsSegmentLoadable(seg) {
          vaddrMin := Min(vaddrMin, seg.vaddr);
          vaddrMax := Max(vaddrMax, Wrap(seg.vaddr + seg.memsz));
        }
      }
      assert phdrs[..|phdrs|] == phdrs;
      r := MmapLenOf(vaddrMin, vaddrMax, pageSize);
    }

    /** `mmap_pages`: a fresh zero-filled region of `len` bytes, placed at `addr`. */
    method MmapPages(len: nat, addr: u64)
      modifies this
      ensures fresh(mappedMemory) && mappedMemory[..] == Zeros(len) && mappedAddr == addr
      ensures MappedSpan() == FromCount(addr, len, 1)
    {
      mappedMemory := new byte[len](_ => 0);
      mappedAddr := addr;
    }

    /** `std::memcpy(dst + dstOff, src + srcOff, len)`. */
    static method MemCopy(dst: array<byte>, dstOff: nat, src: seq<byte>, srcOff: nat, len: nat)
      requires dstOff + len <= dst.Length && srcOff + len <= |src|
      modifies dst
      ensures dst[..] == Overwrite(old(dst[..]), dstOff, src[srcOff..srcOff + len])
    {
      for k := 0 to len
        invariant forall p :: 0 <= p < dst.Length ==>
                    dst[p] == if dstOff <= p < dstOff + k then src[srcOff + (p - dstOff)] else old(dst[p])
      {
        dst[dstOff + k] := src[srcOff + k];
      }
      assert dst[..] == Overwrite(old(dst[..]), dstOff, src[srcOff..srcOff + len]);
    }

    /** `copy_segments_to_mem`: each loadable segment, in table order, to `base + p_vaddr`. */
    method CopySegmentsToMem()
      requires elf.Valid() && ProgramHeaders(elf.data, elf.programHeaders).Ok?
      requires SegmentsFit(ProgramHeaders(elf.data, elf.programHeaders).value, mappedMemory.Length, |elf.data|)
      modifies mappedMemory
      ensures mappedMemory[..]
                == CopySegments(old(mappedMemory[..]), elf.data, ProgramHeaders(elf.data, elf.programHeaders).value)
    {
      CopyLoadable(mappedMemory, elf.data, ProgramHeaders(elf.data, elf.programHeaders).value);
    }

    /** The loop of `copy_segments_to_mem` over a program-header table. */
    static method CopyLoadable(mem: array<byte>, image: seq<byte>, phdrs: seq<Phdr>)
      requires SegmentsFit(phdrs, mem.Length, |image|)
      modifies mem
      ensures mem[..] == CopySegments(old(mem[..]), image, phdrs)
    {
      for i := 0 to |phdrs|
        invariant mem[..] == CopyFirst(old(mem[..]), image, phdrs, i)
      {
        var seg := phdrs[i];
        if IsSegmentLoadable(seg) {
          MemCopy(mem, seg.vaddr, image, seg.offset, seg.memsz);
        }
      }
    }

    /**
     * `load`: the footprint, then the mapping (placed by the system at `mapAddr`), then
     * the copy. A failure happens before anything is mapped.
     */
    method Load(pageSize: nat, mapAddr: u64) returns (r: Result<()>)
      requires elf.Valid() && PageSizeOk(pageSize)
      modifies this
      ensures r.Ok? <==> LoadPlan(elf, pageSize).Ok?
      ensures r.Err? ==> r.error == LoadPlan(elf, pageSize).error && unchanged(this)
      ensures r.Ok? ==> fresh(mappedMemory) && mappedAddr == mapAddr
                        && LoadedImage(elf, pageSize) == Ok(mappedMemory[..])
    {
      var len := GetMmapLen(pageSize);
      if len.Err? {
        return Err(len.error);
      }
      var phdrs := ProgramHeaders(elf.data, elf.programHeaders).value;
      if !SegmentsFit(phdrs, len.value, |elf.data|) {
        return Err(SegmentOutsideMapping);
      }
      MmapPages(len.value, mapAddr);
      CopySegmentsToMem();
      return Ok(());
    }
  }

  /**
   * Relative layout: two resolved symbols are as far apart at run time as their
   * st_values are, whatever the base address (modulo 2^64, as `uintptr_t` wraps).
   */
  lemma SymbolDistanceKept(l: ElfLoader, a: CString, b: CString)
    requires l.elf.Valid() && l.SymbolAddr(a).Ok? && l.SymbolAddr(b).Ok?
    ensures (l.SymbolAddr(a).value - l.SymbolAddr(b).value) % TWO_64
            == (ResolveSymbol(l.elf, a).value.value - ResolveSymbol(l.elf, b).value.value) % TWO_64
  {
    var d := ResolveSymbol(l.elf, a).value.value - ResolveSymbol(l.elf, b).value.value;
    var e := l.SymbolAddr(a).value - l.SymbolAddr(b).value;
    SameResidue(d, e);
  }
}
