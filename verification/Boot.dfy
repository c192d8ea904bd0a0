/** Building the frame bitmap from the boot memory map (section 3.6.8 of the Multiboot2 specification). */
module Boot {
  import opened Basics
  import opened Bitmap

  const AVAILABLE: nat := 1
  /** 1 MiB: where the kernel is loaded. */
  const KERNEL_PAGE: nat := 0x10_0000 / PAGE

  datatype Region = Region(addr: nat, len: nat, kind: nat)
  datatype Tag = MemoryMap(entries: seq<Region>) | OtherTag

  // ---------------------------------------------------------------- which frames a map makes available

  /** Stepping through the region page by page from its first byte lands in frame `f`. */
  predicate Hits(r: Region, f: nat) {
    r.kind == 1 && r.addr / PAGE <= f && (f - r.addr / PAGE) * PAGE < r.len
  }

  /** That is: frame `f` holds the first byte of the region, or a byte that is a multiple of 4096 after it. */
  lemma HitsIsStep(r: Region, f: nat)
    ensures Hits(r, f) <==> r.kind == 1 && exists k: nat :: k * 4096 < r.len && (r.addr + k * 4096) / 4096 == f
  {
    if Hits(r, f) {
      var k: nat := f - r.addr / PAGE;
      assert k * 4096 < r.len && (r.addr + k * 4096) / 4096 == f;
    }
  }

  ghost predicate AnyHits(rs: seq<Region>, f: nat) { exists r :: r in rs && Hits(r, f) }

  ghost predicate MapHits(tags: seq<Tag>, f: nat) {
    exists t :: t in tags && t.MemoryMap? && AnyHits(t.entries, f)
  }

  /** Some byte of the region lies in frame `f`. */
  ghost predicate Overlaps(r: Region, f: nat) {
    exists a: nat :: r.addr <= a < r.addr + r.len && a / PAGE == f
  }

  /** A region that starts on a page boundary hits exactly the frames it overlaps, its partial last one included. */
  lemma AlignedRegionHitsWhatItOverlaps(r: Region, f: nat)
    requires r.kind == AVAILABLE && r.addr % PAGE == 0
    ensures Hits(r, f) <==> Overlaps(r, f)
  {
    if Hits(r, f) {
      assert (f * PAGE) / PAGE == f;
      assert r.addr <= f * PAGE < r.addr + r.len;
    }
    if Overlaps(r, f) {
      var a: nat :| r.addr <= a < r.addr + r.len && a / PAGE == f;
      assert f * PAGE <= a;
    }
  }

  /** Every byte of frame `f` belongs to the region. */
  predicate Contains(r: Region, f: nat) {
    r.addr <= f * PAGE && (f + 1) * PAGE <= r.addr + r.len
  }

  /** The frames freed for a region are all backed by it exactly when it consists of whole pages. */
  lemma FreedFramesAreWholeIff(r: Region)
    requires r.kind == AVAILABLE
    ensures (forall f: nat | Hits(r, f) :: Contains(r, f)) <==>
            r.len == 0 || (r.addr % PAGE == 0 && r.len % PAGE == 0)
  {
    if r.len > 0 {
      var first, last := r.addr / PAGE, r.addr / PAGE + (r.len - 1) / PAGE;
      assert Hits(r, first) && Hits(r, last);
      assert Contains(r, first) ==> r.addr % PAGE == 0;
      assert r.addr % PAGE == 0 && Contains(r, last) ==> r.len % PAGE == 0;
      forall f: nat | r.addr % PAGE == 0 && r.len % PAGE == 0 && Hits(r, f) ensures Contains(r, f) {
        assert f - first < r.len / PAGE;
      }
    }
  }

  /** The usual low memory of a PC ends inside a frame: that frame is freed although its end is not available. */
  lemma PartialFrameIsFreed()
    ensures var r := Region(0, 0x9_FC00, AVAILABLE); Hits(r, 0x9F) && !Contains(r, 0x9F)
  {}

  // ---------------------------------------------------------------- the phases of init_bitmap_allocator

  /** Frame numbers and their count are 32-bit values. */
  predicate RegionOk(r: Region) { r.kind == AVAILABLE ==> r.addr + r.len < PAGE * TWO32 }

  predicate MapOk(tags: seq<Tag>) {
    forall t | t in tags && t.MemoryMap? :: forall r | r in t.entries :: RegionOk(r)
  }

  ghost predicate EndsAt(tags: seq<Tag>, m: nat) {
    exists t, r :: t in tags && t.MemoryMap? && r in t.entries && r.kind == AVAILABLE && r.addr + r.len == m
  }

  ghost predicate BoundsAll(rs: seq<Region>, m: nat) {
    forall r | r in rs && r.kind == AVAILABLE :: r.addr + r.len <= m
  }

  /** `m` is the end of the highest available region. */
  ghost predicate IsHighest(tags: seq<Tag>, m: nat) {
    EndsAt(tags, m) && forall t | t in tags && t.MemoryMap? :: BoundsAll(t.entries, m)
  }

  lemma HighestIsUnique(tags: seq<Tag>, m: nat, n: nat)
    requires IsHighest(tags, m) && (forall t | t in tags && t.MemoryMap? :: BoundsAll(t.entries, n))
    requires n == 0 || EndsAt(tags, n)
    ensures m == n
  {}

  /** Phase 1: the highest end of an available region. */
  method MaxAddress(tags: seq<Tag>) returns (m: nat)
    ensures forall t | t in tags && t.MemoryMap? :: BoundsAll(t.entries, m)
    ensures m == 0 || EndsAt(tags, m)
  {
    m := 0;
    for i := 0 to |tags|
      invariant forall t | t in tags[..i] && t.MemoryMap? :: BoundsAll(t.entries, m)
      invariant m == 0 || EndsAt(tags, m)
    {
      if tags[i].MemoryMap? {
        var rs := tags[i].entries;
        ghost var m0 := m;
        for j := 0 to |rs|
          invariant m0 <= m && BoundsAll(rs[..j], m)
          invariant m == 0 || EndsAt(tags, m)
        {
          if rs[j].kind == AVAILABLE && rs[j].addr + rs[j].len > m {
            m := rs[j].addr + rs[j].len;
            assert tags[i] in tags && rs[j] in tags[i].entries;
          }
        }
        assert rs[..|rs|] == rs;
      }
    }
    assert tags[..|tags|] == tags;
  }

  /** The innermost loop of phase 3: clear one bit per page step. */
  method FreeRegion(bitmap: array<bv8>, r: Region)
    requires r.kind == AVAILABLE && RegionOk(r)
    requires forall f: nat | Hits(r, f) :: f < 8 * bitmap.Length
    modifies bitmap
    ensures forall f: nat | f < 8 * bitmap.Length :: Used(bitmap[..], f) <==> old(Used(bitmap[..], f)) && !Hits(r, f)
  {
    ghost var m := bitmap[..];
    var addr := r.addr;
    ghost var k := 0;
    while addr < r.addr + r.len
      invariant addr == r.addr + k * PAGE
      invariant forall f: nat | f < 8 * bitmap.Length ::
                  Used(bitmap[..], f) <==> Used(m, f) && !(r.addr / PAGE <= f < r.addr / PAGE + k)
      invariant k * PAGE < r.len + PAGE
      decreases r.addr + r.len - addr
    {
      var i := addr / PAGE;
      assert i == r.addr / PAGE + k && Hits(r, i);
      ghost var n := bitmap[..];
      bitmap[i / 8] := WithoutBit(bitmap[i / 8], i % 8);
      MarkFree(n, bitmap[..], i);
      addr := addr + PAGE;
      k := k + 1;
    }
  }

  method FreeEntries(bitmap: array<bv8>, rs: seq<Region>)
    requires forall r | r in rs :: RegionOk(r)
    requires forall f: nat | AnyHits(rs, f) :: f < 8 * bitmap.Length
    modifies bitmap
    ensures forall f: nat | f < 8 * bitmap.Length ::
              Used(bitmap[..], f) <==> old(Used(bitmap[..], f)) && !AnyHits(rs, f)
  {
    hide Used, Hits;
    ghost var m := bitmap[..];
    for j := 0 to |rs|
      invariant forall f: nat | f < 8 * bitmap.Length :: Used(bitmap[..], f) <==> Used(m, f) && !AnyHits(rs[..j], f)
    {
      AnyHitsStep(rs, j);
      if rs[j].kind == AVAILABLE {
        FreeRegion(bitmap, rs[j]);
      }
    }
    assert rs[..|rs|] == rs;
  }

  lemma AnyHitsStep(rs: seq<Region>, j: nat)
    requires j < |rs|
    ensures forall f: nat :: AnyHits(rs[..j + 1], f) <==> AnyHits(rs[..j], f) || Hits(rs[j], f)
    ensures forall f: nat :: Hits(rs[j], f) ==> AnyHits(rs, f)
    ensures rs[j].kind != AVAILABLE ==> forall f: nat :: !Hits(rs[j], f)
  {}

  lemma MapHitsStep(tags: seq<Tag>, i: nat)
    requires i < |tags|
    ensures forall f: nat :: MapHits(tags[..i + 1], f) <==>
              MapHits(tags[..i], f) || (tags[i].MemoryMap? && AnyHits(tags[i].entries, f))
    ensures tags[i].MemoryMap? ==> forall f: nat :: AnyHits(tags[i].entries, f) ==> MapHits(tags, f)
  {}

  /** Phase 3: free every frame the map makes available. */
  method FreeAvailable(bitmap: array<bv8>, tags: seq<Tag>)
    requires MapOk(tags)
    requires forall f: nat | MapHits(tags, f) :: f < 8 * bitmap.Length
    modifies bitmap
    ensures forall f: nat | f < 8 * bitmap.Length ::
              Used(bitmap[..], f) <==> old(Used(bitmap[..], f)) && !MapHits(tags, f)
  {
    hide Used, AnyHits;
    ghost var m := bitmap[..];
    for i := 0 to |tags|
      invariant forall f: nat | f < 8 * bitmap.Length :: Used(bitmap[..], f) <==> Used(m, f) && !MapHits(tags[..i], f)
    {
      MapHitsStep(tags, i);
      if tags[i].MemoryMap? {
        FreeEntries(bitmap, tags[i].entries);
      }
    }
    assert tags[..|tags|] == tags;
  }

  /** Phase 4: take back the frames of the kernel and of the bitmap itself, then frame 0. */
  method Protect(bitmap: array<bv8>, last: nat)
    requires last <= 8 * bitmap.Length && bitmap.Length > 0
    modifies bitmap
    ensures forall f: nat | f < 8 * bitmap.Length ::
              Used(bitmap[..], f) <==> old(Used(bitmap[..], f)) || KERNEL_PAGE <= f < last || f == 0
  {
    hide Used, WithBit;
    ghost var m := bitmap[..];
    var page := KERNEL_PAGE;
    while page < last
      invariant KERNEL_PAGE <= page
      invariant forall f: nat | f < 8 * bitmap.Length ::
                  Used(bitmap[..], f) <==> Used(m, f) || (KERNEL_PAGE <= f < page && f < last)
    {
      ghost var n := bitmap[..];
      bitmap[page / 8] := WithBit(bitmap[page / 8], page % 8);
      MarkUsed(n, bitmap[..], page);
      page := page + 1;
    }
    ghost var n := bitmap[..];
    bitmap[0] := WithBit(bitmap[0], 0);
    MarkUsed(n, bitmap[..], 0);
  }

  /** A byte of the kernel image, which is loaded at 1 MiB, or of the bitmap of that many bytes behind it lies in frame `f`. */
  ghost predicate HoldsKernelByte(kernelEnd: nat, bytes: nat, f: nat) {
    exists a: nat :: 0x10_0000 <= a < kernelEnd + bytes && a / 4096 == f
  }

  /** The frames of phase 4, the last partial one included. */
  lemma ProtectedFrames(kernelEnd: nat, bytes: nat, f: nat)
    ensures HoldsKernelByte(kernelEnd, bytes, f) <==> KERNEL_PAGE <= f < (kernelEnd + bytes + PAGE - 1) / PAGE
  {
    if KERNEL_PAGE <= f < (kernelEnd + bytes + PAGE - 1) / PAGE {
      assert 0x10_0000 <= f * 4096 < kernelEnd + bytes && f * 4096 / 4096 == f;
    }
  }

  ghost predicate FrameIsFree(tags: seq<Tag>, kernelEnd: nat, bytes: nat, f: nat) {
    MapHits(tags, f) && f != 0 && !HoldsKernelByte(kernelEnd, bytes, f)
  }

  /** What the bitmap says after boot. */
  ghost predicate IsBootBitmap(bm: seq<bv8>, tags: seq<Tag>, kernelEnd: nat) {
    forall f: nat | f < 8 * |bm| :: !Used(bm, f) <==> FrameIsFree(tags, kernelEnd, |bm|, f)
  }

  /**
   init_bitmap_allocator. `kernelEnd` is the address of the linker's `end` symbol, where the bitmap is
   placed. The bitmap is total_pages / 8 bytes, rounded down: it must have a bit for every frame the
   map makes available and for the frames it protects.
   */
  method InitBitmap(tags: seq<Tag>, kernelEnd: nat, ghost max: nat) returns (bitmap: array<bv8>, total: nat)
    requires MapOk(tags) && IsHighest(tags, max)
    requires var bits := 8 * (max / PAGE / 8);
             && bits > 0 && kernelEnd + bits / 8 <= bits * 4096 && kernelEnd + bits / 8 + PAGE <= TWO32
             && forall f: nat | MapHits(tags, f) :: f < bits
    ensures fresh(bitmap) && total == max / PAGE && bitmap.Length == total / 8 && total < TWO32
    ensures IsBootBitmap(bitmap[..], tags, kernelEnd)
  {
    var m := MaxAddress(tags);
    HighestIsUnique(tags, max, m);
    HighestIsInRange(tags, max);
    total := m / PAGE;
    var bytes := total / 8;
    bitmap := new bv8[bytes];
    var i := 0;
    while i < bytes
      invariant i <= bytes && forall k | 0 <= k < i :: bitmap[k] == 0xFF
    {
      bitmap[i] := 0xFF;
      i := i + 1;
    }
    AllOnes(bitmap[..]);
    FreeAvailable(bitmap, tags);
    Protect(bitmap, (kernelEnd + bytes + PAGE - 1) / PAGE);
    forall f: nat ensures HoldsKernelByte(kernelEnd, bytes, f) <==> KERNEL_PAGE <= f < (kernelEnd + bytes + PAGE - 1) / PAGE {
      ProtectedFrames(kernelEnd, bytes, f);
    }
  }

  lemma AllOnes(m: seq<bv8>)
    requires forall k | 0 <= k < |m| :: m[k] == 0xFF
    ensures forall f: nat | f < 8 * |m| :: Used(m, f)
  {}

  lemma HighestIsInRange(tags: seq<Tag>, m: nat)
    requires IsHighest(tags, m) && MapOk(tags)
    ensures m < PAGE * TWO32
  {}
}
