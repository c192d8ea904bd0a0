/** From the boot bitmap through the start of paging to any run of the memory manager. */
module Startup {
  import opened Basics
  import opened Bitmap
  import opened Boot
  import opened Paging
  import opened Space
  import opened SpaceRuns
  import opened Framebuffer
  import Kernel
  import HeapPages
  import KernelMemory
  import Pager

  // ---------------------------------------------------------------- the state that boot leaves behind

  /**
   What the memory manager needs of the machine: the bitmap is the one that boot builds and covers what
   it protects, some frame is left, and the managed pages lie above the identity map and apart from the
   framebuffer's pages `[v, v + n)`.
   */
  ghost predicate Bootable(bm: seq<bv8>, tags: seq<Tag>, kernelEnd: nat, managed: set<nat>, v: nat, n: nat) {
    && IsBootBitmap(bm, tags, kernelEnd) && 0 < 8 * |bm| && kernelEnd + |bm| <= 8 * |bm| * 4096
    && FromBitmap(bm, managed).free != {}
    && v + n <= PAGES && forall w | w in managed :: w >= SLOTS && !(v <= w < v + n)
  }

  /** The state after init_bitmap_allocator and init_paging. */
  ghost function Started(bm: seq<bv8>, managed: set<nat>, v: nat, n: nat): State
    requires FromBitmap(bm, managed).free != {}
  {
    IdentityRange(IdentityMap(FromBitmap(bm, managed)), v, n)
  }

  /** Frames with a byte of the kernel image or of the bitmap in them, and frame 0. */
  ghost predicate KernelFrame(bm: seq<bv8>, kernelEnd: nat, f: nat) {
    f == 0 || HoldsKernelByte(kernelEnd, |bm|, f)
  }

  lemma BootHasInv(bm: seq<bv8>, tags: seq<Tag>, kernelEnd: nat, managed: set<nat>)
    requires IsBootBitmap(bm, tags, kernelEnd) && 0 < 8 * |bm|
    ensures Inv(FromBitmap(bm, managed)) && Used(bm, 0)
    ensures var s := FromBitmap(bm, managed);
            s.tables == map[] && s.pages == map[] && s.user == {} && s.managed == managed
  {
    var s := FromBitmap(bm, managed);
    assert forall f :: f in s.frames <==> IsFrame(bm, f);
    assert Used(bm, 0);
    UnmappedHasInv(s.frames, s.free, managed);
  }

  lemma KernelFramesAreReserved(bm: seq<bv8>, tags: seq<Tag>, kernelEnd: nat, managed: set<nat>, f: nat)
    requires IsBootBitmap(bm, tags, kernelEnd) && 0 < 8 * |bm| && kernelEnd + |bm| <= 8 * |bm| * 4096
    requires KernelFrame(bm, kernelEnd, f)
    ensures f < 8 * |bm| && f in FromBitmap(bm, managed).reserved
  {
    assert IsFrame(bm, f) && Used(bm, f);
  }

  /** The state that boot leaves behind has the invariant, its managed pages are unmapped, and the kernel is reserved. */
  lemma StartedHasInv(bm: seq<bv8>, tags: seq<Tag>, kernelEnd: nat, managed: set<nat>, v: nat, n: nat)
    requires Bootable(bm, tags, kernelEnd, managed, v, n)
    ensures var s := Started(bm, managed, v, n);
            && Inv(s) && s.managed == managed && s.reserved == FromBitmap(bm, managed).reserved
            && forall w | w in managed :: w !in s.pages
  {
    var s := FromBitmap(bm, managed);
    BootHasInv(bm, tags, kernelEnd, managed);
    hide Inv, FromBitmap, IsBootBitmap;
    IdentityMapHasInv(s);
    IdentityRangeKeepsInv(IdentityMap(s), v, n);
    IdentityRangeKeeps(IdentityMap(s), v, n);
  }

  /**
   In every run of the memory manager after boot: a frame of the kernel image or of the bitmap, or frame
   0, is never free, alloc_page never returns it, and it holds no page table and backs no managed page.
   */
  lemma KernelFramesStayReserved(bm: seq<bv8>, tags: seq<Tag>, kernelEnd: nat, managed: set<nat>, v: nat, n: nat,
                                 ops: seq<Op>, f: nat)
    requires Bootable(bm, tags, kernelEnd, managed, v, n) && KernelFrame(bm, kernelEnd, f)
    requires LegalRun(Started(bm, managed, v, n), ops)
    ensures var t := Run(Started(bm, managed, v, n), ops);
            && Inv(t) && f !in t.free && f !in t.held && f !in TableFrames(t)
            && AllocPage(t).1 != Some(f)
            && forall w | w in t.managed && w in t.pages :: t.pages[w].frame != f
  {
    var s := Started(bm, managed, v, n);
    StartedHasInv(bm, tags, kernelEnd, managed, v, n);
    KernelFramesAreReserved(bm, tags, kernelEnd, managed, f);
    RunKeepsInv(s, ops);
    ReservedFramesStayReserved(s, ops, f);
    hide Inv, Run, Started, FromBitmap;
  }

  lemma IdentityMapCounts(s: State)
    requires s.tables == map[] && s.free != {}
    ensures var i := IdentityMap(s);
            && i.tables.Keys == {0} && |i.free| == |s.free| - 1 && i.managed == s.managed
            && forall w | w in i.pages :: w < SLOTS
  {
    assert s.free == (s.free - {Least(s.free)}) + {Least(s.free)};
  }

  /**
   At boot a framebuffer above the identity map is mapped if and only if there are frames for its page
   tables beside the first one, and the loop gets to its last page.
   */
  lemma FramebufferAtBootIff(bm: seq<bv8>, tags: seq<Tag>, kernelEnd: nat, managed: set<nat>, framebuffer: nat, bytes: nat)
    requires Bootable(bm, tags, kernelEnd, managed, framebuffer / PAGE, PagesFor(bytes))
    requires 0 < bytes && SLOTS <= framebuffer / PAGE && framebuffer + bytes <= TWO32
    ensures var v, n := framebuffer / PAGE, PagesFor(bytes);
            FramebufferMapped(Started(bm, managed, v, n), framebuffer, bytes) <==>
            |FromBitmap(bm, managed).free| >= 1 + Missing({0}, v, n) && TailIsReached(framebuffer, bytes)
  {
    hide Inv, FromBitmap, IsBootBitmap, IdentityMap, IdentityRange, Missing, FramebufferMapped, TailIsReached, PagesFor;
    var v, n, s := framebuffer / PAGE, PagesFor(bytes), FromBitmap(bm, managed);
    BootHasInv(bm, tags, kernelEnd, managed);
    IdentityMapHasInv(s);
    IdentityMapCounts(s);
    FramebufferIsMappedIff(IdentityMap(s), framebuffer, bytes);
  }

  // ---------------------------------------------------------------- the allocators' address ranges

  ghost predicate ManagedPage(v: nat, ktop: nat, utop: nat) {
    || Kernel.InPages(v, Kernel.HEAP_START, ktop) || Kernel.InPages(v, Kernel.USER_HEAP_START, utop)
    || Kernel.InPages(v, Kernel.Low(Kernel.Code), Kernel.High(Kernel.Code))
    || Kernel.InPages(v, Kernel.Low(Kernel.Stack), Kernel.High(Kernel.Stack))
  }

  /** The pages of both heaps up to the ends of their ranges, of the user program and of its stack. */
  ghost function Managed(ktop: nat, utop: nat): set<nat> {
    set v: nat | v < PAGES && ManagedPage(v, ktop, utop)
  }

  ghost predicate RangesOk(ktop: nat, utop: nat) {
    && ktop % PAGE == 0 && Kernel.HEAP_START <= ktop < TWO32
    && utop % PAGE == 0 && Kernel.USER_HEAP_START <= utop <= Kernel.Low(Kernel.Stack)
  }

  /** No page is open to user mode. */
  ghost predicate KernelOnly(s: State) { forall w | w in s.pages :: s.pages[w].flags == 3 }

  lemma {:induction false} IdentityRangeIsKernelOnly(s: State, v: nat, n: nat)
    requires KernelOnly(s)
    ensures KernelOnly(IdentityRange(s, v, n))
    decreases n
  {
    if n > 0 {
      var one := MapPage(s, v, v, KERNEL_FLAGS).0;
      assert KernelOnly(one);
      hide MapPage, KernelOnly;
      IdentityRangeIsKernelOnly(one, v + 1, n - 1);
    }
  }

  lemma KernelOnlyIsOutOfReach(s: State, v: nat)
    requires KernelOnly(s)
    ensures !UserReaches(s, v)
  {}

  lemma ManagedIsUntouched(s: State, a: nat, b: nat)
    requires a % PAGE == 0 && b % PAGE == 0 && a <= b <= TWO32
    requires forall v: nat | Kernel.InPages(v, a, b) :: v in s.managed && v !in s.pages
    ensures HeapPages.Untouched(s, a, b)
  {
    forall v: nat | a / PAGE <= v < a / PAGE + (b - a) / PAGE ensures v in s.managed && v !in s.pages {
      HeapPages.PageOfRange(a, b, v);
      assert Kernel.InPages(v, a, b);
    }
  }

  lemma InPagesIsBelow(v: nat, a: nat, b: nat)
    requires Kernel.InPages(v, a, b) && b <= TWO32
    ensures v < PAGES
  {}

  /** Boot leaves an address space in which every allocator finds its range untouched. */
  lemma StartedIsBare(bm: seq<bv8>, tags: seq<Tag>, kernelEnd: nat, ktop: nat, utop: nat, v: nat, n: nat)
    requires Bootable(bm, tags, kernelEnd, Managed(ktop, utop), v, n) && RangesOk(ktop, utop)
    ensures Kernel.Bare(Started(bm, Managed(ktop, utop), v, n), ktop, utop)
  {
    var m := Managed(ktop, utop);
    var s := Started(bm, m, v, n);
    StartedHasInv(bm, tags, kernelEnd, m, v, n);
    assert KernelOnly(IdentityMap(FromBitmap(bm, m)));
    IdentityRangeIsKernelOnly(IdentityMap(FromBitmap(bm, m)), v, n);
    forall w: nat ensures !UserReaches(s, w) { KernelOnlyIsOutOfReach(s, w); }
    hide Started, FromBitmap, Inv, UserReaches, Bootable, KernelOnly;
    Kernel.RegionPages(Kernel.Code);
    Kernel.RegionPages(Kernel.Stack);
    RangeIsUntouched(s, ktop, utop, Kernel.HEAP_START, ktop);
    RangeIsUntouched(s, ktop, utop, Kernel.USER_HEAP_START, utop);
    RangeIsUntouched(s, ktop, utop, Kernel.Low(Kernel.Code), Kernel.High(Kernel.Code));
    RangeIsUntouched(s, ktop, utop, Kernel.Low(Kernel.Stack), Kernel.High(Kernel.Stack));
  }

  lemma RangeIsUntouched(s: State, ktop: nat, utop: nat, a: nat, b: nat)
    requires s.managed == Managed(ktop, utop) && forall w | w in s.managed :: w !in s.pages
    requires a % PAGE == 0 && b % PAGE == 0 && a <= b <= TWO32
    requires forall v: nat | Kernel.InPages(v, a, b) :: ManagedPage(v, ktop, utop)
    ensures HeapPages.Untouched(s, a, b)
  {
    forall v: nat | Kernel.InPages(v, a, b) ensures v in s.managed { InPagesIsBelow(v, a, b); }
    hide Kernel.InPages, ManagedPage;
    ManagedIsUntouched(s, a, b);
  }

  /**
   In every run of the heaps and of the user program's regions after boot, all of it is in order, and no
   page of theirs, in fact no managed page, lies in a frame of the kernel image, of the bitmap, or in frame 0.
   */
  lemma HeapsStayOffKernelFrames(bm: seq<bv8>, tags: seq<Tag>, kernelEnd: nat, ktop: nat, utop: nat, v: nat, n: nat,
                                 ops: seq<Kernel.Op>, f: nat)
    requires Bootable(bm, tags, kernelEnd, Managed(ktop, utop), v, n) && RangesOk(ktop, utop)
    requires Kernel.LegalRun(Kernel.Initial(Started(bm, Managed(ktop, utop), v, n), ktop, utop), ops)
    requires KernelFrame(bm, kernelEnd, f)
    ensures var t := Kernel.Run(Kernel.Initial(Started(bm, Managed(ktop, utop), v, n), ktop, utop), ops);
            && Kernel.Inv(t) && f !in t.space.free
            && forall w | w in Managed(ktop, utop) && w in t.space.pages :: t.space.pages[w].frame != f
  {
    var s := Started(bm, Managed(ktop, utop), v, n);
    StartedIsBare(bm, tags, kernelEnd, ktop, utop, v, n);
    StartedHasInv(bm, tags, kernelEnd, Managed(ktop, utop), v, n);
    KernelFramesAreReserved(bm, tags, kernelEnd, Managed(ktop, utop), f);
    Kernel.InitialHasInv(s, ktop, utop);
    Kernel.RunKeepsInv(Kernel.Initial(s, ktop, utop), ops);
    Kernel.RunKeepsFixture(Kernel.Initial(s, ktop, utop), ops);
    var t := Kernel.Run(Kernel.Initial(s, ktop, utop), ops);
    hide *;
    KernelInvGivesInv(t);
    ReservedIsUnused(t.space, f);
  }

  lemma KernelInvGivesInv(t: Kernel.State)
    requires Kernel.Inv(t)
    ensures Inv(t.space)
  {}

  lemma ReservedIsUnused(t: State, f: nat)
    requires Inv(t) && f in t.reserved
    ensures f !in t.free && forall w | w in t.managed && w in t.pages :: t.pages[w].frame != f
  {
    forall w | w in t.managed && w in t.pages ensures t.pages[w].frame in Backing(t) {
      assert w in Mapped(t);
    }
  }

  /** The low 4 MiB, where the kernel and its buffers are, stay mapped onto themselves. */
  lemma LowMemoryShowsItself(bm: seq<bv8>, managed: set<nat>, v: nat, n: nat, w: nat)
    requires FromBitmap(bm, managed).free != {} && w < 1024
    ensures ShowsItself(Started(bm, managed, v, n), w)
  {
    var i := IdentityMap(FromBitmap(bm, managed));
    assert ShowsItself(i, w);
    hide FromBitmap, IdentityMap, ShowsItself;
    IdentityRangeKeepsShown(i, v, n, w);
  }

  /** As the processor sees them: for the kernel, writable, and not for user mode. */
  lemma LowMemoryIsIdentity(bm: seq<bv8>, tags: seq<Tag>, kernelEnd: nat, ktop: nat, utop: nat, v: nat, n: nat,
                            words: seq<bv8>, dir: seq<word>, ram: seq<word>, w: nat)
    requires Bootable(bm, tags, kernelEnd, Managed(ktop, utop), v, n) && RangesOk(ktop, utop) && w < 1024
    requires Represents(words, dir, ram, Started(bm, Managed(ktop, utop), v, n))
    ensures Walk(dir, ram, w) == Some(Translation(w, true, false))
  {
    hide Started, Represents, FromBitmap, Walk, UserReaches, Managed;
    LowMemoryShowsItself(bm, Managed(ktop, utop), v, n, w);
    StartedIsBare(bm, tags, kernelEnd, ktop, utop, v, n);
    WalkIsFlatMap(words, dir, ram, Started(bm, Managed(ktop, utop), v, n), w);
    assert WriteBit(3);
  }

  // ---------------------------------------------------------------- the whole start

  /** What boot asks of the memory map: see `InitBitmap`. Some frame must be left for the first page table. */
  ghost predicate MapFits(tags: seq<Tag>, kernelEnd: nat, max: nat) {
    var bits := 8 * (max / PAGE / 8);
    && MapOk(tags) && IsHighest(tags, max) && max <= TWO32
    && bits > 0 && kernelEnd + bits / 8 <= bits * 4096 && kernelEnd + bits / 8 + PAGE <= TWO32
    && (forall f: nat | MapHits(tags, f) :: f < bits)
    && (exists f: nat :: f < bits && FrameIsFree(tags, kernelEnd, bits / 8, f))
  }

  /** Pages of the framebuffer, none if there is no framebuffer. */
  ghost function FramebufferPages(framebuffer: word, bytes: word): nat {
    if framebuffer == 0 then 0 else PagesFor(bytes)
  }

  /** The part of kernel_main that starts the memory manager: bitmap, paging, and the heaps as they are before any call. */
  method StartMemory(tags: seq<Tag>, kernelEnd: nat, ghost max: nat, framebuffer: word, bytes: word,
                     directory: array<word>, ram: array<word>, memory: array<byte>, ghost ktop: nat, ghost utop: nat)
    returns (all: KernelMemory.Allocators, ghost bm: seq<bv8>)
    requires MapFits(tags, kernelEnd, max) && RangesOk(ktop, utop)
    requires framebuffer + bytes <= TWO32 && bytes + PAGE <= TWO32
    requires forall w | w in Managed(ktop, utop) ::
               !(framebuffer / PAGE <= w < framebuffer / PAGE + (bytes + PAGE - 1) / PAGE)
    requires directory.Length == SLOTS && ram.Length == RAM_WORDS && memory.Length == TWO32
    requires directory != ram && memory as object != directory && memory as object != ram
    modifies directory, ram
    ensures var v, n := framebuffer / PAGE, FramebufferPages(framebuffer, bytes);
            && Bootable(bm, tags, kernelEnd, Managed(ktop, utop), v, n)
            && all.Valid() && all.View() == Kernel.Initial(Started(bm, Managed(ktop, utop), v, n), ktop, utop)
    ensures forall w: nat | w < 1024 :: Walk(all.pager.directory[..], all.pager.ram[..], w) == Some(Translation(w, true, false))
  {
    hide Inv, FromBitmap, IsBootBitmap, FrameIsFree, MapHits, Kernel.Bare, Managed;
    var bitmap, total := InitBitmap(tags, kernelEnd, max);
    bm := bitmap[..];
    ghost var managed, v, n := Managed(ktop, utop), framebuffer / PAGE, FramebufferPages(framebuffer, bytes);
    BootHasInv(bm, tags, kernelEnd, managed);
    SomeFrameIsFree(bm, tags, kernelEnd, managed);
    ManagedIsHigh(ktop, utop);
    var pager := new Pager.AddressSpace(bitmap, total, directory, ram, managed);
    var ok := pager.InitPaging(framebuffer, bytes);
    StartedIsBare(bm, tags, kernelEnd, ktop, utop, v, n);
    all := new KernelMemory.Allocators(memory, pager, ktop, utop);
    hide Walk, Represents, Started;
    forall w: nat | w < 1024
      ensures Walk(all.pager.directory[..], all.pager.ram[..], w) == Some(Translation(w, true, false))
    {
      LowMemoryIsIdentity(bm, tags, kernelEnd, ktop, utop, v, n, pager.bitmap[..], pager.directory[..], pager.ram[..], w);
    }
  }

  lemma SomeFrameIsFree(bm: seq<bv8>, tags: seq<Tag>, kernelEnd: nat, managed: set<nat>)
    requires IsBootBitmap(bm, tags, kernelEnd) && exists f: nat :: f < 8 * |bm| && FrameIsFree(tags, kernelEnd, |bm|, f)
    ensures FromBitmap(bm, managed).free != {}
  {
    var f: nat :| f < 8 * |bm| && FrameIsFree(tags, kernelEnd, |bm|, f);
    assert !Used(bm, f);
    assert f in FromBitmap(bm, managed).free;
  }

  lemma ManagedIsHigh(ktop: nat, utop: nat)
    ensures forall w | w in Managed(ktop, utop) :: w >= SLOTS
  {}
}
