/** The memory manager as the kernel runs it: a bitmap, a page directory and tables written in place. */
module Pager {
  import opened Basics
  import opened Bitmap
  import opened Space
  import opened Paging
  import Runs = SpaceRuns

  const USER_STACK_MAX: nat := 0xBFFF_F000
  const USER_STACK_SIZE: nat := 0x4000

  class AddressSpace {
    const bitmap: array<bv8>
    const directory: array<word>
    /** Physical memory, one word per element: page tables live in it and are reached at their frame. */
    const ram: array<word>
    /** `total_pages`; the bitmap covers it rounded down to whole bytes. */
    const total: nat
    ghost var space: State

    ghost predicate Valid()
      reads this, bitmap, directory, ram
    {
      && 8 * bitmap.Length <= total <= PAGES
      && directory.Length == SLOTS && ram.Length == RAM_WORDS
      && directory != ram && bitmap as object != directory && bitmap as object != ram
      && Represents(bitmap[..], directory[..], ram[..], space)
    }

    /** The first loop of init_paging clears the directory; the bitmap comes from the boot phase. */
    constructor (bm: array<bv8>, pages: nat, dir: array<word>, memory: array<word>, ghost managed: set<nat>)
      requires 0 < 8 * bm.Length <= pages <= PAGES && Used(bm[..], 0)
      requires dir.Length == SLOTS && memory.Length == RAM_WORDS
      requires dir != memory && bm as object != dir && bm as object != memory
      modifies dir
      ensures bitmap == bm && directory == dir && ram == memory && total == pages
      ensures bm[..] == old(bm[..]) && memory[..] == old(memory[..])
      ensures Valid() && space == FromBitmap(bm[..], managed) && Inv(space)
    {
      bitmap, total, directory, ram := bm, pages, dir, memory;
      space := FromBitmap(bm[..], managed);
      new;
      hide Represents, Inv, FromBitmap;
      var i := 0;
      while i < SLOTS
        invariant i <= SLOTS && forall k | 0 <= k < i :: dir[k] == 0
        invariant space == FromBitmap(bm[..], managed)
        invariant bm[..] == old(bm[..]) && memory[..] == old(memory[..])
      {
        dir[i] := 0;
        i := i + 1;
      }
      ClearedRepresents(bm[..], dir[..], memory[..], managed);
    }

    /** Fill a frame so that, as a table of slot 0, it maps each page onto itself. */
    method FillIdentity(t: nat)
      requires t < PAGES && ram.Length == RAM_WORDS
      modifies ram
      ensures IdentityFilled(old(ram[..]), ram[..], t)
    {
      var i := 0;
      while i < TABLE
        invariant i <= TABLE
        invariant forall j | t * TABLE <= j < t * TABLE + i :: ram[j] == (j - t * TABLE) * PAGE + KERNEL_FLAGS
      {
        ram[t * TABLE + i] := i * PAGE + KERNEL_FLAGS;
        i := i + 1;
      }
    }

    /**
     init_paging after the directory is cleared: the identity map of the low 4 MiB, then the framebuffer.
     The kernel panics when there is no frame for the first table; the results of map_page are ignored.
     */
    method InitPaging(framebuffer: word, bytes: word) returns (ok: bool)
      requires Valid() && Inv(space) && space.tables == map[] && space.pages == map[] && space.user == {}
      requires framebuffer + bytes <= TWO32 && bytes + PAGE <= TWO32
      requires forall v | v in space.managed ::
                 v >= SLOTS && !(framebuffer / PAGE <= v < framebuffer / PAGE + (bytes + PAGE - 1) / PAGE)
      modifies this`space, bitmap, directory, ram
      ensures Valid() && Inv(space) && (ok <==> old(space).free != {})
      ensures space == if !ok then old(space)
                       else if framebuffer == 0 then IdentityMap(old(space))
                       else IdentityRange(IdentityMap(old(space)), framebuffer / PAGE,
                                          (bytes + PAGE - 1) / PAGE)
    {
      hide Represents, Inv, MakeEntry, FrameOf;
      ghost var s, bm, dir, m := space, bitmap[..], directory[..], ram[..];
      var p := AllocPage();
      if p == 0 { return false; }
      FillIdentity(p / PAGE);
      IdentityMapRepresents(bm, bitmap[..], dir, m, ram[..], s);
      IdentityMapHasInv(s);
      directory[0] := MakeEntry(p / PAGE, KERNEL_FLAGS);
      assert directory[..] == dir[0 := MakeEntry(p / PAGE, KERNEL_FLAGS)];
      space := IdentityMap(s);
      if framebuffer != 0 {
        MapOntoItself(framebuffer, bytes);
      }
      return true;
    }

    /** The framebuffer loop of init_paging. */
    method MapOntoItself(start: word, bytes: word)
      requires Valid() && Inv(space) && start + bytes <= TWO32
      requires forall v | start / PAGE <= v < start / PAGE + (bytes + PAGE - 1) / PAGE :: v !in space.managed
      modifies this`space, bitmap, directory, ram
      ensures Valid() && Inv(space)
      ensures space == IdentityRange(old(space), start / PAGE, (bytes + PAGE - 1) / PAGE)
    {
      hide Represents, Inv, Space.MapPage;
      ghost var s, v, n := space, start / PAGE, (bytes + PAGE - 1) / PAGE;
      var offset := 0;
      ghost var i := 0;
      while offset < bytes
        invariant offset == i * PAGE && i <= n && Valid() && Inv(space)
        invariant space.managed == s.managed
        invariant IdentityRange(s, v, n) == IdentityRange(space, v + i, n - i)
      {
        MapPageKeepsInv(space, v + i, v + i, KERNEL_FLAGS);
        MapPageKeepsManaged(space, v + i, v + i, KERNEL_FLAGS);
        var _ := MapPage(start + offset, start + offset, KERNEL_FLAGS);
        offset := offset + PAGE;
        i := i + 1;
      }
    }

    // -------------------------------------------------------------- memory.c

    /** alloc_page: the least free frame as a physical address, NULL when there is none. */
    method AllocPage() returns (p: word)
      requires Valid()
      modifies this`space, bitmap
      ensures Valid()
      ensures var (s, f) := Space.AllocPage(old(space));
              space == s && p == (if f.None? then 0 else f.value * PAGE) && (f.Some? ==> p != 0)
    {
      hide Represents, WithBit, WithoutBit;
      var f := FindFree(bitmap, total);
      if f.None? {
        FullBitmap(bitmap[..], directory[..], ram[..], space);
        return 0;
      }
      var i := f.value;
      TakeRepresents(bitmap[..], directory[..], ram[..], space, i);
      ghost var m := bitmap[..];
      bitmap[i / 8] := WithBit(bitmap[i / 8], i % 8);
      assert bitmap[..] == m[i / 8 := WithBit(m[i / 8], i % 8)];
      space := Space.AllocPage(space).0;
      return i * PAGE;
    }

    /** free_page: addresses that are not page-aligned or beyond RAM are ignored. */
    method FreePage(p: word)
      requires Valid()
      requires p % PAGE == 0 && p / PAGE < total ==>
                 p / PAGE in space.frames && p != 0 && p / PAGE !in TableFrames(space)
      modifies this`space, bitmap
      ensures Valid()
      ensures space == if p % PAGE == 0 && p / PAGE < total
                       then Space.FreePage(old(space), p / PAGE) else old(space)
    {
      hide Represents, WithBit, WithoutBit;
      if p % PAGE != 0 { return; }
      var i := p / PAGE;
      if i >= total { return; }
      ClearUsed(i);
    }

    method ClearUsed(i: nat)
      requires Valid() && i in space.frames && i != 0 && i !in TableFrames(space)
      modifies this`space, bitmap
      ensures Valid() && space == Space.FreePage(old(space), i)
    {
      hide Represents, WithBit, WithoutBit;
      GiveRepresents(bitmap[..], directory[..], ram[..], space, i);
      ghost var m := bitmap[..];
      bitmap[i / 8] := WithoutBit(bitmap[i / 8], i % 8);
      assert bitmap[..] == m[i / 8 := WithoutBit(m[i / 8], i % 8)];
      space := Space.FreePage(space, i);
    }

    // -------------------------------------------------------------- paging.c

    /** Zero the words of a frame. */
    method ClearFrame(t: nat)
      requires t < PAGES && ram.Length == RAM_WORDS
      modifies ram
      ensures Zeroed(old(ram[..]), ram[..], t)
    {
      var i := 0;
      while i < TABLE
        invariant i <= TABLE
        invariant forall j | t * TABLE <= j < t * TABLE + i :: ram[j] == 0
        invariant forall j | 0 <= j < RAM_WORDS && !(t * TABLE <= j < t * TABLE + i) :: ram[j] == old(ram[j])
      {
        ram[t * TABLE + i] := 0;
        i := i + 1;
      }
    }

    /** The first half of map_page: find or create the page table of a slot. */
    method OpenSlot(k: nat, flags: nat) returns (table: nat, ok: bool)
      requires Valid() && k < SLOTS
      modifies this`space, bitmap, directory, ram
      ensures Valid()
      ensures (space, ok) == Space.OpenSlot(old(space), k * SLOTS, flags)
      ensures ok ==> k in space.tables && table == space.tables[k]
    {
      hide Represents, WithUser, TableEntry;
      ghost var s, v := space, k * SLOTS;
      ghost var bm, dir, m := bitmap[..], directory[..], ram[..];
      ReadSlot(bm, dir, m, s, k);
      assert Slot(v) == k;
      if !PresentBit(directory[k]) {
        var p := AllocPage();
        if p == 0 { return 0, false; }
        table := p / PAGE;
        ClearFrame(table);
        CreateRepresents(bm, bitmap[..], dir, m, ram[..], s, v, flags);
        directory[k] := TableEntry(table, flags);
        assert directory[..] == dir[k := TableEntry(table, flags)];
      } else {
        table := FrameOf(directory[k]);
        if UserBit(flags) {
          GrantRepresents(bm, dir, m, s, v);
          directory[k] := WithUser(directory[k]);
          assert directory[..] == dir[k := WithUser(dir[k])];
        }
      }
      space := Space.OpenSlot(s, v, flags).0;
      return table, true;
    }

    /** map_page: the entry may be replaced; NULL frames for a table make it fail without any effect. */
    method MapPage(virt: word, phys: word, flags: nat) returns (ok: bool)
      requires Valid() && flags < 0x1000
      modifies this`space, bitmap, directory, ram
      ensures Valid()
      ensures (space, ok) == Space.MapPage(old(space), virt / PAGE, phys / PAGE, flags)
    {
      hide Represents;
      var k, i := virt / 0x40_0000, virt / PAGE % SLOTS;
      ghost var v, f := virt / PAGE, phys / PAGE;
      var table;
      table, ok := OpenSlot(k, flags);
      if !ok { return false; }
      ghost var s, m := space, ram[..];
      WriteRepresents(bitmap[..], directory[..], m, s, v, f, flags);
      ram[table * TABLE + i] := phys - phys % PAGE + flags;
      assert ram[..] == m[EntryIndex(s, v) := MakeEntry(f, flags)];
      space := SetEntry(s, v, f, flags);
    }

    /** unmap_page: only a slot with a table has an entry to clear. */
    method UnmapPage(virt: word)
      requires Valid()
      modifies this`space, ram
      ensures Valid() && space == Space.UnmapPage(old(space), virt / PAGE)
    {
      hide Represents;
      var k, i := virt / 0x40_0000, virt / PAGE % SLOTS;
      ghost var v, s, m := virt / PAGE, space, ram[..];
      ReadSlot(bitmap[..], directory[..], m, s, k);
      ReadEntry(bitmap[..], directory[..], m, s, v);
      assert Slot(v) == k;
      if PresentBit(directory[k]) {
        var table := FrameOf(directory[k]);
        ClearRepresents(bitmap[..], directory[..], m, s, v);
        ram[table * TABLE + i] := 0;
        assert ram[..] == m[EntryIndex(s, v) := 0];
        space := Space.UnmapPage(s, v);
      } else {
        assert s.pages - {v} == s.pages;
      }
    }

    // -------------------------------------------------------------- usermem.c

    /** One turn of the loop in free_user_space. */
    method ReleasePage(virt: word)
      requires Valid() && Inv(space) && virt / PAGE in space.managed
      modifies this`space, bitmap, ram
      ensures Valid() && Inv(space) && space == ReleaseOne(old(space), virt / PAGE)
    {
      hide Represents, Inv;
      var k, i := virt / 0x40_0000, virt / PAGE % SLOTS;
      ghost var v, s := virt / PAGE, space;
      ReadSlot(bitmap[..], directory[..], ram[..], s, k);
      ReadEntry(bitmap[..], directory[..], ram[..], s, v);
      ReleaseOneKeepsInv(s, v);
      if v in s.pages { ManagedFrameIsOwned(s, v); }
      assert Slot(v) == k;
      if PresentBit(directory[k]) {
        var e := ram[FrameOf(directory[k]) * TABLE + i];
        if PresentBit(e) {
          FreePage(FrameOf(e) * PAGE);
        }
      }
      assert s.pages - {v} == s.pages || v in s.pages;
      UnmapPage(virt);
    }

    /** free_user_space. */
    method FreeUserSpace(virt: word, n: nat)
      requires Valid() && Inv(space)
      requires virt % PAGE == 0 ==> Runs.Within(space, virt / PAGE, n)
      modifies this`space, bitmap, ram
      ensures Valid() && Inv(space)
      ensures space == if virt % PAGE == 0 then Release(old(space), virt / PAGE, n) else old(space)
    {
      hide Represents, Inv, ReleaseOne;
      if virt % PAGE != 0 { return; }
      ghost var s, v := space, virt / PAGE;
      var i := 0;
      while i < n
        invariant i <= n && Valid() && Inv(space)
        invariant Runs.Within(space, v + i, n - i)
        invariant Release(s, v, n) == Release(space, v + i, n - i)
      {
        ghost var t := space;
        ReleasePage(virt + i * PAGE);
        Runs.ReleaseOneEffect(t, v + i);
        i := i + 1;
      }
    }

    /** allocate_user_space: an unaligned start fails at once, running out of frames rolls everything back. */
    method AllocateUserSpace(virt: word, n: nat) returns (ok: bool)
      requires Valid() && Inv(space)
      requires virt % PAGE == 0 ==> Runs.Vacant(space, virt / PAGE, n)
      modifies this`space, bitmap, directory, ram
      ensures Valid() && Inv(space)
      ensures (space, ok) == if virt % PAGE == 0
                             then Space.AllocateUserSpace(old(space), virt / PAGE, n) else (old(space), false)
    {
      hide Represents, Inv, ClaimOne;
      if virt % PAGE != 0 { return false; }
      ghost var s, v := space, virt / PAGE;
      var i := 0;
      while i < n
        invariant i <= n && Valid() && Inv(space)
        invariant Runs.Vacant(space, v + i, n - i) && Runs.Within(space, v, n)
        invariant Claim(s, v, n) == (Claim(space, v + i, n - i).0, Claim(space, v + i, n - i).1 + i)
      {
        ghost var t := space;
        Runs.FreeIsNotHeld(t);
        Runs.ClaimOneCases(t, v + i);
        var one := ClaimPage(virt + i * PAGE);
        if !one {
          FreeUserSpace(virt, i);
          return false;
        }
        i := i + 1;
      }
      return true;
    }

    /** One turn of the loop in allocate_user_space. */
    method ClaimPage(virt: word) returns (ok: bool)
      requires Valid() && Inv(space) && virt / PAGE in space.managed && virt / PAGE !in space.pages
      modifies this`space, bitmap, directory, ram
      ensures Valid() && Inv(space)
      ensures (space, ok) == ClaimOne(old(space), virt / PAGE)
    {
      hide Represents, Inv;
      ghost var s, v := space, virt / PAGE;
      Runs.ClaimOneKeepsInv(s, v);
      AllocPageKeepsInv(s);
      var p := AllocPage();
      if p == 0 { return false; }
      ok := MapPage(virt, p, USER_FLAGS);
      if !ok {
        HeldFrameIsOwned(space, p / PAGE);
        FramesBelow(bitmap[..], directory[..], ram[..], space, p / PAGE);
        FreePage(p);
      }
    }

    /** create_user_stack: the four pages below address 0xBFFFF000, which is returned. */
    method CreateUserStack() returns (top: word)
      requires Valid() && Inv(space)
      requires Runs.Vacant(space, 0xB_FFFB, 4)
      modifies this`space, bitmap, directory, ram
      ensures Valid() && Inv(space)
      ensures var (s, ok) := Space.AllocateUserSpace(old(space), 0xB_FFFB, 4);
              space == s && top == if ok then 0xBFFF_F000 else 0
      ensures top != 0 ==> Runs.Claimed(old(space), space, 0xB_FFFB, 4)
    {
      hide Represents, Inv, Space.AllocateUserSpace, Runs.Claimed, Runs.Demand, Runs.Vacant, Runs.TablesGrow, Runs.SameFixture;
      Runs.AllocateIsAllOrNothing(space, 0xB_FFFB, 4);
      var ok := AllocateUserSpace(USER_STACK_MAX - USER_STACK_SIZE, USER_STACK_SIZE / PAGE);
      return if ok then USER_STACK_MAX else 0;
    }

    /** One turn of the page loop of expand_heap (heap.c): the result of map_page is not looked at. */
    method GrowPage(virt: word) returns (ok: bool)
      requires Valid() && Inv(space) && virt / PAGE in space.managed && virt / PAGE !in space.pages
      modifies this`space, bitmap, directory, ram
      ensures Valid() && Inv(space) && (ok <==> old(space).free != {})
      ensures space == if ok then GrowOne(old(space), virt / PAGE) else old(space)
    {
      hide Represents, Inv;
      ghost var s := space;
      var p := AllocPage();
      if p == 0 { return false; }
      Runs.GrowOneKeepsInv(s, virt / PAGE);
      var _ := MapPage(virt, p, KERNEL_FLAGS);
      return true;
    }

    /** The whole page loop of expand_heap. */
    method MapHeapPages(end: word, n: nat) returns (granted: nat)
      requires Valid() && Inv(space) && end % PAGE == 0 && Runs.Vacant(space, end / PAGE, n)
      modifies this`space, bitmap, directory, ram
      ensures Valid() && Inv(space)
      ensures (space, granted) == GrowHeap(old(space), end / PAGE, n)
    {
      hide Represents, Inv, GrowOne;
      ghost var s, v := space, end / PAGE;
      granted := 0;
      while granted < n
        invariant granted <= n && Valid() && Inv(space)
        invariant Runs.Vacant(space, v + granted, n - granted)
        invariant GrowHeap(s, v, n) == (GrowHeap(space, v + granted, n - granted).0,
                                        GrowHeap(space, v + granted, n - granted).1 + granted)
      {
        ghost var t := space;
        var ok := GrowPage(end + granted * PAGE);
        if !ok { return; }
        Runs.GrowOneCases(t, v + granted);
        granted := granted + 1;
      }
    }
  }

  lemma HeldFrameIsOwned(s: State, f: nat)
    requires Inv(s) && f in s.held
    ensures f != 0 && f in s.frames && f !in TableFrames(s)
  {}
}
