/**
 The memory manager of memory.c, paging.c and usermem.c on values: which frames are free, which hold
 page tables, which page maps to which frame. The operations are the functions the classes are proved
 against; this file says what every run of them keeps.
 */
module Space {
  import opened Basics

  const SLOTS: nat := 1024
  const PAGES: nat := 0x10_0000
  const KERNEL_FLAGS: nat := 3
  const USER_FLAGS: nat := 7

  predicate PresentBit(e: nat) { e % 2 == 1 }
  predicate WriteBit(e: nat) { e / 2 % 2 == 1 }
  predicate UserBit(e: nat) { e / 4 % 2 == 1 }

  datatype Entry = Entry(frame: nat, flags: nat)

  /**
   `frames` are the physical frames the bitmap covers, and `reserved` those it never hands out.
   `managed` are the virtual pages whose frames come from the allocator (user ranges, kernel heap);
   `held` are the frames handed out by `alloc_page` that nothing maps yet.
   `tables` maps a directory slot to the frame of its page table, and `user` holds the slots whose
   directory entry grants user access.
   */
  datatype State = State(frames: set<nat>, reserved: set<nat>, managed: set<nat>,
                         free: set<nat>, held: set<nat>,
                         tables: map<nat, nat>, user: set<nat>, pages: map<nat, Entry>)

  function Slot(v: nat): nat { v / SLOTS }

  // ---------------------------------------------------------------- the least free frame

  ghost function Least(s: set<nat>): (m: nat)
    requires s != {}
    ensures m in s && forall x | x in s :: m <= x
    decreases |s|
  {
    var y :| y in s;
    var r := s - {y};
    assert forall x | x in s :: x == y || x in r;
    if r == {} then y else var m := Least(r); if y < m then y else m
  }

  // ---------------------------------------------------------------- operations

  ghost function AllocPage(s: State): (State, Option<nat>) {
    if s.free == {} then (s, None)
    else var f := Least(s.free); (s.(free := s.free - {f}, held := s.held + {f}), Some(f))
  }

  ghost function FreePage(s: State, f: nat): State {
    s.(free := s.free + {f}, held := s.held - {f})
  }

  /** The page-table step: find or create the table of `v`'s slot and let user access through if asked to. */
  ghost function OpenSlot(s: State, v: nat, flags: nat): (State, bool) {
    var k := Slot(v);
    if k in s.tables then (if UserBit(flags) then s.(user := s.user + {k}) else s, true)
    else if s.free == {} then (s, false)
    else
      var t := Least(s.free);
      (s.(free := s.free - {t}, tables := s.tables[k := t],
          user := if UserBit(flags) then s.user + {k} else s.user - {k}), true)
  }

  /** The entry step. A managed page takes over the frame its caller was holding. */
  ghost function SetEntry(s: State, v: nat, f: nat, flags: nat): State {
    s.(pages := if PresentBit(flags) then s.pages[v := Entry(f, flags)] else s.pages - {v},
       held := if v in s.managed then s.held - {f} else s.held)
  }

  ghost function MapPage(s: State, v: nat, f: nat, flags: nat): (State, bool) {
    var (o, ok) := OpenSlot(s, v, flags);
    if ok then (SetEntry(o, v, f, flags), true) else (s, false)
  }

  ghost function UnmapPage(s: State, v: nat): State { s.(pages := s.pages - {v}) }

  /** One turn of the loop in `allocate_user_space`, including the return of the frame when mapping fails. */
  ghost function ClaimOne(s: State, v: nat): (State, bool) {
    var (a, f) := AllocPage(s);
    if f.None? then (s, false)
    else
      var (m, ok) := MapPage(a, v, f.value, USER_FLAGS);
      if ok then (m, true) else (FreePage(a, f.value), false)
  }

  /** The loop up to its first failure; the count says how many pages were mapped. */
  ghost function Claim(s: State, v: nat, n: nat): (State, nat)
    decreases n
  {
    if n == 0 then (s, 0)
    else
      var (one, ok) := ClaimOne(s, v);
      if !ok then (one, 0)
      else var (rest, k) := Claim(one, v + 1, n - 1); (rest, k + 1)
  }

  /** One turn of the loop in `free_user_space`. */
  ghost function ReleaseOne(s: State, v: nat): State {
    if v in s.pages then UnmapPage(FreePage(s, s.pages[v].frame), v) else s
  }

  ghost function Release(s: State, v: nat, n: nat): State
    decreases n
  {
    if n == 0 then s else Release(ReleaseOne(s, v), v + 1, n - 1)
  }

  ghost function AllocateUserSpace(s: State, v: nat, n: nat): (State, bool) {
    var (c, k) := Claim(s, v, n);
    if k == n then (c, true) else (Release(c, v, k), false)
  }

  /** One turn of the page loop of the kernel heap's expansion: `map_page`'s result is ignored there. */
  ghost function GrowOne(s: State, v: nat): State
    requires s.free != {}
  {
    var (a, f) := AllocPage(s);
    MapPage(a, v, f.value, KERNEL_FLAGS).0
  }

  /** The whole loop; the count says how many pages the heap's end has advanced. */
  ghost function GrowHeap(s: State, v: nat, n: nat): (State, nat)
    decreases n
  {
    if n == 0 || s.free == {} then (s, 0)
    else var (rest, k) := GrowHeap(GrowOne(s, v), v + 1, n - 1); (rest, k + 1)
  }

  // ---------------------------------------------------------------- start of paging

  /** Nothing is mapped and nothing held: what is used is reserved for good. */
  ghost function Unmapped(frames: set<nat>, free: set<nat>, managed: set<nat>): State {
    State(frames, frames - free, managed, free, {}, map[], {}, map[])
  }

  /** The first table maps the low 4 MiB onto themselves. */
  ghost function IdentityMap(s: State): State
    requires s.free != {}
  {
    var t := Least(s.free);
    s.(free := s.free - {t}, tables := s.tables[0 := t],
       pages := map v: nat | v < SLOTS :: Entry(v, KERNEL_FLAGS))
  }

  /** Mapping `n` pages onto themselves, whether or not each `map_page` succeeds. */
  ghost function IdentityRange(s: State, v: nat, n: nat): State
    decreases n
  {
    if n == 0 then s else IdentityRange(MapPage(s, v, v, KERNEL_FLAGS).0, v + 1, n - 1)
  }

  // ---------------------------------------------------------------- ownership

  ghost function TableFrames(s: State): set<nat> { s.tables.Values }

  ghost function Mapped(s: State): set<nat> { set v | v in s.managed && v in s.pages }

  ghost function Backing(s: State): set<nat> { set v | v in Mapped(s) :: s.pages[v].frame }

  ghost predicate OneToOneTables(s: State) {
    forall a, b | a in s.tables && b in s.tables && a != b :: s.tables[a] != s.tables[b]
  }

  ghost predicate OneToOnePages(s: State) {
    forall a, b | a in Mapped(s) && b in Mapped(s) && a != b :: s.pages[a].frame != s.pages[b].frame
  }

  ghost predicate InRange(s: State) {
    && (forall k | k in s.tables :: k < SLOTS)
    && (forall v | v in s.pages :: v < PAGES && Slot(v) in s.tables)
    && (forall v | v in s.pages :: PresentBit(s.pages[v].flags))
  }

  /** Every frame has exactly one use, and no use is shared. */
  ghost predicate Owned(s: State) {
    && s.free !! s.held !! s.reserved !! TableFrames(s) !! Backing(s)
    && s.free + s.held + s.reserved + TableFrames(s) + Backing(s) == s.frames
    && OneToOneTables(s) && OneToOnePages(s)
    && 0 in s.reserved
  }

  /** A page with user access lies under a directory entry with user access. */
  ghost predicate UserUnderUser(s: State) {
    && s.user <= s.tables.Keys
    && forall v | v in s.pages && UserBit(s.pages[v].flags) :: Slot(v) in s.user
  }

  ghost predicate Inv(s: State) { InRange(s) && Owned(s) && UserUnderUser(s) }

  /** Whether code in user mode reaches page `v`: both levels must grant it. */
  ghost predicate UserReaches(s: State, v: nat) {
    v in s.pages && UserBit(s.pages[v].flags) && Slot(v) in s.user
  }

  // ---------------------------------------------------------------- each step keeps the invariant

  lemma AllocPageKeepsInv(s: State)
    requires Inv(s)
    ensures Inv(AllocPage(s).0)
    ensures var (a, f) := AllocPage(s); f.Some? ==> f.value != 0 && f.value in s.frames && f.value in a.held
  {}

  lemma FreePageKeepsInv(s: State, f: nat)
    requires Inv(s) && f in s.held
    ensures Inv(FreePage(s, f))
  {}

  lemma OpenSlotKeepsInv(s: State, v: nat, flags: nat)
    requires Inv(s) && v < PAGES
    ensures var (o, ok) := OpenSlot(s, v, flags);
            && Inv(o) && o.pages == s.pages && o.held == s.held
            && (ok ==> Slot(v) in o.tables && (UserBit(flags) ==> Slot(v) in o.user))
            && (ok <==> Slot(v) in s.tables || s.free != {})
  {
    var (o, ok) := OpenSlot(s, v, flags);
    assert Backing(o) == Backing(s);
    if ok && Slot(v) !in s.tables {
      var t := Least(s.free);
      assert o.tables.Values == s.tables.Values + {t} by {
        assert o.tables[Slot(v)] == t;
        assert forall k | k in s.tables :: o.tables[k] == s.tables[k];
      }
    }
  }

  /** Mapping a managed page needs a held frame and an unmapped page; other pages may map any frame. */
  ghost predicate MayMap(s: State, v: nat, f: nat, flags: nat) {
    v < PAGES && (v in s.managed ==> v !in s.pages && f in s.held && PresentBit(flags))
  }

  lemma SetEntryKeepsInv(s: State, v: nat, f: nat, flags: nat)
    requires Inv(s) && MayMap(s, v, f, flags)
    requires Slot(v) in s.tables && (UserBit(flags) ==> Slot(v) in s.user)
    ensures Inv(SetEntry(s, v, f, flags))
  {
    var m := SetEntry(s, v, f, flags);
    if v in s.managed {
      SetManagedEntry(s, v, f, flags);
    } else {
      assert Mapped(m) == Mapped(s);
      assert Backing(m) == Backing(s);
    }
  }

  /** The frame of a managed page passes from its holder to the page. */
  lemma SetManagedEntry(s: State, v: nat, f: nat, flags: nat)
    requires Owned(s) && v in s.managed && v !in s.pages && f in s.held && PresentBit(flags)
    ensures Owned(SetEntry(s, v, f, flags))
  {
    var m := SetEntry(s, v, f, flags);
    assert Mapped(m) == Mapped(s) + {v};
    assert Backing(m) == Backing(s) + {f} by { assert m.pages[v].frame == f; }
  }

  lemma MapPageKeepsInv(s: State, v: nat, f: nat, flags: nat)
    requires Inv(s) && MayMap(s, v, f, flags)
    ensures Inv(MapPage(s, v, f, flags).0)
  {
    OpenSlotKeepsInv(s, v, flags);
    var (o, ok) := OpenSlot(s, v, flags);
    if ok { SetEntryKeepsInv(o, v, f, flags); }
  }

  lemma MapPageKeepsManaged(s: State, v: nat, f: nat, flags: nat)
    ensures MapPage(s, v, f, flags).0.managed == s.managed
  {}

  lemma ReleaseOneKeepsInv(s: State, v: nat)
    requires Inv(s) && v in s.managed
    ensures Inv(ReleaseOne(s, v))
    ensures v in s.pages ==> s.pages[v].frame in s.frames && s.pages[v].frame !in TableFrames(s)
  {
    if v in s.pages {
      var r := ReleaseOne(s, v);
      var f := s.pages[v].frame;
      assert v in Mapped(s) && f in Backing(s);
      assert Mapped(r) == Mapped(s) - {v};
      assert forall w | w in Mapped(r) :: r.pages[w].frame != f && r.pages[w].frame in Backing(s);
      forall x | x in Backing(s) && x != f ensures x in Backing(r) {
        var w :| w in Mapped(s) && s.pages[w].frame == x;
        assert w in Mapped(r) && r.pages[w].frame == x;
      }
      assert Backing(r) == Backing(s) - {f};
      assert r.held == s.held;
    }
  }

  lemma ManagedFrameIsOwned(s: State, v: nat)
    requires Inv(s) && v in s.managed && v in s.pages
    ensures var f := s.pages[v].frame; f != 0 && f in s.frames && f !in TableFrames(s) && f !in s.free && f !in s.held
  {}

  lemma UnmappedHasInv(frames: set<nat>, free: set<nat>, managed: set<nat>)
    requires free <= frames && 0 in frames && 0 !in free
    ensures Inv(Unmapped(frames, free, managed))
  {}

  /** The identity map takes one frame for its table and owns none of the frames it maps. */
  lemma IdentityMapHasInv(s: State)
    requires Inv(s) && s.tables == map[] && s.pages == map[] && s.user == {} && s.free != {}
    requires forall v | v in s.managed :: v >= SLOTS
    ensures Inv(IdentityMap(s))
  {
    var t := IdentityMap(s);
    assert Mapped(t) == {} && Backing(t) == {} && Backing(s) == {};
    assert t.tables == map[0 := Least(s.free)];
    assert t.tables.Values == {t.tables[0]};
  }

  lemma {:induction false} IdentityRangeKeepsInv(s: State, v: nat, n: nat)
    requires Inv(s) && v + n <= PAGES && forall w | v <= w < v + n :: w !in s.managed
    ensures Inv(IdentityRange(s, v, n))
    decreases n
  {
    hide Inv;
    if n > 0 {
      MapPageKeepsInv(s, v, v, KERNEL_FLAGS);
      IdentityRangeKeepsInv(MapPage(s, v, v, KERNEL_FLAGS).0, v + 1, n - 1);
    }
  }

  /** Opening a slot to user mode for one page changes no other page's effective privilege. */
  lemma OthersKeepTheirPrivilege(s: State, v: nat, f: nat, flags: nat, w: nat)
    requires Inv(s) && w != v
    ensures UserReaches(MapPage(s, v, f, flags).0, w) == UserReaches(s, w)
  {}
}
