/**
 32-bit paging as the processor reads it (section 4.3 of the Intel SDM, volume 3A), and how the words of
 the directory and of the tables stand for the values of module Space.
 Words are split arithmetically: an entry is frame * 4096 + flags, its lowest bits are P, R/W and U/S.
 */
module Paging {
  import opened Basics
  import opened Bitmap
  import opened Space

  /** Words in the 4 GiB of physical memory, and words in a table. */
  const RAM_WORDS: nat := 0x4000_0000
  const TABLE: nat := 1024

  function FrameOf(e: word): nat { e / 0x1000 }
  function FlagsOf(e: word): nat { e % 0x1000 }
  function MakeEntry(f: nat, flags: nat): word
    requires f < PAGES && flags < 0x1000
  {
    f * 0x1000 + flags
  }

  lemma EntryParts(f: nat, flags: nat)
    requires f < PAGES && flags < 0x1000
    ensures FrameOf(MakeEntry(f, flags)) == f && FlagsOf(MakeEntry(f, flags)) == flags
  {}

  lemma FlagBits(e: word)
    ensures PresentBit(e) == PresentBit(FlagsOf(e))
    ensures WriteBit(e) == WriteBit(FlagsOf(e))
    ensures UserBit(e) == UserBit(FlagsOf(e))
  {
    BitOfRemainder(FrameOf(e), FlagsOf(e), 1);
    BitOfRemainder(FrameOf(e), FlagsOf(e), 2);
    BitOfRemainder(FrameOf(e), FlagsOf(e), 4);
  }

  lemma BitOfRemainder(f: nat, r: nat, d: nat)
    requires d == 1 || d == 2 || d == 4
    ensures (f * 0x1000 + r) / d % 2 == r / d % 2
  {
    var q := r / d;
    if d == 1 {
      assert f * 0x1000 + r == 2 * (f * 0x800) + r;
    } else if d == 2 {
      assert (f * 0x1000 + r) / 2 == 2 * (f * 0x400) + q;
    } else {
      assert (f * 0x1000 + r) / 4 == 2 * (f * 0x200) + q;
    }
  }

  // ---------------------------------------------------------------- the fields of entries and addresses

  function Pow2(i: nat): nat { if i == 0 then 1 else 2 * Pow2(i - 1) }

  predicate Bit(e: nat, i: nat)
    requires Pow2(i) > 0
  {
    e / Pow2(i) % 2 == 1
  }

  /** An entry of either level: present in bit 0, writable in bit 1, user in bit 2, the frame from bit 12 on. */
  lemma EntryBits(e: word)
    ensures Pow2(0) == 1 && Pow2(1) == 2 && Pow2(2) == 4 && Pow2(12) == 4096
    ensures (PresentBit(e) <==> Bit(e, 0)) && (WriteBit(e) <==> Bit(e, 1)) && (UserBit(e) <==> Bit(e, 2))
    ensures FrameOf(e) == e / Pow2(12) && FlagsOf(e) == e % Pow2(12)
  {
    assert Pow2(3) == 8 && Pow2(6) == 64 && Pow2(9) == 512;
  }

  /** An address: ten bits of directory index, ten bits of table index, twelve bits of offset. */
  lemma AddressFields(directory: nat, table: nat, offset: nat)
    requires directory < 1024 && table < 1024 && offset < 4096
    ensures var a := directory * 0x40_0000 + table * 4096 + offset;
            a < 0x1_0000_0000 && Slot(a / PAGE) == directory && a / PAGE % SLOTS == table
  {
    var a := directory * 0x40_0000 + table * 4096 + offset;
    assert a == (directory * 1024 + table) * 4096 + offset;
    assert a / 4096 == directory * 1024 + table;
  }

  // ---------------------------------------------------------------- the hardware walk

  datatype Translation = Translation(frame: nat, write: bool, user: bool)

  /** Both levels must be present, and both must grant a right for the access to have it. */
  ghost function Walk(dir: seq<word>, ram: seq<word>, v: nat): Option<Translation>
    requires |dir| == SLOTS && |ram| == RAM_WORDS && v < PAGES
  {
    var d := dir[v / SLOTS];
    if !PresentBit(d) then None
    else
      var e := ram[FrameOf(d) * TABLE + v % SLOTS];
      if !PresentBit(e) then None
      else Some(Translation(FrameOf(e), WriteBit(d) && WriteBit(e), UserBit(d) && UserBit(e)))
  }

  /** The same question put to the flat map. */
  ghost function Translate(s: State, v: nat): Option<Translation> {
    if v in s.pages then
      Some(Translation(s.pages[v].frame, WriteBit(s.pages[v].flags), UserReaches(s, v)))
    else None
  }

  // ---------------------------------------------------------------- representation

  ghost predicate BitmapHolds(bm: seq<bv8>, s: State) {
    && (forall f :: f in s.frames <==> 0 <= f < 8 * |bm|)
    && s.free <= s.frames
    && (forall f | 0 <= f < 8 * |bm| :: f in s.free <==> !Used(bm, f))
  }

  ghost predicate SlotHolds(d: word, s: State, k: nat) {
    && (k in s.tables <==> PresentBit(d))
    && (k in s.tables ==> s.tables[k] == FrameOf(d) && WriteBit(d) && (k in s.user <==> UserBit(d)))
  }

  ghost predicate PageHolds(e: word, s: State, v: nat) {
    && (v in s.pages <==> PresentBit(e))
    && (v in s.pages ==> s.pages[v] == Entry(FrameOf(e), FlagsOf(e)))
  }

  /** Where the entry of page `v` lies in physical memory. */
  ghost function EntryIndex(s: State, v: nat): nat
    requires Slot(v) in s.tables
  {
    s.tables[Slot(v)] * TABLE + v % SLOTS
  }

  ghost predicate DirHolds(dir: seq<word>, s: State)
    requires |dir| == SLOTS
  {
    forall k | 0 <= k < SLOTS :: SlotHolds(dir[k], s, k)
  }

  ghost predicate TablesHold(ram: seq<word>, s: State)
    requires |ram| == RAM_WORDS && WellFormed(s)
  {
    forall v | 0 <= v < PAGES && Slot(v) in s.tables :: PageHolds(ram[EntryIndex(s, v)], s, v)
  }

  /** What the words need to be readable at all; every state with the full invariant has it. */
  ghost predicate WellFormed(s: State) {
    && InRange(s) && OneToOneTables(s)
    && (forall k | k in s.tables :: s.tables[k] in s.frames && s.tables[k] !in s.free)
    && s.user <= s.tables.Keys
    && (forall f | f in s.frames :: f < PAGES)
    && 0 !in s.free
  }

  lemma InvIsWellFormed(s: State)
    requires Inv(s) && forall f | f in s.frames :: f < PAGES
    ensures WellFormed(s)
  {}

  ghost predicate Represents(bm: seq<bv8>, dir: seq<word>, ram: seq<word>, s: State) {
    |dir| == SLOTS && |ram| == RAM_WORDS && WellFormed(s) && BitmapHolds(bm, s) && DirHolds(dir, s) && TablesHold(ram, s)
  }

  lemma FramesBelow(bm: seq<bv8>, dir: seq<word>, ram: seq<word>, s: State, f: nat)
    requires Represents(bm, dir, ram, s) && f in s.frames
    ensures f < 8 * |bm|
  {}

  /** The words behind a mapped page: the table's frame in the directory, and frame and flags in the table. */
  lemma EntryWords(bm: seq<bv8>, dir: seq<word>, ram: seq<word>, s: State, v: nat)
    requires Represents(bm, dir, ram, s) && v in s.pages
    ensures v < 1024 * 1024 && v / 1024 in s.tables && dir[v / 1024] / 4096 == s.tables[v / 1024] < 1024 * 1024
    ensures ram[s.tables[v / 1024] * 1024 + v % 1024] == s.pages[v].frame * 4096 + s.pages[v].flags
  {
    assert SlotHolds(dir[Slot(v)], s, Slot(v));
    assert PageHolds(ram[EntryIndex(s, v)], s, v);
    assert s.tables[Slot(v)] in s.frames;
  }

  /** What reading a directory entry tells. */
  lemma ReadSlot(bm: seq<bv8>, dir: seq<word>, ram: seq<word>, s: State, k: nat)
    requires Represents(bm, dir, ram, s) && k < SLOTS
    ensures PresentBit(dir[k]) <==> k in s.tables
    ensures k in s.tables ==> FrameOf(dir[k]) == s.tables[k] < PAGES
  {}

  /** What reading a table entry tells, and that only slots with a table have pages. */
  lemma ReadEntry(bm: seq<bv8>, dir: seq<word>, ram: seq<word>, s: State, v: nat)
    requires Represents(bm, dir, ram, s) && v < PAGES
    ensures v in s.pages ==> Slot(v) in s.tables
    ensures Slot(v) in s.tables ==> EntryIndex(s, v) < RAM_WORDS
    ensures Slot(v) in s.tables ==> PageHolds(ram[EntryIndex(s, v)], s, v)
    ensures v in s.pages && s.pages[v].frame in s.frames ==> s.pages[v].frame < 8 * |bm|
  {}

  /** The two-level walk agrees with the flat map on every page. */
  lemma WalkIsFlatMap(bm: seq<bv8>, dir: seq<word>, ram: seq<word>, s: State, v: nat)
    requires Represents(bm, dir, ram, s) && v < PAGES
    ensures Walk(dir, ram, v) == Translate(s, v)
  {
    assert SlotHolds(dir[Slot(v)], s, Slot(v));
    if Slot(v) in s.tables {
      var e := ram[EntryIndex(s, v)];
      assert PageHolds(e, s, v);
      FlagBits(e);
    }
  }

  /**
   What `map_page` does to the translations the processor sees, whatever words hold them: success gives
   its page the new frame and rights and leaves every other page alone; failure changes nothing.
   */
  lemma MapPageSeenByHardware(bm: seq<bv8>, dir: seq<word>, ram: seq<word>, bm': seq<bv8>, dir': seq<word>, ram': seq<word>,
                              s: State, v: nat, f: nat, flags: nat, w: nat)
    requires Represents(bm, dir, ram, s) && Inv(s) && v < PAGES && w < PAGES
    requires Represents(bm', dir', ram', MapPage(s, v, f, flags).0)
    ensures Walk(dir', ram', w) ==
            if MapPage(s, v, f, flags).1 && w == v then
              (if PresentBit(flags) then Some(Translation(f, WriteBit(flags), UserBit(flags))) else None)
            else Walk(dir, ram, w)
  {
    WalkIsFlatMap(bm, dir, ram, s, w);
    WalkIsFlatMap(bm', dir', ram', MapPage(s, v, f, flags).0, w);
    hide Walk, Represents, Owned;
    if w != v { OthersKeepTheirPrivilege(s, v, f, flags, w); }
  }

  lemma UnmapPageSeenByHardware(bm: seq<bv8>, dir: seq<word>, ram: seq<word>, bm': seq<bv8>, dir': seq<word>, ram': seq<word>,
                                s: State, v: nat, w: nat)
    requires Represents(bm, dir, ram, s) && w < PAGES && Represents(bm', dir', ram', UnmapPage(s, v))
    ensures Walk(dir', ram', w) == if w == v then None else Walk(dir, ram, w)
  {
    WalkIsFlatMap(bm, dir, ram, s, w);
    WalkIsFlatMap(bm', dir', ram', UnmapPage(s, v), w);
  }

  // ---------------------------------------------------------------- effect of each write

  lemma DirCarries(dir: seq<word>, s: State, t: State)
    requires |dir| == SLOTS && DirHolds(dir, s) && t.tables == s.tables && t.user == s.user
    ensures DirHolds(dir, t)
  {}

  lemma TablesCarry(ram: seq<word>, s: State, t: State)
    requires |ram| == RAM_WORDS && WellFormed(s) && WellFormed(t) && TablesHold(ram, s)
    requires t.tables == s.tables && t.pages == s.pages
    ensures TablesHold(ram, t)
  {}

  /** The first clear bit is the least free frame, and setting it takes that frame. */
  lemma TakeRepresents(bm: seq<bv8>, dir: seq<word>, ram: seq<word>, s: State, i: nat)
    requires Represents(bm, dir, ram, s) && i < 8 * |bm| && !Used(bm, i)
    requires forall g: nat | g < i :: Used(bm, g)
    ensures s.free != {} && Least(s.free) == i && 0 < i < PAGES
    ensures Represents(bm[i / 8 := WithBit(bm[i / 8], i % 8)], dir, ram, AllocPage(s).0)
  {
    assert i in s.free;
    assert forall g | g in s.free :: !Used(bm, g);
    MarkUsed(bm, bm[i / 8 := WithBit(bm[i / 8], i % 8)], i);
    DirCarries(dir, s, AllocPage(s).0);
    TablesCarry(ram, s, AllocPage(s).0);
  }

  lemma FullBitmap(bm: seq<bv8>, dir: seq<word>, ram: seq<word>, s: State)
    requires Represents(bm, dir, ram, s) && forall g: nat | g < 8 * |bm| :: Used(bm, g)
    ensures s.free == {}
  {}

  lemma GiveRepresents(bm: seq<bv8>, dir: seq<word>, ram: seq<word>, s: State, i: nat)
    requires Represents(bm, dir, ram, s) && i in s.frames && i != 0 && i !in TableFrames(s)
    ensures 0 <= i < 8 * |bm|
    ensures Represents(bm[i / 8 := WithoutBit(bm[i / 8], i % 8)], dir, ram, FreePage(s, i))
  {
    MarkFree(bm, bm[i / 8 := WithoutBit(bm[i / 8], i % 8)], i);
    assert forall k | k in s.tables :: s.tables[k] in TableFrames(s);
    DirCarries(dir, s, FreePage(s, i));
    TablesCarry(ram, s, FreePage(s, i));
  }

  /** Distinct pages have distinct entries, because distinct slots have distinct table frames. */
  lemma EntriesAreApart(s: State, v: nat, w: nat)
    requires WellFormed(s) && v < PAGES && w < PAGES && v != w && Slot(v) in s.tables && Slot(w) in s.tables
    ensures EntryIndex(s, v) != EntryIndex(s, w)
  {}

  lemma WriteEntry(ram: seq<word>, s: State, v: nat, f: nat, flags: nat)
    requires |ram| == RAM_WORDS && WellFormed(s) && TablesHold(ram, s)
    requires v < PAGES && Slot(v) in s.tables && f < PAGES && flags < 0x1000
    ensures WellFormed(SetEntry(s, v, f, flags))
    ensures TablesHold(ram[EntryIndex(s, v) := MakeEntry(f, flags)], SetEntry(s, v, f, flags))
  {
    var t, e := SetEntry(s, v, f, flags), MakeEntry(f, flags);
    var ram' := ram[EntryIndex(s, v) := e];
    EntryParts(f, flags);
    FlagBits(e);
    forall w | 0 <= w < PAGES && Slot(w) in t.tables ensures PageHolds(ram'[EntryIndex(t, w)], t, w) {
      assert PageHolds(ram[EntryIndex(s, w)], s, w);
      if w != v { EntriesAreApart(s, v, w); }
    }
  }

  lemma ClearEntry(ram: seq<word>, s: State, v: nat)
    requires |ram| == RAM_WORDS && WellFormed(s) && TablesHold(ram, s)
    requires v < PAGES && Slot(v) in s.tables
    ensures WellFormed(UnmapPage(s, v))
    ensures TablesHold(ram[EntryIndex(s, v) := 0], UnmapPage(s, v))
  {
    var t, ram' := UnmapPage(s, v), ram[EntryIndex(s, v) := 0];
    forall w | 0 <= w < PAGES && Slot(w) in t.tables ensures PageHolds(ram'[EntryIndex(t, w)], t, w) {
      assert PageHolds(ram[EntryIndex(s, w)], s, w);
      if w != v { EntriesAreApart(s, v, w); }
    }
  }

  ghost predicate Zeroed(ram: seq<word>, ram': seq<word>, t: nat) {
    && |ram| == |ram'| == RAM_WORDS
    && (forall i | 0 <= i < RAM_WORDS && t * TABLE <= i < t * TABLE + TABLE :: ram'[i] == 0)
    && (forall i | 0 <= i < RAM_WORDS && !(t * TABLE <= i < t * TABLE + TABLE) :: ram'[i] == ram[i])
  }

  /** A zeroed frame that was free becomes an empty table; every older table keeps its words. */
  lemma EmptyTable(ram: seq<word>, ram': seq<word>, s: State, o: State, k: nat, t: nat)
    requires |ram| == RAM_WORDS && WellFormed(s) && TablesHold(ram, s) && Zeroed(ram, ram', t)
    requires k < SLOTS && k !in s.tables && t in s.free && t in s.frames
    requires o == s.(free := s.free - {t}, tables := s.tables[k := t], user := o.user)
    requires o.user <= o.tables.Keys
    ensures WellFormed(o) && TablesHold(ram', o)
  {
    forall w | 0 <= w < PAGES && Slot(w) in o.tables ensures PageHolds(ram'[EntryIndex(o, w)], o, w) {
      if Slot(w) == k {
        assert ram'[EntryIndex(o, w)] == 0;
      } else {
        assert PageHolds(ram[EntryIndex(s, w)], s, w) && s.tables[Slot(w)] != t;
      }
    }
  }

  /** All of a table's creation: the frame is taken, zeroed, and named by the directory. */
  lemma CreateRepresents(bm: seq<bv8>, bm': seq<bv8>, dir: seq<word>, ram: seq<word>, ram': seq<word>, s: State, v: nat, flags: nat)
    requires Represents(bm, dir, ram, s) && s.free != {} && Represents(bm', dir, ram, AllocPage(s).0)
    requires v < PAGES && Slot(v) !in s.tables && Zeroed(ram, ram', Least(s.free))
    ensures Least(s.free) < PAGES
    ensures Represents(bm', dir[Slot(v) := TableEntry(Least(s.free), flags)], ram', OpenSlot(s, v, flags).0)
  {
    var t, k, o := Least(s.free), Slot(v), OpenSlot(s, v, flags).0;
    assert t in s.frames;
    EmptyTable(ram, ram', s, o, k, t);
    NewDirEntry(dir, s, v, flags);
    hide Used, WellFormed, InRange, DirHolds, TablesHold;
  }

  function TableEntry(t: nat, flags: nat): word
    requires t < PAGES
  {
    MakeEntry(t, if UserBit(flags) then USER_FLAGS else KERNEL_FLAGS)
  }

  /** A new table's directory entry: present and writable, and open to user mode if its first page is. */
  lemma TableEntryWord(t: nat, flags: nat)
    requires t < PAGES
    ensures TableEntry(t, flags) == t * 4096 + if flags / 4 % 2 == 1 then 7 else 3
  {}

  lemma NewDirEntry(dir: seq<word>, s: State, v: nat, flags: nat)
    requires |dir| == SLOTS && DirHolds(dir, s) && s.free != {} && Least(s.free) < PAGES
    requires v < PAGES && Slot(v) !in s.tables
    ensures DirHolds(dir[Slot(v) := TableEntry(Least(s.free), flags)], OpenSlot(s, v, flags).0)
  {
    var t, k, o := Least(s.free), Slot(v), OpenSlot(s, v, flags).0;
    var bits := if UserBit(flags) then USER_FLAGS else KERNEL_FLAGS;
    var dir' := dir[k := TableEntry(t, flags)];
    EntryParts(t, bits);
    FlagBits(dir'[k]);
    forall j | 0 <= j < SLOTS ensures SlotHolds(dir'[j], o, j) { assert SlotHolds(dir[j], s, j); }
  }

  /** `e | PAGE_USER` in arithmetic. */
  function WithUser(e: word): (d: nat)
    ensures d < TWO32
  {
    assert e % 8 < 4 <==> !UserBit(e);
    if UserBit(e) then e else e + 4
  }

  /** Only that bit: nothing else of the word changes. */
  lemma WithUserWord(e: word)
    ensures WithUser(e) == if e / 4 % 2 == 1 then e else e + 4
  {}

  lemma GrantUser(e: word)
    ensures FrameOf(WithUser(e)) == FrameOf(e) && UserBit(WithUser(e))
    ensures PresentBit(WithUser(e)) == PresentBit(e) && WriteBit(WithUser(e)) == WriteBit(e)
  {
    if !UserBit(e) {
      var q := e / 8;
      assert e == 8 * q + e % 8 && e % 8 < 4;
      assert (e + 4) / 4 == 2 * q + 1;
      assert (e + 4) / 2 == e / 2 + 2;
    }
  }

  /** Granting user access at the directory level. */
  lemma GrantRepresents(bm: seq<bv8>, dir: seq<word>, ram: seq<word>, s: State, v: nat)
    requires Represents(bm, dir, ram, s) && v < PAGES && Slot(v) in s.tables
    ensures Represents(bm, dir[Slot(v) := WithUser(dir[Slot(v)])], ram, s.(user := s.user + {Slot(v)}))
  {
    var k, o, d := Slot(v), s.(user := s.user + {Slot(v)}), WithUser(dir[Slot(v)]);
    assert SlotHolds(dir[k], s, k);
    GrantUser(dir[k]);
    hide FrameOf, PresentBit, WriteBit, UserBit;
    var dir' := dir[k := d];
    forall j | 0 <= j < SLOTS ensures SlotHolds(dir'[j], o, j) { assert SlotHolds(dir[j], s, j); }
    TablesCarry(ram, s, o);
  }

  lemma WriteRepresents(bm: seq<bv8>, dir: seq<word>, ram: seq<word>, s: State, v: nat, f: nat, flags: nat)
    requires Represents(bm, dir, ram, s) && v < PAGES && Slot(v) in s.tables && f < PAGES && flags < 0x1000
    ensures EntryIndex(s, v) < RAM_WORDS
    ensures Represents(bm, dir, ram[EntryIndex(s, v) := MakeEntry(f, flags)], SetEntry(s, v, f, flags))
  {
    WriteEntry(ram, s, v, f, flags);
    DirCarries(dir, s, SetEntry(s, v, f, flags));
  }

  lemma ClearRepresents(bm: seq<bv8>, dir: seq<word>, ram: seq<word>, s: State, v: nat)
    requires Represents(bm, dir, ram, s) && v < PAGES && Slot(v) in s.tables
    ensures EntryIndex(s, v) < RAM_WORDS
    ensures Represents(bm, dir, ram[EntryIndex(s, v) := 0], UnmapPage(s, v))
  {
    ClearEntry(ram, s, v);
    DirCarries(dir, s, UnmapPage(s, v));
  }

  // ---------------------------------------------------------------- start of paging

  ghost predicate IsFrame(bm: seq<bv8>, f: int) { 0 <= f < 8 * |bm| }

  /** The state a boot bitmap and a cleared directory stand for. */
  ghost function FromBitmap(bm: seq<bv8>, managed: set<nat>): State {
    Unmapped(set f | 0 <= f < 8 * |bm| && IsFrame(bm, f) :: f,
             set f | 0 <= f < 8 * |bm| && !Used(bm, f) :: f, managed)
  }

  lemma ClearedRepresents(bm: seq<bv8>, dir: seq<word>, ram: seq<word>, managed: set<nat>)
    requires |dir| == SLOTS && |ram| == RAM_WORDS && 0 < 8 * |bm| <= PAGES && Used(bm, 0)
    requires forall k | 0 <= k < SLOTS :: dir[k] == 0
    ensures Represents(bm, dir, ram, FromBitmap(bm, managed)) && Inv(FromBitmap(bm, managed))
  {
    var s := FromBitmap(bm, managed);
    assert forall f :: f in s.frames <==> IsFrame(bm, f);
    UnmappedHasInv(s.frames, s.free, managed);
    InvIsWellFormed(s);
  }

  ghost predicate IdentityFilled(ram: seq<word>, ram': seq<word>, t: nat) {
    && |ram| == |ram'| == RAM_WORDS
    && (forall i | 0 <= i < RAM_WORDS && t * TABLE <= i < t * TABLE + TABLE ::
          ram'[i] == (i - t * TABLE) * 0x1000 + KERNEL_FLAGS)
  }

  lemma IdentityMapRepresents(bm: seq<bv8>, bm': seq<bv8>, dir: seq<word>, ram: seq<word>, ram': seq<word>, s: State)
    requires Represents(bm, dir, ram, s) && s.free != {} && Represents(bm', dir, ram, AllocPage(s).0)
    requires s.tables == map[] && s.pages == map[] && s.user == {} && IdentityFilled(ram, ram', Least(s.free))
    ensures Least(s.free) < PAGES
    ensures Represents(bm', dir[0 := MakeEntry(Least(s.free), KERNEL_FLAGS)], ram', IdentityMap(s))
  {
    var t, o := Least(s.free), IdentityMap(s);
    assert t in s.frames;
    var dir' := dir[0 := MakeEntry(t, KERNEL_FLAGS)];
    EntryParts(t, KERNEL_FLAGS);
    FlagBits(dir'[0]);
    forall k | 0 <= k < SLOTS ensures SlotHolds(dir'[k], o, k) { assert SlotHolds(dir[k], s, k); }
    forall v | 0 <= v < PAGES && Slot(v) in o.tables ensures PageHolds(ram'[EntryIndex(o, v)], o, v) {
      assert ram'[EntryIndex(o, v)] == MakeEntry(v, KERNEL_FLAGS);
      EntryParts(v, KERNEL_FLAGS);
      FlagBits(MakeEntry(v, KERNEL_FLAGS));
    }
  }
}
