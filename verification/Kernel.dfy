/**
 The allocators side by side, as the kernel runs them: the kernel heap, the user heap, the user program's
 page and its stack, all in one address space and one memory.
 */
module Kernel {
  import opened Basics
  import opened HeapChain
  import opened HeapPages
  import Spec = HeapRuns
  import Space
  import Runs = SpaceRuns
  import Pager

  const USER_CODE_BASE: nat := 0x4000_0000
  const USER_HEAP_START: nat := 0x5000_0000
  const HEAP_START: nat := 0xD000_0000

  /** What `launch_isolated_user_process` maps for the user program. */
  datatype Region = Code | Stack

  function Low(r: Region): nat { if r.Code? then USER_CODE_BASE else Pager.USER_STACK_MAX - Pager.USER_STACK_SIZE }
  function High(r: Region): nat { if r.Code? then USER_CODE_BASE + PAGE else Pager.USER_STACK_MAX }

  function PagesOf(r: Region): nat { (High(r) - Low(r)) / PAGE }

  /** `ktop` and `utop` end the address ranges set aside for the heaps; `present` are the regions that are mapped. */
  datatype State = State(space: Space.State, kernel: Spec.State, user: Spec.State, ktop: nat, utop: nat, present: set<Region>)

  // ---------------------------------------------------------------- steps

  datatype Op = Kmalloc(n: nat) | Kfree(p: nat) | Umalloc(n: nat) | Ufree(p: nat) | Map(r: Region) | Unmap(r: Region)

  /** One heap's allocation and what it does to the address space. */
  ghost function Alloc(h: Spec.State, s: Space.State, n: nat, g: Growth): (Spec.State, Space.State, nat)
    requires Spec.SizeOk(n)
  {
    var (t, k) := Grow(s, h.end, Spec.Pages(n), g);
    var (h', p) := Spec.Malloc(h, n, k, g);
    (h', if Spec.Expands(h, n) then t else s, p)
  }

  /** A request does not wrap, neither in its size nor past the heap's range. */
  ghost predicate RequestOk(h: Spec.State, top: nat, n: nat) {
    Spec.SizeOk(n) && (Spec.Expands(h, n) ==> h.end + Spec.Pages(n) * PAGE <= top)
  }

  ghost predicate Legal(s: State, op: Op) {
    match op
    case Kmalloc(n) => RequestOk(s.kernel, s.ktop, n)
    case Kfree(p) => p == 0 || Spec.IsLive(s.kernel.chain, p)
    case Umalloc(n) => RequestOk(s.user, s.utop, n)
    case Ufree(p) => p == 0 || Spec.IsLive(s.user.chain, p)
    case Map(r) => r !in s.present
    case Unmap(r) => r in s.present
  }

  ghost function Step(s: State, op: Op): State
    requires Legal(s, op)
  {
    match op
    case Kmalloc(n) => var (h, t, _) := Alloc(s.kernel, s.space, n, KeepsPages); s.(kernel := h, space := t)
    case Kfree(p) => s.(kernel := Spec.Free(s.kernel, p))
    case Umalloc(n) => var (h, t, _) := Alloc(s.user, s.space, n, RollsBack); s.(user := h, space := t)
    case Ufree(p) => s.(user := Spec.Free(s.user, p))
    case Map(r) =>
      var (t, ok) := Space.AllocateUserSpace(s.space, Low(r) / PAGE, PagesOf(r));
      s.(space := t, present := if ok then s.present + {r} else s.present)
    case Unmap(r) =>
      s.(space := Space.Release(s.space, Low(r) / PAGE, PagesOf(r)), present := s.present - {r})
  }

  // ---------------------------------------------------------------- what every step keeps

  /**
   A heap with its range, which is the allocator's to map: the rest of it is untouched, and a heap that
   rolls back has all its pages.
   */
  ghost predicate HeapOk(h: Spec.State, s: Space.State, top: nat, g: Growth) {
    && Spec.Inv(h, g) && h.base % PAGE == 0 && h.base <= h.end <= top
    && Runs.Within(s, h.base / PAGE, (top - h.base) / PAGE)
    && Untouched(s, h.end, top) && (g.RollsBack? ==> PagesMapped(s, h.base, h.end))
  }

  ghost predicate RegionOk(s: Space.State, r: Region, present: set<Region>) {
    && Runs.Within(s, Low(r) / PAGE, PagesOf(r))
    && if r in present then PagesMapped(s, Low(r), High(r)) else Untouched(s, Low(r), High(r))
  }

  /** The ranges lie apart: program, user heap, stack, kernel heap, in this order. */
  ghost predicate Placed(s: State) {
    && High(Code) <= s.user.base <= s.user.end <= s.utop <= Low(Stack)
    && High(Stack) <= s.kernel.base <= s.kernel.end <= s.ktop < TWO32
  }

  /** Page `v` lies in the range. */
  ghost predicate InPages(v: nat, a: nat, b: nat) { a <= v * PAGE && (v + 1) * PAGE <= b }

  /** The pages that belong to the user program. */
  ghost predicate UserPage(s: State, v: nat) {
    || InPages(v, s.user.base, s.user.end)
    || (Code in s.present && InPages(v, Low(Code), High(Code)))
    || (Stack in s.present && InPages(v, Low(Stack), High(Stack)))
  }

  /** Code in user mode reaches the user program's pages, all of them, and nothing else. */
  ghost predicate Isolated(s: State) {
    forall v: nat :: Space.UserReaches(s.space, v) <==> UserPage(s, v)
  }

  ghost predicate Inv(s: State) {
    && Space.Inv(s.space) && Placed(s) && Isolated(s)
    && HeapOk(s.kernel, s.space, s.ktop, KeepsPages) && HeapOk(s.user, s.space, s.utop, RollsBack)
    && RegionOk(s.space, Code, s.present) && RegionOk(s.space, Stack, s.present)
  }

  // ---------------------------------------------------------------- before the first call

  /** An address space in which every range is still untouched and nothing is open to user mode. */
  ghost predicate Bare(s: Space.State, ktop: nat, utop: nat) {
    && Space.Inv(s) && utop <= Low(Stack) && ktop < TWO32
    && Untouched(s, HEAP_START, ktop) && Untouched(s, USER_HEAP_START, utop)
    && Untouched(s, Low(Code), High(Code)) && Untouched(s, Low(Stack), High(Stack))
    && forall v: nat :: !Space.UserReaches(s, v)
  }

  ghost function Initial(s: Space.State, ktop: nat, utop: nat): State {
    State(s, Spec.State(HEAP_START, [], HEAP_START, 0), Spec.State(USER_HEAP_START, [], USER_HEAP_START, 0), ktop, utop, {})
  }

  lemma InitialHasInv(s: Space.State, ktop: nat, utop: nat)
    requires Bare(s, ktop, utop)
    ensures Inv(Initial(s, ktop, utop))
  {
    EmptyRange(s, USER_HEAP_START, utop);
    hide Space.Inv, Space.UserReaches;
    var t := Initial(s, ktop, utop);
    forall v: nat ensures !UserPage(t, v) { NoPageInside(v, USER_HEAP_START); }
  }

  // ---------------------------------------------------------------- user access

  /** The slot level never decides: a page's own entry tells whether user mode reaches it. */
  lemma ReachIsEntry(s: Space.State, v: nat)
    requires Space.Inv(s)
    ensures Space.UserReaches(s, v) <==> v in s.pages && Space.UserBit(s.pages[v].flags)
  {}

  lemma ReachKept(s: Space.State, t: Space.State, a: nat, b: nat, v: nat)
    requires Space.Inv(s) && Space.Inv(t) && OnlyIn(s, t, a, b) && ((v + 1) * PAGE <= a || b <= v * PAGE)
    ensures Space.UserReaches(t, v) <==> Space.UserReaches(s, v)
  {
    assert SamePage(s, t, v);
    ReachIsEntry(s, v);
    ReachIsEntry(t, v);
    hide Space.Inv;
  }

  lemma PageInOrOut(v: nat, a: nat, b: nat)
    requires a % PAGE == 0 && b % PAGE == 0
    ensures InPages(v, a, b) || (v + 1) * PAGE <= a || b <= v * PAGE
  {}

  /** In a range that was untouched the kind of the new pages decides. */
  lemma ReachNew(s: Space.State, t: Space.State, a: nat, b: nat, top: nat, g: Growth, v: nat)
    requires Space.Inv(t) && NewFlags(s, t, g) && Untouched(s, a, top) && b <= top && InPages(v, a, b)
    requires g.RollsBack? ==> PagesMapped(t, a, b)
    ensures Space.UserReaches(t, v) <==> g.RollsBack?
  {
    ReachIsEntry(t, v);
    UntouchedPage(s, a, top, v);
    if g.RollsBack? { MappedPage(t, a, b, v); }
    hide Space.Inv, Untouched, PagesMapped;
  }

  // ---------------------------------------------------------------- one heap's allocation

  /**
   What an allocation does to the address space: nothing outside the range it moves the end over, which
   is the heap's to take; and there it makes pages of the heap's kind.
   */
  lemma AllocEffect(h: Spec.State, s: Space.State, n: nat, g: Growth, top: nat)
    requires Space.Inv(s) && HeapOk(h, s, top, g) && RequestOk(h, top, n)
    ensures var (h', t, p) := Alloc(h, s, n, g);
            && Space.Inv(t) && HeapOk(h', t, top, g) && h'.base == h.base && h.end <= h'.end
            && OnlyIn(s, t, h.end, h'.end) && NewFlags(s, t, g)
            && (g.RollsBack? ==> PagesMapped(t, h.end, h'.end))
            && (PagesMapped(t, h'.base, h'.end) <==>
                PagesMapped(s, h.base, h.end) && !(Spec.Expands(h, n) && LosesPage(s, h.end, Spec.Pages(n), g)))
  {
    hide Grow, Space.Inv, Untouched, OnlyIn, PagesMapped, Spec.Inv, NewFlags, Spec.Malloc, LosesPage, Runs.Within;
    var k := Grow(s, h.end, Spec.Pages(n), g).1;
    if g.RollsBack? { NothingLost(s, h.end, Spec.Pages(n)); }
    if Spec.Expands(h, n) {
      RangeGrown(s, h.base, h.end, Spec.Pages(n), g, top);
      Spec.MallocEnd(h, n, k, g);
      OnlyInKeepsWithin(s, Grow(s, h.end, Spec.Pages(n), g).0, h.end, h.end + k * PAGE, h.base / PAGE, (top - h.base) / PAGE);
    } else {
      OnlyInItself(s, h.end, h.end);
      EmptyRange(s, h.end, top);
      NoNewFlags(s, g);
      MallocInPlace(h, n, k, g);
    }
  }

  lemma MallocInPlace(h: Spec.State, n: nat, k: nat, g: Growth)
    requires Spec.SizeOk(n) && Spec.Inv(h, g) && !Spec.Expands(h, n)
    ensures Spec.Inv(Spec.Malloc(h, n, k, g).0, g)
    ensures Spec.Malloc(h, n, k, g).0.base == h.base && Spec.Malloc(h, n, k, g).0.end == h.end
  {
    Spec.MallocEnd(h, n, 0, g);
    hide Spec.Inv;
  }

  lemma EmptyRange(s: Space.State, a: nat, top: nat)
    requires Untouched(s, a, top)
    ensures PagesMapped(s, a, a)
  {}

  lemma NoNewFlags(s: Space.State, g: Growth)
    ensures NewFlags(s, s, g)
  {}

  // ---------------------------------------------------------------- the others do not notice

  lemma HeapKept(h: Spec.State, s: Space.State, t: Space.State, top: nat, g: Growth, a: nat, b: nat)
    requires HeapOk(h, s, top, g) && OnlyIn(s, t, a, b) && (b <= h.base || top <= a)
    ensures HeapOk(h, t, top, g) && (PagesMapped(t, h.base, h.end) <==> PagesMapped(s, h.base, h.end))
  {
    hide Untouched, PagesMapped, OnlyIn, Spec.Inv, Runs.Within;
    OnlyInKeepsWithin(s, t, a, b, h.base / PAGE, (top - h.base) / PAGE);
    OtherRangesKept(s, t, a, b, h.end, top);
    OtherRangesKept(s, t, a, b, h.base, h.end);
  }

  lemma RegionKept(s: Space.State, t: Space.State, r: Region, present: set<Region>, other: set<Region>, a: nat, b: nat)
    requires RegionOk(s, r, present) && OnlyIn(s, t, a, b) && (b <= Low(r) || High(r) <= a) && (r in other <==> r in present)
    ensures RegionOk(t, r, other)
  {
    hide Untouched, PagesMapped, Low, High, PagesOf;
    OtherRangesKept(s, t, a, b, Low(r), High(r));
  }

  /** Isolation needs a look only at the range that changed. */
  lemma IsolationKept(s: State, t: State, a: nat, b: nat)
    requires Space.Inv(s.space) && Space.Inv(t.space) && Isolated(s) && OnlyIn(s.space, t.space, a, b)
    requires a % PAGE == 0 && b % PAGE == 0
    requires forall v: nat | InPages(v, a, b) :: Space.UserReaches(t.space, v) <==> UserPage(t, v)
    requires forall v: nat | !InPages(v, a, b) :: UserPage(t, v) <==> UserPage(s, v)
    ensures Isolated(t)
  {
    hide Space.Inv, Space.UserReaches, OnlyIn, UserPage, InPages;
    forall v: nat ensures Space.UserReaches(t.space, v) <==> UserPage(t, v) {
      if !InPages(v, a, b) {
        PageInOrOut(v, a, b);
        ReachKept(s.space, t.space, a, b, v);
      }
    }
  }

  // ---------------------------------------------------------------- kmalloc and umalloc

  lemma KernelRangeIsNotUser(s: State, v: nat, a: nat, b: nat)
    requires Placed(s) && High(Stack) <= a && InPages(v, a, b)
    ensures !UserPage(s, v)
  {}

  lemma KmallocKeepsInv(s: State, n: nat)
    requires Inv(s) && RequestOk(s.kernel, s.ktop, n)
    ensures Inv(Step(s, Kmalloc(n)))
  {
    var (h, t, p) := Alloc(s.kernel, s.space, n, KeepsPages);
    var s' := Step(s, Kmalloc(n));
    var a, b := s.kernel.end, h.end;
    AllocEffect(s.kernel, s.space, n, KeepsPages, s.ktop);
    AlignedStart(s.space, a, s.ktop);
    AlignedStart(t, b, s.ktop);
    hide Alloc, Space.Inv, Spec.Inv, OnlyIn, Untouched, PagesMapped, NewFlags, Isolated, UserPage, RegionOk, LosesPage, Spec.Expands, InPages;
    HeapKept(s.user, s.space, t, s.utop, RollsBack, a, b);
    RegionKept(s.space, t, Code, s.present, s.present, a, b);
    RegionKept(s.space, t, Stack, s.present, s.present, a, b);
    forall v: nat | InPages(v, a, b) ensures Space.UserReaches(t, v) <==> UserPage(s', v) {
      ReachNew(s.space, t, a, b, s.ktop, KeepsPages, v);
      KernelRangeIsNotUser(s', v, a, b);
    }
    forall v: nat | !InPages(v, a, b) ensures UserPage(s', v) <==> UserPage(s, v) { SameUserPages(s, s', v); }
    IsolationKept(s, s', a, b);
  }

  lemma SameUserPages(s: State, t: State, v: nat)
    requires s.user == t.user && s.present == t.present
    ensures UserPage(s, v) <==> UserPage(t, v)
  {}

  lemma UserHeapPages(s: State, t: State, v: nat)
    requires t == s.(space := t.space, user := t.user) && t.user.base == s.user.base && s.user.base <= s.user.end <= t.user.end
    requires s.user.base % PAGE == 0 && s.user.end % PAGE == 0
    ensures UserPage(t, v) <==> UserPage(s, v) || InPages(v, s.user.end, t.user.end)
  {
    PageInOrOut(v, s.user.base, s.user.end);
  }

  lemma UmallocKeepsInv(s: State, n: nat)
    requires Inv(s) && RequestOk(s.user, s.utop, n)
    ensures Inv(Step(s, Umalloc(n)))
  {
    var (h, t, p) := Alloc(s.user, s.space, n, RollsBack);
    var s' := Step(s, Umalloc(n));
    var a, b := s.user.end, h.end;
    AllocEffect(s.user, s.space, n, RollsBack, s.utop);
    AlignedStart(s.space, a, s.utop);
    AlignedStart(t, b, s.utop);
    hide Alloc, Space.Inv, Spec.Inv, OnlyIn, Untouched, PagesMapped, NewFlags, Isolated, UserPage, RegionOk, LosesPage, Spec.Expands, InPages;
    HeapKept(s.kernel, s.space, t, s.ktop, KeepsPages, a, b);
    RegionKept(s.space, t, Code, s.present, s.present, a, b);
    RegionKept(s.space, t, Stack, s.present, s.present, a, b);
    forall v: nat ensures UserPage(s', v) <==> UserPage(s, v) || InPages(v, a, b) { UserHeapPages(s, s', v); }
    forall v: nat | InPages(v, a, b) ensures Space.UserReaches(t, v) { ReachNew(s.space, t, a, b, s.utop, RollsBack, v); }
    IsolationKept(s, s', a, b);
  }

  // ---------------------------------------------------------------- kfree and ufree

  lemma FreeKeepsHeapOk(h: Spec.State, s: Space.State, top: nat, g: Growth, p: nat)
    requires HeapOk(h, s, top, g) && (p == 0 || Spec.IsLive(h.chain, p))
    ensures HeapOk(Spec.Free(h, p), s, top, g)
    ensures Spec.Free(h, p).base == h.base && Spec.Free(h, p).end == h.end
  {
    if p != 0 { Spec.FreeKeepsInv(h, p, g); }
    hide Spec.Inv;
  }

  lemma KfreeKeepsInv(s: State, p: nat)
    requires Inv(s) && (p == 0 || Spec.IsLive(s.kernel.chain, p))
    ensures Inv(Step(s, Kfree(p)))
  {
    FreeKeepsHeapOk(s.kernel, s.space, s.ktop, KeepsPages, p);
    hide HeapOk, Space.Inv, RegionOk;
  }

  lemma UfreeKeepsInv(s: State, p: nat)
    requires Inv(s) && (p == 0 || Spec.IsLive(s.user.chain, p))
    ensures Inv(Step(s, Ufree(p)))
  {
    FreeKeepsHeapOk(s.user, s.space, s.utop, RollsBack, p);
    hide HeapOk, Space.Inv, RegionOk;
  }

  // ---------------------------------------------------------------- the program's page and its stack

  lemma RegionPages(r: Region)
    ensures Low(r) % PAGE == 0 && High(r) % PAGE == 0 && Low(r) + PagesOf(r) * PAGE == High(r) && PagesOf(r) > 0
  {}

  lemma RegionIsVacant(s: State, r: Region)
    requires Inv(s) && r !in s.present
    ensures Space.Inv(s.space) && Runs.Vacant(s.space, Low(r) / PAGE, PagesOf(r))
  {
    RegionPages(r);
    hide Space.Inv;
  }

  lemma RegionIsWithin(s: State, r: Region)
    requires Inv(s)
    ensures Space.Inv(s.space) && Runs.Within(s.space, Low(r) / PAGE, PagesOf(r)) && Low(r) < TWO32
  {}

  /** Mapping a region: all of it or nothing. */
  lemma MapRegion(s: Space.State, r: Region)
    requires Space.Inv(s) && Untouched(s, Low(r), High(r))
    ensures var (t, ok) := Space.AllocateUserSpace(s, Low(r) / PAGE, PagesOf(r));
            && Space.Inv(t) && OnlyIn(s, t, Low(r), High(r)) && NewFlags(s, t, RollsBack)
            && (if ok then PagesMapped(t, Low(r), High(r)) else OnlyIn(s, t, Low(r), Low(r)) && Untouched(t, Low(r), High(r)))
  {
    RegionPages(r);
    RangeGrown(s, Low(r), Low(r), PagesOf(r), RollsBack, High(r));
    hide Low, High, Space.Inv, OnlyIn, NewFlags, PagesMapped, Untouched, Space.AllocateUserSpace, LosesPage, PagesOf;
    var (t, k) := Grow(s, Low(r), PagesOf(r), RollsBack);
    OnlyInWider(s, t, Low(r), Low(r) + k * PAGE, Low(r), High(r));
  }

  /** Taking a region away again. */
  lemma UnmapRegion(s: Space.State, r: Region)
    requires Space.Inv(s) && PagesMapped(s, Low(r), High(r)) && Runs.Within(s, Low(r) / PAGE, PagesOf(r))
    ensures var t := Space.Release(s, Low(r) / PAGE, PagesOf(r));
            Space.Inv(t) && OnlyIn(s, t, Low(r), High(r)) && Untouched(t, Low(r), High(r))
  {
    RegionPages(r);
    Runs.ReleaseKeepsInv(s, Low(r) / PAGE, PagesOf(r));
    Runs.ReleaseEffect(s, Low(r) / PAGE, PagesOf(r));
    hide Low, High, Space.Inv, Space.Release, PagesMapped;
    ReleasedIsOnlyIn(s, Space.Release(s, Low(r) / PAGE, PagesOf(r)), Low(r), High(r));
  }

  function Other(r: Region): Region { if r.Code? then Stack else Code }

  lemma RegionsAreApart(s: State, r: Region)
    requires Placed(s)
    ensures High(r) <= Low(Other(r)) || High(Other(r)) <= Low(r)
    ensures High(r) <= s.user.base || s.utop <= Low(r)
    ensures High(r) <= s.kernel.base && s.utop <= s.kernel.base
  {}

  lemma RegionUserPages(s: State, t: State, r: Region, v: nat)
    requires Placed(s) && t == s.(space := t.space, present := t.present)
    ensures t.present == s.present + {r} ==> (UserPage(t, v) <==> UserPage(s, v) || InPages(v, Low(r), High(r)))
    ensures t.present == s.present - {r} ==> (UserPage(t, v) <==> UserPage(s, v) && !InPages(v, Low(r), High(r)))
  {}

  lemma RegionStep(s: State, t: State, r: Region)
    requires Inv(s) && t == s.(space := t.space, present := t.present) && Space.Inv(t.space)
    requires OnlyIn(s.space, t.space, Low(r), High(r)) && RegionOk(t.space, r, t.present)
    requires Other(r) in t.present <==> Other(r) in s.present
    ensures Placed(t) && HeapOk(t.kernel, t.space, t.ktop, KeepsPages) && HeapOk(t.user, t.space, t.utop, RollsBack)
    ensures RegionOk(t.space, Code, t.present) && RegionOk(t.space, Stack, t.present)
  {
    RegionsAreApart(s, r);
    hide Low, High, Space.Inv, HeapOk, RegionOk, OnlyIn, Isolated;
    HeapKept(s.kernel, s.space, t.space, s.ktop, KeepsPages, Low(r), High(r));
    HeapKept(s.user, s.space, t.space, s.utop, RollsBack, Low(r), High(r));
    RegionKept(s.space, t.space, Other(r), s.present, t.present, Low(r), High(r));
  }

  lemma MapKeepsInv(s: State, r: Region)
    requires Inv(s) && r !in s.present
    ensures Inv(Step(s, Map(r)))
  {
    hide Low, High, PagesOf, Space.Inv, HeapOk, OnlyIn, Isolated, NewFlags, Untouched, PagesMapped, Runs.Within, Space.AllocateUserSpace;
    var t := Step(s, Map(r));
    MapRegion(s.space, r);
    KeepsWithin(s.space, t.space, r);
    RegionStep(s, t, r);
    if r in t.present { MappedIsolated(s, t, r); } else { UnchangedIsolated(s, t, r); }
  }

  lemma MappedIsolated(s: State, t: State, r: Region)
    requires Inv(s) && t == s.(space := t.space, present := s.present + {r}) && Space.Inv(t.space)
    requires OnlyIn(s.space, t.space, Low(r), High(r)) && NewFlags(s.space, t.space, RollsBack)
    requires Untouched(s.space, Low(r), High(r)) && PagesMapped(t.space, Low(r), High(r))
    ensures Isolated(t)
  {
    RegionPages(r);
    hide Low, High, PagesOf, Space.Inv, OnlyIn, Isolated, NewFlags, Untouched, PagesMapped, UserPage, Space.UserReaches, InPages;
    forall v: nat ensures UserPage(t, v) <==> UserPage(s, v) || InPages(v, Low(r), High(r)) { RegionUserPages(s, t, r, v); }
    forall v: nat | InPages(v, Low(r), High(r)) ensures Space.UserReaches(t.space, v) {
      ReachNew(s.space, t.space, Low(r), High(r), High(r), RollsBack, v);
    }
    IsolationKept(s, t, Low(r), High(r));
  }

  lemma UnchangedIsolated(s: State, t: State, r: Region)
    requires Inv(s) && t == s.(space := t.space) && Space.Inv(t.space) && OnlyIn(s.space, t.space, Low(r), Low(r))
    ensures Isolated(t)
  {
    RegionPages(r);
    hide Low, High, PagesOf, Space.Inv, OnlyIn, Isolated, UserPage, Space.UserReaches, InPages;
    forall v: nat ensures UserPage(t, v) <==> UserPage(s, v) { SameUserPages(s, t, v); }
    forall v: nat ensures !InPages(v, Low(r), Low(r)) { NoPageInside(v, Low(r)); }
    IsolationKept(s, t, Low(r), Low(r));
  }

  lemma NoPageInside(v: nat, a: nat)
    ensures !InPages(v, a, a)
  {}

  lemma KeepsWithin(s: Space.State, t: Space.State, r: Region)
    requires Runs.Within(s, Low(r) / PAGE, PagesOf(r)) && OnlyIn(s, t, Low(r), High(r))
    ensures Runs.Within(t, Low(r) / PAGE, PagesOf(r))
  {}

  lemma UnmapKeepsInv(s: State, r: Region)
    requires Inv(s) && r in s.present
    ensures Inv(Step(s, Unmap(r)))
  {
    hide Low, High, PagesOf, Space.Inv, HeapOk, OnlyIn, Isolated, Untouched, PagesMapped, Runs.Within, Space.Release;
    var t := Step(s, Unmap(r));
    UnmapRegion(s.space, r);
    KeepsWithin(s.space, t.space, r);
    RegionStep(s, t, r);
    UnmappedIsolated(s, t, r);
  }

  lemma UnmappedIsolated(s: State, t: State, r: Region)
    requires Inv(s) && t == s.(space := t.space, present := s.present - {r}) && Space.Inv(t.space)
    requires OnlyIn(s.space, t.space, Low(r), High(r)) && Untouched(t.space, Low(r), High(r))
    ensures Isolated(t)
  {
    RegionPages(r);
    hide Low, High, PagesOf, Space.Inv, OnlyIn, Isolated, Untouched, UserPage, Space.UserReaches, InPages;
    forall v: nat ensures UserPage(t, v) <==> UserPage(s, v) && !InPages(v, Low(r), High(r)) { RegionUserPages(s, t, r, v); }
    forall v: nat | InPages(v, Low(r), High(r)) ensures !Space.UserReaches(t.space, v) {
      UntouchedIsOutOfReach(t.space, Low(r), High(r), v);
    }
    IsolationKept(s, t, Low(r), High(r));
  }

  lemma UntouchedIsOutOfReach(s: Space.State, a: nat, b: nat, v: nat)
    requires Untouched(s, a, b) && InPages(v, a, b)
    ensures !Space.UserReaches(s, v)
  {
    UntouchedPage(s, a, b, v);
  }

  // ---------------------------------------------------------------- runs

  /** Every call of any of the allocators leaves all of them, and the user program's isolation, in order. */
  lemma StepKeepsInv(s: State, op: Op)
    requires Inv(s) && Legal(s, op)
    ensures Inv(Step(s, op))
  {
    hide Inv, Step;
    match op
    case Kmalloc(n) => KmallocKeepsInv(s, n);
    case Kfree(p) => KfreeKeepsInv(s, p);
    case Umalloc(n) => UmallocKeepsInv(s, n);
    case Ufree(p) => UfreeKeepsInv(s, p);
    case Map(r) => MapKeepsInv(s, r);
    case Unmap(r) => UnmapKeepsInv(s, r);
  }

  ghost predicate LegalRun(s: State, ops: seq<Op>)
    decreases |ops|
  {
    ops == [] || (Legal(s, ops[0]) && LegalRun(Step(s, ops[0]), ops[1..]))
  }

  ghost function Run(s: State, ops: seq<Op>): State
    requires LegalRun(s, ops)
    decreases |ops|
  {
    if ops == [] then s else Run(Step(s, ops[0]), ops[1..])
  }

  /**
   Safety of the whole system: in every run of kernel heap, user heap and user regions over one address
   space, out of memory anywhere, both heaps stay sound, the rest of each range stays untouched, the user
   program's pages stay mapped, and user mode reaches these pages and no others.
   */
  lemma {:induction false} RunKeepsInv(s: State, ops: seq<Op>)
    requires Inv(s) && LegalRun(s, ops)
    ensures Inv(Run(s, ops))
    decreases |ops|
  {
    hide Inv, Step, Legal;
    if ops != [] {
      StepKeepsInv(s, ops[0]);
      RunKeepsInv(Step(s, ops[0]), ops[1..]);
    }
  }

  lemma StepKeepsFixture(s: State, op: Op)
    requires Inv(s) && Legal(s, op)
    ensures Runs.SameFixture(s.space, Step(s, op).space)
  {
    hide Space.Inv, PagesMapped, LosesPage, Untouched, NewFlags, Runs.TablesGrow, Isolated;
    match op
    case Kmalloc(n) => AllocEffect(s.kernel, s.space, n, KeepsPages, s.ktop);
    case Umalloc(n) => AllocEffect(s.user, s.space, n, RollsBack, s.utop);
    case Map(r) => MapRegion(s.space, r);
    case Unmap(r) => UnmapRegion(s.space, r);
    case _ =>
  }

  /** No call changes which frames are set apart for good. */
  lemma {:induction false} RunKeepsFixture(s: State, ops: seq<Op>)
    requires Inv(s) && LegalRun(s, ops)
    ensures Runs.SameFixture(s.space, Run(s, ops).space)
    decreases |ops|
  {
    hide Inv, Step, Legal;
    if ops != [] {
      StepKeepsInv(s, ops[0]);
      StepKeepsFixture(s, ops[0]);
      RunKeepsFixture(Step(s, ops[0]), ops[1..]);
    }
  }

  /** Expansions of the kernel heap in the run that count a page they could not map. */
  ghost predicate LosesPages(s: State, ops: seq<Op>)
    requires LegalRun(s, ops)
    decreases |ops|
  {
    ops != [] && (StepLosesPage(s, ops[0]) || LosesPages(Step(s, ops[0]), ops[1..]))
  }

  ghost predicate StepLosesPage(s: State, op: Op) {
    op.Kmalloc? && Spec.Expands(s.kernel, op.n) && LosesPage(s.space, s.kernel.end, Spec.Pages(op.n), KeepsPages)
  }

  ghost predicate KernelHeapMapped(s: State) { PagesMapped(s.space, s.kernel.base, s.kernel.end) }

  lemma StepMapsKernelHeap(s: State, op: Op)
    requires Inv(s) && Legal(s, op)
    ensures KernelHeapMapped(Step(s, op)) <==> KernelHeapMapped(s) && !StepLosesPage(s, op)
  {
    hide Space.Inv, PagesMapped, LosesPage, Untouched, NewFlags, HeapOk, RegionOk, Isolated, Low, High, PagesOf;
    var t := Step(s, op);
    match op
    case Kmalloc(n) => AllocEffect(s.kernel, s.space, n, KeepsPages, s.ktop);
    case Kfree(p) => FreeKeepsHeapOk(s.kernel, s.space, s.ktop, KeepsPages, p);
    case Umalloc(n) =>
      AllocEffect(s.user, s.space, n, RollsBack, s.utop);
      HeapOkBounds(t.user, t.space, t.utop, RollsBack);
      RegionsAreApart(s, Stack);
      KernelHeapKept(s, t, s.user.end, t.user.end);
    case Ufree(p) =>
    case Map(r) =>
      MapUntouched(s, r);
      MapRegion(s.space, r);
      RegionsAreApart(s, r);
      KernelHeapKept(s, t, Low(r), High(r));
    case Unmap(r) =>
      MappedWithin(s, r);
      UnmapRegion(s.space, r);
      RegionsAreApart(s, r);
      KernelHeapKept(s, t, Low(r), High(r));
  }

  lemma KernelHeapKept(s: State, t: State, a: nat, b: nat)
    requires OnlyIn(s.space, t.space, a, b) && b <= s.kernel.base && t.kernel == s.kernel
    ensures KernelHeapMapped(t) <==> KernelHeapMapped(s)
  {
    OtherRangesKept(s.space, t.space, a, b, s.kernel.base, s.kernel.end);
  }

  lemma HeapOkBounds(h: Spec.State, s: Space.State, top: nat, g: Growth)
    requires HeapOk(h, s, top, g)
    ensures h.base <= h.end <= top
  {}

  lemma MapUntouched(s: State, r: Region)
    requires Inv(s) && r !in s.present
    ensures Untouched(s.space, Low(r), High(r))
  {}

  lemma MappedWithin(s: State, r: Region)
    requires Inv(s) && r in s.present
    ensures PagesMapped(s.space, Low(r), High(r)) && Runs.Within(s.space, Low(r) / PAGE, PagesOf(r))
  {}

  /** Over a run the whole kernel heap stays mapped if and only if none of its expansions loses a page. */
  lemma {:induction false} KernelHeapStaysMappedIff(s: State, ops: seq<Op>)
    requires Inv(s) && LegalRun(s, ops)
    ensures KernelHeapMapped(Run(s, ops)) <==> KernelHeapMapped(s) && !LosesPages(s, ops)
    decreases |ops|
  {
    hide Inv, Step, Legal, KernelHeapMapped, StepLosesPage;
    if ops != [] {
      StepKeepsInv(s, ops[0]);
      StepMapsKernelHeap(s, ops[0]);
      KernelHeapStaysMappedIff(Step(s, ops[0]), ops[1..]);
    }
  }

  /** Every byte of a block lies in a mapped page, headers included, when the heap's pages are mapped. */
  lemma BlocksAreMapped(h: Spec.State, s: Space.State, g: Growth, b: Block, x: nat)
    requires Spec.Inv(h, g) && PagesMapped(s, h.base, h.end) && b in h.chain && b.addr <= x < b.End()
    ensures x / PAGE in s.pages
  {
    BlockInHeap(h, g, b);
    ByteInPages(x, h.base, h.end);
    hide Spec.Inv, PagesMapped;
    MappedPage(s, h.base, h.end, x / PAGE);
  }

  lemma BlockInHeap(h: Spec.State, g: Growth, b: Block)
    requires Spec.Inv(h, g) && b in h.chain
    ensures h.base <= b.addr && b.End() <= h.end
  {
    LayoutBounds(h.chain, h.base, h.end, g.RollsBack?);
  }

  lemma ByteInPages(x: nat, a: nat, b: nat)
    requires a % PAGE == 0 && b % PAGE == 0 && a <= x < b
    ensures InPages(x / PAGE, a, b)
  {}

  /** What the user program was given it can use: user mode reaches every byte of a umalloc block. */
  lemma UserBlocksAreInReach(s: State, b: Block, x: nat)
    requires Inv(s) && b in s.user.chain && b.addr <= x < b.End()
    ensures Space.UserReaches(s.space, x / PAGE)
  {
    BlockInHeap(s.user, RollsBack, b);
    AlignedStart(s.space, s.user.end, s.utop);
    ByteInPages(x, s.user.base, s.user.end);
    hide InPages, HeapOk;
  }

  /** And user mode reaches nothing of the kernel heap. */
  lemma KernelBlocksAreOutOfReach(s: State, b: Block, x: nat)
    requires Inv(s) && b in s.kernel.chain && b.addr <= x < b.End()
    ensures !Space.UserReaches(s.space, x / PAGE)
  {
    BlockInHeap(s.kernel, KeepsPages, b);
    AlignedStart(s.space, s.kernel.end, s.ktop);
    ByteInPages(x, s.kernel.base, s.kernel.end);
    hide InPages, HeapOk, UserPage;
    KernelRangeIsNotUser(s, x / PAGE, s.kernel.base, s.kernel.end);
  }

  // ---------------------------------------------------------------- frames of the user program

  lemma InPagesIsWithin(s: Space.State, a: nat, b: nat, v: nat)
    requires a % PAGE == 0 && b % PAGE == 0 && a <= b && Runs.Within(s, a / PAGE, (b - a) / PAGE) && InPages(v, a, b)
    ensures v in s.managed && v < Space.PAGES
  {
    PageOfRange(a, b, v);
  }

  lemma UserPagesAreManaged(s: State, v: nat)
    requires Inv(s) && UserPage(s, v)
    ensures v in s.space.managed && v < Space.PAGES
  {
    AlignedStart(s.space, s.user.end, s.utop);
    RegionPages(Code);
    RegionPages(Stack);
    hide Space.Inv, Spec.Inv, Isolated, Runs.Within, Low, High;
    if InPages(v, s.user.base, s.user.end) {
      AlignedTop(s.space, s.user.end, s.utop);
      assert InPages(v, s.user.base, s.utop);
      InPagesIsWithin(s.space, s.user.base, s.utop, v);
    } else if Code in s.present && InPages(v, Low(Code), High(Code)) {
      InPagesIsWithin(s.space, Low(Code), High(Code), v);
    } else {
      InPagesIsWithin(s.space, Low(Stack), High(Stack), v);
    }
  }

  lemma AlignedTop(s: Space.State, a: nat, top: nat)
    requires Untouched(s, a, top)
    ensures top % PAGE == 0
  {}

  /**
   The frame behind a page of the user program is the page's alone: no page table, no frame of the kernel
   or otherwise set apart, not up for allocation, and behind no other page of either heap or region.
   */
  lemma UserFramesArePrivate(s: State, v: nat)
    requires Inv(s) && UserPage(s, v)
    ensures v in s.space.pages
    ensures var f := s.space.pages[v].frame;
            && f !in Space.TableFrames(s.space) && f !in s.space.reserved && f !in s.space.free && f !in s.space.held
            && forall w | w in s.space.managed && w in s.space.pages && w != v :: s.space.pages[w].frame != f
  {
    UserPagesAreManaged(s, v);
    assert Space.UserReaches(s.space, v);
    hide UserPage, HeapOk, RegionOk, Placed;
    FrameIsPrivate(s.space, v);
  }

  lemma FrameIsPrivate(s: Space.State, v: nat)
    requires Space.Inv(s) && v in s.managed && v in s.pages
    ensures var f := s.pages[v].frame;
            && f !in Space.TableFrames(s) && f !in s.reserved && f !in s.free && f !in s.held
            && forall w | w in s.managed && w in s.pages && w != v :: s.pages[w].frame != f
  {
    assert v in Space.Mapped(s) && s.pages[v].frame in Space.Backing(s);
    forall w | w in s.managed && w in s.pages && w != v ensures s.pages[w].frame != s.pages[v].frame {
      assert w in Space.Mapped(s);
    }
  }

  // ---------------------------------------------------------------- live blocks over a run

  lemma AllocKeepsLive(h: Spec.State, s: Space.State, n: nat, g: Growth)
    requires Spec.SizeOk(n) && Spec.Inv(h, g)
    ensures Live(h.chain) <= Live(Alloc(h, s, n, g).0.chain)
  {
    var b := Spec.MallocKeepsInv(h, n, Grow(s, h.end, Spec.Pages(n), g).1, g);
    hide Spec.Inv, Spec.Malloc, Live, Grow;
  }

  lemma FreeKeepsOthers(h: Spec.State, g: Growth, p: nat, b: Block)
    requires Spec.Inv(h, g) && (p == 0 || Spec.IsLive(h.chain, p)) && b in Live(h.chain) && b.Payload() != p
    ensures b in Live(Spec.Free(h, p).chain)
  {
    if p != 0 { Spec.FreeKeepsInv(h, p, g); }
    hide Spec.Inv, Live;
  }

  lemma StepKeepsLive(s: State, op: Op)
    requires Inv(s) && Legal(s, op)
    ensures forall b | b in Live(s.kernel.chain) && op != Kfree(b.Payload()) :: b in Live(Step(s, op).kernel.chain)
    ensures forall b | b in Live(s.user.chain) && op != Ufree(b.Payload()) :: b in Live(Step(s, op).user.chain)
  {
    hide Space.Inv, Isolated, Spec.Inv, Live, Untouched, PagesMapped, Spec.Free, Alloc;
    match op
    case Kmalloc(n) => AllocKeepsLive(s.kernel, s.space, n, KeepsPages);
    case Umalloc(n) => AllocKeepsLive(s.user, s.space, n, RollsBack);
    case Kfree(p) =>
      forall b | b in Live(s.kernel.chain) && b.Payload() != p ensures b in Live(Step(s, op).kernel.chain) {
        FreeKeepsOthers(s.kernel, KeepsPages, p, b);
      }
    case Ufree(p) =>
      forall b | b in Live(s.user.chain) && b.Payload() != p ensures b in Live(Step(s, op).user.chain) {
        FreeKeepsOthers(s.user, RollsBack, p, b);
      }
    case _ =>
  }

  /**
   Over every run of the whole system a live block of either heap keeps its address and size until its
   own pointer is freed, whatever the other heap, the regions and failing expansions do.
   */
  lemma {:induction false} LiveBlocksPersist(s: State, ops: seq<Op>)
    requires Inv(s) && LegalRun(s, ops)
    ensures forall b | b in Live(s.kernel.chain) && Kfree(b.Payload()) !in ops :: b in Live(Run(s, ops).kernel.chain)
    ensures forall b | b in Live(s.user.chain) && Ufree(b.Payload()) !in ops :: b in Live(Run(s, ops).user.chain)
    decreases |ops|
  {
    hide Inv, Step, Legal, Live;
    if ops != [] {
      StepKeepsInv(s, ops[0]);
      StepKeepsLive(s, ops[0]);
      LiveBlocksPersist(Step(s, ops[0]), ops[1..]);
      assert forall x | x !in ops :: x != ops[0] && x !in ops[1..];
    }
  }

  // ---------------------------------------------------------------- the first allocation, in literal numbers

  /** Frames for an allocation of `n` bytes in a fresh range: its pages, and a page table for every 4 MiB. */
  function FramesFor(n: nat): nat { PagesFor(n) + (PagesFor(n) + 1023) / 1024 }

  /** 4 KiB pages for `n` bytes and a 12-byte header. */
  function PagesFor(n: nat): nat { (n + 12 + 4095) / 4096 }

  lemma PagesForIsPages(n: nat)
    requires Spec.SizeOk(n)
    ensures PagesFor(n) == Spec.Pages(n) && PagesFor(n) > 0
  {}

  /** The range above `a`, which starts a slot, has no page tables yet as far as `n` bytes reach. */
  ghost predicate NoTablesFor(s: Space.State, a: nat, n: nat) {
    forall k | k in s.tables :: !(a / 0x40_0000 <= k < a / 0x40_0000 + (PagesFor(n) + 1023) / 1024)
  }

  /**
   The first allocation of an empty heap: its block starts where the heap does, twelve bytes after that its
   payload. It succeeds exactly when the frames suffice; the kernel heap's also when they are one short and
   the last page is the first of its 4 MiB.
   */
  lemma FirstAllocation(s: Space.State, a: nat, n: nat, g: Growth, top: nat)
    requires Space.Inv(s) && Untouched(s, a, top) && 0 < a && a % 0x40_0000 == 0 && 0 < n
    requires Spec.SizeOk(n) && a + PagesFor(n) * 4096 <= top && NoTablesFor(s, a, n)
    ensures var (h', t, p) := Alloc(Spec.State(a, [], a, 0), s, n, g);
            var ok := |s.free| >= FramesFor(n)
                      || (g.KeepsPages? && |s.free| == FramesFor(n) - 1 && PagesFor(n) % 1024 == 1);
            && p == (if ok then a + 12 else 0)
            && (ok ==> h'.end == a + PagesFor(n) * 4096)
  {
    hide Grow, Space.Inv, Untouched, OnlyIn, PagesMapped, GrowthReported, LosesPage, NewFlags, NoTablesFor, FramesFor, PagesFor;
    hide Spec.Malloc, Spec.Pages, Spec.SizeOk;
    PagesForIsPages(n);
    AlignedSlot(a);
    GrowthMaps(s, a, PagesFor(n), g, top);
    FirstGrowth(s, a, n, g);
    Spec.FirstMalloc(a, n, Grow(s, a, PagesFor(n), g).1, g);
    assert FirstFit([], n) == 0;
  }

  lemma AlignedSlot(a: nat)
    requires a % 0x40_0000 == 0
    ensures a % PAGE == 0 && a / PAGE % 1024 == 0 && a / PAGE / 1024 == a / 0x40_0000
  {
    var q := a / 0x40_0000;
    assert a == q * 1024 * 4096;
    assert a / 4096 == q * 1024;
  }

  lemma FirstGrowth(s: Space.State, a: nat, n: nat, g: Growth)
    requires Space.Inv(s) && a % 0x40_0000 == 0 && 0 < PagesFor(n) && NoTablesFor(s, a, n)
    ensures GrowthReported(s, a, PagesFor(n), g) <==>
            || |s.free| >= FramesFor(n)
            || (g.KeepsPages? && |s.free| == FramesFor(n) - 1 && PagesFor(n) % 1024 == 1)
  {
    hide Space.Inv, Runs.Missing, PagesFor, Runs.LastPageOpensSlot;
    var v, k := a / PAGE, PagesFor(n);
    AlignedSlot(a);
    Runs.FreshSlots(s.tables.Keys, v, k);
    LastPageIsFirst(s, v, k);
  }

  lemma LastPageIsFirst(s: Space.State, v: nat, k: nat)
    requires v % 1024 == 0 && 0 < k
    requires forall i | i in s.tables :: !(v / 1024 <= i < v / 1024 + (k + 1023) / 1024)
    ensures Runs.LastPageOpensSlot(s, v, k) <==> k % 1024 == 1
  {
    assert Space.Slot(v + k - 1) == v / 1024 + (k - 1) / 1024;
    assert k > 1 ==> Space.Slot(v + k - 2) == v / 1024 + (k - 2) / 1024;
  }

  /** The first kmalloc returns 0xD000000C, the first umalloc 0x5000000C, or NULL. */
  lemma FirstPointers(s: State, n: nat)
    requires Inv(s) && 0 < n && Spec.SizeOk(n)
    requires s.kernel == Spec.State(0xD000_0000, [], 0xD000_0000, 0) && s.user == Spec.State(0x5000_0000, [], 0x5000_0000, 0)
    ensures 0xD000_0000 + PagesFor(n) * 4096 <= s.ktop && NoTablesFor(s.space, 0xD000_0000, n) ==>
              var p := Alloc(s.kernel, s.space, n, KeepsPages).2;
              && p == (if |s.space.free| >= FramesFor(n) || (|s.space.free| == FramesFor(n) - 1 && PagesFor(n) % 1024 == 1)
                       then 0xD000_000C else 0)
    ensures 0x5000_0000 + PagesFor(n) * 4096 <= s.utop && NoTablesFor(s.space, 0x5000_0000, n) ==>
              var p := Alloc(s.user, s.space, n, RollsBack).2;
              && p == (if |s.space.free| >= FramesFor(n) then 0x5000_000C else 0)
  {
    hide Space.Inv, Untouched, PagesMapped, Isolated, Alloc, FramesFor, PagesFor, NoTablesFor;
    if 0xD000_0000 + PagesFor(n) * 4096 <= s.ktop && NoTablesFor(s.space, 0xD000_0000, n) {
      FirstAllocation(s.space, 0xD000_0000, n, KeepsPages, s.ktop);
    }
    if 0x5000_0000 + PagesFor(n) * 4096 <= s.utop && NoTablesFor(s.space, 0x5000_0000, n) {
      FirstAllocation(s.space, 0x5000_0000, n, RollsBack, s.utop);
    }
  }

  /** After boot both heaps are empty at these addresses. */
  lemma InitialHeaps(s: Space.State, ktop: nat, utop: nat)
    ensures Initial(s, ktop, utop).kernel == Spec.State(0xD000_0000, [], 0xD000_0000, 0)
    ensures Initial(s, ktop, utop).user == Spec.State(0x5000_0000, [], 0x5000_0000, 0)
  {}

  /** Page 0x40000 is the program's, and pages 0xBFFFB to 0xBFFFE are its stack. */
  lemma ProgramPages(s: State)
    requires Inv(s)
    ensures Space.UserReaches(s.space, 0x4_0000) <==> Code in s.present
    ensures forall v: nat | 0xB_FFFB <= v <= 0xB_FFFE :: Space.UserReaches(s.space, v) <==> Stack in s.present
    ensures !Space.UserReaches(s.space, 0x4_0001) || s.user.base <= 0x4000_1000
    ensures !Space.UserReaches(s.space, 0xB_FFFF) && (!Space.UserReaches(s.space, 0xB_FFFA) || 0xBFFF_B000 <= s.user.end)
  {
    hide Space.Inv, Spec.Inv, Untouched, PagesMapped, Space.UserReaches, HeapOk, RegionOk;
  }
}
