/** What growing a heap does to the address space it grows into, and to everything else that lives there. */
module HeapPages {
  import opened Basics
  import opened HeapChain
  import opened Space
  import Runs = SpaceRuns

  // ---------------------------------------------------------------- ranges of addresses

  /** Every page from address `a` to `top` is the allocator's to map, and none is mapped yet. */
  ghost predicate Untouched(s: State, a: nat, top: nat) {
    a % PAGE == 0 && top % PAGE == 0 && a <= top <= TWO32 && Runs.Vacant(s, a / PAGE, (top - a) / PAGE)
  }

  /** Every page of `[a, b)` is mapped. */
  ghost predicate PagesMapped(s: State, a: nat, b: nat) {
    a % PAGE == 0 && b % PAGE == 0 && a <= b && Runs.AllMapped(s, a / PAGE, (b - a) / PAGE)
  }

  /** Outside the addresses `[a, b)` no translation differs; tables and fixed parts are kept everywhere. */
  ghost predicate OnlyIn(s: State, t: State, a: nat, b: nat) {
    && Runs.SameFixture(s, t) && Runs.TablesGrow(s, t)
    && forall w: nat | (w + 1) * PAGE <= a || b <= w * PAGE :: SamePage(s, t, w)
  }

  ghost predicate SamePage(s: State, t: State, w: nat) {
    (w in t.pages <==> w in s.pages) && (w in s.pages ==> t.pages[w] == s.pages[w])
  }

  lemma PageOfRange(a: nat, b: nat, w: nat)
    requires a % PAGE == 0 && b % PAGE == 0 && a <= b
    ensures a / PAGE <= w < a / PAGE + (b - a) / PAGE <==> a <= w * PAGE && (w + 1) * PAGE <= b
    ensures a / PAGE <= w < a / PAGE + (b - a) / PAGE <==> !((w + 1) * PAGE <= a || b <= w * PAGE)
  {}

  /** A range apart from the one that changed stays as it was, mapped or untouched. */
  lemma OtherRangesKept(s: State, t: State, a: nat, b: nat, c: nat, d: nat)
    requires OnlyIn(s, t, a, b) && (d <= a || b <= c)
    ensures Untouched(t, c, d) <==> Untouched(s, c, d)
    ensures PagesMapped(t, c, d) <==> PagesMapped(s, c, d)
  {
    if c % PAGE == 0 && d % PAGE == 0 && c <= d {
      forall w: nat | c / PAGE <= w < c / PAGE + (d - c) / PAGE ensures w in t.pages <==> w in s.pages {
        PageOfRange(c, d, w);
        assert SamePage(s, t, w);
      }
    }
  }

  lemma OnlyInKeepsWithin(s: State, t: State, a: nat, b: nat, v: nat, n: nat)
    requires OnlyIn(s, t, a, b)
    ensures Runs.Within(t, v, n) <==> Runs.Within(s, v, n)
  {}

  lemma OnlyInWider(s: State, t: State, a: nat, b: nat, c: nat, d: nat)
    requires OnlyIn(s, t, a, b) && c <= a && b <= d
    ensures OnlyIn(s, t, c, d)
  {}

  lemma OnlyInItself(s: State, a: nat, b: nat)
    ensures OnlyIn(s, s, a, b)
  {}

  /** Adjacent ranges: the first one was there before, the second one is new. */
  lemma PagesMappedJoin(s: State, t: State, base: nat, a: nat, b: nat)
    requires OnlyIn(s, t, a, b) && base % PAGE == 0 && a % PAGE == 0 && b % PAGE == 0 && base <= a <= b
    ensures PagesMapped(t, base, b) <==> PagesMapped(s, base, a) && PagesMapped(t, a, b)
  {
    OtherRangesKept(s, t, a, b, base, a);
    assert base / PAGE + (a - base) / PAGE == a / PAGE && (b - base) / PAGE == (a - base) / PAGE + (b - a) / PAGE;
  }

  /** After a release the range is untouched again, and nothing else changed. */
  lemma ReleasedIsOnlyIn(s: State, t: State, a: nat, b: nat)
    requires a % PAGE == 0 && b % PAGE == 0 && a <= b <= TWO32
    requires Runs.Within(s, a / PAGE, (b - a) / PAGE) && Runs.Released(s, t, a / PAGE, (b - a) / PAGE)
    ensures OnlyIn(s, t, a, b) && Untouched(t, a, b)
  {
    forall w: nat | (w + 1) * PAGE <= a || b <= w * PAGE ensures SamePage(s, t, w) { PageOfRange(a, b, w); }
  }

  // ---------------------------------------------------------------- one expansion

  /** Enough free frames for `n` pages from address `a` on, page tables included. */
  ghost predicate FramesSuffice(s: State, a: nat, n: nat) {
    |s.free| >= Runs.Demand(s, a / PAGE, n)
  }

  /**
   When the page loop of an expansion reports success. The kernel heap's loop also does so one frame
   short, if its last page opens a slot without a page table.
   */
  ghost predicate GrowthReported(s: State, a: nat, n: nat, g: Growth) {
    || FramesSuffice(s, a, n)
    || (g.KeepsPages? && |s.free| == Runs.Demand(s, a / PAGE, n) - 1 && Runs.LastPageOpensSlot(s, a / PAGE, n))
  }

  /** The kernel heap's end moves past a page that its loop could not map. The user heap never does that. */
  ghost predicate LosesPage(s: State, a: nat, n: nat, g: Growth) {
    g.KeepsPages? && Runs.LosesPage(s, a / PAGE, n)
  }

  /** The address space after an expansion by `n` pages at address `a`, and by how many pages the end moves. */
  ghost function Grow(s: State, a: nat, n: nat, g: Growth): (State, nat) {
    if g.KeepsPages? then GrowHeap(s, a / PAGE, n)
    else var (t, ok) := AllocateUserSpace(s, a / PAGE, n); (t, if ok then n else 0)
  }

  /** The claims about one expansion, for the pages `[v, v + k)` it moved the heap's end past. */
  ghost predicate Grown(s: State, t: State, v: nat, k: nat) {
    && Inv(t) && Runs.SameFixture(s, t) && Runs.TablesGrow(s, t)
    && (forall w | w in s.pages :: w in t.pages && t.pages[w] == s.pages[w])
    && (forall w | w in t.pages :: w in s.pages || v <= w < v + k)
  }

  lemma ClaimedIsGrown(s: State, t: State, v: nat, k: nat)
    requires Inv(t) && Runs.Claimed(s, t, v, k)
    ensures Grown(s, t, v, k) && Runs.AllMapped(t, v, k)
  {
    hide Inv, Runs.TablesGrow, Runs.SameFixture;
  }

  lemma RollbackGrown(s: State, v: nat, n: nat)
    requires Inv(s) && Runs.Vacant(s, v, n)
    ensures var (t, ok) := AllocateUserSpace(s, v, n);
            var k := if ok then n else 0;
            Grown(s, t, v, k) && Runs.AllMapped(t, v, k) && (ok <==> |s.free| >= Runs.Demand(s, v, n))
  {
    Runs.AllocateIsAllOrNothing(s, v, n);
    var (t, ok) := AllocateUserSpace(s, v, n);
    hide AllocateUserSpace, Inv, Runs.Demand, Runs.Claimed, Runs.TablesGrow, Runs.SameFixture, Runs.Vacant, TableFrames;
    hide Grown, Runs.AllMapped;
    if ok { ClaimedIsGrown(s, t, v, n); } else { UnchangedIsGrown(s, t, v); }
  }

  lemma UnchangedIsGrown(s: State, t: State, v: nat)
    requires Inv(t) && Runs.SameFixture(s, t) && Runs.TablesGrow(s, t) && t.pages == s.pages
    ensures Grown(s, t, v, 0) && Runs.AllMapped(t, v, 0)
  {}

  lemma KeepingGrown(s: State, v: nat, n: nat)
    requires Inv(s) && Runs.Vacant(s, v, n)
    ensures var (t, k) := GrowHeap(s, v, n);
            && Grown(s, t, v, k) && k <= n
            && (k == n <==> |s.free| >= Runs.Demand(s, v, n)
                            || (|s.free| == Runs.Demand(s, v, n) - 1 && Runs.LastPageOpensSlot(s, v, n)))
            && (Runs.AllMapped(t, v, k) <==> !Runs.LosesPage(s, v, n))
  {
    hide GrowHeap, Inv, Runs.TablesGrow, Runs.SameFixture, Runs.LosesPage, Runs.Demand, Runs.AllMapped;
    Runs.GrowHeapOutcome(s, v, n);
    Runs.GrowHeapKeepsPages(s, v, n);
    Runs.GrowHeapKeepsFixture(s, v, n);
    Runs.GrowHeapKeepsTables(s, v, n);
    Runs.GrowHeapKeepsInv(s, v, n);
  }

  lemma GrowIsGrown(s: State, a: nat, n: nat, g: Growth)
    requires Inv(s) && Runs.Vacant(s, a / PAGE, n)
    ensures var (t, k) := Grow(s, a, n, g);
            && Grown(s, t, a / PAGE, k) && k <= n && (k == n || k == 0 || g.KeepsPages?)
            && (n > 0 ==> (k == n <==> GrowthReported(s, a, n, g)))
            && (Runs.AllMapped(t, a / PAGE, k) <==> !LosesPage(s, a, n, g))
  {
    hide GrowHeap, AllocateUserSpace, Inv, Grown, Runs.Vacant, Runs.Demand, Runs.AllMapped, Runs.LosesPage, Runs.LastPageOpensSlot;
    if g.KeepsPages? { KeepingGrown(s, a / PAGE, n); } else { RollbackGrown(s, a / PAGE, n); }
  }

  lemma GrownIsOnlyIn(s: State, t: State, a: nat, k: nat)
    requires Grown(s, t, a / PAGE, k) && a % PAGE == 0
    ensures OnlyIn(s, t, a, a + k * PAGE)
  {
    forall w: nat | (w + 1) * PAGE <= a || a + k * PAGE <= w * PAGE ensures SamePage(s, t, w) {
      assert !(a / PAGE <= w < a / PAGE + k);
    }
  }

  lemma GrownLeavesRest(s: State, t: State, a: nat, k: nat, top: nat)
    requires Grown(s, t, a / PAGE, k) && Untouched(s, a, top) && a + k * PAGE <= top
    ensures Untouched(t, a + k * PAGE, top)
  {
    assert (a + k * PAGE) / PAGE == a / PAGE + k && (top - (a + k * PAGE)) / PAGE == (top - a) / PAGE - k;
  }

  /**
   Growing one heap: when it is reported as a success, that nothing outside the pages it counts is
   touched, and that all of these are mapped exactly when the frames do not run out on a missing table.
   */
  lemma GrowthMaps(s: State, a: nat, n: nat, g: Growth, top: nat)
    requires Inv(s) && Untouched(s, a, top) && 0 < n && a + n * PAGE <= top
    ensures Runs.Vacant(s, a / PAGE, n)
    ensures var (t, k) := Grow(s, a, n, g);
            && Inv(t) && k <= n && (k == n <==> GrowthReported(s, a, n, g))
            && (g.RollsBack? ==> k == n || k == 0)
            && OnlyIn(s, t, a, a + k * PAGE) && Untouched(t, a + k * PAGE, top)
            && (PagesMapped(t, a, a + k * PAGE) <==> !LosesPage(s, a, n, g))
  {
    hide Grow, Inv, GrowthReported, LosesPage, OnlyIn, PagesMapped, Runs.AllMapped, Runs.Vacant, Runs.TablesGrow, Runs.SameFixture;
    var (t, k) := Grow(s, a, n, g);
    VacantPart(s, a, n, top);
    GrowIsGrown(s, a, n, g);
    GrownIsOnlyIn(s, t, a, k);
    GrownLeavesRest(s, t, a, k, top);
    MappedPages(t, a, k);
  }

  lemma VacantPart(s: State, a: nat, n: nat, top: nat)
    requires Untouched(s, a, top) && a + n * PAGE <= top
    ensures Runs.Vacant(s, a / PAGE, n)
  {
    assert n <= (top - a) / PAGE;
  }

  lemma AlignedStart(s: State, a: nat, top: nat)
    requires Untouched(s, a, top)
    ensures a % PAGE == 0
  {}

  lemma MappedPages(t: State, a: nat, k: nat)
    requires a % PAGE == 0
    ensures PagesMapped(t, a, a + k * PAGE) <==> Runs.AllMapped(t, a / PAGE, k)
  {
    assert (a + k * PAGE) % PAGE == 0 && (a + k * PAGE - a) / PAGE == k;
  }

  /** New pages are kernel pages or user pages, depending on the heap. */
  ghost predicate NewFlags(s: State, t: State, g: Growth) {
    forall w | w in t.pages && w !in s.pages :: t.pages[w].flags == if g.KeepsPages? then 3 else 7
  }

  lemma GrowthFlags(s: State, a: nat, n: nat, g: Growth)
    requires Inv(s) && Runs.Vacant(s, a / PAGE, n)
    ensures NewFlags(s, Grow(s, a, n, g).0, g)
  {
    if g.KeepsPages? {
      Runs.GrowHeapFlags(s, a / PAGE, n);
    } else {
      Runs.AllocateIsAllOrNothing(s, a / PAGE, n);
      hide AllocateUserSpace, Inv, Runs.Demand, Runs.TablesGrow, Runs.SameFixture;
    }
  }

  /** All pages from `base` to the end `b` that growth arrives at: mapped before, and none lost now. */
  lemma RangeGrown(s: State, base: nat, a: nat, n: nat, g: Growth, top: nat)
    requires Inv(s) && base % PAGE == 0 && base <= a && Untouched(s, a, top) && 0 < n && a + n * PAGE <= top
    ensures var (t, k) := Grow(s, a, n, g);
            var b := a + k * PAGE;
            && Inv(t) && k <= n && (g.RollsBack? ==> k == n || k == 0) && b <= top
            && OnlyIn(s, t, a, b) && Untouched(t, b, top) && NewFlags(s, t, g)
            && (g.RollsBack? ==> PagesMapped(t, a, b))
            && (PagesMapped(t, base, b) <==> PagesMapped(s, base, a) && !LosesPage(s, a, n, g))
  {
    hide *;
    var (t, k) := Grow(s, a, n, g);
    GrowthMaps(s, a, n, g, top);
    GrowthFlags(s, a, n, g);
    AlignedStart(s, a, top);
    PageEnds(a, k, n, top);
    PagesMappedJoin(s, t, base, a, a + k * PAGE);
    if g.RollsBack? { NothingLost(s, a, n); }
  }

  lemma PageEnds(a: nat, k: nat, n: nat, top: nat)
    requires a % PAGE == 0 && k <= n && a + n * PAGE <= top
    ensures (a + k * PAGE) % PAGE == 0 && a <= a + k * PAGE <= top
  {}

  /** A heap that rolls back loses no pages. */
  lemma NothingLost(s: State, a: nat, n: nat)
    ensures !LosesPage(s, a, n, RollsBack)
  {}

  lemma UntouchedPage(s: State, a: nat, top: nat, w: nat)
    requires Untouched(s, a, top) && a <= w * PAGE && (w + 1) * PAGE <= top
    ensures w !in s.pages
  {
    PageOfRange(a, top, w);
  }

  lemma MappedPage(s: State, a: nat, b: nat, w: nat)
    requires PagesMapped(s, a, b) && a <= w * PAGE && (w + 1) * PAGE <= b
    ensures w in s.pages
  {
    PageOfRange(a, b, w);
  }

  /** With enough frames no page is lost. */
  lemma EnoughFramesLoseNothing(s: State, a: nat, n: nat, g: Growth, top: nat)
    requires Inv(s) && Untouched(s, a, top) && 0 < n && a + n * PAGE <= top && FramesSuffice(s, a, n)
    ensures !LosesPage(s, a, n, g)
  {
    GrowthMaps(s, a, n, g, top);
    if g.KeepsPages? { Runs.GrowHeapOutcome(s, a / PAGE, n); }
  }
}
