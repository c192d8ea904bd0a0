/** The framebuffer loop of init_paging: what it maps, and when that is the whole framebuffer. */
module Framebuffer {
  import opened Basics
  import opened Space
  import opened SpaceRuns

  /** Mapping pages onto themselves takes frames for tables only and maps nothing else. */
  lemma {:induction false} IdentityRangeKeeps(s: State, v: nat, n: nat)
    ensures var t := IdentityRange(s, v, n);
            && SameFixture(s, t) && t.free <= s.free
            && (forall w | w in t.pages :: w in s.pages || v <= w < v + n)
            && forall w | w in s.pages && !(v <= w < v + n) :: w in t.pages && t.pages[w] == s.pages[w]
    decreases n
  {
    if n > 0 {
      var one := MapPage(s, v, v, KERNEL_FLAGS).0;
      assert SameFixture(s, one) && one.free <= s.free && forall w | w in one.pages :: w in s.pages || w == v;
      assert forall w | w in s.pages && w != v :: w in one.pages && one.pages[w] == s.pages[w];
      hide MapPage;
      IdentityRangeKeeps(one, v + 1, n - 1);
    }
  }

  lemma MissingOne(k: set<nat>, v: nat)
    ensures Missing(k, v, 1) == if Slot(v) in k then 0 else 1
  {
    assert Missing(k + {Slot(v)}, v + 1, 0) == 0;
  }

  lemma MissingFirst(k: set<nat>, v: nat, n: nat)
    requires n > 0
    ensures Missing(k, v, n) == Missing(k, v, 1) + Missing(k + {Slot(v)}, v + 1, n - 1)
  {
    MissingOne(k, v);
  }

  /** Page `w` shows the frame of the same number. */
  ghost predicate ShowsItself(s: State, w: nat) { w in s.pages && s.pages[w] == Entry(w, 3) }

  /** A page that shows itself keeps doing so. */
  lemma {:induction false} IdentityRangeKeepsShown(s: State, v: nat, n: nat, w: nat)
    requires ShowsItself(s, w)
    ensures ShowsItself(IdentityRange(s, v, n), w)
    decreases n
  {
    if n > 0 {
      var one := MapPage(s, v, v, KERNEL_FLAGS).0;
      assert ShowsItself(one, w);
      hide MapPage, ShowsItself;
      IdentityRangeKeepsShown(one, v + 1, n - 1, w);
    }
  }

  /** One turn of the loop, whose map_page result is ignored: the page is mapped, unless a table is missing and no frame is left. */
  ghost predicate IdentityOne(s: State, one: State, v: nat) {
    if Slot(v) in s.tables || s.free != {} then
      && ShowsItself(one, v) && one.tables.Keys == s.tables.Keys + {Slot(v)}
      && |one.free| + Missing(s.tables.Keys, v, 1) == |s.free|
    else one == s && v !in s.pages
  }

  lemma IdentityOneCases(s: State, v: nat)
    requires InRange(s) && v !in s.managed
    ensures IdentityOne(s, MapPage(s, v, v, KERNEL_FLAGS).0, v)
  {
    MissingOne(s.tables.Keys, v);
    hide Missing;
    if Slot(v) in s.tables {
      assert s.tables.Keys + {Slot(v)} == s.tables.Keys;
    } else if s.free != {} {
      assert |s.free - {Least(s.free)}| == |s.free| - 1;
    }
  }

  lemma IdentityOneKeeps(s: State, v: nat)
    requires Inv(s) && v < PAGES && v !in s.managed
    ensures var one := MapPage(s, v, v, KERNEL_FLAGS).0; Inv(one) && one.managed == s.managed
  {
    MapPageKeepsInv(s, v, v, KERNEL_FLAGS);
    MapPageKeepsManaged(s, v, v, KERNEL_FLAGS);
    hide *;
  }

  /** What the loop has done when the frames suffice, and when they do not. */
  ghost predicate IdentityOutcome(s: State, t: State, v: nat, n: nat) {
    if |s.free| >= Missing(s.tables.Keys, v, n) then forall w: nat | v <= w < v + n :: ShowsItself(t, w)
    else exists w: nat :: v <= w < v + n && w !in t.pages
  }

  lemma IdentityStep(s: State, one: State, t: State, v: nat, n: nat)
    requires n > 0 && IdentityOne(s, one, v) && IdentityOutcome(one, t, v + 1, n - 1)
    requires ShowsItself(one, v) ==> ShowsItself(t, v)
    requires v !in one.pages ==> v !in t.pages
    ensures IdentityOutcome(s, t, v, n)
  {
    MissingFirst(s.tables.Keys, v, n);
    MissingOne(s.tables.Keys, v);
    hide Missing, ShowsItself;
    if Slot(v) in s.tables || s.free != {} {
      if |s.free| < Missing(s.tables.Keys, v, n) {
        var w: nat :| v + 1 <= w < v + 1 + (n - 1) && w !in t.pages;
        assert v <= w < v + n;
      }
    } else {
      assert v !in t.pages;
    }
  }

  /** The loop maps all of its pages onto themselves if and only if there are frames for the missing tables. */
  lemma {:induction false} IdentityRangeMapsIff(s: State, v: nat, n: nat)
    requires Inv(s) && v + n <= PAGES && forall w | v <= w < v + n :: w !in s.managed
    ensures IdentityOutcome(s, IdentityRange(s, v, n), v, n)
    decreases n
  {
    hide Inv, MapPage, IdentityOne, SameFixture;
    if n == 0 {
      assert Missing(s.tables.Keys, v, n) == 0;
    } else {
      hide Missing, IdentityOutcome;
      var one := MapPage(s, v, v, KERNEL_FLAGS).0;
      InvIsInRange(s);
      IdentityOneCases(s, v);
      IdentityOneKeeps(s, v);
      IdentityRangeMapsIff(one, v + 1, n - 1);
      IdentityRangeKeeps(one, v + 1, n - 1);
      IdentityStep(s, one, IdentityRange(one, v + 1, n - 1), v, n);
    }
  }

  lemma InvIsInRange(s: State)
    requires Inv(s)
    ensures InRange(s)
  {}

  // ---------------------------------------------------------------- the framebuffer

  /** Turns of the loop over a framebuffer of that many bytes. */
  function PagesFor(bytes: nat): nat { (bytes + PAGE - 1) / PAGE }

  /** The loop reaches the framebuffer's last byte: the part before the first page boundary does not cost it a page. */
  predicate TailIsReached(framebuffer: nat, bytes: nat) { framebuffer % PAGE + bytes <= PagesFor(bytes) * PAGE }

  lemma PageHasByte(framebuffer: nat, bytes: nat, w: nat)
    requires 0 < bytes && framebuffer / PAGE <= w < framebuffer / PAGE + PagesFor(bytes)
    ensures exists a: nat :: framebuffer <= a < framebuffer + bytes && a / PAGE == w
  {
    var a := if w == framebuffer / PAGE then framebuffer else w * PAGE;
    assert framebuffer <= a < framebuffer + bytes && a / PAGE == w;
  }

  lemma ByteHasPage(framebuffer: nat, bytes: nat, a: nat)
    requires framebuffer <= a < framebuffer + bytes
    ensures var v, n := framebuffer / PAGE, PagesFor(bytes);
            v <= a / PAGE <= v + n && (TailIsReached(framebuffer, bytes) ==> a / PAGE < v + n)
  {}

  lemma LastByteHasPage(framebuffer: nat, bytes: nat)
    requires 0 < bytes && !TailIsReached(framebuffer, bytes)
    ensures (framebuffer + bytes - 1) / PAGE == framebuffer / PAGE + PagesFor(bytes)
  {}

  lemma RangeFits(framebuffer: nat, bytes: nat)
    requires 0 < bytes && framebuffer + bytes <= TWO32
    ensures framebuffer / PAGE + PagesFor(bytes) <= PAGES
  {}

  /** Every byte of the framebuffer is reached at its own address. */
  ghost predicate FramebufferMapped(s: State, framebuffer: nat, bytes: nat) {
    forall a: nat | framebuffer <= a < framebuffer + bytes :: ShowsItself(s, a / PAGE)
  }

  /**
   After the loop every byte of the framebuffer is reached at its own address if and only if there were
   frames for the missing page tables, and the loop gets to the last page of a framebuffer that does not
   start on a page boundary, or that page was mapped before.
   */
  lemma FramebufferIsMappedIff(s: State, framebuffer: nat, bytes: nat)
    requires Inv(s) && 0 < bytes && framebuffer + bytes <= TWO32
    requires forall w | framebuffer / PAGE <= w < framebuffer / PAGE + PagesFor(bytes) :: w !in s.managed
    ensures var v, n := framebuffer / PAGE, PagesFor(bytes);
            FramebufferMapped(IdentityRange(s, v, n), framebuffer, bytes) <==>
            && |s.free| >= Missing(s.tables.Keys, v, n)
            && (TailIsReached(framebuffer, bytes) || ShowsItself(s, v + n))
  {
    hide Inv, IdentityRange, Missing, TailIsReached, PagesFor, SameFixture;
    var v, n := framebuffer / PAGE, PagesFor(bytes);
    RangeFits(framebuffer, bytes);
    IdentityRangeMapsIff(s, v, n);
    IdentityRangeKeeps(s, v, n);
    FramebufferByOutcome(s, IdentityRange(s, v, n), framebuffer, bytes);
  }

  lemma FramebufferByOutcome(s: State, t: State, framebuffer: nat, bytes: nat)
    requires 0 < bytes && IdentityOutcome(s, t, framebuffer / PAGE, PagesFor(bytes))
    requires ShowsItself(t, framebuffer / PAGE + PagesFor(bytes)) <==> ShowsItself(s, framebuffer / PAGE + PagesFor(bytes))
    ensures var v, n := framebuffer / PAGE, PagesFor(bytes);
            FramebufferMapped(t, framebuffer, bytes) <==>
            && |s.free| >= Missing(s.tables.Keys, v, n)
            && (TailIsReached(framebuffer, bytes) || ShowsItself(s, v + n))
  {
    hide Missing, TailIsReached, PagesFor;
    var v, n := framebuffer / PAGE, PagesFor(bytes);
    if |s.free| < Missing(s.tables.Keys, v, n) {
      var w: nat :| v <= w < v + n && w !in t.pages;
      PageHasByte(framebuffer, bytes, w);
      var a: nat :| framebuffer <= a < framebuffer + bytes && a / PAGE == w;
      assert !ShowsItself(t, a / PAGE);
    } else {
      hide ShowsItself;
      if TailIsReached(framebuffer, bytes) || ShowsItself(s, v + n) {
        forall a: nat | framebuffer <= a < framebuffer + bytes ensures ShowsItself(t, a / PAGE) {
          ByteHasPage(framebuffer, bytes, a);
        }
      } else {
        LastByteHasPage(framebuffer, bytes);
        var a := framebuffer + bytes - 1;
        assert !ShowsItself(t, a / PAGE);
      }
    }
  }

  /** A framebuffer of 4096 bytes that starts in the middle of a page: its second page stays unmapped. */
  lemma FramebufferTailIsLost(s: State)
    requires 0xFD001 !in s.pages
    ensures var framebuffer, bytes := 0xFD00_0800, 0x1000;
            && (framebuffer + bytes - 1) / PAGE == 0xFD001
            && 0xFD001 !in IdentityRange(s, framebuffer / PAGE, PagesFor(bytes)).pages
  {
    IdentityRangeKeeps(s, 0xFD000, 1);
    hide IdentityRange;
  }

  /** Without a frame for its table no page of a new slot gets mapped, and nobody is told. */
  lemma FramebufferTableIsMissing(s: State, v: nat)
    requires s.free == {} && Slot(v) !in s.tables
    ensures MapPage(s, v, v, KERNEL_FLAGS) == (s, false)
  {}
}
