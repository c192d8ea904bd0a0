/** What the loops of usermem.c and of the kernel heap's expansion do as wholes, and what every run keeps. */
module SpaceRuns {
  import opened Basics
  import opened Space

  /** The range lies in the address space and its frames are the allocator's business. */
  ghost predicate Within(s: State, v: nat, n: nat) {
    v + n <= PAGES && forall w | v <= w < v + n :: w in s.managed
  }

  /** A range as `allocate_user_space` must find it: none of its pages is mapped yet. */
  ghost predicate Vacant(s: State, v: nat, n: nat) {
    Within(s, v, n) && forall w | v <= w < v + n :: w !in s.pages
  }

  /** The parts of the state that no operation ever changes. */
  ghost predicate SameFixture(s: State, t: State) {
    t.frames == s.frames && t.reserved == s.reserved && t.managed == s.managed
  }

  /** Page tables and user-accessible slots are only ever added. */
  ghost predicate TablesGrow(s: State, t: State) {
    && (forall k | k in s.tables :: k in t.tables && t.tables[k] == s.tables[k])
    && s.user <= t.user
  }

  // ---------------------------------------------------------------- counting frames

  /** Page tables that mapping `[v, v + n)` has to create when the slots in `k` have one already. */
  ghost function Missing(k: set<nat>, v: nat, n: nat): nat
    decreases n
  {
    if n == 0 then 0
    else (if Slot(v) in k then 0 else 1) + Missing(k + {Slot(v)}, v + 1, n - 1)
  }

  /** Frames that mapping the whole range costs: one per page and one per missing table. */
  ghost function Demand(s: State, v: nat, n: nat): nat {
    n + Missing(s.tables.Keys, v, n)
  }

  ghost function SlotsOf(v: nat, n: nat): set<nat> {
    set w | v <= w < v + n :: Slot(w)
  }

  lemma {:induction false} MissingCountsSlots(k: set<nat>, v: nat, n: nat)
    ensures Missing(k, v, n) == |SlotsOf(v, n) - k|
    decreases n
  {
    if n == 0 {
      assert SlotsOf(v, n) - k == {};
    } else {
      var rest := SlotsOf(v + 1, n - 1) - (k + {Slot(v)});
      MissingCountsSlots(k + {Slot(v)}, v + 1, n - 1);
      SlotsSplit(v, n);
      if Slot(v) in k {
        assert SlotsOf(v, n) - k == rest;
      } else {
        assert SlotsOf(v, n) - k == rest + {Slot(v)};
      }
    }
  }

  lemma SlotsSplit(v: nat, n: nat)
    requires n > 0
    ensures SlotsOf(v, n) == SlotsOf(v + 1, n - 1) + {Slot(v)}
  {
    forall k | k in SlotsOf(v, n) ensures k in SlotsOf(v + 1, n - 1) + {Slot(v)} {
      var w :| v <= w < v + n && Slot(w) == k;
      assert w == v || v + 1 <= w < v + 1 + (n - 1);
    }
  }

  function Interval(a: nat, b: nat): (s: set<nat>)
    ensures forall k: nat :: k in s <==> a <= k < b
    decreases b
  {
    if a >= b then {} else Interval(a, b - 1) + {b - 1}
  }

  lemma {:induction false} IntervalSize(a: nat, b: nat)
    requires a <= b
    ensures |Interval(a, b)| == b - a
    decreases b
  {
    if a < b { IntervalSize(a, b - 1); }
  }

  /** A range that starts a slot and meets no table needs one table for every 1024 pages, rounded up. */
  lemma FreshSlots(keys: set<nat>, v: nat, n: nat)
    requires v % 1024 == 0 && 0 < n && forall k | k in keys :: !(v / 1024 <= k < v / 1024 + (n + 1023) / 1024)
    ensures Missing(keys, v, n) == (n + 1023) / 1024
  {
    var a, b := v / 1024, v / 1024 + (n + 1023) / 1024;
    forall k: nat ensures k in SlotsOf(v, n) <==> a <= k < b {
      if a <= k < b {
        var w := if k == a then v else k * 1024;
        assert v <= w < v + n && Slot(w) == k;
      }
    }
    assert SlotsOf(v, n) - keys == Interval(a, b);
    MissingCountsSlots(keys, v, n);
    IntervalSize(a, b);
  }

  // ---------------------------------------------------------------- one page

  /** The outcome of a page claim in closed form. */
  ghost function ClaimOutcome(s: State, v: nat): (State, bool) {
    var k := Slot(v);
    if s.free == {} || (k !in s.tables && s.free == {Least(s.free)}) then (s, false)
    else
      var f := Least(s.free);
      var rest := s.free - {f};
      var pages := s.pages[v := Entry(f, USER_FLAGS)];
      if k in s.tables then (s.(free := rest, user := s.user + {k}, pages := pages), true)
      else (s.(free := rest - {Least(rest)}, tables := s.tables[k := Least(rest)],
               user := s.user + {k}, pages := pages), true)
  }

  lemma ClaimOneIsOutcome(s: State, v: nat)
    requires s.free !! s.held && v in s.managed
    ensures ClaimOne(s, v) == ClaimOutcome(s, v)
  {
    if s.free != {} {
      var f := Least(s.free);
      var a := AllocPage(s).0;
      assert a.held - {f} == s.held && a.free + {f} == s.free;
      if Slot(v) !in s.tables {
        if a.free == {} { assert s.free == {f}; }
      }
    }
  }

  /** After `k` turns exactly the first `k` pages are mapped, with user flags; nothing else moved. */
  ghost predicate Claimed(s: State, t: State, v: nat, k: nat) {
    && SameFixture(s, t) && TablesGrow(s, t) && t.held == s.held && t.free <= s.free
    && (forall w :: w in t.pages <==> w in s.pages || v <= w < v + k)
    && (forall w | w in s.pages :: t.pages[w] == s.pages[w])
    && (forall w | v <= w < v + k :: t.pages[w].flags == 7 && t.pages[w].frame in s.free)
  }

  /** A page claim maps the page onto the least free frame, or it leaves everything as it was. */
  lemma ClaimOneCases(s: State, v: nat)
    requires s.free !! s.held && v in s.managed
    ensures var (t, ok) := ClaimOne(s, v);
            && (ok <==> |s.free| >= 1 + Missing(s.tables.Keys, v, 1))
            && (!ok ==> t == s)
            && (ok ==> t == s.(free := t.free, tables := t.tables, user := s.user + {Slot(v)},
                               pages := s.pages[v := Entry(Least(s.free), USER_FLAGS)]))
            && (ok ==> s.free != {} && Least(s.free) in s.free)
            && (ok ==> t.free <= s.free && |t.free| == |s.free| - 1 - Missing(s.tables.Keys, v, 1))
            && (ok ==> t.tables.Keys == s.tables.Keys + {Slot(v)})
            && (ok ==> forall k | k in s.tables :: t.tables[k] == s.tables[k])
  {
    ClaimOneIsOutcome(s, v);
    hide ClaimOne;
    assert Missing(s.tables.Keys, v, 1) == if Slot(v) in s.tables then 0 else 1;
    hide Missing;
    if s.free != {} {
      var rest := s.free - {Least(s.free)};
      assert |rest| == |s.free| - 1;
      if Slot(v) in s.tables {
        assert s.tables.Keys + {Slot(v)} == s.tables.Keys;
      } else if rest != {} {
        assert |rest - {Least(rest)}| == |rest| - 1;
      } else {
        assert s.free == {Least(s.free)};
      }
    }
  }

  lemma ClaimedOne(s: State, v: nat)
    requires s.free !! s.held && v in s.managed && v !in s.pages && ClaimOne(s, v).1
    ensures Claimed(s, ClaimOne(s, v).0, v, 1)
  {
    ClaimOneCases(s, v);
    hide *;
    ClaimedByOne(s, ClaimOne(s, v).0, v, Least(s.free));
  }

  lemma ClaimedByOne(s: State, t: State, v: nat, f: nat)
    requires t == s.(free := t.free, tables := t.tables, user := s.user + {Slot(v)}, pages := s.pages[v := Entry(f, USER_FLAGS)])
    requires v !in s.pages && f in s.free && t.free <= s.free
    requires t.tables.Keys == s.tables.Keys + {Slot(v)} && forall k | k in s.tables :: t.tables[k] == s.tables[k]
    ensures Claimed(s, t, v, 1)
  {}

  lemma FreeIsNotHeld(s: State)
    requires Inv(s)
    ensures s.free !! s.held
  {}

  lemma ClaimOneKeepsInv(s: State, v: nat)
    requires Inv(s) && v < PAGES && v in s.managed && v !in s.pages
    ensures Inv(ClaimOne(s, v).0)
  {
    ClaimOneCases(s, v);
    if ClaimOne(s, v).1 {
      var (a, f) := AllocPage(s);
      AllocPageKeepsInv(s);
      hide Inv;
      MapPageKeepsInv(a, v, f.value, USER_FLAGS);
    }
  }

  // ---------------------------------------------------------------- allocate_user_space

  lemma {:induction false} ClaimKeepsInv(s: State, v: nat, n: nat)
    requires Inv(s) && Vacant(s, v, n)
    ensures Inv(Claim(s, v, n).0)
    decreases n
  {
    hide Inv, ClaimOne;
    if n > 0 {
      FreeIsNotHeld(s);
      ClaimOneCases(s, v);
      ClaimOneKeepsInv(s, v);
      var (one, ok) := ClaimOne(s, v);
      if ok { ClaimKeepsInv(one, v + 1, n - 1); }
    }
  }

  lemma ClaimFirst(s: State, v: nat, n: nat)
    requires s.free !! s.held && Vacant(s, v, n) && n > 0 && ClaimOne(s, v).1
    ensures var one := ClaimOne(s, v).0;
            Claimed(s, one, v, 1) && one.free !! one.held && Vacant(one, v + 1, n - 1)
  {
    ClaimedOne(s, v);
    hide ClaimOne, TablesGrow;
  }

  lemma ClaimedNone(s: State, v: nat)
    ensures Claimed(s, s, v, 0)
  {}

  lemma {:induction false} ClaimEffect(s: State, v: nat, n: nat)
    requires s.free !! s.held && Vacant(s, v, n)
    ensures var (t, k) := Claim(s, v, n); k <= n && Claimed(s, t, v, k)
    decreases n
  {
    hide ClaimOne, Claimed, Vacant;
    ClaimedNone(s, v);
    if n > 0 {
      var (one, ok) := ClaimOne(s, v);
      if ok {
        ClaimFirst(s, v, n);
        ClaimEffect(one, v + 1, n - 1);
        var (t, k) := Claim(one, v + 1, n - 1);
        ClaimedStep(s, one, t, v, k);
      } else {
        ClaimRefused(s, v, n);
      }
    }
  }

  lemma ClaimRefused(s: State, v: nat, n: nat)
    requires s.free !! s.held && Vacant(s, v, n) && n > 0 && !ClaimOne(s, v).1
    ensures ClaimOne(s, v).0 == s
  {
    ClaimOneCases(s, v);
    hide ClaimOne;
  }

  /** One page and then `k` more. */
  lemma ClaimedStep(s: State, one: State, t: State, v: nat, k: nat)
    requires Claimed(s, one, v, 1) && Claimed(one, t, v + 1, k)
    ensures Claimed(s, t, v, k + 1)
  {}

  /** The loop gets through exactly when the frames suffice, page tables included. */
  lemma {:induction false} ClaimSucceedsIff(s: State, v: nat, n: nat)
    requires s.free !! s.held && Vacant(s, v, n)
    ensures Claim(s, v, n).1 == n <==> |s.free| >= Demand(s, v, n)
    decreases n
  {
    hide ClaimOne;
    if n > 0 {
      ClaimOneCases(s, v);
      var (one, ok) := ClaimOne(s, v);
      assert Missing(s.tables.Keys, v, n) ==
             Missing(s.tables.Keys, v, 1) + Missing(s.tables.Keys + {Slot(v)}, v + 1, n - 1);
      if ok { ClaimSucceedsIff(one, v + 1, n - 1); }
    }
  }

  // ---------------------------------------------------------------- free_user_space

  /** Exactly the pages of the range are gone; their frames, and only they, came back. */
  ghost predicate Released(s: State, t: State, v: nat, n: nat) {
    && t == s.(free := t.free, pages := t.pages)
    && t.pages == s.pages - (set w | w in s.pages && v <= w < v + n)
    && t.free == s.free + (set w | v <= w < v + n && w in s.pages :: s.pages[w].frame)
  }

  lemma {:induction false} ReleaseKeepsInv(s: State, v: nat, n: nat)
    requires Inv(s) && Within(s, v, n)
    ensures Inv(Release(s, v, n))
    decreases n
  {
    hide Inv;
    if n > 0 {
      ReleaseOneKeepsInv(s, v);
      ReleaseKeepsInv(ReleaseOne(s, v), v + 1, n - 1);
    }
  }

  lemma {:induction false} ReleaseEffect(s: State, v: nat, n: nat)
    requires Inv(s) && Within(s, v, n)
    ensures Released(s, Release(s, v, n), v, n)
    decreases n
  {
    if n > 0 {
      var one := ReleaseOne(s, v);
      ReleaseOneKeepsInv(s, v);
      ReleaseOneEffect(s, v);
      hide Inv, ReleaseOne;
      ReleaseEffect(one, v + 1, n - 1);
      ReleasedSplits(s, one, Release(s, v, n), v, n);
    }
  }

  lemma ReleaseOneEffect(s: State, v: nat)
    requires Inv(s) && v in s.managed
    ensures Released(s, ReleaseOne(s, v), v, 1)
  {}

  lemma ReleasedSplits(s: State, one: State, t: State, v: nat, n: nat)
    requires n > 0 && Released(s, one, v, 1) && Released(one, t, v + 1, n - 1)
    ensures Released(s, t, v, n)
  {
    forall f ensures f in t.free <==> f in s.free + (set w | v <= w < v + n && w in s.pages :: s.pages[w].frame) {
      if w :| v <= w < v + n && w in s.pages && s.pages[w].frame == f {
        assert w == v || (w in one.pages && one.pages[w].frame == f);
      }
    }
  }

  /** Freeing a range twice is the same as freeing it once. */
  lemma ReleaseTwice(s: State, v: nat, n: nat)
    requires Inv(s) && Within(s, v, n)
    ensures Release(Release(s, v, n), v, n) == Release(s, v, n)
  {
    var r := Release(s, v, n);
    ReleaseKeepsInv(s, v, n);
    ReleaseEffect(s, v, n);
    ReleaseEffect(r, v, n);
    assert Release(r, v, n).pages == r.pages && Release(r, v, n).free == r.free;
  }

  // ---------------------------------------------------------------- all or nothing, and back

  /** With every other use unchanged, the frames that left the free set are exactly the new page tables. */
  lemma FreeDiffersByTables(s: State, t: State)
    requires Inv(s) && Inv(t) && SameFixture(s, t) && TablesGrow(s, t)
    requires t.held == s.held && t.pages == s.pages
    ensures t.free == s.free - (TableFrames(t) - TableFrames(s))
    ensures TableFrames(t) - TableFrames(s) <= s.free
  {}

  lemma ReleasedClaim(s: State, t: State, r: State, v: nat, k: nat)
    requires Vacant(s, v, k) && Claimed(s, t, v, k) && Released(t, r, v, k)
    ensures SameFixture(s, r) && TablesGrow(s, r) && r.pages == s.pages && r.held == s.held
  {}

  /** Undoing what the loop did, fully or up to its failure, leaves only page tables behind. */
  lemma ReleaseUndoesClaim(s: State, v: nat, n: nat)
    requires Inv(s) && Vacant(s, v, n)
    ensures var (t, k) := Claim(s, v, n);
            var r := Release(t, v, k);
            && Inv(r) && SameFixture(s, r) && TablesGrow(s, r)
            && r.pages == s.pages && r.held == s.held
            && r.free == s.free - (TableFrames(r) - TableFrames(s))
  {
    var (t, k) := Claim(s, v, n);
    FreeIsNotHeld(s);
    ClaimKeepsInv(s, v, n);
    ClaimEffect(s, v, n);
    ReleaseKeepsInv(t, v, k);
    ReleaseEffect(t, v, k);
    hide Inv, Claim, Release;
    ReleasedClaim(s, t, Release(t, v, k), v, k);
    FreeDiffersByTables(s, Release(t, v, k));
  }

  /**
   `allocate_user_space` succeeds exactly when the free frames cover its pages and the page tables
   they need. A failure leaves every translation and every holder as before, and costs only the
   frames that became page tables.
   */
  lemma AllocateIsAllOrNothing(s: State, v: nat, n: nat)
    requires Inv(s) && Vacant(s, v, n)
    ensures var (t, ok) := AllocateUserSpace(s, v, n);
            && Inv(t) && SameFixture(s, t) && TablesGrow(s, t) && t.held == s.held
            && (ok <==> |s.free| >= Demand(s, v, n))
            && (ok ==> Claimed(s, t, v, n))
            && (!ok ==> t.pages == s.pages && t.free == s.free - (TableFrames(t) - TableFrames(s)))
  {
    FreeIsNotHeld(s);
    ClaimKeepsInv(s, v, n);
    ClaimEffect(s, v, n);
    ClaimSucceedsIff(s, v, n);
    ReleaseUndoesClaim(s, v, n);
  }

  /** Allocating a range and freeing it gives back its frames: only new page tables stay. */
  lemma ReleaseUndoesAllocate(s: State, v: nat, n: nat)
    requires Inv(s) && Vacant(s, v, n) && AllocateUserSpace(s, v, n).1
    ensures var t := AllocateUserSpace(s, v, n).0;
            var r := Release(t, v, n);
            && r.pages == s.pages && r.held == s.held
            && r.free == t.free + (set w | v <= w < v + n && w in t.pages :: t.pages[w].frame)
            && r.free == s.free - (TableFrames(r) - TableFrames(s))
  {
    FreeIsNotHeld(s);
    ClaimKeepsInv(s, v, n);
    ClaimEffect(s, v, n);
    ReleaseUndoesClaim(s, v, n);
    ReleaseEffect(Claim(s, v, n).0, v, n);
  }

  // ---------------------------------------------------------------- the kernel heap's page loop

  lemma GrowOneKeepsInv(s: State, v: nat)
    requires Inv(s) && s.free != {} && v < PAGES && v in s.managed && v !in s.pages
    ensures Inv(GrowOne(s, v))
  {
    AllocPageKeepsInv(s);
    MapPageKeepsInv(AllocPage(s).0, v, Least(s.free), KERNEL_FLAGS);
  }

  /** Only when the frame just taken was the last one, and a table is missing, does the page stay unmapped. */
  lemma GrowOneCases(s: State, v: nat)
    requires s.free != {} && v in s.managed && v !in s.pages
    ensures var t := GrowOne(s, v);
            if |s.free| >= 1 + Missing(s.tables.Keys, v, 1) then
              && t.pages == s.pages[v := Entry(Least(s.free), KERNEL_FLAGS)]
              && t.tables.Keys == s.tables.Keys + {Slot(v)}
              && |t.free| == |s.free| - 1 - Missing(s.tables.Keys, v, 1)
              && SameFixture(s, t)
            else t == s.(free := {}, held := s.held + {Least(s.free)})
  {
    var a := AllocPage(s).0;
    assert Missing(s.tables.Keys, v, 1) == if Slot(v) in s.tables then 0 else 1;
    hide Missing;
    assert |a.free| == |s.free| - 1;
    if Slot(v) in s.tables {
      assert s.tables.Keys + {Slot(v)} == s.tables.Keys;
    } else if a.free != {} {
      assert |a.free - {Least(a.free)}| == |a.free| - 1;
    }
  }

  lemma {:induction false} GrowHeapKeepsInv(s: State, v: nat, n: nat)
    requires Inv(s) && Vacant(s, v, n)
    ensures Inv(GrowHeap(s, v, n).0)
    decreases n
  {
    hide Inv, GrowOne;
    if n > 0 && s.free != {} {
      GrowOneKeepsInv(s, v);
      GrowOneCases(s, v);
      GrowHeapKeepsInv(GrowOne(s, v), v + 1, n - 1);
    }
  }

  /** No table moves, and a slot that grants user access keeps granting it. */
  lemma {:induction false} GrowHeapKeepsTables(s: State, v: nat, n: nat)
    requires Inv(s) && Vacant(s, v, n)
    ensures TablesGrow(s, GrowHeap(s, v, n).0)
    decreases n
  {
    hide Inv, GrowOne, TablesGrow;
    if n == 0 || s.free == {} {
      TablesGrowBoth(s, s, s);
    } else {
      var one := GrowOne(s, v);
      GrowOneKeepsTables(s, v);
      GrowOneKeepsInv(s, v);
      GrowOneCases(s, v);
      GrowHeapKeepsTables(one, v + 1, n - 1);
      TablesGrowBoth(s, one, GrowHeap(one, v + 1, n - 1).0);
    }
  }

  lemma TablesGrowBoth(s: State, o: State, t: State)
    ensures TablesGrow(s, s)
    ensures TablesGrow(s, o) && TablesGrow(o, t) ==> TablesGrow(s, t)
  {}

  lemma GrowOneKeepsTables(s: State, v: nat)
    requires Inv(s) && s.free != {}
    ensures TablesGrow(s, GrowOne(s, v))
  {}

  lemma {:induction false} GrowHeapKeepsFixture(s: State, v: nat, n: nat)
    requires Vacant(s, v, n)
    ensures SameFixture(s, GrowHeap(s, v, n).0)
    decreases n
  {
    hide GrowOne;
    if n > 0 && s.free != {} {
      GrowOneCases(s, v);
      GrowHeapKeepsFixture(GrowOne(s, v), v + 1, n - 1);
    }
  }

  ghost predicate AllMapped(s: State, v: nat, n: nat) {
    forall w | v <= w < v + n :: w in s.pages
  }

  /** From `s` to `t` only kernel pages in `[v, v + k)` are added. */
  ghost predicate GrewPages(s: State, t: State, v: nat, k: nat) {
    && (forall w | w in s.pages :: w in t.pages && t.pages[w] == s.pages[w])
    && (forall w | w in t.pages && w !in s.pages :: v <= w < v + k && t.pages[w].flags == 3)
  }

  lemma GrowOnePages(s: State, v: nat, n: nat)
    requires Vacant(s, v, n) && n > 0 && s.free != {}
    ensures GrewPages(s, GrowOne(s, v), v, 1) && Vacant(GrowOne(s, v), v + 1, n - 1)
  {
    GrowOneAdds(s, v);
    hide GrowOne;
    OnePageGrew(s, GrowOne(s, v), v, Least(s.free), n);
  }

  lemma GrowOneAdds(s: State, v: nat)
    requires s.free != {}
    ensures var t := GrowOne(s, v);
            t.managed == s.managed && (t.pages == s.pages || t.pages == s.pages[v := Entry(Least(s.free), KERNEL_FLAGS)])
  {}

  lemma OnePageGrew(s: State, t: State, v: nat, f: nat, n: nat)
    requires Vacant(s, v, n) && n > 0
    requires t.managed == s.managed && (t.pages == s.pages || t.pages == s.pages[v := Entry(f, KERNEL_FLAGS)])
    ensures GrewPages(s, t, v, 1) && Vacant(t, v + 1, n - 1)
  {}

  lemma GrewPagesBoth(s: State, o: State, t: State, v: nat, k: nat)
    requires GrewPages(s, o, v, 1) && GrewPages(o, t, v + 1, k)
    ensures GrewPages(s, t, v, k + 1)
  {}

  lemma {:induction false} GrowHeapGrewPages(s: State, v: nat, n: nat)
    requires Vacant(s, v, n)
    ensures GrewPages(s, GrowHeap(s, v, n).0, v, GrowHeap(s, v, n).1)
    decreases n
  {
    hide GrowOne, Vacant;
    if n > 0 && s.free != {} {
      var one := GrowOne(s, v);
      GrowOnePages(s, v, n);
      GrowHeapGrewPages(one, v + 1, n - 1);
      hide GrewPages;
      GrewPagesBoth(s, one, GrowHeap(one, v + 1, n - 1).0, v, GrowHeap(one, v + 1, n - 1).1);
    }
  }

  lemma GrowHeapKeepsPages(s: State, v: nat, n: nat)
    requires Vacant(s, v, n)
    ensures forall w | w in s.pages :: w in GrowHeap(s, v, n).0.pages && GrowHeap(s, v, n).0.pages[w] == s.pages[w]
    ensures forall w | w in GrowHeap(s, v, n).0.pages :: w in s.pages || v <= w < v + GrowHeap(s, v, n).1
  {
    GrowHeapGrewPages(s, v, n);
    hide GrowHeap;
  }

  lemma GrowHeapFlags(s: State, v: nat, n: nat)
    requires Vacant(s, v, n)
    ensures var t := GrowHeap(s, v, n).0;
            forall w | w in t.pages && w !in s.pages :: t.pages[w].flags == 3
  {
    GrowHeapGrewPages(s, v, n);
    hide GrowHeap;
  }

  /** The last page opens a slot that has no table: where an ignored failure of `map_page` can hide. */
  ghost predicate LastPageOpensSlot(s: State, v: nat, n: nat) {
    n > 0 && Slot(v + n - 1) !in s.tables && (n == 1 || Slot(v + n - 2) != Slot(v + n - 1))
  }

  lemma LastPageOfRest(s: State, one: State, v: nat, n: nat)
    requires n > 1 && one.tables.Keys == s.tables.Keys + {Slot(v)}
    ensures LastPageOpensSlot(s, v, n) <==> LastPageOpensSlot(one, v + 1, n - 1)
  {}

  lemma AllMappedSplits(t: State, v: nat, n: nat)
    requires n > 0
    ensures AllMapped(t, v, n) <==> v in t.pages && AllMapped(t, v + 1, n - 1)
  {}

  /** What the counts alone decide: whether the loop reports success, and which of its `k` pages are mapped. */
  ghost predicate GrowOutcome(s: State, t: State, k: nat, v: nat, n: nat) {
    && k <= n
    && (k == n <==> |s.free| >= Demand(s, v, n)
                    || (|s.free| == Demand(s, v, n) - 1 && LastPageOpensSlot(s, v, n)))
    && (AllMapped(t, v, k) <==> |s.free| >= Demand(s, v, k))
    && (AllMapped(t, v, k) <==> !LosesPage(s, v, n))
    && (k > 0 ==> AllMapped(t, v, k - 1))
  }

  /** The frames run out on a page that opens a slot: it gets a frame, the end moves past it, and it is not mapped. */
  ghost predicate LosesPage(s: State, v: nat, n: nat) {
    exists j :: 0 < j <= n && LosesAt(s, v, j)
  }

  ghost predicate LosesAt(s: State, v: nat, j: nat) {
    LastPageOpensSlot(s, v, j) && |s.free| == Demand(s, v, j) - 1
  }

  lemma OpeningNeedsTable(s: State, v: nat, j: nat)
    requires LastPageOpensSlot(s, v, j)
    ensures Demand(s, v, j) > j
  {
    MissingCountsSlots(s.tables.Keys, v, j);
    assert Slot(v + j - 1) in SlotsOf(v, j) - s.tables.Keys;
  }

  lemma GrowShortOfTable(s: State, v: nat, n: nat)
    requires Vacant(s, v, n) && n > 0 && |s.free| == 1 && Slot(v) !in s.tables
    ensures GrowOutcome(s, GrowHeap(s, v, n).0, GrowHeap(s, v, n).1, v, n)
  {
    var one := GrowOne(s, v);
    GrowOneCases(s, v);
    hide GrowOne;
    assert GrowHeap(one, v + 1, n - 1) == (one, 0);
    assert Demand(s, v, n) >= n + 1;
    assert LosesAt(s, v, 1);
    AllMappedSplits(one, v, 1);
  }

  /** With no frame left the loop does nothing, and it loses nothing. */
  lemma GrowNothing(s: State, v: nat, n: nat)
    requires n == 0 || s.free == {}
    ensures GrowOutcome(s, s, 0, v, n)
  {
    forall j: nat | 0 < j <= n ensures !LosesAt(s, v, j) {
      if LastPageOpensSlot(s, v, j) { OpeningNeedsTable(s, v, j); }
    }
  }

  lemma DemandSplits(s: State, one: State, v: nat, j: nat)
    requires j > 0 && one.tables.Keys == s.tables.Keys + {Slot(v)}
    requires |s.free| == |one.free| + 1 + Missing(s.tables.Keys, v, 1)
    ensures Demand(s, v, j) - |s.free| == Demand(one, v + 1, j - 1) - |one.free|
  {
    assert Missing(s.tables.Keys, v, j) ==
           Missing(s.tables.Keys, v, 1) + Missing(s.tables.Keys + {Slot(v)}, v + 1, j - 1);
  }

  lemma GrowStep(s: State, one: State, t: State, k: nat, v: nat, n: nat)
    requires n > 0 && GrowOutcome(one, t, k, v + 1, n - 1) && v in t.pages
    requires one.tables.Keys == s.tables.Keys + {Slot(v)}
    requires |s.free| == |one.free| + 1 + Missing(s.tables.Keys, v, 1)
    ensures GrowOutcome(s, t, k + 1, v, n)
  {
    DemandSplits(s, one, v, n);
    DemandSplits(s, one, v, k + 1);
    if n > 1 { LastPageOfRest(s, one, v, n); }
    AllMappedSplits(t, v, k + 1);
    if k > 0 { AllMappedSplits(t, v, k); }
    LosesPageStep(s, one, v, n);
    hide AllMapped, Missing, Demand, LosesPage;
  }

  /** Mapping the first page does not change which page will be lost. */
  lemma LosesPageStep(s: State, one: State, v: nat, n: nat)
    requires n > 0 && one.tables.Keys == s.tables.Keys + {Slot(v)}
    requires |s.free| == |one.free| + 1 + Missing(s.tables.Keys, v, 1)
    ensures LosesPage(s, v, n) <==> LosesPage(one, v + 1, n - 1)
  {
    forall j: nat | 1 < j <= n ensures LosesAt(s, v, j) <==> LosesAt(one, v + 1, j - 1) {
      DemandSplits(s, one, v, j);
      LastPageOfRest(s, one, v, j);
    }
    assert !LosesAt(s, v, 1) by { DemandSplits(s, one, v, 1); }
    hide LosesAt;
    if LosesPage(one, v + 1, n - 1) {
      var j: nat :| 0 < j <= n - 1 && LosesAt(one, v + 1, j);
      assert LosesAt(s, v, j + 1);
    }
  }

  /**
   The loop of the kernel heap's expansion, whose map_page results are ignored: when it reports success,
   and that the pages it counts are all mapped exactly when the frames cover them and their tables.
   Only the last page counted can be unmapped, and whether it is can be told beforehand.
   */
  lemma {:induction false} GrowHeapOutcome(s: State, v: nat, n: nat)
    requires Vacant(s, v, n)
    ensures GrowOutcome(s, GrowHeap(s, v, n).0, GrowHeap(s, v, n).1, v, n)
    decreases n
  {
    hide Demand, Missing, AllMapped, LosesPage, GrowOutcome, GrowOne;
    if n == 0 || s.free == {} {
      GrowNothing(s, v, n);
    } else if |s.free| == 1 && Slot(v) !in s.tables {
      GrowShortOfTable(s, v, n);
    } else {
      var one := GrowFirst(s, v, n);
      GrowHeapOutcome(one, v + 1, n - 1);
      GrowHeapKeepsPages(one, v + 1, n - 1);
      var (t, k) := GrowHeap(one, v + 1, n - 1);
      hide *;
      GrowStep(s, one, t, k, v, n);
    }
  }

  /**
   The smallest such case: one free frame, and a page in a slot without a table. The loop counts the
   page as mapped and reports success, and the page is not mapped.
   */
  lemma GrowHeapLosesPage()
    ensures var v := 0xD0000;
            var s := State({0, 1}, {0}, {v}, {1}, {}, map[], {}, map[]);
            Inv(s) && Vacant(s, v, 1) && GrowHeap(s, v, 1).1 == 1 && v !in GrowHeap(s, v, 1).0.pages
  {
    var v := 0xD0000;
    var s := State({0, 1}, {0}, {v}, {1}, {}, map[], {}, map[]);
    assert s == Unmapped({0, 1}, {1}, {v});
    UnmappedHasInv({0, 1}, {1}, {v});
    GrowOneCases(s, v);
    hide Inv, Unmapped, GrowOne;
    assert GrowHeap(GrowOne(s, v), v + 1, 0) == (GrowOne(s, v), 0);
  }

  /** The first turn when it does map its page. */
  lemma GrowFirst(s: State, v: nat, n: nat) returns (one: State)
    requires Vacant(s, v, n) && n > 0 && s.free != {} && !(|s.free| == 1 && Slot(v) !in s.tables)
    ensures Vacant(one, v + 1, n - 1) && v in one.pages && one.tables.Keys == s.tables.Keys + {Slot(v)}
    ensures |s.free| == |one.free| + 1 + Missing(s.tables.Keys, v, 1)
    ensures GrowHeap(s, v, n) == (GrowHeap(one, v + 1, n - 1).0, GrowHeap(one, v + 1, n - 1).1 + 1)
  {
    one := GrowOne(s, v);
    GrowOneCases(s, v);
    assert |s.free| >= 1;
    assert Missing(s.tables.Keys, v, 1) == if Slot(v) in s.tables then 0 else 1;
    hide GrowOne;
  }

  // ---------------------------------------------------------------- conservation and privilege

  lemma {:induction false} ValuesOfInjective(m: map<nat, nat>)
    requires forall a, b | a in m && b in m && a != b :: m[a] != m[b]
    ensures |m.Values| == |m|
    decreases |m|
  {
    if m.Keys == {} {
      assert m.Values == {};
    } else {
      var k :| k in m;
      var r := m - {k};
      ValuesOfInjective(r);
      assert r.Keys == m.Keys - {k};
      assert m.Values == r.Values + {m[k]} by {
        forall x | x in m.Values ensures x in r.Values + {m[k]} {
          var a :| a in m && m[a] == x;
          if a != k { assert a in r && r[a] == x; }
        }
      }
      assert m[k] !in r.Values;
      assert |m| == |m.Keys| && |r| == |r.Keys|;
    }
  }

  /** free + held + reserved + page tables + managed mapped pages = all frames. */
  lemma FramesAreConserved(s: State)
    requires Inv(s)
    ensures |s.free| + |s.held| + |s.reserved| + |s.tables| + |Mapped(s)| == |s.frames|
  {
    ValuesOfInjective(s.tables);
    BackingCountsPages(s);
    FiveParts(s.free, s.held, s.reserved, TableFrames(s), Backing(s));
  }

  lemma BackingCountsPages(s: State)
    requires OneToOnePages(s)
    ensures |Backing(s)| == |Mapped(s)|
  {
    var m := map v | v in Mapped(s) :: s.pages[v].frame;
    assert m.Keys == Mapped(s) && m.Values == Backing(s);
    ValuesOfInjective(m);
    assert |m| == |m.Keys|;
  }

  lemma FiveParts(a: set<nat>, b: set<nat>, c: set<nat>, d: set<nat>, e: set<nat>)
    requires a !! b !! c !! d !! e
    ensures |a + b + c + d + e| == |a| + |b| + |c| + |d| + |e|
  {}

  // ---------------------------------------------------------------- runs

  datatype Op =
    | Allocate(v: nat, n: nat)
    | Free(v: nat, n: nat)
    | Grow(v: nat, n: nat)
    | TakeFrame
    | GiveFrame(f: nat)
    | MapFixed(v: nat, f: nat, flags: nat)

  /** What the callers in the kernel observe: fresh ranges are unmapped, only held frames are given back. */
  ghost predicate Legal(s: State, op: Op) {
    match op
    case Allocate(v, n) => Vacant(s, v, n)
    case Free(v, n) => Within(s, v, n)
    case Grow(v, n) => Vacant(s, v, n)
    case TakeFrame => true
    case GiveFrame(f) => f in s.held
    case MapFixed(v, _, _) => v < PAGES && v !in s.managed
  }

  ghost function Step(s: State, op: Op): State {
    match op
    case Allocate(v, n) => AllocateUserSpace(s, v, n).0
    case Free(v, n) => Release(s, v, n)
    case Grow(v, n) => GrowHeap(s, v, n).0
    case TakeFrame => AllocPage(s).0
    case GiveFrame(f) => FreePage(s, f)
    case MapFixed(v, f, flags) => MapPage(s, v, f, flags).0
  }

  ghost predicate LegalRun(s: State, ops: seq<Op>)
    decreases |ops|
  {
    ops == [] || (Legal(s, ops[0]) && LegalRun(Step(s, ops[0]), ops[1..]))
  }

  ghost function Run(s: State, ops: seq<Op>): State
    decreases |ops|
  {
    if ops == [] then s else Run(Step(s, ops[0]), ops[1..])
  }

  lemma StepKeepsInv(s: State, op: Op)
    requires Inv(s) && Legal(s, op)
    ensures Inv(Step(s, op))
  {
    hide Inv, AllocPage, MapPage, FreePage;
    match op
    case Allocate(v, n) => AllocateIsAllOrNothing(s, v, n);
    case Free(v, n) => ReleaseKeepsInv(s, v, n);
    case Grow(v, n) => GrowHeapKeepsInv(s, v, n);
    case TakeFrame => AllocPageKeepsInv(s);
    case GiveFrame(f) => FreePageKeepsInv(s, f);
    case MapFixed(v, f, flags) => MapPageKeepsInv(s, v, f, flags);
  }

  lemma StepKeepsFixture(s: State, op: Op)
    requires Inv(s) && Legal(s, op)
    ensures SameFixture(s, Step(s, op))
  {
    hide Inv;
    match op
    case Allocate(v, n) => AllocateIsAllOrNothing(s, v, n);
    case Free(v, n) => ReleaseEffect(s, v, n);
    case Grow(v, n) => GrowHeapKeepsFixture(s, v, n);
    case _ =>
  }

  /** Every reachable state has its frames owned once and accounted for, and its user bits in order. */
  lemma {:induction false} RunKeepsInv(s: State, ops: seq<Op>)
    requires Inv(s) && LegalRun(s, ops)
    ensures Inv(Run(s, ops)) && SameFixture(s, Run(s, ops))
    decreases |ops|
  {
    hide Inv, Step;
    if ops != [] {
      StepKeepsInv(s, ops[0]);
      StepKeepsFixture(s, ops[0]);
      RunKeepsInv(Step(s, ops[0]), ops[1..]);
    }
  }

  /** A reserved frame never becomes free, backs no managed page, and `alloc_page` never returns it. */
  lemma ReservedFramesStayReserved(s: State, ops: seq<Op>, f: nat)
    requires Inv(s) && LegalRun(s, ops) && f in s.reserved
    ensures var t := Run(s, ops);
            && f !in t.free && f !in t.held && f !in TableFrames(t)
            && (AllocPage(t).1 != None ==> AllocPage(t).1.value != f)
            && forall v | v in t.managed && v in t.pages :: t.pages[v].frame != f
  {
    RunKeepsInv(s, ops);
    var t := Run(s, ops);
    forall v | v in t.managed && v in t.pages ensures t.pages[v].frame in Backing(t) {
      assert v in Mapped(t);
    }
  }

  // ---------------------------------------------------------------- no frame is handed out twice

  /** The step frees frame `f`: by itself, or as the frame behind a page of a range that is released. */
  ghost predicate GivesBack(s: State, op: Op, f: nat) {
    match op
    case GiveFrame(g) => g == f
    case Free(v, n) => exists w :: v <= w < v + n && w in s.pages && s.pages[w].frame == f
    case _ => false
  }

  /** No step of the run frees frame `f`. */
  ghost predicate NeverGivenBack(s: State, ops: seq<Op>, f: nat)
    decreases |ops|
  {
    ops == [] || (!GivesBack(s, ops[0], f) && NeverGivenBack(Step(s, ops[0]), ops[1..], f))
  }

  lemma {:induction false} GrowHeapFreesNothing(s: State, v: nat, n: nat)
    ensures GrowHeap(s, v, n).0.free <= s.free
    decreases n
  {
    if n > 0 && s.free != {} {
      assert GrowOne(s, v).free <= s.free;
      hide GrowOne;
      GrowHeapFreesNothing(GrowOne(s, v), v + 1, n - 1);
    }
  }

  /** A frame in use becomes free exactly by the steps that give it back. */
  lemma StepFreesIff(s: State, op: Op, f: nat)
    requires Inv(s) && Legal(s, op) && f !in s.free
    ensures f in Step(s, op).free <==> GivesBack(s, op, f)
  {
    hide Inv, AllocateUserSpace, Release, GrowHeap, MapPage, Demand, TablesGrow, SameFixture;
    match op
    case Allocate(v, n) => AllocateIsAllOrNothing(s, v, n);
    case Free(v, n) => ReleaseEffect(s, v, n);
    case Grow(v, n) => GrowHeapFreesNothing(s, v, n);
    case MapFixed(v, g, flags) => MapPageFreesNothing(s, v, g, flags);
    case _ =>
  }

  lemma MapPageFreesNothing(s: State, v: nat, f: nat, flags: nat)
    ensures MapPage(s, v, f, flags).0.free <= s.free
  {}

  /** Over every run a frame in use stays out of the free set as long as no step gives it back. */
  lemma {:induction false} UsedFramesStayUsed(s: State, ops: seq<Op>, f: nat)
    requires Inv(s) && LegalRun(s, ops) && f !in s.free && NeverGivenBack(s, ops, f)
    ensures f !in Run(s, ops).free
    decreases |ops|
  {
    hide Inv, Step, GivesBack, Legal;
    if ops != [] {
      StepKeepsInv(s, ops[0]);
      StepFreesIff(s, ops[0], f);
      UsedFramesStayUsed(Step(s, ops[0]), ops[1..], f);
    }
  }

  /**
   A frame that `alloc_page` hands out was in no use at all, and over every run that follows it is not
   handed out again, neither to a caller nor for a page table, unless some step gives it back.
   */
  lemma FrameIsHandedOutOnce(s: State, ops: seq<Op>, f: nat)
    requires Inv(s) && AllocPage(s).1 == Some(f)
    requires LegalRun(AllocPage(s).0, ops) && NeverGivenBack(AllocPage(s).0, ops, f)
    ensures f != 0 && f !in s.held && f !in s.reserved && f !in TableFrames(s)
    ensures forall v | v in s.managed && v in s.pages :: s.pages[v].frame != f
    ensures f !in Run(AllocPage(s).0, ops).free && AllocPage(Run(AllocPage(s).0, ops)).1 != Some(f)
  {
    var a := AllocPage(s).0;
    AllocPageKeepsInv(s);
    UsedFramesStayUsed(a, ops, f);
    forall v | v in s.managed && v in s.pages ensures s.pages[v].frame in Backing(s) { assert v in Mapped(s); }
    hide Run, LegalRun, NeverGivenBack;
  }
}
