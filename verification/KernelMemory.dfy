/** The kernel's memory as objects: two heaps, the pager under both, and the user program's regions. */
module KernelMemory {
  import opened Basics
  import opened HeapChain
  import opened HeapPages
  import opened Kernel
  import Heaps = HeapMemory
  import Spec = HeapRuns
  import Space
  import Runs = SpaceRuns
  import Pager
  import Paging

  class Allocators {
    const mem: array<byte>
    const pager: Pager.AddressSpace
    const kernel: Heaps.Heap
    const user: Heaps.Heap
    /** The regions of the user program that are mapped. */
    ghost var present: set<Region>

    ghost function View(): State
      reads this, kernel, user, pager
    {
      State(pager.space, kernel.view, user.view, kernel.top, user.top, present)
    }

    /** Both heaps live in the same memory and grow into the same address space. */
    ghost predicate Wired() {
      && kernel != user && kernel.mem == user.mem == mem && kernel.pager == user.pager == pager
      && kernel.growth == KeepsPages && user.growth == RollsBack
      && mem as object != pager.bitmap && mem as object != pager.directory && mem as object != pager.ram
    }

    ghost predicate Valid()
      reads this, mem, kernel, user, pager, pager.bitmap, pager.directory, pager.ram
    {
      Wired() && pager.Valid() && kernel.Valid() && user.Valid() && Inv(View())
    }

    constructor (memory: array<byte>, space: Pager.AddressSpace, ghost ktop: nat, ghost utop: nat)
      requires memory.Length == TWO32 && space.Valid() && Bare(space.space, ktop, utop)
      requires memory as object != space.bitmap && memory as object != space.directory && memory as object != space.ram
      ensures Valid() && View() == Initial(space.space, ktop, utop)
      ensures mem == memory && pager == space && fresh(kernel) && fresh(user)
    {
      InitialHasInv(space.space, ktop, utop);
      hide Space.Inv, Untouched, PagesMapped, Isolated;
      mem, pager := memory, space;
      kernel := new Heaps.Heap(memory, HEAP_START, KeepsPages, space, ktop);
      user := new Heaps.Heap(memory, USER_HEAP_START, RollsBack, space, utop);
      present := {};
    }

    /** Each heap finds its own range of the shared address space as it needs it. */
    lemma BothBacked()
      requires Valid()
      ensures kernel.Backed() && user.Backed()
      ensures kernel.top < TWO32 && user.top < TWO32
    {
      hide Space.Inv, Isolated, Untouched, PagesMapped, RegionOk, Spec.Inv;
    }

    /**
     What the processor does with the words in memory: code in user mode reaches exactly the pages of the
     user program, and the frame behind each of them is that page's alone.
     */
    lemma HardwareConfinesUser(v: nat)
      requires Valid() && v < Space.PAGES
      ensures var t := Paging.Walk(pager.directory[..], pager.ram[..], v);
              && (t.Some? && t.value.user <==> UserPage(View(), v))
              && (UserPage(View(), v) ==>
                    && t.value.frame !in Space.TableFrames(pager.space) && t.value.frame !in pager.space.reserved
                    && forall w | w in pager.space.managed && w in pager.space.pages && w != v ::
                         pager.space.pages[w].frame != t.value.frame)
    {
      Paging.WalkIsFlatMap(pager.bitmap[..], pager.directory[..], pager.ram[..], pager.space, v);
      if UserPage(View(), v) { UserFramesArePrivate(View(), v); }
      hide Space.Inv, Paging.Walk, Paging.Represents, UserPage;
    }

    /** kmalloc: the user heap, its bytes included, does not notice. */
    method Kmalloc(n: nat) returns (p: nat)
      requires Valid() && Legal(View(), Op.Kmalloc(n))
      modifies kernel, mem, pager, pager.bitmap, pager.directory, pager.ram
      ensures Valid() && View() == Step(old(View()), Op.Kmalloc(n))
      ensures p == Alloc(old(kernel.view), old(pager.space), n, KeepsPages).2
      ensures Spec.TakesLeastRoom(old(kernel.view), n, kernel.view, p)
      ensures Heaps.PayloadsKept(old(kernel.view).chain, old(mem[..]), mem[..])
      ensures Heaps.PayloadsKept(user.view.chain, old(mem[..]), mem[..])
    {
      ghost var s, m := View(), mem[..];
      BothBacked();
      StepKeepsInv(s, Op.Kmalloc(n));
      p := kernel.Malloc(n);
      Heaps.OtherBytesDoNotMatter(m, mem[..], user.start, user.view, RollsBack, kernel.base, kernel.end);
    }

    /** umalloc. */
    method Umalloc(n: nat) returns (p: nat)
      requires Valid() && Legal(View(), Op.Umalloc(n))
      modifies user, mem, pager, pager.bitmap, pager.directory, pager.ram
      ensures Valid() && View() == Step(old(View()), Op.Umalloc(n))
      ensures p == Alloc(old(user.view), old(pager.space), n, RollsBack).2
      ensures Spec.TakesLeastRoom(old(user.view), n, user.view, p)
      ensures Heaps.PayloadsKept(old(user.view).chain, old(mem[..]), mem[..])
      ensures Heaps.PayloadsKept(kernel.view.chain, old(mem[..]), mem[..])
    {
      ghost var s, m := View(), mem[..];
      BothBacked();
      StepKeepsInv(s, Op.Umalloc(n));
      p := user.Malloc(n);
      Heaps.OtherBytesDoNotMatter(m, mem[..], kernel.start, kernel.view, KeepsPages, user.base, user.end);
    }

    /** kfree. */
    method Kfree(p: nat)
      requires Valid() && Legal(View(), Op.Kfree(p))
      modifies kernel`view, mem
      ensures Valid() && View() == Step(old(View()), Op.Kfree(p))
      ensures Heaps.PayloadsKept(kernel.view.chain, old(mem[..]), mem[..])
      ensures Heaps.PayloadsKept(user.view.chain, old(mem[..]), mem[..])
    {
      ghost var s, m := View(), mem[..];
      StepKeepsInv(s, Op.Kfree(p));
      kernel.Free(p);
      Heaps.OtherBytesDoNotMatter(m, mem[..], user.start, user.view, RollsBack, kernel.base, kernel.end);
    }

    /** ufree. */
    method Ufree(p: nat)
      requires Valid() && Legal(View(), Op.Ufree(p))
      modifies user`view, mem
      ensures Valid() && View() == Step(old(View()), Op.Ufree(p))
      ensures Heaps.PayloadsKept(user.view.chain, old(mem[..]), mem[..])
      ensures Heaps.PayloadsKept(kernel.view.chain, old(mem[..]), mem[..])
    {
      ghost var s, m := View(), mem[..];
      StepKeepsInv(s, Op.Ufree(p));
      user.Free(p);
      Heaps.OtherBytesDoNotMatter(m, mem[..], kernel.start, kernel.view, KeepsPages, user.base, user.end);
    }

    /** The program's page or its stack: `allocate_user_space(USER_CODE_BASE, 1)` or `create_user_stack()`. */
    method MapRegion(r: Region) returns (ok: bool)
      requires Valid() && Legal(View(), Op.Map(r))
      modifies this`present, pager, pager.bitmap, pager.directory, pager.ram
      ensures Valid() && View() == Step(old(View()), Op.Map(r)) && (ok <==> r in present)
    {
      hide Kernel.Inv, Heaps.Heap.Linked, Canonical, Space.Inv, Low, High, PagesOf, Runs.Vacant, Space.AllocateUserSpace;
      ghost var s := View();
      StepKeepsInv(s, Op.Map(r));
      RegionIsVacant(s, r);
      ok := AllocateRegion(r);
      if ok { present := present + {r}; }
    }

    method AllocateRegion(r: Region) returns (ok: bool)
      requires pager.Valid() && Space.Inv(pager.space) && Runs.Vacant(pager.space, Low(r) / PAGE, PagesOf(r))
      modifies pager, pager.bitmap, pager.directory, pager.ram
      ensures pager.Valid() && Space.Inv(pager.space)
      ensures (pager.space, ok) == Space.AllocateUserSpace(old(pager.space), Low(r) / PAGE, PagesOf(r))
    {
      hide Space.Inv, Runs.Vacant, Space.AllocateUserSpace;
      if r.Code? {
        ok := pager.AllocateUserSpace(USER_CODE_BASE, 1);
      } else {
        var top := pager.CreateUserStack();
        ok := top != 0;
      }
    }

    /** free_user_space on one of them. */
    method UnmapRegion(r: Region)
      requires Valid() && Legal(View(), Op.Unmap(r))
      modifies this`present, pager`space, pager.bitmap, pager.ram
      ensures Valid() && View() == Step(old(View()), Op.Unmap(r))
    {
      hide Kernel.Inv, Heaps.Heap.Linked, Canonical, Space.Inv, Low, High, PagesOf, Runs.Within, Space.Release;
      ghost var s := View();
      StepKeepsInv(s, Op.Unmap(r));
      RegionPages(r);
      RegionIsWithin(s, r);
      pager.FreeUserSpace(Low(r), PagesOf(r));
      present := present - {r};
    }
  }
}
