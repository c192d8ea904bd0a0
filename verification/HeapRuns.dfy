/** Whole calls and whole runs of the heap: growth, retry, release, and what every run keeps. */
module HeapRuns {
  import opened Basics
  import opened HeapChain

  /**
   Everything between two calls. `lost` counts the pages that failed expansions moved the end past and
   put into no block; whether each of them is mapped is module HeapPages' business.
   */
  datatype State = State(base: nat, chain: Chain, end: nat, lost: nat)

  /**
   Blocks ascend inside `[base, end)` without overlap, and the only bytes they leave out are the `lost`
   pages of failed expansions; with a pager that rolls back there are none and the blocks tile.
   */
  ghost predicate Sound(h: State, g: Growth) {
    && Layout(h.chain, h.base, h.end, g.RollsBack?)
    && h.end == h.base + Total(h.chain) + h.lost * PAGE
    && (g.RollsBack? ==> h.lost == 0)
    && h.base > 0
  }

  ghost predicate Inv(h: State, g: Growth) { Sound(h, g) && Canonical(h.chain) }

  // ---------------------------------------------------------------- growth

  /** The page count of an expansion, in 32-bit arithmetic. */
  function Pages(n: nat): nat { U32(n + HEADER + PAGE - 1) / PAGE }

  /** The new pages hold the request and its header exactly when the rounding does not wrap. */
  lemma ExpansionCoversRequest(n: word)
    ensures Pages(n) * PAGE >= n + HEADER <==> n + HEADER + PAGE - 1 < TWO32
  {}

  /** `d` is the least multiple of 4096 that holds `n` bytes and a 12-byte header. */
  ghost predicate IsLeastRoom(d: int, n: nat) {
    d % 4096 == 0 && n + 12 <= d && forall m: nat | m % 4096 == 0 && n + 12 <= m :: d <= m
  }

  /** Without a wrap-around the new pages are the least number that holds the request and its header. */
  lemma ExpansionIsLeast(n: nat)
    requires n + 4107 < 0x1_0000_0000
    ensures (Pages(n) - 1) * 4096 < n + 12 <= Pages(n) * 4096
    ensures IsLeastRoom(Pages(n) * PAGE, n)
  {}

  /** The largest sizes wrap: for this one the expansion comes out as no page at all. */
  lemma WrappedExpansionIsEmpty()
    ensures var n: word := 0xFFFF_F000; Pages(n) == 0 && n + HEADER + PAGE - 1 >= TWO32
  {}

  function NewBlock(h: State, n: nat): Block
    requires Pages(n) > 0
  {
    Block(h.end, Pages(n) * PAGE - HEADER, true)
  }

  /** One expansion when the pager can supply `grant` pages before it runs out. */
  function Expand(h: State, n: nat, grant: nat, g: Growth): State
    requires Pages(n) > 0
  {
    if grant >= Pages(n) then h.(chain := h.chain + [NewBlock(h, n)], end := h.end + Pages(n) * PAGE)
    else if g.KeepsPages? then h.(end := h.end + grant * PAGE, lost := h.lost + grant)
    else h
  }

  lemma ExpandKeepsSound(h: State, n: nat, grant: nat, g: Growth)
    requires Sound(h, g) && Pages(n) > 0
    ensures Sound(Expand(h, n, grant, g), g)
  {
    if grant >= Pages(n) {
      LayoutAppend(h.chain, h.base, h.end, NewBlock(h, n), g.RollsBack?);
    } else if g.KeepsPages? {
      LayoutRaise(h.chain, h.base, h.end, h.end + grant * PAGE);
    }
  }

  lemma ExpandTakesLeastRoom(h: State, n: nat, grant: nat, g: Growth)
    requires SizeOk(n) && grant >= Pages(n)
    ensures Pages(n) > 0 && IsLeastRoom(Expand(h, n, grant, g).end - h.end, n)
  {
    ExpansionIsLeast(n);
    hide IsLeastRoom;
  }

  /** An empty heap hands out its first bytes behind the first header. */
  lemma FirstMalloc(a: nat, n: nat, grant: nat, g: Growth)
    requires SizeOk(n) && 0 < n && Pages(n) > 0
    ensures var (h', p) := Malloc(State(a, [], a, 0), n, grant, g);
            if grant >= Pages(n) then p == a + 12 && h'.end == a + Pages(n) * 4096 else p == 0
  {
    assert FirstFit([], n) == 0;
    hide FirstFit;
  }

  lemma ExpandKeepsLive(h: State, n: nat, grant: nat, g: Growth)
    requires Pages(n) > 0
    ensures Live(Expand(h, n, grant, g).chain) == Live(h.chain)
  {}

  // ---------------------------------------------------------------- kmalloc / umalloc

  predicate SizeOk(n: nat) { n + HEADER + PAGE - 1 < TWO32 }

  /** An allocation that fits nowhere makes the heap expand. */
  predicate Expands(h: State, n: nat) { n > 0 && FirstFit(h.chain, n) == |h.chain| }

  function Malloc(h: State, n: nat, grant: nat, g: Growth): (State, nat)
    requires SizeOk(n)
  {
    var i := FirstFit(h.chain, n);
    if n == 0 then (h, 0)
    else if i < |h.chain| then (h.(chain := Take(h.chain, i, n)), h.chain[i].Payload())
    else
      var e := Expand(h, n, grant, g);
      if grant < Pages(n) then (e, 0)
      else (e.(chain := Take(e.chain, i, n)), e.chain[i].Payload())
  }

  /** After a successful expansion the first-fit retry finds the appended block and nothing else. */
  lemma RetryTakesNewBlock(h: State, n: nat, grant: nat, g: Growth)
    requires SizeOk(n) && FirstFit(h.chain, n) == |h.chain| && grant >= Pages(n)
    ensures var e := Expand(h, n, grant, g);
            FirstFit(e.chain, n) == |h.chain| && e.chain[|h.chain|] == NewBlock(h, n)
  {}

  lemma FirstFitIsLowest(h: State, n: nat, g: Growth, b: Block)
    requires Inv(h, g) && b in h.chain && Fits(b, n)
    ensures FirstFit(h.chain, n) < |h.chain|
    ensures h.chain[FirstFit(h.chain, n)].addr <= b.addr
  {
    var k :| 0 <= k < |h.chain| && h.chain[k] == b;
    LayoutBounds(h.chain, h.base, h.end, g.RollsBack?);
    assert FirstFit(h.chain, n) <= k;
  }

  /** `kmalloc` returns NULL only for an empty request or a failed expansion. */
  lemma MallocFailsOnlyWithoutSpace(h: State, n: nat, grant: nat, g: Growth)
    requires SizeOk(n) && Inv(h, g)
    ensures Malloc(h, n, grant, g).1 == 0 <==>
            n == 0 || ((forall b | b in h.chain :: !Fits(b, n)) && grant < Pages(n))
  {}

  /** Canonical on both sides of position `i`: all that the retry after an expansion can rely on. */
  ghost predicate CanonicalAround(c: Chain, i: nat)
    requires i <= |c|
  {
    Canonical(c[..i]) && Canonical(c[i..])
  }

  lemma CanonicalIsCanonicalAround(c: Chain, i: nat)
    requires i <= |c| && Canonical(c)
    ensures CanonicalAround(c, i)
  {}

  /** Carving the chosen block of a heap whose list is canonical on both sides of it. */
  lemma TakeKeepsInv(e: State, i: nat, n: nat, g: Growth) returns (b: Block)
    requires Sound(e, g) && i < |e.chain| && CanonicalAround(e.chain, i) && Fits(e.chain[i], n)
    ensures Inv(e.(chain := Take(e.chain, i, n)), g)
    ensures b.addr == e.chain[i].addr && !b.free && n <= b.size <= n + 15
    ensures Live(Take(e.chain, i, n)) == Live(e.chain) + {b}
    ensures forall o | o in Live(e.chain) :: o.addr != b.addr
  {
    TakeLayout(e.chain, i, n, e.base, e.end, g.RollsBack?);
    TakeCanonical(e.chain, i, n);
    b := TakeLive(e.chain, i, n);
    LayoutBounds(e.chain, e.base, e.end, g.RollsBack?);
    forall o | o in Live(e.chain) ensures o.addr != b.addr {
      var k :| 0 <= k < |e.chain| && e.chain[k] == o;
      assert k < i || i < k;
    }
  }

  /** Between calls the list is canonical; the retry meets it canonical around the appended block only. */
  ghost predicate Ready(c: Chain, n: nat) {
    Canonical(c) || (n > 0 && CanonicalAround(c, FirstFit(c, n)))
  }

  /** Where nothing fits, being ready is being canonical; for an empty request as well. */
  lemma ReadyForGrowth(c: Chain, n: nat)
    requires Ready(c, n) && FirstFit(c, n) == |c|
    ensures Canonical(c)
  {
    assert c[..|c|] == c;
  }

  /** The state the retry starts from. */
  lemma GrownIsReady(h: State, n: nat, grant: nat, g: Growth)
    requires SizeOk(n) && n > 0 && Canonical(h.chain) && grant >= Pages(n) && FirstFit(h.chain, n) == |h.chain|
    ensures Ready(Expand(h, n, grant, g).chain, n)
  {}

  /** An allocation restores the canonical form, also from the state in which the retry starts. */
  lemma MallocFromReady(h: State, n: nat, grant: nat, g: Growth)
    requires SizeOk(n) && Sound(h, g) && Ready(h.chain, n)
    ensures Inv(Malloc(h, n, grant, g).0, g)
  {
    var i := FirstFit(h.chain, n);
    if n > 0 {
      if Canonical(h.chain) { CanonicalIsCanonicalAround(h.chain, i); }
      if i < |h.chain| {
        var b := TakeKeepsInv(h, i, n, g);
      } else {
        assert h.chain[..i] == h.chain;
        var b := MallocKeepsInv(h, n, grant, g);
      }
    }
  }

  lemma MallocKeepsInv(h: State, n: nat, grant: nat, g: Growth) returns (b: Block)
    requires SizeOk(n) && Inv(h, g)
    ensures Inv(Malloc(h, n, grant, g).0, g)
    ensures var (h', p) := Malloc(h, n, grant, g);
            if p == 0 then Live(h'.chain) == Live(h.chain)
            else b.Payload() == p && !b.free && n <= b.size <= n + 15
                 && Live(h'.chain) == Live(h.chain) + {b}
                 && forall o | o in Live(h.chain) :: o.addr != b.addr
  {
    b := Block(0, 0, false);
    var i := FirstFit(h.chain, n);
    if n == 0 {
    } else if i < |h.chain| {
      CanonicalIsCanonicalAround(h.chain, i);
      b := TakeKeepsInv(h, i, n, g);
    } else {
      ExpandKeepsSound(h, n, grant, g);
      if grant >= Pages(n) {
        var e := Expand(h, n, grant, g);
        assert e.chain[..i] == h.chain && e.chain[i..] == [NewBlock(h, n)];
        ExpandKeepsLive(h, n, grant, g);
        b := TakeKeepsInv(e, i, n, g);
      }
    }
  }

  /** Where an allocation leaves the heap's end when growth supplies `grant` pages. */
  lemma MallocEnd(h: State, n: nat, grant: nat, g: Growth)
    requires SizeOk(n) && Inv(h, g) && grant <= Pages(n) && (g.RollsBack? ==> grant == 0 || grant == Pages(n))
    ensures var h' := Malloc(h, n, grant, g).0;
            Inv(h', g) && h'.base == h.base && h'.end == h.end + if Expands(h, n) then grant * PAGE else 0
  {
    var b := MallocKeepsInv(h, n, grant, g);
    hide Inv;
  }

  /** An allocation that expands the heap and succeeds moves its end by the least room for it; others leave it. */
  lemma MallocTakesLeastRoom(h: State, n: nat, grant: nat, g: Growth)
    requires SizeOk(n)
    ensures var (h', p) := Malloc(h, n, grant, g); TakesLeastRoom(h, n, h', p)
  {
    ExpansionIsLeast(n);
    hide IsLeastRoom;
  }

  ghost predicate TakesLeastRoom(h: State, n: nat, h': State, p: nat) {
    && (Expands(h, n) && p != 0 ==> IsLeastRoom(h'.end - h.end, n))
    && (!Expands(h, n) ==> h'.end == h.end)
  }

  // ---------------------------------------------------------------- kfree / ufree

  /** Index of the block whose payload starts at `p`, or the chain's length. */
  function IndexOf(c: Chain, p: nat): (i: nat)
    ensures i <= |c|
    ensures i < |c| ==> c[i].Payload() == p
    ensures forall k | 0 <= k < i :: c[k].Payload() != p
  {
    if c == [] || c[0].Payload() == p then 0 else 1 + IndexOf(c[1..], p)
  }

  predicate IsLive(c: Chain, p: nat) {
    var i := IndexOf(c, p); i < |c| && !c[i].free
  }

  function Freed(c: Chain, i: nat): Chain
    requires i < |c|
  {
    c[i := c[i].(free := true)]
  }

  /** `kfree`: NULL is ignored, a live pointer is released and the list coalesced. */
  function Free(h: State, p: nat): State
    requires p == 0 || IsLive(h.chain, p)
  {
    if p == 0 then h else h.(chain := Coalesce(Freed(h.chain, IndexOf(h.chain, p))))
  }

  lemma {:induction false} FreedLayout(c: Chain, i: nat, lo: nat, hi: nat, tight: bool)
    requires i < |c| && Layout(c, lo, hi, tight)
    ensures Layout(Freed(c, i), lo, hi, tight) && Total(Freed(c, i)) == Total(c)
  {
    if i == 0 {
      assert Freed(c, i)[1..] == c[1..];
    } else {
      assert Freed(c, i)[1..] == Freed(c[1..], i - 1);
      FreedLayout(c[1..], i - 1, c[0].End(), hi, tight);
    }
  }

  lemma FreeKeepsInv(h: State, p: nat, g: Growth)
    requires Inv(h, g) && IsLive(h.chain, p)
    ensures Inv(Free(h, p), g)
    ensures var b := h.chain[IndexOf(h.chain, p)];
            b in Live(h.chain) && b.Payload() == p && Live(Free(h, p).chain) == Live(h.chain) - {b}
  {
    var c, i := h.chain, IndexOf(h.chain, p);
    FreedLayout(c, i, h.base, h.end, g.RollsBack?);
    CoalesceLayout(Freed(c, i), h.base, h.end, g.RollsBack?);
    CoalesceLive(Freed(c, i));
    LayoutBounds(c, h.base, h.end, g.RollsBack?);
    FreedLive(c, i, h.end);
  }

  /** Freeing one block takes that block, and no other, out of the live ones. */
  lemma FreedLive(c: Chain, i: nat, hi: nat)
    requires Apart(c, hi) && i < |c| && !c[i].free
    ensures Live(Freed(c, i)) == Live(c) - {c[i]}
  {
    var f := Freed(c, i);
    forall x ensures x in Live(f) <==> x in Live(c) - {c[i]} {
      if x in Live(f) {
        var k :| 0 <= k < |f| && f[k] == x;
        assert c[k] == x && (k < i || k > i);
      }
      if x in Live(c) && x != c[i] {
        var k :| 0 <= k < |c| && c[k] == x;
        assert f[k] == x;
      }
    }
  }

  lemma IndexIsPosition(c: Chain, lo: nat, hi: nat, tight: bool, k: nat)
    requires Layout(c, lo, hi, tight) && k < |c|
    ensures IndexOf(c, c[k].Payload()) == k
  {
    LayoutBounds(c, lo, hi, tight);
    assert IndexOf(c, c[k].Payload()) <= k;
  }

  /** Every live block has a pointer that names it, whatever else is in the chain. */
  lemma LiveIsNamed(h: State, g: Growth, b: Block)
    requires Inv(h, g) && b in Live(h.chain)
    ensures IsLive(h.chain, b.Payload()) && h.chain[IndexOf(h.chain, b.Payload())] == b
  {
    var k :| 0 <= k < |h.chain| && h.chain[k] == b;
    IndexIsPosition(h.chain, h.base, h.end, g.RollsBack?, k);
  }

  /** What a client sees that knows nothing but the pointers it was given. */
  ghost function Pointers(h: State): set<nat> { set b | b in Live(h.chain) :: b.Payload() }

  /** To such a client an allocation is NULL and nothing else, or a pointer that was not live. */
  lemma MallocGivesFreshPointer(h: State, n: nat, grant: nat, g: Growth)
    requires SizeOk(n) && Inv(h, g)
    ensures var (h', p) := Malloc(h, n, grant, g);
            && 0 !in Pointers(h) && (n == 0 ==> p == 0)
            && if p == 0 then Pointers(h') == Pointers(h) else p !in Pointers(h) && Pointers(h') == Pointers(h) + {p}
  {
    var b := MallocKeepsInv(h, n, grant, g);
    hide Inv, Malloc, Live;
  }

  /** And a release takes the pointer it is given, and no other, out of the live ones. */
  lemma FreeTakesPointer(h: State, p: nat, g: Growth)
    requires Inv(h, g) && p in Pointers(h)
    ensures IsLive(h.chain, p) && Pointers(Free(h, p)) == Pointers(h) - {p}
  {
    var b :| b in Live(h.chain) && b.Payload() == p;
    LiveIsNamed(h, g, b);
    FreeKeepsInv(h, p, g);
    forall o | o in Live(h.chain) && o != b ensures o.Payload() != p { LiveIsNamed(h, g, o); }
    hide Inv, Free, Live;
  }

  /** Allocating without growth and freeing the result restores the very same heap. */
  lemma FreeUndoesMalloc(h: State, n: nat, grant: nat, g: Growth)
    requires SizeOk(n) && n > 0 && Inv(h, g) && FirstFit(h.chain, n) < |h.chain|
    ensures var (h', p) := Malloc(h, n, grant, g);
            IsLive(h'.chain, p) && Free(h', p) == h
  {
    var (h', p) := Malloc(h, n, grant, g);
    var i := FirstFit(h.chain, n);
    var b := TakeLive(h.chain, i, n);
    TakeLayout(h.chain, i, n, h.base, h.end, g.RollsBack?);
    IndexIsPosition(h'.chain, h.base, h.end, g.RollsBack?, i);
    CoalesceUndoesSplit(h.chain, i, n);
  }

  // ---------------------------------------------------------------- runs

  datatype Op = Alloc(n: nat, grant: nat) | Release(p: nat)

  /** A heap together with its client's view: each pointer held and the size asked for. */
  datatype Session = Session(heap: State, held: map<nat, nat>)

  /** What the allocator asks of its client: no wrapping size, and only pointers it holds (or NULL) are freed. */
  ghost predicate Legal(s: Session, op: Op) {
    match op
    case Alloc(n, _) => SizeOk(n)
    case Release(p) => p == 0 || p in s.held
  }

  ghost function Step(s: Session, op: Op, g: Growth): Session {
    match op
    case Alloc(n, grant) =>
      if !SizeOk(n) then s else
      var (h, p) := Malloc(s.heap, n, grant, g);
      Session(h, if p == 0 then s.held else s.held[p := n])
    case Release(p) =>
      if p != 0 && !IsLive(s.heap.chain, p) then s else
      Session(Free(s.heap, p), s.held - {p})
  }

  ghost predicate LegalRun(s: Session, ops: seq<Op>, g: Growth)
    decreases |ops|
  {
    ops == [] || (Legal(s, ops[0]) && LegalRun(Step(s, ops[0], g), ops[1..], g))
  }

  ghost function Run(s: Session, ops: seq<Op>, g: Growth): Session
    decreases |ops|
  {
    if ops == [] then s else Run(Step(s, ops[0], g), ops[1..], g)
  }

  /** The client's pointers are exactly the live payloads, each with the room that was asked for. */
  ghost predicate SessionInv(s: Session, g: Growth) {
    Inv(s.heap, g) && Covers(s.held, Live(s.heap.chain)) && Names(s.held, s.heap.chain)
  }

  ghost predicate Covers(held: map<nat, nat>, live: set<Block>) {
    forall b | b in live :: b.Payload() in held && held[b.Payload()] <= b.size <= held[b.Payload()] + 15
  }

  ghost predicate Names(held: map<nat, nat>, c: Chain) {
    forall p | p in held :: IsLive(c, p)
  }

  /** A pointer keeps naming its block as long as the block stays live. */
  lemma StillNamed(held: map<nat, nat>, c: Chain, t: State, g: Growth)
    requires Inv(t, g) && Names(held, c) && forall p | p in held :: IsLive(c, p) && c[IndexOf(c, p)] in Live(t.chain)
    ensures Names(held, t.chain)
  {
    forall p | p in held ensures IsLive(t.chain, p) { LiveIsNamed(t, g, c[IndexOf(c, p)]); }
  }

  lemma NamedAreLive(held: map<nat, nat>, c: Chain)
    requires Names(held, c)
    ensures forall p | p in held :: IsLive(c, p) && c[IndexOf(c, p)] in Live(c)
  {}

  lemma NameHasBlock(held: map<nat, nat>, c: Chain, p: nat)
    requires Names(held, c) && p in held
    ensures exists b :: b in Live(c) && b.Payload() == p
  {
    assert c[IndexOf(c, p)] in Live(c);
  }

  /** A new block is entered under its own name. */
  lemma CoversNew(held: map<nat, nat>, live: set<Block>, b: Block, n: nat)
    requires Covers(held, live) && n <= b.size <= n + 15 && forall o | o in live :: o.addr != b.addr
    ensures Covers(held[b.Payload() := n], live + {b})
  {}

  lemma NamesNew(held: map<nat, nat>, c: Chain, t: State, g: Growth, b: Block, n: nat)
    requires Inv(t, g) && Names(held, c) && Live(t.chain) == Live(c) + {b}
    requires forall o | o in Live(c) :: o.addr != b.addr
    ensures Names(held[b.Payload() := n], t.chain) && b.Payload() !in held
  {
    NamedAreLive(held, c);
    StillNamed(held, c, t, g);
    LiveIsNamed(t, g, b);
    hide Inv, IsLive, Live;
    if b.Payload() in held { NameHasBlock(held, c, b.Payload()); }
  }

  /** The pointer handed out, if any, is not one the client holds already. */
  lemma AllocKeepsSession(s: Session, n: nat, grant: nat, g: Growth)
    requires SessionInv(s, g) && SizeOk(n)
    ensures SessionInv(Step(s, Alloc(n, grant), g), g)
    ensures Live(s.heap.chain) <= Live(Step(s, Alloc(n, grant), g).heap.chain)
    ensures Malloc(s.heap, n, grant, g).1 !in s.held
  {
    var c, t := s.heap.chain, Step(s, Alloc(n, grant), g);
    var b := MallocKeepsInv(s.heap, n, grant, g);
    assert t.heap == Malloc(s.heap, n, grant, g).0;
    NamedAreLive(s.held, c);
    if Malloc(s.heap, n, grant, g).1 == 0 {
      hide Malloc, Inv, Live, IsLive;
      StillNamed(s.held, c, t.heap, g);
      if 0 in s.held { NameHasBlock(s.held, c, 0); }
    } else {
      hide Malloc, Inv, Live, IsLive;
      CoversNew(s.held, Live(c), b, n);
      NamesNew(s.held, c, t.heap, g, b, n);
    }
  }

  lemma ReleaseKeepsSession(s: Session, p: nat, g: Growth)
    requires SessionInv(s, g) && p in s.held
    ensures SessionInv(Step(s, Release(p), g), g)
    ensures forall b | b in Live(s.heap.chain) && b.Payload() != p :: b in Live(Step(s, Release(p), g).heap.chain)
  {
    var c, t := s.heap.chain, Step(s, Release(p), g);
    assert IsLive(c, p);
    FreeKeepsInv(s.heap, p, g);
    NamedAreLive(s.held, c);
    var f := c[IndexOf(c, p)];
    forall b | b in Live(c) && b != f ensures b.Payload() != p { LiveIsNamed(s.heap, g, b); }
    hide Inv, Free, IsLive, Live;
    CoversLess(s.held, Live(c), f);
    NamesLess(s.held, c, t.heap, g, p);
  }

  lemma CoversLess(held: map<nat, nat>, live: set<Block>, f: Block)
    requires Covers(held, live) && forall b | b in live && b != f :: b.Payload() != f.Payload()
    ensures Covers(held - {f.Payload()}, live - {f})
  {}

  lemma NamesLess(held: map<nat, nat>, c: Chain, t: State, g: Growth, p: nat)
    requires Inv(t, g) && Names(held, c) && p in held && IsLive(c, p) && Live(t.chain) == Live(c) - {c[IndexOf(c, p)]}
    ensures Names(held - {p}, t.chain)
  {
    NamedAreLive(held, c);
    hide Inv, IsLive, Live;
    StillNamed(held - {p}, c, t, g);
  }

  /** Safety of whole runs, and persistence: a live block stays as it is until its pointer is freed. */
  lemma {:induction false} RunKeepsSession(s: Session, ops: seq<Op>, g: Growth)
    requires SessionInv(s, g) && LegalRun(s, ops, g)
    ensures SessionInv(Run(s, ops, g), g)
    ensures forall b | b in Live(s.heap.chain) && Release(b.Payload()) !in ops ::
              b in Live(Run(s, ops, g).heap.chain)
    decreases |ops|
  {
    if ops != [] {
      var t := Step(s, ops[0], g);
      match ops[0] {
        case Alloc(n, grant) => AllocKeepsSession(s, n, grant, g);
        case Release(p) => if p in s.held { ReleaseKeepsSession(s, p, g); }
      }
      assert SessionInv(t, g) by { if ops[0] == Release(0) && 0 !in s.held { assert t.held == s.held; } }
      RunKeepsSession(t, ops[1..], g);
      assert forall b: Block :: Release(b.Payload()) !in ops ==> ops[0] != Release(b.Payload()) && Release(b.Payload()) !in ops[1..];
    }
  }

  /** What the invariant says of the memory: live payloads overlap neither each other nor any header. */
  lemma LivePayloadsAreDisjoint(h: State, g: Growth, b: Block, o: Block)
    requires Inv(h, g) && b in Live(h.chain) && o in h.chain && o != b
    ensures h.base <= b.addr && b.End() <= h.end
    ensures o.End() <= b.addr || b.End() <= o.addr
  {
    LayoutBounds(h.chain, h.base, h.end, g.RollsBack?);
    var i :| 0 <= i < |h.chain| && h.chain[i] == b;
    var j :| 0 <= j < |h.chain| && h.chain[j] == o;
    assert i < j || j < i;
  }

  /** With every pointer freed, one free block is left, and it lacks only its own header. */
  lemma AllFreeIsOneBlock(s: Session, g: Growth)
    requires SessionInv(s, g) && s.held.Keys == {} && s.heap.chain != []
    ensures s.heap.chain == [Block(s.heap.chain[0].addr, Total(s.heap.chain) - HEADER, true)]
    ensures Total(s.heap.chain) == s.heap.end - s.heap.base - s.heap.lost * PAGE
  {}

  lemma ReleaseKeepsSpan(s: Session, p: nat, g: Growth)
    requires SessionInv(s, g) && p in s.held
    ensures var t := Step(s, Release(p), g);
            && t.held == s.held - {p}
            && t.heap == s.heap.(chain := t.heap.chain)
            && t.heap.chain != [] && s.heap.chain != [] && t.heap.chain[0].addr == s.heap.chain[0].addr
            && Total(t.heap.chain) == Total(s.heap.chain)
  {
    assert IsLive(s.heap.chain, p);
    var i := IndexOf(s.heap.chain, p);
    FreedLayout(s.heap.chain, i, s.heap.base, s.heap.end, g.RollsBack?);
    CoalesceLayout(Freed(s.heap.chain, i), s.heap.base, s.heap.end, g.RollsBack?);
  }

  ghost function Releases(ps: seq<nat>): seq<Op> {
    if ps == [] then [] else [Release(ps[0])] + Releases(ps[1..])
  }

  /** `ps` lists every element of `k` exactly once. */
  ghost predicate Enumerates(ps: seq<nat>, k: set<nat>) {
    if ps == [] then k == {} else ps[0] in k && Enumerates(ps[1..], k - {ps[0]})
  }

  lemma ReleaseFirst(s: Session, ps: seq<nat>, g: Growth) returns (t: Session)
    requires SessionInv(s, g) && ps != [] && ps[0] in s.held
    ensures SessionInv(t, g) && t.held.Keys == s.held.Keys - {ps[0]}
    ensures t.heap.chain != [] && s.heap.chain != [] && t.heap.chain[0].addr == s.heap.chain[0].addr
    ensures Total(t.heap.chain) == Total(s.heap.chain)
    ensures Run(s, Releases(ps), g) == Run(t, Releases(ps[1..]), g)
    ensures LegalRun(t, Releases(ps[1..]), g) ==> LegalRun(s, Releases(ps), g)
  {
    t := Step(s, Release(ps[0]), g);
    ReleaseKeepsSession(s, ps[0], g);
    ReleaseKeepsSpan(s, ps[0], g);
    assert Releases(ps)[0] == Release(ps[0]) && Releases(ps)[1..] == Releases(ps[1..]);
  }

  ghost predicate OneFreeBlock(s: Session, addr: nat, total: nat) {
    s.held.Keys == {} && total >= HEADER && s.heap.chain == [Block(addr, total - HEADER, true)]
  }

  /** Freeing every held pointer once, in any order, ends in that one block. */
  lemma {:induction false} FreeingAllInAnyOrder(s: Session, ps: seq<nat>, g: Growth)
    requires SessionInv(s, g) && s.heap.chain != []
    requires Enumerates(ps, s.held.Keys)
    ensures LegalRun(s, Releases(ps), g)
    ensures OneFreeBlock(Run(s, Releases(ps), g), s.heap.chain[0].addr, Total(s.heap.chain))
    decreases |ps|
  {
    if ps == [] {
      AllFreeIsOneBlock(s, g);
    } else {
      var t := ReleaseFirst(s, ps, g);
      FreeingAllInAnyOrder(t, ps[1..], g);
    }
  }
}
