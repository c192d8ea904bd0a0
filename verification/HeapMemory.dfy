/**
 The heaps as the kernel runs them: 12-byte headers stored in the same bytes as the payloads,
 list walking through pointers, and header fields written in place.
 */
module HeapMemory {
  import opened Basics
  import opened HeapChain
  import opened HeapPages
  import Spec = HeapRuns
  import Space
  import Runs = SpaceRuns
  import Pager

  // ---------------------------------------------------------------- headers in memory

  /** A header is `size` at offset 0, `is_free` at 4 and `next` at 8; the three bytes between are padding. */
  ghost predicate HeaderAt(m: seq<byte>, b: Block, next: nat) {
    && b.addr + HEADER <= |m|
    && Word(m, b.addr) == b.size
    && m[b.addr + 4] == (if b.free then 1 else 0)
    && Word(m, b.addr + 8) == next
  }

  /** The pointer to position `i` of the chain: NULL past the end. */
  ghost function Link(c: Chain, i: nat): nat {
    if i < |c| then c[i].addr else 0
  }

  /** The header of the block at position `i` is in memory and points to position `i + 1`. */
  ghost predicate NodeAt(m: seq<byte>, c: Chain, i: nat)
    requires i < |c|
  {
    HeaderAt(m, c[i], Link(c, i + 1))
  }

  ghost predicate Represents(m: seq<byte>, start: nat, c: Chain) {
    start == Link(c, 0) && forall i | 0 <= i < |c| :: NodeAt(m, c, i)
  }

  /** What walking to position `i` reads there. */
  lemma ReadNode(m: seq<byte>, start: nat, c: Chain, i: nat)
    requires Represents(m, start, c) && i < |c|
    ensures c[i].addr + HEADER <= |m| && Word(m, c[i].addr) == c[i].size
    ensures m[c[i].addr + 4] != 0 <==> c[i].free
    ensures Word(m, c[i].addr + 8) == Link(c, i + 1)
  {
    assert NodeAt(m, c, i);
  }

  /** No byte of a payload that is live in `c` differs. */
  ghost predicate PayloadsKept(c: Chain, m: seq<byte>, n: seq<byte>) {
    |m| == |n| && forall b, k | b in Live(c) && b.Payload() <= k < b.End() && k < |m| :: n[k] == m[k]
  }

  lemma HeaderKept(m: seq<byte>, n: seq<byte>, b: Block, next: nat)
    requires HeaderAt(m, b, next) && |n| == |m|
    requires forall k | b.addr <= k < b.addr + HEADER :: n[k] == m[k]
    ensures HeaderAt(n, b, next)
  {}

  /** A client that writes only inside live payloads cannot damage the list. */
  lemma PayloadWritesKeepHeaders(m: seq<byte>, n: seq<byte>, start: nat, h: Spec.State, g: Growth)
    requires Spec.Inv(h, g) && Represents(m, start, h.chain) && |m| == |n|
    requires forall k | 0 <= k < |m| && n[k] != m[k] :: exists b :: b in Live(h.chain) && b.Payload() <= k < b.End()
    ensures Represents(n, start, h.chain)
  {
    forall i | 0 <= i < |h.chain| ensures NodeAt(n, h.chain, i) {
      assert NodeAt(m, h.chain, i);
      var a := h.chain[i].addr;
      forall k | a <= k < a + HEADER ensures n[k] == m[k] {
        if n[k] != m[k] {
          var b :| b in Live(h.chain) && b.Payload() <= k < b.End();
          if b != h.chain[i] { Spec.LivePayloadsAreDisjoint(h, g, b, h.chain[i]); }
          assert false;
        }
      }
      HeaderKept(m, n, h.chain[i], Link(h.chain, i + 1));
    }
  }

  // ---------------------------------------------------------------- effect of each write on the list

  /** NULL as the start of the list: it is empty, and whatever is asked for makes it expand. */
  lemma EmptyExpands(m: seq<byte>, start: nat, h: Spec.State, g: Growth, n: nat)
    requires Spec.Sound(h, g) && Represents(m, start, h.chain) && 0 < n
    ensures start == 0 <==> h.chain == []
    ensures start == 0 ==> Spec.Expands(h, n)
  {
    LayoutBounds(h.chain, h.base, h.end, g.RollsBack?);
  }

  lemma HeadersOutside(m: seq<byte>, n: seq<byte>, c: Chain, a: nat, len: nat)
    requires SameOutside(m, n, a, len)
    requires forall i | 0 <= i < |c| :: NodeAt(m, c, i)
    ensures forall i | 0 <= i < |c| && (c[i].Payload() <= a || a + len <= c[i].addr) :: NodeAt(n, c, i)
  {
    forall i | 0 <= i < |c| && (c[i].Payload() <= a || a + len <= c[i].addr) ensures NodeAt(n, c, i) {
      assert NodeAt(m, c, i);
      HeaderKept(m, n, c[i], Link(c, i + 1));
    }
  }

  /** A write inside block `i`, and inside its header if the block is live, spares every live payload. */
  lemma PayloadsOutside(m: seq<byte>, n: seq<byte>, c: Chain, hi: nat, i: nat, a: nat, len: nat)
    requires Apart(c, hi) && i < |c| && SameOutside(m, n, a, len)
    requires c[i].addr <= a && a + len <= if c[i].free then c[i].End() else c[i].Payload()
    ensures PayloadsKept(c, m, n)
  {}

  /** Writing a header behind the last block touches nothing of the chain. */
  lemma FreshHeader(m: seq<byte>, n: seq<byte>, start: nat, c: Chain, hi: nat)
    requires Apart(c, hi) && Represents(m, start, c) && SameOutside(m, n, hi, HEADER)
    ensures Represents(n, start, c) && PayloadsKept(c, m, n)
  {
    HeadersOutside(m, n, c, hi, HEADER);
    forall b | b in Live(c) ensures b.End() <= hi {
      var j :| 0 <= j < |c| && c[j] == b;
    }
  }

  lemma PayloadsKeptBoth(c: Chain, d: Chain, m: seq<byte>, n: seq<byte>, o: seq<byte>)
    requires PayloadsKept(c, m, n) && PayloadsKept(d, n, o) && Live(c) <= Live(d)
    ensures PayloadsKept(c, m, o)
  {}

  function Splice(c: Chain, i: nat, j: nat, v: Chain): Chain
    requires i <= j <= |c|
  {
    c[..i] + v + c[j..]
  }

  /** Replacing positions `[i, j)` by `v`: enough that `v` starts where they did and links on to `j`. */
  lemma SpliceRepresents(m: seq<byte>, n: seq<byte>, start: nat, c: Chain, i: nat, j: nat, v: Chain)
    requires i < j <= |c| && Represents(m, start, c) && v != [] && v[0].addr == c[i].addr
    requires forall k | 0 <= k < |c| && (k < i || j <= k) :: NodeAt(n, c, k)
    requires forall k | 0 <= k < |v| - 1 :: NodeAt(n, v, k)
    requires HeaderAt(n, v[|v| - 1], Link(c, j))
    ensures Represents(n, start, Splice(c, i, j, v))
  {
    var t := Splice(c, i, j, v);
    forall k | 0 <= k < |t| ensures NodeAt(n, t, k) {
      if k < i {
        assert NodeAt(n, c, k) && t[k] == c[k] && Link(t, k + 1) == Link(c, k + 1);
      } else if k < i + |v| {
        assert t[k] == v[k - i];
        assert k - i == |v| - 1 || (NodeAt(n, v, k - i) && Link(t, k + 1) == Link(v, k - i + 1));
      } else {
        var o := k - i - |v| + j;
        assert NodeAt(n, c, o) && t[k] == c[o] && Link(t, k + 1) == Link(c, o + 1);
      }
    }
  }

  /** Header writes confined to block `i`, which was free, turn the chain into the carved one. */
  lemma ClaimRepresents(m: seq<byte>, n: seq<byte>, start: nat, c: Chain, hi: nat, i: nat, size: nat)
    requires Apart(c, hi) && Represents(m, start, c) && i < |c| && Fits(c[i], size)
    requires SameOutside(m, n, c[i].addr, HEADER + c[i].size)
    requires Carved(n, c[i], size, Link(c, i + 1))
    ensures Represents(n, start, Take(c, i, size)) && PayloadsKept(c, m, n)
  {
    HeadersOutside(m, n, c, c[i].addr, HEADER + c[i].size);
    PayloadsOutside(m, n, c, hi, i, c[i].addr, HEADER + c[i].size);
    SpliceRepresents(m, n, start, c, i, i + 1, Carve(c[i], size));
  }

  ghost predicate Carved(m: seq<byte>, b: Block, n: nat, next: nat)
    requires Fits(b, n)
  {
    var v := Carve(b, n);
    if |v| == 1 then HeaderAt(m, v[0], next) else NodeAt(m, v, 0) && HeaderAt(m, v[1], next)
  }

  lemma FreedRepresents(m: seq<byte>, n: seq<byte>, start: nat, c: Chain, hi: nat, i: nat)
    requires Apart(c, hi) && Represents(m, start, c) && i < |c| && hi <= |m|
    requires SameOutside(m, n, c[i].addr, HEADER) && HeaderAt(n, c[i].(free := true), Link(c, i + 1))
    ensures Represents(n, start, Spec.Freed(c, i)) && PayloadsKept(c, m, n)
  {
    HeadersOutside(m, n, c, c[i].addr, HEADER);
    PayloadsOutside(m, n, c, hi, i, c[i].addr, HEADER);
    SpliceRepresents(m, n, start, c, i, i + 1, [c[i].(free := true)]);
    FreedIsSplice(c, i);
  }

  lemma FreedApart(c: Chain, hi: nat, i: nat)
    requires Apart(c, hi) && i < |c|
    ensures Apart(Spec.Freed(c, i), hi) && Live(Spec.Freed(c, i)) <= Live(c)
  {}

  lemma FreedAbove(c: Chain, i: nat, lo: nat)
    requires i < |c| && forall k | 0 <= k < |c| :: lo <= c[k].addr
    ensures AllAbove(Spec.Freed(c, i), lo)
  {}

  lemma PayloadsKeptTwice(c: Chain, f: Chain, r: Chain, m: seq<byte>, n: seq<byte>, o: seq<byte>)
    requires PayloadsKept(c, m, n) && PayloadsKept(f, n, o) && Live(f) <= Live(c) && r == Coalesce(f)
    ensures PayloadsKept(r, m, o)
  {
    CoalesceLive(f);
  }

  lemma FreedIsSplice(c: Chain, i: nat)
    requires i < |c|
    ensures Splice(c, i, i + 1, [c[i].(free := true)]) == Spec.Freed(c, i)
  {}

  function Merged(c: Chain, i: nat): Chain
    requires i + 1 < |c|
  {
    Splice(c, i, i + 2, [Merge(c[i], c[i + 1])])
  }

  lemma MergedRepresents(m: seq<byte>, n: seq<byte>, start: nat, c: Chain, hi: nat, i: nat)
    requires Apart(c, hi) && Represents(m, start, c) && i + 1 < |c| && c[i].free && c[i + 1].free
    requires SameOutside(m, n, c[i].addr, HEADER)
    requires HeaderAt(n, Merge(c[i], c[i + 1]), Link(c, i + 2))
    ensures Represents(n, start, Merged(c, i)) && PayloadsKept(c, m, n)
  {
    HeadersOutside(m, n, c, c[i].addr, HEADER);
    PayloadsOutside(m, n, c, hi, i, c[i].addr, HEADER);
    SpliceRepresents(m, n, start, c, i, i + 2, [Merge(c[i], c[i + 1])]);
  }

  lemma MergedApart(c: Chain, hi: nat, i: nat)
    requires Apart(c, hi) && i + 1 < |c|
    ensures Apart(Merged(c, i), hi)
  {}

  lemma MergedLive(c: Chain, i: nat)
    requires i + 1 < |c| && c[i].free && c[i + 1].free
    ensures Live(Merged(c, i)) == Live(c)
  {}

  /** One iteration of the coalescing loop, seen from the whole list. */
  lemma CoalesceStep(c: Chain, i: nat)
    requires i + 1 < |c|
    ensures c[..i] + Coalesce(c[i..]) ==
            if c[i].free && c[i + 1].free then Merged(c, i)[..i] + Coalesce(Merged(c, i)[i..])
            else c[..i + 1] + Coalesce(c[i + 1..])
  {
    assert c[i..][1..] == c[i + 1..] && c[i..][2..] == c[i + 2..];
    assert Merged(c, i)[..i] == c[..i];
    assert Merged(c, i)[i..] == [Merge(c[i], c[i + 1])] + c[i + 2..];
  }

  /** Midway through the coalescing loop: positions before `i` are final, the rest is still to be coalesced. */
  ghost predicate Coalescing(m0: seq<byte>, m: seq<byte>, start: nat, f: Chain, c: Chain, i: nat, lo: nat, hi: nat) {
    && Represents(m, start, c) && Apart(c, hi) && i <= |c|
    && 0 < lo && AllAbove(c, lo)
    && Coalesce(f) == c[..i] + Coalesce(c[i..])
    && Live(c) == Live(f) && PayloadsKept(f, m0, m) && OutsideKept(m0, m, lo, hi)
  }

  ghost predicate AllAbove(c: Chain, lo: nat) { forall b | b in c :: lo <= b.addr }

  lemma MergedAbove(c: Chain, i: nat, lo: nat)
    requires i + 1 < |c| && AllAbove(c, lo)
    ensures AllAbove(Merged(c, i), lo) && lo <= c[i].addr
  {
    assert c[i] in c;
  }

  lemma CoalescingMerge(m0: seq<byte>, m: seq<byte>, n: seq<byte>, start: nat, f: Chain, c: Chain, i: nat, lo: nat, hi: nat)
    requires Coalescing(m0, m, start, f, c, i, lo, hi) && i + 1 < |c| && c[i].free && c[i + 1].free
    requires SameOutside(m, n, c[i].addr, HEADER)
    requires HeaderAt(n, Merge(c[i], c[i + 1]), Link(c, i + 2))
    ensures Coalescing(m0, n, start, f, Merged(c, i), i, lo, hi)
  {
    CoalesceStep(c, i);
    MergedRepresents(m, n, start, c, hi, i);
    MergedApart(c, hi, i);
    MergedLive(c, i);
    MergedAbove(c, i, lo);
    assert c[i].End() <= hi;
    WriteIsInside(m, n, c[i].addr, HEADER, lo, hi);
    hide NodeAt, HeaderAt, Represents, Apart, Live, PayloadsKept, OutsideKept, SameOutside, AllAbove, Coalesce;
    PayloadsKeptBoth(f, c, m0, m, n);
    OutsideKeptBoth(m0, m, n, lo, hi, hi, hi);
    assert i <= |Merged(c, i)|;
    hide Merged;
  }

  lemma CoalescingSkip(m0: seq<byte>, m: seq<byte>, start: nat, f: Chain, c: Chain, i: nat, lo: nat, hi: nat)
    requires Coalescing(m0, m, start, f, c, i, lo, hi) && i + 1 < |c| && !(c[i].free && c[i + 1].free)
    ensures Coalescing(m0, m, start, f, c, i + 1, lo, hi)
  {}

  /** What reading the fields of a header gives. */
  ghost predicate Reads(m: seq<byte>, c: Chain, i: nat)
    requires i < |c|
  {
    && c[i].addr + HEADER <= |m| && Word(m, c[i].addr) == c[i].size && (m[c[i].addr + 4] != 0 <==> c[i].free)
    && Word(m, c[i].addr + 8) == Link(c, i + 1) && (Link(c, i + 1) == 0 <==> i + 1 == |c|)
  }

  /** Where a walking pointer stands. */
  ghost predicate Position(m: seq<byte>, c: Chain, i: nat, current: nat) {
    if i < |c| then current == c[i].addr != 0 && Reads(m, c, i) else current == 0
  }

  lemma CoalescingPosition(m0: seq<byte>, m: seq<byte>, start: nat, f: Chain, c: Chain, i: nat, lo: nat, hi: nat)
    requires Coalescing(m0, m, start, f, c, i, lo, hi)
    ensures Position(m, c, i, Link(c, i))
  {
    if i < |c| { ReadNode(m, start, c, i); }
  }

  /** What a turn of the loop looks at: two nodes of the list, one before the other. */
  lemma CoalescingPair(m0: seq<byte>, m: seq<byte>, start: nat, f: Chain, c: Chain, i: nat, lo: nat, hi: nat)
    requires Coalescing(m0, m, start, f, c, i, lo, hi) && i + 1 < |c|
    ensures Reads(m, c, i) && Reads(m, c, i + 1) && NodeAt(m, c, i) && NodeAt(m, c, i + 1)
    ensures c[i].End() <= c[i + 1].addr && c[i + 1].End() <= hi
  {
    ReadNode(m, start, c, i);
    ReadNode(m, start, c, i + 1);
  }

  lemma CoalescingStarts(m: seq<byte>, start: nat, f: Chain, lo: nat, hi: nat)
    requires Represents(m, start, f) && Apart(f, hi) && 0 < lo && AllAbove(f, lo)
    ensures Coalescing(m, m, start, f, f, 0, lo, hi) && Link(f, 0) == start
  {
    assert f[..0] == [] && f[0..] == f;
  }

  lemma CoalescingEnds(m0: seq<byte>, m: seq<byte>, start: nat, f: Chain, c: Chain, i: nat, lo: nat, hi: nat)
    requires Coalescing(m0, m, start, f, c, i, lo, hi) && i + 1 >= |c|
    ensures Represents(m, start, Coalesce(f)) && PayloadsKept(f, m0, m) && OutsideKept(m0, m, lo, hi)
  {
    hide Represents, PayloadsKept, OutsideKept, Apart, AllAbove, Live;
    assert c[..i] + c[i..] == c;
  }

  /** Only the last block's link and the new header change when a block is appended. */
  lemma AppendRepresents(m: seq<byte>, n: seq<byte>, start: nat, start': nat, c: Chain, hi: nat, b: Block)
    requires Apart(c, hi) && Represents(m, start, c) && b.addr == hi
    requires HeaderAt(n, b, 0) && |n| == |m|
    requires if c == [] then start' == b.addr
             else start' == start && HeaderAt(n, c[|c| - 1], b.addr)
    requires c != [] ==> SameOutside(m, n, c[|c| - 1].addr, HEADER)
    ensures Represents(n, start', c + [b])
  {
    var t := c + [b];
    forall k | 0 <= k < |t| ensures NodeAt(n, t, k) {
      if k < |c| - 1 {
        assert NodeAt(m, c, k) && c[k].End() <= c[|c| - 1].addr && Link(t, k + 1) == Link(c, k + 1);
        HeaderKept(m, n, c[k], Link(c, k + 1));
      }
    }
  }

  lemma LittleEndianBytes(v: word)
    ensures v == v % 0x100 + 0x100 * (v / 0x100 % 0x100) + 0x1_0000 * (v / 0x1_0000 % 0x100) + 0x100_0000 * (v / 0x100_0000)
    ensures v / 0x100_0000 < 0x100
  {
    var q := v / 0x100;
    var r := q / 0x100;
    assert v == 0x100 * q + v % 0x100 && q == 0x100 * r + q % 0x100 && r == 0x100 * (r / 0x100) + r % 0x100;
    assert v / 0x1_0000 == r && v / 0x100_0000 == r / 0x100;
  }

  // ---------------------------------------------------------------- bytes outside the heap

  /** No byte outside `[lo, hi)` differs. */
  ghost predicate OutsideKept(m: seq<byte>, n: seq<byte>, lo: nat, hi: nat) {
    |m| == |n| && forall k | 0 <= k < |m| && !(lo <= k < hi) :: n[k] == m[k]
  }

  lemma OutsideKeptBoth(m: seq<byte>, n: seq<byte>, o: seq<byte>, lo: nat, hi1: nat, hi2: nat, hi: nat)
    requires OutsideKept(m, n, lo, hi1) && OutsideKept(n, o, lo, hi2) && hi1 <= hi && hi2 <= hi
    ensures OutsideKept(m, o, lo, hi)
  {}

  lemma WriteIsInside(m: seq<byte>, n: seq<byte>, a: nat, len: nat, lo: nat, hi: nat)
    requires SameOutside(m, n, a, len) && lo <= a && a + len <= hi
    ensures OutsideKept(m, n, lo, hi)
  {}

  /** A heap does not notice writes outside its own range. */
  lemma OtherBytesDoNotMatter(m: seq<byte>, n: seq<byte>, start: nat, h: Spec.State, g: Growth, lo: nat, hi: nat)
    requires Spec.Sound(h, g) && Represents(m, start, h.chain) && OutsideKept(m, n, lo, hi)
    requires hi <= h.base || h.end <= lo
    ensures Represents(n, start, h.chain) && PayloadsKept(h.chain, m, n)
  {
    LayoutBounds(h.chain, h.base, h.end, g.RollsBack?);
    forall i | 0 <= i < |h.chain| ensures NodeAt(n, h.chain, i) {
      assert NodeAt(m, h.chain, i);
      HeaderKept(m, n, h.chain[i], Link(h.chain, i + 1));
    }
  }

  // ---------------------------------------------------------------- one call: list, address space and bytes

  /** The list and the address space after an allocation; growth gets what the address space gives. */
  ghost predicate Allocates(h: Spec.State, s: Space.State, n: nat, g: Growth, h': Spec.State, s': Space.State, p: nat)
    requires Spec.SizeOk(n)
  {
    var (t, k) := Grow(s, h.end, Spec.Pages(n), g);
    (h', p) == Spec.Malloc(h, n, k, g) && s' == if Spec.Expands(h, n) then t else s
  }

  /** This very call expands the kernel heap and counts a page that is not mapped. */
  ghost predicate AllocationLoses(h: Spec.State, s: Space.State, n: nat, g: Growth) {
    Spec.Expands(h, n) && LosesPage(s, h.end, Spec.Pages(n), g)
  }

  /**
   All that an allocation does: to the list and the address space, to the heap's end, to the mapping of its
   pages, to the bytes of live payloads and to those outside the heap.
   */
  ghost predicate Allocation(h: Spec.State, s: Space.State, m: seq<byte>, n: nat, g: Growth,
                             h': Spec.State, s': Space.State, m': seq<byte>, p: nat)
    requires Spec.SizeOk(n)
  {
    && Allocates(h, s, n, g, h', s', p) && Spec.TakesLeastRoom(h, n, h', p)
    && (PagesMapped(s', h'.base, h'.end) <==> PagesMapped(s, h.base, h.end) && !AllocationLoses(h, s, n, g))
    && PayloadsKept(h.chain, m, m') && OutsideKept(m, m', h.base, h'.end)
  }

  /** All that an expansion does. */
  ghost predicate Expansion(h: Spec.State, s: Space.State, m: seq<byte>, n: nat, g: Growth,
                            h': Spec.State, s': Space.State, m': seq<byte>, ok: bool)
    requires Spec.SizeOk(n)
  {
    var pages := Spec.Pages(n);
    var (t, k) := Grow(s, h.end, pages, g);
    && h' == Spec.Expand(h, n, k, g) && s' == t && k <= pages && (ok <==> k == pages)
    && (ok <==> GrowthReported(s, h.end, pages, g)) && (ok ==> Spec.IsLeastRoom(h'.end - h.end, n))
    && (PagesMapped(s', h'.base, h'.end) <==> PagesMapped(s, h.base, h.end) && !LosesPage(s, h.end, pages, g))
    && PayloadsKept(h.chain, m, m') && OutsideKept(m, m', h.base, h'.end)
  }

  /** The retry after a successful expansion is the allocation that the expansion was made for. */
  lemma RetryAllocates(h: Spec.State, s: Space.State, m: seq<byte>, n: nat, g: Growth,
                       e: Spec.State, t: Space.State, m1: seq<byte>,
                       h': Spec.State, s': Space.State, m': seq<byte>, p: nat)
    requires Spec.SizeOk(n) && Spec.Expands(h, n)
    requires Expansion(h, s, m, n, g, e, t, m1, true) && Allocation(e, t, m1, n, g, h', s', m', p)
    ensures Allocation(h, s, m, n, g, h', s', m', p)
    ensures GrowthReported(s, h.end, Spec.Pages(n), g) && p != 0
  {
    var k := Grow(s, h.end, Spec.Pages(n), g).1;
    Spec.MallocTakesLeastRoom(h, n, k, g);
    Spec.RetryTakesNewBlock(h, n, k, g);
    Spec.ExpandKeepsLive(h, n, k, g);
    hide Grow, LosesPage, PagesMapped, GrowthReported, PayloadsKept, OutsideKept, Live, Spec.IsLeastRoom, Spec.TakesLeastRoom;
    PayloadsKeptBoth(h.chain, e.chain, m, m1, m');
    OutsideKeptBoth(m, m1, m', h.base, e.end, h'.end, h'.end);
  }

  lemma FailureAllocates(h: Spec.State, s: Space.State, m: seq<byte>, n: nat, g: Growth, e: Spec.State, t: Space.State, m1: seq<byte>)
    requires Spec.SizeOk(n) && Spec.Expands(h, n) && Expansion(h, s, m, n, g, e, t, m1, false)
    ensures Allocation(h, s, m, n, g, e, t, m1, 0) && !GrowthReported(s, h.end, Spec.Pages(n), g)
  {
    Spec.MallocTakesLeastRoom(h, n, Grow(s, h.end, Spec.Pages(n), g).1, g);
    hide Grow, LosesPage, PagesMapped, GrowthReported, PayloadsKept, OutsideKept, Spec.IsLeastRoom, Spec.TakesLeastRoom;
  }

  /** Without an expansion an allocation is its first-fit search. */
  lemma SearchAllocates(h: Spec.State, s: Space.State, m: seq<byte>, n: nat, g: Growth, h': Spec.State, m': seq<byte>, p: nat)
    requires Spec.SizeOk(n) && !Spec.Expands(h, n) && Spec.Sound(h, g) && Spec.Ready(h.chain, n)
    requires if n == 0 then p == 0 && h' == h && m' == m
             else var i := FirstFit(h.chain, n);
                  p == h.chain[i].Payload() && h' == h.(chain := Take(h.chain, i, n))
                  && PayloadsKept(h.chain, m, m') && OutsideKept(m, m', h.base, h.end)
    ensures Allocation(h, s, m, n, g, h', s, m', p) && Canonical(h'.chain)
  {
    Spec.MallocFromReady(h, n, 0, g);
    Spec.MallocTakesLeastRoom(h, n, Grow(s, h.end, Spec.Pages(n), g).1, g);
    hide Spec.TakesLeastRoom, Spec.Ready, Spec.Sound, Grow, LosesPage, PagesMapped, GrowthReported;
  }

  // ---------------------------------------------------------------- the heap object

  class Heap {
    const mem: array<byte>
    const base: nat
    const growth: Growth
    const pager: Pager.AddressSpace
    /** The end of the address range set aside for this heap. */
    ghost const top: nat
    var start: nat
    var end: nat
    /** The list the memory holds, together with the pages lost to failed expansions. */
    ghost var view: Spec.State

    /** The memory holds `view`. */
    ghost predicate Linked()
      reads this, mem
    {
      && mem.Length == TWO32 && end < TWO32
      && view.base == base && view.end == end
      && Spec.Sound(view, growth)
      && Represents(mem[..], start, view.chain)
    }

    ghost predicate Valid()
      reads this, mem
    {
      Linked() && Canonical(view.chain)
    }

    /**
     The address space the heap grows into: the rest of its range is still unmapped, and with a pager
     that rolls back every page of the heap so far is mapped.
     */
    ghost predicate Backed()
      reads this, pager, pager.bitmap, pager.directory, pager.ram
    {
      && pager.Valid() && Space.Inv(pager.space)
      && mem as object != pager.bitmap && mem as object != pager.directory && mem as object != pager.ram
      && base % PAGE == 0 && base <= end && Untouched(pager.space, end, top)
      && (growth.RollsBack? ==> PagesMapped(pager.space, base, end))
    }

    constructor (memory: array<byte>, first: nat, policy: Growth, space: Pager.AddressSpace, ghost limit: nat)
      requires memory.Length == TWO32 && 0 < first < TWO32
      requires space.Valid() && Space.Inv(space.space) && Untouched(space.space, first, limit)
      requires memory as object != space.bitmap && memory as object != space.directory && memory as object != space.ram
      ensures mem == memory && base == first && growth == policy && pager == space && top == limit
      ensures Valid() && Backed() && view == Spec.State(first, [], first, 0)
    {
      mem, base, growth, pager, top := memory, first, policy, space, limit;
      start, end := 0, first;
      view := Spec.State(first, [], first, 0);
    }

    function Load32(a: nat): word
      requires a + 4 <= mem.Length
      reads mem
    {
      Word(mem[..], a)
    }

    method Store32(a: nat, v: word)
      requires a + 4 <= mem.Length
      modifies mem
      ensures mem[a] == v % 0x100 && mem[a + 1] == v / 0x100 % 0x100
      ensures mem[a + 2] == v / 0x1_0000 % 0x100 && mem[a + 3] == v / 0x100_0000
      ensures Word(mem[..], a) == v
      ensures SameOutside(old(mem[..]), mem[..], a, 4)
    {
      LittleEndianBytes(v);
      mem[a] := v % 0x100;
      mem[a + 1] := v / 0x100 % 0x100;
      mem[a + 2] := v / 0x1_0000 % 0x100;
      mem[a + 3] := v / 0x100_0000;
    }

    /** The assignments to the three fields of a header. */
    method WriteHeader(a: nat, size: word, free: bool, next: word)
      requires a + HEADER <= mem.Length
      modifies mem
      ensures HeaderAt(mem[..], Block(a, size, free), next)
      ensures SameOutside(old(mem[..]), mem[..], a, HEADER)
    {
      Store32(a, size);
      ghost var m1 := mem[..];
      mem[a + 4] := if free then 1 else 0;
      assert Word(mem[..], a) == Word(m1, a);
      ghost var m2 := mem[..];
      Store32(a + 8, next);
      assert Word(mem[..], a) == Word(m2, a);
    }

    /** Walk to the last block of a non-empty list. */
    method Last() returns (current: nat)
      requires Represents(mem[..], start, view.chain) && view.chain != []
      requires forall k | 0 <= k < |view.chain| :: 0 < view.chain[k].addr
      ensures current == view.chain[|view.chain| - 1].addr
      ensures NodeAt(mem[..], view.chain, |view.chain| - 1)
    {
      ghost var c, i := view.chain, 0;
      current := start;
      assert NodeAt(mem[..], c, 0);
      while Load32(current + 8) != 0
        invariant 0 <= i < |c| && current == c[i].addr && NodeAt(mem[..], c, i)
        decreases |c| - i
      {
        current := Load32(current + 8);
        i := i + 1;
        assert NodeAt(mem[..], c, i);
      }
    }

    /** Let the last block point to `b`. */
    method LinkLast(b: word)
      requires Represents(mem[..], start, view.chain) && view.chain != []
      requires forall k | 0 <= k < |view.chain| :: 0 < view.chain[k].addr
      modifies mem
      ensures var last := view.chain[|view.chain| - 1];
              HeaderAt(mem[..], last, b) && SameOutside(old(mem[..]), mem[..], last.addr, HEADER)
    {
      ghost var m := mem[..];
      var current := Last();
      Store32(current + 8, b);
      assert Word(mem[..], current) == Word(m, current) && mem[current + 4] == m[current + 4];
    }

    /** Hang the new block at the end of the list. */
    method Append(b: nat, ghost block: Block)
      requires Represents(mem[..], start, view.chain) && mem.Length == TWO32
      requires Apart(view.chain, block.addr) && forall k | 0 <= k < |view.chain| :: base <= view.chain[k].addr
      requires 0 < base <= b && b == block.addr && block.End() <= TWO32 && HeaderAt(mem[..], block, 0)
      modifies this`start, mem
      ensures Represents(mem[..], start, view.chain + [block])
      ensures PayloadsKept(view.chain, old(mem[..]), mem[..]) && OutsideKept(old(mem[..]), mem[..], base, b)
    {
      ghost var c, m := view.chain, mem[..];
      if start == 0 {
        assert c == [];
        start := b;
      } else {
        LinkLast(b);
        HeaderKept(m, mem[..], block, 0);
        PayloadsOutside(m, mem[..], c, b, |c| - 1, c[|c| - 1].addr, HEADER);
        WriteIsInside(m, mem[..], c[|c| - 1].addr, HEADER, base, b);
      }
      hide HeaderAt, NodeAt, PayloadsKept, OutsideKept;
      AppendRepresents(m, mem[..], old(start), start, c, b, block);
    }

    /** Map the pages of an expansion; the kernel heap advances its end by what it got, even when it then fails. */
    method MapPages(pages: nat) returns (ok: bool)
      requires Backed() && 0 < pages && end + pages * PAGE <= top < TWO32
      modifies this`end, pager, pager.bitmap, pager.directory, pager.ram
      ensures Backed()
      ensures var (t, k) := Grow(old(pager.space), old(end), pages, growth);
              pager.space == t && end == old(end) + k * PAGE && (ok <==> k == pages) && k <= pages
              && (growth.RollsBack? ==> ok || k == 0)
      ensures ok <==> GrowthReported(old(pager.space), old(end), pages, growth)
      ensures PagesMapped(pager.space, base, end) <==>
              old(PagesMapped(pager.space, base, end)) && !LosesPage(old(pager.space), old(end), pages, growth)
    {
      hide Space.Inv, Space.AllocateUserSpace, Space.GrowHeap, Runs.LosesPage, PagesMapped, Untouched, OnlyIn, GrowthReported;
      AlignedStart(pager.space, end, top);
      GrowthMaps(pager.space, end, pages, growth, top);
      RangeGrown(pager.space, base, end, pages, growth, top);
      if growth.RollsBack? {
        ok := pager.AllocateUserSpace(end, pages);
        if ok { end := end + pages * PAGE; }
      } else {
        var granted := pager.MapHeapPages(end, pages);
        end := end + granted * PAGE;
        ok := granted == pages;
      }
    }

    /** Map pages, initialise one big block over them and hang it at the end of the list. */
    method Expand(n: nat) returns (ok: bool)
      requires Linked() && Backed() && Spec.SizeOk(n)
      requires end + Spec.Pages(n) * PAGE <= top < TWO32
      modifies this, mem, pager, pager.bitmap, pager.directory, pager.ram
      ensures Linked() && Backed()
      ensures Expansion(old(view), old(pager.space), old(mem[..]), n, growth, view, pager.space, mem[..], ok)
    {
      hide Grow, LosesPage, PagesMapped, Untouched, Space.Inv, Spec.IsLeastRoom;
      ghost var h, m := view, mem[..];
      var newBlock, pages := end, Spec.Pages(n);
      ok := MapPages(pages);
      ghost var k := Grow(old(pager.space), old(end), pages, growth).1;
      Spec.ExpandKeepsSound(h, n, k, growth);
      if ok {
        Spec.ExpandTakesLeastRoom(h, n, k, growth);
        AppendNew(newBlock, pages, Spec.NewBlock(h, n));
      }
      view := Spec.Expand(h, n, k, growth);
    }

    /** The block over the new pages: its header, and the link from the last block. */
    method AppendNew(newBlock: nat, pages: nat, ghost b: Block)
      requires mem.Length == TWO32 && Represents(mem[..], start, view.chain)
      requires Layout(view.chain, base, newBlock, growth.RollsBack?) && 0 < base
      requires 0 < pages && b == Block(newBlock, pages * PAGE - HEADER, true) && b.End() < TWO32
      modifies this`start, mem
      ensures Represents(mem[..], start, view.chain + [b])
      ensures PayloadsKept(view.chain, old(mem[..]), mem[..]) && OutsideKept(old(mem[..]), mem[..], base, b.End())
    {
      ghost var c, m := view.chain, mem[..];
      LayoutBounds(c, base, newBlock, growth.RollsBack?);
      WriteHeader(newBlock, pages * PAGE - HEADER, true, 0);
      ghost var m1 := mem[..];
      FreshHeader(m, m1, start, c, newBlock);
      WriteIsInside(m, m1, newBlock, HEADER, base, b.End());
      hide NodeAt, HeaderAt, Represents, PayloadsKept, OutsideKept, SameOutside;
      Append(newBlock, b);
      PayloadsKeptBoth(c, c, m, m1, mem[..]);
      OutsideKeptBoth(m, m1, mem[..], base, b.End(), newBlock, b.End());
    }

    /** The body of the first-fit loop: split when the rest can hold a header and four bytes, then mark taken. */
    method Claim(current: nat, n: nat, ghost i: nat)
      requires Linked() && i < |view.chain| && current == view.chain[i].addr && Fits(view.chain[i], n)
      modifies this`view, mem
      ensures view == old(view).(chain := Take(old(view).chain, i, n))
      ensures Linked()
      ensures PayloadsKept(old(view).chain, old(mem[..]), mem[..]) && OutsideKept(old(mem[..]), mem[..], base, end)
    {
      ghost var c := view.chain;
      CarveBlock(current, n, i);
      TakeLayout(c, i, n, view.base, view.end, growth.RollsBack?);
      hide PayloadsKept, OutsideKept, Represents, Take;
      view := view.(chain := Take(c, i, n));
    }

    /** The same on the bytes alone. */
    method CarveBlock(current: nat, n: nat, ghost i: nat)
      requires Linked() && i < |view.chain| && current == view.chain[i].addr && Fits(view.chain[i], n)
      modifies mem
      ensures Represents(mem[..], start, Take(view.chain, i, n))
      ensures PayloadsKept(view.chain, old(mem[..]), mem[..]) && OutsideKept(old(mem[..]), mem[..], base, end)
    {
      ghost var c, m := view.chain, mem[..];
      LayoutBounds(c, view.base, view.end, growth.RollsBack?);
      assert NodeAt(m, c, i);
      hide HeaderAt;
      WriteClaim(current, n, c[i], Link(c, i + 1));
      WriteIsInside(m, mem[..], current, HEADER + c[i].size, base, end);
      hide NodeAt, SameOutside, Carved, Layout;
      ClaimRepresents(m, mem[..], start, c, view.end, i, n);
    }

    /** The header writes of an allocation from block `b`. */
    method WriteClaim(current: nat, n: nat, ghost b: Block, ghost next: nat)
      requires HeaderAt(mem[..], b, next) && current == b.addr && Fits(b, n) && b.End() <= mem.Length <= TWO32
      modifies mem
      ensures SameOutside(old(mem[..]), mem[..], b.addr, HEADER + b.size)
      ensures Carved(mem[..], b, n, next)
    {
      var size := Load32(current);
      if size >= n + HEADER + 4 {
        var split := current + HEADER + n;
        WriteHeader(split, size - n - HEADER, true, Load32(current + 8));
        ghost var m1 := mem[..];
        WriteHeader(current, n, false, split);
        HeaderKept(m1, mem[..], Block(split, size - n - HEADER, true), next);
      } else {
        mem[current + 4] := 0;
      }
    }

    /** The first-fit walk: the address of the first block that is free and large enough, NULL if there is none. */
    method FindFit(n: nat) returns (current: nat, ghost i: nat)
      requires Linked()
      ensures i == FirstFit(view.chain, n) && current == Link(view.chain, FirstFit(view.chain, n))
      ensures current == 0 <==> FirstFit(view.chain, n) == |view.chain|
    {
      ChainIsLinked();
      hide Represents, Linked, Word, FirstFit, Link;
      current, i := start, 0;
      while current != 0
        invariant i <= FirstFit(view.chain, n) && current == Link(view.chain, i)
        decreases |view.chain| - i
      {
        ReadNode(mem[..], start, view.chain, i);
        FirstFitStep(view.chain, n, i);
        if mem[current + 4] != 0 && Load32(current) >= n { return; }
        current := Load32(current + 8);
        i := i + 1;
      }
    }

    /** What the links say: only the one past the end is NULL. */
    lemma ChainIsLinked()
      requires Linked()
      ensures Represents(mem[..], start, view.chain) && start == Link(view.chain, 0) && mem.Length == TWO32
      ensures forall k: nat :: k < |view.chain| <==> Link(view.chain, k) != 0
      ensures forall k: nat | k < |view.chain| :: Link(view.chain, k) == view.chain[k].addr
    {
      LayoutBounds(view.chain, view.base, view.end, growth.RollsBack?);
    }

    /** The first-fit loop with its body. */
    method Search(n: nat) returns (p: nat)
      requires Linked()
      modifies this`view, mem
      ensures Linked()
      ensures PayloadsKept(old(view).chain, old(mem[..]), mem[..]) && OutsideKept(old(mem[..]), mem[..], base, end)
      ensures var i := FirstFit(old(view).chain, n);
              if i == |old(view).chain| then p == 0 && view == old(view) && mem[..] == old(mem[..])
              else p == old(view).chain[i].Payload() && view == old(view).(chain := Take(old(view).chain, i, n))
    {
      ghost var i;
      p, i := FindFit(n);
      if p == 0 { return 0; }
      hide Represents, Spec.Sound, PayloadsKept, OutsideKept;
      Claim(p, n, i);
      return p + HEADER;
    }

    /** kmalloc / umalloc. The state may be the one right after an expansion: that is where the retry starts. */
    method Malloc(n: nat) returns (p: nat)
      requires Linked() && Backed() && Spec.SizeOk(n) && Spec.Ready(view.chain, n) && top < TWO32
      requires Spec.Expands(view, n) ==> end + Spec.Pages(n) * PAGE <= top
      modifies this, mem, pager, pager.bitmap, pager.directory, pager.ram
      ensures Valid() && Backed()
      ensures Allocation(old(view), old(pager.space), old(mem[..]), n, growth, view, pager.space, mem[..], p)
      ensures old(Spec.Expands(view, n)) ==> (p != 0 <==> GrowthReported(old(pager.space), old(end), Spec.Pages(n), growth))
      decreases if Spec.Expands(view, n) then 1 else 0, 1
    {
      hide Spec.Ready, Spec.Sound, Represents, Canonical, Space.Inv, Untouched, PagesMapped, Allocation, Expansion, GrowthReported;
      ghost var h, s, m := view, pager.space, mem[..];
      if n == 0 {
        SearchAllocates(h, s, m, n, growth, h, m, 0);
        return 0;
      }
      if start == 0 {
        EmptyExpands(mem[..], start, h, growth, n);
        var ok := GrowFor(n);
        if !ok {
          FailureAllocates(h, s, m, n, growth, view, pager.space, mem[..]);
          return 0;
        }
        ghost var e, t, m1 := view, pager.space, mem[..];
        p := SearchOrGrow(n);
        RetryAllocates(h, s, m, n, growth, e, t, m1, view, pager.space, mem[..], p);
      } else {
        p := SearchOrGrow(n);
      }
    }

    /** The rest of an allocation: the first-fit search, and growth and a retry when it finds nothing. */
    method SearchOrGrow(n: nat) returns (p: nat)
      requires Linked() && Backed() && Spec.SizeOk(n) && Spec.Ready(view.chain, n) && 0 < n && top < TWO32
      requires Spec.Expands(view, n) ==> end + Spec.Pages(n) * PAGE <= top
      modifies this, mem, pager, pager.bitmap, pager.directory, pager.ram
      ensures Valid() && Backed()
      ensures Allocation(old(view), old(pager.space), old(mem[..]), n, growth, view, pager.space, mem[..], p)
      ensures old(Spec.Expands(view, n)) ==> (p != 0 <==> GrowthReported(old(pager.space), old(end), Spec.Pages(n), growth))
      decreases if Spec.Expands(view, n) then 1 else 0, 0
    {
      hide Spec.Ready, Spec.Sound, Represents, Canonical, Space.Inv, Untouched, PagesMapped, Allocation, Expansion, GrowthReported;
      ghost var h, s, m := view, pager.space, mem[..];
      p := Search(n);
      if p != 0 {
        SearchAllocates(h, s, m, n, growth, view, mem[..], p);
        return p;
      }
      var ok := GrowFor(n);
      if !ok {
        FailureAllocates(h, s, m, n, growth, view, pager.space, mem[..]);
        return 0;
      }
      ghost var e, t, m1 := view, pager.space, mem[..];
      p := Malloc(n);
      RetryAllocates(h, s, m, n, growth, e, t, m1, view, pager.space, mem[..], p);
    }

    /** An expansion for a request that fits nowhere: on success the new block is the one a search finds. */
    method GrowFor(n: nat) returns (ok: bool)
      requires Linked() && Backed() && Spec.SizeOk(n) && Spec.Ready(view.chain, n)
      requires Spec.Expands(view, n) && end + Spec.Pages(n) * PAGE <= top < TWO32
      modifies this, mem, pager, pager.bitmap, pager.directory, pager.ram
      ensures Linked() && Backed()
      ensures Expansion(old(view), old(pager.space), old(mem[..]), n, growth, view, pager.space, mem[..], ok)
      ensures if ok then !Spec.Expands(view, n) && Spec.Ready(view.chain, n) else Canonical(view.chain)
    {
      ghost var h := view;
      Spec.ReadyForGrowth(h.chain, n);
      ok := Expand(n);
      if ok {
        ghost var k := Spec.Pages(n);
        Spec.RetryTakesNewBlock(h, n, k, growth);
        Spec.GrownIsReady(h, n, k, growth);
      }
    }

    /** One merge: the block at `current` swallows its list successor. */
    method MergeNext(current: nat, ghost c: Chain, ghost i: nat)
      requires i + 1 < |c| && current == c[i].addr && c[i].free && c[i + 1].free
      requires NodeAt(mem[..], c, i) && NodeAt(mem[..], c, i + 1)
      requires c[i].End() <= c[i + 1].addr && c[i + 1].End() <= mem.Length == TWO32
      modifies mem
      ensures SameOutside(old(mem[..]), mem[..], c[i].addr, HEADER)
      ensures HeaderAt(mem[..], Merge(c[i], c[i + 1]), Link(c, i + 2))
    {
      ghost var m := mem[..];
      var next := Load32(current + 8);
      Store32(current, Load32(current) + HEADER + Load32(next));
      ghost var m1 := mem[..];
      HeaderKept(m, m1, c[i + 1], Link(c, i + 2));
      assert m1[current + 4] == m[current + 4];
      Store32(current + 8, Load32(next + 8));
      assert Word(mem[..], current) == Word(m1, current);
    }

    method SetFree(ghost b: Block, a: nat, ghost next: nat)
      requires HeaderAt(mem[..], b, next) && a == b.addr
      modifies mem
      ensures SameOutside(old(mem[..]), mem[..], b.addr, HEADER)
      ensures HeaderAt(mem[..], b.(free := true), next)
    {
      mem[a + 4] := 1;
    }

    /** kfree / ufree. */
    method Free(p: nat)
      requires Valid() && (p == 0 || Spec.IsLive(view.chain, p))
      modifies this`view, mem
      ensures Valid() && view == Spec.Free(old(view), p)
      ensures old(Backed()) ==> Backed()
      ensures PayloadsKept(view.chain, old(mem[..]), mem[..]) && OutsideKept(old(mem[..]), mem[..], base, end)
    {
      if p == 0 { return; }
      ghost var h, m := view, mem[..];
      ghost var f := Release(p);
      ghost var m1 := mem[..];
      Spec.FreeKeepsInv(h, p, growth);
      hide Represents, PayloadsKept, OutsideKept, Spec.Sound, Live, Apart, AllAbove, Canonical;
      CoalesceAll(f, base, end);
      PayloadsKeptTwice(h.chain, f, Coalesce(f), m, m1, mem[..]);
      OutsideKeptBoth(m, m1, mem[..], base, end, end, end);
      view := Spec.Free(h, p);
    }

    /** The first half of a release: step back to the header and mark the block free. */
    method Release(p: nat) returns (ghost f: Chain)
      requires Linked() && Spec.IsLive(view.chain, p)
      modifies mem
      ensures f == Spec.Freed(view.chain, Spec.IndexOf(view.chain, p))
      ensures Represents(mem[..], start, f) && Apart(f, end) && AllAbove(f, base) && Live(f) <= Live(view.chain)
      ensures PayloadsKept(view.chain, old(mem[..]), mem[..]) && OutsideKept(old(mem[..]), mem[..], base, end)
    {
      ghost var c, m := view.chain, mem[..];
      ghost var j := Spec.IndexOf(c, p);
      f := Spec.Freed(c, j);
      LayoutBounds(c, base, end, growth.RollsBack?);
      assert NodeAt(m, c, j);
      SetFree(c[j], p - HEADER, Link(c, j + 1));
      FreedRepresents(m, mem[..], start, c, end, j);
      FreedApart(c, end, j);
      FreedAbove(c, j, base);
      WriteIsInside(m, mem[..], p - HEADER, HEADER, base, end);
    }

    /** The body of the coalescing loop: merge the successor in, or step past this block. */
    method CoalesceOnce(current: nat, ghost m0: seq<byte>, ghost f: Chain, ghost c: Chain, ghost i: nat, ghost lo: nat, ghost hi: nat)
      returns (position: nat, ghost c': Chain, ghost i': nat)
      requires Coalescing(m0, mem[..], start, f, c, i, lo, hi) && hi <= mem.Length == TWO32
      requires i + 1 < |c| && current == c[i].addr
      modifies mem
      ensures Coalescing(m0, mem[..], start, f, c', i', lo, hi)
      ensures Position(mem[..], c', i', position) && i' <= |c'| && |c'| - i' < |c| - i
    {
      hide Coalescing, Represents, NodeAt, Apart, Live, PayloadsKept, OutsideKept, SameOutside, Word;
      ghost var m := mem[..];
      CoalescingPair(m0, m, start, f, c, i, lo, hi);
      if mem[current + 4] != 0 && mem[Load32(current + 8) + 4] != 0 {
        MergeNext(current, c, i);
        position, c', i' := current, Merged(c, i), i;
        CoalescingMerge(m0, m, mem[..], start, f, c, i, lo, hi);
      } else {
        position, c', i' := Load32(current + 8), c, i + 1;
        CoalescingSkip(m0, m, start, f, c, i, lo, hi);
      }
      hide Reads;
      CoalescingPosition(m0, mem[..], start, f, c', i', lo, hi);
    }

    /** The coalescing loop over the whole list. */
    method CoalesceAll(ghost f: Chain, ghost lo: nat, ghost hi: nat)
      requires Represents(mem[..], start, f) && Apart(f, hi) && hi <= mem.Length == TWO32
      requires 0 < lo && AllAbove(f, lo)
      modifies mem
      ensures Represents(mem[..], start, Coalesce(f))
      ensures PayloadsKept(f, old(mem[..]), mem[..]) && OutsideKept(old(mem[..]), mem[..], lo, hi)
    {
      hide Coalescing, Represents, NodeAt, Apart, Live, AllAbove, PayloadsKept, OutsideKept, Word;
      ghost var m0, c, i := mem[..], f, 0;
      var current := start;
      CoalescingStarts(m0, start, f, lo, hi);
      CoalescingPosition(m0, m0, start, f, c, i, lo, hi);
      while current != 0 && Load32(current + 8) != 0
        invariant Coalescing(m0, mem[..], start, f, c, i, lo, hi) && Position(mem[..], c, i, current)
        decreases |c| - i
      {
        current, c, i := CoalesceOnce(current, m0, f, c, i, lo, hi);
      }
      CoalescingEnds(m0, mem[..], start, f, c, i, lo, hi);
    }
  }
}
