/**
 The heap algorithm of heap.c and user_heap.c on values: a chain of blocks in list order.
 The two files hold the same list code and differ only in what a failed expansion leaves behind.
 */
module HeapChain {
  import opened Basics

  const HEADER: nat := 12

  /** A list node: the address of its header, the bytes after the header, and the `is_free` flag. */
  datatype Block = Block(addr: nat, size: nat, free: bool) {
    function End(): nat { addr + HEADER + size }
    function Payload(): nat { addr + HEADER }
  }

  type Chain = seq<Block>

  /** What a failed expansion does with the pages it has already mapped. */
  datatype Growth = KeepsPages | RollsBack

  // ---------------------------------------------------------------- layout

  /** Blocks ascend inside `[lo, hi]` without overlap; when `tight`, they leave no byte out. */
  ghost predicate Layout(c: Chain, lo: nat, hi: nat, tight: bool) {
    if c == [] then lo <= hi && (tight ==> lo == hi)
    else lo <= c[0].addr && (tight ==> lo == c[0].addr) && Layout(c[1..], c[0].End(), hi, tight)
  }

  /** No two neighbours in the list are both free. */
  ghost predicate Canonical(c: Chain) {
    forall i | 0 <= i < |c| - 1 :: !(c[i].free && c[i + 1].free)
  }

  /** Bytes accounted for by the chain, headers included. */
  ghost function Total(c: Chain): nat {
    if c == [] then 0 else HEADER + c[0].size + Total(c[1..])
  }

  ghost function Live(c: Chain): set<Block> {
    set b | b in c && !b.free
  }

  /** Blocks in list order lie one after the other, all below `hi`. */
  ghost predicate Apart(c: Chain, hi: nat) {
    && (forall i | 0 <= i < |c| :: c[i].End() <= hi)
    && (forall i, j | 0 <= i < j < |c| :: c[i].End() <= c[j].addr)
  }

  lemma {:induction false} LayoutBounds(c: Chain, lo: nat, hi: nat, tight: bool)
    requires Layout(c, lo, hi, tight)
    ensures Apart(c, hi)
    ensures forall i | 0 <= i < |c| :: lo <= c[i].addr
    ensures lo + Total(c) <= hi
    ensures tight ==> lo + Total(c) == hi
  {
    if c != [] {
      LayoutBounds(c[1..], c[0].End(), hi, tight);
      assert forall i | 0 < i < |c| :: c[i] == c[1..][i - 1];
    }
  }

  /** A tight layout tiles: it starts at `lo`, every block begins where the one before it ends, the last ends at `hi`. */
  lemma {:induction false} TightLayoutTiles(c: Chain, lo: nat, hi: nat)
    requires Layout(c, lo, hi, true) && c != []
    ensures c[0].addr == lo && c[|c| - 1].End() == hi
    ensures forall i | 0 <= i < |c| - 1 :: c[i + 1].addr == c[i].End()
  {
    if |c| > 1 {
      TightLayoutTiles(c[1..], c[0].End(), hi);
      forall i | 0 <= i < |c| - 1 ensures c[i + 1].addr == c[i].End() {
        assert i == 0 || c[1..][i - 1 + 1].addr == c[1..][i - 1].End();
      }
    }
  }

  lemma LayoutLower(c: Chain, lo: nat, lo': nat, hi: nat)
    requires Layout(c, lo', hi, false) && lo <= lo'
    ensures Layout(c, lo, hi, false)
  {}

  lemma {:induction false} LayoutAppend(c: Chain, lo: nat, hi: nat, b: Block, tight: bool)
    requires Layout(c, lo, hi, tight) && b.addr == hi
    ensures Layout(c + [b], lo, b.End(), tight)
    ensures Total(c + [b]) == Total(c) + HEADER + b.size
  {
    if c == [] {
      assert (c + [b])[1..] == [];
    } else {
      assert (c + [b])[1..] == c[1..] + [b];
      LayoutAppend(c[1..], c[0].End(), hi, b, tight);
    }
  }

  lemma LayoutRaise(c: Chain, lo: nat, hi: nat, hi': nat)
    requires Layout(c, lo, hi, false) && hi <= hi'
    ensures Layout(c, lo, hi', false)
  {}

  // ---------------------------------------------------------------- first fit and split

  predicate Fits(b: Block, n: nat) { b.free && b.size >= n }

  /** Index of the first block that can hold `n` bytes, or the chain's length. */
  function FirstFit(c: Chain, n: nat): (i: nat)
    ensures i <= |c|
    ensures i < |c| ==> Fits(c[i], n)
    ensures forall k | 0 <= k < i :: !Fits(c[k], n)
  {
    if c == [] || Fits(c[0], n) then 0 else 1 + FirstFit(c[1..], n)
  }

  /** One step of a search that has passed the first `i` blocks. */
  lemma FirstFitStep(c: Chain, n: nat, i: nat)
    requires i <= FirstFit(c, n) && i < |c|
    ensures if Fits(c[i], n) then FirstFit(c, n) == i else i + 1 <= FirstFit(c, n)
  {}

  /** The blocks that replace `b` when `n` bytes are taken from it. */
  function Carve(b: Block, n: nat): Chain
    requires Fits(b, n)
  {
    if b.size >= n + HEADER + 4 then
      [Block(b.addr, n, false), Block(b.addr + HEADER + n, b.size - n - HEADER, true)]
    else [b.(free := false)]
  }

  function Take(c: Chain, i: nat, n: nat): Chain
    requires i < |c| && Fits(c[i], n)
  {
    c[..i] + Carve(c[i], n) + c[i + 1..]
  }

  lemma {:induction false} TakeLayout(c: Chain, i: nat, n: nat, lo: nat, hi: nat, tight: bool)
    requires i < |c| && Fits(c[i], n) && Layout(c, lo, hi, tight)
    ensures Layout(Take(c, i, n), lo, hi, tight)
    ensures Total(Take(c, i, n)) == Total(c)
  {
    var t := Take(c, i, n);
    if i == 0 {
      var v := Carve(c[0], n);
      assert t == v + c[1..];
      if |v| == 2 {
        assert t[1..] == [v[1]] + c[1..];
        assert t[1..][1..] == c[1..];
      } else {
        assert t[1..] == c[1..];
      }
    } else {
      assert t[1..] == Take(c[1..], i - 1, n);
      assert t[0] == c[0];
      TakeLayout(c[1..], i - 1, n, c[0].End(), hi, tight);
    }
  }

  lemma TakeCanonical(c: Chain, i: nat, n: nat)
    requires i < |c| && Fits(c[i], n)
    requires Canonical(c[..i]) && Canonical(c[i..])
    ensures Canonical(Take(c, i, n))
  {}

  /** The carved block is the only new live one, and it wastes at most fifteen bytes. */
  lemma TakeLive(c: Chain, i: nat, n: nat) returns (b: Block)
    requires i < |c| && Fits(c[i], n)
    ensures b.addr == c[i].addr && !b.free && n <= b.size <= n + 15
    ensures Take(c, i, n)[i] == b
    ensures Live(Take(c, i, n)) == Live(c) + {b}
  {
    var v := Carve(c[i], n);
    b := v[0];
    var t := Take(c, i, n);
    assert t[i] == b;
    assert c == c[..i] + [c[i]] + c[i + 1..];
    forall x ensures x in Live(t) <==> x in Live(c) + {b} {
      assert x in t <==> x in c[..i] || x in v || x in c[i + 1..];
      assert x in c <==> x in c[..i] || x == c[i] || x in c[i + 1..];
    }
  }

  // ---------------------------------------------------------------- coalescing

  function Merge(a: Block, b: Block): Block {
    Block(a.addr, a.size + HEADER + b.size, a.free)
  }

  /** The coalescing loop of `kfree`: merge list neighbours that are both free, left to right. */
  function Coalesce(c: Chain): (r: Chain)
    ensures |r| <= |c| && (c != [] ==> r != [] && r[0].addr == c[0].addr && r[0].free == c[0].free)
    ensures Canonical(r)
    decreases |c|
  {
    if |c| < 2 then c
    else if c[0].free && c[1].free then Coalesce([Merge(c[0], c[1])] + c[2..])
    else [c[0]] + Coalesce(c[1..])
  }

  lemma {:induction false} CoalesceLayout(c: Chain, lo: nat, hi: nat, tight: bool)
    requires Layout(c, lo, hi, tight)
    ensures Layout(Coalesce(c), lo, hi, tight)
    ensures Total(Coalesce(c)) == Total(c)
    decreases |c|
  {
    if |c| >= 2 {
      if c[0].free && c[1].free {
        var m := [Merge(c[0], c[1])] + c[2..];
        assert m[1..] == c[2..] && c[1..][1..] == c[2..];
        if !tight { LayoutLower(c[2..], m[0].End(), c[1].End(), hi); }
        CoalesceLayout(m, lo, hi, tight);
      } else {
        CoalesceLayout(c[1..], c[0].End(), hi, tight);
        assert Coalesce(c)[1..] == Coalesce(c[1..]);
      }
    }
  }

  lemma {:induction false} CoalesceLive(c: Chain)
    ensures Live(Coalesce(c)) == Live(c)
    decreases |c|
  {
    if |c| >= 2 {
      if c[0].free && c[1].free {
        var m := [Merge(c[0], c[1])] + c[2..];
        CoalesceLive(m);
        assert c == [c[0], c[1]] + c[2..];
        assert Live(m) == Live(c);
      } else {
        CoalesceLive(c[1..]);
        assert c == [c[0]] + c[1..];
        assert Coalesce(c) == [c[0]] + Coalesce(c[1..]);
        assert Live(c) == Live([c[0]]) + Live(c[1..]);
      }
    }
  }

  lemma {:induction false} CoalesceIdle(c: Chain)
    requires Canonical(c)
    ensures Coalesce(c) == c
    decreases |c|
  {
    if |c| >= 2 {
      assert !(c[0].free && c[0 + 1].free);
      assert forall i | 0 <= i < |c[1..]| :: c[1..][i] == c[i + 1];
      CoalesceIdle(c[1..]);
    }
  }

  /** Coalescing undoes one split of a free block in a canonical chain. */
  lemma {:induction false} CoalesceUndoesSplit(c: Chain, i: nat, n: nat)
    requires Canonical(c) && i < |c| && Fits(c[i], n)
    ensures Coalesce(Take(c, i, n)[i := Take(c, i, n)[i].(free := true)]) == c
  {
    var t := Take(c, i, n);
    var f := t[i := t[i].(free := true)];
    assert forall k | 0 <= k < |c[1..]| :: c[1..][k] == c[k + 1];
    if i == 0 {
      var v := Carve(c[0], n);
      assert t == v + c[1..];
      if |v| == 2 {
        assert f[2..] == c[1..];
        assert [Merge(f[0], f[1])] + f[2..] == c;
      } else {
        assert f == c;
      }
      CoalesceIdle(c);
    } else {
      var t' := Take(c[1..], i - 1, n);
      assert t == [c[0]] + t';
      var f' := t'[i - 1 := t'[i - 1].(free := true)];
      assert f == [c[0]] + f' && f[1..] == f';
      CoalesceUndoesSplit(c[1..], i - 1, n);
      assert f'[0].free == c[1].free;
      assert !(c[0].free && c[0 + 1].free);
    }
  }
}
