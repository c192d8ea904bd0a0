/** Laws of directory listings and of printed names. */
module FatListing {
  import opened Basics
  import opened FatVolume

  // ---------------------------------------------------------------- one listing, seen cluster by cluster

  /** The first `k` clusters are all there and none of them holds an end mark. */
  ghost predicate Open(v: Volume, c: word, k: nat) {
    forall i | 0 <= i < k :: Nth(v, c, i) < END_OF_CHAIN && !HasEnd(Slots(v, Nth(v, c, i)))
  }

  /** What cluster `c` by itself contributes to a listing. */
  function Part(v: Volume, c: word): seq<FileInfo> {
    if c >= END_OF_CHAIN then [] else Collect(UpToEnd(Slots(v, c)))
  }

  lemma OpenTail(v: Volume, c: word, k: nat)
    requires k > 0 && Open(v, c, k)
    ensures Nth(v, c, 0) == c && Open(v, NextCluster(v, c), k - 1)
  {
    forall i | 0 <= i < k - 1
      ensures Nth(v, NextCluster(v, c), i) < END_OF_CHAIN && !HasEnd(Slots(v, Nth(v, NextCluster(v, c), i)))
    {
      assert Nth(v, c, i + 1) == Nth(v, NextCluster(v, c), i);
    }
  }

  lemma {:induction false} ListingStep(v: Volume, c: word, k: nat)
    requires Open(v, c, k)
    ensures Listing(v, c, k + 1) == Listing(v, c, k) + Part(v, Nth(v, c, k))
    decreases k
  {
    hide Slots, Collect, UpToEnd, HasEnd, NextCluster;
    if k == 0 {
      assert Listing(v, NextCluster(v, c), 0) == [];
    } else {
      OpenTail(v, c, k);
      ListingStep(v, NextCluster(v, c), k - 1);
      assert Listing(v, c, k + 1) == Collect(UpToEnd(Slots(v, c))) + Listing(v, NextCluster(v, c), k);
    }
  }

  /** More clusters never change what the first ones gave. */
  lemma {:induction false} ListingGrows(v: Volume, c: word, k: nat, n: nat)
    requires k <= n
    ensures Listing(v, c, k) <= Listing(v, c, n)
    decreases k
  {
    hide Slots, Collect, UpToEnd, HasEnd, NextCluster;
    if k > 0 && c < END_OF_CHAIN { ListingGrows(v, NextCluster(v, c), k - 1, n - 1); }
  }

  /** Once reading stops, more clusters add nothing. */
  lemma {:induction false} ListingIsComplete(v: Volume, c: word, k: nat, n: nat)
    requires Stops(v, c, k) && k <= n
    ensures Stops(v, c, n) && Listing(v, c, k) == Listing(v, c, n)
    decreases k
  {
    hide Slots, Collect, UpToEnd, HasEnd, NextCluster;
    if k > 0 && c < END_OF_CHAIN && !HasEnd(Slots(v, c)) { ListingIsComplete(v, NextCluster(v, c), k - 1, n - 1); }
  }

  lemma {:induction false} OpenWithinStops(v: Volume, c: word, k: nat, n: nat)
    requires Stops(v, c, n) && Open(v, c, k) && Nth(v, c, k) < END_OF_CHAIN
    ensures k < n
    decreases k
  {
    hide Slots, HasEnd, NextCluster;
    if k > 0 {
      OpenTail(v, c, k);
      OpenWithinStops(v, NextCluster(v, c), k - 1, n - 1);
    }
  }

  /** The chain read so far ends here: at its end, or at a cluster with an end mark. */
  lemma {:induction false} OpenThenStops(v: Volume, c: word, k: nat)
    requires Open(v, c, k) && (Nth(v, c, k) >= END_OF_CHAIN || HasEnd(Slots(v, Nth(v, c, k))))
    ensures Stops(v, c, k + 1)
    ensures Nth(v, c, k) >= END_OF_CHAIN ==> Stops(v, c, k)
    decreases k
  {
    hide Slots, HasEnd, NextCluster;
    if k > 0 {
      OpenTail(v, c, k);
      OpenThenStops(v, NextCluster(v, c), k - 1);
    }
  }

  // ---------------------------------------------------------------- chains without an end

  /** Cluster number `i` of the chain is there and holds no end mark. */
  ghost predicate GoesOn(v: Volume, c: word, i: nat) {
    Nth(v, c, i) < END_OF_CHAIN && !HasEnd(Slots(v, Nth(v, c, i)))
  }

  /** Reading stops within `n` clusters unless the first `n` are open and one more is there. */
  lemma {:induction false} StopsIff(v: Volume, c: word, n: nat)
    ensures Stops(v, c, n) <==> !(Open(v, c, n) && Nth(v, c, n) < END_OF_CHAIN)
    decreases n
  {
    hide Slots, HasEnd, NextCluster;
    if n > 0 {
      StopsIff(v, NextCluster(v, c), n - 1);
      if Open(v, c, n) { OpenTail(v, c, n); }
      if c < END_OF_CHAIN && !HasEnd(Slots(v, c)) && Open(v, NextCluster(v, c), n - 1) {
        forall i | 0 <= i < n ensures Nth(v, c, i) < END_OF_CHAIN && !HasEnd(Slots(v, Nth(v, c, i))) {
          assert i == 0 || Nth(v, c, i) == Nth(v, NextCluster(v, c), i - 1);
        }
      }
      assert Nth(v, c, 0) == c;
    }
  }

  /** The chain comes back to cluster number `q` after `p` more, without an end mark on the way. */
  ghost predicate Loops(v: Volume, c: word, q: nat, p: nat) {
    p > 0 && Open(v, c, q + p) && Nth(v, c, q + p) == Nth(v, c, q)
  }

  ghost predicate Cyclic(v: Volume, c: word) { exists q: nat, p: nat :: Loops(v, c, q, p) }

  lemma {:induction false} LoopRepeats(v: Volume, c: word, q: nat, p: nat, i: nat)
    requires Loops(v, c, q, p) && q <= i
    ensures Nth(v, c, i + p) == Nth(v, c, i)
    decreases i
  {
    if i > q {
      LoopRepeats(v, c, q, p, i - 1);
      NthStep(v, c, i - 1 + p);
      NthStep(v, c, i - 1);
    }
  }

  lemma {:induction false} LoopGoesOn(v: Volume, c: word, q: nat, p: nat, i: nat)
    requires Loops(v, c, q, p)
    ensures GoesOn(v, c, i)
    decreases i
  {
    hide Slots, HasEnd, Nth;
    if i >= q + p {
      LoopRepeats(v, c, q, p, i - p);
      LoopGoesOn(v, c, q, p, i - p);
    }
  }

  lemma LoopNeverStops(v: Volume, c: word, q: nat, p: nat, n: nat)
    requires Loops(v, c, q, p)
    ensures !Stops(v, c, n)
  {
    StopsIff(v, c, n);
    forall i: nat ensures GoesOn(v, c, i) { LoopGoesOn(v, c, q, p, i); }
    hide Slots, HasEnd, Nth, Stops, Loops;
    assert GoesOn(v, c, n);
    forall i | 0 <= i < n ensures Nth(v, c, i) < END_OF_CHAIN && !HasEnd(Slots(v, Nth(v, c, i))) {
      assert GoesOn(v, c, i);
    }
  }

  /** There are fewer clusters than numbers below the end mark, so a chain that goes on that long repeats. */
  lemma LongChainLoops(v: Volume, c: word)
    requires !Stops(v, c, END_OF_CHAIN)
    ensures Cyclic(v, c)
  {
    StopsIff(v, c, END_OF_CHAIN);
    hide Slots, HasEnd, Nth, Stops, END_OF_CHAIN;
    forall k: nat | k <= END_OF_CHAIN ensures Nth(v, c, k) < END_OF_CHAIN {}
    var i, j := LongChainRepeats(v, c, END_OF_CHAIN);
    assert Loops(v, c, i, j - i);
  }

  lemma LongChainRepeats(v: Volume, c: word, m: nat) returns (i: nat, j: nat)
    requires forall k: nat | k <= m :: Nth(v, c, k) < m
    ensures i < j <= m && Nth(v, c, i) == Nth(v, c, j)
  {
    hide *;
    var s: seq<nat> := seq(m + 1, k requires 0 <= k <= m => Nth(v, c, k));
    Pigeonhole(s, m);
    i, j :| 0 <= i < j < |s| && s[i] == s[j];
  }

  lemma CyclicNeverStops(v: Volume, c: word, n: nat)
    requires Cyclic(v, c)
    ensures !Stops(v, c, n)
  {
    var q: nat, p: nat :| Loops(v, c, q, p);
    LoopNeverStops(v, c, q, p, n);
  }

  /** Reading the directory is over after some number of clusters. */
  ghost predicate ComesToAnEnd(v: Volume, c: word) { exists n: nat :: Stops(v, c, n) }

  lemma EndsWithin(v: Volume, c: word, n: nat)
    requires Stops(v, c, n)
    ensures ComesToAnEnd(v, c)
  {}

  lemma CyclicNeverEnds(v: Volume, c: word)
    requires Cyclic(v, c)
    ensures !ComesToAnEnd(v, c)
  {
    forall n: nat ensures !Stops(v, c, n) { CyclicNeverStops(v, c, n); }
  }

  /** The passes of a listing come to an end if and only if the chain is acyclic or holds an end mark. */
  lemma StopsUnlessCyclic(v: Volume, c: word)
    ensures ComesToAnEnd(v, c) <==> !Cyclic(v, c)
    ensures !Cyclic(v, c) ==> Stops(v, c, END_OF_CHAIN)
  {
    hide *;
    if Stops(v, c, END_OF_CHAIN) {
      EndsWithin(v, c, END_OF_CHAIN);
    } else {
      LongChainLoops(v, c);
    }
    if Cyclic(v, c) { CyclicNeverEnds(v, c); }
  }

  // ---------------------------------------------------------------- the filter-map specification

  lemma {:induction false} UpToEndJoins(a: seq<Raw>, b: seq<Raw>)
    ensures UpToEnd(a + b) == if HasEnd(a) then UpToEnd(a) else a + UpToEnd(b)
    ensures !HasEnd(a) ==> UpToEnd(a) == a
    decreases |a|
  {
    if a == [] {
      assert a + b == b;
    } else {
      assert (a + b)[1..] == a[1..] + b;
      assert forall i | 0 <= i < |a[1..]| :: a[1..][i] == a[i + 1];
      assert IsEnd(a[0]) || (HasEnd(a) <==> HasEnd(a[1..])) by {
        if HasEnd(a) && !IsEnd(a[0]) {
          var i :| 0 <= i < |a| && IsEnd(a[i]);
          assert a[1..][i - 1] == a[i];
        }
      }
      UpToEndJoins(a[1..], b);
      assert a + UpToEnd(b) == [a[0]] + (a[1..] + UpToEnd(b));
    }
  }

  lemma {:induction false} CollectJoins(a: seq<Raw>, b: seq<Raw>)
    ensures Collect(a + b) == Collect(a) + Collect(b)
    decreases |a|
  {
    hide Info, IsListed;
    if a == [] {
      assert a + b == b;
    } else {
      assert (a + b)[1..] == a[1..] + b;
      CollectJoins(a[1..], b);
    }
  }

  /** A listing is the filter-map of all the slots of its chain, in order, before the first end mark. */
  lemma {:induction false} ListingIsFilterMap(v: Volume, c: word, n: nat)
    ensures Listing(v, c, n) == Collect(UpToEnd(Stream(v, c, n)))
    decreases n
  {
    hide Slots, HasEnd, NextCluster;
    if n > 0 && c < END_OF_CHAIN {
      ListingIsFilterMap(v, NextCluster(v, c), n - 1);
      UpToEndJoins(Slots(v, c), Stream(v, NextCluster(v, c), n - 1));
      CollectJoins(Slots(v, c), UpToEnd(Stream(v, NextCluster(v, c), n - 1)));
    }
  }

  // ---------------------------------------------------------------- the whole directory

  /** Bytes of one record of the array that a listing is returned in. */
  const RECORD: nat := 28

  /** The chain ends or holds an end mark, and the array fits 32-bit arithmetic. */
  ghost predicate Listable(v: Volume, c: word) {
    exists n: nat :: Stops(v, c, n) && |Listing(v, c, n)| * RECORD < TWO32
  }

  /** A directory whose FAT entry links its cluster to itself, without an end mark: listing it never ends. */
  lemma SelfLinkNeverEnds(v: Volume)
    requires v == Volume((s: nat) => seq(SECTOR, i => 2), 32, 64, 1)
    ensures Cyclic(v, 0x0202_0202) && !ComesToAnEnd(v, 0x0202_0202)
  {
    var c: word := 0x0202_0202;
    var bytes := ClusterBytes(v, c);
    assert SectorsFrom(v, FirstSector(v, c), 0) == [];
    assert forall i | 0 <= i < |bytes| :: bytes[i] == 2;
    assert forall i | 0 <= i < |Slots(v, c)| :: Slots(v, c)[i][0] == bytes[i * ENTRY];
    assert !HasEnd(Slots(v, c));
    assert NextCluster(v, c) == c;
    hide Slots, HasEnd, NextCluster, ClusterBytes;
    assert Nth(v, c, 0) == c && Nth(v, c, 1) == c;
    assert Loops(v, c, 0, 1);
    CyclicNeverEnds(v, c);
  }

  /** A directory can be listed exactly when its chain is acyclic or holds an end mark, and it is not too large. */
  lemma ListableIff(v: Volume, c: word)
    ensures Listable(v, c) <==> !Cyclic(v, c) && |Listing(v, c, END_OF_CHAIN)| * RECORD < TWO32
  {
    hide Cyclic, Stops, Listing, ComesToAnEnd;
    StopsUnlessCyclic(v, c);
    if n: nat :| Stops(v, c, n) && |Listing(v, c, n)| * RECORD < TWO32 {
      EndsWithin(v, c, n);
      if n <= END_OF_CHAIN { ListingIsComplete(v, c, n, END_OF_CHAIN); } else { ListingIsComplete(v, c, END_OF_CHAIN, n); }
    }
  }

  ghost function Dir(v: Volume, c: word): seq<FileInfo> {
    if Listable(v, c) then
      var n: nat :| Stops(v, c, n) && |Listing(v, c, n)| * RECORD < TWO32;
      Listing(v, c, n)
    else []
  }

  lemma DirIsListing(v: Volume, c: word, n: nat)
    requires Stops(v, c, n) && Listable(v, c)
    ensures Dir(v, c) == Listing(v, c, n)
  {
    var m: nat :| Stops(v, c, m) && |Listing(v, c, m)| * RECORD < TWO32 && Dir(v, c) == Listing(v, c, m);
    if m <= n { ListingIsComplete(v, c, m, n); } else { ListingIsComplete(v, c, n, m); }
  }

  // ---------------------------------------------------------------- printed names

  predicate Padded(s: seq<byte>) {
    forall i, j | 0 <= i < j < |s| && s[i] == SPACE :: s[j] == SPACE
  }

  /**
   What the proofs need of the bytes of a short name. Every byte that section 6.1 of the FAT specification
   allows is one of these, and more than that: the characters it rules out otherwise make no difference here.
   */
  predicate NameByte(b: byte) {
    b != 0 && b != DOT && b != SLASH && !(0x61 <= b <= 0x7A)
  }

  /** A short name: a base and an extension, each padded with spaces on the right. */
  predicate ShortName(raw: seq<byte>) {
    && |raw| == 11 && raw[0] != SPACE
    && Padded(raw[..8]) && Padded(raw[8..])
    && forall i | 0 <= i < 11 :: NameByte(raw[i])
  }

  lemma {:induction false} NoSpacesKeeps(s: seq<byte>, b: byte)
    ensures b in NoSpaces(s) <==> b in s && b != SPACE
  {
    if s != [] { NoSpacesKeeps(s[1..], b); }
  }

  lemma {:induction false} PaddedIsDetermined(s: seq<byte>, t: seq<byte>)
    requires |s| == |t| && Padded(s) && Padded(t) && NoSpaces(s) == NoSpaces(t)
    ensures s == t
    decreases |s|
  {
    if s != [] {
      if s[0] == SPACE || t[0] == SPACE {
        var p, q := if s[0] == SPACE then s else t, if s[0] == SPACE then t else s;
        assert forall i | 0 <= i < |p| :: p[i] == SPACE;
        NoSpacesKeeps(q, q[0]);
        NoSpacesKeeps(p, q[0]);
        assert q[0] == SPACE;
        assert forall i | 0 <= i < |q| :: q[i] == SPACE;
      } else {
        assert forall i | 0 <= i < |s[1..]| :: s[1..][i] == s[i + 1] && t[1..][i] == t[i + 1];
        assert NoSpaces(s)[1..] == NoSpaces(s[1..]) && NoSpaces(t)[1..] == NoSpaces(t[1..]);
        PaddedIsDetermined(s[1..], t[1..]);
        assert s == [s[0]] + s[1..] && t == [t[0]] + t[1..];
      }
    }
  }

  lemma {:induction false} SplitAtDot(a: seq<byte>, x: seq<byte>, b: seq<byte>, y: seq<byte>)
    requires DOT !in a && DOT !in b && a + [DOT] + x == b + [DOT] + y
    ensures a == b && x == y
    decreases |a|
  {
    var l, r := a + [DOT] + x, b + [DOT] + y;
    if a == [] || b == [] {
      assert l[0] == r[0];
      assert a == b;
      assert l[1..] == x && r[1..] == y;
    } else {
      assert l[1..] == a[1..] + [DOT] + x && r[1..] == b[1..] + [DOT] + y;
      SplitAtDot(a[1..], x, b[1..], y);
      assert a == [l[0]] + a[1..] && b == [r[0]] + b[1..];
    }
  }

  /** Distinct short names print distinctly. */
  lemma PrintedNamesAreDistinct(a: seq<byte>, b: seq<byte>)
    requires ShortName(a) && ShortName(b) && FormatName(a) == FormatName(b)
    ensures a == b
  {
    var a1, a2, b1, b2 := NoSpaces(a[..8]), NoSpaces(a[8..]), NoSpaces(b[..8]), NoSpaces(b[8..]);
    NoSpacesKeeps(a[..8], DOT);
    NoSpacesKeeps(b[..8], DOT);
    assert DOT in a1 + [DOT] + a2 && DOT in b1 + [DOT] + b2;
    var none := [SPACE, SPACE, SPACE];
    if a[8..] != none && b[8..] != none {
      SplitAtDot(a1, a2, b1, b2);
      PaddedIsDetermined(a[8..], b[8..]);
    }
    PaddedIsDetermined(a[..8], b[..8]);
    assert a == a[..8] + a[8..] && b == b[..8] + b[8..];
  }

  // ---------------------------------------------------------------- a loop over the slots of one cluster

  /** The slots before `i` are passed: none is an end mark, and `r` is what they listed. */
  ghost predicate Scanned(es: seq<Raw>, i: nat, r: seq<FileInfo>) {
    i <= |es| && (forall k | 0 <= k < i :: !IsEnd(es[k])) && r == Collect(es[..i])
  }

  lemma ScanStarts(es: seq<Raw>)
    ensures Scanned(es, 0, [])
  {}

  lemma ScanStep(es: seq<Raw>, i: nat, r: seq<FileInfo>)
    requires Scanned(es, i, r) && i < |es| && !IsEnd(es[i])
    ensures Scanned(es, i + 1, if IsListed(es[i]) then r + [Info(es[i])] else r)
    ensures (if IsListed(es[i]) then |r| + 1 else |r|) <= |Collect(UpToEnd(es))|
  {
    hide Info, IsListed;
    CollectJoins(es[..i], [es[i]]);
    assert es[..i + 1] == es[..i] + [es[i]];
    assert [es[i]][1..] == [] && [es[i]][0] == es[i];
    assert Collect([es[i]]) == if IsListed(es[i]) then [Info(es[i])] else [];
    UpToEndJoins(es[..i + 1], es[i + 1..]);
    assert es == es[..i + 1] + es[i + 1..];
    CollectJoins(es[..i + 1], UpToEnd(es[i + 1..]));
  }

  lemma ScanEnds(es: seq<Raw>, i: nat, r: seq<FileInfo>)
    requires Scanned(es, i, r) && (i < |es| ==> IsEnd(es[i]))
    ensures r == Collect(UpToEnd(es)) && (HasEnd(es) <==> i < |es|)
  {
    UpToEndJoins(es[..i], es[i..]);
    assert es == es[..i] + es[i..];
    if i == |es| {
      assert es[..i] == es;
    } else {
      assert UpToEnd(es[i..]) == [] && es[..i] + [] == es[..i];
    }
  }
}
