/** The loops of fat32.c: buffers filled in place, cursors advanced, and the heap blocks they hold on the way. */
module FatDriver {
  import opened Basics
  import opened FatVolume
  import opened FatListing
  import opened FatPath
  import opened FatFormat

  /**
   What the driver sees of kmalloc and kfree: NULL for size 0, otherwise NULL or a block that is not live.
   Call number k succeeds exactly when `succeeds(k)`, so a contract for every `succeeds` covers every
   pattern of failing allocations. `live` maps each live block to the bytes it was asked for with.
   */
  class Pool {
    const succeeds: nat -> bool
    var calls: nat
    var live: map<nat, nat>
    var next: nat

    ghost predicate Valid()
      reads this
    {
      next > 0 && forall p | p in live :: 0 < p < next
    }

    /** None of the calls from number `a` up to, but not including, number `b` is refused. */
    ghost predicate Window(a: nat, b: nat) { forall q: nat | a <= q < b :: succeeds(q) }

    constructor (pattern: nat -> bool)
      ensures Valid() && live == map[] && calls == 0 && succeeds == pattern
    {
      succeeds, calls, live, next := pattern, 0, map[], 1;
    }

    method Kmalloc(n: nat) returns (p: nat)
      requires Valid()
      modifies this
      ensures Valid() && calls == old(calls) + 1
      ensures if n == 0 || !succeeds(old(calls)) then p == 0 && live == old(live)
              else p != 0 && p !in old(live) && live == old(live)[p := n]
    {
      var ok := succeeds(calls);
      calls := calls + 1;
      if n == 0 || !ok { return 0; }
      p, next := next, next + 1;
      live := live[p := n];
    }

    /** A block together with the bytes in it. */
    method KmallocBytes(n: nat) returns (p: nat, bytes: array<byte>)
      requires Valid()
      modifies this
      ensures Valid() && calls == old(calls) + 1 && fresh(bytes)
      ensures if n == 0 || !succeeds(old(calls)) then p == 0 && live == old(live)
              else p != 0 && p !in old(live) && live == old(live)[p := n] && bytes.Length == n
    {
      p := Kmalloc(n);
      if p == 0 {
        bytes := new byte[0];
      } else {
        bytes := new byte[n];
      }
    }

    method Kfree(p: nat)
      requires Valid() && (p == 0 || p in live)
      modifies this
      ensures Valid() && live == old(live) - {p} && calls == old(calls)
    {
      live := live - {p};
    }
  }

  /** One more byte of a field. */
  lemma {:induction false} NoSpacesSnoc(s: seq<byte>, b: byte)
    ensures NoSpaces(s + [b]) == if b != SPACE then NoSpaces(s) + [b] else NoSpaces(s)
  {
    if s == [] {
      assert [b][1..] == [] && s + [b] == [b];
    } else {
      assert (s + [b])[1..] == s[1..] + [b];
      NoSpacesSnoc(s[1..], b);
    }
  }

  /** A listing as returned: NULL, or the two blocks it holds and the array in the second one. */
  datatype Listed = Null | Listed(block: nat, table: nat, entries: array<FileInfo>)

  /** A file as returned: NULL, or its block and the bytes in it. */
  datatype FileRead = NoFile | FileRead(block: nat, bytes: array<byte>)

  class Driver {
    const v: Volume
    const pool: Pool

    constructor (volume: Volume, heap: Pool)
      ensures v == volume && pool == heap
    {
      v, pool := volume, heap;
    }

    /** fat32_read_sector into the buffer from offset `at` on; reads do not fail. */
    method ReadSector(s: word, buf: array<byte>, at: nat)
      requires at + SECTOR <= buf.Length
      modifies buf
      ensures buf[..at] == old(buf[..at]) && buf[at..at + SECTOR] == v.disk(s)
    {
      var bytes := v.disk(s);
      forall k | 0 <= k < SECTOR { buf[at + k] := bytes[k]; }
    }

    /** The sector loop that every reader of a cluster starts with. */
    method ReadCluster(c: word, buf: array<byte>)
      requires buf.Length == ClusterSize(v)
      modifies buf
      ensures buf[..] == ClusterBytes(v, c)
    {
      var first := FirstSector(v, c);
      var i := 0;
      while i < v.perCluster
        invariant i <= v.perCluster && buf[..i * SECTOR] == SectorsFrom(v, first, i)
      {
        ghost var done := buf[..i * SECTOR];
        ReadSector(U32(first + i), buf, i * SECTOR);
        assert buf[..(i + 1) * SECTOR] == done + v.disk(U32(first + i)) by {
          assert buf[..(i + 1) * SECTOR] == buf[..i * SECTOR] + buf[i * SECTOR..i * SECTOR + SECTOR];
        }
        i := i + 1;
      }
      assert buf[..] == buf[..buf.Length];
    }

    /** fat32_get_next_cluster: read the sector of the entry and index it; without a buffer the chain ends here. */
    method GetNextCluster(c: word) returns (n: word)
      requires pool.Valid()
      modifies pool
      ensures pool.Valid() && pool.live == old(pool.live) && pool.calls == old(pool.calls) + 1
      ensures n == if pool.succeeds(old(pool.calls)) then NextCluster(v, c) else 0x0FFF_FFFF
      ensures pool.succeeds(old(pool.calls)) ==> n == Entry(v, c)
    {
      NextClusterOnDisk(v, c);
      hide Entry;
      var buffer, entries := pool.KmallocBytes(SECTOR);
      if buffer == 0 { return 0x0FFF_FFFF; }
      ReadSector(U32(v.reserved + c / 128), entries, 0);
      n := Word(entries[..], 4 * (c % 128)) % 0x1000_0000;
      assert entries[..] == entries[0..SECTOR];
      pool.Kfree(buffer);
    }

    // -------------------------------------------------------------- format_fat_name

    /** `dest[p] = b`, for a string of `p` bytes. */
    method Put(dest: array<byte>, p: nat, b: byte, ghost s: seq<byte>)
      requires p < dest.Length && dest[..p] == s
      modifies dest
      ensures dest[..p + 1] == s + [b]
    {
      dest[p] := b;
      assert dest[..p + 1] == dest[..p] + [b];
    }

    /** Append the non-space bytes of a field to the destination. */
    method CopyField(field: seq<byte>, dest: array<byte>, at: nat, ghost s: seq<byte>) returns (p: nat)
      requires at + |field| <= dest.Length && dest[..at] == s
      modifies dest
      ensures p == at + |NoSpaces(field)| && dest[..p] == s + NoSpaces(field)
    {
      assert NoSpaces([]) == [] && field[..|field|] == field && s + [] == s;
      hide NoSpaces;
      ghost var r := [];
      p := at;
      var i := 0;
      while i < |field|
        invariant i <= |field| && |s| == at && p == |s + r| <= at + i
        invariant r == NoSpaces(field[..i]) && dest[..p] == s + r
      {
        NoSpacesSnoc(field[..i], field[i]);
        assert field[..i + 1] == field[..i] + [field[i]];
        if field[i] != SPACE {
          Put(dest, p, field[i], s + r);
          assert s + r + [field[i]] == s + (r + [field[i]]);
          r := r + [field[i]];
          p := p + 1;
        }
        i := i + 1;
      }
    }

    /** format_fat_name: at most twelve characters and the NUL, in a 13-byte destination. */
    method FormatFatName(raw: seq<byte>, dest: array<byte>) returns (p: nat)
      requires |raw| == 11 && dest.Length == 13
      modifies dest
      ensures p == |FormatName(raw)| && dest[..p] == FormatName(raw) && dest[p] == 0
    {
      ghost var base := NoSpaces(raw[..8]);
      assert raw[8..] == [raw[8], raw[9], raw[10]];
      hide NoSpaces;
      p := CopyField(raw[..8], dest, 0, []);
      assert [] + base == base;
      if raw[8] != SPACE || raw[9] != SPACE || raw[10] != SPACE {
        Put(dest, p, DOT, base);
        p := CopyField(raw[8..], dest, p + 1, base + [DOT]);
      }
      ghost var s := dest[..p];
      dest[p] := 0;
      assert dest[..p] == s;
    }

    // -------------------------------------------------------------- fat32_list_directory

    /** The entry loop of the counting pass over one cluster; `ended` tells of an end mark. */
    method CountEntries(buf: array<byte>, c: word) returns (n: nat, ended: bool)
      requires buf[..] == ClusterBytes(v, c)
      ensures n == |Collect(UpToEnd(Slots(v, c)))| == |ListedFrom(v, c, 0)|
      ensures (ended <==> HasEnd(Slots(v, c))) && (ended <==> EndsIn(v, c))
    {
      WholeClusterListed(v, c);
      ClusterEnds(v, c);
      ghost var es, r := Slots(v, c), [];
      ScanStarts(es);
      hide *;
      n := 0;
      var i := 0;
      while i < PerCluster(v)
        invariant i <= |es| && Scanned(es, i, r) && n == |r|
      {
        SlotIsEntry(v, c, i);
        var e := EntryAt(buf[..], i);
        if IsEnd(e) {
          ScanEnds(es, i, r);
          return n, true;
        }
        ScanStep(es, i, r);
        if IsListed(e) {
          n := n + 1;
          r := r + [Info(e)];
        }
        i := i + 1;
      }
      ScanEnds(es, i, r);
      return n, false;
    }

    method FillEntry(e: Raw, entries: array<FileInfo>, index: nat)
      requires index < entries.Length
      modifies entries
      ensures entries[index] == Info(e) == Record(e)
      ensures forall k | 0 <= k < entries.Length && k != index :: entries[k] == old(entries[k])
    {
      EntryFields(e);
      hide Record, InUse, ClusterOf, DirectoryBit;
      var name := new byte[13];
      var p := FormatFatName(RawName(e), name);
      entries[index] := FileInfo(name[..p], Word(e, 28), IsDirectory(e), FirstCluster(e));
    }

    /** The entry loop of the populating pass over one cluster. */
    method FillEntries(buf: array<byte>, c: word, entries: array<FileInfo>, start: nat) returns (index: nat, ended: bool)
      requires buf[..] == ClusterBytes(v, c)
      requires start + |Collect(UpToEnd(Slots(v, c)))| <= entries.Length && buf as object != entries
      modifies entries
      ensures index == start + |Collect(UpToEnd(Slots(v, c)))| && (ended <==> HasEnd(Slots(v, c)))
      ensures entries[..index] == old(entries[..start]) + Collect(UpToEnd(Slots(v, c)))
      ensures Collect(UpToEnd(Slots(v, c))) == ListedFrom(v, c, 0) && (ended <==> EndsIn(v, c))
    {
      WholeClusterListed(v, c);
      ClusterEnds(v, c);
      ghost var es, r := Slots(v, c), [];
      ScanStarts(es);
      hide *;
      index := start;
      var i := 0;
      while i < PerCluster(v)
        invariant i <= |es| && Scanned(es, i, r) && index == start + |r| <= entries.Length
        invariant entries[..start] == old(entries[..start]) && entries[start..index] == r
        invariant buf[..] == ClusterBytes(v, c)
      {
        SlotIsEntry(v, c, i);
        var e := EntryAt(buf[..], i);
        if IsEnd(e) {
          ScanEnds(es, i, r);
          assert entries[..index] == entries[..start] + entries[start..index];
          return index, true;
        }
        ScanStep(es, i, r);
        if IsListed(e) {
          FillEntry(e, entries, index);
          index := index + 1;
          r := r + [Info(e)];
        }
        i := i + 1;
      }
      ScanEnds(es, i, r);
      assert entries[..index] == entries[..start] + entries[start..index];
      return index, false;
    }

    /** The `k` FAT reads whose buffers are calls `first`, `first + 1`, ... of kmalloc all got their buffer. */
    ghost predicate ReadsWork(first: nat, k: nat) { forall q | first <= q < first + k :: pool.succeeds(q) }

    /** Of these `k` reads the last one, and only that, got none: the chain seems to end there. */
    ghost predicate CutOff(first: nat, k: nat) {
      k > 0 && ReadsWork(first, k - 1) && !pool.succeeds(first + k - 1)
    }

    /** Where the cursor of a pass stands: `k` links down the chain, or cut off by a failed allocation. */
    ghost predicate CursorAt(start: word, first: nat, k: nat, c: word) {
      && Open(v, start, k)
      && ((c == Nth(v, start, k) && ReadsWork(first, k)) || (c >= END_OF_CHAIN && CutOff(first, k)))
    }

    lemma CursorMoves(start: word, first: nat, k: nat, c: word, n: word)
      requires Open(v, start, k + 1) && c == Nth(v, start, k) && ReadsWork(first, k)
      requires Nth(v, start, k + 1) == NextCluster(v, c)
      requires n == if pool.succeeds(first + k) then NextCluster(v, c) else 0x0FFF_FFFF
      ensures CursorAt(start, first, k + 1, n)
    {
      hide Open, Nth, NextCluster;
      assert ReadsWork(first, k + 1) || CutOff(first, k + 1);
    }

    /** Among calls of which none is refused, no pass is cut off. */
    lemma WindowReads(a: nat, b: nat, first: nat, k: nat)
      requires pool.Window(a, b) && a <= first && first + k <= b
      ensures !CutOff(first, k)
    {}

    /** The counting pass over cluster `j` of the chain. */
    method CountCluster(start: word, c: word, buf: array<byte>, ghost j: nat, ghost n: nat) returns (found: nat, ended: bool)
      requires buf.Length == ClusterSize(v)
      requires Stops(v, start, n) && Open(v, start, j) && c == Nth(v, start, j) < END_OF_CHAIN
      modifies buf
      ensures j < n && |Listing(v, start, j + 1)| == |Listing(v, start, j)| + found
      ensures if ended then Stops(v, start, j + 1)
              else Open(v, start, j + 1) && Nth(v, start, j + 1) == NextCluster(v, c)
    {
      hide *;
      OpenWithinStops(v, start, j, n);
      ListingStep(v, start, j);
      PartBelowEnd(v, c);
      ReadCluster(c, buf);
      found, ended := CountEntries(buf, c);
      if ended { OpenThenStops(v, start, j); } else { OpenStep(v, start, j); }
    }

    /** One turn of the counting pass: cluster `j`, and the FAT entry of the next one unless there was an end mark. */
    method CountTurn(start: word, c: word, buf: array<byte>, ghost first: nat, ghost j: nat, ghost n: nat)
      returns (found: nat, ended: bool, next: word)
      requires pool.Valid() && buf.Length == ClusterSize(v) && Stops(v, start, n) && pool.calls == first + j
      requires CursorAt(start, first, j, c) && c < END_OF_CHAIN
      modifies pool, buf
      ensures pool.Valid() && pool.live == old(pool.live)
      ensures j < n && |Listing(v, start, j + 1)| == |Listing(v, start, j)| + found
      ensures if ended then Stops(v, start, j + 1) && pool.calls == old(pool.calls)
              else CursorAt(start, first, j + 1, next) && pool.calls == old(pool.calls) + 1
    {
      hide *;
      CursorIsOpen(start, first, j, c);
      found, ended := CountCluster(start, c, buf, j, n);
      if ended { return found, true, c; }
      next := GetNextCluster(c);
      CursorMoves(start, first, j, c, next);
    }

    /** The counting pass: it has counted the first `j` clusters, and all of them unless a FAT read was cut off. */
    method CountPass(start: word, buf: array<byte>, ghost n: nat) returns (total: nat, ghost j: nat)
      requires pool.Valid() && Stops(v, start, n) && buf.Length == ClusterSize(v)
      modifies pool, buf
      ensures pool.Valid() && pool.live == old(pool.live) && old(pool.calls) <= pool.calls
      ensures j <= n && total == |Listing(v, start, j)| && pool.calls <= old(pool.calls) + j
      ensures Stops(v, start, j) || (CutOff(old(pool.calls), j) && pool.calls == old(pool.calls) + j)
    {
      CursorStarts(start, pool.calls);
      hide *;
      ghost var first := pool.calls;
      var c: word := start;
      total, j := 0, 0;
      while c < END_OF_CHAIN
        invariant pool.Valid() && pool.live == old(pool.live) && pool.calls == first + j
        invariant CursorAt(start, first, j, c) && j <= n && total == |Listing(v, start, j)|
        decreases n - j
      {
        var found, ended;
        found, ended, c := CountTurn(start, c, buf, first, j, n);
        total := total + found;
        j := j + 1;
        if ended { return; }
      }
      CursorEnds(start, first, j, c);
    }

    /** The counting pass has seen `j` clusters: the whole directory, or as far as its FAT reads got a buffer. */
    ghost predicate Counted(start: word, first: nat, j: nat) {
      Stops(v, start, j) || CutOff(first, j)
    }

    lemma CursorStarts(start: word, first: nat)
      ensures CursorAt(start, first, 0, start) && Listing(v, start, 0) == []
    {
      NthZero(v, start);
    }

    /** A pass that has left its loop at `c` has reached the end of the chain or was cut off. */
    lemma CursorEnds(start: word, first: nat, k: nat, c: word)
      requires CursorAt(start, first, k, c) && c >= END_OF_CHAIN
      ensures Stops(v, start, k) || CutOff(first, k)
    {
      if c == Nth(v, start, k) { OpenThenStops(v, start, k); }
    }

    /** The populating pass over cluster `k` of the chain, which the counting pass has seen as well. */
    method FillCluster(start: word, c: word, buf: array<byte>, entries: array<FileInfo>, index: nat,
                       ghost k: nat, ghost j: nat, ghost n: nat)
      returns (filled: nat, ended: bool)
      requires buf.Length == ClusterSize(v) && buf as object != entries
      requires Stops(v, start, n) && Open(v, start, k) && c == Nth(v, start, k) < END_OF_CHAIN
      requires entries.Length == |Listing(v, start, j)| && index < entries.Length
      requires Filled(entries[..], index, start, k)
      modifies buf, entries
      ensures k < n && filled <= entries.Length && Filled(entries[..], filled, start, k + 1)
      ensures if ended then Stops(v, start, k + 1)
              else Open(v, start, k + 1) && Nth(v, start, k + 1) == NextCluster(v, c)
    {
      hide *;
      ghost var before := entries[..];
      OpenWithinStops(v, start, k, n);
      NextIsFilled(before, index, start, c, k, j);
      ReadCluster(c, buf);
      filled, ended := FillEntries(buf, c, entries, index);
      assert entries[..filled] == before[..index] + Collect(UpToEnd(Slots(v, c)));
      MoreIsFilled(before, entries[..], index, filled, start, c, k);
      if ended { OpenThenStops(v, start, k); } else { OpenStep(v, start, k); }
    }

    /** The first `index` elements are what `k` clusters list. */
    ghost predicate Filled(entries: seq<FileInfo>, index: nat, start: word, k: nat) {
      index <= |entries| && entries[..index] == Listing(v, start, k)
    }

    lemma FilledPart(entries: seq<FileInfo>, index: nat, start: word, k: nat)
      requires Filled(entries, index, start, k)
      ensures index <= |entries| && entries[..index] == Listing(v, start, k)
    {}

    lemma PartFilled(entries: seq<FileInfo>, index: nat, start: word, k: nat)
      requires index <= |entries| && entries[..index] == Listing(v, start, k)
      ensures Filled(entries, index, start, k)
    {}

    /** Cluster `k` fits behind what is written. */
    lemma NextIsFilled(entries: seq<FileInfo>, index: nat, start: word, c: word, k: nat, j: nat)
      requires Filled(entries, index, start, k) && |entries| == |Listing(v, start, j)| && index < |entries|
      requires Open(v, start, k) && c == Nth(v, start, k) < END_OF_CHAIN
      ensures index + |Collect(UpToEnd(Slots(v, c)))| <= |entries|
    {
      StillCounted(v, start, k, j);
      ListingStep(v, start, k);
      PartBelowEnd(v, c);
    }

    lemma MoreIsFilled(before: seq<FileInfo>, after: seq<FileInfo>, index: nat, filled: nat, start: word, c: word, k: nat)
      requires Filled(before, index, start, k) && filled <= |after|
      requires Open(v, start, k) && c == Nth(v, start, k) < END_OF_CHAIN
      requires after[..filled] == before[..index] + Collect(UpToEnd(Slots(v, c)))
      ensures Filled(after, filled, start, k + 1)
    {
      ListingStep(v, start, k);
      PartBelowEnd(v, c);
    }

    /** One turn of the populating pass. */
    method FillTurn(start: word, c: word, buf: array<byte>, entries: array<FileInfo>, index: nat,
                    ghost first: nat, ghost k: nat, ghost j: nat, ghost n: nat)
      returns (filled: nat, ended: bool, next: word)
      requires pool.Valid() && buf.Length == ClusterSize(v) && buf as object != entries && Stops(v, start, n)
      requires pool.calls == first + k && CursorAt(start, first, k, c) && c < END_OF_CHAIN
      requires entries.Length == |Listing(v, start, j)| && index < entries.Length
      requires Filled(entries[..], index, start, k)
      modifies pool, buf, entries
      ensures pool.Valid() && pool.live == old(pool.live)
      ensures k < n && filled <= entries.Length && Filled(entries[..], filled, start, k + 1)
      ensures if ended then filled == entries.Length && pool.calls == old(pool.calls)
              else CursorAt(start, first, k + 1, next) && pool.calls == old(pool.calls) + 1
    {
      hide *;
      CursorIsOpen(start, first, k, c);
      filled, ended := FillCluster(start, c, buf, entries, index, k, j, n);
      if ended {
        FilledPart(entries[..], filled, start, k + 1);
        StoppedMeansAll(v, start, k + 1, j);
        return filled, true, c;
      }
      next := GetNextCluster(c);
      CursorMoves(start, first, k, c, next);
    }

    /**
     The populating pass. It looks at the count between clusters only, and still never writes past it:
     the counting pass went through the same clusters, as far as it got. It falls short of the count
     only when one of its `k` FAT reads, the last one, got no buffer.
     */
    method FillPass(start: word, buf: array<byte>, entries: array<FileInfo>, ghost j: nat, ghost n: nat)
      returns (index: nat, ghost k: nat)
      requires pool.Valid() && Stops(v, start, n) && buf.Length == ClusterSize(v) && buf as object != entries
      requires entries.Length == |Listing(v, start, j)|
      modifies pool, buf, entries
      ensures pool.Valid() && pool.live == old(pool.live) && old(pool.calls) <= pool.calls <= old(pool.calls) + k && k <= n
      ensures Filled(entries[..], index, start, k)
      ensures index == entries.Length || (CutOff(old(pool.calls), k) && pool.calls == old(pool.calls) + k)
    {
      CursorStarts(start, pool.calls);
      hide *;
      ghost var first := pool.calls;
      var c: word := start;
      index, k := 0, 0;
      PartFilled(entries[..], index, start, k);
      while c < END_OF_CHAIN && index < entries.Length
        invariant pool.Valid() && pool.live == old(pool.live) && pool.calls == first + k
        invariant CursorAt(start, first, k, c) && index <= entries.Length && Filled(entries[..], index, start, k)
        invariant k <= n
        decreases n - k
      {
        var ended;
        index, ended, c := FillTurn(start, c, buf, entries, index, first, k, j, n);
        k := k + 1;
        if ended { return; }
      }
      if index < entries.Length { FilledOrCutOff(entries[..], index, start, first, k, c, j); }
    }

    lemma FilledOrCutOff(entries: seq<FileInfo>, index: nat, start: word, first: nat, k: nat, c: word, j: nat)
      requires CursorAt(start, first, k, c) && c >= END_OF_CHAIN && Filled(entries, index, start, k)
      requires index < |entries| == |Listing(v, start, j)|
      ensures CutOff(first, k)
    {
      CursorEnds(start, first, k, c);
      if Stops(v, start, k) { StoppedMeansAll(v, start, k, j); }
    }

    lemma CursorIsOpen(start: word, first: nat, k: nat, c: word)
      requires CursorAt(start, first, k, c) && c < END_OF_CHAIN
      ensures Open(v, start, k) && c == Nth(v, start, k) && ReadsWork(first, k)
    {}

    /**
     The entries of the first `k` clusters are written. They are all that were counted, unless the
     `k`th FAT read of the populating pass got no buffer; that was the `calls`th call of kmalloc.
     */
    ghost predicate Written(start: word, entries: seq<FileInfo>, k: nat, calls: nat) {
      && Listing(v, start, k) <= entries
      && (|Listing(v, start, k)| == |entries| || (k <= calls && CutOff(calls - k, k)))
    }

    /**
     fat32_list_directory. Whatever allocations fail, the heap ends up with the two blocks of a listing
     or with nothing new. If none of this call's own allocations is refused the listing is the whole
     directory, and an empty one is NULL. Otherwise the array is as long as `j` clusters list and holds
     what `k` clusters list, where a pass ends early only at the first of its FAT reads that gets no buffer.
     */
    method ListDirectory(start: word, ghost n: nat) returns (l: Listed, ghost j: nat, ghost k: nat)
      requires pool.Valid() && Stops(v, start, n) && |Listing(v, start, n)| * RECORD < TWO32
      modifies pool
      ensures pool.Valid() && (l.Listed? ==> fresh(l.entries))
      ensures old(pool.calls) < pool.calls <= old(pool.calls) + 3 + 2 * n
      ensures if l.Null? then pool.live == old(pool.live)
              else pool.live == old(pool.live)[l.block := 8][l.table := 28 * l.entries.Length] && l.block != l.table
                   && l.block !in old(pool.live) && l.table !in old(pool.live) && l.block != 0 && l.table != 0
      ensures l.Listed? ==>
                && Counted(start, old(pool.calls) + 1, j) && l.entries.Length == |Listing(v, start, j)| > 0
                && Written(start, l.entries[..], k, pool.calls)
      ensures l.Null? ==>
                || ClusterSize(v) == 0 || !pool.succeeds(pool.calls - 1)
                || (Counted(start, old(pool.calls) + 1, j) && Listing(v, start, j) == [])
      ensures pool.Window(old(pool.calls), pool.calls) ==> IsListing(l, Directory(v, start, n))
    {
      ListingOnDisk(v, start, n);
      hide Stops, Listing, Directory, CutOff, Written, IsListing, Pool.Window;
      j, k := 0, 0;
      EmptyClusters(v, start, n);
      ghost var first := pool.calls;
      var clusterBuf, buf := pool.KmallocBytes(ClusterSize(v));
      if clusterBuf == 0 {
        NoBufferNoListing(first, Listing(v, start, n));
        return Null, 0, 0;
      }
      var total;
      total, j := CountPass(start, buf, n);
      ListingGrows(v, start, j, n);
      ghost var counted := pool.calls;
      assert total * RECORD <= |Listing(v, start, n)| * RECORD < TWO32;
      l, k := MakeListing(start, buf, total, j, n);
      if pool.Window(first, pool.calls) {
        SmallerWindow(first, pool.calls, counted, pool.calls);
        CountedIsAll(start, first, counted, pool.calls, j, n);
      }
      pool.Kfree(clusterBuf);
    }

    /** The returned listing is `s`, and NULL if `s` has no entries. */
    ghost predicate IsListing(l: Listed, s: seq<FileInfo>)
      reads if l.Listed? then {l.entries} else {}
    {
      if l.Null? then s == [] else l.entries[..] == s && s != []
    }

    lemma NoBufferNoListing(first: nat, s: seq<FileInfo>)
      requires ClusterSize(v) == 0 ==> s == []
      requires ClusterSize(v) == 0 || !pool.succeeds(first)
      ensures pool.Window(first, first + 1) ==> IsListing(Null, s)
    {}

    lemma SmallerWindow(a: nat, b: nat, c: nat, d: nat)
      requires pool.Window(a, b) && a <= c && d <= b
      ensures pool.Window(c, d)
    {}

    /** The second half: the blocks of the listing, the populating pass, and what to give back when a block is refused. */
    method MakeListing(start: word, buf: array<byte>, total: nat, ghost j: nat, ghost n: nat) returns (l: Listed, ghost k: nat)
      requires pool.Valid() && Stops(v, start, n) && buf.Length == ClusterSize(v)
      requires total == |Listing(v, start, j)| && total * RECORD < TWO32
      modifies pool, buf
      ensures pool.Valid() && (l.Listed? ==> fresh(l.entries))
      ensures old(pool.calls) < pool.calls <= old(pool.calls) + 2 + n
      ensures if l.Null? then pool.live == old(pool.live) && (total == 0 || !pool.succeeds(pool.calls - 1))
              else pool.live == old(pool.live)[l.block := 8][l.table := 28 * l.entries.Length] && l.block != l.table
                   && l.block !in old(pool.live) && l.table !in old(pool.live) && l.block != 0 && l.table != 0
      ensures l.Listed? ==> l.entries.Length == total > 0 && Written(start, l.entries[..], k, pool.calls)
      ensures pool.Window(old(pool.calls), pool.calls) ==> IsListing(l, Listing(v, start, j))
    {
      hide Stops, Listing, Written, IsListing, Pool.Window;
      k := 0;
      ghost var first := pool.calls;
      var block := pool.Kmalloc(8);
      if block == 0 {
        RefusedIsNoWindow(first, pool.calls);
        return Null, 0;
      }
      var table := pool.Kmalloc(U32(total * RECORD));
      if table == 0 {
        if total == 0 { EmptyIsNull(Listing(v, start, j)); } else { RefusedIsNoWindow(first, pool.calls); }
        pool.Kfree(block);
        return Null, 0;
      }
      var entries := new FileInfo[total];
      var index;
      index, k := FillPass(start, buf, entries, j, n);
      l := Listed(block, table, entries);
      FilledIsWritten(start, entries[..], index, k, j, pool.calls);
      if pool.Window(first, pool.calls) { WrittenIsAll(start, l, k, j, first, pool.calls); }
    }

    lemma RefusedIsNoWindow(a: nat, b: nat)
      requires a < b && !pool.succeeds(b - 1)
      ensures !pool.Window(a, b)
    {}

    lemma EmptyIsNull(s: seq<FileInfo>)
      requires |s| == 0
      ensures IsListing(Null, s)
    {}

    lemma FilledIsWritten(start: word, entries: seq<FileInfo>, index: nat, k: nat, j: nat, calls: nat)
      requires Filled(entries, index, start, k) && |entries| == |Listing(v, start, j)|
      requires index == |entries| || (k <= calls && CutOff(calls - k, k))
      ensures Written(start, entries, k, calls)
    {
      assert entries[..index] <= entries;
    }

    lemma WrittenIsAll(start: word, l: Listed, k: nat, j: nat, first: nat, calls: nat)
      requires l.Listed? && Written(start, l.entries[..], k, calls) && l.entries.Length == |Listing(v, start, j)| > 0
      requires pool.Window(first, calls) && first < calls
      ensures IsListing(l, Listing(v, start, j))
    {
      LastIsNotCutOff(first, calls, k);
      FilledIsAll(v, start, k, j);
    }

    lemma LastIsNotCutOff(a: nat, b: nat, k: nat)
      requires pool.Window(a, b) && a < b
      ensures k <= b ==> !CutOff(b - k, k)
    {}

    lemma CountedIsAll(start: word, first: nat, counted: nat, calls: nat, j: nat, n: nat)
      requires pool.Window(first, calls) && counted <= calls && j <= n && Stops(v, start, n)
      requires Stops(v, start, j) || (CutOff(first + 1, j) && counted == first + 1 + j)
      ensures Listing(v, start, j) == Listing(v, start, n)
    {
      if CutOff(first + 1, j) && counted == first + 1 + j { WindowReads(first, calls, first + 1, j); }
      ListingIsComplete(v, start, j, n);
    }

    /** fat32_free_dir_listing. */
    method FreeDirListing(l: Listed)
      requires pool.Valid() && (l.Listed? ==> l.block in pool.live && l.table in pool.live && l.block != l.table)
      modifies pool
      ensures pool.Valid() && pool.calls == old(pool.calls)
      ensures pool.live == if l.Null? then old(pool.live) else old(pool.live) - {l.block, l.table}
    {
      if l.Listed? {
        pool.Kfree(l.table);
        pool.Kfree(l.block);
      }
    }

    // -------------------------------------------------------------- fat32_read_file

    /** memcpy into the file buffer. */
    method CopyBytes(from: array<byte>, to: array<byte>, at: nat, n: nat)
      requires n <= from.Length && at + n <= to.Length && from != to
      modifies to
      ensures to[..at + n] == old(to[..at]) + from[..n]
    {
      forall k | 0 <= k < n { to[at + k] := from[k]; }
      assert to[..at] == old(to[..at]) && to[at..at + n] == from[..n];
      assert to[..at + n] == to[..at] + to[at..at + n];
    }

    /** One turn of the cluster loop: the next cluster's bytes, as many as are still wanted. */
    method CopyCluster(c: word, left: nat, bytes: array<byte>, copied: nat, buf: array<byte>, ghost whole: seq<byte>)
      returns (n: nat)
      requires 0 < ClusterSize(v) == buf.Length && bytes != buf && c < END_OF_CHAIN
      requires 0 < left && copied + left <= bytes.Length && bytes[..copied] + FileBytes(v, c, left) == whole
      modifies bytes, buf
      ensures n == if left > ClusterSize(v) then ClusterSize(v) else left
      ensures bytes[..copied + n] + FileBytes(v, NextCluster(v, c), left - n) == whole
      ensures FileBytes(v, 0x0FFF_FFFF, left - n) == []
    {
      hide ClusterBytes, NextCluster;
      FileBytesStep(v, c, left, bytes[..copied]);
      hide FileBytes;
      ReadCluster(c, buf);
      n := if left > ClusterSize(v) then ClusterSize(v) else left;
      CopyBytes(buf, bytes, copied, n);
    }

    /** Bytes of `turns` whole clusters. */
    ghost function SizeOf(turns: nat): nat { turns * ClusterSize(v) }

    lemma SizeOfNext(turns: nat)
      ensures SizeOf(0) == 0 && SizeOf(turns + 1) == SizeOf(turns) + ClusterSize(v)
    {}

    /** Midway through a file: `copied` bytes are there, and the rest is to come or the chain was cut off. */
    ghost predicate Copying(start: word, size: nat, bytes: seq<byte>, left: nat, c: word, first: nat, turns: nat)
      requires ClusterSize(v) > 0
    {
      if ReadsWork(first, turns) then bytes + FileBytes(v, c, left) == FileBytes(v, start, size)
      else c >= END_OF_CHAIN && CutOff(first, turns) && bytes <= FileBytes(v, start, size)
    }

    lemma CopyingMoves(start: word, size: nat, bytes: seq<byte>, left: nat, c: word, n: word, first: nat, turns: nat)
      requires ClusterSize(v) > 0 && ReadsWork(first, turns)
      requires bytes + FileBytes(v, NextCluster(v, c), left) == FileBytes(v, start, size)
      requires n == if pool.succeeds(first + turns) then NextCluster(v, c) else 0x0FFF_FFFF
      ensures Copying(start, size, bytes, left, n, first, turns + 1)
    {
      hide FileBytes, NextCluster, ClusterSize;
      if pool.succeeds(first + turns) {
        assert ReadsWork(first, turns + 1);
      } else {
        assert CutOff(first, turns + 1) && !ReadsWork(first, turns + 1);
        assert bytes <= bytes + FileBytes(v, NextCluster(v, c), left);
      }
    }

    /**
     What is in the file buffer after `turns` clusters: the whole file as far as its chain goes, or, if
     the last FAT read got no buffer, the bytes of exactly these clusters.
     */
    ghost predicate Copied(start: word, size: nat, bytes: seq<byte>, first: nat, turns: nat)
      requires ClusterSize(v) > 0
    {
      || bytes == FileBytes(v, start, size)
      || (bytes <= FileBytes(v, start, size) && CutOff(first, turns) && (|bytes| == size || |bytes| == SizeOf(turns)))
    }

    lemma CopyingEnds(start: word, size: nat, bytes: seq<byte>, left: nat, c: word, first: nat, turns: nat)
      requires ClusterSize(v) > 0 && Copying(start, size, bytes, left, c, first, turns)
      requires c >= END_OF_CHAIN || left == 0
      requires |bytes| == size || |bytes| == SizeOf(turns)
      ensures Copied(start, size, bytes, first, turns)
    {
      assert FileBytes(v, c, left) == [] && bytes + [] == bytes;
    }

    lemma CopyingStarts(start: word, size: nat, bytes: seq<byte>, first: nat)
      requires ClusterSize(v) > 0 && bytes == []
      ensures Copying(start, size, bytes, size, start, first, 0)
    {}

    lemma CopyingGoesOn(start: word, size: nat, bytes: seq<byte>, left: nat, c: word, first: nat, turns: nat)
      requires ClusterSize(v) > 0 && Copying(start, size, bytes, left, c, first, turns) && c < END_OF_CHAIN
      ensures ReadsWork(first, turns) && bytes + FileBytes(v, c, left) == FileBytes(v, start, size)
    {}

    /** One turn of the cluster loop: the cluster's bytes, then the FAT entry of the next one. */
    method CopyTurn(start: word, size: word, c: word, left: nat, bytes: array<byte>, copied: nat, buf: array<byte>, ghost first: nat, ghost turns: nat)
      returns (n: nat, next: word)
      requires pool.Valid() && 0 < ClusterSize(v) == buf.Length && bytes != buf
      requires c < END_OF_CHAIN && 0 < left && copied + left < bytes.Length && pool.calls == first + turns
      requires Copying(start, size, bytes[..copied], left, c, first, turns)
      modifies pool, bytes, buf
      ensures pool.Valid() && pool.live == old(pool.live) && pool.calls == old(pool.calls) + 1
      ensures n == if left > ClusterSize(v) then ClusterSize(v) else left
      ensures Copying(start, size, bytes[..copied + n], left - n, next, first, turns + 1)
    {
      CopyingGoesOn(start, size, bytes[..copied], left, c, first, turns);
      hide *;
      n := CopyCluster(c, left, bytes, copied, buf, FileBytes(v, start, size));
      next := GetNextCluster(c);
      CopyingMoves(start, size, bytes[..copied + n], left - n, c, next, first, turns);
    }

    /** Whole clusters are copied until the last, partial one; `turns` of them so far. */
    ghost predicate Counts(size: nat, copied: nat, left: nat, turns: nat)
      requires ClusterSize(v) > 0
    {
      && copied + left == size && (copied == size || copied == SizeOf(turns))
      && turns + ClustersFor(v, left) == ClustersFor(v, size)
    }

    lemma CountsStart(size: nat)
      requires ClusterSize(v) > 0
      ensures Counts(size, 0, size, 0)
    {}

    lemma CountsGoOn(size: nat, copied: nat, left: nat, n: nat, turns: nat)
      requires ClusterSize(v) > 0 && left > 0 && Counts(size, copied, left, turns)
      requires n == if left > ClusterSize(v) then ClusterSize(v) else left
      ensures 0 < n <= left && Counts(size, copied + n, left - n, turns + 1)
    {
      SizeOfNext(turns);
      ClustersForStep(v, left);
      hide SizeOf, ClusterSize;
    }

    lemma CountsEnd(size: nat, copied: nat, left: nat, turns: nat)
      requires ClusterSize(v) > 0 && Counts(size, copied, left, turns)
      ensures (copied == size || copied == SizeOf(turns)) && turns <= ClustersFor(v, size)
    {}

    /** The cluster loop: it ends after at most one turn per cluster of the size, also on a cyclic chain. */
    method CopyFile(start: word, size: word, bytes: array<byte>, buf: array<byte>) returns (copied: nat, ghost turns: nat)
      requires pool.Valid() && 0 < ClusterSize(v) == buf.Length
      requires bytes.Length == size + 1 && bytes != buf
      modifies pool, bytes, buf
      ensures pool.Valid() && pool.live == old(pool.live)
      ensures pool.calls == old(pool.calls) + turns && turns <= ClustersFor(v, size)
      ensures copied <= size && Copied(start, size, bytes[..copied], old(pool.calls), turns)
      ensures HoldsFile(v, start, bytes[..copied])
    {
      hide *;
      ghost var first := pool.calls;
      CopyingStarts(start, size, bytes[..0], first);
      CountsStart(size);
      var c: word, left: nat := start, size;
      copied, turns := 0, 0;
      while c < END_OF_CHAIN && left > 0
        invariant pool.Valid() && pool.live == old(pool.live) && pool.calls == first + turns
        invariant copied + left == size && Counts(size, copied, left, turns)
        invariant Copying(start, size, bytes[..copied], left, c, first, turns)
        decreases left
      {
        var n;
        n, c := CopyTurn(start, size, c, left, bytes, copied, buf, first, turns);
        CountsGoOn(size, copied, left, n, turns);
        copied, left, turns := copied + n, left - n, turns + 1;
      }
      CountsEnd(size, copied, left, turns);
      CopyingEnds(start, size, bytes[..copied], left, c, first, turns);
      CopiedHoldsFile(start, size, bytes[..copied], first, turns);
    }

    lemma CopiedHoldsFile(start: word, size: nat, bytes: seq<byte>, first: nat, turns: nat)
      requires ClusterSize(v) > 0 && Copied(start, size, bytes, first, turns)
      ensures HoldsFile(v, start, bytes)
    {
      PrefixHoldsFile(v, start, size, bytes);
    }

    /** fat32_read_file. A file buffer larger than the chain provides for keeps arbitrary bytes at its end. */
    method ReadFile(start: word, size: word) returns (r: FileRead, copied: nat, ghost turns: nat)
      requires pool.Valid()
      modifies pool
      ensures pool.Valid() && (r.FileRead? ==> fresh(r.bytes) && ClusterSize(v) > 0)
      ensures if r.NoFile? then pool.live == old(pool.live)
              else r.block != 0 && r.block !in old(pool.live) && pool.live == old(pool.live)[r.block := size + 1]
      ensures r.FileRead? <==>
                && size != 0 && start < END_OF_CHAIN && size + 1 < TWO32 && ClusterSize(v) > 0
                && pool.succeeds(old(pool.calls)) && pool.succeeds(old(pool.calls) + 1)
      ensures r.FileRead? ==>
                && r.bytes.Length == size + 1 && r.bytes[size] == 0 && copied <= size
                && Copied(start, size, r.bytes[..copied], old(pool.calls) + 2, turns)
                && HoldsFile(v, start, r.bytes[..copied])
                && pool.calls == old(pool.calls) + 2 + turns && turns <= ClustersFor(v, size)
                && (pool.Window(old(pool.calls), pool.calls) ==> r.bytes[..copied] == FileBytes(v, start, size))
    {
      hide FileBytes, CutOff, Copied, HoldsFile;
      turns := 0;
      if size == 0 || start >= END_OF_CHAIN { return NoFile, 0, 0; }
      var block, bytes := pool.KmallocBytes(U32(size + 1));
      if block == 0 { return NoFile, 0, 0; }
      var clusterBuf, buf := pool.KmallocBytes(ClusterSize(v));
      if clusterBuf == 0 {
        pool.Kfree(block);
        return NoFile, 0, 0;
      }
      copied, turns := CopyFile(start, size, bytes, buf);
      pool.Kfree(clusterBuf);
      ghost var prefix := bytes[..copied];
      bytes[size] := 0;
      assert bytes[..copied] == prefix;
      if pool.Window(old(pool.calls), pool.calls) { CopiedIsAll(start, size, prefix, old(pool.calls), turns); }
      return FileRead(block, bytes), copied, turns;
    }

    lemma CopiedIsAll(start: word, size: nat, bytes: seq<byte>, first: nat, turns: nat)
      requires ClusterSize(v) > 0 && Copied(start, size, bytes, first + 2, turns) && pool.Window(first, first + 2 + turns)
      ensures bytes == FileBytes(v, start, size)
    {
      WindowReads(first, first + 2 + turns, first + 2, turns);
    }

    // -------------------------------------------------------------- find_in_directory_cluster

    /** The entry loop over one cluster. */
    method SearchCluster(buf: array<byte>, c: word, target: seq<byte>) returns (found: Option<Raw>)
      requires buf[..] == ClusterBytes(v, c)
      ensures found == FindEntry(Slots(v, c), target)
    {
      ghost var es := Slots(v, c);
      assert es[0..] == es && FindEntry([], target) == None;
      hide FirstSector, ClusterBytes, Slots, IsEnd, IsListed;
      var i := 0;
      while i < PerCluster(v)
        invariant i <= |es| && FindEntry(es, target) == FindEntry(es[i..], target)
      {
        SlotIsEntry(v, c, i);
        var e := EntryAt(buf[..], i);
        assert es[i..][0] == e && es[i..][1..] == es[i + 1..];
        if IsEnd(e) { return None; }
        if IsListed(e) && RawName(e) == target { return Some(e); }
        i := i + 1;
      }
      assert es[i..] == [];
      return None;
    }

    /** The first entry of one cluster with the wanted 11 bytes; cluster 0 stands for none, and for a refused buffer. */
    method FindInDirectoryCluster(c: word, target: seq<byte>) returns (cluster: word, isDirectory: Option<bool>)
      requires pool.Valid() && |target| == 11
      modifies pool
      ensures pool.Valid() && pool.live == old(pool.live)
      ensures pool.calls == old(pool.calls) + 1
      ensures var found := if pool.succeeds(old(pool.calls)) && ClusterSize(v) > 0 then FindEntry(Slots(v, c), target) else None;
              match found
              case None => cluster == 0 && isDirectory == None
              case Some(e) => cluster == FirstCluster(e) && isDirectory == Some(IsDirectory(e))
      ensures (cluster, isDirectory) ==
              if pool.succeeds(old(pool.calls)) && v.perCluster > 0 then FoundFrom(v, c, target, 0) else (0, None)
    {
      WholeClusterSearched(v, c, target);
      hide Slots, ClusterBytes, FindEntry, FoundFrom;
      var clusterBuf, buf := pool.KmallocBytes(ClusterSize(v));
      if clusterBuf == 0 { return 0, None; }
      ReadCluster(c, buf);
      var found := SearchCluster(buf, c, target);
      cluster, isDirectory := 0, None;
      if found.Some? {
        cluster, isDirectory := FirstCluster(found.value), Some(IsDirectory(found.value));
      }
      pool.Kfree(clusterBuf);
    }

    // -------------------------------------------------------------- fat32_resolve_path

    /** The loops that advance a path pointer over slashes. A pointer into a string is the rest of the string. */
    method SkipSlashesLoop(path: seq<byte>) returns (p: seq<byte>)
      ensures p == SkipSlashes(path)
    {
      p := path;
      while p != [] && p[0] == SLASH
        invariant SkipSlashes(p) == SkipSlashes(path)
        decreases |p|
      {
        p := p[1..];
      }
    }

    /** get_next_path_node: skip slashes, copy one component and a NUL into the 13-byte buffer. */
    method GetNextPathNode(path: seq<byte>, node: array<byte>) returns (rest: Option<seq<byte>>)
      requires node.Length == 13 && |Token(SkipSlashes(path))| <= 12
      modifies node
      ensures var q := SkipSlashes(path);
              if q == [] then rest == None
              else rest == Some(q[|Token(q)|..]) && node[..|Token(q)|] == Token(q) && node[|Token(q)|] == 0
    {
      hide SkipSlashes, Token;
      var q := SkipSlashesLoop(path);
      if q == [] { return None; }
      var n := CopyToken(q, node);
      return Some(q[n..]);
    }

    /** The copying loop: up to the next slash or the end, then a NUL. */
    method CopyToken(q: seq<byte>, node: array<byte>) returns (n: nat)
      requires |Token(q)| < node.Length
      modifies node
      ensures n == |Token(q)| <= |q| && node[..n] == Token(q) && node[n] == 0
    {
      hide Token;
      ghost var t := Token(q);
      n := 0;
      assert q[0..] == q && t[0..] == t;
      while n < |q| && q[n] != SLASH
        invariant n <= |t| <= |q| && t[n..] == Token(q[n..])
        invariant forall k | 0 <= k < n :: node[k] == t[k]
      {
        TokenStep(q, n);
        assert t[n] == t[n..][0] && t[n + 1..] == t[n..][1..];
        node[n] := q[n];
        n := n + 1;
      }
      TokenStep(q, n);
      node[n] := 0;
    }

    /** fat32_normalize_path_token: upper-case a NUL-terminated string in place. */
    method NormalizePathToken(str: array<byte>, ghost n: nat)
      requires n < str.Length && str[n] == 0 && forall i | 0 <= i < n :: str[i] != 0
      modifies str
      ensures str[..n] == Upper(old(str[..n])) && str[n] == 0 && forall i | 0 <= i < n :: str[i] != 0
    {
      ghost var was := str[..n];
      var i := 0;
      while str[i] != 0
        invariant i <= n && str[n] == 0
        invariant forall k | 0 <= k < i :: str[k] == UpperByte(was[k])
        invariant forall k | i <= k < n :: str[k] == was[k] && was[k] != 0
        decreases n - i
      {
        if 0x61 <= str[i] <= 0x7A {
          str[i] := str[i] - 0x20;
        }
        i := i + 1;
      }
    }

    /** The search loop over a listing; strcmp compares the two C strings. */
    method SearchListing(l: Listed, node: array<byte>) returns (found: Option<FileInfo>)
      requires l.Listed?
      ensures found == Lookup(l.entries[..], node[..])
    {
      var i := 0;
      while i < l.entries.Length
        invariant i <= l.entries.Length
        invariant forall k | 0 <= k < i :: CString(l.entries[k].name) != CString(node[..])
      {
        if CString(l.entries[i].name) == CString(node[..]) {
          LookupIsFirst(l.entries[..], node[..], i);
          return Some(l.entries[i]);
        }
        i := i + 1;
      }
      LookupIsFirst(l.entries[..], node[..], i);
      return None;
    }

    /** List one directory, look a name up in it, and give the listing back. */
    method LookupIn(c: word, node: array<byte>) returns (found: Option<FileInfo>)
      requires pool.Valid() && Listable(v, c)
      modifies pool
      ensures pool.Valid() && pool.live == old(pool.live)
      ensures old(pool.calls) <= pool.calls <= old(pool.calls) + ListCalls(v, c)
      ensures pool.Window(old(pool.calls), pool.calls) ==> found == Lookup(Dir(v, c), node[..])
    {
      ghost var n := Span(v, c);
      DirIsListing(v, c, n);
      ListingOnDisk(v, c, n);
      hide Stops, Listing, Directory, Listable, Dir, Span, Counted, Written, Pool.Window, Pool.Valid, Lookup;
      var l, _, _ := ListDirectory(c, n);
      if l.Null? {
        EmptyLookup(node[..]);
        return None;
      }
      found := SearchListing(l, node);
      FreeDirListing(l);
    }

    lemma EmptyLookup(name: seq<byte>)
      ensures Lookup([], name) == None
    {}

    /**
     What the resolution loop relies on: every directory that it may still have to list comes to an end.
     After a refused allocation it may follow an arbitrary record, so then all directories must be such;
     if none of the next `WalkCalls` allocations is refused, those on the path are enough.
     */
    ghost predicate Safe(c: word, ts: seq<seq<byte>>, calls: nat) {
      || (forall d: word :: Listable(v, d))
      || (Walkable(v, c, ts) && pool.Window(calls, calls + WalkCalls(v, c, ts)))
    }

    /** As far as no allocation since call number `first` was refused, what is left to do gives the result. */
    ghost predicate OnPath(first: nat, calls: nat, c: word, ts: seq<seq<byte>>, out: FileInfo, result: (bool, FileInfo)) {
      first <= calls && (pool.Window(first, calls) ==> Resolve(v, c, ts, out) == result)
    }

    lemma SafeIsListable(c: word, ts: seq<seq<byte>>, calls: nat)
      requires Safe(c, ts, calls)
      ensures ts != [] ==> Listable(v, c)
    {
      if forall d: word :: Listable(v, d) { assert Listable(v, c); }
    }

    /** A path that is used up: whichever directory is current, nothing is left to list. */
    lemma NothingLeft(first: nat, calls: nat, c: word, d: word, out: FileInfo, result: (bool, FileInfo))
      ensures Safe(c, [], calls)
      ensures OnPath(first, calls, d, [], out, result) ==> OnPath(first, calls, c, [], out, result)
      ensures OnPath(first, calls, d, [], out, result) && pool.Window(first, calls) ==> result == (true, out)
    {}

    /** One turn of the loop: `found` is what the directory holds, if none of the turn's allocations was refused. */
    lemma TurnOnPath(first: nat, was: nat, now: nat, c: word, ts: seq<seq<byte>>, out: FileInfo,
                     found: Option<FileInfo>, result: (bool, FileInfo))
      requires ts != [] && was <= now && OnPath(first, was, c, ts, out, result)
      requires pool.Window(was, now) ==> found == Lookup(Dir(v, c), Upper(ts[0]))
      ensures found.None? && pool.Window(first, now) ==> result == (false, out)
      ensures found.Some? && |ts| > 1 && !found.value.isDirectory && pool.Window(first, now) ==> result == (false, found.value)
      ensures found.Some? && (|ts| == 1 || found.value.isDirectory) ==>
                OnPath(first, now, found.value.firstCluster, ts[1..], found.value, result)
    {
      if pool.Window(first, now) {
        assert pool.Window(first, was) && pool.Window(was, now);
        ResolveUnfolds(v, c, ts, out);
      }
      hide Lookup, Dir, Upper;
    }

    lemma TurnIsSafe(was: nat, now: nat, c: word, ts: seq<seq<byte>>, found: FileInfo)
      requires |ts| > 1 && Safe(c, ts, was) && was <= now <= was + ListCalls(v, c)
      requires pool.Window(was, now) ==> Some(found) == Lookup(Dir(v, c), Upper(ts[0]))
      requires found.isDirectory
      ensures Safe(found.firstCluster, ts[1..], now)
    {
      if !(forall d: word :: Listable(v, d)) {
        assert pool.Window(was, now);
        hide Lookup, Dir, Upper, Listable, Span;
      }
    }

    /**
     fat32_resolve_path. `given` is what the caller's record holds before the call: a path without
     components leaves it as it is. No heap block stays behind, whatever fails; and unless one of this
     call's own allocations is refused the result is the specified one.
     */
    method ResolvePath(path: seq<byte>, root: word, given: FileInfo) returns (ok: bool, out: FileInfo)
      requires pool.Valid() && Safe(root, Components(path), pool.calls)
      requires PathOk(path)
      modifies pool
      ensures pool.Valid() && pool.live == old(pool.live) && old(pool.calls) <= pool.calls
      ensures pool.Window(old(pool.calls), pool.calls) ==> (ok, out) == PathResult(v, root, path, given)
    {
      if path == [SLASH] { return true, RootInfo(root); }
      hide Walkable, Resolve, Components, Lookup, Safe, OnPath, Listable, PathOk, Dir, Upper, Pool.Window, Pool.Valid, ListCalls;
      var c: word, cursor := root, path;
      out := given;
      ghost var first, result := pool.calls, Resolve(v, root, Components(path), given);
      assert OnPath(first, first, root, Components(path), given, result) by { OnPathStarts(first, root, Components(path), given); }
      while true
        invariant pool.Valid() && pool.live == old(pool.live) && first <= pool.calls
        invariant Safe(c, Components(cursor), pool.calls) && PathOk(cursor)
        invariant OnPath(first, pool.calls, c, Components(cursor), out, result)
        decreases |cursor|
      {
        ghost var ts, was := Components(cursor), pool.calls;
        SafeIsListable(c, ts, was);
        var rest, found := NextEntry(cursor, c);
        if rest.None? {
          NothingLeft(first, pool.calls, c, c, out, result);
          return true, out;
        }
        PathOkRest(cursor, rest.value);
        TurnOnPath(first, was, pool.calls, c, ts, out, found, result);
        if found.None? { return false, out; }
        out := found.value;
        cursor := SkipSlashesLoop(rest.value);
        if cursor != [] {
          if !out.isDirectory { return false, out; }
          TurnIsSafe(was, pool.calls, c, ts, out);
          c := out.firstCluster;
        } else {
          NothingLeft(first, pool.calls, c, out.firstCluster, out, result);
        }
      }
    }

    lemma OnPathStarts(first: nat, c: word, ts: seq<seq<byte>>, out: FileInfo)
      ensures OnPath(first, first, c, ts, out, Resolve(v, c, ts, out))
    {}

    /** One component: cut it off the path, upper-case it, and look it up in directory `c`. */
    method NextEntry(path: seq<byte>, c: word) returns (rest: Option<seq<byte>>, found: Option<FileInfo>)
      requires pool.Valid() && PathOk(path) && (Components(path) != [] ==> Listable(v, c))
      modifies pool
      ensures pool.Valid() && pool.live == old(pool.live)
      ensures rest == AfterFirst(path) && (rest.None? ==> Components(path) == [] && pool.calls == old(pool.calls))
      ensures old(pool.calls) <= pool.calls <= old(pool.calls) + ListCalls(v, c)
      ensures rest.Some? && pool.Window(old(pool.calls), pool.calls) ==> found == Lookup(Dir(v, c), Upper(Components(path)[0]))
    {
      FirstComponent(path);
      hide SkipSlashes, Token, Components, Listable, Dir, Lookup, Upper, CString, PathOk, Pool.Window, Pool.Valid, ListCalls;
      var node := new byte[13];
      rest := FetchName(path, node);
      if rest.None? { return None, None; }
      found := LookupIn(c, node);
      LookupByCString(Dir(v, c), node[..], Upper(Components(path)[0]));
    }

    /** The buffer then reads as the first component in upper case. */
    method FetchName(path: seq<byte>, node: array<byte>) returns (rest: Option<seq<byte>>)
      requires PathOk(path) && node.Length == 13
      modifies node
      ensures rest == AfterFirst(path) && (rest.None? <==> Components(path) == [])
      ensures rest.Some? ==> Components(path) != [] && CString(node[..]) == CString(Upper(Components(path)[0]))
    {
      ghost var t := Token(SkipSlashes(path));
      FirstComponent(path);
      hide SkipSlashes, Token, Components, Upper, CString, PathOk;
      rest := GetNextPathNode(path, node);
      if rest.Some? {
        NormalizePathToken(node, |t|);
        UpperTerminated(node[..], t);
      }
    }
  }

  /** Clusters that listing a directory goes through at most. */
  ghost function Span(v: Volume, c: word): (n: nat)
    requires Listable(v, c)
    ensures Stops(v, c, n) && |Listing(v, c, n)| * RECORD < TWO32
  {
    var n: nat :| Stops(v, c, n) && |Listing(v, c, n)| * RECORD < TWO32;
    n
  }

  /** Allocations that listing a directory takes at most: three blocks, and one for each FAT read of both passes. */
  ghost function ListCalls(v: Volume, c: word): nat {
    if Listable(v, c) then 3 + 2 * Span(v, c) else 0
  }

  /** Allocations that resolving a path takes at most. */
  ghost function WalkCalls(v: Volume, c: word, ts: seq<seq<byte>>): nat
    decreases |ts|
  {
    if ts == [] then 0
    else
      var found := Lookup(Dir(v, c), Upper(ts[0]));
      ListCalls(v, c) + if found.Some? && |ts| > 1 && found.value.isDirectory
                        then WalkCalls(v, found.value.firstCluster, ts[1..]) else 0
  }

  /** What a path must be for the 13-byte component buffer: a C string with components of at most 12 bytes. */
  ghost predicate PathOk(path: seq<byte>) {
    (forall i | 0 <= i < |path| :: path[i] != 0) && forall t | t in Components(path) :: |t| <= 12
  }

  /** What follows the first component, if there is one. */
  function AfterFirst(path: seq<byte>): Option<seq<byte>> {
    var q := SkipSlashes(path);
    if q == [] then None else Some(q[|Token(q)|..])
  }

  lemma FirstComponent(path: seq<byte>)
    requires PathOk(path)
    ensures var q := SkipSlashes(path);
            && |Token(q)| <= 12 && (q == [] <==> Components(path) == [])
            && (forall i | 0 <= i < |Token(q)| :: Token(q)[i] != 0)
            && (q != [] ==> Components(path)[0] == Token(q))
  {}

  /** The rest of a path has the remaining components, is shorter, and is a path as well. */
  lemma PathOkRest(path: seq<byte>, rest: seq<byte>)
    requires PathOk(path) && AfterFirst(path) == Some(rest)
    ensures Components(path) != [] && Components(path)[1..] == Components(rest)
    ensures Components(SkipSlashes(rest)) == Components(rest) && (Components(rest) == [] <==> SkipSlashes(rest) == [])
    ensures |SkipSlashes(rest)| < |path| && PathOk(SkipSlashes(rest))
  {
    SkipIsSuffix(path);
    SkipIsSuffix(rest);
    ComponentsSkip(rest);
    assert Components(path) == [Token(SkipSlashes(path))] + Components(rest);
  }

  lemma {:induction false} SkipIsSuffix(p: seq<byte>)
    ensures SkipSlashes(p) == p[|p| - |SkipSlashes(p)|..]
  {
    if p != [] && p[0] == SLASH {
      SkipIsSuffix(p[1..]);
      assert p[1..][|p| - 1 - |SkipSlashes(p)|..] == p[|p| - |SkipSlashes(p)|..];
    }
  }

  /** A buffer that holds the upper-cased token and a NUL reads as that token. */
  lemma UpperTerminated(node: seq<byte>, t: seq<byte>)
    requires |t| < |node| && node[..|t|] == Upper(t) && node[|t|] == 0
    requires forall i | 0 <= i < |t| :: t[i] != 0
    ensures CString(node) == CString(Upper(t))
  {
    assert forall i | 0 <= i < |t| :: node[i] == Upper(t)[i];
    CStringEndsAtNul(node, |t|);
    CStringOfPlain(Upper(t));
  }

  lemma {:induction false} LookupByCString(l: seq<FileInfo>, a: seq<byte>, b: seq<byte>)
    requires CString(a) == CString(b)
    ensures Lookup(l, a) == Lookup(l, b)
  {
    if l != [] { LookupByCString(l[1..], a, b); }
  }

  /** One turn of resolution, with what it needs and what it leaves for the rest. */
  lemma ResolveUnfolds(v: Volume, c: word, ts: seq<seq<byte>>, out: FileInfo)
    ensures ts == [] ==> Resolve(v, c, ts, out) == (true, out)
    ensures ts != [] && Walkable(v, c, ts) ==> Listable(v, c)
    ensures ts != [] ==>
              match Lookup(Dir(v, c), Upper(ts[0]))
              case None => Resolve(v, c, ts, out) == (false, out)
              case Some(i) =>
                if |ts| > 1 && !i.isDirectory then Resolve(v, c, ts, out) == (false, i)
                else Resolve(v, c, ts, out) == Resolve(v, i.firstCluster, ts[1..], i)
                     && (|ts| > 1 && Walkable(v, c, ts) ==> Walkable(v, i.firstCluster, ts[1..]))
  {}

  lemma TokenStep(path: seq<byte>, i: nat)
    requires i <= |path|
    ensures Token(path[i..]) == if i == |path| || path[i] == SLASH then [] else [path[i]] + Token(path[i + 1..])
  {}

  /** Two prefixes of one listing with the same length are equal. */
  lemma FilledIsAll(v: Volume, c: word, k: nat, j: nat)
    requires |Listing(v, c, k)| == |Listing(v, c, j)|
    ensures Listing(v, c, k) == Listing(v, c, j)
  {
    if k <= j { ListingGrows(v, c, k, j); } else { ListingGrows(v, c, j, k); }
  }

  /** A volume without sectors per cluster has no entries to list. */
  lemma {:induction false} EmptyClusters(v: Volume, c: word, n: nat)
    ensures ClusterSize(v) == 0 ==> Listing(v, c, n) == []
    decreases n
  {
    if ClusterSize(v) == 0 && n > 0 {
      assert Slots(v, c) == [];
      EmptyClusters(v, NextCluster(v, c), n - 1);
    }
  }

  lemma ClustersForStep(v: Volume, left: nat)
    requires ClusterSize(v) > 0 && left > 0
    ensures ClustersFor(v, left) == 1 + ClustersFor(v, left - if left > ClusterSize(v) then ClusterSize(v) else left)
  {}

  lemma PartBelowEnd(v: Volume, c: word)
    requires c < END_OF_CHAIN
    ensures Part(v, c) == Collect(UpToEnd(Slots(v, c)))
  {}

  lemma NthZero(v: Volume, c: word)
    ensures Nth(v, c, 0) == c
  {}

  lemma OpenStep(v: Volume, c: word, k: nat)
    requires Open(v, c, k) && Nth(v, c, k) < END_OF_CHAIN && !HasEnd(Slots(v, Nth(v, c, k)))
    ensures Open(v, c, k + 1) && Nth(v, c, k + 1) == NextCluster(v, Nth(v, c, k))
  {
    NthStep(v, c, k);
  }

  /** As long as fewer entries are written than counted, the next cluster was counted too. */
  lemma StillCounted(v: Volume, c: word, k: nat, j: nat)
    requires |Listing(v, c, k)| < |Listing(v, c, j)|
    ensures k < j && |Listing(v, c, k + 1)| <= |Listing(v, c, j)|
  {
    if j <= k { ListingGrows(v, c, j, k); } else { ListingGrows(v, c, k + 1, j); }
  }

  lemma StoppedMeansAll(v: Volume, c: word, k: nat, j: nat)
    requires Stops(v, c, k)
    ensures |Listing(v, c, k)| >= |Listing(v, c, j)|
  {
    if k <= j { ListingIsComplete(v, c, k, j); } else { ListingGrows(v, c, j, k); }
  }

  lemma SlotIsEntry(v: Volume, c: word, i: nat)
    requires i < PerCluster(v)
    ensures (i + 1) * ENTRY <= |ClusterBytes(v, c)| && EntryAt(ClusterBytes(v, c), i) == Slots(v, c)[i]
  {}

  /** One turn moves the next bytes from what is left to what is copied. */
  lemma FileBytesStep(v: Volume, c: word, left: nat, done: seq<byte>)
    requires ClusterSize(v) > 0 && c < END_OF_CHAIN && left > 0
    ensures var n := if left > ClusterSize(v) then ClusterSize(v) else left;
            && done + FileBytes(v, c, left) ==
                 done + ClusterBytes(v, c)[..n] + FileBytes(v, NextCluster(v, c), left - n)
            && FileBytes(v, 0x0FFF_FFFF, left - n) == []
  {}
}
