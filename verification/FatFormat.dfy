/**
 The on-disk format as the Microsoft FAT specification (2005) lays it down, in literal numbers: where a
 cluster lies, what a FAT entry says (section 4.1), what a directory entry says (section 6). It is written
 from the bytes of the disk alone, and what the other modules read is proved to be just that.
 */
module FatFormat {
  import opened Basics
  import opened FatVolume
  import opened FatListing
  import opened FatPath

  // ---------------------------------------------------------------- where the bytes are

  /** Byte `k` of cluster `c`: the data area starts with cluster 2. Sector numbers are 32 bits wide. */
  function DiskByte(v: Volume, c: word, k: nat): byte {
    v.disk((v.dataStart + (c - 2) * v.perCluster + k / 512) % 0x1_0000_0000)[k % 512]
  }

  /** As long as the sector number fits 32 bits, no wrap-around comes in. */
  lemma DiskByteInSector(v: Volume, c: word, k: nat, s: nat)
    requires s == v.dataStart + (c - 2) * v.perCluster + k / 512 < 0x1_0000_0000
    ensures DiskByte(v, c, k) == v.disk(s)[k % 512]
  {}

  lemma {:induction false} SectorByte(v: Volume, first: word, n: nat, k: nat)
    requires k < n * 512
    ensures SectorsFrom(v, first, n)[k] == v.disk((first + k / 512) % 0x1_0000_0000)[k % 512]
    decreases n
  {
    var before := SectorsFrom(v, first, n - 1);
    if k < (n - 1) * 512 {
      SectorByte(v, first, n - 1, k);
    } else {
      assert k / 512 == n - 1 && k % 512 == k - (n - 1) * 512;
    }
  }

  lemma FirstSectorModulo(v: Volume, c: word, i: nat)
    ensures (FirstSector(v, c) + i) % 0x1_0000_0000 == (v.dataStart + (c - 2) * v.perCluster + i) % 0x1_0000_0000
  {
    FirstSectorIsRemainder(v, c);
    hide FirstSector;
    AddToRemainder(v.dataStart + (c - 2) * v.perCluster, i);
  }

  lemma FirstSectorIsRemainder(v: Volume, c: word)
    ensures FirstSector(v, c) == (v.dataStart + (c - 2) * v.perCluster) % 0x1_0000_0000
  {
    if c < 2 {
      WrapsOnce(c - 2, v.perCluster);
      SameRemainder(v.dataStart + (c - 2) * v.perCluster, v.perCluster);
    }
  }

  lemma WrapsOnce(d: int, p: int)
    requires -0x1_0000_0000 <= d < 0
    ensures d % 0x1_0000_0000 * p == d * p + 0x1_0000_0000 * p
  {
    assert d % 0x1_0000_0000 == d + 0x1_0000_0000;
  }

  lemma SameRemainder(a: int, p: int)
    ensures (a + 0x1_0000_0000 * p) % 0x1_0000_0000 == a % 0x1_0000_0000
  {}

  lemma AddToRemainder(a: int, i: nat)
    ensures (a % 0x1_0000_0000 + i) % 0x1_0000_0000 == (a + i) % 0x1_0000_0000
  {}

  /** What the driver reads as a cluster are those bytes, for every cluster number. */
  lemma ClusterOnDisk(v: Volume, c: word, k: nat)
    requires k < v.perCluster * 512
    ensures |ClusterBytes(v, c)| == v.perCluster * 512 && ClusterBytes(v, c)[k] == DiskByte(v, c, k)
  {
    SectorByte(v, FirstSector(v, c), v.perCluster, k);
    FirstSectorModulo(v, c, k / 512);
    hide FirstSector, SectorsFrom;
  }

  // ---------------------------------------------------------------- the FAT

  /** Byte `k` of the table that the FAT is. */
  function TableByte(v: Volume, k: nat): byte { v.disk((v.reserved + k / 512) % 0x1_0000_0000)[k % 512] }

  /** The entry of cluster `c`: four bytes, lowest first, of which the top four bits do not count. */
  function Entry(v: Volume, c: word): word {
    (TableByte(v, 4 * c) as int + 0x100 * TableByte(v, 4 * c + 1) as int + 0x1_0000 * TableByte(v, 4 * c + 2) as int
     + 0x100_0000 * TableByte(v, 4 * c + 3) as int) % 0x1000_0000
  }

  lemma TableByteInSlot(v: Volume, c: word, k: nat)
    requires k < 4
    ensures TableByte(v, 4 * c + k) == v.disk(U32(v.reserved + c / 128))[4 * (c % 128) + k]
  {
    assert 4 * c + k == (c / 128) * 512 + (4 * (c % 128) + k);
    assert (4 * c + k) / 512 == c / 128 && (4 * c + k) % 512 == 4 * (c % 128) + k;
  }

  /** The link that the driver follows is that entry, for every cluster number. */
  lemma NextClusterOnDisk(v: Volume, c: word)
    ensures NextCluster(v, c) == Entry(v, c)
  {
    TableByteInSlot(v, c, 0);
    TableByteInSlot(v, c, 1);
    TableByteInSlot(v, c, 2);
    TableByteInSlot(v, c, 3);
    hide TableByte, U32, Word;
    var s, a := v.disk(U32(v.reserved + c / 128)), 4 * (c % 128);
    WordBytes(s, a);
  }

  /** Cluster number `k` of the chain that starts with `c`. */
  function ChainAt(v: Volume, c: word, k: nat): word {
    if k == 0 then c else Entry(v, ChainAt(v, c, k - 1))
  }

  lemma {:induction false} ChainOnDisk(v: Volume, c: word, k: nat)
    ensures Nth(v, c, k) == ChainAt(v, c, k)
  {
    hide NextCluster, Entry;
    if k > 0 {
      ChainOnDisk(v, c, k - 1);
      NthStep(v, c, k - 1);
      NextClusterOnDisk(v, Nth(v, c, k - 1));
    }
  }

  // ---------------------------------------------------------------- files

  /** Byte `r` of cluster number `k` of the chain comes after `k` whole clusters. */
  lemma {:induction false} FileOnDisk(v: Volume, c: word, size: nat, k: nat, r: nat)
    requires 0 < v.perCluster && r < v.perCluster * 512 && k * (v.perCluster * 512) + r < |FileBytes(v, c, size)|
    ensures FileBytes(v, c, size)[k * (v.perCluster * 512) + r] == DiskByte(v, ChainAt(v, c, k), r)
  {
    assert v.perCluster * 512 == ClusterSize(v);
    hide ClusterSize;
    hide FileBytes, ChainAt, DiskByte, Nth;
    FileByChain(v, c, size, k, r, v.perCluster * 512);
    ChainOnDisk(v, c, k);
  }

  lemma {:induction false} FileByChain(v: Volume, c: word, size: nat, k: nat, r: nat, z: nat)
    requires 0 < z == ClusterSize(v) && r < z && k * z + r < |FileBytes(v, c, size)|
    ensures FileBytes(v, c, size)[k * z + r] == DiskByte(v, Nth(v, c, k), r)
    decreases k
  {
    hide DiskByte, ClusterSize, NextCluster, ClusterBytes;
    if k == 0 {
      FileStarts(v, c, size, r);
      assert k * z + r == r;
    } else {
      OneMore(k - 1, z);
      FileGoesOn(v, c, size, (k - 1) * z + r);
      FileByChain(v, NextCluster(v, c), size - z, k - 1, r, z);
    }
  }

  lemma OneMore(k: nat, z: nat)
    ensures (k + 1) * z == k * z + z
  {}

  lemma FileStarts(v: Volume, c: word, size: nat, i: nat)
    requires 0 < ClusterSize(v) && i < |FileBytes(v, c, size)| && i < ClusterSize(v)
    ensures FileBytes(v, c, size)[i] == DiskByte(v, c, i)
  {
    ClusterOnDisk(v, c, i);
    hide DiskByte, NextCluster, ClusterBytes;
  }

  lemma FileGoesOn(v: Volume, c: word, size: nat, i: nat)
    requires 0 < ClusterSize(v) && i + ClusterSize(v) < |FileBytes(v, c, size)|
    ensures size > ClusterSize(v) && i < |FileBytes(v, NextCluster(v, c), size - ClusterSize(v))|
    ensures FileBytes(v, c, size)[i + ClusterSize(v)] == FileBytes(v, NextCluster(v, c), size - ClusterSize(v))[i]
  {
    hide NextCluster, ClusterBytes, ClusterSize;
  }

  /** The bytes of a file that are there are those of its chain's clusters, in order. */
  ghost predicate HoldsFile(v: Volume, c: word, bytes: seq<byte>) {
    forall k: nat, r: nat :: HoldsAt(v, c, bytes, k, r)
  }

  ghost predicate HoldsAt(v: Volume, c: word, bytes: seq<byte>, k: nat, r: nat) {
    var i: nat := k * (v.perCluster * 512) + r;
    r < v.perCluster * 512 && i < |bytes| ==> bytes[i] == DiskByte(v, ChainAt(v, c, k), r)
  }

  lemma PrefixHoldsFile(v: Volume, c: word, size: nat, bytes: seq<byte>)
    requires 0 < ClusterSize(v) && bytes <= FileBytes(v, c, size)
    ensures HoldsFile(v, c, bytes)
  {
    hide HoldsAt, FileBytes;
    forall k: nat, r: nat ensures HoldsAt(v, c, bytes, k, r) { PrefixHoldsAt(v, c, FileBytes(v, c, size), bytes, size, k, r); }
  }

  lemma PrefixHoldsAt(v: Volume, c: word, file: seq<byte>, bytes: seq<byte>, size: nat, k: nat, r: nat)
    requires 0 < ClusterSize(v) && file == FileBytes(v, c, size) && bytes <= file
    ensures HoldsAt(v, c, bytes, k, r)
  {
    hide FileBytes, ChainAt, DiskByte;
    if r < v.perCluster * 512 && k * (v.perCluster * 512) + r < |bytes| { FileOnDisk(v, c, size, k, r); }
  }

  /** It has its full size, unless its chain ends before. */
  lemma {:induction false} FileLength(v: Volume, c: word, size: nat) returns (k: nat)
    requires v.perCluster > 0
    ensures |FileBytes(v, c, size)| <= size
    ensures |FileBytes(v, c, size)| < size ==>
              |FileBytes(v, c, size)| == k * (v.perCluster * 512) && Nth(v, c, k) >= 0x0FFF_FFF8
    decreases size
  {
    var z := v.perCluster * 512;
    assert ClusterSize(v) == z;
    hide NextCluster, ClusterBytes, ClusterSize;
    k := 0;
    if c < END_OF_CHAIN && size > z {
      var rest := FileLength(v, NextCluster(v, c), size - z);
      OneMore(rest, z);
      k := rest + 1;
    }
  }

  // ---------------------------------------------------------------- directory entries

  /** The `n` bytes of cluster `c` from number `k` on. */
  function BytesFrom(v: Volume, c: word, k: nat, n: nat): (s: seq<byte>)
    ensures |s| == n && forall b | 0 <= b < n :: s[b] == DiskByte(v, c, k + b)
  {
    if n == 0 then [] else BytesFrom(v, c, k, n - 1) + [DiskByte(v, c, k + n - 1)]
  }

  /** The 32 bytes of entry `i` of cluster `c`. */
  function DiskEntry(v: Volume, c: word, i: nat): (e: seq<byte>)
    ensures |e| == 32
  {
    BytesFrom(v, c, 32 * i, 32)
  }

  /** Neither deleted nor part of a long name. */
  predicate InUse(e: seq<byte>)
    requires |e| == 32
  {
    e[0] != 0xE5 && e[11] != 0x0F
  }

  function ClusterOf(e: seq<byte>): word
    requires |e| == 32
  {
    e[26] as int + 0x100 * e[27] as int + 0x1_0000 * e[20] as int + 0x100_0000 * e[21] as int
  }

  /** Attribute 0x10. */
  predicate DirectoryBit(e: seq<byte>)
    requires |e| == 32
  {
    e[11] % 0x20 >= 0x10
  }

  /** What a directory entry says of its file. */
  function Record(e: seq<byte>): FileInfo
    requires |e| == 32
  {
    var size := e[28] as int + 0x100 * e[29] as int + 0x1_0000 * e[30] as int + 0x100_0000 * e[31] as int;
    FileInfo(FormatName(e[..11]), size, DirectoryBit(e), ClusterOf(e))
  }

  /** The driver's reading of an entry, byte by byte. */
  lemma EntryFields(e: Raw)
    ensures IsEnd(e) <==> e[0] == 0
    ensures IsListed(e) <==> InUse(e)
    ensures RawName(e) == e[..11] && FirstCluster(e) == ClusterOf(e) && IsDirectory(e) == DirectoryBit(e)
    ensures Info(e) == Record(e)
  {}

  lemma SlotOnDisk(v: Volume, c: word, i: nat)
    requires i < 16 * v.perCluster
    ensures |Slots(v, c)| == 16 * v.perCluster && Slots(v, c)[i] == DiskEntry(v, c, i)
  {
    SlotCount(v, c);
    SlotIsPart(v, c, i);
    hide Slots, ClusterBytes, DiskByte;
    var s, e := Slots(v, c)[i], DiskEntry(v, c, i);
    forall b | 0 <= b < 32 ensures s[b] == e[b] { ClusterOnDisk(v, c, 32 * i + b); }
  }

  lemma SlotIsPart(v: Volume, c: word, i: nat)
    requires i < |Slots(v, c)|
    ensures 32 * i + 32 <= |ClusterBytes(v, c)|
    ensures forall b | 0 <= b < 32 :: Slots(v, c)[i][b] == ClusterBytes(v, c)[32 * i + b]
  {
    hide ClusterBytes;
  }

  lemma SlotCount(v: Volume, c: word)
    ensures |Slots(v, c)| == 16 * v.perCluster
  {}

  // ---------------------------------------------------------------- directories

  /** What the entries of cluster `c` list from number `i` on, up to the end mark. */
  function ListedFrom(v: Volume, c: word, i: nat): seq<FileInfo>
    decreases 16 * v.perCluster - i
  {
    if i >= 16 * v.perCluster || DiskEntry(v, c, i)[0] == 0 then []
    else (if InUse(DiskEntry(v, c, i)) then [Record(DiskEntry(v, c, i))] else []) + ListedFrom(v, c, i + 1)
  }

  /** A first byte 0 ends the directory. */
  predicate EndsIn(v: Volume, c: word) {
    exists i: nat :: i < 16 * v.perCluster && DiskEntry(v, c, i)[0] == 0
  }

  /** What at most `n` clusters of the directory list. */
  function Directory(v: Volume, c: word, n: nat): seq<FileInfo>
    decreases n
  {
    if n == 0 || c >= 0x0FFF_FFF8 then []
    else ListedFrom(v, c, 0) + if EndsIn(v, c) then [] else Directory(v, Entry(v, c), n - 1)
  }

  lemma {:induction false} ClusterListed(v: Volume, c: word, i: nat)
    requires i <= 16 * v.perCluster && |Slots(v, c)| == 16 * v.perCluster
    ensures Collect(UpToEnd(Slots(v, c)[i..])) == ListedFrom(v, c, i)
    decreases 16 * v.perCluster - i
  {
    hide Slots, DiskEntry, Record, Info, IsListed, InUse, IsEnd;
    var es := Slots(v, c)[i..];
    if es != [] {
      SlotOnDisk(v, c, i);
      EntryFields(es[0]);
      assert es[1..] == Slots(v, c)[i + 1..];
      ClusterListed(v, c, i + 1);
      FirstCollected(es);
    }
  }

  /** All of one cluster: what it lists and whether it ends the directory. */
  lemma WholeClusterListed(v: Volume, c: word)
    ensures Collect(UpToEnd(Slots(v, c))) == ListedFrom(v, c, 0)
  {
    hide Slots, UpToEnd, Collect, ListedFrom;
    SlotCount(v, c);
    ClusterListed(v, c, 0);
    assert Slots(v, c)[0..] == Slots(v, c);
  }

  lemma FirstCollected(es: seq<Raw>)
    requires es != []
    ensures Collect(UpToEnd(es)) ==
            if IsEnd(es[0]) then [] else (if IsListed(es[0]) then [Info(es[0])] else []) + Collect(UpToEnd(es[1..]))
  {
    hide Info, IsListed, IsEnd;
    var u := UpToEnd(es);
    assert u != [] ==> u[0] == es[0] && u[1..] == UpToEnd(es[1..]);
  }

  lemma ClusterEnds(v: Volume, c: word)
    ensures HasEnd(Slots(v, c)) <==> EndsIn(v, c)
  {
    SlotCount(v, c);
    forall i: nat | i < 16 * v.perCluster ensures Slots(v, c)[i] == DiskEntry(v, c, i) { SlotOnDisk(v, c, i); }
    hide Slots, DiskEntry;
  }

  /** What the driver lists is what the disk says. */
  lemma {:induction false} ListingOnDisk(v: Volume, c: word, n: nat)
    ensures Listing(v, c, n) == Directory(v, c, n)
    decreases n
  {
    hide Slots, DiskEntry, HasEnd, EndsIn, ListedFrom, Collect, UpToEnd, NextCluster, Entry;
    if n > 0 {
      ListingOnDisk(v, NextCluster(v, c), n - 1);
      NextClusterOnDisk(v, c);
      WholeClusterListed(v, c);
      ClusterEnds(v, c);
    }
  }

  // ---------------------------------------------------------------- the search for a raw name

  /** Cluster and kind of the first entry in use with the name, from number `i` on; cluster 0 and no kind for none. */
  function FoundFrom(v: Volume, c: word, name: seq<byte>, i: nat): (word, Option<bool>)
    decreases 16 * v.perCluster - i
  {
    if i >= 16 * v.perCluster || DiskEntry(v, c, i)[0] == 0 then (0, None)
    else if InUse(DiskEntry(v, c, i)) && DiskEntry(v, c, i)[..11] == name then
      (ClusterOf(DiskEntry(v, c, i)), Some(DirectoryBit(DiskEntry(v, c, i))))
    else FoundFrom(v, c, name, i + 1)
  }

  lemma {:induction false} SearchOnDisk(v: Volume, c: word, name: seq<byte>, i: nat)
    requires i <= 16 * v.perCluster && |Slots(v, c)| == 16 * v.perCluster
    ensures FoundFrom(v, c, name, i) ==
            match FindEntry(Slots(v, c)[i..], name)
            case None => (0, None)
            case Some(e) => (FirstCluster(e), Some(IsDirectory(e)))
    decreases 16 * v.perCluster - i
  {
    var es := Slots(v, c)[i..];
    if es != [] {
      SlotOnDisk(v, c, i);
      EntryFields(es[0]);
      assert es[1..] == Slots(v, c)[i + 1..];
      SearchOnDisk(v, c, name, i + 1);
      hide Slots, DiskEntry, IsListed, InUse, FirstCluster, ClusterOf, IsDirectory, DirectoryBit;
    }
  }

  lemma WholeClusterSearched(v: Volume, c: word, name: seq<byte>)
    ensures FoundFrom(v, c, name, 0) ==
            match FindEntry(Slots(v, c), name)
            case None => (0, None)
            case Some(e) => (FirstCluster(e), Some(IsDirectory(e)))
  {
    hide Slots, FindEntry, FoundFrom;
    SlotCount(v, c);
    SearchOnDisk(v, c, name, 0);
    assert Slots(v, c)[0..] == Slots(v, c);
  }

  // ---------------------------------------------------------------- paths

  lemma {:induction false} ListedIsEntry(v: Volume, c: word, i: nat, r: FileInfo) returns (k: nat)
    requires r in ListedFrom(v, c, i)
    ensures k < 16 * v.perCluster && r == Record(DiskEntry(v, c, k))
    decreases 16 * v.perCluster - i
  {
    hide DiskEntry, Record;
    if InUse(DiskEntry(v, c, i)) && r == Record(DiskEntry(v, c, i)) {
      k := i;
    } else {
      k := ListedIsEntry(v, c, i + 1, r);
    }
  }

  lemma {:induction false} RecordIsEntry(v: Volume, c: word, n: nat, r: FileInfo) returns (j: nat, k: nat)
    requires r in Directory(v, c, n)
    ensures k < 16 * v.perCluster && Nth(v, c, j) < 0x0FFF_FFF8 && r == Record(DiskEntry(v, Nth(v, c, j), k))
    decreases n
  {
    hide DiskEntry, Record, ListedFrom, EndsIn, Entry, NextCluster;
    if r in ListedFrom(v, c, 0) {
      j := 0;
      k := ListedIsEntry(v, c, 0, r);
    } else {
      NextClusterOnDisk(v, c);
      j, k := RecordIsEntry(v, Entry(v, c), n - 1, r);
      j := j + 1;
    }
  }

  lemma {:induction false} LookupIsIn(l: seq<FileInfo>, name: seq<byte>)
    ensures Lookup(l, name).Some? ==> Lookup(l, name).value in l
  {
    if l != [] { LookupIsIn(l[1..], name); }
  }

  /**
   One turn of path resolution on the disk: the component found is an entry of the directory's chain, and
   the next turn looks into the directory whose first cluster its bytes give.
   */
  lemma ResolveOnDisk(v: Volume, c: word, t: seq<byte>, ts: seq<seq<byte>>, out: FileInfo) returns (j: nat, k: nat)
    requires Listable(v, c) && Lookup(Dir(v, c), Upper(t)).Some?
    ensures k < 16 * v.perCluster && ChainAt(v, c, j) < 0x0FFF_FFF8
    ensures var e := DiskEntry(v, ChainAt(v, c, j), k);
            && Lookup(Dir(v, c), Upper(t)) == Some(Record(e))
            && Resolve(v, c, [t] + ts, out) ==
                 if ts != [] && !DirectoryBit(e) then (false, Record(e)) else Resolve(v, ClusterOf(e), ts, Record(e))
  {
    hide DiskEntry, Upper, FormatName;
    var r := Lookup(Dir(v, c), Upper(t)).value;
    var n: nat :| Stops(v, c, n) && |Listing(v, c, n)| * RECORD < TWO32;
    DirIsListing(v, c, n);
    ListingOnDisk(v, c, n);
    LookupIsIn(Dir(v, c), Upper(t));
    j, k := RecordIsEntry(v, c, n, r);
    ChainOnDisk(v, c, j);
    hide Listing, Stops, Listable, Dir, Directory, Lookup, Nth, ChainAt, DiskEntry, Upper, FormatName;
    assert ([t] + ts)[0] == t && ([t] + ts)[1..] == ts;
  }

  // ---------------------------------------------------------------- names and paths, character by character

  /** A base of `p` characters and an extension of `q`, both padded with blanks: printed with a dot between, if there is an extension. */
  lemma PrintedName(raw: seq<byte>, p: nat, q: nat)
    requires |raw| == 11 && p <= 8 && q <= 3
    requires forall i | 0 <= i < 11 :: raw[i] == 0x20 <==> p <= i < 8 || 8 + q <= i
    ensures FormatName(raw) == if q == 0 then raw[..p] else raw[..p] + [0x2E] + raw[8..8 + q]
  {
    PaddedField(raw[..8], p);
    PaddedField(raw[8..], q);
    assert raw[..8][..p] == raw[..p] && raw[8..][..q] == raw[8..8 + q];
    assert raw[8..] == [SPACE, SPACE, SPACE] <==> q == 0 by {
      assert raw[8..] == [raw[8], raw[9], raw[10]];
    }
    hide NoSpaces;
  }

  lemma {:induction false} PaddedField(s: seq<byte>, n: nat)
    requires n <= |s| && forall i | 0 <= i < |s| :: s[i] == 0x20 <==> n <= i
    ensures NoSpaces(s) == s[..n]
    decreases |s|
  {
    if s != [] {
      assert forall i | 0 <= i < |s[1..]| :: s[1..][i] == s[i + 1];
      PaddedField(s[1..], if n > 0 then n - 1 else 0);
      if n > 0 { assert s[..n] == [s[0]] + s[1..][..n - 1]; }
    }
  }

  /** Slashes are 0x2F: a name without one is one component, with or without a slash in front. */
  lemma OneName(t: seq<byte>)
    requires t != [] && 0x2F !in t
    ensures Components(t) == [t] && Components([0x2F] + t) == [t]
  {
    WholeToken(t);
    assert t[0] in t && SkipSlashes(t) == t;
    assert t[|t|..] == [] && Components([]) == [];
    assert ([0x2F] + t)[1..] == t;
    ComponentsJoin([], t);
    assert [] + [SLASH] + t == [0x2F] + t;
  }

  lemma {:induction false} WholeToken(t: seq<byte>)
    requires 0x2F !in t
    ensures Token(t) == t
  {
    if t != [] {
      assert t[0] in t && forall b | b in t[1..] :: b in t;
      WholeToken(t[1..]);
    }
  }

  /** Upper case is 0x20 below lower case, for the letters from 0x61 to 0x7A. */
  lemma UpperCase(s: seq<byte>, i: nat)
    requires i < |s|
    ensures 'a' <= s[i] as char <= 'z' ==> Upper(s)[i] as char == s[i] as char - 'a' + 'A'
    ensures !('a' <= s[i] as char <= 'z') ==> Upper(s)[i] == s[i]
  {}

  /** The root is a directory of size 0 named "/", and needs no reading. */
  lemma RootPath(v: Volume, root: word, out: FileInfo)
    ensures PathResult(v, root, [0x2F], out) == (true, FileInfo([0x2F], 0, true, root))
  {}
}
