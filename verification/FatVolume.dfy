/**
 A FAT32 volume as fat32.c reads it (Microsoft FAT specification: section 4.1 for the FAT, section 6
 for directories). The disk is a function from the sector number within the partition to 512 bytes.
 */
module FatVolume {
  import opened Basics

  const SECTOR: nat := 512
  const ENTRY: nat := 32
  const END_OF_CHAIN: nat := 0x0FFF_FFF8
  const LONG_NAME: byte := 0x0F

  type Sector = s: seq<byte> | |s| == SECTOR witness seq(SECTOR, _ => 0)

  datatype Volume = Volume(disk: nat -> Sector, reserved: word, dataStart: word, perCluster: byte)

  // ---------------------------------------------------------------- clusters and the FAT

  function ClusterSize(v: Volume): nat { v.perCluster * SECTOR }

  /** First sector of a cluster, in 32-bit arithmetic: clusters 0 and 1 wrap around. */
  function FirstSector(v: Volume, c: word): word { U32(v.dataStart + U32(c - 2) * v.perCluster) }

  function SectorsFrom(v: Volume, first: word, n: nat): (r: seq<byte>)
    ensures |r| == n * SECTOR
  {
    if n == 0 then [] else SectorsFrom(v, first, n - 1) + v.disk(U32(first + n - 1))
  }

  function ClusterBytes(v: Volume, c: word): (r: seq<byte>)
    ensures |r| == ClusterSize(v)
  {
    SectorsFrom(v, FirstSector(v, c), v.perCluster)
  }

  /** fat32_get_next_cluster: 128 entries to a sector, the top four bits of an entry do not count. */
  function NextCluster(v: Volume, c: word): (n: word)
    ensures n < 0x1000_0000
  {
    Word(v.disk(U32(v.reserved + c / 128)), 4 * (c % 128)) % 0x1000_0000
  }

  /** Byte `k` of the first FAT, seen as one table of bytes that starts at the first reserved-area end. */
  function FatByte(v: Volume, k: nat): byte { v.disk(v.reserved + k / 512)[k % 512] }

  lemma FatByteInSlot(v: Volume, c: word, k: nat)
    requires k < 4
    ensures FatByte(v, 4 * c + k) == v.disk(v.reserved + c / 128)[4 * (c % 128) + k]
  {
    assert 4 * c + k == (c / 128) * SECTOR + (4 * (c % 128) + k);
    assert (4 * c + k) / SECTOR == c / 128 && (4 * c + k) % SECTOR == 4 * (c % 128) + k;
  }

  /** Sector c / 128 and slot c % 128 address bytes 4c to 4c + 3 of the table, lowest first: the entry of cluster c. */
  lemma NextClusterReadsItsEntry(v: Volume, c: word)
    requires v.reserved + c / 128 < TWO32
    ensures NextCluster(v, c) == (FatByte(v, 4 * c) as int + 0x100 * FatByte(v, 4 * c + 1) as int
                                  + 0x1_0000 * FatByte(v, 4 * c + 2) as int
                                  + 0x100_0000 * FatByte(v, 4 * c + 3) as int) % 0x1000_0000
  {
    FatByteInSlot(v, c, 0);
    FatByteInSlot(v, c, 1);
    FatByteInSlot(v, c, 2);
    FatByteInSlot(v, c, 3);
    assert U32(v.reserved + c / 128) == v.reserved + c / 128;
    hide FatByte, U32, Word;
    WordBytes(v.disk(v.reserved + c / 128), 4 * (c % 128));
  }

  /** The cluster reached after `k` links. */
  function Nth(v: Volume, c: word, k: nat): word
    decreases k
  {
    if k == 0 then c else Nth(v, NextCluster(v, c), k - 1)
  }

  lemma {:induction false} NthStep(v: Volume, c: word, k: nat)
    ensures Nth(v, c, k + 1) == NextCluster(v, Nth(v, c, k))
    decreases k
  {
    if k > 0 { NthStep(v, NextCluster(v, c), k - 1); }
  }

  // ---------------------------------------------------------------- directory entries

  type Raw = s: seq<byte> | |s| == ENTRY witness seq(ENTRY, _ => 0)

  function Half(e: Raw, a: nat): nat
    requires a + 2 <= ENTRY
  {
    e[a] as int + 0x100 * e[a + 1] as int
  }

  predicate IsEnd(e: Raw) { e[0] == 0 }
  predicate IsListed(e: Raw) { e[0] != 0xE5 && e[11] != LONG_NAME }

  function RawName(e: Raw): seq<byte> { e[..11] }
  function FirstCluster(e: Raw): word { Half(e, 20) * 0x1_0000 + Half(e, 26) }
  predicate IsDirectory(e: Raw) { e[11] / 0x10 % 2 == 1 }

  datatype FileInfo = FileInfo(name: seq<byte>, size: word, isDirectory: bool, firstCluster: word)

  function Info(e: Raw): FileInfo {
    FileInfo(FormatName(RawName(e)), Word(e, 28), IsDirectory(e), FirstCluster(e))
  }

  function EntryAt(bytes: seq<byte>, i: nat): Raw
    requires (i + 1) * ENTRY <= |bytes|
  {
    bytes[i * ENTRY..(i + 1) * ENTRY]
  }

  function PerCluster(v: Volume): nat { ClusterSize(v) / ENTRY }

  function Slots(v: Volume, c: word): (r: seq<Raw>)
    ensures |r| == PerCluster(v)
  {
    var bytes := ClusterBytes(v, c);
    seq(PerCluster(v), i requires 0 <= i < PerCluster(v) => EntryAt(bytes, i))
  }

  // ---------------------------------------------------------------- 8.3 names

  const SPACE: byte := 0x20
  const DOT: byte := 0x2E
  const SLASH: byte := 0x2F

  function NoSpaces(s: seq<byte>): (r: seq<byte>)
    ensures |r| <= |s| && SPACE !in r
  {
    if s == [] then [] else if s[0] != SPACE then [s[0]] + NoSpaces(s[1..]) else NoSpaces(s[1..])
  }

  /** What format_fat_name leaves before the terminating NUL. */
  function FormatName(raw: seq<byte>): (r: seq<byte>)
    requires |raw| == 11
    ensures |r| <= 12
  {
    var ext := raw[8..];
    if ext == [SPACE, SPACE, SPACE] then NoSpaces(raw[..8])
    else NoSpaces(raw[..8]) + [DOT] + NoSpaces(ext)
  }

  // ---------------------------------------------------------------- directory listing

  /** The entries of `es` up to the first end mark. */
  function UpToEnd(es: seq<Raw>): seq<Raw> {
    if es == [] || IsEnd(es[0]) then [] else [es[0]] + UpToEnd(es[1..])
  }

  predicate HasEnd(es: seq<Raw>) { exists i | 0 <= i < |es| :: IsEnd(es[i]) }

  /** The infos of the entries that are neither deleted nor parts of a long name, in order. */
  function Collect(es: seq<Raw>): (r: seq<FileInfo>)
    ensures |r| <= |es|
  {
    if es == [] then []
    else if IsListed(es[0]) then [Info(es[0])] + Collect(es[1..])
    else Collect(es[1..])
  }

  /** The listing found in at most `n` clusters of the chain. */
  function Listing(v: Volume, c: word, n: nat): seq<FileInfo>
    decreases n
  {
    if n == 0 || c >= END_OF_CHAIN then []
    else Collect(UpToEnd(Slots(v, c))) +
         if HasEnd(Slots(v, c)) then [] else Listing(v, NextCluster(v, c), n - 1)
  }

  /** Reading the directory is over after `n` clusters: an end mark or the end of the chain came up. */
  predicate Stops(v: Volume, c: word, n: nat)
    decreases n
  {
    c >= END_OF_CHAIN || (n > 0 && (HasEnd(Slots(v, c)) || Stops(v, NextCluster(v, c), n - 1)))
  }

  /** All slots of the first `n` clusters, whatever they hold. */
  function Stream(v: Volume, c: word, n: nat): seq<Raw>
    decreases n
  {
    if n == 0 || c >= END_OF_CHAIN then [] else Slots(v, c) + Stream(v, NextCluster(v, c), n - 1)
  }

  // ---------------------------------------------------------------- file contents

  /** The bytes of a file of `size` bytes as far as its chain goes. */
  function FileBytes(v: Volume, c: word, size: nat): seq<byte>
    requires ClusterSize(v) > 0
    decreases size
  {
    if size == 0 || c >= END_OF_CHAIN then []
    else if size <= ClusterSize(v) then ClusterBytes(v, c)[..size]
    else ClusterBytes(v, c) + FileBytes(v, NextCluster(v, c), size - ClusterSize(v))
  }

  /** The chain has at least `k` clusters. */
  predicate HasClusters(v: Volume, c: word, k: nat)
    decreases k
  {
    k == 0 || (c < END_OF_CHAIN && HasClusters(v, NextCluster(v, c), k - 1))
  }

  /** The first `k` clusters of the chain, one after the other. */
  function Clusters(v: Volume, c: word, k: nat): seq<byte>
    decreases k
  {
    if k == 0 then [] else ClusterBytes(v, c) + Clusters(v, NextCluster(v, c), k - 1)
  }

  lemma {:induction false} ClustersLength(v: Volume, c: word, k: nat)
    ensures |Clusters(v, c, k)| == k * ClusterSize(v)
    decreases k
  {
    if k > 0 {
      ClustersLength(v, NextCluster(v, c), k - 1);
      assert k * ClusterSize(v) == ClusterSize(v) + (k - 1) * ClusterSize(v);
    }
  }

  lemma {:induction false} FileIsPrefix(v: Volume, c: word, size: nat, k: nat)
    requires ClusterSize(v) > 0 && HasClusters(v, c, k) && size <= |Clusters(v, c, k)|
    ensures FileBytes(v, c, size) == Clusters(v, c, k)[..size]
    decreases k
  {
    hide ClusterBytes, NextCluster;
    if k > 0 {
      var rest := Clusters(v, NextCluster(v, c), k - 1);
      assert Clusters(v, c, k) == ClusterBytes(v, c) + rest;
      if size > ClusterSize(v) {
        FileIsPrefix(v, NextCluster(v, c), size - ClusterSize(v), k - 1);
      }
    }
  }

  /** With enough clusters, a file's bytes are the prefix of the concatenated clusters, cyclic chain or not. */
  lemma FileIsPrefixOfClusters(v: Volume, c: word, size: nat, k: nat)
    requires ClusterSize(v) > 0 && HasClusters(v, c, k) && size <= k * ClusterSize(v)
    ensures |Clusters(v, c, k)| == k * ClusterSize(v) && FileBytes(v, c, size) == Clusters(v, c, k)[..size]
  {
    ClustersLength(v, c, k);
    FileIsPrefix(v, c, size, k);
  }

  /** Clusters that `size` bytes take up. */
  function ClustersFor(v: Volume, size: nat): nat
    requires ClusterSize(v) > 0
  {
    if size == 0 then 0 else if size <= ClusterSize(v) then 1 else 1 + ClustersFor(v, size - ClusterSize(v))
  }

  /** That is the size divided by the cluster size, rounded up. */
  lemma {:induction false} ClustersForIsCeiling(v: Volume, size: nat)
    requires ClusterSize(v) > 0
    ensures (ClustersFor(v, size) as int - 1) * ClusterSize(v) < size <= ClustersFor(v, size) * ClusterSize(v) || size == 0
  {
    var z := ClusterSize(v);
    if size > z {
      var k := ClustersFor(v, size - z);
      ClustersForIsCeiling(v, size - z);
      assert (k + 1) * z == k * z + z && (k as int - 1) * z + z == k * z;
    }
  }
}
