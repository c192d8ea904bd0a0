/** Paths: their components, and what resolving them means. */
module FatPath {
  import opened Basics
  import opened FatVolume
  import opened FatListing

  // ---------------------------------------------------------------- components

  function SkipSlashes(p: seq<byte>): (r: seq<byte>)
    ensures |r| <= |p| && (r != [] ==> r[0] != SLASH)
  {
    if p != [] && p[0] == SLASH then SkipSlashes(p[1..]) else p
  }

  function Token(p: seq<byte>): (r: seq<byte>)
    ensures r <= p && SLASH !in r && (p != [] && p[0] != SLASH ==> r != [])
    ensures |r| < |p| ==> p[|r|] == SLASH
  {
    if p == [] || p[0] == SLASH then [] else [p[0]] + Token(p[1..])
  }

  /** The non-empty pieces between slashes. */
  function Components(p: seq<byte>): seq<seq<byte>>
    decreases |p|
  {
    var q := SkipSlashes(p);
    if q == [] then [] else [Token(q)] + Components(q[|Token(q)|..])
  }

  lemma {:induction false} SkipJoins(p: seq<byte>, r: seq<byte>)
    ensures SkipSlashes(p + r) == if SkipSlashes(p) == [] then SkipSlashes(r) else SkipSlashes(p) + r
    decreases |p|
  {
    if p == [] {
      assert p + r == r;
    } else {
      assert (p + r)[1..] == p[1..] + r;
      if p[0] == SLASH { SkipJoins(p[1..], r); }
    }
  }

  lemma {:induction false} TokenJoins(p: seq<byte>, r: seq<byte>)
    requires r == [] || r[0] == SLASH
    ensures Token(p + r) == Token(p)
    decreases |p|
  {
    if p == [] {
      assert p + r == r;
    } else {
      assert (p + r)[1..] == p[1..] + r;
      if p[0] != SLASH { TokenJoins(p[1..], r); }
    }
  }

  /** Joining two paths with a slash joins their components. */
  lemma {:induction false} ComponentsJoin(p: seq<byte>, r: seq<byte>)
    ensures Components(p + [SLASH] + r) == Components(p) + Components(r)
    decreases |p|
  {
    var tail := [SLASH] + r;
    var q := SkipSlashes(p);
    assert p + [SLASH] + r == p + tail && tail[1..] == r;
    SkipJoins(p, tail);
    if q == [] {
      assert Components(p + tail) == Components(tail) == Components(r);
    } else {
      TokenJoins(q, tail);
      var n := |Token(q)|;
      var rest := q[n..] + [SLASH] + r;
      assert (q + tail)[n..] == rest;
      assert Components(p + tail) == [Token(q)] + Components(rest);
      ComponentsJoin(q[n..], r);
      hide Components, SkipSlashes, Token;
    }
  }

  /** Repeated, leading and trailing slashes do not matter. */
  lemma SlashesDoNotMatter(p: seq<byte>, r: seq<byte>)
    ensures Components(p + [SLASH] + ([SLASH] + r)) == Components(p + [SLASH] + r)
    ensures Components(p + [SLASH]) == Components(p)
    ensures Components([SLASH] + p) == Components(p)
  {
    ComponentsJoin(p, [SLASH] + r);
    ComponentsJoin([], r);
    assert [] + [SLASH] + r == [SLASH] + r;
    ComponentsJoin(p, r);
    ComponentsJoin(p, []);
    assert p + [SLASH] + [] == p + [SLASH];
    ComponentsJoin([], p);
    assert [] + [SLASH] + p == [SLASH] + p;
  }

  // ---------------------------------------------------------------- upper case

  function UpperByte(b: byte): byte { if 0x61 <= b <= 0x7A then b - 0x20 else b }

  function Upper(s: seq<byte>): (r: seq<byte>)
    ensures |r| == |s| && forall i | 0 <= i < |s| :: r[i] == UpperByte(s[i])
  {
    seq(|s|, i requires 0 <= i < |s| => UpperByte(s[i]))
  }

  function UpperAll(ts: seq<seq<byte>>): (r: seq<seq<byte>>)
    ensures |r| == |ts| && forall i | 0 <= i < |ts| :: r[i] == Upper(ts[i])
  {
    seq(|ts|, i requires 0 <= i < |ts| => Upper(ts[i]))
  }

  lemma {:induction false} SkipUpper(p: seq<byte>)
    ensures SkipSlashes(Upper(p)) == Upper(SkipSlashes(p))
  {
    if p != [] {
      assert Upper(p)[1..] == Upper(p[1..]);
      SkipUpper(p[1..]);
    }
  }

  lemma {:induction false} TokenUpper(p: seq<byte>)
    ensures Token(Upper(p)) == Upper(Token(p))
  {}

  lemma {:induction false} ComponentsUpper(p: seq<byte>)
    ensures Components(Upper(p)) == UpperAll(Components(p))
    decreases |p|
  {
    SkipUpper(p);
    var q := SkipSlashes(p);
    if q != [] {
      TokenUpper(q);
      var n := |Token(q)|;
      assert Upper(q)[n..] == Upper(q[n..]);
      ComponentsUpper(q[n..]);
      assert Components(p)[1..] == Components(q[n..]);
    }
  }

  // ---------------------------------------------------------------- lookup and resolution

  /** The C string in a buffer: what precedes the first NUL. */
  function CString(s: seq<byte>): seq<byte> {
    if s == [] || s[0] == 0 then [] else [s[0]] + CString(s[1..])
  }

  /** The first entry of a listing whose name equals the wanted one as a C string. */
  function Lookup(l: seq<FileInfo>, name: seq<byte>): Option<FileInfo> {
    if l == [] then None
    else if CString(l[0].name) == CString(name) then Some(l[0])
    else Lookup(l[1..], name)
  }

  /** The loop of fat32_resolve_path from directory `c`; `out` is what the caller's record holds so far. */
  ghost function Resolve(v: Volume, c: word, ts: seq<seq<byte>>, out: FileInfo): (bool, FileInfo)
    decreases |ts|
  {
    if ts == [] then (true, out)
    else
      var found := Lookup(Dir(v, c), Upper(ts[0]));
      if found.None? then (false, out)
      else if |ts| > 1 && !found.value.isDirectory then (false, found.value)
      else Resolve(v, found.value.firstCluster, ts[1..], found.value)
  }

  function RootInfo(root: word): FileInfo { FileInfo([SLASH], 0, true, root) }

  /** fat32_resolve_path when no allocation fails. */
  ghost function PathResult(v: Volume, root: word, path: seq<byte>, out: FileInfo): (bool, FileInfo) {
    if path == [SLASH] then (true, RootInfo(root)) else Resolve(v, root, Components(path), out)
  }

  lemma {:induction false} ResolveJoins(v: Volume, c: word, xs: seq<seq<byte>>, ys: seq<seq<byte>>, out: FileInfo)
    requires xs != [] && ys != []
    ensures var (ok, d) := Resolve(v, c, xs, out);
            Resolve(v, c, xs + ys, out) ==
              if !ok || !d.isDirectory then (false, d) else Resolve(v, d.firstCluster, ys, d)
    decreases |xs|
  {
    assert (xs + ys)[0] == xs[0] && (xs + ys)[1..] == xs[1..] + ys;
    var found := Lookup(Dir(v, c), Upper(xs[0]));
    if |xs| == 1 {
      assert xs[1..] + ys == ys;
    } else if found.Some? && found.value.isDirectory {
      ResolveJoins(v, found.value.firstCluster, xs[1..], ys, found.value);
    }
  }

  /** Resolution is compositional: p/q is q resolved from the directory that p resolves to. */
  lemma ResolutionIsCompositional(v: Volume, root: word, p: seq<byte>, q: seq<byte>, out: FileInfo)
    requires Components(p) != [] && Components(q) != []
    ensures var (ok, d) := PathResult(v, root, p, out);
            PathResult(v, root, p + [SLASH] + q, out) ==
              if !ok || !d.isDirectory then (false, d) else PathResult(v, d.firstCluster, q, d)
  {
    ComponentsJoin(p, q);
    RootHasNoComponents();
    ResolveJoins(v, root, Components(p), Components(q), out);
  }

  lemma RootHasNoComponents()
    ensures Components([SLASH]) == []
  {}

  lemma {:induction false} ResolveIgnoresCase(v: Volume, c: word, ts: seq<seq<byte>>, out: FileInfo)
    ensures Resolve(v, c, UpperAll(ts), out) == Resolve(v, c, ts, out)
    decreases |ts|
  {
    if ts != [] {
      assert Upper(Upper(ts[0])) == Upper(ts[0]);
      assert UpperAll(ts)[1..] == UpperAll(ts[1..]);
      var found := Lookup(Dir(v, c), Upper(ts[0]));
      if found.Some? { ResolveIgnoresCase(v, found.value.firstCluster, ts[1..], found.value); }
    }
  }

  /** The result depends on neither letter case nor extra slashes. */
  lemma ResolutionIgnoresCaseAndSlashes(v: Volume, root: word, p: seq<byte>, q: seq<byte>, out: FileInfo)
    requires Components(p) != []
    ensures PathResult(v, root, Upper(p), out) == PathResult(v, root, p, out)
    ensures PathResult(v, root, p + [SLASH], out) == PathResult(v, root, p, out)
    ensures PathResult(v, root, [SLASH] + p, out) == PathResult(v, root, p, out)
    ensures PathResult(v, root, p + [SLASH] + ([SLASH] + q), out) == PathResult(v, root, p + [SLASH] + q, out)
  {
    RootHasNoComponents();
    ComponentsUpper(p);
    ResolveIgnoresCase(v, root, Components(p), out);
    SlashesDoNotMatter(p, q);
    ComponentsJoin(p, q);
    hide Components, Resolve;
    assert Components(Upper(p)) != [];
  }

  // ---------------------------------------------------------------- the two lookups

  /** find_in_directory_cluster's loop: the first listed entry before the end mark with these 11 bytes. */
  function FindEntry(es: seq<Raw>, raw: seq<byte>): Option<Raw> {
    if es == [] || IsEnd(es[0]) then None
    else if IsListed(es[0]) && RawName(es[0]) == raw then Some(es[0])
    else FindEntry(es[1..], raw)
  }

  ghost predicate AllShort(es: seq<Raw>) {
    forall i | 0 <= i < |es| && IsListed(es[i]) :: ShortName(RawName(es[i]))
  }

  lemma {:induction false} CStringOfPlain(s: seq<byte>)
    requires forall i | 0 <= i < |s| :: s[i] != 0
    ensures CString(s) == s
  {
    if s != [] { CStringOfPlain(s[1..]); }
  }

  /** A printed short name holds no NUL, no slash and no lower-case letter. */
  lemma PrintedNameIsPlain(raw: seq<byte>)
    requires ShortName(raw)
    ensures var p := FormatName(raw);
            p != [] && CString(p) == p && Upper(p) == p && SLASH !in p
  {
    var p := FormatName(raw);
    forall b: byte | b in p ensures b == DOT || NameByte(b) {
      NoSpacesKeeps(raw[..8], b);
      NoSpacesKeeps(raw[8..], b);
    }
    assert forall i | 0 <= i < |p| :: p[i] in p;
    CStringOfPlain(p);
    NoSpacesKeeps(raw[..8], raw[0]);
    assert raw[0] in raw[..8];
  }

  /** Looking up a printed name in the listing selects the entry that the raw name selects. */
  lemma {:induction false} LookupsAgree(es: seq<Raw>, raw: seq<byte>)
    requires AllShort(UpToEnd(es)) && ShortName(raw)
    ensures var found := FindEntry(es, raw);
            Lookup(Collect(UpToEnd(es)), Upper(FormatName(raw))) ==
              if found.None? then None else Some(Info(found.value))
    decreases |es|
  {
    PrintedNameIsPlain(raw);
    if es != [] && !IsEnd(es[0]) {
      var e, us := es[0], UpToEnd(es);
      assert us[0] == e && us[1..] == UpToEnd(es[1..]);
      assert forall i | 0 <= i < |us[1..]| :: us[1..][i] == us[i + 1];
      LookupsAgree(es[1..], raw);
      if IsListed(e) {
        PrintedNameIsPlain(RawName(e));
        if FormatName(RawName(e)) == FormatName(raw) { PrintedNamesAreDistinct(RawName(e), raw); }
        assert Collect(us)[1..] == Collect(us[1..]);
      }
    }
  }

  lemma {:induction false} TokenOfPlain(s: seq<byte>)
    requires SLASH !in s
    ensures Token(s) == s
  {}

  /**
   In a directory of one cluster, resolving a printed name and find_in_directory_cluster on the raw
   name succeed together and select the same entry.
   */
  lemma ResolvingPrintedNameFindsRawName(v: Volume, c: word, raw: seq<byte>, out: FileInfo)
    requires c < END_OF_CHAIN && (HasEnd(Slots(v, c)) || NextCluster(v, c) >= END_OF_CHAIN)
    requires AllShort(UpToEnd(Slots(v, c))) && ShortName(raw)
    ensures var found := FindEntry(Slots(v, c), raw);
            PathResult(v, c, FormatName(raw), out) ==
              if found.None? then (false, out) else (true, Info(found.value))
  {
    var p := FormatName(raw);
    PrintedNameIsPlain(raw);
    TokenOfPlain(p);
    assert SkipSlashes(p) == p && p[|p|..] == [];
    assert Components(p) == [p];
    OneClusterDirectory(v, c);
    LookupsAgree(Slots(v, c), raw);
    ResolveOne(v, c, p, out);
    assert SLASH in [SLASH] && p != [SLASH];
  }

  lemma ResolveOne(v: Volume, c: word, t: seq<byte>, out: FileInfo)
    ensures Resolve(v, c, [t], out) ==
            match Lookup(Dir(v, c), Upper(t)) case None => (false, out) case Some(i) => (true, i)
  {}

  lemma OneClusterDirectory(v: Volume, c: word)
    requires c < END_OF_CHAIN && (HasEnd(Slots(v, c)) || NextCluster(v, c) >= END_OF_CHAIN)
    ensures Dir(v, c) == Collect(UpToEnd(Slots(v, c)))
  {
    hide Slots, NextCluster, HasEnd;
    assert Stops(v, c, 1) by { assert Stops(v, NextCluster(v, c), 0) || HasEnd(Slots(v, c)); }
    assert Listing(v, c, 1) == Collect(UpToEnd(Slots(v, c))) by { assert Listing(v, NextCluster(v, c), 0) == []; }
    UpToEndIsShort(Slots(v, c));
    assert |Listing(v, c, 1)| <= |Slots(v, c)| <= 255 * SECTOR / ENTRY;
    assert Listable(v, c);
    DirIsListing(v, c, 1);
  }

  lemma {:induction false} UpToEndIsShort(es: seq<Raw>)
    ensures |UpToEnd(es)| <= |es|
  {
    if es != [] { UpToEndIsShort(es[1..]); }
  }

  // ---------------------------------------------------------------- what a walk meets

  /** Every directory that resolving `ts` from `c` has to list can be listed. */
  ghost predicate Walkable(v: Volume, c: word, ts: seq<seq<byte>>)
    decreases |ts|
  {
    ts == [] ||
    (Listable(v, c) &&
     var found := Lookup(Dir(v, c), Upper(ts[0]));
     found.Some? && |ts| > 1 && found.value.isDirectory ==> Walkable(v, found.value.firstCluster, ts[1..]))
  }

  /** Skipping slashes first does not change the components. */
  lemma ComponentsSkip(p: seq<byte>)
    ensures Components(SkipSlashes(p)) == Components(p)
    ensures Components(p) == [] <==> SkipSlashes(p) == []
  {}

  lemma {:induction false} CStringEndsAtNul(s: seq<byte>, n: nat)
    requires n < |s| && s[n] == 0 && forall i | 0 <= i < n :: s[i] != 0
    ensures CString(s) == s[..n]
    decreases n
  {
    if n > 0 {
      CStringEndsAtNul(s[1..], n - 1);
      assert s[..n] == [s[0]] + s[1..][..n - 1];
    }
  }

  /** Lookup finds the first match, and says so. */
  lemma {:induction false} LookupIsFirst(l: seq<FileInfo>, name: seq<byte>, i: nat)
    requires i <= |l| && forall k | 0 <= k < i :: CString(l[k].name) != CString(name)
    requires i < |l| ==> CString(l[i].name) == CString(name)
    ensures Lookup(l, name) == if i < |l| then Some(l[i]) else None
    decreases i
  {
    if i > 0 {
      assert forall k | 0 <= k < |l[1..]| :: l[1..][k] == l[k + 1];
      LookupIsFirst(l[1..], name, i - 1);
    }
  }
}
