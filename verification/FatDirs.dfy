/** Directories: 32-byte entries in the clusters of a chain, lookup by 8.3 name, path resolution and entry creation. */
module FatDirs {
  import opened Common
  import opened FatLayout
  import opened FatChains
  import opened Fat32
  import opened FatFiles
  import opened FatNames

  const DIRENT: nat := 32
  const FREE: byte := 0x00
  const DELETED: byte := 0xE5
  const LONG_NAME: nat := 0x0F
  const SLASH: byte := 0x2F

  type Slot = e: seq<byte> | |e| == DIRENT witness seq(DIRENT, _ => 0)

  // ---------------------------------------------------------------- entries

  function NameOf(e: Slot): seq<byte> { e[..11] }

  function AttrOf(e: Slot): nat { e[11] as nat }

  function ClusterOf(e: Slot): nat { Word32([e[26], e[27], e[20], e[21]]) }

  function SizeOf(e: Slot): nat { Word32(e[28..32]) }

  /** The bits of the low half: a long-name entry has all four of the low attribute bits. */
  predicate Live(e: Slot) { e[0] != FREE && e[0] != DELETED && AttrOf(e) % 16 != LONG_NAME }

  predicate IsDirectory(attr: nat) { attr / 16 % 2 == 1 }

  predicate Matches(e: Slot, name: seq<byte>) { Live(e) && NameOf(e) == name }

  /** The entry written for a new file or directory: size, time, date and reserved bytes are zero. */
  function MakeSlot(name: seq<byte>, attr: nat, c: nat): Slot
    requires |name| == 11 && attr < 256 && c < WORD
  {
    var b := Bytes32(c);
    name + [attr as byte] + [0, 0, 0, 0, 0, 0, 0, 0] + [b[2], b[3]] + [0, 0] + [0, 0] + [b[0], b[1]] + [0, 0, 0, 0]
  }

  lemma MadeSlot(name: seq<byte>, attr: nat, c: nat)
    requires |name| == 11 && attr < 256 && c < WORD
    ensures var e := MakeSlot(name, attr, c);
            NameOf(e) == name && e[0] == name[0] && AttrOf(e) == attr && ClusterOf(e) == c && SizeOf(e) == 0
    ensures var e := MakeSlot(name, attr, c);
            && e[..11] == name && e[11] as nat == attr
            && e[26] as nat == c % 0x100 && e[27] as nat == c / 0x100 % 0x100
            && e[20] as nat == c / 0x1_0000 % 0x100 && e[21] as nat == c / 0x100_0000
            && (forall i :: 12 <= i < 32 && i != 20 && i != 21 && i != 26 && i != 27 ==> e[i] == 0)
  {
    MadeBytes(c);
    hide Bytes32, Word32;
    var e, b := MakeSlot(name, attr, c), Bytes32(c);
    assert [e[26], e[27], e[20], e[21]] == b;
    Word32OfBytes(c);
    assert e[28..32] == [0, 0, 0, 0];
    ZeroWord();
  }

  lemma MadeBytes(c: nat)
    requires c < WORD
    ensures var b := Bytes32(c);
            && b[0] as nat == c % 0x100 && b[1] as nat == c / 0x100 % 0x100
            && b[2] as nat == c / 0x1_0000 % 0x100 && b[3] as nat == c / 0x100_0000
  {}

  /** Cluster and size of an entry, from its bytes. */
  lemma FieldBytes(e: Slot)
    ensures ClusterOf(e) == e[26] as nat + 0x100 * e[27] as nat + 0x1_0000 * e[20] as nat + 0x100_0000 * e[21] as nat
    ensures SizeOf(e) == e[28] as nat + 0x100 * e[29] as nat + 0x1_0000 * e[30] as nat + 0x100_0000 * e[31] as nat
    ensures AttrOf(e) == e[11] as nat
  {}

  lemma ZeroWord()
    ensures Word32([0, 0, 0, 0]) == 0
  {}

  /** The entries of one cluster, and of a whole chain. */
  function SlotAt(d: seq<byte>, i: nat): Slot
    requires (i + 1) * DIRENT <= |d|
  {
    d[i * DIRENT..(i + 1) * DIRENT]
  }

  function SlotsIn(d: seq<byte>): (s: seq<Slot>)
    ensures |s| == |d| / DIRENT
  {
    seq(|d| / DIRENT, i requires 0 <= i < |d| / DIRENT => SlotAt(d, i))
  }

  ghost function DirSlots(data: seq<seq<byte>>, s: seq<nat>): seq<Slot>
    requires InData(data, s)
  {
    if s == [] then [] else DirSlots(data, s[..|s| - 1]) + SlotsIn(data[s[|s| - 1]])
  }

  // ---------------------------------------------------------------- lookup

  /** The first live entry of that name before the end mark. */
  function Lookup(slots: seq<Slot>, name: seq<byte>): Option<Slot> {
    if slots == [] || slots[0][0] == FREE then None
    else if Matches(slots[0], name) then Some(slots[0])
    else Lookup(slots[1..], name)
  }

  /** No end mark and no match so far. */
  ghost predicate Passed(slots: seq<Slot>, name: seq<byte>) {
    forall i :: 0 <= i < |slots| ==> slots[i][0] != FREE && !Matches(slots[i], name)
  }

  lemma {:induction false} LookupPassed(pre: seq<Slot>, post: seq<Slot>, name: seq<byte>)
    requires Passed(pre, name)
    ensures Lookup(pre + post, name) == Lookup(post, name)
  {
    if pre == [] {
      assert pre + post == post;
    } else {
      assert (pre + post)[1..] == pre[1..] + post;
      LookupPassed(pre[1..], post, name);
    }
  }

  /** Lookup finds an entry exactly when one of that name stands before every end mark, and it is the first such. */
  lemma LookupIs(slots: seq<Slot>, name: seq<byte>, i: nat)
    requires i < |slots| && Passed(slots[..i], name)
    ensures Matches(slots[i], name) ==> Lookup(slots, name) == Some(slots[i])
    ensures slots[i][0] == FREE ==> Lookup(slots, name) == None
  {
    assert slots == slots[..i] + slots[i..];
    LookupPassed(slots[..i], slots[i..], name);
  }

  /** The entry is in use, is no long-name entry, and has that name. */
  predicate Shows(e: Slot, name: seq<byte>) { e[0] != 0x00 && e[0] != 0xE5 && e[11] % 16 != 0x0F && e[..11] == name }

  /** What lookup finds is the first entry that shows the name, and none is missed but behind an end mark. */
  lemma {:induction false} LookupMeans(slots: seq<Slot>, name: seq<byte>)
    ensures Lookup(slots, name).Some? ==>
              exists i :: 0 <= i < |slots| && slots[i] == Lookup(slots, name).value && Shows(slots[i], name)
                  && forall j :: 0 <= j < i ==> slots[j][0] != 0x00 && !Shows(slots[j], name)
    ensures Lookup(slots, name) == None ==>
              forall i :: 0 <= i < |slots| && Shows(slots[i], name) ==> exists j :: 0 <= j < i && slots[j][0] == 0x00
  {
    if slots != [] && slots[0][0] != FREE && !Matches(slots[0], name) {
      var t := slots[1..];
      LookupMeans(t, name);
      if Lookup(t, name).Some? {
        var i :| 0 <= i < |t| && t[i] == Lookup(t, name).value && Shows(t[i], name)
                 && forall j :: 0 <= j < i ==> t[j][0] != 0x00 && !Shows(t[j], name);
        assert slots[i + 1] == t[i];
        assert forall j :: 0 < j < i + 1 ==> slots[j] == t[j - 1];
      } else {
        forall i | 0 <= i < |slots| && Shows(slots[i], name) ensures exists j :: 0 <= j < i && slots[j][0] == 0x00 {
          assert t[i - 1] == slots[i];
          var j :| 0 <= j < i - 1 && t[j][0] == 0x00;
          assert slots[j + 1][0] == 0x00;
        }
      }
    }
  }

  lemma LookupNone(slots: seq<Slot>, name: seq<byte>)
    requires Passed(slots, name)
    ensures Lookup(slots, name) == None
  {
    assert slots + [] == slots;
    LookupPassed(slots, [], name);
  }

  datatype Scan = End | Hit(at: nat) | Miss

  /** One cluster of a directory. */
  method ScanSlots(d: seq<byte>, name: seq<byte>) returns (r: Scan)
    ensures r.Miss? ==> Passed(SlotsIn(d), name)
    ensures r.Hit? ==> r.at < |SlotsIn(d)| && Passed(SlotsIn(d)[..r.at], name) && Matches(SlotsIn(d)[r.at], name)
    ensures r.End? ==> exists i :: 0 <= i < |SlotsIn(d)| && Passed(SlotsIn(d)[..i], name) && SlotsIn(d)[i][0] == FREE
  {
    ghost var slots := SlotsIn(d);
    var i := 0;
    while i < |d| / DIRENT
      invariant 0 <= i <= |d| / DIRENT && Passed(slots[..i], name)
    {
      var e := SlotAt(d, i);
      assert slots[i] == e;
      if e[0] == FREE {
        return End;
      }
      if e[0] != DELETED && AttrOf(e) % 16 != LONG_NAME {
        if NameOf(e) == name {
          return Hit(i);
        }
      }
      assert slots[..i + 1] == slots[..i] + [e];
      i := i + 1;
    }
    assert slots[..i] == slots;
    r := Miss;
  }

  lemma {:induction false} DirSlotsPrefix(data: seq<seq<byte>>, s: seq<nat>, k: nat)
    requires InData(data, s) && k <= |s|
    ensures DirSlots(data, s[..k]) <= DirSlots(data, s)
  {
    if k < |s| {
      DirSlotsPrefix(data, s[..|s| - 1], k);
      assert s[..|s| - 1][..k] == s[..k];
    } else {
      assert s[..k] == s;
    }
  }

  /** Entry `at` of cluster `k`, when everything before it was passed over, decides the lookup. */
  lemma DirEntry(data: seq<seq<byte>>, s: seq<nat>, k: nat, at: nat, name: seq<byte>)
    requires InData(data, s) && k < |s| && Passed(DirSlots(data, s[..k]), name)
    requires at < |SlotsIn(data[s[k]])| && Passed(SlotsIn(data[s[k]])[..at], name)
    ensures var e := SlotsIn(data[s[k]])[at];
            && (Matches(e, name) ==> Lookup(DirSlots(data, s), name) == Some(e))
            && (e[0] == FREE ==> Lookup(DirSlots(data, s), name) == None)
  {
    hide Matches, SlotsIn;
    var all, pre, here := DirSlots(data, s), DirSlots(data, s[..k]), SlotsIn(data[s[k]]);
    DirSlotsPrefix(data, s, k + 1);
    assert s[..k + 1][..k] == s[..k];
    assert DirSlots(data, s[..k + 1]) == pre + here;
    var i := |pre| + at;
    assert all[i] == here[at];
    assert all[..i] == pre + here[..at];
    LookupIs(all, name, i);
  }

  lemma DirCluster(data: seq<seq<byte>>, s: seq<nat>, k: nat, name: seq<byte>)
    requires InData(data, s) && k < |s| && Passed(DirSlots(data, s[..k]), name) && Passed(SlotsIn(data[s[k]]), name)
    ensures Passed(DirSlots(data, s[..k + 1]), name)
    ensures k + 1 == |s| ==> Lookup(DirSlots(data, s), name) == None
  {
    hide Matches, SlotsIn;
    assert s[..k + 1][..k] == s[..k];
    if k + 1 == |s| {
      assert s[..k + 1] == s;
      LookupNone(DirSlots(data, s), name);
    }
  }

  /** The entries of the directory at a cluster; none when no chain starts there. */
  ghost function Entries(data: seq<seq<byte>>, chains: map<nat, seq<nat>>, dir: nat): seq<Slot> {
    if dir in chains && InData(data, chains[dir]) then DirSlots(data, chains[dir]) else []
  }

  /** Walks the directory's chain for a name. */
  method SearchDir(v: Volume, start: nat, name: seq<byte>) returns (st: Status, cluster: nat, size: nat, attr: nat)
    requires v.Valid() && (start < 2 || start in v.chains)
    modifies v`faults
    ensures v.faults >= old(v.faults)
    ensures st == Ok ==> v.faults == old(v.faults) && start in v.chains
    ensures st == Ok ==> var r := Lookup(Entries(v.data, v.chains, start), name);
                         r.Some? && cluster == ClusterOf(r.value) && size == SizeOf(r.value) && attr == AttrOf(r.value)
    ensures st == Ok ==> var e := Lookup(Entries(v.data, v.chains, start), name).value;
                         && cluster == e[26] as nat + 0x100 * e[27] as nat + 0x1_0000 * e[20] as nat
                                       + 0x100_0000 * e[21] as nat
                         && size == e[28] as nat + 0x100 * e[29] as nat + 0x1_0000 * e[30] as nat
                                    + 0x100_0000 * e[31] as nat
                         && attr == e[11] as nat
    ensures st == Error && v.faults == old(v.faults) && start >= 2 ==>
              Lookup(Entries(v.data, v.chains, start), name) == None
  {
    hide Represents, Forest, TailFull, IsChain, DirSlots, SlotsIn, Lookup, Passed, Matches, ClusterOf, SizeOf, LowBits;
    cluster, size, attr := 0, 0, 0;
    FatSize(v.disk, v.g, v.fat, v.data);
    var noBuffer := v.Fails();
    if noBuffer {
      st := Error;
      return;
    }
    var current: nat := start;
    ghost var k := 0;
    ghost var s := if start < 2 then [] else v.chains[start];
    if start >= 2 {
      ChainFacts(v, start);
      NoEntries(v.data, s, name);
    }
    while true
      invariant v.Valid() && current < v.g.maxCluster && v.faults >= old(v.faults)
      invariant start >= 2 ==> IsChain(v.fat, v.g.maxCluster, s) && InData(v.data, s) && s == v.chains[start]
      invariant current < 2 && start >= 2 ==> v.faults > old(v.faults)
      invariant current >= 2 ==>
                  && start >= 2 && k < |s| && current == s[k] && v.faults == old(v.faults)
                  && Passed(DirSlots(v.data, s[..k]), name)
      decreases if current < 2 then 0 else |s| - k
    {
      var d;
      st, d := v.ReadCluster(current);
      if st == Error {
        return;
      }
      var r := ScanSlots(d, name);
      match r {
        case End =>
          ghost var i :| 0 <= i < |SlotsIn(d)| && Passed(SlotsIn(d)[..i], name) && SlotsIn(d)[i][0] == FREE;
          DirEntry(v.data, s, k, i, name);
          st := Error;
          return;
        case Hit(i) =>
          DirEntry(v.data, s, k, i, name);
          SlotIs(d, i);
          FieldBytes(SlotAt(d, i));
          cluster, size, attr := ClusterOf(SlotAt(d, i)), SizeOf(SlotAt(d, i)), AttrOf(SlotAt(d, i));
          return;
        case Miss =>
      }
      DirCluster(v.data, s, k, name);
      ChainStep(v.fat, v.g.maxCluster, s, k);
      var next := v.NextCluster(current);
      if next >= EOC_MIN {
        st := Error;
        return;
      }
      current := next;
      k := k + 1;
    }
  }

  lemma NoEntries(data: seq<seq<byte>>, s: seq<nat>, name: seq<byte>)
    requires InData(data, s)
    ensures Passed(DirSlots(data, s[..0]), name)
  {}

  lemma SlotIs(d: seq<byte>, i: nat)
    requires i < |SlotsIn(d)|
    ensures (i + 1) * DIRENT <= |d| && SlotsIn(d)[i] == SlotAt(d, i)
  {}

  // ---------------------------------------------------------------- paths

  const SEGMENT_MAX: nat := 12

  /** How many characters the segment at the head of the path takes: up to a slash, the end, or twelve. */
  function SegmentLength(p: seq<byte>, max: nat): (n: nat)
    ensures n <= |p| && n <= max && SLASH !in p[..n] && (n < |p| && n < max ==> p[n] == SLASH)
  {
    if p == [] || max == 0 || p[0] == SLASH then 0
    else
      var n := 1 + SegmentLength(p[1..], max - 1);
      assert p[..n] == [p[0]] + p[1..][..n - 1];
      n
  }

  /** The copying loop over one segment. */
  method CutSegment(p: seq<byte>) returns (n: nat)
    ensures n == SegmentLength(p, SEGMENT_MAX)
  {
    n := 0;
    while n < SEGMENT_MAX && n < |p| && p[n] != SLASH
      invariant n <= SEGMENT_MAX && n <= |p|
      invariant n + SegmentLength(p[n..], SEGMENT_MAX - n) == SegmentLength(p, SEGMENT_MAX)
    {
      assert p[n..][1..] == p[n + 1..];
      n := n + 1;
    }
  }

  function SkipSlash(p: seq<byte>): seq<byte> { if p != [] && p[0] == SLASH then p[1..] else p }

  /** The entry a path leads to, the directory that holds it, and the name it was found by. */
  datatype Target = Target(entry: Slot, dir: nat, name: seq<byte>)

  const NAME_COPY: nat := 9

  /** The caller gets at most nine characters of the last segment. */
  function Copied(name: seq<byte>): seq<byte> { if |name| <= NAME_COPY then name else name[..NAME_COPY] }

  ghost function Resolve(data: seq<seq<byte>>, chains: map<nat, seq<nat>>, dir: nat, p: seq<byte>): Option<Target>
    decreases |p|
  {
    if p == [] then None
    else
      var n := SegmentLength(p, SEGMENT_MAX);
      var e := Lookup(Entries(data, chains, dir), Name83(p[..n]));
      if e.None? then None
      else if n == |p| then Some(Target(e.value, dir, p))
      else if !IsDirectory(AttrOf(e.value)) then None
      else Resolve(data, chains, ClusterOf(e.value), SkipSlash(p[n..]))
  }

  /** One step down a path: only through an entry with the directory bit, and to the cluster its bytes give. */
  lemma StepDown(data: seq<seq<byte>>, chains: map<nat, seq<nat>>, dir: nat, p: seq<byte>)
    requires SegmentLength(p, SEGMENT_MAX) < |p|
    ensures var n := SegmentLength(p, SEGMENT_MAX);
            var e := Lookup(Entries(data, chains, dir), Name83(p[..n]));
            && (Resolve(data, chains, dir, p).Some? ==> e.Some? && e.value[11] / 16 % 2 == 1)
            && (e.Some? && e.value[11] / 16 % 2 == 1 ==>
                var c := e.value[26] as nat + 0x100 * e.value[27] as nat + 0x1_0000 * e.value[20] as nat
                         + 0x100_0000 * e.value[21] as nat;
                Resolve(data, chains, dir, p) == Resolve(data, chains, c, if p[n] == SLASH then p[n + 1..] else p[n..]))
  {
    hide Lookup, Entries, Name83, ClusterOf;
    var e := Lookup(Entries(data, chains, dir), Name83(p[..SegmentLength(p, SEGMENT_MAX)]));
    if e.Some? { FieldBytes(e.value); }
  }

  /** Every subdirectory entry of a directory leads to a directory of the tree, or to no cluster at all. */
  ghost predicate TreeOk(data: seq<seq<byte>>, chains: map<nat, seq<nat>>, dirs: set<nat>) {
    && (forall d :: d in dirs ==> d in chains)
    && (forall d, i :: d in dirs && 0 <= i < |Entries(data, chains, d)| ==>
        LeadsInto(Entries(data, chains, d)[i], dirs))
  }

  ghost predicate LeadsInto(e: Slot, dirs: set<nat>) {
    Live(e) && IsDirectory(AttrOf(e)) ==> ClusterOf(e) < 2 || ClusterOf(e) in dirs
  }

  lemma {:induction false} LookupIn(slots: seq<Slot>, name: seq<byte>)
    ensures Lookup(slots, name).Some? ==>
              exists i :: 0 <= i < |slots| && slots[i] == Lookup(slots, name).value && Matches(slots[i], name)
  {
    if slots != [] && slots[0][0] != FREE && !Matches(slots[0], name) {
      LookupIn(slots[1..], name);
      if Lookup(slots[1..], name).Some? {
        var i :| 0 <= i < |slots[1..]| && slots[1..][i] == Lookup(slots[1..], name).value
            && Matches(slots[1..][i], name);
        assert slots[i + 1] == slots[1..][i];
      }
    }
  }

  lemma SubdirKnown(data: seq<seq<byte>>, chains: map<nat, seq<nat>>, dirs: set<nat>, dir: nat, name: seq<byte>)
    requires TreeOk(data, chains, dirs) && dir in dirs && Lookup(Entries(data, chains, dir), name).Some?
    ensures var e := Lookup(Entries(data, chains, dir), name).value;
            IsDirectory(AttrOf(e)) ==> ClusterOf(e) < 2 || ClusterOf(e) in dirs
  {
    var slots := Entries(data, chains, dir);
    LookupIn(slots, name);
    hide Lookup, Entries, ClusterOf, AttrOf, IsDirectory;
    var i :| 0 <= i < |slots| && slots[i] == Lookup(slots, name).value && Matches(slots[i], name);
    assert LeadsInto(slots[i], dirs);
  }

  /** Resolves a path segment by segment from the starting directory. */
  method FindCluster(v: Volume, start: nat, path: seq<byte>, ghost dirs: set<nat>)
      returns (st: Status, cluster: nat, dir: nat, size: nat, attr: nat, fname: seq<byte>)
    requires v.Valid() && TreeOk(v.data, v.chains, dirs) && (start < 2 || start in dirs)
    modifies v`faults
    ensures v.faults >= old(v.faults)
    ensures st == Ok ==> v.faults == old(v.faults)
    ensures st == Ok ==> var r := Resolve(v.data, v.chains, start, SkipSlash(path));
                         && r.Some? && cluster == ClusterOf(r.value.entry) && size == SizeOf(r.value.entry)
                         && attr == AttrOf(r.value.entry)
                         && dir == r.value.dir && fname == Copied(r.value.name)
    ensures st == Error && v.faults == old(v.faults) ==> Resolve(v.data, v.chains, start, SkipSlash(path)) == None
  {
    hide Represents, Forest, TailFull, Lookup, Entries, ClusterOf, SizeOf, AttrOf, Name83, TreeOk, IsDirectory;
    var p := SkipSlash(path);
    cluster, size, attr, dir, fname := 0, 0, 0, start, [];
    while p != []
      invariant v.Valid() && v.faults == old(v.faults) && (dir < 2 || dir in dirs)
      invariant Resolve(v.data, v.chains, dir, p) == Resolve(v.data, v.chains, start, SkipSlash(path))
      decreases |p|
    {
      var n := CutSegment(p);
      var name := Format83(p[..n]);
      TreeChains(v, dirs, dir);
      NoSuchDir(v, dir, name);
      st, cluster, size, attr := SearchDir(v, dir, name);
      if st == Error {
        return;
      }
      SubdirKnown(v.data, v.chains, dirs, dir, name);
      if n == |p| {
        fname := Copied(p[..n]);
        return;
      }
      if !IsDirectory(attr) {
        st := Error;
        return;
      }
      p := SkipSlash(p[n..]);
      dir := cluster;
    }
    st := Error;
  }

  lemma TreeChains(v: Volume, dirs: set<nat>, dir: nat)
    requires TreeOk(v.data, v.chains, dirs)
    ensures dir in dirs ==> dir in v.chains
  {}

  /** No chain starts below cluster 2. */
  lemma NoSuchDir(v: Volume, dir: nat, name: seq<byte>)
    requires v.Valid()
    ensures dir < 2 ==> dir !in v.chains && Lookup(Entries(v.data, v.chains, dir), name) == None
  {
    if dir in v.chains {
      ChainFacts(v, dir);
    }
  }

  // ---------------------------------------------------------------- paths as lists of names

  function JoinPath(segs: seq<seq<byte>>): seq<byte> {
    if |segs| == 0 then [] else if |segs| == 1 then segs[0] else segs[0] + [SLASH] + JoinPath(segs[1..])
  }

  /** Names of any length. */
  ghost predicate Names(segs: seq<seq<byte>>) { forall i :: 0 <= i < |segs| ==> 1 <= |segs[i]| && SLASH !in segs[i] }

  /** A name as the pieces it is looked up by: twelve characters each, and what is left. */
  function Pieces(s: seq<byte>): seq<seq<byte>> {
    if |s| <= SEGMENT_MAX then [s] else [s[..SEGMENT_MAX]] + Pieces(s[SEGMENT_MAX..])
  }

  function AllPieces(segs: seq<seq<byte>>): seq<seq<byte>> {
    if segs == [] then [] else Pieces(segs[0]) + AllPieces(segs[1..])
  }

  /** Recursive lookup, one name per level: every name but the last has to be a directory. */
  ghost function Descend(data: seq<seq<byte>>, chains: map<nat, seq<nat>>, dir: nat,
                         segs: seq<seq<byte>>): Option<Target>
    decreases |segs|
  {
    if segs == [] then None
    else
      var e := Lookup(Entries(data, chains, dir), Name83(segs[0]));
      if e.None? then None
      else if |segs| == 1 then Some(Target(e.value, dir, segs[0]))
      else if !IsDirectory(AttrOf(e.value)) then None
      else Descend(data, chains, ClusterOf(e.value), segs[1..])
  }

  lemma {:induction false} SegmentIs(p: seq<byte>, max: nat, n: nat)
    requires n <= |p| && n <= max && SLASH !in p[..n] && (n < |p| && n < max ==> p[n] == SLASH)
    ensures SegmentLength(p, max) == n
  {
    if n > 0 {
      assert p[0] == p[..n][0];
      assert p[1..][..n - 1] == p[..n][1..];
      SegmentIs(p[1..], max - 1, n - 1);
    }
  }

  /**
   * For every path of slash-free names, with or without a leading slash, resolution is the recursive lookup of the
   * names cut into pieces of twelve characters: every piece but the last has to be a directory.
   */
  lemma {:induction false} ResolveIsDescend(data: seq<seq<byte>>, chains: map<nat, seq<nat>>, dir: nat,
                                            segs: seq<seq<byte>>)
    requires Names(segs)
    ensures SkipSlash(JoinPath(segs)) == JoinPath(segs) == SkipSlash([SLASH] + JoinPath(segs))
    ensures Resolve(data, chains, dir, JoinPath(segs)) == Descend(data, chains, dir, AllPieces(segs))
    decreases |JoinPath(segs)|
  {
    hide Lookup, Entries, Name83, IsDirectory, AttrOf, ClusterOf, JoinPath, SegmentLength, SkipSlash, Pieces, AllPieces;
    JoinHead(segs);
    PiecesHead(segs);
    var p := JoinPath(segs);
    assert p[..|p|] == p;
    if segs != [] && Left(segs) != [] {
      var e := Lookup(Entries(data, chains, dir), Name83(First(segs)));
      if e.Some? && IsDirectory(AttrOf(e.value)) { ResolveIsDescend(data, chains, ClusterOf(e.value), Left(segs)); }
    }
  }

  /** The piece a path begins with, and the names left behind it. */
  function First(segs: seq<seq<byte>>): seq<byte>
    requires segs != []
  {
    if |segs[0]| <= SEGMENT_MAX then segs[0] else segs[0][..SEGMENT_MAX]
  }

  function Left(segs: seq<seq<byte>>): seq<seq<byte>>
    requires segs != []
  {
    if |segs[0]| <= SEGMENT_MAX then segs[1..] else [segs[0][SEGMENT_MAX..]] + segs[1..]
  }

  lemma PiecesHead(segs: seq<seq<byte>>)
    ensures segs == [] <==> AllPieces(segs) == []
    ensures segs != [] ==>
              AllPieces(segs) == [First(segs)] + AllPieces(Left(segs)) && AllPieces(segs)[1..] == AllPieces(Left(segs))
    ensures segs != [] ==> (|AllPieces(segs)| == 1 <==> Left(segs) == [])
  {
    hide Pieces, AllPieces;
    AllPiecesOf(segs);
    if segs != [] {
      var s := segs[0];
      PiecesCount(s);
      PiecesOf(s);
      NoPieces(Left(segs));
      if |s| > SEGMENT_MAX {
        var rest := s[SEGMENT_MAX..];
        assert Left(segs)[0] == rest && Left(segs)[1..] == segs[1..];
        AllPiecesOf(Left(segs));
        Regroup(First(segs), Pieces(rest), AllPieces(segs[1..]));
      }
    }
  }

  lemma AllPiecesOf(segs: seq<seq<byte>>)
    ensures AllPieces(segs) == if segs == [] then [] else Pieces(segs[0]) + AllPieces(segs[1..])
  {}

  lemma Regroup(a: seq<byte>, b: seq<seq<byte>>, c: seq<seq<byte>>)
    ensures ([a] + b) + c == [a] + (b + c) && ([a] + (b + c))[1..] == b + c
  {}

  lemma PiecesOf(s: seq<byte>)
    ensures Pieces(s) == if |s| <= SEGMENT_MAX then [s] else [s[..SEGMENT_MAX]] + Pieces(s[SEGMENT_MAX..])
  {}

  lemma NoPieces(segs: seq<seq<byte>>)
    ensures segs == [] <==> AllPieces(segs) == []
  {
    if segs != [] {
      PiecesCount(segs[0]);
      hide Pieces;
      assert |AllPieces(segs)| >= |Pieces(segs[0])|;
    }
  }

  lemma JoinOf(segs: seq<seq<byte>>)
    requires segs != []
    ensures segs[0] <= JoinPath(segs)
    ensures if |segs| == 1 then JoinPath(segs) == segs[0] else JoinPath(segs) == segs[0] + [SLASH] + JoinPath(segs[1..])
  {
    JoinUnfolds(segs);
    hide JoinPath;
  }

  lemma JoinUnfolds(segs: seq<seq<byte>>)
    requires segs != []
    ensures JoinPath(segs) == if |segs| == 1 then segs[0] else segs[0] + [SLASH] + JoinPath(segs[1..])
  {}

  /** The first piece of a joined path, and what is left behind it and its slash. */
  lemma JoinHead(segs: seq<seq<byte>>)
    requires Names(segs)
    ensures SkipSlash(JoinPath(segs)) == JoinPath(segs) == SkipSlash([SLASH] + JoinPath(segs))
    ensures segs == [] <==> JoinPath(segs) == []
    ensures segs != [] ==> Names(Left(segs))
    ensures segs != [] ==> var p, n := JoinPath(segs), |First(segs)|;
                           && SegmentLength(p, SEGMENT_MAX) == n <= |p| && p[..n] == First(segs)
                           && (n == |p| <==> Left(segs) == [])
                           && SkipSlash(p[n..]) == JoinPath(Left(segs)) && |JoinPath(Left(segs))| < |p|
  {
    var p := JoinPath(segs);
    if segs != [] {
      JoinOf(segs);
      FirstOf(segs);
      hide SegmentLength, JoinPath, Names;
      assert p[0] == segs[0][0] && segs[0][0] in segs[0];
      if |segs[0]| <= SEGMENT_MAX {
        ShortHead(segs);
      } else {
        LongHead(segs);
      }
    }
  }

  lemma ShortHead(segs: seq<seq<byte>>)
    requires Names(segs) && segs != [] && |segs[0]| <= SEGMENT_MAX
    ensures var p, n := JoinPath(segs), |segs[0]|;
            && SegmentLength(p, SEGMENT_MAX) == n <= |p| && p[..n] == segs[0] && (n == |p| <==> |segs| == 1)
            && SkipSlash(p[n..]) == JoinPath(segs[1..]) && |JoinPath(segs[1..])| < |p|
  {
    var p, n := JoinPath(segs), |segs[0]|;
    JoinOf(segs);
    assert |segs| == 1 ==> segs[1..] == [] && JoinPath(segs[1..]) == [];
    hide SegmentLength, JoinPath;
    assert p[..n] == segs[0];
    SegmentIs(p, SEGMENT_MAX, n);
    assert |segs| > 1 ==> p[n..] == [SLASH] + JoinPath(segs[1..]);
  }

  lemma LongHead(segs: seq<seq<byte>>)
    requires Names(segs) && segs != [] && |segs[0]| > SEGMENT_MAX
    ensures var p := JoinPath(segs);
            && SegmentLength(p, SEGMENT_MAX) == SEGMENT_MAX < |p| && p[..SEGMENT_MAX] == First(segs)
            && SkipSlash(p[SEGMENT_MAX..]) == JoinPath(Left(segs)) && |JoinPath(Left(segs))| < |p|
  {
    var p := JoinPath(segs);
    JoinOf(segs);
    LeftJoined(segs);
    FirstOf(segs);
    hide SegmentLength, JoinPath, Names;
    assert p[..SEGMENT_MAX] == segs[0][..SEGMENT_MAX];
    SegmentIs(p, SEGMENT_MAX, SEGMENT_MAX);
  }

  lemma FirstOf(segs: seq<seq<byte>>)
    requires Names(segs) && segs != []
    ensures SLASH !in First(segs) && First(segs) <= segs[0] && Names(Left(segs))
  {
    var s := segs[0];
    if |s| > SEGMENT_MAX {
      assert forall x :: x in s[..SEGMENT_MAX] || x in s[SEGMENT_MAX..] ==> x in s;
    }
  }

  lemma DropFrom(s: seq<byte>, t: seq<byte>, n: nat)
    requires n < |s|
    ensures (s + [SLASH] + t)[n..] == s[n..] + [SLASH] + t && (s + [SLASH] + t)[n] == s[n]
  {}

  lemma LeftJoined(segs: seq<seq<byte>>)
    requires Names(segs) && segs != [] && |segs[0]| > SEGMENT_MAX
    ensures var p := JoinPath(segs);
            SEGMENT_MAX < |p| && p[SEGMENT_MAX..] == JoinPath(Left(segs)) && p[SEGMENT_MAX] != SLASH
  {
    hide JoinPath;
    var s, rest := segs[0], Left(segs);
    assert rest[0] == s[SEGMENT_MAX..] && rest[1..] == segs[1..] && |rest| == |segs|;
    JoinOf(segs);
    JoinOf(rest);
    assert s[SEGMENT_MAX] in s;
    DropFrom(s, JoinPath(segs[1..]), SEGMENT_MAX);
  }

  /** The lookup is name by name if and only if no name is longer than twelve characters. */
  lemma {:induction false} WholeIff(segs: seq<seq<byte>>)
    ensures |AllPieces(segs)| >= |segs|
    ensures AllPieces(segs) == segs <==> forall i :: 0 <= i < |segs| ==> |segs[i]| <= SEGMENT_MAX
    ensures AllPieces(segs) == segs <==> |AllPieces(segs)| == |segs|
  {
    if segs != [] {
      WholeIff(segs[1..]);
      PiecesCount(segs[0]);
      var rest := AllPieces(segs[1..]);
      assert |AllPieces(segs)| == |Pieces(segs[0])| + |rest|;
      if |segs[0]| <= SEGMENT_MAX {
        assert AllPieces(segs) == [segs[0]] + rest && segs == [segs[0]] + segs[1..];
        assert AllPieces(segs)[1..] == rest;
        assert forall i :: 0 < i < |segs| ==> segs[i] == segs[1..][i - 1];
      }
    }
  }

  lemma {:induction false} PiecesCount(s: seq<byte>)
    ensures |Pieces(s)| >= 1 && (|Pieces(s)| == 1 <==> |s| <= SEGMENT_MAX)
  {
    if |s| > SEGMENT_MAX { PiecesCount(s[SEGMENT_MAX..]); }
  }

  /** A name of more than twelve characters is not looked up as one name. */
  lemma LongNameIsCut(data: seq<seq<byte>>, chains: map<nat, seq<nat>>, dir: nat, p: seq<byte>)
    requires SLASH !in p && p != []
    ensures Resolve(data, chains, dir, p) == Descend(data, chains, dir, Pieces(p))
    ensures |Pieces(p)| == 1 <==> |p| <= SEGMENT_MAX
  {
    hide Resolve, Descend, Pieces;
    ResolveIsDescend(data, chains, dir, [p]);
    PiecesCount(p);
    assert JoinPath([p]) == p;
    assert AllPieces([p]) == Pieces(p) + AllPieces([]) == Pieces(p);
  }

  // ---------------------------------------------------------------- cutting names loses files

  const DIRECTORY: nat := 0x10
  const ARCHIVE: nat := 0x20

  /** Names under which an entry can be found. */
  ghost predicate Findable(segs: seq<seq<byte>>) {
    Names(segs) && forall i :: 0 <= i < |segs| ==> IsString(segs[i]) && segs[i][0] != DELETED
  }

  /** One entry per directory: the names one below the other, directories but for the last, which is a file. */
  function LineSlot(segs: seq<seq<byte>>, k: nat): Slot
    requires k < |segs| && |segs| + 3 < WORD
  {
    MakeSlot(Name83(segs[k]), if k + 1 < |segs| then DIRECTORY else ARCHIVE, k + 3)
  }

  function LineData(segs: seq<seq<byte>>): seq<seq<byte>>
    requires |segs| + 3 < WORD
  {
    seq(|segs| + 2, c requires 0 <= c < |segs| + 2 => if c < 2 then [] else LineSlot(segs, c - 2))
  }

  function LineChains(segs: seq<seq<byte>>): map<nat, seq<nat>> { map c: nat | 2 <= c < |segs| + 2 :: [c] }

  lemma LineEntries(segs: seq<seq<byte>>, k: nat)
    requires k < |segs| && |segs| + 3 < WORD
    ensures Entries(LineData(segs), LineChains(segs), k + 2) == [LineSlot(segs, k)]
  {
    hide LineSlot;
    var data, c, e := LineData(segs), k + 2, LineSlot(segs, k);
    assert data[c] == e && LineChains(segs)[c] == [c];
    assert [c][..0] == [];
    assert SlotsIn(data[c]) == [e] by { assert SlotAt(data[c], 0) == e; }
    assert DirSlots(data, [c]) == DirSlots(data, []) + SlotsIn(data[c]);
  }

  lemma LineLookup(segs: seq<seq<byte>>, k: nat, name: seq<byte>)
    requires k < |segs| && |segs| + 3 < WORD
    ensures var e := Lookup(Entries(LineData(segs), LineChains(segs), k + 2), name);
            && (e.Some? ==> ClusterOf(e.value) == k + 3 && (IsDirectory(AttrOf(e.value)) <==> k + 1 < |segs|))
            && (Findable(segs) && name == Name83(segs[k]) ==> e.Some?)
  {
    hide MakeSlot, Name83, ClusterOf, SizeOf, Entries, LineData, LineChains;
    var e := LineSlot(segs, k);
    LineEntries(segs, k);
    MadeSlot(Name83(segs[k]), if k + 1 < |segs| then DIRECTORY else ARCHIVE, k + 3);
    assert [e][1..] == [];
    if Findable(segs) { FirstByte(segs[k]); }
  }

  /** No path of more names than there are directories leads anywhere. */
  lemma {:induction false} LineTooDeep(segs: seq<seq<byte>>, k: nat, names: seq<seq<byte>>)
    requires k < |segs| && |segs| + 3 < WORD && |names| > |segs| - k
    ensures Descend(LineData(segs), LineChains(segs), k + 2, names) == None
    decreases |names|
  {
    hide LineData, LineChains, Lookup, Entries, ClusterOf, Name83, IsDirectory;
    LineLookup(segs, k, Name83(names[0]));
    if k + 1 < |segs| { LineTooDeep(segs, k + 1, names[1..]); }
  }

  lemma {:induction false} LineFound(segs: seq<seq<byte>>, k: nat)
    requires Findable(segs) && k < |segs| && |segs| + 3 < WORD
    ensures Descend(LineData(segs), LineChains(segs), k + 2, segs[k..]).Some?
    decreases |segs| - k
  {
    hide LineData, LineChains, Lookup, Entries, ClusterOf, Name83, IsDirectory, Findable;
    LineLookup(segs, k, Name83(segs[k]));
    if k + 1 < |segs| {
      assert segs[k..][1..] == segs[k + 1..];
      LineFound(segs, k + 1);
    }
  }

  /** A path is looked up name by name on every disk if and only if no name is longer than twelve characters. */
  lemma WholePathIff(segs: seq<seq<byte>>)
    requires Findable(segs) && segs != [] && |segs| + 3 < WORD
    ensures (forall data, chains, dir ::
               Resolve(data, chains, dir, JoinPath(segs)) == Descend(data, chains, dir, segs)) <==>
            (forall i :: 0 <= i < |segs| ==> |segs[i]| <= SEGMENT_MAX)
  {
    hide Resolve, Descend, LineData, LineChains, AllPieces;
    WholeIff(segs);
    forall data, chains, dir
      ensures Resolve(data, chains, dir, JoinPath(segs)) == Descend(data, chains, dir, AllPieces(segs))
    {
      ResolveIsDescend(data, chains, dir, segs);
    }
    var data, chains := LineData(segs), LineChains(segs);
    LineFound(segs, 0);
    assert segs[0..] == segs;
    if AllPieces(segs) != segs {
      LineTooDeep(segs, 0, AllPieces(segs));
      assert Resolve(data, chains, 2, JoinPath(segs)) != Descend(data, chains, 2, segs);
    }
  }

  // ---------------------------------------------------------------- creating an entry

  predicate Vacant(e: Slot) { e[0] == FREE || e[0] == DELETED }

  /** Nothing is live after an end mark. */
  ghost predicate Tidy(slots: seq<Slot>) {
    forall i, j :: 0 <= i < j < |slots| && slots[i][0] == FREE ==> !Live(slots[j])
  }

  /** `i` is the first slot without an entry. */
  ghost predicate FirstVacant(slots: seq<Slot>, i: nat) {
    i < |slots| && Vacant(slots[i]) && forall j :: 0 <= j < i ==> !Vacant(slots[j])
  }

  lemma {:induction false} NoneLive(slots: seq<Slot>, name: seq<byte>)
    requires forall j :: 0 <= j < |slots| ==> !Live(slots[j])
    ensures Lookup(slots, name) == None
  {
    if slots != [] { NoneLive(slots[1..], name); }
  }

  /** Lookups agree when the entries before `i` do and the lookups from `i` on do. */
  lemma {:induction false} SameLookup(slots: seq<Slot>, slots': seq<Slot>, i: nat, name: seq<byte>)
    requires i <= |slots| && i <= |slots'| && slots[..i] == slots'[..i]
    requires Lookup(slots[i..], name) == Lookup(slots'[i..], name)
    ensures Lookup(slots, name) == Lookup(slots', name)
  {
    if i == 0 {
      assert slots[i..] == slots && slots'[i..] == slots';
    } else {
      assert slots[0] == slots[..i][0] == slots'[0];
      assert slots[1..][i - 1..] == slots[i..] && slots'[1..][i - 1..] == slots'[i..];
      assert slots[1..][..i - 1] == slots[..i][1..] && slots'[1..][..i - 1] == slots'[..i][1..];
      SameLookup(slots[1..], slots'[1..], i - 1, name);
    }
  }

  /** Behind the first vacant slot of a tidy directory a lookup goes on as if the slot were not there. */
  lemma FromVacant(slots: seq<Slot>, i: nat, name: seq<byte>)
    requires Tidy(slots) && FirstVacant(slots, i)
    ensures Lookup(slots[i..], name) == Lookup(slots[i + 1..], name)
  {
    assert slots[i..][1..] == slots[i + 1..];
    if slots[i][0] == FREE { NoneLive(slots[i + 1..], name); }
  }

  /** An entry of another name, or one that is not live, in the first vacant slot changes no lookup. */
  lemma InsertOther(slots: seq<Slot>, i: nat, e: Slot, name: seq<byte>)
    requires Tidy(slots) && FirstVacant(slots, i) && e[0] != FREE && !Matches(e, name)
    ensures Lookup(slots[i := e], name) == Lookup(slots, name)
  {
    var slots' := slots[i := e];
    FromVacant(slots, i, name);
    assert slots'[i..][1..] == slots[i + 1..] && slots'[..i] == slots[..i];
    SameLookup(slots, slots', i, name);
  }

  lemma InsertTidy(slots: seq<Slot>, i: nat, e: Slot)
    requires Tidy(slots) && FirstVacant(slots, i) && e[0] != FREE
    ensures Tidy(slots[i := e])
  {}

  lemma {:induction false} NotFoundPassed(slots: seq<Slot>, i: nat, name: seq<byte>)
    requires i <= |slots| && (forall j :: 0 <= j < i ==> slots[j][0] != FREE) && Lookup(slots, name) == None
    ensures Passed(slots[..i], name)
  {
    if i > 0 {
      NotFoundPassed(slots[1..], i - 1, name);
      assert slots[..i] == [slots[0]] + slots[1..][..i - 1];
    }
  }

  /**
   * A new name put in the first vacant slot of a tidy directory is found from then on exactly when the entry does not
   * look like a long-name entry and the name does not begin with the deleted mark; every other lookup is as before.
   */
  lemma InsertFound(slots: seq<Slot>, i: nat, name: seq<byte>, attr: nat, c: nat, other: seq<byte>)
    requires Tidy(slots) && FirstVacant(slots, i) && |name| == 11 && name[0] != FREE && attr < 256 && c < WORD
    requires Lookup(slots, name) == None
    ensures var slots' := slots[i := MakeSlot(name, attr, c)];
            && Tidy(slots')
            && (Lookup(slots', name) == Some(MakeSlot(name, attr, c)) <==> attr % 16 != LONG_NAME && name[0] != DELETED)
            && (other != name ==> Lookup(slots', other) == Lookup(slots, other))
  {
    var e := MakeSlot(name, attr, c);
    MadeSlot(name, attr, c);
    hide MakeSlot, Lookup, ClusterOf, SizeOf;
    var slots' := slots[i := e];
    InsertTidy(slots, i, e);
    if Live(e) {
      NotFoundPassed(slots, i, name);
      assert slots'[..i] == slots[..i];
      LookupIs(slots', name, i);
    } else {
      InsertOther(slots, i, e, name);
    }
    if other != name { InsertOther(slots, i, e, other); }
  }

  /** A cluster's bytes with one entry replaced. */
  function SetSlot(d: seq<byte>, i: nat, e: Slot): (r: seq<byte>)
    requires i < |d| / DIRENT
    ensures |r| == |d|
  {
    d[..i * DIRENT] + e + d[(i + 1) * DIRENT..]
  }

  lemma SetSlotIs(d: seq<byte>, i: nat, e: Slot)
    requires i < |d| / DIRENT
    ensures SlotsIn(SetSlot(d, i, e)) == SlotsIn(d)[i := e]
  {
    var d' := SetSlot(d, i, e);
    forall j | 0 <= j < |d| / DIRENT ensures SlotsIn(d')[j] == SlotsIn(d)[i := e][j] { SetSlotAt(d, i, e, j); }
  }

  lemma SetSlotAt(d: seq<byte>, i: nat, e: Slot, j: nat)
    requires i < |d| / DIRENT && j < |d| / DIRENT
    ensures SlotAt(SetSlot(d, i, e), j) == if j == i then e else SlotAt(d, j)
  {
    var d', lo, at := SetSlot(d, i, e), j * DIRENT, i * DIRENT;
    assert SlotAt(d', j) == d'[lo..lo + DIRENT] && SlotAt(d, j) == d[lo..lo + DIRENT];
    if j < i {
      assert lo + DIRENT <= at;
      assert d'[lo..lo + DIRENT] == d[lo..lo + DIRENT];
    } else if j == i {
      assert d'[lo..lo + DIRENT] == e;
    } else {
      assert lo >= at + DIRENT;
      assert d'[lo..lo + DIRENT] == d[lo..lo + DIRENT];
    }
  }

  lemma {:induction false} DirSlotsFrame(data: seq<seq<byte>>, data': seq<seq<byte>>, s: seq<nat>)
    requires InData(data, s) && InData(data', s) && forall i :: 0 <= i < |s| ==> data'[s[i]] == data[s[i]]
    ensures DirSlots(data', s) == DirSlots(data, s)
  {
    if s != [] { DirSlotsFrame(data, data', s[..|s| - 1]); }
  }

  /** Replacing an entry in the first cluster of a directory replaces it in the directory. */
  lemma {:induction false} DirSlotsSet(data: seq<seq<byte>>, data': seq<seq<byte>>, s: seq<nat>, i: nat, e: Slot)
    requires |s| > 0 && InData(data, s) && InData(data', s) && i < |SlotsIn(data[s[0]])|
    requires SlotsIn(data'[s[0]]) == SlotsIn(data[s[0]])[i := e]
    requires forall k :: 1 <= k < |s| ==> data'[s[k]] == data[s[k]]
    ensures i < |DirSlots(data, s)| && DirSlots(data', s) == DirSlots(data, s)[i := e]
    ensures DirSlots(data, s)[i] == SlotsIn(data[s[0]])[i]
    ensures SlotsIn(data[s[0]]) <= DirSlots(data, s)
  {
    hide SlotsIn;
    var n := |s| - 1;
    if n == 0 {
      assert s[..n] == [];
      assert DirSlots(data, s) == SlotsIn(data[s[0]]) && DirSlots(data', s) == SlotsIn(data'[s[0]]);
    } else {
      DirSlotsSet(data, data', s[..n], i, e);
      var front: seq<Slot>, back: seq<Slot> := DirSlots(data, s[..n]), SlotsIn(data[s[n]]);
      assert front[i := e] + back == (front + back)[i := e];
    }
  }

  /** An entry was put in slot `i` of the directory's first cluster, for the fresh cleared cluster `c`. */
  ghost predicate Created(o: Snapshot, n: Snapshot, dir: nat, i: nat, e: Slot, c: nat) {
    && dir in o.chains && dir < |o.data| && c < |o.data| && c !in o.chains && !OnChain(o.chains, c)
    && LeastFree(o.fat, o.hint, c)
    && n.fat == o.fat[c := EOC] && n.chains == o.chains[c := [c]] && n.hint == c
    && i < |o.data[dir]| / DIRENT && FirstVacant(SlotsIn(o.data[dir]), i)
    && n.data == o.data[dir := SetSlot(o.data[dir], i, e)][c := seq(|o.data[dir]|, _ => 0)]
  }

  ghost predicate Empty(slots: seq<Slot>) { forall j :: 0 <= j < |slots| ==> slots[j][0] == FREE }

  lemma ClearedSlots(n: nat)
    ensures Empty(SlotsIn(seq(n, _ => 0)))
  {
    var d: seq<byte> := seq(n, _ => 0);
    forall j | 0 <= j < n / DIRENT ensures SlotsIn(d)[j][0] == FREE { assert SlotsIn(d)[j] == SlotAt(d, j); }
  }

  /**
   * The directory gained one entry, every other directory is as before, and the new cluster reads as an empty
   * directory.
   */
  lemma CreatedEntries(o: Snapshot, n: Snapshot, max: nat, dir: nat, i: nat, e: Slot, c: nat, other: nat)
    requires Created(o, n, dir, i, e, c) && Forest(o.fat, max, o.chains) && |o.data| == max
    ensures FirstVacant(Entries(o.data, o.chains, dir), i)
    ensures Entries(n.data, n.chains, dir) == Entries(o.data, o.chains, dir)[i := e]
    ensures other in o.chains && other != dir ==> Entries(n.data, n.chains, other) == Entries(o.data, o.chains, other)
    ensures Empty(Entries(n.data, n.chains, c))
  {
    hide Forest, LeastFree, SlotsIn, SetSlot, Vacant;
    ClearChain(o, n, max, dir, c, dir);
    var s := o.chains[dir];
    SetSlotIs(o.data[dir], i, e);
    DirSlotsSet(o.data, n.data, s, i, e);
    assert forall j :: 0 <= j <= i ==> SlotsIn(o.data[dir])[j] == DirSlots(o.data, s)[j];
    if other in o.chains && other != dir {
      ClearChain(o, n, max, dir, c, other);
      DirSlotsFrame(o.data, n.data, o.chains[other]);
    }
    ClearedDir(n, c, |o.data[dir]|);
  }

  lemma ClearedDir(n: Snapshot, c: nat, size: nat)
    requires 2 <= c < |n.data| && c in n.chains && n.chains[c] == [c] && n.data[c] == seq(size, _ => 0)
    ensures Empty(Entries(n.data, n.chains, c))
  {
    hide SlotsIn;
    ClearedSlots(size);
    assert [c][..0] == [];
    assert DirSlots(n.data, [c]) == SlotsIn(n.data[c]);
  }

  lemma ClearChain(o: Snapshot, n: Snapshot, max: nat, dir: nat, c: nat, k: nat)
    requires dir in o.chains && dir < |o.data| && c < |o.data| && !OnChain(o.chains, c) && LeastFree(o.fat, o.hint, c)
    requires Forest(o.fat, max, o.chains) && |o.data| == max && k in o.chains && |n.data| == |o.data|
    requires forall j :: 0 <= j < |o.data| && j != dir && j != c ==> n.data[j] == o.data[j]
    ensures 2 <= c
    ensures var s := o.chains[k]; |s| > 0 && s[0] == k && InData(o.data, s) && InData(n.data, s) && c !in s
    ensures var s := o.chains[k]; forall j :: 0 <= j < |s| && (k != dir || j > 0) ==> n.data[s[j]] == o.data[s[j]]
  {
    var s := o.chains[k];
    hide NoneFree;
    assert c !in s;
    forall j | 0 <= j < |s| ensures 2 <= s[j] < |o.data| && ((k != dir || j > 0) ==> s[j] != dir) {
      ChainInUse(o.fat, max, s, j);
      if k == dir {
        if j > 0 { ChainNoRepeat(o.fat, max, s, 0, j); }
      } else {
        assert Apart(s, o.chains[dir]) && o.chains[dir][0] == dir;
      }
    }
    assert forall j :: 0 <= j < |s| ==> s[j] in s;
  }

  /** Leading slashes skipped, as for any segment; the rest of the path is not looked at. */
  function Stripped(p: seq<byte>): (r: seq<byte>)
    ensures |r| <= |p| && r == p[|p| - |r|..] && (r != [] ==> r[0] != SLASH)
  {
    if p != [] && p[0] == SLASH then Stripped(p[1..]) else p
  }

  function FirstName(p: seq<byte>): seq<byte> { var q := Stripped(p); q[..SegmentLength(q, SEGMENT_MAX)] }

  method StripSlashes(path: seq<byte>) returns (p: seq<byte>)
    ensures p == Stripped(path)
  {
    p := path;
    while p != [] && p[0] == SLASH
      invariant Stripped(p) == Stripped(path)
      decreases |p|
    {
      p := p[1..];
    }
  }

  method WalkDirPath(path: seq<byte>) returns (st: Status, name: seq<byte>, rest: seq<byte>)
    ensures st == Error <==> Stripped(path) == []
    ensures st == Ok ==> name == Name83(FirstName(path)) && FirstName(path) + rest == Stripped(path)
    ensures st == Error ==> rest == []
  {
    hide SegmentLength, Name83, Stripped;
    var p := StripSlashes(path);
    name := [];
    if p == [] {
      return Error, name, p;
    }
    var n := CutSegment(p);
    name := Format83(p[..n]);
    rest := p[n..];
    st := Ok;
  }

  /** A directory of that name among the entries, wherever the end mark is. */
  predicate NamesDirectory(e: Slot, name: seq<byte>) { !Vacant(e) && NameOf(e) == name && IsDirectory(AttrOf(e)) }

  method HasDirectory(d: seq<byte>, name: seq<byte>) returns (found: bool)
    ensures found <==> exists i :: 0 <= i < |SlotsIn(d)| && NamesDirectory(SlotsIn(d)[i], name)
    ensures found <==> exists i :: 0 <= i < |SlotsIn(d)| && var e := SlotsIn(d)[i];
                         e[0] != 0x00 && e[0] != 0xE5 && e[..11] == name && e[11] / 16 % 2 == 1
  {
    ghost var slots := SlotsIn(d);
    var i := 0;
    while i < |d| / DIRENT
      invariant 0 <= i <= |d| / DIRENT && forall j :: 0 <= j < i ==> !NamesDirectory(slots[j], name)
    {
      assert slots[i] == SlotAt(d, i);
      if NamesDirectory(SlotAt(d, i), name) {
        return true;
      }
      i := i + 1;
    }
    found := false;
  }

  ghost predicate Full(slots: seq<Slot>) { forall j :: 0 <= j < |slots| ==> !Vacant(slots[j]) }

  method FindVacant(d: seq<byte>) returns (i: nat)
    ensures i <= |d| / DIRENT
    ensures i < |d| / DIRENT ==> FirstVacant(SlotsIn(d), i)
    ensures i == |d| / DIRENT ==> Full(SlotsIn(d))
    ensures i < |d| / DIRENT ==> SlotsIn(d)[i][0] in {0x00, 0xE5}
    ensures forall j :: 0 <= j < i ==> SlotsIn(d)[j][0] !in {0x00, 0xE5}
  {
    ghost var slots := SlotsIn(d);
    i := 0;
    while i < |d| / DIRENT
      invariant 0 <= i <= |d| / DIRENT && forall j :: 0 <= j < i ==> !Vacant(slots[j])
    {
      assert slots[i] == SlotAt(d, i);
      if Vacant(SlotAt(d, i)) {
        return;
      }
      i := i + 1;
    }
  }

  lemma UsedKeptClaim(o: Snapshot, c: nat)
    requires LeastFree(o.fat, o.hint, c) && c !in o.chains
    ensures UsedKept(o, Snapshot(o.fat[c := EOC], o.data, o.chains[c := [c]], c)) && UsedKept(o, o)
    ensures o.fat[c := EOC][c := EOC] == o.fat[c := EOC]
  {}

  /**
   * Adds an entry for the first name of the path, unless a directory of that name is there: a fresh cleared cluster,
   * and the first vacant slot of the directory's first cluster. `c` is the new cluster, 0 when none was added.
   */
  method CreateDirent(v: Volume, dir: nat, path: seq<byte>, attr: nat) returns (st: Status, ghost c: nat, ghost i: nat)
    requires v.Valid() && (dir < 2 || dir in v.chains)
    modifies v
    ensures v.Valid() && v.faults >= old(v.faults)
    ensures st == Ok ==> dir in v.chains && dir < |old(v.data)| && Stripped(path) != []
    ensures st == Ok && c != 0 ==>
              c < WORD && Created(old(Now(v)), Now(v), dir, i, MakeSlot(Name83(FirstName(path)), attr % 256, c), c)
    ensures st == Ok && c == 0 ==>
              && Now(v) == old(Now(v))
              && exists j :: 0 <= j < |SlotsIn(v.data[dir])|
                  && NamesDirectory(SlotsIn(v.data[dir])[j], Name83(FirstName(path)))
    ensures st == Error ==> UsedKept(old(Now(v)), Now(v)) && v.data == old(v.data)
    ensures st == Error && v.faults == old(v.faults) && dir >= 2 && Stripped(path) != [] && dir < |v.data| ==>
              Full(SlotsIn(v.data[dir])) || NoneFree(v.fat, v.lastAllocated, |v.fat|)
    ensures old(Covered(v.fat, v.g.maxCluster, v.chains)) ==> Covered(v.fat, v.g.maxCluster, v.chains)
  {
    hide Represents, Forest, TailFull, Covered, NoneFree, OnChain, IsChain, UsedKept, Name83, SlotsIn, MakeSlot,
         Vacant, NamesDirectory, Full, FirstVacant, Created;
    c, i := 0, 0;
    st := Error;
    ghost var o := Now(v);
    FatSize(v.disk, v.g, v.fat, v.data);
    UsedKeptSelf(o);
    var noBuffer := v.Fails();
    if noBuffer {
      return;
    }
    VolumeUniform(v);
    if dir >= 2 {
      ChainFacts(v, dir);
    }
    var d;
    st, d := v.ReadCluster(dir);
    if st == Error {
      return;
    }
    var name, rest;
    st, name, rest := WalkDirPath(path);
    if st == Error {
      return;
    }
    var known := HasDirectory(d, name);
    if known {
      return;
    }
    var at := FindVacant(d);
    if at == |d| / DIRENT {
      st := Error;
      return;
    }
    i := at;
    st, c := InsertEntry(v, dir, d, at, name, attr);
  }

  lemma UsedKeptSelf(o: Snapshot)
    ensures UsedKept(o, o)
  {}

  method InsertEntry(v: Volume, dir: nat, d: seq<byte>, at: nat, name: seq<byte>, attr: nat)
    returns (st: Status, ghost c: nat)
    requires v.Valid() && dir in v.chains && 2 <= dir < v.g.maxCluster && dir < |v.data| && d == v.data[dir]
    requires |d| == v.g.ClusterSize()
    requires |name| == 11 && at < |d| / DIRENT && FirstVacant(SlotsIn(d), at)
    modifies v
    ensures v.Valid() && v.faults >= old(v.faults) && dir in v.chains
    ensures st == Ok ==> 0 < c < WORD && Created(old(Now(v)), Now(v), dir, at, MakeSlot(name, attr % 256, c), c)
    ensures st == Error ==> UsedKept(old(Now(v)), Now(v)) && v.data == old(v.data)
    ensures st == Error && v.faults == old(v.faults) ==> NoneFree(v.fat, v.lastAllocated, |v.fat|)
    ensures old(Covered(v.fat, v.g.maxCluster, v.chains)) ==> Covered(v.fat, v.g.maxCluster, v.chains)
  {
    hide Represents, Forest, TailFull, Covered, NoneFree, OnChain, UsedKept, SlotsIn, MakeSlot, Vacant, FirstVacant,
         SetSlot, EntryWritten;
    c := 0;
    ghost var o := Now(v);
    FatSize(v.disk, v.g, v.fat, v.data);
    UsedKeptSelf(o);
    var cluster := v.AllocCluster();
    if cluster == INVALID_CLUSTER {
      st := Error;
      return;
    }
    UsedKeptClaim(o, cluster);
    st := v.SetCluster(cluster, EOC);
    if st == Error {
      return;
    }
    c := cluster;
    st := v.WriteCluster(dir, SetSlot(d, at, MakeSlot(name, attr % 256, cluster)));
    st := v.WriteCluster(cluster, seq(|d|, _ => 0));
  }

  /** The entry does not look like a long-name entry, nor like a deleted one. */
  predicate Visible(name: seq<byte>, attr: nat) { attr % 16 != LONG_NAME && !(name != [] && name[0] == DELETED) }

  lemma SubString(p: seq<byte>)
    requires IsString(p)
    ensures IsString(FirstName(p))
  {
    var q := Stripped(p);
    assert forall b :: b in q ==> b in p;
    assert forall b :: b in FirstName(p) ==> b in q;
  }

  /** Every other name in the directory is looked up as before. */
  ghost predicate OtherNamesKept(o: Snapshot, n: Snapshot, dir: nat, created: seq<byte>) {
    forall name :: name != created ==>
        Lookup(Entries(n.data, n.chains, dir), name) == Lookup(Entries(o.data, o.chains, dir), name)
  }

  /** Every other directory has the entries it had. */
  ghost predicate OtherDirsKept(o: Snapshot, n: Snapshot, dir: nat) {
    forall other :: other in o.chains && other != dir ==>
        Entries(n.data, n.chains, other) == Entries(o.data, o.chains, other)
  }

  lemma CreatedLookups(o: Snapshot, n: Snapshot, max: nat, dir: nat, i: nat, path: seq<byte>, attr: nat, c: nat)
    requires IsString(path) && attr < 256 && c < WORD
    requires Created(o, n, dir, i, MakeSlot(Name83(FirstName(path)), attr, c), c)
    requires Forest(o.fat, max, o.chains) && |o.data| == max
    requires Tidy(Entries(o.data, o.chains, dir))
    requires Lookup(Entries(o.data, o.chains, dir), Name83(FirstName(path))) == None
    ensures Tidy(Entries(n.data, n.chains, dir)) && Empty(Entries(n.data, n.chains, c)) && c in n.chains
    ensures var r := Lookup(Entries(n.data, n.chains, dir), Name83(FirstName(path)));
            if Visible(FirstName(path), attr) then r.Some? && ClusterOf(r.value) == c && SizeOf(r.value) == 0
                && AttrOf(r.value) == attr else r == None
    ensures OtherNamesKept(o, n, dir, Name83(FirstName(path))) && OtherDirsKept(o, n, dir)
  {
    CreatedChain(o, n, dir, i, MakeSlot(Name83(FirstName(path)), attr, c), c);
    hide Name83, SlotsIn, MakeSlot, Entries, Lookup, Tidy, Created, Empty, Forest, ClusterOf, SizeOf, AttrOf,
         FirstVacant, FirstName;
    var name83 := Name83(FirstName(path));
    var e, slots := MakeSlot(name83, attr, c), Entries(o.data, o.chains, dir);
    SubString(path);
    FirstByte(FirstName(path));
    MadeSlot(name83, attr, c);
    CreatedEntries(o, n, max, dir, i, e, c, dir);
    InsertMade(slots, i, name83, attr, c);
    forall name | name != name83 ensures Lookup(slots[i := e], name) == Lookup(slots, name) {
      InsertFound(slots, i, name83, attr, c, name);
    }
    forall other | other in o.chains && other != dir
      ensures Entries(n.data, n.chains, other) == Entries(o.data, o.chains, other)
    {
      CreatedEntries(o, n, max, dir, i, e, c, other);
    }
  }

  lemma CreatedChain(o: Snapshot, n: Snapshot, dir: nat, i: nat, e: Slot, c: nat)
    requires Created(o, n, dir, i, e, c)
    ensures c in n.chains
  {}

  lemma InsertMade(slots: seq<Slot>, i: nat, name: seq<byte>, attr: nat, c: nat)
    requires Tidy(slots) && FirstVacant(slots, i) && |name| == 11 && name[0] != FREE && attr < 256 && c < WORD
    requires Lookup(slots, name) == None
    ensures var r := Lookup(slots[i := MakeSlot(name, attr, c)], name);
            r == if attr % 16 != LONG_NAME && name[0] != DELETED then Some(MakeSlot(name, attr, c)) else None
    ensures Tidy(slots[i := MakeSlot(name, attr, c)])
  {
    MadeSlot(name, attr, c);
    hide MakeSlot, Lookup, ClusterOf, SizeOf, Tidy, FirstVacant;
    InsertFound(slots, i, name, attr, c, name);
    if !(attr % 16 != LONG_NAME && name[0] != DELETED) { InsertOther(slots, i, MakeSlot(name, attr, c), name); }
  }

  /**
   * A new name in a tidy directory can be looked up once its entry is created, and nothing else changes for lookups.
   */
  method CreateThenSearch(v: Volume, dir: nat, path: seq<byte>, attr: nat)
    returns (st: Status, cluster: nat, size: nat, found: nat, ghost c: nat)
    requires v.Valid() && dir in v.chains && IsString(path) && attr < 256
    requires Tidy(Entries(v.data, v.chains, dir))
    requires Lookup(Entries(v.data, v.chains, dir), Name83(FirstName(path))) == None
    modifies v
    ensures v.Valid()
    ensures c != 0 ==> c in v.chains && Tidy(Entries(v.data, v.chains, dir)) && Empty(Entries(v.data, v.chains, c))
    ensures c != 0 && v.faults == old(v.faults) ==> (st == Ok <==> Visible(FirstName(path), attr))
    ensures c != 0 && st == Ok ==> cluster == c && size == 0 && found == attr
    ensures c != 0 ==>
              && OtherNamesKept(old(Now(v)), Now(v), dir, Name83(FirstName(path)))
              && OtherDirsKept(old(Now(v)), Now(v), dir)
  {
    hide Represents, Forest, TailFull, Covered, NoneFree, OnChain, IsChain, UsedKept, Name83, SlotsIn, MakeSlot,
         Entries, Lookup, Tidy, Created, Empty, ClusterOf, SizeOf, AttrOf, Visible, FirstName, NamesDirectory,
         OtherNamesKept, OtherDirsKept, IsString, Stripped, SegmentLength;
    cluster, size, found := 0, 0, 0;
    ghost var o, i := Now(v), 0;
    FatSize(v.disk, v.g, v.fat, v.data);
    st, c, i := CreateDirent(v, dir, path, attr);
    if st == Error {
      c := 0;
      return;
    }
    var n, rest;
    st, n, rest := WalkDirPath(path);
    if c != 0 {
      CreatedLookups(o, Now(v), v.g.maxCluster, dir, i, path, attr, c);
    }
    NoSuchDir(v, dir, n);
    st, cluster, size, found := SearchDir(v, dir, n);
  }

  /** With the new cluster among the directories, the tree stays closed. */
  lemma CreatedTree(o: Snapshot, n: Snapshot, max: nat, dir: nat, i: nat, e: Slot, c: nat, dirs: set<nat>)
    requires Created(o, n, dir, i, e, c) && Forest(o.fat, max, o.chains) && |o.data| == max && ClusterOf(e) == c
    requires TreeOk(o.data, o.chains, dirs) && dir in dirs
    ensures TreeOk(n.data, n.chains, dirs + {c})
  {
    CreatedEntries(o, n, max, dir, i, e, c, dir);
    hide Forest, Entries, ClusterOf, FirstVacant;
    var dirs' := dirs + {c};
    forall d, j | d in dirs' && 0 <= j < |Entries(n.data, n.chains, d)|
      ensures LeadsInto(Entries(n.data, n.chains, d)[j], dirs')
    {
      if d in dirs {
        CreatedEntries(o, n, max, dir, i, e, c, d);
        assert (d == dir && j == i) || LeadsInto(Entries(o.data, o.chains, d)[j], dirs);
      }
    }
  }
}
