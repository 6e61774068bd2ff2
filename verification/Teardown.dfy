/** Removing empty tables and owned frames from the forest: the steps of tearing a user address space down. */
module Teardown {
  import opened Common
  import opened PageTables
  import opened PageForest
  import opened PageWrites
  import opened Paging
  import opened Vmm

  /** Entry `k` of `t` links the empty table `c`, and lies in the part of the forest no other directory shares. */
  ghost predicate LinksPrunable(mem: Mem, F: Forest, t: nat, k: nat, c: nat) {
    && t in F.path && |F.path[t].idx| <= 2 && k < ENTRIES
    && !(F.path[t].idx == [] && k >= KERNEL_START)
    && IsLink(Load(mem, t, k)) && FrameOf(Load(mem, t, k)) == c
    && c in F.path && F.path[c] == Path(F.path[t].root, F.path[t].idx + [k])
    && forall i :: 0 <= i < ENTRIES ==> !Present(Load(mem, c, i))
  }

  lemma {:induction false} PruneDescend(mem: Mem, mem': Mem, F: Forest, t: nat, k: nat, c: nat, r: nat, idx: seq<nat>)
    requires WF(mem, F) && LinksPrunable(mem, F, t, k, c) && AgreeBut(mem, mem', F, t, k) && !Present(Load(mem', t, k))
    requires r in F.roots && |idx| <= 3 && Digits(idx)
    ensures Descend(mem, r, idx).Some? && Descend(mem, r, idx).value != c ==>
              Descend(mem', r, idx) == Descend(mem, r, idx)
    ensures Descend(mem, r, idx) == None || Descend(mem, r, idx) == Some(c) ==>
              Descend(mem', r, idx) == None || Descend(mem', r, idx) == Some(c)
  {
    hide Present, Huge, FrameOf, WF;
    if idx != [] {
      var d := |idx| - 1;
      PruneDescend(mem, mem', F, t, k, c, r, idx[..d]);
      DescendPath(mem, F, r, idx[..d]);
    }
  }

  lemma PruneWalk(mem: Mem, mem': Mem, F: Forest, t: nat, k: nat, c: nat, r: nat, ix: seq<nat>)
    requires WF(mem, F) && LinksPrunable(mem, F, t, k, c) && AgreeBut(mem, mem', F, t, k) && !Present(Load(mem', t, k))
    requires r in F.roots && IxOk(ix)
    ensures Walk(mem', r, ix) == Walk(mem, r, ix)
  {
    hide Present, Huge, FrameOf, WF;
    PruneDescend(mem, mem', F, t, k, c, r, ix[..2]);
    DescendPath(mem, F, r, ix[..2]);
    DescendPath(mem, F, r, ix[..3]);
    assert ix[..3][..2] == ix[..2];
  }

  lemma PruneLeads(mem: Mem, mem': Mem, F: Forest, t: nat, k: nat, c: nat, f: nat)
    requires WF(mem, F) && LinksPrunable(mem, F, t, k, c) && AgreeBut(mem, mem', F, t, k) && !Present(Load(mem', t, k))
    requires f in F.path && f != c
    ensures Leads(mem', F.path[f], f)
  {
    hide Present, Huge, FrameOf, Descend;
    assert PathOk(F, f) && Leads(mem, F.path[f], f);
    var p := F.path[f];
    if |p.idx| <= 3 {
      PruneDescend(mem, mem', F, t, k, c, p.root, p.idx);
    } else {
      PruneDescend(mem, mem', F, t, k, c, p.root, p.idx[..3]);
      DescendPath(mem, F, p.root, p.idx[..3]);
    }
  }

  /** A table is linked from one entry only. */
  lemma ChildInjective(mem: Mem, F: Forest, t: nat, k: nat, g: nat, i: nat)
    requires WF(mem, F) && t in F.path && g in F.path && |F.path[g].idx| <= 3 && |F.path[t].idx| <= 3
    requires !(F.path[t].idx == [] && k >= KERNEL_START)
    requires F.Child(F.path[g], i) == Path(F.path[t].root, F.path[t].idx + [k])
    ensures g == t && i == k
  {
    hide Present, Huge, FrameOf, Leads, EntryOk;
    assert PathOk(F, t) && PathOk(F, g);
    var a, b := F.path[g].idx, F.path[t].idx;
    assert a + [i] == b + [k];
    assert a == (a + [i])[..|a|] == b;
    assert i == (a + [i])[|a|] == k;
    PathInjective(mem, F, g, t);
  }

  lemma PruneEntryOk(mem: Mem, mem': Mem, F: Forest, t: nat, k: nat, c: nat, g: nat, i: nat)
    requires WF(mem, F) && LinksPrunable(mem, F, t, k, c) && AgreeBut(mem, mem', F, t, k) && !Present(Load(mem', t, k))
    requires g in F.path && g != c && |F.path[g].idx| <= 2 && i < ENTRIES
    ensures EntryOk(mem', Dropped(F, c), g, i)
  {
    hide Present, Huge, FrameOf, Leads;
    assert EntryOk(mem, F, g, i);
    if !(g == t && i == k) && IsLink(Load(mem, g, i)) && FrameOf(Load(mem, g, i)) == c {
      ChildInjective(mem, F, t, k, g, i);
    }
  }

  lemma PruneWF(mem: Mem, mem': Mem, F: Forest, t: nat, k: nat, c: nat)
    requires WF(mem, F) && LinksPrunable(mem, F, t, k, c) && AgreeBut(mem, mem', F, t, k) && !Present(Load(mem', t, k))
    requires Sized(mem', F)
    ensures WF(mem', Dropped(F, c))
  {
    hide Present, Huge, FrameOf, Leads, EntryOk;
    var G := Dropped(F, c);
    forall f | f in G.path ensures PathOk(G, f) && Leads(mem', G.path[f], f) {
      assert PathOk(F, f);
      PruneLeads(mem, mem', F, t, k, c, f);
    }
    forall g, i | g in G.path && |G.path[g].idx| <= 2 && 0 <= i < ENTRIES ensures EntryOk(mem', G, g, i) {
      PruneEntryOk(mem, mem', F, t, k, c, g, i);
    }
    NotARoot(F, c);
  }

  lemma NotARoot(F: Forest, c: nat)
    requires Rooted(F) && c in F.path && F.path[c].idx != []
    ensures c !in F.roots
  {}

  lemma PruneUpper(mem: Mem, mem': Mem, F: Forest, t: nat, k: nat)
    requires WF(mem, F) && UpperLinked(mem, F.roots) && AgreeBut(mem, mem', F, t, k)
    requires t in F.path && !(F.path[t].idx == [] && k >= KERNEL_START)
    ensures UpperLinked(mem', F.roots)
  {
    hide Present, Huge, FrameOf, Leads, EntryOk;
    forall r, i | r in F.roots && KERNEL_START <= i < ENTRIES ensures IsLink(Load(mem', r, i)) {
      assert IsLink(Load(mem, r, i)) && F.path[r].idx == [];
    }
  }

  /** Unlinking an empty table of one directory changes no translation anywhere. */
  lemma PruneTable(mem: Mem, F: Forest, t: nat, k: nat, c: nat)
    requires WF(mem, F) && UpperLinked(mem, F.roots) && LinksPrunable(mem, F, t, k, c)
    ensures t in mem && |mem[t]| == ENTRIES
    ensures var mem' := Store(mem, t, k, 0);
            WF(mem', Dropped(F, c)) && UpperLinked(mem', F.roots) && SameWalks(mem, mem', F.roots)
  {
    assert !Present(0);
    hide Present, Huge, FrameOf, WF, Walk, UpperLinked;
    SizedAt(mem, F, t);
    var mem' := Store(mem, t, k, 0);
    StoreAgrees(mem, F, t, k, 0);
    StoreSized(mem, F, t, k, 0);
    PruneWF(mem, mem', F, t, k, c);
    forall r, ix | r in F.roots && IxOk(ix) ensures Walk(mem', r, ix) == Walk(mem, r, ix) {
      PruneWalk(mem, mem', F, t, k, c, r, ix);
    }
    PruneUpper(mem, mem', F, t, k);
  }

  // ---------------------------------------------------------------- what lies below a table

  /** The path continues `p` with an index below `n`. */
  predicate Under(q: Path, p: Path, n: nat) {
    q.root == p.root && |q.idx| > |p.idx| && q.idx[..|p.idx|] == p.idx && q.idx[|p.idx|] < n
  }

  /** The frames below the first `n` entries of the table at `p`: tables and owned data frames alike. */
  ghost function Below(F: Forest, p: Path, n: nat): set<nat> {
    set f | f in F.path && Under(F.path[f], p, n)
  }

  ghost function Pruned(F: Forest, p: Path, n: nat): Forest {
    F.(path := map f | f in F.path && !Under(F.path[f], p, n) :: F.path[f])
  }

  /** Removing what is below entry `i`, and then the frame at entry `i` itself, removes one more entry's worth. */
  lemma PrunedStep(mem: Mem, F: Forest, p: Path, i: nat, c: nat)
    requires WF(mem, F) && c in F.path && F.path[c] == Path(p.root, p.idx + [i])
    ensures Dropped(Pruned(Pruned(F, p, i), F.path[c], ENTRIES), c) == Pruned(F, p, i + 1)
    ensures Below(F, p, i + 1) == Below(F, p, i) + Below(Pruned(F, p, i), F.path[c], ENTRIES) + {c}
    ensures Below(F, p, i) !! Below(Pruned(F, p, i), F.path[c], ENTRIES)
    ensures c !in Below(F, p, i) && c !in Below(Pruned(F, p, i), F.path[c], ENTRIES)
  {
    hide WF, Leads;
    var q := F.path[c];
    forall f | f in F.path ensures
        Under(F.path[f], p, i + 1) <==> Under(F.path[f], p, i) || Under(F.path[f], q, ENTRIES) || f == c
    {
      UnderStep(mem, F, p, i, c, f);
    }
    forall f | f in F.path && Under(F.path[f], q, ENTRIES) ensures !Under(F.path[f], p, i) {
      UnderDeeper(F.path[f], p, i);
    }
    assert Dropped(Pruned(Pruned(F, p, i), q, ENTRIES), c).path == Pruned(F, p, i + 1).path;
  }

  lemma UnderDeeper(q: Path, p: Path, i: nat)
    requires Under(q, Path(p.root, p.idx + [i]), ENTRIES)
    ensures q.idx[|p.idx|] == i && q.idx[..|p.idx|] == p.idx
  {
    var d := |p.idx|;
    assert q.idx[..d + 1] == p.idx + [i];
    assert q.idx[..d + 1][..d] == q.idx[..d] && q.idx[..d + 1][d] == q.idx[d];
  }

  lemma UnderStep(mem: Mem, F: Forest, p: Path, i: nat, c: nat, f: nat)
    requires WF(mem, F) && c in F.path && F.path[c] == Path(p.root, p.idx + [i]) && f in F.path
    ensures Under(F.path[f], p, i + 1) <==> Under(F.path[f], p, i) || Under(F.path[f], F.path[c], ENTRIES) || f == c
  {
    hide Leads, EntryOk;
    var q := F.path[f];
    var d := |p.idx|;
    assert PathOk(F, f);
    if Under(q, F.path[c], ENTRIES) { UnderDeeper(q, p, i); }
    if |q.idx| > d && q.root == p.root && q.idx[..d] == p.idx && q.idx[d] == i {
      assert q.idx[..d + 1] == p.idx + [i];
      if |q.idx| == d + 1 {
        assert q.idx == q.idx[..d + 1];
        PathInjective(mem, F, f, c);
      }
    }
  }

  /** A descent stops at an entry that is no link. */
  lemma {:induction false} DescendBlocked(mem: Mem, r: nat, idx: seq<nat>, m: nat, t: nat)
    requires m < |idx| && Descend(mem, r, idx[..m]) == Some(t) && !IsLink(Load(mem, t, idx[m]))
    ensures Descend(mem, r, idx) == None
  {
    hide Present, Huge, FrameOf;
    var d := |idx| - 1;
    if m < d {
      assert idx[..d][..m] == idx[..m];
      DescendBlocked(mem, r, idx[..d], m, t);
    }
  }

  /** Nothing lies below an entry that is not present. */
  lemma AbsentNothingBelow(mem: Mem, F: Forest, t: nat, i: nat)
    requires WF(mem, F) && t in F.path && |F.path[t].idx| <= 3 && !Present(Load(mem, t, i))
    ensures Pruned(F, F.path[t], i + 1) == Pruned(F, F.path[t], i)
    ensures Below(F, F.path[t], i + 1) == Below(F, F.path[t], i)
  {
    hide Present, Huge, FrameOf, WF;
    var p := F.path[t];
    forall f | f in F.path ensures Under(F.path[f], p, i + 1) <==> Under(F.path[f], p, i) {
      if Under(F.path[f], p, i + 1) && !Under(F.path[f], p, i) { AbsentNotUnder(mem, F, t, i, f); }
    }
    assert Pruned(F, p, i + 1).path == Pruned(F, p, i).path;
  }

  lemma AbsentNotUnder(mem: Mem, F: Forest, t: nat, i: nat, f: nat)
    requires WF(mem, F) && t in F.path && f in F.path && |F.path[t].idx| <= 3 && !Present(Load(mem, t, i))
    ensures var q, p := F.path[f], F.path[t];
            !(q.root == p.root && |q.idx| > |p.idx| && q.idx[..|p.idx|] == p.idx && q.idx[|p.idx|] == i)
  {
    hide Present, Huge, FrameOf;
    var q, p := F.path[f], F.path[t];
    assert Leads(mem, q, f) && Leads(mem, p, t);
    var d := |p.idx|;
    if q.root == p.root && |q.idx| > d && q.idx[..d] == p.idx && q.idx[d] == i {
      var idx := if |q.idx| <= 3 then q.idx else q.idx[..3];
      if d < |idx| {
        assert idx[..d] == q.idx[..d];
        DescendBlocked(mem, q.root, idx, d, t);
      }
    }
  }

  // ---------------------------------------------------------------- address spaces that own what they map

  /**
   * In the part of the forest that belongs to one directory alone, pages are 4 KiB and map frames the directory
   * owns, and every frame is one the PMM manages.
   */
  ghost predicate Exclusive(mem: Mem, F: Forest, user: nat, maxPages: nat) {
    && (forall f, i :: f in F.path && F.path[f].root == user && |F.path[f].idx| == 2 && 0 <= i < ENTRIES ==>
          (Present(Load(mem, f, i)) ==> !Huge(Load(mem, f, i))))
    && (forall f, i :: f in F.path && F.path[f].root == user && |F.path[f].idx| == 3 && 0 <= i < ENTRIES ==>
          OwnsLeaf(mem, F, f, i))
    && (forall f :: f in F.path && F.path[f].root == user && F.path[f].idx != [] ==> 0 < f < maxPages)
  }

  ghost predicate OwnsLeaf(mem: Mem, F: Forest, t: nat, i: nat)
    requires t in F.path
  {
    Present(Load(mem, t, i)) ==>
      FrameOf(Load(mem, t, i)) in F.path && F.path[FrameOf(Load(mem, t, i))] == LeafPath(F, t, i)
  }

  /** Clearing one entry, and dropping the frame it led to, keeps the address space exclusive. */
  lemma ExclusiveDrop(mem: Mem, mem': Mem, F: Forest, user: nat, maxPages: nat, t: nat, k: nat, c: nat)
    requires WF(mem, F) && Exclusive(mem, F, user, maxPages) && AgreeBut(mem, mem', F, t, k)
    requires !Present(Load(mem', t, k))
    requires t in F.path && |F.path[t].idx| <= 3 && !(F.path[t].idx == [] && k >= KERNEL_START)
    requires c in F.path && F.path[c] == Path(F.path[t].root, F.path[t].idx + [k])
    ensures Exclusive(mem', Dropped(F, c), user, maxPages)
  {
    hide Present, Huge, FrameOf, WF;
    var G := Dropped(F, c);
    forall f, i | f in G.path && G.path[f].root == user && |G.path[f].idx| == 3 && 0 <= i < ENTRIES
      ensures OwnsLeaf(mem', G, f, i)
    {
      assert OwnsLeaf(mem, F, f, i);
      if Present(Load(mem', f, i)) && FrameOf(Load(mem, f, i)) == c {
        LeafIsChild(mem, F, f, i);
        ChildInjective(mem, F, t, k, f, i);
      }
    }
  }

  lemma LeafIsChild(mem: Mem, F: Forest, t: nat, i: nat)
    requires WF(mem, F) && t in F.path && |F.path[t].idx| == 3
    ensures LeafPath(F, t, i) == F.Child(F.path[t], i)
  {
    hide Leads, EntryOk;
    assert PathOk(F, t);
  }

  /** The pages below the first `n` entries of a table of `user` are unmapped; nothing else changed. */
  ghost predicate BelowCleared(mem: Mem, mem': Mem, roots: set<nat>, p: Path, n: nat) {
    forall r, ix :: r in roots && IxOk(ix) ==>
      Walk(mem', r, ix) == if Under(Path(r, ix), p, n) then None else Walk(mem, r, ix)
  }

  lemma BelowClearedStart(mem: Mem, roots: set<nat>, p: Path)
    ensures BelowCleared(mem, mem, roots, p, 0)
  {}

  lemma AbsentWalk(mem: Mem, F: Forest, t: nat, i: nat, ix: seq<nat>)
    requires WF(mem, F) && t in F.path && |F.path[t].idx| <= 3 && !Present(Load(mem, t, i)) && IxOk(ix)
    requires ix[..|F.path[t].idx|] == F.path[t].idx && ix[|F.path[t].idx|] == i
    ensures Walk(mem, F.path[t].root, ix) == None
  {
    hide Present, Huge, FrameOf;
    var p := F.path[t];
    var d := |p.idx|;
    assert Leads(mem, p, t) && PathOk(F, t);
    if d < 2 {
      assert ix[..2][..d] == ix[..d];
      DescendBlocked(mem, p.root, ix[..2], d, t);
    } else if d == 3 {
      WalkViaTable(mem, F, p.root, ix);
    }
  }

  lemma BelowClearedAbsent(mem0: Mem, mem: Mem, F: Forest, t: nat, i: nat)
    requires WF(mem, F) && t in F.path && |F.path[t].idx| <= 3 && !Present(Load(mem, t, i))
    requires BelowCleared(mem0, mem, F.roots, F.path[t], i)
    ensures BelowCleared(mem0, mem, F.roots, F.path[t], i + 1)
  {
    hide Present, Huge, FrameOf, WF, Walk;
    var p := F.path[t];
    forall r, ix | r in F.roots && IxOk(ix)
      ensures Walk(mem, r, ix) == if Under(Path(r, ix), p, i + 1) then None else Walk(mem0, r, ix)
    {
      if r == p.root && ix[..|p.idx|] == p.idx && ix[|p.idx|] == i { AbsentWalk(mem, F, t, i, ix); }
    }
  }

  lemma BelowClearedTable(mem0: Mem, mem1: Mem, mem2: Mem, mem3: Mem, roots: set<nat>, p: Path, i: nat)
    requires |p.idx| <= 2 && i < ENTRIES
    requires BelowCleared(mem0, mem1, roots, p, i)
    requires BelowCleared(mem1, mem2, roots, Path(p.root, p.idx + [i]), ENTRIES)
    requires SameWalks(mem2, mem3, roots)
    ensures BelowCleared(mem0, mem3, roots, p, i + 1)
  {
    hide Walk;
    var q := Path(p.root, p.idx + [i]);
    forall r, ix | r in roots && IxOk(ix)
      ensures Walk(mem3, r, ix) == if Under(Path(r, ix), p, i + 1) then None else Walk(mem0, r, ix)
    {
      assert Walk(mem3, r, ix) == Walk(mem2, r, ix);
      assert Walk(mem2, r, ix) == if Under(Path(r, ix), q, ENTRIES) then None else Walk(mem1, r, ix);
      assert Walk(mem1, r, ix) == if Under(Path(r, ix), p, i) then None else Walk(mem0, r, ix);
      UnderNext(r, ix, p, i);
    }
  }

  lemma UnderNext(r: nat, ix: seq<nat>, p: Path, i: nat)
    requires IxOk(ix) && |p.idx| <= 2
    ensures Under(Path(r, ix), p, i + 1) <==>
              Under(Path(r, ix), p, i) || Under(Path(r, ix), Path(p.root, p.idx + [i]), ENTRIES)
  {
    var d := |p.idx|;
    assert ix[..d + 1] == ix[..d] + [ix[d]];
    if Under(Path(r, ix), Path(p.root, p.idx + [i]), ENTRIES) { UnderDeeper(Path(r, ix), p, i); }
  }

  /** The page at entry `i` of the last-level table at `p` is unmapped, and nothing else changed. */
  ghost predicate PageCleared(mem: Mem, mem': Mem, roots: set<nat>, p: Path, i: nat) {
    IxOk(p.idx + [i]) && PageChanged(mem, mem', roots, p.root, p.idx + [i], None)
  }

  lemma BelowClearedLeaf(mem0: Mem, mem1: Mem, mem2: Mem, roots: set<nat>, p: Path, i: nat)
    requires |p.idx| == 3 && i < ENTRIES && p.idx[0] < KERNEL_START
    requires BelowCleared(mem0, mem1, roots, p, i)
    requires PageCleared(mem1, mem2, roots, p, i)
    ensures BelowCleared(mem0, mem2, roots, p, i + 1)
  {
    hide Walk;
    var at := p.idx + [i];
    forall r, ix | r in roots && IxOk(ix)
      ensures Walk(mem2, r, ix) == if Under(Path(r, ix), p, i + 1) then None else Walk(mem0, r, ix)
    {
      assert Walk(mem2, r, ix) == if ix == at && Affects(r, p.root, at) then None else Walk(mem1, r, ix);
      assert Walk(mem1, r, ix) == if Under(Path(r, ix), p, i) then None else Walk(mem0, r, ix);
      assert ix == ix[..3] + [ix[3]];
    }
  }

  // ---------------------------------------------------------------- the teardown

  /** The entry leads to the frame whose path continues the table's path by the entry's index. */
  ghost predicate LeadsToChild(mem: Mem, F: Forest, t: nat, i: nat, c: nat) {
    && t in F.path && |F.path[t].idx| <= 3 && i < ENTRIES
    && !(F.path[t].idx == [] && i >= KERNEL_START) && (F.path[t].idx != [] ==> F.path[t].idx[0] < KERNEL_START)
    && Present(Load(mem, t, i)) && FrameOf(Load(mem, t, i)) == c
    && c in F.path && F.path[c] == Path(F.path[t].root, F.path[t].idx + [i])
  }

  lemma ClearEntryWF(mem: Mem, F: Forest, t: nat, i: nat, c: nat)
    requires WF(mem, F) && UpperLinked(mem, F.roots) && LeadsToChild(mem, F, t, i, c)
    requires |F.path[t].idx| <= 2 ==> LinksPrunable(mem, F, t, i, c)
    ensures t in mem && |mem[t]| == ENTRIES
    ensures var mem' := Store(mem, t, i, 0);
            && WF(mem', Dropped(F, c)) && UpperLinked(mem', F.roots)
            && (|F.path[t].idx| <= 2 ==> SameWalks(mem, mem', F.roots))
            && (|F.path[t].idx| == 3 ==> PageCleared(mem, mem', F.roots, F.path[t], i))
  {
    hide Present, Huge, FrameOf, WF, UpperLinked, Walk, PageChanged;
    if |F.path[t].idx| <= 2 {
      PruneTable(mem, F, t, i, c);
    } else {
      var p := F.path[t];
      TablePath(mem, F, t);
      var at := p.idx + [i];
      assert at[..3] == p.idx && at[3] == i;
      LeafUnmapped(mem, F, t, p.root, at);
      DisownIsDrop(mem, F, c);
    }
  }

  lemma TablePath(mem: Mem, F: Forest, t: nat)
    requires WF(mem, F) && t in F.path
    ensures PathOk(F, t) && F.path[t].root in F.roots && Digits(F.path[t].idx)
  {}

  lemma ExclusiveFrame(mem: Mem, F: Forest, user: nat, maxPages: nat, c: nat)
    requires Exclusive(mem, F, user, maxPages) && c in F.path && F.path[c].root == user && F.path[c].idx != []
    ensures 0 < c < maxPages
  {}

  /** Free the frame an entry leads to and zero the entry. */
  method ClearEntry(dirs: Directories, t: nat, i: nat, c: nat, ghost user: nat)
    requires dirs.Valid() && LeadsToChild(dirs.mem, dirs.F, t, i, c) && dirs.F.path[t].root == user
    requires |dirs.F.path[t].idx| <= 2 ==> LinksPrunable(dirs.mem, dirs.F, t, i, c)
    requires Exclusive(dirs.mem, dirs.F, user, dirs.pmm.maxPages)
    modifies dirs`mem, dirs`F, dirs.pmm`usedPages, dirs.pmm`freePages, dirs.pmm`lastFound, dirs.pmm`free,
             dirs.pmm.bitmap
    ensures dirs.Valid() && dirs.F == Dropped(old(dirs.F), c) && dirs.pmm.free == old(dirs.pmm.free) + {c}
    ensures c !in old(dirs.pmm.free) && Exclusive(dirs.mem, dirs.F, user, dirs.pmm.maxPages)
    ensures t in old(dirs.mem) && i < |old(dirs.mem)[t]| && dirs.mem == Store(old(dirs.mem), t, i, 0)
    ensures |old(dirs.F).path[t].idx| <= 2 ==> SameWalks(old(dirs.mem), dirs.mem, dirs.F.roots)
    ensures |old(dirs.F).path[t].idx| == 3 ==>
              PageCleared(old(dirs.mem), dirs.mem, dirs.F.roots, old(dirs.F).path[t], i)
  {
    hide Present, Huge, FrameOf, WF, UpperLinked, Walk, PageCleared, SameWalks, Exclusive, LinksPrunable,
         Pmm.Represents;
    ZeroAbsent();
    ExclusiveFrame(dirs.mem, dirs.F, user, dirs.pmm.maxPages, c);
    FrameAddress(c, 0);
    ClearEntryWF(dirs.mem, dirs.F, t, i, c);
    StoreAgrees(dirs.mem, dirs.F, t, i, 0);
    ExclusiveDrop(dirs.mem, Store(dirs.mem, t, i, 0), dirs.F, user, dirs.pmm.maxPages, t, i, c);
    var st := dirs.pmm.Free(c * PAGE);
    dirs.mem := Store(dirs.mem, t, i, 0);
    dirs.F := Dropped(dirs.F, c);
  }

  /** Tables outside the cleared part keep their entries, and the table itself loses only the first `n`. */
  ghost predicate KeepsOthers(mem: Mem, mem': Mem, F: Forest, t: nat, n: nat)
    requires t in F.path
  {
    && (forall f, j :: f in F.path && |F.path[f].idx| <= 3 && f != t && !Under(F.path[f], F.path[t], n) ==>
          Load(mem', f, j) == Load(mem, f, j))
    && (forall j :: n <= j < ENTRIES ==> Load(mem', t, j) == Load(mem, t, j))
    && (forall j :: 0 <= j < n ==> !Present(Load(mem', t, j)))
  }

  lemma PrunedStart(mem: Mem, F: Forest, t: nat)
    requires t in F.path
    ensures Pruned(F, F.path[t], 0) == F && Below(F, F.path[t], 0) == {} && KeepsOthers(mem, mem, F, t, 0)
  {
    assert Pruned(F, F.path[t], 0).path == F.path;
  }

  lemma PrunedKeeps(F: Forest, t: nat, i: nat)
    requires t in F.path
    ensures var G := Pruned(F, F.path[t], i);
            G.kernel == F.kernel && G.roots == F.roots && t in G.path && G.path[t] == F.path[t]
  {}

  lemma AbsentStep(mem0: Mem, mem: Mem, F: Forest, t: nat, i: nat)
    requires WF(mem0, F) && t in F.path && |F.path[t].idx| <= 3 && i < ENTRIES && WF(mem, Pruned(F, F.path[t], i))
    requires !Present(Load(mem, t, i))
    requires BelowCleared(mem0, mem, F.roots, F.path[t], i) && KeepsOthers(mem0, mem, F, t, i)
    ensures Pruned(F, F.path[t], i + 1) == Pruned(F, F.path[t], i)
    ensures Below(F, F.path[t], i + 1) == Below(F, F.path[t], i)
    ensures BelowCleared(mem0, mem, F.roots, F.path[t], i + 1) && KeepsOthers(mem0, mem, F, t, i + 1)
  {
    hide Present, Huge, FrameOf, WF, BelowCleared, Pruned, Below;
    PrunedKeeps(F, t, i);
    AbsentNothingBelow(mem0, F, t, i);
    BelowClearedAbsent(mem0, mem, Pruned(F, F.path[t], i), t, i);
  }

  /** In an exclusive address space a present entry leads to a table or to an owned frame. */
  lemma PresentLeadsToChild(mem: Mem, F: Forest, t: nat, i: nat, user: nat, maxPages: nat)
    requires WF(mem, F) && Exclusive(mem, F, user, maxPages) && t in F.path && |F.path[t].idx| <= 3 && i < ENTRIES
    requires F.path[t].root == user && user != F.kernel && (F.path[t].idx == [] ==> i < KERNEL_START)
    requires Present(Load(mem, t, i))
    ensures LeadsToChild(mem, F, t, i, FrameOf(Load(mem, t, i)))
    ensures |F.path[t].idx| <= 2 ==> IsLink(Load(mem, t, i))
  {
    hide Present, Huge, FrameOf, WF;
    TablePath(mem, F, t);
    if |F.path[t].idx| <= 2 {
      if |F.path[t].idx| <= 1 { NoHugeAbove(mem, F, t, i); }
      LinkedChild(mem, F, t, i);
    } else {
      assert OwnsLeaf(mem, F, t, i);
    }
  }

  lemma ChildNotAbove(F: Forest, t: nat, i: nat, c: nat)
    requires t in F.path && c in F.path && F.path[c] == Path(F.path[t].root, F.path[t].idx + [i])
    ensures t != c && !Under(F.path[t], F.path[c], ENTRIES)
    ensures Under(F.path[c], F.path[t], i + 1)
  {
    var p := F.path[t];
    assert (p.idx + [i])[..|p.idx|] == p.idx;
  }

  lemma LeafNothingBelow(mem: Mem, F: Forest, c: nat)
    requires WF(mem, F) && c in F.path && |F.path[c].idx| == 4
    ensures Pruned(F, F.path[c], ENTRIES) == F && Below(F, F.path[c], ENTRIES) == {}
  {
    hide Leads, EntryOk;
    forall f | f in F.path ensures !Under(F.path[f], F.path[c], ENTRIES) { assert PathOk(F, f); }
    assert Pruned(F, F.path[c], ENTRIES).path == F.path;
  }

  /** After the tables below it are gone, a linked child can be unlinked. */
  lemma ChildPrunable(mem1: Mem, mem2: Mem, F: Forest, t: nat, i: nat, c: nat)
    requires LeadsToChild(mem1, F, t, i, c) && |F.path[t].idx| <= 2 && IsLink(Load(mem1, t, i))
    requires KeepsOthers(mem1, mem2, F, c, ENTRIES)
    ensures var G := Pruned(F, F.path[c], ENTRIES);
            LeadsToChild(mem2, G, t, i, c) && LinksPrunable(mem2, G, t, i, c) && G.path[t] == F.path[t]
  {
    hide Present, Huge, FrameOf;
    ChildNotAbove(F, t, i, c);
  }

  lemma KeepsOthersStep(mem0: Mem, mem1: Mem, mem2: Mem, F: Forest, t: nat, i: nat, c: nat)
    requires t in F.path && i < ENTRIES && c in F.path && F.path[c] == Path(F.path[t].root, F.path[t].idx + [i])
    requires |F.path[t].idx| <= 3 && KeepsOthers(mem0, mem1, F, t, i)
    requires c in Pruned(F, F.path[t], i).path
    requires mem2 == mem1 || KeepsOthers(mem1, mem2, Pruned(F, F.path[t], i), c, ENTRIES)
    requires t in mem2 && i < |mem2[t]|
    ensures KeepsOthers(mem0, Store(mem2, t, i, 0), F, t, i + 1)
  {
    assert !Present(0);
    hide Present;
    var mem3, p, q := Store(mem2, t, i, 0), F.path[t], F.path[c];
    ChildNotAbove(F, t, i, c);
    forall f, j | f in F.path && |F.path[f].idx| <= 3 && f != t && !Under(F.path[f], p, i + 1)
      ensures Load(mem3, f, j) == Load(mem0, f, j)
    {
      if Under(F.path[f], q, ENTRIES) { UnderDeeper(F.path[f], p, i); }
    }
    forall j | 0 <= j < ENTRIES ensures Load(mem3, t, j) == if j == i then 0 else Load(mem1, t, j) {}
  }

  lemma CountStep(a: set<nat>, b: set<nat>, c: nat, d: set<nat>)
    requires d == a + b + {c} && a !! b && c !in a && c !in b
    ensures |d| == |a| + |b| + 1
  {
    assert |a + b| == |a| + |b|;
  }

  /**
   * The nested loops of vmm_free_user_space, one level: for each present entry clear what lies below it, free the
   * frame, zero the entry. `calls` counts the calls of pmm_free.
   */
  method FreeLevel(dirs: Directories, t: nat, level: nat, n: nat, ghost user: nat) returns (ghost calls: nat)
    requires dirs.Valid() && t in dirs.F.path && |dirs.F.path[t].idx| + level == 3
    requires dirs.F.path[t].root == user && user != dirs.F.kernel
    requires n <= ENTRIES && (dirs.F.path[t].idx == [] ==> n <= KERNEL_START)
    requires Exclusive(dirs.mem, dirs.F, user, dirs.pmm.maxPages)
    modifies dirs`mem, dirs`F, dirs.pmm`usedPages, dirs.pmm`freePages, dirs.pmm`lastFound, dirs.pmm`free,
             dirs.pmm.bitmap
    ensures dirs.Valid() && Exclusive(dirs.mem, dirs.F, user, dirs.pmm.maxPages)
    ensures dirs.F == Pruned(old(dirs.F), old(dirs.F).path[t], n)
    ensures dirs.pmm.free == old(dirs.pmm.free) + Below(old(dirs.F), old(dirs.F).path[t], n)
    ensures calls == |Below(old(dirs.F), old(dirs.F).path[t], n)|
    ensures BelowCleared(old(dirs.mem), dirs.mem, dirs.F.roots, old(dirs.F).path[t], n)
    ensures KeepsOthers(old(dirs.mem), dirs.mem, old(dirs.F), t, n)
    decreases level
  {
    hide Present, Huge, FrameOf, WF, UpperLinked, Walk, PageChanged, Exclusive, Pmm.Represents, BelowCleared,
         Pruned, Below, KeepsOthers;
    ghost var mem0, F0, free0, p := dirs.mem, dirs.F, dirs.pmm.free, dirs.F.path[t];
    calls := 0;
    BelowClearedStart(mem0, F0.roots, p);
    PrunedStart(mem0, F0, t);
    for i := 0 to n
      invariant dirs.Valid() && Exclusive(dirs.mem, dirs.F, user, dirs.pmm.maxPages)
      invariant dirs.F == Pruned(F0, p, i) && dirs.pmm.free == free0 + Below(F0, p, i)
      invariant calls == |Below(F0, p, i)|
      invariant BelowCleared(mem0, dirs.mem, F0.roots, p, i)
      invariant KeepsOthers(mem0, dirs.mem, F0, t, i)
    {
      calls := FreeEntry(dirs, t, level, i, user, mem0, F0, free0, calls);
    }
    PrunedKeeps(F0, t, n);
  }

  method FreeEntry(dirs: Directories, t: nat, level: nat, i: nat, ghost user: nat, ghost mem0: Mem, ghost F0: Forest,
                   ghost free0: set<nat>, ghost calls0: nat)
    returns (ghost calls: nat)
    requires WF(mem0, F0) && t in F0.path && F0.path[t].root == user && user != F0.kernel
    requires |F0.path[t].idx| + level == 3
    requires i < ENTRIES && (F0.path[t].idx == [] ==> i < KERNEL_START)
    requires dirs.Valid() && Exclusive(dirs.mem, dirs.F, user, dirs.pmm.maxPages)
    requires dirs.F == Pruned(F0, F0.path[t], i) && dirs.pmm.free == free0 + Below(F0, F0.path[t], i)
    requires calls0 == |Below(F0, F0.path[t], i)|
    requires BelowCleared(mem0, dirs.mem, F0.roots, F0.path[t], i) && KeepsOthers(mem0, dirs.mem, F0, t, i)
    modifies dirs`mem, dirs`F, dirs.pmm`usedPages, dirs.pmm`freePages, dirs.pmm`lastFound, dirs.pmm`free,
             dirs.pmm.bitmap
    ensures dirs.Valid() && Exclusive(dirs.mem, dirs.F, user, dirs.pmm.maxPages)
    ensures dirs.F == Pruned(F0, F0.path[t], i + 1) && dirs.pmm.free == free0 + Below(F0, F0.path[t], i + 1)
    ensures calls == |Below(F0, F0.path[t], i + 1)|
    ensures BelowCleared(mem0, dirs.mem, F0.roots, F0.path[t], i + 1) && KeepsOthers(mem0, dirs.mem, F0, t, i + 1)
    decreases level, 0
  {
    hide Present, Huge, FrameOf, WF, UpperLinked, Walk, PageChanged, Exclusive, Pmm.Represents, BelowCleared,
         Pruned, Below, KeepsOthers;
    ghost var p := F0.path[t];
    ghost var mem1, F1 := dirs.mem, dirs.F;
    calls := calls0;
    PrunedKeeps(F0, t, i);
    SizedAt(dirs.mem, dirs.F, t);
    var e := dirs.mem[t][i];
    if !Present(e) {
      AbsentStep(mem0, dirs.mem, F0, t, i);
      return;
    }
    var c := FrameOf(e);
    PresentLeadsToChild(dirs.mem, dirs.F, t, i, user, dirs.pmm.maxPages);
    PrunedStep(mem0, F0, p, i, c) by { PrunedFrom(F0, t, i, c); }
    CountStep(Below(F0, p, i), Below(F1, F1.path[c], ENTRIES), c, Below(F0, p, i + 1)) by { PrunedFrom(F0, t, i, c); }
    PrunedFrom(F0, t, i, c);
    if level > 0 {
      var inner := FreeLevel(dirs, c, level - 1, ENTRIES, user);
      calls := calls + inner;
      ChildPrunable(mem1, dirs.mem, F1, t, i, c);
      PrunedKeeps(F1, c, ENTRIES);
    } else {
      LeafNothingBelow(dirs.mem, dirs.F, c);
    }
    ghost var mem2 := dirs.mem;
    ClearEntry(dirs, t, i, c, user);
    calls := calls + 1;
    KeepsOthersStep(mem0, mem1, mem2, F0, t, i, c);
    if level > 0 {
      BelowClearedTable(mem0, mem1, mem2, dirs.mem, F0.roots, p, i);
    } else {
      BelowClearedLeaf(mem0, mem1, dirs.mem, F0.roots, p, i);
    }
  }

  lemma PrunedFrom(F: Forest, t: nat, i: nat, c: nat)
    requires t in F.path && c in Pruned(F, F.path[t], i).path
    ensures c in F.path && Pruned(F, F.path[t], i).path[c] == F.path[c]
  {}
}
