/** User address spaces from creation to teardown: each owns what it maps, and teardown gives all of it back. */
module Lifecycle {
  import opened Common
  import opened PageTables
  import opened PageForest
  import opened PageWrites
  import opened Paging
  import opened Vmm
  import opened Teardown
  import opened Translation
  import Pmm

  /** Every lower-half page of `user` maps a frame recorded as owned at that page. */
  ghost predicate OwnsWalks(mem: Mem, F: Forest, user: nat) {
    forall ix :: IxOk(ix) && ix[0] < KERNEL_START && Walk(mem, user, ix).Some? ==>
      Walk(mem, user, ix).value in F.path && F.path[Walk(mem, user, ix).value] == Path(user, ix)
  }

  /** The frames a user directory owns, tables and data, without the directory's own frame. */
  ghost function Owned(F: Forest, user: nat): set<nat> {
    set f | f in F.path && F.path[f].root == user && F.path[f].idx != []
  }

  ghost predicate AllOwn(mem: Mem, F: Forest, maxPages: nat) {
    && (forall u :: u in F.roots && u != F.kernel ==> OwnsWalks(mem, F, u))
    && (forall u :: u in F.roots && u != F.kernel ==> OwnedBelow(F, u, maxPages))
  }

  ghost predicate OwnedBelow(F: Forest, user: nat, maxPages: nat) {
    forall f :: f in Owned(F, user) ==> 0 < f < maxPages
  }

  /** Owning walks is owning entries. */
  lemma OwnsWalksExclusive(mem: Mem, F: Forest, user: nat, maxPages: nat)
    requires WF(mem, F) && user in F.roots && user != F.kernel
    requires OwnsWalks(mem, F, user) && OwnedBelow(F, user, maxPages)
    ensures Exclusive(mem, F, user, maxPages)
  {
    hide Present, Huge, FrameOf, WF, Walk, OwnsWalks;
    forall f, i | f in F.path && F.path[f].root == user && |F.path[f].idx| == 2 && 0 <= i < ENTRIES
        && Present(Load(mem, f, i))
      ensures !Huge(Load(mem, f, i))
    {
      OwnsNoHuge(mem, F, user, f, i);
    }
    forall f, i | f in F.path && F.path[f].root == user && |F.path[f].idx| == 3 && 0 <= i < ENTRIES
      ensures OwnsLeaf(mem, F, f, i)
    {
      OwnsEntry(mem, F, user, f, i);
    }
    assert forall f :: f in F.path && F.path[f].root == user && F.path[f].idx != [] ==> f in Owned(F, user);
  }

  lemma OwnsEntry(mem: Mem, F: Forest, user: nat, t: nat, i: nat)
    requires WF(mem, F) && user in F.roots && user != F.kernel && OwnsWalks(mem, F, user)
    requires t in F.path && F.path[t].root == user && |F.path[t].idx| == 3 && i < ENTRIES
    ensures OwnsLeaf(mem, F, t, i)
  {
    hide Present, Huge, FrameOf;
    assert PathOk(F, t) && Leads(mem, F.path[t], t);
    var ix := F.path[t].idx + [i];
    assert ix[..3] == F.path[t].idx && IxOk(ix);
    WalkViaTable(mem, F, user, ix);
  }

  lemma OwnsNoHuge(mem: Mem, F: Forest, user: nat, t: nat, i: nat)
    requires WF(mem, F) && user in F.roots && user != F.kernel && OwnsWalks(mem, F, user)
    requires t in F.path && F.path[t].root == user && |F.path[t].idx| == 2 && i < ENTRIES
    requires Present(Load(mem, t, i))
    ensures !Huge(Load(mem, t, i))
  {
    hide Present, Huge, FrameOf;
    var p := F.path[t];
    assert PathOk(F, t) && Leads(mem, p, t);
    var ix := p.idx + [i, 0];
    assert ix[..2] == p.idx && IxOk(ix);
    assert ix[..3][..2] == p.idx && ix[..3][2] == i;
    assert Walk(mem, user, ix).Some? ==>
      var f := Walk(mem, user, ix).value; Leads(mem, F.path[f], f) && F.path[f] == Path(user, ix);
  }

  // ---------------------------------------------------------------- what each operation keeps

  lemma OwnSubset(mem: Mem, mem': Mem, F: Forest, F': Forest, user: nat)
    requires OwnsWalks(mem, F, user)
    requires forall ix :: IxOk(ix) && ix[0] < KERNEL_START && Walk(mem', user, ix).Some? ==>
               Walk(mem', user, ix) == Walk(mem, user, ix)
    requires forall f :: f in F.path && F.path[f].root == user ==> f in F'.path && F'.path[f] == F.path[f]
    ensures OwnsWalks(mem', F', user)
  {
    hide Walk;
  }

  /** Allocating a range keeps every address space in ownership of what it maps. */
  lemma AllocKeepsOwn(mem: Mem, mem': Mem, F: Forest, F': Forest, free: set<nat>, free': set<nat>, maxPages: nat,
                      tables: set<nat>, frames: seq<nat>, inHand: set<nat>, root: nat, virt: nat)
    requires AllOwn(mem, F, maxPages) && root in F.roots
    requires Accounted(F, F', free, free', tables, frames, inHand, root, virt)
    requires RangeMapped(mem, mem', F.roots, root, virt, frames)
    requires forall f :: f in free ==> 0 < f < maxPages
    ensures AllOwn(mem', F', maxPages)
  {
    hide Walk, Ix, AddrAt, OwnsWalks, RangeMapped;
    forall u | u in F'.roots && u != F'.kernel ensures OwnsWalks(mem', F', u) {
      AllocKeepsOwnOne(mem, mem', F, F', tables, frames, root, virt, u);
    }
    forall u, f | u in F'.roots && u != F'.kernel && f in Owned(F', u) ensures 0 < f < maxPages {
      assert OwnedBelow(F, u, maxPages);
      if f in F.path { assert f in Owned(F, u); } else { assert f in free; }
    }
  }

  lemma AllocKeepsOwnOne(mem: Mem, mem': Mem, F: Forest, F': Forest,
                         tables: set<nat>, frames: seq<nat>, root: nat, virt: nat, u: nat)
    requires OwnsWalks(mem, F, u) && u in F.roots && Placed(F, F', tables, frames, root, virt)
    requires RangeMapped(mem, mem', F.roots, root, virt, frames)
    ensures OwnsWalks(mem', F', u)
  {
    hide Walk, Ix, AddrAt, Overlay;
    forall ix | IxOk(ix) && ix[0] < KERNEL_START && Walk(mem', u, ix).Some?
      ensures Walk(mem', u, ix).value in F'.path && F'.path[Walk(mem', u, ix).value] == Path(u, ix)
    {
      var w := Walk(mem, u, ix);
      assert Walk(mem', u, ix) == Overlay(w, u, root, virt, frames, ix);
      OverlayIs(w, u, root, virt, frames, ix);
    }
  }

  lemma {:induction false} OverlayIs(w: Option<nat>, r: nat, root: nat, virt: nat, frames: seq<nat>, ix: seq<nat>)
    ensures var o := Overlay(w, r, root, virt, frames, ix);
            || o == w
            || exists j ::
                 0 <= j < |frames| && o == Some(frames[j]) && ix == Ix(AddrAt(virt, j)) && Affects(r, root, ix)
  {
    hide Ix, AddrAt;
    if frames != [] {
      var n := |frames| - 1;
      OverlayIs(w, r, root, virt, frames[..n], ix);
      if !(ix == Ix(AddrAt(virt, n)) && Affects(r, root, Ix(AddrAt(virt, n)))) {
        var o := Overlay(w, r, root, virt, frames[..n], ix);
        if o != w {
          var j :| 0 <= j < n && o == Some(frames[..n][j]) && ix == Ix(AddrAt(virt, j)) && Affects(r, root, ix);
          assert o == Some(frames[j]);
        }
      }
    }
  }

  lemma CreateKeepsOwn(mem: Mem, mem': Mem, F: Forest, n: nat, maxPages: nat)
    requires AllOwn(mem, F, maxPages) && SameWalks(mem, mem', F.roots) && n !in F.path
    requires forall f :: f in F.path ==> F.path[f].root in F.roots
    requires forall r :: r in F.roots ==> r in F.path
    requires forall ix :: IxOk(ix) && ix[0] < KERNEL_START ==> Walk(mem', n, ix) == None
    ensures AllOwn(mem', WithRoot(F, n), maxPages)
  {
    hide Walk, OwnsWalks, Owned;
    var G := WithRoot(F, n);
    forall u | u in G.roots && u != G.kernel ensures OwnsWalks(mem', G, u) {
      if u == n {
        NewOwns(mem', G, n);
      } else {
        OwnSubset(mem, mem', F, G, u);
      }
    }
    forall u | u in G.roots && u != G.kernel ensures OwnedBelow(G, u, maxPages) {
      NewOwned(F, n, u);
      if u in F.roots { assert OwnedBelow(F, u, maxPages); }
    }
  }

  lemma NewOwned(F: Forest, n: nat, u: nat)
    requires n !in F.path && forall f :: f in F.path ==> F.path[f].root in F.roots
    requires forall r :: r in F.roots ==> r in F.path
    ensures Owned(WithRoot(F, n), u) == if u in F.roots then Owned(F, u) else {}
  {}

  lemma NewOwns(mem: Mem, F: Forest, n: nat)
    requires forall ix :: IxOk(ix) && ix[0] < KERNEL_START ==> Walk(mem, n, ix) == None
    ensures OwnsWalks(mem, F, n)
  {
    hide Walk;
  }

  /** In the directory at the top, everything owned lies below its lower half. */
  lemma OwnedIsBelow(mem: Mem, F: Forest, user: nat)
    requires WF(mem, F) && user in F.roots && user != F.kernel
    ensures F.path[user] == Path(user, []) && Owned(F, user) == Below(F, F.path[user], KERNEL_START)
  {
    hide Leads, EntryOk;
    forall f | f in F.path ensures
        F.path[f].root == user && F.path[f].idx != [] <==> Under(F.path[f], Path(user, []), KERNEL_START)
    {
      assert PathOk(F, f);
    }
  }

  /** The lower half of `user` is unmapped; every other translation, in every directory, is as before. */
  ghost predicate LowerCleared(mem: Mem, mem': Mem, roots: set<nat>, user: nat) {
    forall r, ix :: r in roots && IxOk(ix) ==>
      Walk(mem', r, ix) == if r == user && ix[0] < KERNEL_START then None else Walk(mem, r, ix)
  }

  lemma BelowIsLower(mem: Mem, mem': Mem, roots: set<nat>, user: nat)
    requires BelowCleared(mem, mem', roots, Path(user, []), KERNEL_START)
    ensures LowerCleared(mem, mem', roots, user)
  {
    hide Walk;
    forall r, ix | r in roots && IxOk(ix)
      ensures Walk(mem', r, ix) == if r == user && ix[0] < KERNEL_START then None else Walk(mem, r, ix)
    {
      assert ix[..0] == [];
      assert Under(Path(r, ix), Path(user, []), KERNEL_START) <==> r == user && ix[0] < KERNEL_START;
    }
  }

  lemma TeardownKeepsOwn(mem: Mem, mem': Mem, F: Forest, user: nat, maxPages: nat)
    requires AllOwn(mem, F, maxPages) && LowerCleared(mem, mem', F.roots, user)
    ensures AllOwn(mem', F.(path := F.path - Owned(F, user)), maxPages)
  {
    hide Walk, OwnsWalks;
    var G := F.(path := F.path - Owned(F, user));
    forall u | u in G.roots && u != G.kernel ensures OwnsWalks(mem', G, u) {
      if u == user {
        NewOwns(mem', G, u);
      } else {
        OwnSubset(mem, mem', F, G, u);
      }
    }
    forall u, f | u in G.roots && u != G.kernel && f in Owned(G, u) ensures 0 < f < maxPages {
      assert f in Owned(F, u) && OwnedBelow(F, u, maxPages);
    }
  }

  /**
   * vmm_free_user_space on a directory that owns what its lower half maps. Exactly the frames the address space owns
   * become free, one pmm_free call each; the lower half is unmapped; the upper half, the other directories and the
   * directory's own frame stay as they were.
   */
  method FreeUserSpace(dirs: Directories, user: nat) returns (ghost calls: nat)
    requires dirs.Valid() && user in dirs.F.roots && user != dirs.F.kernel
    requires OwnsWalks(dirs.mem, dirs.F, user) && OwnedBelow(dirs.F, user, dirs.pmm.maxPages)
    modifies dirs`mem, dirs`F, dirs.pmm`usedPages, dirs.pmm`freePages, dirs.pmm`lastFound, dirs.pmm`free,
             dirs.pmm.bitmap
    ensures dirs.Valid()
    ensures (old(AllOwn(dirs.mem, dirs.F, dirs.pmm.maxPages)) ==> AllOwn(dirs.mem, dirs.F, dirs.pmm.maxPages))
    ensures dirs.F == old(dirs.F).(path := old(dirs.F.path) - Owned(old(dirs.F), user))
    ensures dirs.pmm.free == old(dirs.pmm.free) + Owned(old(dirs.F), user) && user !in dirs.pmm.free
    ensures dirs.pmm.freePages == old(dirs.pmm.freePages) + |Owned(old(dirs.F), user)|
    ensures calls == |Owned(old(dirs.F), user)|
    ensures LowerCleared(old(dirs.mem), dirs.mem, dirs.F.roots, user)
  {
    hide WF, UpperLinked, Walk, Exclusive, OwnsWalks, BelowCleared, LowerCleared, Pmm.Represents;
    ghost var mem0, F0, free0 := dirs.mem, dirs.F, dirs.pmm.free;
    OwnsWalksExclusive(mem0, F0, user, dirs.pmm.maxPages);
    RootPath(mem0, F0, user);
    OwnedIsBelow(mem0, F0, user);
    calls := FreeLevel(dirs, user, 3, KERNEL_START, user);
    PrunedIsWithout(F0, user);
    BelowIsLower(mem0, dirs.mem, F0.roots, user);
    if AllOwn(mem0, F0, dirs.pmm.maxPages) {
      TeardownKeepsOwn(mem0, dirs.mem, F0, user, dirs.pmm.maxPages);
    }
    assert Owned(F0, user) !! free0;
  }

  lemma PrunedIsWithout(F: Forest, user: nat)
    requires user in F.path && F.path[user] == Path(user, []) && Owned(F, user) == Below(F, F.path[user], KERNEL_START)
    ensures Pruned(F, F.path[user], KERNEL_START) == F.(path := F.path - Owned(F, user))
    ensures user in Pruned(F, F.path[user], KERNEL_START).path
  {
    assert Pruned(F, F.path[user], KERNEL_START).path == F.path - Owned(F, user);
  }

  // ---------------------------------------------------------------- whole runs

  /** Create an address space; allocate or free in the k-th created one, or tear it down. */
  datatype SpaceOp =
    | Create
    | Alloc(k: nat, virt: nat, size: nat, flags: nat)
    | Free(k: nat, virt: nat, size: nat)
    | Destroy(k: nat)

  predicate OpOk(op: SpaceOp) {
    match op
    case Alloc(_, virt, size, flags) => virt < ADDRESSES && size < ADDRESSES && IsFlags(flags)
    case Free(_, virt, size) => virt < ADDRESSES && size < ADDRESSES
    case _ => true
  }

  /** Every frame is free, in the forest, or was left in hand by a failed mapping; no frame is two of these. */
  ghost predicate Conserved(all: set<nat>, free: set<nat>, F: Forest, lost: set<nat>) {
    && all == free + F.path.Keys + lost
    && free !! F.path.Keys && free !! lost && F.path.Keys !! lost
  }

  lemma LostCount(all: set<nat>, free: set<nat>, free': set<nat>, F: Forest, lost: set<nat>,
                  tables: set<nat>, mapped: set<nat>, inHand: set<nat>)
    requires Conserved(all, free, F, lost) && Spent(free, free', tables, mapped, inHand)
    ensures |lost + inHand| == |lost| + |inHand|
  {
    assert lost !! inHand;
    hide Conserved, Spent;
  }

  lemma AllocConserves(all: set<nat>, F: Forest, F': Forest, free: set<nat>, free': set<nat>, lost: set<nat>,
                       tables: set<nat>, frames: seq<nat>, inHand: set<nat>, root: nat, virt: nat)
    requires Conserved(all, free, F, lost) && Accounted(F, F', free, free', tables, frames, inHand, root, virt)
    ensures Conserved(all, free', F', lost + inHand)
  {
    hide Ix, AddrAt;
  }

  lemma AllocIsolates(mem: Mem, mem': Mem, roots: set<nat>, root: nat, virt: nat, frames: seq<nat>, watch: nat,
                      ix: seq<nat>)
    requires RangeMapped(mem, mem', roots, root, virt, frames) && watch in roots && watch != root
    requires IxOk(ix) && ix[0] < KERNEL_START
    ensures Walk(mem', watch, ix) == Walk(mem, watch, ix)
  {
    hide Walk, Ix, AddrAt, Overlay;
    OverlayIs(Walk(mem, watch, ix), watch, root, virt, frames, ix);
  }

  /**
   * The state a run keeps: ownership everywhere, conservation, coherence, and the lower half of a directory not used.
   */
  ghost predicate RunInv(mem0: Mem, mem: Mem, F: Forest, maxPages: nat, all: set<nat>, free: set<nat>, lost: set<nat>,
                         watch: nat) {
    && AllOwn(mem, F, maxPages) && Conserved(all, free, F, lost)
    && Coherent(mem, F) && watch in F.roots && SameLower(mem0, mem, watch)
  }

  lemma PathRoots(mem: Mem, F: Forest)
    requires WF(mem, F)
    ensures forall f :: f in F.path ==> F.path[f].root in F.roots
    ensures forall r :: r in F.roots ==> r in F.path
    ensures F.kernel in F.roots
  {
    hide Leads, EntryOk;
    forall f | f in F.path ensures F.path[f].root in F.roots { assert PathOk(F, f); }
  }

  /** A new directory keeps the run invariant, and so does a failed attempt. */
  lemma CreateRunInv(mem0: Mem, mem: Mem, mem': Mem, F: Forest, n: nat, maxPages: nat,
                     all: set<nat>, free: set<nat>, lost: set<nat>, watch: nat)
    requires RunInv(mem0, mem, F, maxPages, all, free, lost, watch) && WF(mem, F)
    requires SameWalks(mem, mem', F.roots)
    requires var F' := if n == 0 then F else WithRoot(F, n); WF(mem', F') && UpperLinked(mem', F'.roots)
    requires n != 0 ==> n in free && forall ix :: IxOk(ix) && ix[0] < KERNEL_START ==> Walk(mem', n, ix) == None
    ensures var F' := if n == 0 then F else WithRoot(F, n);
            RunInv(mem0, mem', F', maxPages, all, if n == 0 then free else free - {n}, lost, watch)
  {
    hide WF, UpperLinked, Walk, OwnsWalks, Coherent, SameLower, SameWalks, AllOwn, Conserved;
    PathRoots(mem, F);
    SameLowerAfter(mem0, mem, mem', F.roots, watch);
    if n == 0 {
      ValidCoherent(mem', F);
      SameKeepsOwn(mem, mem', F, maxPages);
    } else {
      ValidCoherent(mem', WithRoot(F, n));
      RootConserves(all, free, F, lost, n);
      CreateKeepsOwn(mem, mem', F, n, maxPages);
    }
  }

  lemma RootConserves(all: set<nat>, free: set<nat>, F: Forest, lost: set<nat>, n: nat)
    requires Conserved(all, free, F, lost) && n in free
    ensures n !in F.path && Conserved(all, free - {n}, WithRoot(F, n), lost)
  {}

  lemma SameKeepsOwn(mem: Mem, mem': Mem, F: Forest, maxPages: nat)
    requires AllOwn(mem, F, maxPages) && SameWalks(mem, mem', F.roots)
    ensures AllOwn(mem', F, maxPages)
  {
    hide Walk, OwnsWalks, SameWalks, Owned;
    forall u | u in F.roots && u != F.kernel ensures OwnsWalks(mem', F, u) { OwnSame(mem, mem', F, u); }
  }

  lemma OwnSame(mem: Mem, mem': Mem, F: Forest, u: nat)
    requires OwnsWalks(mem, F, u) && u in F.roots && SameWalks(mem, mem', F.roots)
    ensures OwnsWalks(mem', F, u)
  {
    hide Walk;
    OwnSubset(mem, mem', F, F, u);
  }

  lemma AllocRunInv(mem0: Mem, mem: Mem, mem': Mem, F: Forest, F': Forest, maxPages: nat,
                    all: set<nat>, free: set<nat>, free': set<nat>, lost: set<nat>, watch: nat,
                    tables: set<nat>, frames: seq<nat>, inHand: set<nat>, root: nat, virt: nat)
    requires RunInv(mem0, mem, F, maxPages, all, free, lost, watch) && root in F.roots && root != watch
    requires WF(mem', F') && UpperLinked(mem', F'.roots)
    requires Accounted(F, F', free, free', tables, frames, inHand, root, virt)
    requires RangeMapped(mem, mem', F.roots, root, virt, frames)
    requires forall f :: f in free ==> 0 < f < maxPages
    ensures RunInv(mem0, mem', F', maxPages, all, free', lost + inHand, watch)
    ensures F'.roots == F.roots && F'.kernel == F.kernel && |lost + inHand| == |lost| + |inHand|
  {
    hide WF, UpperLinked, Walk, AllOwn, Ix, AddrAt, RangeMapped, Coherent, Spent, Conserved;
    AllocKeepsOwn(mem, mem', F, F', free, free', maxPages, tables, frames, inHand, root, virt);
    AllocConserves(all, F, F', free, free', lost, tables, frames, inHand, root, virt);
    LostCount(all, free, free', F, lost, tables, Elems(frames), inHand);
    ValidCoherent(mem', F');
    forall ix | IxOk(ix) && ix[0] < KERNEL_START ensures Walk(mem', watch, ix) == Walk(mem0, watch, ix) {
      AllocIsolates(mem, mem', F.roots, root, virt, frames, watch, ix);
      assert Walk(mem, watch, ix) == Walk(mem0, watch, ix);
    }
  }

  lemma DestroyRunInv(mem0: Mem, mem: Mem, mem': Mem, F: Forest, F': Forest, maxPages: nat,
                      all: set<nat>, free: set<nat>, lost: set<nat>, watch: nat, user: nat)
    requires RunInv(mem0, mem, F, maxPages, all, free, lost, watch) && user != watch
    requires F' == F.(path := F.path - Owned(F, user)) && AllOwn(mem', F', maxPages)
    requires WF(mem', F') && UpperLinked(mem', F'.roots) && LowerCleared(mem, mem', F.roots, user)
    ensures RunInv(mem0, mem', F', maxPages, all, free + Owned(F, user), lost, watch)
  {
    hide WF, UpperLinked, Walk, AllOwn, Coherent;
    ValidCoherent(mem', F');
    assert Owned(F, user) <= F.path.Keys;
    forall ix | IxOk(ix) && ix[0] < KERNEL_START ensures Walk(mem', watch, ix) == Walk(mem0, watch, ix) {
      assert Walk(mem', watch, ix) == Walk(mem, watch, ix);
      assert Walk(mem, watch, ix) == Walk(mem0, watch, ix);
    }
  }

  /** The directories made so far, none of them the kernel's or the watched one. */
  ghost predicate MadeOk(F: Forest, made: seq<nat>, watch: nat) {
    forall k :: 0 <= k < |made| ==> made[k] in F.roots && made[k] != watch && made[k] != F.kernel
  }

  method StepCreate(spaces: Spaces, made0: seq<nat>, ghost mem0: Mem, ghost all: set<nat>, ghost lost: set<nat>,
                    ghost watch: nat)
    returns (made: seq<nat>)
    requires spaces.dirs.Valid() && MadeOk(spaces.dirs.F, made0, watch)
    requires RunInv(mem0, spaces.dirs.mem, spaces.dirs.F, spaces.dirs.pmm.maxPages, all, spaces.dirs.pmm.free, lost,
                    watch)
    modifies spaces.dirs`mem, spaces.dirs`F, spaces.dirs.pmm`usedPages, spaces.dirs.pmm`freePages,
             spaces.dirs.pmm`lastFound,
             spaces.dirs.pmm`free, spaces.dirs.pmm.bitmap
    ensures spaces.dirs.Valid() && MadeOk(spaces.dirs.F, made, watch)
    ensures RunInv(mem0, spaces.dirs.mem, spaces.dirs.F, spaces.dirs.pmm.maxPages, all, spaces.dirs.pmm.free, lost,
                   watch)
  {
    hide WF, UpperLinked, Walk, AllOwn, Coherent, Conserved, SameLower, RangeMapped, Vacant, Accounted, LowerCleared,
         SameWalks, Pmm.Represents;
    made := made0;
    var dirs := spaces.dirs;
    ghost var mem1, F1, free1 := dirs.mem, dirs.F, dirs.pmm.free;
    PathRoots(mem1, F1);
    var n := dirs.CreateDirectory();
    CreateRunInv(mem0, mem1, dirs.mem, F1, n, dirs.pmm.maxPages, all, free1, lost, watch);
    if n != 0 {
      made := made + [n];
    }
  }

  method StepAlloc(spaces: Spaces, k: nat, virt: nat, size: nat, flags: nat, made0: seq<nat>, ghost mem0: Mem,
                   ghost all: set<nat>, ghost lost0: set<nat>, ghost watch: nat)
    returns (leak: bool, ghost lost: set<nat>)
    requires spaces.dirs.Valid() && MadeOk(spaces.dirs.F, made0, watch)
    requires virt < ADDRESSES && size < ADDRESSES && IsFlags(flags)
    requires RunInv(mem0, spaces.dirs.mem, spaces.dirs.F, spaces.dirs.pmm.maxPages, all, spaces.dirs.pmm.free, lost0,
                    watch)
    modifies spaces.dirs`mem, spaces.dirs`F, spaces.dirs.pmm`usedPages, spaces.dirs.pmm`freePages,
             spaces.dirs.pmm`lastFound,
             spaces.dirs.pmm`free, spaces.dirs.pmm.bitmap
    ensures spaces.dirs.Valid() && MadeOk(spaces.dirs.F, made0, watch)
    ensures |lost| == |lost0| + if leak then 1 else 0
    ensures RunInv(mem0, spaces.dirs.mem, spaces.dirs.F, spaces.dirs.pmm.maxPages, all, spaces.dirs.pmm.free, lost,
                   watch)
  {
    hide WF, UpperLinked, Walk, AllOwn, Coherent, Conserved, SameLower, RangeMapped, Vacant, Accounted, LowerCleared,
         SameWalks, Pmm.Represents;
    leak, lost := false, lost0;
    var dirs := spaces.dirs;
    ghost var mem1, F1, free1 := dirs.mem, dirs.F, dirs.pmm.free;
    FreeBelow(dirs.pmm);
    if k < |made0| {
      var st, mapFailed, tables, frames, inHand, at := spaces.AllocRange(made0[k], virt, size, flags);
      AllocRunInv(mem0, mem1, dirs.mem, F1, dirs.F, dirs.pmm.maxPages, all, free1, dirs.pmm.free, lost, watch,
                  tables, frames, inHand, made0[k], virt);
      leak, lost := mapFailed, lost + inHand;
    }
  }

  /** Every lower-half page that is mapped maps a frame the space owns. */
  lemma UserRangeOwns(mem: Mem, F: Forest, user: nat, virt: nat, n: nat, maxPages: nat)
    requires OwnsWalks(mem, F, user) && OwnedBelow(F, user, maxPages) && virt + n * PAGE <= LOW_TOP
    ensures OwnsRange(mem, F, user, virt, n, maxPages)
  {
    hide Walk, Ix, AddrAt;
    forall j | 0 <= j < n ensures OwnsPage(mem, F, user, Ix(AddrAt(virt, j)), maxPages) {
      LowerPage(virt, n, j);
      var w := Walk(mem, user, Ix(AddrAt(virt, j)));
      if w.Some? { assert w.value in Owned(F, user); }
    }
  }

  /** Whether every page of a range is mapped. */
  method AllMapped(dirs: Directories, root: nat, virt: nat, n: nat) returns (ok: bool)
    requires dirs.Sound() && root in dirs.F.roots && OwnsRange(dirs.mem, dirs.F, root, virt, n, dirs.pmm.maxPages)
    ensures ok <==> forall j :: 0 <= j < n ==> Walk(dirs.mem, root, Ix(AddrAt(virt, j))).Some?
  {
    hide Walk, Ix, AddrAt, WF, UpperLinked, Pmm.Represents;
    var i := 0;
    while i < n
      invariant 0 <= i <= n && forall j :: 0 <= j < i ==> Walk(dirs.mem, root, Ix(AddrAt(virt, j))).Some?
    {
      assert OwnsPage(dirs.mem, dirs.F, root, Ix(AddrAt(virt, i)), dirs.pmm.maxPages);
      var phys := dirs.GetPhys(root, AddrAt(virt, i));
      if phys == 0 {
        return false;
      }
      i := i + 1;
    }
    ok := true;
  }

  /** Frames of the range are frames of the space, and no other page maps them. */
  lemma FreeKeepsOwnOne(mem: Mem, mem': Mem, F: Forest, root: nat, virt: nat, n: nat, maxPages: nat, u: nat)
    requires OwnsWalks(mem, F, u) && u in F.roots && OwnsRange(mem, F, root, virt, n, maxPages)
    requires virt + n * PAGE <= LOW_TOP && RangeCleared(mem, mem', F.roots, root, virt, n)
    ensures OwnsWalks(mem', Minus(F, FramesOf(mem, root, virt, n)), u)
  {
    hide Walk, Ix, AddrAt, Cleared;
    var fs := FramesOf(mem, root, virt, n);
    forall ix | IxOk(ix) && ix[0] < KERNEL_START && Walk(mem', u, ix).Some?
      ensures Walk(mem', u, ix).value in Minus(F, fs).path && F.path[Walk(mem', u, ix).value] == Path(u, ix)
    {
      assert Walk(mem', u, ix) == Cleared(Walk(mem, u, ix), u, root, virt, n, ix);
      ClearedMatch(Walk(mem, u, ix), u, root, virt, n, ix);
      var f := Walk(mem', u, ix).value;
      FrameOfPage(mem, root, virt, n, f);
      if j :| 0 <= j < n && Walk(mem, root, Ix(AddrAt(virt, j))) == Some(f) {
        assert OwnsPage(mem, F, root, Ix(AddrAt(virt, j)), maxPages);
        LowerPage(virt, n, j);
        assert false;
      }
    }
  }

  lemma FreeKeepsOwn(mem: Mem, mem': Mem, F: Forest, root: nat, virt: nat, n: nat, maxPages: nat)
    requires AllOwn(mem, F, maxPages) && OwnsRange(mem, F, root, virt, n, maxPages) && virt + n * PAGE <= LOW_TOP
    requires RangeCleared(mem, mem', F.roots, root, virt, n)
    ensures AllOwn(mem', Minus(F, FramesOf(mem, root, virt, n)), maxPages)
  {
    hide OwnsWalks, OwnsRange, RangeCleared, FramesOf;
    var G := Minus(F, FramesOf(mem, root, virt, n));
    forall u | u in G.roots && u != G.kernel ensures OwnsWalks(mem', G, u) && OwnedBelow(G, u, maxPages) {
      FreeKeepsOwnOne(mem, mem', F, root, virt, n, maxPages, u);
      assert OwnedBelow(F, u, maxPages);
      forall f | f in Owned(G, u) ensures 0 < f < maxPages { assert f in Owned(F, u); }
    }
  }

  lemma FreeConserves(all: set<nat>, mem: Mem, F: Forest, free: set<nat>, lost: set<nat>, root: nat, virt: nat, n: nat,
                      maxPages: nat)
    requires Conserved(all, free, F, lost) && OwnsRange(mem, F, root, virt, n, maxPages)
    ensures var fs := FramesOf(mem, root, virt, n); Conserved(all, free + fs, Minus(F, fs), lost)
  {
    hide Walk, Ix, AddrAt;
    var fs := FramesOf(mem, root, virt, n);
    forall f | f in fs ensures f in F.path {
      FrameOfPage(mem, root, virt, n, f);
      var j :| 0 <= j < n && Walk(mem, root, Ix(AddrAt(virt, j))) == Some(f);
      assert OwnsPage(mem, F, root, Ix(AddrAt(virt, j)), maxPages);
    }
    hide FramesOf, OwnsRange;
    assert Minus(F, fs).path.Keys == F.path.Keys - fs;
  }

  lemma FreeIsolates(mem: Mem, mem': Mem, roots: set<nat>, root: nat, virt: nat, n: nat, watch: nat, ix: seq<nat>)
    requires RangeCleared(mem, mem', roots, root, virt, n) && watch in roots && watch != root
    requires IxOk(ix) && ix[0] < KERNEL_START
    ensures Walk(mem', watch, ix) == Walk(mem, watch, ix)
  {
    hide Walk, Ix, AddrAt, Cleared;
    ClearedMatch(Walk(mem, watch, ix), watch, root, virt, n, ix);
  }

  /** Freeing a range without holes keeps the run invariant. */
  lemma FreeRunInv(mem0: Mem, mem: Mem, mem': Mem, F: Forest, F': Forest, maxPages: nat,
                   all: set<nat>, free: set<nat>, free': set<nat>, lost: set<nat>, watch: nat,
                   root: nat, virt: nat, n: nat)
    requires RunInv(mem0, mem, F, maxPages, all, free, lost, watch) && root in F.roots && root != watch
    requires WF(mem', F') && UpperLinked(mem', F'.roots) && OwnsRange(mem, F, root, virt, n, maxPages)
    requires Freed(mem, mem', F, F', free, free', root, virt, n) && !Holes(mem, root, virt, n)
    requires virt + n * PAGE <= LOW_TOP
    ensures RunInv(mem0, mem', F', maxPages, all, free', lost, watch)
  {
    hide WF, UpperLinked, Walk, AllOwn, Ix, AddrAt, RangeCleared, Coherent, Conserved, OwnsRange, FramesOf, Holes,
         SameWalks, SameLower;
    ValidCoherent(mem', F');
    MinusNothing(F);
    if virt % PAGE == 0 {
      FreeKeepsOwn(mem, mem', F, root, virt, n, maxPages);
      FreeConserves(all, mem, F, free, lost, root, virt, n, maxPages);
      assert free' == free + FramesOf(mem, root, virt, n);
      FreeSameLower(mem0, mem, mem', F.roots, root, virt, n, watch);
    } else {
      assert F' == F && free' == free;
      SameKeepsOwn(mem, mem', F, maxPages);
      SameLowerAfter(mem0, mem, mem', F.roots, watch);
    }
  }

  lemma MinusNothing(F: Forest)
    ensures Minus(F, {}) == F
  {
    assert F.path - {} == F.path;
  }

  lemma FreeSameLower(mem0: Mem, mem: Mem, mem': Mem, roots: set<nat>, root: nat, virt: nat, n: nat, watch: nat)
    requires SameLower(mem0, mem, watch) && RangeCleared(mem, mem', roots, root, virt, n)
    requires watch in roots && watch != root
    ensures SameLower(mem0, mem', watch)
  {
    hide Walk, RangeCleared;
    forall ix | IxOk(ix) && ix[0] < KERNEL_START ensures Walk(mem', watch, ix) == Walk(mem0, watch, ix) {
      FreeIsolates(mem, mem', roots, root, virt, n, watch, ix);
      assert Walk(mem, watch, ix) == Walk(mem0, watch, ix);
    }
  }

  /** Frees a lower-half range of the k-th space, if every page of it is mapped. */
  method StepFree(spaces: Spaces, k: nat, virt: nat, size: nat, made: seq<nat>, ghost mem0: Mem, ghost all: set<nat>,
                  ghost lost: set<nat>, ghost watch: nat)
    requires spaces.dirs.Valid() && MadeOk(spaces.dirs.F, made, watch) && virt < ADDRESSES
    requires RunInv(mem0, spaces.dirs.mem, spaces.dirs.F, spaces.dirs.pmm.maxPages, all, spaces.dirs.pmm.free, lost,
                    watch)
    modifies spaces.dirs`mem, spaces.dirs`F, spaces.dirs.pmm`usedPages, spaces.dirs.pmm`freePages,
             spaces.dirs.pmm`lastFound, spaces.dirs.pmm`free, spaces.dirs.pmm.bitmap
    ensures spaces.dirs.Valid() && MadeOk(spaces.dirs.F, made, watch)
    ensures RunInv(mem0, spaces.dirs.mem, spaces.dirs.F, spaces.dirs.pmm.maxPages, all, spaces.dirs.pmm.free, lost,
                   watch)
  {
    hide WF, UpperLinked, Walk, AllOwn, Coherent, Conserved, SameLower, SameWalks, Pmm.Represents, Freed, Holes, Ix,
         AddrAt, OwnsRange, OwnsWalks, OwnedBelow, PageCount, RunInv, FramesOf;
    var dirs := spaces.dirs;
    ghost var mem1, F1, free1 := dirs.mem, dirs.F, dirs.pmm.free;
    var n := PageCount(size);
    if k < |made| && virt + n * PAGE <= LOW_TOP {
      MadeOwns(mem0, mem1, F1, dirs.pmm.maxPages, all, free1, lost, watch, made, k);
      UserRangeOwns(mem1, F1, made[k], virt, n, dirs.pmm.maxPages);
      var mapped := AllMapped(dirs, made[k], virt, n);
      if mapped {
        NoHoles(mem1, F1, made[k], virt, n, dirs.pmm.maxPages);
        spaces.FreeRange(made[k], virt, size);
        FreeRunInv(mem0, mem1, dirs.mem, F1, dirs.F, dirs.pmm.maxPages, all, free1, dirs.pmm.free, lost, watch, made[k],
                   virt, n);
        FreedForest(mem1, dirs.mem, F1, dirs.F, free1, dirs.pmm.free, made[k], virt, n);
      }
    }
  }

  lemma NoHoles(mem: Mem, F: Forest, root: nat, virt: nat, n: nat, maxPages: nat)
    requires OwnsRange(mem, F, root, virt, n, maxPages) && virt + n * PAGE <= LOW_TOP
    requires forall j :: 0 <= j < n ==> Walk(mem, root, Ix(AddrAt(virt, j))).Some?
    ensures !Holes(mem, root, virt, n) && (n > 0 ==> maxPages > 0)
  {
    hide Walk, Ix, AddrAt, Holes;
    HolesIff(mem, root, virt, n);
    if n > 0 { assert OwnsPage(mem, F, root, Ix(AddrAt(virt, 0)), maxPages); }
  }

  lemma FreedForest(mem: Mem, mem': Mem, F: Forest, F': Forest, free: set<nat>, free': set<nat>, root: nat, virt: nat,
                    n: nat)
    requires Freed(mem, mem', F, F', free, free', root, virt, n)
    ensures F'.roots == F.roots && F'.kernel == F.kernel
  {}

  method StepDestroy(spaces: Spaces, k: nat, made: seq<nat>, ghost mem0: Mem, ghost all: set<nat>,
                     ghost lost: set<nat>, ghost watch: nat)
    requires spaces.dirs.Valid() && MadeOk(spaces.dirs.F, made, watch)
    requires RunInv(mem0, spaces.dirs.mem, spaces.dirs.F, spaces.dirs.pmm.maxPages, all, spaces.dirs.pmm.free, lost,
                    watch)
    modifies spaces.dirs`mem, spaces.dirs`F, spaces.dirs.pmm`usedPages, spaces.dirs.pmm`freePages,
             spaces.dirs.pmm`lastFound,
             spaces.dirs.pmm`free, spaces.dirs.pmm.bitmap
    ensures spaces.dirs.Valid() && MadeOk(spaces.dirs.F, made, watch)
    ensures k < |made| ==> Owned(spaces.dirs.F, made[k]) == {}
    ensures forall u :: Owned(old(spaces.dirs.F), u) == {} ==> Owned(spaces.dirs.F, u) == {}
    ensures RunInv(mem0, spaces.dirs.mem, spaces.dirs.F, spaces.dirs.pmm.maxPages, all, spaces.dirs.pmm.free, lost,
                   watch)
  {
    hide WF, UpperLinked, Walk, AllOwn, Coherent, Conserved, SameLower, RangeMapped, Vacant, Accounted, LowerCleared,
         SameWalks, Pmm.Represents;
    var dirs := spaces.dirs;
    ghost var mem1, F1, free1 := dirs.mem, dirs.F, dirs.pmm.free;
    if k < |made| {
      MadeOwns(mem0, mem1, F1, dirs.pmm.maxPages, all, free1, lost, watch, made, k);
      var calls := FreeUserSpace(dirs, made[k]);
      DestroyRunInv(mem0, mem1, dirs.mem, F1, dirs.F, dirs.pmm.maxPages, all, free1, lost, watch, made[k]);
    }
  }

  /**
   * Any run of creations, allocations, releases and teardowns of new address spaces: every space owns what it maps, the
   * upper half is the same in all directories, and the lower half of a directory the run does not use is untouched. One
   * frame is lost for each allocation that failed in paging_map, and no other.
   */
  method Run(spaces: Spaces, ops: seq<SpaceOp>, ghost watch: nat)
    returns (made: seq<nat>, leaks: nat, ghost lost: set<nat>)
    requires spaces.dirs.Valid() && watch in spaces.dirs.F.roots
    requires AllOwn(spaces.dirs.mem, spaces.dirs.F, spaces.dirs.pmm.maxPages)
    requires forall i :: 0 <= i < |ops| ==> OpOk(ops[i])
    modifies spaces.dirs`mem, spaces.dirs`F, spaces.dirs.pmm`usedPages, spaces.dirs.pmm`freePages,
             spaces.dirs.pmm`lastFound,
             spaces.dirs.pmm`free, spaces.dirs.pmm.bitmap
    ensures spaces.dirs.Valid() && MadeOk(spaces.dirs.F, made, watch)
    ensures RunInv(old(spaces.dirs.mem), spaces.dirs.mem, spaces.dirs.F, spaces.dirs.pmm.maxPages,
                   old(spaces.dirs.pmm.free) + old(spaces.dirs.F.path).Keys, spaces.dirs.pmm.free, lost, watch)
    ensures |lost| == leaks <= |ops|
  {
    hide WF, UpperLinked, Walk, AllOwn, Coherent, Conserved, SameLower, RangeMapped, Vacant, Accounted, LowerCleared,
         SameWalks, Pmm.Represents, RunInv, MadeOk, IsFlags;
    ghost var mem0, all := spaces.dirs.mem, spaces.dirs.pmm.free + spaces.dirs.F.path.Keys;
    made, leaks, lost := [], 0, {};
    RunStart(mem0, spaces.dirs.F, spaces.dirs.pmm.maxPages, spaces.dirs.pmm.free, watch);
    for i := 0 to |ops|
      invariant spaces.dirs.Valid() && MadeOk(spaces.dirs.F, made, watch)
      invariant RunInv(mem0, spaces.dirs.mem, spaces.dirs.F, spaces.dirs.pmm.maxPages, all, spaces.dirs.pmm.free, lost,
                       watch)
      invariant |lost| == leaks <= i
    {
      match ops[i] {
        case Create =>
          made := StepCreate(spaces, made, mem0, all, lost, watch);
        case Alloc(k, virt, size, flags) =>
          var leak;
          leak, lost := StepAlloc(spaces, k, virt, size, flags, made, mem0, all, lost, watch);
          leaks := leaks + if leak then 1 else 0;
        case Free(k, virt, size) =>
          StepFree(spaces, k, virt, size, made, mem0, all, lost, watch);
        case Destroy(k) =>
          StepDestroy(spaces, k, made, mem0, all, lost, watch);
      }
    }
  }

  /**
   * After any run, tearing down every space that was made gives back all frames except the directories themselves, what
   * other directories hold, and the frames lost to failed mappings.
   */
  method RunThenDestroy(spaces: Spaces, ops: seq<SpaceOp>, ghost watch: nat)
    returns (made: seq<nat>, leaks: nat, ghost lost: set<nat>)
    requires spaces.dirs.Valid() && watch in spaces.dirs.F.roots
    requires AllOwn(spaces.dirs.mem, spaces.dirs.F, spaces.dirs.pmm.maxPages)
    requires forall i :: 0 <= i < |ops| ==> OpOk(ops[i])
    modifies spaces.dirs`mem, spaces.dirs`F, spaces.dirs.pmm`usedPages, spaces.dirs.pmm`freePages,
             spaces.dirs.pmm`lastFound,
             spaces.dirs.pmm`free, spaces.dirs.pmm.bitmap
    ensures spaces.dirs.Valid() && |lost| == leaks <= |ops|
    ensures forall f :: f in old(spaces.dirs.pmm.free) + old(spaces.dirs.F.path).Keys ==>
              || f in spaces.dirs.pmm.free || f in lost || f in spaces.dirs.F.roots
              || (f in spaces.dirs.F.path && spaces.dirs.F.path[f].root !in made)
  {
    hide WF, UpperLinked, Walk, AllOwn, Coherent, Conserved, SameLower, SameWalks, Pmm.Represents, RunInv, MadeOk,
         IsFlags, Owned;
    ghost var mem0, all := spaces.dirs.mem, spaces.dirs.pmm.free + spaces.dirs.F.path.Keys;
    made, leaks, lost := Run(spaces, ops, watch);
    for k := 0 to |made|
      invariant spaces.dirs.Valid() && MadeOk(spaces.dirs.F, made, watch)
      invariant RunInv(mem0, spaces.dirs.mem, spaces.dirs.F, spaces.dirs.pmm.maxPages, all, spaces.dirs.pmm.free, lost,
                       watch)
      invariant forall j :: 0 <= j < k ==> Owned(spaces.dirs.F, made[j]) == {}
    {
      StepDestroy(spaces, k, made, mem0, all, lost, watch);
    }
    NothingLeft(mem0, spaces.dirs.mem, spaces.dirs.F, spaces.dirs.pmm.maxPages, all, spaces.dirs.pmm.free, lost, watch,
                made);
  }

  lemma NothingLeft(mem0: Mem, mem: Mem, F: Forest, maxPages: nat, all: set<nat>, free: set<nat>, lost: set<nat>,
                    watch: nat, made: seq<nat>)
    requires RunInv(mem0, mem, F, maxPages, all, free, lost, watch) && WF(mem, F)
    requires forall j :: 0 <= j < |made| ==> Owned(F, made[j]) == {}
    ensures forall f :: f in all ==> f in free || f in lost || f in F.roots || (f in F.path && F.path[f].root !in made)
  {
    hide Leads, EntryOk, AllOwn, Coherent, SameLower;
    forall f | f in all ensures f in free || f in lost || f in F.roots || (f in F.path && F.path[f].root !in made) {
      if f in F.path && F.path[f].root in made {
        assert PathOk(F, f);
        var j :| 0 <= j < |made| && made[j] == F.path[f].root;
        assert f !in Owned(F, made[j]);
      }
    }
  }

  lemma MadeOwns(mem0: Mem, mem: Mem, F: Forest, maxPages: nat, all: set<nat>, free: set<nat>, lost: set<nat>,
                 watch: nat, made: seq<nat>, k: nat)
    requires RunInv(mem0, mem, F, maxPages, all, free, lost, watch) && MadeOk(F, made, watch) && k < |made|
    ensures made[k] in F.roots && made[k] != F.kernel && OwnsWalks(mem, F, made[k]) && OwnedBelow(F, made[k], maxPages)
  {}

  lemma RunStart(mem: Mem, F: Forest, maxPages: nat, free: set<nat>, watch: nat)
    requires WF(mem, F) && UpperLinked(mem, F.roots) && AllOwn(mem, F, maxPages) && watch in F.roots
    requires F.path.Keys !! free
    ensures RunInv(mem, mem, F, maxPages, free + F.path.Keys, free, {}, watch) && MadeOk(F, [], watch)
  {
    hide WF, UpperLinked, Walk, AllOwn, Coherent;
    ValidCoherent(mem, F);
  }
}
