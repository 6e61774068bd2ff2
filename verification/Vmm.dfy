/** Ranges of pages: allocation with rollback, and release. */
module Vmm {
  import opened Common
  import opened PageTables
  import opened PageForest
  import opened PageWrites
  import opened Paging
  import Pmm

  /** Pages for `size` bytes, in 64-bit arithmetic. */
  function PageCount(size: nat): nat { (size + PAGE - 1) % ADDRESSES / PAGE }

  /** The address of page `j` of a range, in 64-bit arithmetic. */
  function AddrAt(virt: nat, j: nat): nat { (virt + j * PAGE) % ADDRESSES }

  /** What the walk `w` of page `ix` becomes when the pages of a range are mapped to `frames`, in order. */
  ghost function Overlay(w: Option<nat>, r: nat, root: nat, virt: nat, frames: seq<nat>, ix: seq<nat>): Option<nat> {
    if frames == [] then w
    else
      var n := |frames| - 1;
      if ix == Ix(AddrAt(virt, n)) && Affects(r, root, Ix(AddrAt(virt, n))) then Some(frames[n])
      else Overlay(w, r, root, virt, frames[..n], ix)
  }

  /** The pages of the range, and only they, changed: to the given frames, in every directory they show in. */
  ghost predicate RangeMapped(mem: Mem, mem': Mem, roots: set<nat>, root: nat, virt: nat, frames: seq<nat>) {
    forall r, ix :: r in roots && IxOk(ix) ==>
      Walk(mem', r, ix) == Overlay(Walk(mem, r, ix), r, root, virt, frames, ix)
  }

  /** Every page of the range was unmapped at the moment it was mapped. */
  ghost predicate Vacant(mem: Mem, roots: set<nat>, root: nat, virt: nat, frames: seq<nat>) {
    forall j, r :: 0 <= j < |frames| && r in roots && Affects(r, root, Ix(AddrAt(virt, j))) ==>
      Overlay(Walk(mem, r, Ix(AddrAt(virt, j))), r, root, virt, frames[..j], Ix(AddrAt(virt, j))) == None
  }

  lemma RangeMappedNone(mem: Mem, mem': Mem, roots: set<nat>, root: nat, virt: nat)
    ensures RangeMapped(mem, mem', roots, root, virt, []) <==> SameWalks(mem, mem', roots)
  {
    hide Walk;
  }

  /** Mapping one more page extends the range. */
  lemma RangeExtends(mem0: Mem, mem: Mem, mem': Mem, roots: set<nat>, root: nat, virt: nat, frames: seq<nat>, f: nat)
    requires RangeMapped(mem0, mem, roots, root, virt, frames)
    requires PageChanged(mem, mem', roots, root, Ix(AddrAt(virt, |frames|)), Some(f))
    ensures RangeMapped(mem0, mem', roots, root, virt, frames + [f])
  {
    hide Walk, Ix, AddrAt;
    var frames' := frames + [f];
    assert frames'[..|frames|] == frames;
    var at := Ix(AddrAt(virt, |frames|));
    forall r, ix | r in roots && IxOk(ix)
      ensures Walk(mem', r, ix) == Overlay(Walk(mem0, r, ix), r, root, virt, frames', ix)
    {
      assert Walk(mem, r, ix) == Overlay(Walk(mem0, r, ix), r, root, virt, frames, ix);
      assert Walk(mem', r, ix) == if ix == at && Affects(r, root, at) then Some(f) else Walk(mem, r, ix);
    }
  }

  lemma SameWalkAt(mem: Mem, mem': Mem, roots: set<nat>, r: nat, ix: seq<nat>)
    requires SameWalks(mem, mem', roots) && r in roots && IxOk(ix)
    ensures Walk(mem', r, ix) == Walk(mem, r, ix)
  {}

  lemma SameWalksRange(mem0: Mem, mem: Mem, mem': Mem, roots: set<nat>, root: nat, virt: nat, frames: seq<nat>)
    requires RangeMapped(mem0, mem, roots, root, virt, frames) && SameWalks(mem, mem', roots)
    ensures RangeMapped(mem0, mem', roots, root, virt, frames)
  {
    hide Walk, Ix, AddrAt, Overlay;
    forall r, ix | r in roots && IxOk(ix)
      ensures Walk(mem', r, ix) == Overlay(Walk(mem0, r, ix), r, root, virt, frames, ix)
    {
      assert Walk(mem', r, ix) == Walk(mem, r, ix);
    }
  }

  /** A page mapped where nothing was keeps the record of vacancy. */
  lemma VacantExtends(mem0: Mem, mem: Mem, F: Forest, root: nat, virt: nat, frames: seq<nat>, f: nat)
    requires WF(mem, F) && UpperLinked(mem, F.roots) && root in F.roots
    requires RangeMapped(mem0, mem, F.roots, root, virt, frames) && Vacant(mem0, F.roots, root, virt, frames)
    requires Walk(mem, root, Ix(AddrAt(virt, |frames|))).None?
    ensures Vacant(mem0, F.roots, root, virt, frames + [f])
  {
    hide Walk, Ix, AddrAt, Overlay, WF, UpperLinked;
    var frames' := frames + [f];
    forall j, r | 0 <= j < |frames'| && r in F.roots && Affects(r, root, Ix(AddrAt(virt, j)))
      ensures Overlay(Walk(mem0, r, Ix(AddrAt(virt, j))), r, root, virt, frames'[..j], Ix(AddrAt(virt, j))) == None
    {
      var at := Ix(AddrAt(virt, j));
      assert frames'[..j] == frames[..j];
      if j == |frames| {
        assert frames[..j] == frames;
        if r != root {
          KernelHalfCoherent(mem, F, r, at);
          KernelHalfCoherent(mem, F, root, at);
        }
        assert Walk(mem, r, at) == Overlay(Walk(mem0, r, at), r, root, virt, frames, at);
      }
    }
  }

  /** Unmapping the last page of a vacant range takes it off the range. */
  lemma RangeShrinks(mem0: Mem, mem: Mem, mem': Mem, roots: set<nat>, root: nat, virt: nat, frames: seq<nat>)
    requires |frames| > 0 && RangeMapped(mem0, mem, roots, root, virt, frames)
    requires Vacant(mem0, roots, root, virt, frames)
    requires PageChanged(mem, mem', roots, root, Ix(AddrAt(virt, |frames| - 1)), None)
    ensures RangeMapped(mem0, mem', roots, root, virt, frames[..|frames| - 1])
    ensures Vacant(mem0, roots, root, virt, frames[..|frames| - 1])
  {
    hide Walk, Ix, AddrAt;
    var n := |frames| - 1;
    var at := Ix(AddrAt(virt, n));
    forall r, ix | r in roots && IxOk(ix)
      ensures Walk(mem', r, ix) == Overlay(Walk(mem0, r, ix), r, root, virt, frames[..n], ix)
    {
      assert Walk(mem, r, ix) == Overlay(Walk(mem0, r, ix), r, root, virt, frames, ix);
      assert Walk(mem', r, ix) == if ix == at && Affects(r, root, at) then None else Walk(mem, r, ix);
    }
    assert forall j :: 0 <= j < n ==> frames[..n][..j] == frames[..j];
  }

  // ---------------------------------------------------------------- where the frames went

  ghost function Elems(frames: seq<nat>): set<nat> { set f | f in frames }

  predicate Distinct(frames: seq<nat>) { forall i, j :: 0 <= i < j < |frames| ==> frames[i] != frames[j] }

  /** The frames taken from the free pages split into new tables, mapped frames and a frame left in hand. */
  ghost predicate Spent(free0: set<nat>, free: set<nat>, tables: set<nat>, mapped: set<nat>, inHand: set<nat>) {
    && free == free0 - tables - mapped - inHand
    && tables <= free0 && mapped <= free0 && inHand <= free0
    && tables !! mapped && tables !! inHand && mapped !! inHand
  }

  /** The forest gained the new tables, and the mapped frames at the paths of their pages. */
  ghost predicate Placed(F0: Forest, F: Forest, tables: set<nat>, frames: seq<nat>, root: nat, virt: nat) {
    && F.kernel == F0.kernel && F.roots == F0.roots
    && (forall f :: f in F0.path ==> f in F.path && F.path[f] == F0.path[f])
    && F.path.Keys == F0.path.Keys + tables + Elems(frames)
    && (forall f :: f in tables ==> 1 <= |F.path[f].idx| <= 3)
    && (forall j :: 0 <= j < |frames| ==> frames[j] in F.path && F.path[frames[j]] == F.Norm(root, Ix(AddrAt(virt, j))))
  }

  ghost predicate Accounted(F0: Forest, F: Forest, free0: set<nat>, free: set<nat>,
                            tables: set<nat>, frames: seq<nat>, inHand: set<nat>, root: nat, virt: nat)
  {
    Spent(free0, free, tables, Elems(frames), inHand) && Placed(F0, F, tables, frames, root, virt) && Distinct(frames)
  }

  lemma {:induction false} DistinctCount(frames: seq<nat>)
    requires Distinct(frames)
    ensures |Elems(frames)| == |frames|
  {
    if frames != [] {
      var n := |frames| - 1;
      DistinctCount(frames[..n]);
      assert frames == frames[..n] + [frames[n]];
      assert Elems(frames) == Elems(frames[..n]) + {frames[n]};
    }
  }

  lemma SpentCount(free0: set<nat>, free: set<nat>, tables: set<nat>, mapped: set<nat>, inHand: set<nat>)
    requires Spent(free0, free, tables, mapped, inHand)
    ensures |free0| == |free| + |tables| + |mapped| + |inHand|
  {
    assert |free0 - tables| == |free0| - |tables|;
    assert |free0 - tables - mapped| == |free0 - tables| - |mapped|;
  }

  /** The free count falls by the new tables, the mapped frames and the frame in hand. */
  lemma AccountedCount(F0: Forest, F: Forest, free0: set<nat>, free: set<nat>,
                       tables: set<nat>, frames: seq<nat>, inHand: set<nat>, root: nat, virt: nat)
    requires Accounted(F0, F, free0, free, tables, frames, inHand, root, virt)
    ensures |free0| == |free| + |tables| + |frames| + |inHand|
  {
    hide Spent, Placed;
    DistinctCount(frames);
    SpentCount(free0, free, tables, Elems(frames), inHand);
  }

  lemma AccountedStart(F: Forest, free: set<nat>, root: nat, virt: nat)
    ensures Accounted(F, F, free, free, {}, [], {}, root, virt)
  {}

  lemma AccountedTake(F0: Forest, F: Forest, free0: set<nat>, free: set<nat>,
                      tables: set<nat>, frames: seq<nat>, root: nat, virt: nat, n: nat)
    requires Accounted(F0, F, free0, free, tables, frames, {}, root, virt) && n in free
    ensures Accounted(F0, F, free0, free - {n}, tables, frames, {n}, root, virt)
  {
    hide Placed;
  }

  lemma SpentGrow(free0: set<nat>, free: set<nat>, free': set<nat>, tables: set<nat>, mapped: set<nat>,
                  inHand: set<nat>)
    requires Spent(free0, free, tables, mapped, inHand) && free' <= free
    ensures Spent(free0, free', tables + (free - free'), mapped, inHand)
  {
    assert free' == free0 - (tables + (free - free')) - mapped - inHand;
  }

  lemma AccountedGrow(F0: Forest, F: Forest, F': Forest, free0: set<nat>, free: set<nat>, free': set<nat>,
                      tables: set<nat>, frames: seq<nat>, inHand: set<nat>, root: nat, virt: nat)
    requires Accounted(F0, F, free0, free, tables, frames, inHand, root, virt)
    requires F.path.Keys !! free && Grown(F, F', free, free')
    ensures Accounted(F0, F', free0, free', tables + (free - free'), frames, inHand, root, virt)
  {
    hide Ix, AddrAt, Spent;
    SpentGrow(free0, free, free', tables, Elems(frames), inHand);
  }

  lemma TablesCount(F: Forest, F': Forest, free: set<nat>, free': set<nat>, tables: set<nat>)
    requires Grown(F, F', free, free') && |free| <= |free'| + 3
    ensures |tables + (free - free')| <= |tables| + 3
  {
    TakenCount(free, free');
    UnionCount(tables, free - free');
  }

  lemma TakenCount(free: set<nat>, free': set<nat>)
    requires free' <= free
    ensures |free - free'| == |free| - |free'|
  {
    assert free == free' + (free - free');
  }

  lemma UnionCount(a: set<nat>, b: set<nat>)
    ensures |a + b| <= |a| + |b|
  {
    assert a + b == a + (b - a);
    assert |a + (b - a)| == |a| + |b - a|;
    assert b == (b - a) + (b * a);
  }

  lemma ElemsSnoc(frames: seq<nat>, n: nat)
    ensures Elems(frames + [n]) == Elems(frames) + {n}
  {}

  lemma AccountedMap(F0: Forest, F: Forest, free0: set<nat>, free: set<nat>,
                     tables: set<nat>, frames: seq<nat>, n: nat, root: nat, virt: nat)
    requires Accounted(F0, F, free0, free, tables, frames, {n}, root, virt) && n !in F.path
    ensures Accounted(F0, WithPath(F, n, F.Norm(root, Ix(AddrAt(virt, |frames|)))), free0, free,
                      tables, frames + [n], {}, root, virt)
  {
    hide Ix, AddrAt;
    ElemsSnoc(frames, n);
    assert Spent(free0, free, tables, Elems(frames + [n]), {});
    hide Spent;
    PlacedMap(F0, F, tables, frames, n, root, virt);
    assert forall j :: 0 <= j < |frames| ==> frames[j] in F.path;
  }

  lemma PlacedMap(F0: Forest, F: Forest, tables: set<nat>, frames: seq<nat>, n: nat, root: nat, virt: nat)
    requires Placed(F0, F, tables, frames, root, virt) && n !in F.path
    ensures Placed(F0, WithPath(F, n, F.Norm(root, Ix(AddrAt(virt, |frames|)))), tables, frames + [n], root, virt)
  {
    hide Ix, AddrAt, Elems;
    ElemsSnoc(frames, n);
  }

  lemma PlacedUnmap(F0: Forest, F: Forest, tables: set<nat>, frames: seq<nat>, root: nat, virt: nat)
    requires Placed(F0, F, tables, frames, root, virt) && Distinct(frames) && |frames| > 0
    requires frames[|frames| - 1] !in F0.path && frames[|frames| - 1] !in tables
    ensures Placed(F0, F.(path := F.path - {frames[|frames| - 1]}), tables, frames[..|frames| - 1], root, virt)
  {
    hide Ix, AddrAt, Elems;
    var n := |frames| - 1;
    ElemsSnoc(frames[..n], frames[n]);
    assert frames == frames[..n] + [frames[n]];
    LastNotBefore(frames);
  }

  lemma LastNotBefore(frames: seq<nat>)
    requires Distinct(frames) && |frames| > 0
    ensures frames[|frames| - 1] !in Elems(frames[..|frames| - 1]) && frames[|frames| - 1] in Elems(frames)
  {}

  lemma SpentUnmap(free0: set<nat>, free: set<nat>, tables: set<nat>, mapped: set<nat>, f: nat, inHand: set<nat>)
    requires Spent(free0, free, tables, mapped + {f}, inHand) && f !in mapped
    ensures Spent(free0, free + {f}, tables, mapped, inHand)
  {}

  lemma AccountedUnmap(F0: Forest, F: Forest, free0: set<nat>, free: set<nat>,
                       tables: set<nat>, frames: seq<nat>, inHand: set<nat>, root: nat, virt: nat)
    requires Accounted(F0, F, free0, free, tables, frames, inHand, root, virt) && |frames| > 0
    requires F0.path.Keys !! free0
    ensures var n := |frames| - 1;
            && frames[n] in free0 && frames[n] !in free
            && Accounted(F0, F.(path := F.path - {frames[n]}), free0, free + {frames[n]}, tables, frames[..n], inHand,
                root, virt)
  {
    hide Ix, AddrAt, Placed, Elems;
    var n := |frames| - 1;
    LastNotBefore(frames);
    ElemsSnoc(frames[..n], frames[n]);
    assert frames == frames[..n] + [frames[n]];
    SpentUnmap(free0, free, tables, Elems(frames[..n]), frames[n], inHand);
    PlacedUnmap(F0, F, tables, frames, root, virt);
  }

  // ---------------------------------------------------------------- owned frames

  ghost function Dropped(F: Forest, f: nat): Forest { Minus(F, {f}) }

  /** An owned frame may leave the forest while its page stays mapped. */
  lemma DropLeafWF(mem: Mem, F: Forest, f: nat)
    requires WF(mem, F) && f in F.path && |F.path[f].idx| == 4
    ensures WF(mem, Dropped(F, f))
  {
    hide Present, Huge, FrameOf, Leads;
    var G := Dropped(F, f);
    forall g | g in G.path ensures PathOk(G, g) && Leads(mem, G.path[g], g) { assert PathOk(F, g); }
    forall g, i | g in G.path && |G.path[g].idx| <= 2 && 0 <= i < ENTRIES ensures EntryOk(mem, G, g, i) {
      assert EntryOk(mem, F, g, i);
    }
  }

  /** A frame recorded at a page's path is what the page's last-level entry maps. */
  lemma OwnedIsMapped(mem: Mem, F: Forest, root: nat, at: seq<nat>, f: nat)
    requires WF(mem, F) && UpperLinked(mem, F.roots) && root in F.roots && IxOk(at)
    requires f in F.path && F.path[f] == F.Norm(root, at)
    ensures SmallPage(mem, root, at) && Walk(mem, root, at) == Some(f)
    ensures Disown(Dropped(F, f), F.Norm(root, at)) == Dropped(F, f)
  {
    hide Present, Huge, FrameOf;
    assert Leads(mem, F.path[f], f);
    if at[0] >= KERNEL_START {
      assert at[..3][0] == at[0];
      UpperShared(mem, F, root, at[..3]);
    }
    WalkViaTable(mem, F, root, at);
    forall g | g in F.path && g != f ensures F.path[g] != F.Norm(root, at) {
      if F.path[g] == F.path[f] { PathInjective(mem, F, f, g); }
    }
    assert Disown(Dropped(F, f), F.Norm(root, at)).path == Dropped(F, f).path;
  }

  class Spaces {
    const dirs: Directories

    constructor (directories: Directories)
      ensures dirs == directories
    {
      dirs := directories;
    }

    /** Free one owned page the way rollback does: first the frame, then the entry. */
    method ReleasePage(root: nat, virt: nat, ghost f: nat)
      requires dirs.Valid() && root in dirs.F.roots && virt % PAGE == 0
      requires f in dirs.F.path && dirs.F.path[f] == dirs.F.Norm(root, Ix(virt)) && f < dirs.pmm.maxPages && f != 0
      modifies dirs`mem, dirs`F, dirs.pmm`usedPages, dirs.pmm`freePages, dirs.pmm`lastFound, dirs.pmm`free,
               dirs.pmm.bitmap
      ensures dirs.Valid() && dirs.F == Dropped(old(dirs.F), f) && dirs.F.roots == old(dirs.F.roots)
      ensures dirs.pmm.free == old(dirs.pmm.free) + {f}
      ensures PageChanged(old(dirs.mem), dirs.mem, dirs.F.roots, root, Ix(virt), None)
    {
      hide WF, UpperLinked, Walk, Ix, PageChanged, SmallPage, Disown, Pmm.Represents;
      FrameAddress(f, virt);
      OwnedIsMapped(dirs.mem, dirs.F, root, Ix(virt), f);
      DropLeafWF(dirs.mem, dirs.F, f);
      var phys := dirs.GetPhys(root, virt);
      dirs.F := Dropped(dirs.F, f);
      if phys != 0xFFFF_FFFF {
        var st := dirs.pmm.Free(phys);
      }
      var un := dirs.Unmap(root, virt);
    }

    /** Unmap and free the pages mapped so far, last one first, while the address is above the start. */
    method Rollback(root: nat, virt0: nat, now: nat, ghost F0: Forest, ghost mem0: Mem, ghost free0: set<nat>,
                    ghost tables: set<nat>, ghost mapped: seq<nat>, ghost inHand: set<nat>)
      returns (ghost frames: seq<nat>)
      requires dirs.Valid() && root in dirs.F.roots && virt0 < ADDRESSES && virt0 % PAGE == 0
      requires |mapped| * PAGE < ADDRESSES && now == AddrAt(virt0, |mapped|)
      requires Accounted(F0, dirs.F, free0, dirs.pmm.free, tables, mapped, inHand, root, virt0)
      requires F0.path.Keys !! free0 && 0 !in free0 && forall f :: f in free0 ==> f < dirs.pmm.maxPages
      requires RangeMapped(mem0, dirs.mem, dirs.F.roots, root, virt0, mapped)
      requires Vacant(mem0, dirs.F.roots, root, virt0, mapped)
      modifies dirs`mem, dirs`F, dirs.pmm`usedPages, dirs.pmm`freePages, dirs.pmm`lastFound, dirs.pmm`free,
               dirs.pmm.bitmap
      ensures dirs.Valid() && dirs.F.roots == old(dirs.F.roots)
      ensures frames == if virt0 + |mapped| * PAGE < ADDRESSES then [] else mapped
      ensures Accounted(F0, dirs.F, free0, dirs.pmm.free, tables, frames, inHand, root, virt0)
      ensures RangeMapped(mem0, dirs.mem, dirs.F.roots, root, virt0, frames)
      ensures Vacant(mem0, dirs.F.roots, root, virt0, frames)
    {
      hide WF, UpperLinked, Walk, Ix, Accounted, RangeMapped, Vacant, AddrAt, PageChanged;
      var virt := now;
      frames := mapped;
      AddrAtFacts(virt0, |mapped|);
      while virt > virt0
        invariant dirs.Valid() && dirs.F.roots == old(dirs.F.roots)
        invariant Accounted(F0, dirs.F, free0, dirs.pmm.free, tables, frames, inHand, root, virt0)
        invariant RangeMapped(mem0, dirs.mem, dirs.F.roots, root, virt0, frames)
        invariant Vacant(mem0, dirs.F.roots, root, virt0, frames)
        invariant virt0 + |mapped| * PAGE >= ADDRESSES ==> virt <= virt0 && frames == mapped
        invariant virt0 + |mapped| * PAGE < ADDRESSES ==> |frames| <= |mapped| && virt == virt0 + |frames| * PAGE
        decreases virt
      {
        virt := virt - PAGE;
        ghost var k := |frames| - 1;
        AddrAtFacts(virt0, k);
        LastOwned(F0, dirs.F, free0, dirs.pmm.free, tables, frames, inHand, root, virt0);
        AccountedUnmap(F0, dirs.F, free0, dirs.pmm.free, tables, frames, inHand, root, virt0);
        ghost var mem1 := dirs.mem;
        ReleasePage(root, virt, frames[k]);
        RangeShrinks(mem0, mem1, dirs.mem, dirs.F.roots, root, virt0, frames);
        frames := frames[..k];
      }
    }

    /** One round of vmm_alloc: take a frame and map it at the next page of the range. */
    method MapNext(root: nat, virt: nat, flags: nat, ghost virt0: nat, ghost F0: Forest, ghost mem0: Mem,
                   ghost free0: set<nat>,
                   ghost tables0: set<nat>, ghost frames0: seq<nat>)
      returns (ok: bool, taken: bool, ghost tables: set<nat>, ghost frames: seq<nat>, ghost inHand: set<nat>)
      requires dirs.Valid() && root in dirs.F.roots && IsFlags(flags) && virt == AddrAt(virt0, |frames0|)
      requires Accounted(F0, dirs.F, free0, dirs.pmm.free, tables0, frames0, {}, root, virt0)
      requires RangeMapped(mem0, dirs.mem, dirs.F.roots, root, virt0, frames0)
      requires Vacant(mem0, dirs.F.roots, root, virt0, frames0)
      modifies dirs`mem, dirs`F, dirs.pmm`usedPages, dirs.pmm`freePages, dirs.pmm`lastFound, dirs.pmm`free,
               dirs.pmm.bitmap
      ensures dirs.Valid() && dirs.F.roots == old(dirs.F.roots)
      ensures Accounted(F0, dirs.F, free0, dirs.pmm.free, tables, frames, inHand, root, virt0)
      ensures RangeMapped(mem0, dirs.mem, dirs.F.roots, root, virt0, frames)
      ensures Vacant(mem0, dirs.F.roots, root, virt0, frames)
      ensures |frames| == |frames0| + (if ok then 1 else 0)
      ensures if ok then inHand == {} && Canonical(virt) else |inHand| <= 1 && frames == frames0
      ensures !ok ==> (inHand != {} <==> taken)
      ensures !ok && inHand == {} ==> dirs.pmm.free == {}
      ensures |tables| <= |tables0| + 3
      ensures !ok && virt % PAGE == 0 ==>
                dirs.pmm.free == {} || !Canonical(virt) || Walk(old(dirs.mem), root, Ix(virt)).Some?
    {
      hide WF, UpperLinked, Walk, Ix, Accounted, RangeMapped, Vacant, AddrAt, PageChanged, SameWalks, Grown,
           Pmm.Represents;
      tables, frames, inHand := tables0, frames0, {};
      ghost var memA, freeA := dirs.mem, dirs.pmm.free;
      var n := dirs.AllocZeroed();
      SameWalksRange(mem0, memA, dirs.mem, dirs.F.roots, root, virt0, frames0);
      SameWalkAt(memA, dirs.mem, dirs.F.roots, root, Ix(virt));
      if n == 0 {
        return false, false, tables, frames, inHand;
      }
      FrameAddress(n, 0);
      AccountedTake(F0, dirs.F, free0, freeA, tables0, frames0, root, virt0, n);
      inHand := {n};
      ghost var memB, FB, freeB := dirs.mem, dirs.F, dirs.pmm.free;
      var st, mid := dirs.Map(root, virt, n * PAGE, flags, true);
      AccountedGrow(F0, FB, mid, free0, freeB, dirs.pmm.free, tables0, frames0, inHand, root, virt0);
      tables := tables0 + (freeB - dirs.pmm.free);
      TablesCount(FB, mid, freeB, dirs.pmm.free, tables0);
      GrownKeeps(FB, mid, freeB, dirs.pmm.free);
      ok, taken := st == Ok, true;
      if ok {
        GrownFresh(FB, mid, freeB, dirs.pmm.free, n);
        AccountedMap(F0, mid, free0, dirs.pmm.free, tables, frames0, n, root, virt0);
        VacantExtends(mem0, memB, FB, root, virt0, frames0, n);
        RangeExtends(mem0, memB, dirs.mem, dirs.F.roots, root, virt0, frames0, n);
        frames, inHand := frames0 + [n], {};
      } else {
        SameWalksRange(mem0, memB, dirs.mem, dirs.F.roots, root, virt0, frames0);
      }
    }

    /**
     * vmm_alloc. Success maps exactly the pages of the range, each unmapped before, to distinct frames that were free.
     * Failure at page `at` leaves every translation as it was if and only if that page lies below the top of the
     * address space: past it the rollback loop does not start, and all pages mapped so far stay. The frames taken from
     * the PMM are the new tables, at most three for each page, the frames still mapped, and the frame in hand when
     * paging_map failed, which is lost. It fails only at a page that is not canonical or already mapped, or when every
     * free frame has been taken.
     */
    method AllocRange(root: nat, virt0: nat, size: nat, flags: nat)
      returns (st: Status, mapFailed: bool, ghost tables: set<nat>, ghost frames: seq<nat>, ghost inHand: set<nat>,
               ghost at: nat)
      requires dirs.Valid() && root in dirs.F.roots && virt0 < ADDRESSES && size < ADDRESSES && IsFlags(flags)
      modifies dirs`mem, dirs`F, dirs.pmm`usedPages, dirs.pmm`freePages, dirs.pmm`lastFound, dirs.pmm`free,
               dirs.pmm.bitmap
      ensures dirs.Valid() && dirs.F.roots == old(dirs.F.roots)
      ensures Accounted(old(dirs.F), dirs.F, old(dirs.pmm.free), dirs.pmm.free, tables, frames, inHand, root, virt0)
      ensures RangeMapped(old(dirs.mem), dirs.mem, dirs.F.roots, root, virt0, frames)
      ensures Vacant(old(dirs.mem), dirs.F.roots, root, virt0, frames)
      ensures |inHand| == if mapFailed then 1 else 0
      ensures st == Ok ==> Sensible(virt0, size) && |frames| == PageCount(size) && inHand == {}
      ensures st == Error ==> |frames| == if virt0 + at * PAGE < ADDRESSES then 0 else at
      ensures st == Error ==> (SameWalks(old(dirs.mem), dirs.mem, dirs.F.roots) <==> virt0 + at * PAGE < ADDRESSES)
      ensures st == Error && virt0 + PageCount(size) * PAGE <= ADDRESSES ==>
                SameWalks(old(dirs.mem), dirs.mem, dirs.F.roots)
      ensures st == Error && Sensible(virt0, size) ==> at < PageCount(size) && |tables| <= 3 * (at + 1)
      ensures st == Error && !Sensible(virt0, size) ==> at == 0 && tables == {} && inHand == {}
      ensures st == Error && Sensible(virt0, size) ==> (inHand == {} <==> |old(dirs.pmm.free)| == |tables| + at)
      ensures st == Error && Sensible(virt0, size) && !FailsAt(old(dirs.mem), root, virt0, at) ==>
                |old(dirs.pmm.free)| == |tables| + at + |inHand|
      ensures |old(dirs.pmm.free)| == |dirs.pmm.free| + |tables| + |frames| + |inHand|
    {
      hide WF, UpperLinked, Walk, Ix, Accounted, RangeMapped, Vacant, AddrAt, PageChanged, SameWalks, Pmm.Represents;
      ghost var F0, mem0, free0 := dirs.F, dirs.mem, dirs.pmm.free;
      tables, frames, inHand, at := {}, [], {}, 0;
      AccountedStart(F0, free0, root, virt0);
      RangeStart(mem0, F0.roots, root, virt0);
      FreeBelow(dirs.pmm);
      st, mapFailed := Error, false;
      if size != 0 && virt0 % PAGE == 0 {
        var n, i, ok, virt := PageCount(size), 0, true, virt0;
        AddrAtFacts(virt0, 0);
        while i < n && ok
          invariant dirs.Valid() && dirs.F.roots == F0.roots
          invariant 0 <= i <= n && |frames| == i && virt == AddrAt(virt0, i)
          invariant Accounted(F0, dirs.F, free0, dirs.pmm.free, tables, frames, inHand, root, virt0)
          invariant RangeMapped(mem0, dirs.mem, F0.roots, root, virt0, frames)
          invariant Vacant(mem0, F0.roots, root, virt0, frames)
          invariant if ok then inHand == {} else i < n
          invariant |inHand| == if mapFailed then 1 else 0
          invariant AllCanonical(virt0, i) && |tables| <= 3 * (if ok then i else i + 1)
          invariant !ok ==> FailsAt(mem0, root, virt0, i) || |free0| == |tables| + i + |inHand|
          invariant !ok ==> (inHand == {} <==> |free0| == |tables| + i)
          decreases n - i, ok
        {
          ghost var memI, framesI := dirs.mem, frames;
          var taken;
          ok, taken, tables, frames, inHand := MapNext(root, virt, flags, virt0, F0, mem0, free0, tables, frames);
          PageCountSmall(size, i);
          AddrAtFacts(virt0, i);
          if ok {
            virt := (virt + PAGE) % ADDRESSES;
            i := i + 1;
          } else {
            mapFailed := taken;
            FailedWhy(mem0, memI, F0, dirs.F, free0, dirs.pmm.free, root, virt0, framesI, tables, inHand);
          }
        }
        at := i;
        if ok {
          st := Ok;
        } else {
          PageCountSmall(size, i);
          frames := Rollback(root, virt0, virt, F0, mem0, free0, tables, frames, inHand);
        }
      }
      MappedShows(mem0, dirs.mem, F0.roots, root, virt0, frames);
      AccountedCount(F0, dirs.F, free0, dirs.pmm.free, tables, frames, inHand, root, virt0);
    }

    /**
     * One round of vmm_free: first the entry, then the frame. A page that is not mapped reads as address 0, which is
     * not the value the code tests for, so physical page 0 is freed. At an unaligned address neither call succeeds.
     */
    method FreePage(root: nat, virt: nat)
      requires dirs.Sound() && root in dirs.F.roots && dirs.pmm.maxPages > 0
      requires OwnsPage(dirs.mem, dirs.F, root, Ix(virt), dirs.pmm.maxPages)
      modifies dirs`mem, dirs`F, dirs.pmm`usedPages, dirs.pmm`freePages, dirs.pmm`lastFound, dirs.pmm`free,
               dirs.pmm.bitmap
      ensures dirs.Sound() && dirs.F.roots == old(dirs.F.roots)
      ensures virt % PAGE == 0 ==> PageChanged(old(dirs.mem), dirs.mem, dirs.F.roots, root, Ix(virt), None)
      ensures virt % PAGE != 0 ==> SameWalks(old(dirs.mem), dirs.mem, dirs.F.roots)
      ensures match Walk(old(dirs.mem), root, Ix(virt))
              case None => dirs.F == old(dirs.F) && dirs.pmm.free == old(dirs.pmm.free) + {0}
              case Some(f) => if virt % PAGE == 0 then dirs.F == Minus(old(dirs.F), {f})
                  && dirs.pmm.free == old(dirs.pmm.free) + {f}
                              else dirs.F == old(dirs.F) && dirs.pmm.free == old(dirs.pmm.free)
    {
      hide WF, UpperLinked, Walk, Ix, PageChanged, SmallPage, Disown, Pmm.Represents, SameWalks, OwnsPage, Minus;
      ghost var mem0, w := dirs.mem, Walk(dirs.mem, root, Ix(virt));
      SameWalksRefl(dirs.mem, dirs.F.roots);
      PageFacts(dirs.mem, dirs.F, root, Ix(virt), dirs.pmm.maxPages);
      FrameOffset(if w.Some? then w.value else 0, virt);
      var phys := dirs.GetPhys(root, virt);
      assert virt % PAGE == 0 ==> phys % PAGE == 0;
      if phys != 0xFFFF_FFFF {
        var un := dirs.Unmap(root, virt);
        if w.None? {
          UnmappedStays(mem0, dirs.mem, dirs.F, root, Ix(virt));
        }
        var st := dirs.pmm.Free(phys);
      }
    }

    /**
     * vmm_free over a range whose mapped pages map frames the address space owns. From an aligned start the pages go
     * and their frames become free; from an unaligned one nothing is unmapped. Physical page 0 is freed as well, which
     * spoils the state, if and only if a page of the range is not mapped when its turn comes.
     */
    method FreeRange(root: nat, virt0: nat, size: nat)
      requires dirs.Sound() && root in dirs.F.roots && virt0 < ADDRESSES
      requires (PageCount(size) > 0 ==> dirs.pmm.maxPages > 0)
      requires OwnsRange(dirs.mem, dirs.F, root, virt0, PageCount(size), dirs.pmm.maxPages)
      modifies dirs`mem, dirs`F, dirs.pmm`usedPages, dirs.pmm`freePages, dirs.pmm`lastFound, dirs.pmm`free,
               dirs.pmm.bitmap
      ensures dirs.Sound() && dirs.F.roots == old(dirs.F.roots)
      ensures Freed(old(dirs.mem), dirs.mem, old(dirs.F), dirs.F, old(dirs.pmm.free), dirs.pmm.free, root, virt0,
                    PageCount(size))
      ensures old(dirs.Valid()) ==> (dirs.Valid() <==> !Holes(old(dirs.mem), root, virt0, PageCount(size)))
    {
      hide WF, UpperLinked, Walk, Ix, AddrAt, PageChanged, OwnsRange, OwnsPage, Freed, PageCount, Pmm.Represents, Holes,
           SameWalks, Minus;
      ghost var F0, mem0, free0 := dirs.F, dirs.mem, dirs.pmm.free;
      var n, i, virt := PageCount(size), 0, virt0;
      AddrAtAny(virt0, 0);
      FreedNothing(mem0, F0, free0, root, virt0);
      while i < n
        invariant dirs.Sound() && 0 <= i <= n && virt == AddrAt(virt0, i) && dirs.F.roots == F0.roots
        invariant Freed(mem0, dirs.mem, F0, dirs.F, free0, dirs.pmm.free, root, virt0, i)
      {
        PageCountSmall(size, i);
        AddrAtAny(virt0, i);
        StillOwns(mem0, dirs.mem, F0, dirs.F, free0, dirs.pmm.free, root, virt0, n, dirs.pmm.maxPages, i);
        ghost var mem1, F1, free1 := dirs.mem, dirs.F, dirs.pmm.free;
        FreePage(root, virt);
        FreedStep(mem0, mem1, dirs.mem, F0, F1, dirs.F, free0, free1, dirs.pmm.free, root, virt0, i);
        virt := (virt + PAGE) % ADDRESSES;
        i := i + 1;
      }
      FreedZero(mem0, dirs.mem, F0, dirs.F, free0, dirs.pmm.free, root, virt0, n, dirs.pmm.maxPages);
    }

    /** vmm_free undoes a successful vmm_alloc: every translation is back, and only the new tables stay taken. */
    method AllocThenFree(root: nat, virt0: nat, size: nat, flags: nat) returns (st: Status, ghost tables: set<nat>)
      requires dirs.Valid() && root in dirs.F.roots && virt0 < ADDRESSES && size < ADDRESSES && IsFlags(flags)
      modifies dirs`mem, dirs`F, dirs.pmm`usedPages, dirs.pmm`freePages, dirs.pmm`lastFound, dirs.pmm`free,
               dirs.pmm.bitmap
      ensures dirs.Valid()
      ensures st == Ok ==> SameWalks(old(dirs.mem), dirs.mem, dirs.F.roots)
      ensures st == Ok ==>
                dirs.pmm.free == old(dirs.pmm.free) - tables && dirs.F.path.Keys == old(dirs.F.path.Keys) + tables
    {
      hide WF, UpperLinked, Walk, Ix, RangeMapped, RangeCleared, Vacant, AddrAt, SameWalks, Pmm.Represents, Freed,
           Holes,
           OwnsRange, FramesOf, Minus, Accounted, OwnedRange;
      ghost var frames, inHand;
      ghost var F0, mem0, free0 := dirs.F, dirs.mem, dirs.pmm.free;
      FreeBelow(dirs.pmm);
      ghost var at;
      var mapFailed;
      st, mapFailed, tables, frames, inHand, at := AllocRange(root, virt0, size, flags);
      if st == Ok {
        ghost var F1, mem1, free1 := dirs.F, dirs.mem, dirs.pmm.free;
        AccountedOwned(F0, F1, free0, free1, tables, frames, inHand, root, virt0);
        OwnedIsOwns(mem1, F1, root, virt0, frames, dirs.pmm.maxPages);
        assert |frames| > 0 ==> 0 < frames[0] < dirs.pmm.maxPages;
        FreeRange(root, virt0, size);
        FreedAll(mem1, dirs.mem, F1, dirs.F, free1, dirs.pmm.free, root, virt0, frames);
        AllocFreeSets(F0, F1, free0, free1, tables, frames, root, virt0);
        AllocFreeWalks(mem0, mem1, dirs.mem, F0.roots, root, virt0, frames);
      }
    }

    /**
     * A range of two pages that starts at the last page of the address space and meets a mapped page 0: the allocation
     * fails, and the last page stays mapped.
     */
    method WrappedRollback(root: nat, flags: nat) returns (st: Status)
      requires dirs.Valid() && root in dirs.F.roots && IsFlags(flags) && dirs.pmm.freePages > 4
      requires Walk(dirs.mem, root, Ix(ADDRESSES - PAGE)).None? && Walk(dirs.mem, root, Ix(0)).Some?
      modifies dirs`mem, dirs`F, dirs.pmm`usedPages, dirs.pmm`freePages, dirs.pmm`lastFound, dirs.pmm`free,
               dirs.pmm.bitmap
      ensures dirs.Valid() && st == Error && Walk(dirs.mem, root, Ix(ADDRESSES - PAGE)).Some?
    {
      hide WF, UpperLinked, Walk, Ix, Accounted, SameWalks, Canonical, Pmm.Represents;
      ghost var tables, frames, inHand, at;
      ghost var mem0 := dirs.mem;
      TopWraps();
      var mapFailed;
      st, mapFailed, tables, frames, inHand, at := AllocRange(root, ADDRESSES - PAGE, 2 * PAGE, flags);
      TopRange(mem0, dirs.mem, dirs.F.roots, root, frames);
    }
  }

  /** The arguments vmm_alloc accepts. */
  predicate Sensible(virt: nat, size: nat) { size > 0 && virt % PAGE == 0 }

  /** The pages cover the size unless adding the rounding overflows; then there are none. */
  lemma PagesCover(size: nat)
    requires size < ADDRESSES
    ensures PageCount(size) * PAGE >= size <==> size <= ADDRESSES - PAGE
    ensures size > ADDRESSES - PAGE ==> PageCount(size) == 0
  {}

  lemma PageFacts(mem: Mem, F: Forest, root: nat, at: seq<nat>, maxPages: nat)
    requires WF(mem, F) && UpperLinked(mem, F.roots) && root in F.roots && IxOk(at)
    requires OwnsPage(mem, F, root, at, maxPages)
    ensures match Walk(mem, root, at)
            case None => !SmallPage(mem, root, at)
            case Some(f) => && SmallPage(mem, root, at) && 0 < f < maxPages && f in F.path
                            && Disown(F, F.Norm(root, at)) == Minus(F, {f}) && Minus(F, {f}).roots == F.roots
                            && Minus(F, {f}).path.Keys == F.path.Keys - {f}
  {
    hide WF, UpperLinked, Walk, SmallPage, Disown;
    var w := Walk(mem, root, at);
    if w.Some? {
      OwnedIsMapped(mem, F, root, at, w.value);
      DisownIsDrop(mem, F, w.value);
    } else {
      NotMappedNotSmall(mem, F, root, at);
    }
  }

  /** A page without a translation has no entry to clear. */
  lemma NotMappedNotSmall(mem: Mem, F: Forest, root: nat, at: seq<nat>)
    requires WF(mem, F) && UpperLinked(mem, F.roots) && root in F.roots && IxOk(at) && Walk(mem, root, at).None?
    ensures !SmallPage(mem, root, at)
  {
    hide WF, UpperLinked, Walk, Present, Huge, FrameOf;
    WalkViaTable(mem, F, root, at);
  }

  /** Leaving an unmapped page unmapped changes nothing, in any directory it shows in. */
  lemma UnmappedStays(mem: Mem, mem': Mem, F: Forest, root: nat, at: seq<nat>)
    requires WF(mem, F) && UpperLinked(mem, F.roots) && root in F.roots && IxOk(at)
    requires Walk(mem, root, at).None? && SameWalks(mem, mem', F.roots)
    ensures PageChanged(mem, mem', F.roots, root, at, None)
  {
    hide Walk, WF, UpperLinked;
    forall r | r in F.roots && Affects(r, root, at) ensures Walk(mem, r, at).None? {
      if r != root {
        KernelHalfCoherent(mem, F, r, at);
        KernelHalfCoherent(mem, F, root, at);
      }
    }
  }

  /** Mapping vacant pages is seen. */
  lemma MappedShows(mem: Mem, mem': Mem, roots: set<nat>, root: nat, virt: nat, frames: seq<nat>)
    requires RangeMapped(mem, mem', roots, root, virt, frames) && Vacant(mem, roots, root, virt, frames)
    requires root in roots
    ensures SameWalks(mem, mem', roots) <==> frames == []
  {
    hide Walk, Ix, AddrAt;
    if frames == [] {
      RangeMappedNone(mem, mem', roots, root, virt);
    } else {
      var n := |frames| - 1;
      var ix := Ix(AddrAt(virt, n));
      OverlayMatch(Walk(mem, root, ix), root, root, virt, frames[..n], ix);
      assert Walk(mem', root, ix) == Overlay(Walk(mem, root, ix), root, root, virt, frames, ix) == Some(frames[n]);
    }
  }

  lemma TopWraps()
    ensures AddrAt(ADDRESSES - PAGE, 0) == ADDRESSES - PAGE && AddrAt(ADDRESSES - PAGE, 1) == 0
    ensures Canonical(ADDRESSES - PAGE)
    ensures PageCount(2 * PAGE) == 2
  {}

  lemma TopRange(mem: Mem, mem': Mem, roots: set<nat>, root: nat, frames: seq<nat>)
    requires RangeMapped(mem, mem', roots, root, ADDRESSES - PAGE, frames)
    requires Vacant(mem, roots, root, ADDRESSES - PAGE, frames)
    requires root in roots && Walk(mem, root, Ix(0)).Some?
    ensures |frames| < 2
    ensures |frames| == 1 ==> Walk(mem', root, Ix(ADDRESSES - PAGE)).Some?
  {
    hide Walk, Ix;
    TopWraps();
    if |frames| >= 2 {
      OverlayMatch(Walk(mem, root, Ix(0)), root, root, ADDRESSES - PAGE, frames[..1], Ix(0));
      assert false;
    }
    if |frames| == 1 {
      var ix := Ix(ADDRESSES - PAGE);
      assert Walk(mem', root, ix) == Overlay(Walk(mem, root, ix), root, root, ADDRESSES - PAGE, frames, ix);
    }
  }

  ghost predicate AllCanonical(virt: nat, n: nat) { forall j :: 0 <= j < n ==> Canonical(AddrAt(virt, j)) }

  /** Page `j` of the range cannot be mapped: it is not canonical, or was mapped before. */
  ghost predicate FailsAt(mem: Mem, root: nat, virt: nat, j: nat) {
    !Canonical(AddrAt(virt, j)) || Walk(mem, root, Ix(AddrAt(virt, j))).Some?
  }

  /** Why a round failed: the page itself, or no frame is left. A page of the range is never in the way of another. */
  lemma FailedWhy(mem0: Mem, mem: Mem, F0: Forest, F: Forest, free0: set<nat>, free: set<nat>, root: nat, virt: nat,
                  frames: seq<nat>,
                  tables: set<nat>, inHand: set<nat>)
    requires Accounted(F0, F, free0, free, tables, frames, inHand, root, virt) && root in F0.roots
    requires RangeMapped(mem0, mem, F0.roots, root, virt, frames) && AllCanonical(virt, |frames|) && virt < ADDRESSES
    requires virt % PAGE == 0
    requires |frames| * PAGE < ADDRESSES
    requires free == {} || FailsAt(mem, root, virt, |frames|)
    requires inHand == {} ==> free == {}
    ensures FailsAt(mem0, root, virt, |frames|) || |free0| == |tables| + |frames| + |inHand|
    ensures inHand == {} <==> |free0| == |tables| + |frames|
  {
    hide Walk, Ix, AddrAt, Overlay, Accounted;
    AccountedCount(F0, F, free0, free, tables, frames, inHand, root, virt);
    if free != {} && Canonical(AddrAt(virt, |frames|)) {
      var ix := Ix(AddrAt(virt, |frames|));
      assert Walk(mem, root, ix) == Overlay(Walk(mem0, root, ix), root, root, virt, frames, ix);
      OverlayMatch(Walk(mem0, root, ix), root, root, virt, frames, ix);
      if j :| 0 <= j < |frames| && ix == Ix(AddrAt(virt, j)) && Affects(root, root, Ix(AddrAt(virt, j))) {
        IxIdentifiesPage(AddrAt(virt, |frames|), AddrAt(virt, j));
        RangePagesDiffer(virt, j, |frames|);
      }
    }
  }

  lemma RangePagesDiffer(virt: nat, i: nat, j: nat)
    requires virt < ADDRESSES && virt % PAGE == 0 && i < j && j * PAGE < ADDRESSES
    ensures AddrAt(virt, i) / PAGE != AddrAt(virt, j) / PAGE
  {
    AddrAtFacts(virt, i);
    AddrAtFacts(virt, j);
    assert AddrAt(virt, i) != AddrAt(virt, j);
  }

  // ---------------------------------------------------------------- releasing a range

  /** Each page of the range has its frame recorded at its path. */
  ghost predicate OwnedRange(F: Forest, root: nat, virt: nat, frames: seq<nat>) {
    && Distinct(frames)
    && forall j :: 0 <= j < |frames| ==> frames[j] in F.path && F.path[frames[j]] == F.Norm(root, Ix(AddrAt(virt, j)))
  }

  /** The walk `w` of page `ix` after the first `n` pages of a range are unmapped. */
  ghost function Cleared(w: Option<nat>, r: nat, root: nat, virt: nat, n: nat, ix: seq<nat>): Option<nat> {
    if n == 0 then w
    else if ix == Ix(AddrAt(virt, n - 1)) && Affects(r, root, Ix(AddrAt(virt, n - 1))) then None
    else Cleared(w, r, root, virt, n - 1, ix)
  }

  ghost predicate RangeCleared(mem: Mem, mem': Mem, roots: set<nat>, root: nat, virt: nat, n: nat) {
    forall r, ix :: r in roots && IxOk(ix) ==>
      Walk(mem', r, ix) == Cleared(Walk(mem, r, ix), r, root, virt, n, ix)
  }

  lemma RangeClearedStep(mem0: Mem, mem: Mem, mem': Mem, roots: set<nat>, root: nat, virt: nat, n: nat)
    requires RangeCleared(mem0, mem, roots, root, virt, n)
    requires PageChanged(mem, mem', roots, root, Ix(AddrAt(virt, n)), None)
    ensures RangeCleared(mem0, mem', roots, root, virt, n + 1)
  {
    hide Walk, Ix, AddrAt;
    var at := Ix(AddrAt(virt, n));
    forall r, ix | r in roots && IxOk(ix)
      ensures Walk(mem', r, ix) == Cleared(Walk(mem0, r, ix), r, root, virt, n + 1, ix)
    {
      assert Walk(mem, r, ix) == Cleared(Walk(mem0, r, ix), r, root, virt, n, ix);
      assert Walk(mem', r, ix) == if ix == at && Affects(r, root, at) then None else Walk(mem, r, ix);
    }
  }

  ghost function Minus(F: Forest, fs: set<nat>): Forest { F.(path := F.path - fs) }

  /** The frames the first `n` pages of a range map. */
  ghost function FramesOf(mem: Mem, root: nat, virt: nat, n: nat): set<nat> {
    if n == 0 then {}
    else
      var w := Walk(mem, root, Ix(AddrAt(virt, n - 1)));
      FramesOf(mem, root, virt, n - 1) + if w.Some? then {w.value} else {}
  }

  /** If the page is mapped, its frame is recorded at its path. */
  ghost predicate OwnsPage(mem: Mem, F: Forest, root: nat, at: seq<nat>, maxPages: nat)
    requires IxOk(at)
  {
    match Walk(mem, root, at)
    case None => true
    case Some(f) => f in F.path && F.path[f] == F.Norm(root, at) && 0 < f < maxPages
  }

  ghost predicate OwnsRange(mem: Mem, F: Forest, root: nat, virt: nat, n: nat, maxPages: nat) {
    forall j :: 0 <= j < n ==> OwnsPage(mem, F, root, Ix(AddrAt(virt, j)), maxPages)
  }

  /**
   * Page `j` of the range is not mapped when its turn comes: it never was, or it is a page the range has met before.
   */
  ghost predicate Hole(mem: Mem, root: nat, virt: nat, j: nat) {
    var at := Ix(AddrAt(virt, j));
    if virt % PAGE == 0 then Cleared(Walk(mem, root, at), root, root, virt, j, at).None? else Walk(mem, root, at).None?
  }

  ghost predicate Holes(mem: Mem, root: nat, virt: nat, n: nat) { exists j :: 0 <= j < n && Hole(mem, root, virt, j) }

  /** The state after the first `n` rounds of vmm_free. */
  ghost predicate Freed(mem: Mem, mem': Mem, F: Forest, F': Forest, free: set<nat>, free': set<nat>, root: nat,
                        virt: nat, n: nat) {
    var fs := if virt % PAGE == 0 then FramesOf(mem, root, virt, n) else {};
    && (if virt % PAGE == 0 then RangeCleared(mem, mem', F.roots, root, virt, n) else SameWalks(mem, mem', F.roots))
    && F' == Minus(F, fs)
    && free' == free + fs + if Holes(mem, root, virt, n) then {0} else {}
  }

  lemma FreedNothing(mem: Mem, F: Forest, free: set<nat>, root: nat, virt: nat)
    ensures Freed(mem, mem, F, F, free, free, root, virt, 0)
  {
    assert F.path - {} == F.path;
  }

  /** A frame of the range is freed in the round of its page. */
  lemma {:induction false} FrameOfPage(mem: Mem, root: nat, virt: nat, n: nat, f: nat)
    ensures f in FramesOf(mem, root, virt, n) <==>
              exists j :: 0 <= j < n && Walk(mem, root, Ix(AddrAt(virt, j))) == Some(f)
  {
    hide Ix, AddrAt, Walk;
    if n > 0 { FrameOfPage(mem, root, virt, n - 1, f); }
  }

  lemma StillOwns(mem: Mem, mem': Mem, F: Forest, F': Forest, free: set<nat>, free': set<nat>, root: nat, virt: nat,
                  n: nat, maxPages: nat, i: nat)
    requires Freed(mem, mem', F, F', free, free', root, virt, i) && root in F.roots && i < n
    requires OwnsRange(mem, F, root, virt, n, maxPages)
    ensures OwnsPage(mem', F', root, Ix(AddrAt(virt, i)), maxPages)
    ensures Hole(mem, root, virt, i) <==> Walk(mem', root, Ix(AddrAt(virt, i))).None?
    ensures Walk(mem', root, Ix(AddrAt(virt, i))).Some? ==>
              Walk(mem', root, Ix(AddrAt(virt, i))) == Walk(mem, root, Ix(AddrAt(virt, i)))
  {
    hide Ix, AddrAt, Walk, Cleared;
    var at := Ix(AddrAt(virt, i));
    assert OwnsPage(mem, F, root, at, maxPages);
    if virt % PAGE == 0 {
      assert Walk(mem', root, at) == Cleared(Walk(mem, root, at), root, root, virt, i, at);
      ClearedMatch(Walk(mem, root, at), root, root, virt, i, at);
      if Walk(mem', root, at).Some? {
        var f := Walk(mem', root, at).value;
        FrameOfPage(mem, root, virt, i, f);
        forall j | 0 <= j < i ensures Walk(mem, root, Ix(AddrAt(virt, j))) != Some(f) {
          assert OwnsPage(mem, F, root, Ix(AddrAt(virt, j)), maxPages);
        }
      }
    } else {
      assert Walk(mem', root, at) == Walk(mem, root, at);
      assert F'.path == F.path;
    }
  }

  lemma FreedStep(mem: Mem, mem1: Mem, mem2: Mem, F: Forest, F1: Forest, F2: Forest, free: set<nat>, free1: set<nat>,
                  free2: set<nat>, root: nat, virt: nat, i: nat)
    requires Freed(mem, mem1, F, F1, free, free1, root, virt, i) && F2.roots == F.roots && root in F.roots
    requires var at := Ix(AddrAt(virt, i));
             && (Hole(mem, root, virt, i) <==> Walk(mem1, root, at).None?)
             && (Walk(mem1, root, at).Some? ==> Walk(mem1, root, at) == Walk(mem, root, at))
             && (if virt % PAGE == 0 then PageChanged(mem1, mem2, F2.roots, root, at, None)
                 else SameWalks(mem1, mem2, F2.roots))
             && match Walk(mem1, root, at)
                case None => F2 == F1 && free2 == free1 + {0}
                case Some(f) =>
                  if virt % PAGE == 0 then F2 == Minus(F1, {f}) && free2 == free1 + {f}
                  else F2 == F1 && free2 == free1
    ensures Freed(mem, mem2, F, F2, free, free2, root, virt, i + 1)
  {
    hide Ix, AddrAt, Walk, Cleared, RangeCleared, SameWalks, PageChanged, Hole;
    HolesStep(mem, root, virt, i);
    if virt % PAGE == 0 {
      RangeClearedStep(mem, mem1, mem2, F.roots, root, virt, i);
      FramesStep(mem, mem1, F.roots, root, virt, i);
      MinusStep(F, FramesOf(mem, root, virt, i), FramesOf(mem, root, virt, i + 1));
    } else {
      SameWalksTrans(mem, mem1, mem2, F.roots);
    }
  }

  lemma HolesStep(mem: Mem, root: nat, virt: nat, i: nat)
    ensures Holes(mem, root, virt, i + 1) <==> Holes(mem, root, virt, i) || Hole(mem, root, virt, i)
  {
    hide Hole;
    if Hole(mem, root, virt, i) { assert Holes(mem, root, virt, i + 1); }
  }

  /** Only a page met before is a hole although it was mapped, and then its frame is free already. */
  lemma FramesStep(mem: Mem, mem': Mem, roots: set<nat>, root: nat, virt: nat, i: nat)
    requires RangeCleared(mem, mem', roots, root, virt, i) && root in roots
    ensures var w := Walk(mem', root, Ix(AddrAt(virt, i)));
            FramesOf(mem, root, virt, i + 1) == FramesOf(mem, root, virt, i) + if w.Some? then {w.value} else {}
  {
    hide Ix, AddrAt, Walk, Cleared;
    var at := Ix(AddrAt(virt, i));
    var w := Walk(mem, root, at);
    assert Walk(mem', root, at) == Cleared(w, root, root, virt, i, at);
    ClearedMatch(w, root, root, virt, i, at);
    if w.Some? { FrameOfPage(mem, root, virt, i, w.value); }
  }

  lemma MinusStep(F: Forest, a: set<nat>, b: set<nat>)
    requires a <= b
    ensures Minus(Minus(F, a), b - a) == Minus(F, b) && Minus(F, a + (b - a)) == Minus(F, b)
  {
    assert F.path - a - (b - a) == F.path - b;
    assert a + (b - a) == b;
  }

  /** Page 0 is free afterwards exactly if it was, or there was a hole. */
  lemma FreedZero(mem: Mem, mem': Mem, F: Forest, F': Forest, free: set<nat>, free': set<nat>, root: nat, virt: nat,
                  n: nat, maxPages: nat)
    requires Freed(mem, mem', F, F', free, free', root, virt, n) && OwnsRange(mem, F, root, virt, n, maxPages)
    ensures 0 in free' <==> 0 in free || Holes(mem, root, virt, n)
  {
    hide Ix, AddrAt, Walk, RangeCleared, SameWalks, Holes;
    FrameOfPage(mem, root, virt, n, 0);
    forall j | 0 <= j < n ensures Walk(mem, root, Ix(AddrAt(virt, j))) != Some(0) {
      assert OwnsPage(mem, F, root, Ix(AddrAt(virt, j)), maxPages);
    }
  }

  /**
   * In a range of at most 2^48 bytes no page comes twice, so the holes are the pages that are not mapped at the call.
   */
  lemma HolesIff(mem: Mem, root: nat, virt: nat, n: nat)
    requires virt < ADDRESSES && n <= 0x10_0000_0000
    ensures Holes(mem, root, virt, n) <==> exists j :: 0 <= j < n && Walk(mem, root, Ix(AddrAt(virt, j))).None?
  {
    hide Walk, Ix, AddrAt, Cleared;
    forall j | 0 <= j < n ensures Hole(mem, root, virt, j) <==> Walk(mem, root, Ix(AddrAt(virt, j))).None? {
      var at := Ix(AddrAt(virt, j));
      ClearedMatch(Walk(mem, root, at), root, root, virt, j, at);
      if virt % PAGE == 0 {
        forall k | 0 <= k < j ensures Ix(AddrAt(virt, k)) != at { PagesOnce(virt, k, j); }
      }
    }
    if j :| 0 <= j < n && Walk(mem, root, Ix(AddrAt(virt, j))).None? { assert Hole(mem, root, virt, j); }
  }

  lemma PagesOnce(virt: nat, i: nat, j: nat)
    requires virt < ADDRESSES && virt % PAGE == 0 && i < j < 0x10_0000_0000
    ensures Ix(AddrAt(virt, i)) != Ix(AddrAt(virt, j))
  {
    hide Ix, CanonicalForm, Canonical;
    var a, b := AddrAt(virt, i), AddrAt(virt, j);
    if Ix(a) == Ix(b) {
      AddrAtAny(virt, i);
      AddrAtAny(virt, j);
      CanonicalFormIx(a);
      CanonicalFormIx(b);
      IxIdentifiesPage(CanonicalForm(a), CanonicalForm(b));
      SameLow48(a);
      SameLow48(b);
      SamePageSame(CanonicalForm(a), CanonicalForm(b));
      AddrLow48(virt, i);
      AddrLow48(virt, j);
      Apart(virt + i * PAGE, (j - i) * PAGE);
    }
  }

  lemma SamePageSame(a: nat, b: nat)
    requires a / PAGE == b / PAGE && a % PAGE == b % PAGE
    ensures a == b
  {}

  lemma AddrLow48(virt: nat, j: nat)
    ensures AddrAt(virt, j) % 0x1_0000_0000_0000 == (virt + j * PAGE) % 0x1_0000_0000_0000
  {
    var v := virt + j * PAGE;
    assert v == v % ADDRESSES + v / ADDRESSES * 0x1_0000 * 0x1_0000_0000_0000;
  }

  lemma Apart(v: nat, d: nat)
    requires 0 < d < 0x1_0000_0000_0000
    ensures v % 0x1_0000_0000_0000 != (v + d) % 0x1_0000_0000_0000
  {}

  /** What the rounds come to when every page of an aligned range is owned. */
  lemma FreedAll(mem: Mem, mem': Mem, F: Forest, F': Forest, free: set<nat>, free': set<nat>, root: nat, virt: nat,
                 frames: seq<nat>)
    requires Freed(mem, mem', F, F', free, free', root, virt, |frames|) && virt % PAGE == 0
    requires FramesOf(mem, root, virt, |frames|) == Elems(frames) && !Holes(mem, root, virt, |frames|)
    ensures RangeCleared(mem, mem', F.roots, root, virt, |frames|) && F' == Minus(F, Elems(frames))
    ensures free' == free + Elems(frames)
  {
    hide RangeCleared, SameWalks, FramesOf, Holes, Minus, Elems;
  }

  /** A range with an owned frame at every page is free of holes. */
  lemma OwnedIsOwns(mem: Mem, F: Forest, root: nat, virt: nat, frames: seq<nat>, maxPages: nat)
    requires WF(mem, F) && UpperLinked(mem, F.roots) && root in F.roots && OwnedRange(F, root, virt, frames)
    requires forall j :: 0 <= j < |frames| ==> 0 < frames[j] < maxPages
    ensures OwnsRange(mem, F, root, virt, |frames|, maxPages) && FramesOf(mem, root, virt, |frames|) == Elems(frames)
    ensures virt % PAGE == 0 ==> !Holes(mem, root, virt, |frames|)
  {
    hide WF, UpperLinked, Ix, AddrAt, Walk, Cleared;
    forall j | 0 <= j < |frames| ensures Walk(mem, root, Ix(AddrAt(virt, j))) == Some(frames[j]) {
      OwnedIsMapped(mem, F, root, Ix(AddrAt(virt, j)), frames[j]);
    }
    FramesOfOwned(mem, root, virt, frames);
    forall j | 0 <= j < |frames| && virt % PAGE == 0 ensures !Hole(mem, root, virt, j) {
      var at := Ix(AddrAt(virt, j));
      ClearedMatch(Walk(mem, root, at), root, root, virt, j, at);
    }
  }

  lemma {:induction false} FramesOfOwned(mem: Mem, root: nat, virt: nat, frames: seq<nat>)
    requires forall j :: 0 <= j < |frames| ==> Walk(mem, root, Ix(AddrAt(virt, j))) == Some(frames[j])
    ensures FramesOf(mem, root, virt, |frames|) == Elems(frames)
  {
    hide Ix, AddrAt, Walk;
    if frames != [] {
      var n := |frames| - 1;
      FramesOfOwned(mem, root, virt, frames[..n]);
      ElemsSnoc(frames[..n], frames[n]);
      assert frames == frames[..n] + [frames[n]];
    }
  }

  lemma DisownIsDrop(mem: Mem, F: Forest, f: nat)
    requires WF(mem, F) && f in F.path
    ensures Disown(F, F.path[f]) == Dropped(F, f)
  {
    hide WF;
    forall g | g in F.path && g != f ensures F.path[g] != F.path[f] {
      if F.path[g] == F.path[f] { PathInjective(mem, F, f, g); }
    }
    assert Disown(F, F.path[f]).path == Dropped(F, f).path;
  }

  // ---------------------------------------------------------------- allocate, then free

  lemma AccountedOwned(F0: Forest, F: Forest, free0: set<nat>, free: set<nat>,
                       tables: set<nat>, frames: seq<nat>, inHand: set<nat>, root: nat, virt: nat)
    requires Accounted(F0, F, free0, free, tables, frames, inHand, root, virt)
    ensures OwnedRange(F, root, virt, frames) && forall j :: 0 <= j < |frames| ==> frames[j] in free0
  {
    hide Ix, AddrAt;
    assert forall j :: 0 <= j < |frames| ==> frames[j] in Elems(frames);
  }

  lemma AllocFreeSets(F0: Forest, F: Forest, free0: set<nat>, free: set<nat>,
                      tables: set<nat>, frames: seq<nat>, root: nat, virt: nat)
    requires Accounted(F0, F, free0, free, tables, frames, {}, root, virt) && F0.path.Keys !! free0
    ensures free + Elems(frames) == free0 - tables
    ensures Minus(F, Elems(frames)).path.Keys == F0.path.Keys + tables && Minus(F, Elems(frames)).roots == F0.roots
  {
    hide Ix, AddrAt;
  }

  lemma {:induction false} OverlayMatch(w: Option<nat>, r: nat, root: nat, virt: nat, frames: seq<nat>, ix: seq<nat>)
    ensures Overlay(w, r, root, virt, frames, ix).None? ==> w.None?
    ensures Overlay(w, r, root, virt, frames, ix) != w ==>
              exists j :: 0 <= j < |frames| && ix == Ix(AddrAt(virt, j)) && Affects(r, root, Ix(AddrAt(virt, j)))
  {
    hide Ix, AddrAt;
    if frames != [] {
      var n := |frames| - 1;
      OverlayMatch(w, r, root, virt, frames[..n], ix);
    }
  }

  lemma {:induction false} ClearedMatch(w: Option<nat>, r: nat, root: nat, virt: nat, n: nat, ix: seq<nat>)
    ensures if exists j :: 0 <= j < n && ix == Ix(AddrAt(virt, j)) && Affects(r, root, Ix(AddrAt(virt, j)))
            then Cleared(w, r, root, virt, n, ix).None?
            else Cleared(w, r, root, virt, n, ix) == w
  {
    hide Ix, AddrAt;
    if n > 0 { ClearedMatch(w, r, root, virt, n - 1, ix); }
  }

  lemma AllocFreeWalks(mem0: Mem, mem1: Mem, mem2: Mem, roots: set<nat>, root: nat, virt: nat, frames: seq<nat>)
    requires RangeMapped(mem0, mem1, roots, root, virt, frames) && Vacant(mem0, roots, root, virt, frames)
    requires RangeCleared(mem1, mem2, roots, root, virt, |frames|)
    ensures SameWalks(mem0, mem2, roots)
  {
    hide Walk, Ix, AddrAt, Overlay, Cleared;
    forall r, ix | r in roots && IxOk(ix) ensures Walk(mem2, r, ix) == Walk(mem0, r, ix) {
      var w := Walk(mem0, r, ix);
      assert Walk(mem1, r, ix) == Overlay(w, r, root, virt, frames, ix);
      assert Walk(mem2, r, ix) == Cleared(Walk(mem1, r, ix), r, root, virt, |frames|, ix);
      OverlayMatch(w, r, root, virt, frames, ix);
      ClearedMatch(Walk(mem1, r, ix), r, root, virt, |frames|, ix);
      if j :| 0 <= j < |frames| && ix == Ix(AddrAt(virt, j)) && Affects(r, root, Ix(AddrAt(virt, j))) {
        OverlayMatch(w, r, root, virt, frames[..j], ix);
      }
    }
  }

  lemma RangeStart(mem: Mem, roots: set<nat>, root: nat, virt: nat)
    ensures RangeMapped(mem, mem, roots, root, virt, []) && Vacant(mem, roots, root, virt, [])
  {}

  /** A range never holds enough pages to come round to its own start. */
  lemma PageCountSmall(size: nat, i: nat)
    requires i < PageCount(size)
    ensures i * PAGE < ADDRESSES
  {}

  lemma FrameAddress(f: nat, virt: nat)
    requires virt % PAGE == 0
    ensures f * PAGE + virt % PAGE == f * PAGE && f * PAGE % PAGE == 0 && f * PAGE / PAGE == f
    ensures f * PAGE != 0xFFFF_FFFF
  {}

  lemma FrameOffset(f: nat, virt: nat)
    ensures (f * PAGE + virt % PAGE) % PAGE == virt % PAGE
    ensures (virt % PAGE == 0 ==> f * PAGE / PAGE == f && f * PAGE != 0xFFFF_FFFF)
  {}

  lemma AddrAtAny(virt: nat, j: nat)
    requires virt < ADDRESSES
    ensures AddrAt(virt, j) < ADDRESSES && AddrAt(virt, j) % PAGE == virt % PAGE && AddrAt(virt, 0) == virt
    ensures (AddrAt(virt, j) + PAGE) % ADDRESSES == AddrAt(virt, j + 1)
  {
    WrapStep(virt + j * PAGE);
    WrapPage(virt, j);
  }

  lemma WrapStep(x: nat)
    ensures (x % ADDRESSES + PAGE) % ADDRESSES == (x + PAGE) % ADDRESSES
  {
    assert x == x % ADDRESSES + x / ADDRESSES * ADDRESSES;
  }

  lemma WrapPage(virt: nat, j: nat)
    ensures (virt + j * PAGE) % ADDRESSES % PAGE == virt % PAGE
  {
    var x, q := virt + j * PAGE, (virt + j * PAGE) / ADDRESSES;
    assert x == q * 0x10_0000_0000_0000 * PAGE + x % ADDRESSES;
    LowPage(q * 0x10_0000_0000_0000, x % ADDRESSES);
    LowPage(j, virt);
  }

  /** Pages below the kernel half have indices in the lower half. */
  lemma LowerPage(virt: nat, n: nat, j: nat)
    requires virt + n * PAGE <= LOW_TOP && j < n
    ensures Ix(AddrAt(virt, j))[0] < KERNEL_START
  {
    assert virt + j * PAGE < LOW_TOP;
    IxSum(AddrAt(virt, j));
  }

  lemma AddrAtFacts(virt: nat, j: nat)
    requires virt < ADDRESSES && virt % PAGE == 0 && j * PAGE < ADDRESSES
    ensures AddrAt(virt, j) % PAGE == 0 && AddrAt(virt, j) < ADDRESSES
    ensures virt + j * PAGE < ADDRESSES ==> AddrAt(virt, j) == virt + j * PAGE
    ensures virt + j * PAGE >= ADDRESSES ==> AddrAt(virt, j) < virt
    ensures (AddrAt(virt, j) + PAGE) % ADDRESSES == AddrAt(virt, j + 1)
  {}

  lemma LastOwned(F0: Forest, F: Forest, free0: set<nat>, free: set<nat>,
                  tables: set<nat>, frames: seq<nat>, inHand: set<nat>, root: nat, virt: nat)
    requires Accounted(F0, F, free0, free, tables, frames, inHand, root, virt) && |frames| > 0
    ensures var f := frames[|frames| - 1];
            f in F.path && F.path[f] == F.Norm(root, Ix(AddrAt(virt, |frames| - 1))) && f in free0
  {
    hide Ix, AddrAt;
    LastNotBefore(frames);
  }
}
