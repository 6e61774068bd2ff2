/** Kernel stacks: slots of one unmapped guard page and sixteen stack pages in the kernel half. */
module KernelStacks {
  import opened Common
  import opened PageTables
  import opened PageForest
  import opened PageWrites
  import opened Paging
  import opened Vmm
  import Lifecycle
  import Pmm
  import Translation

  const STACK_PAGES: nat := 16
  const SLOT_PAGES: nat := 17
  const REGION: nat := 0xFFFF_C000_0000_0000
  const STACK_FLAGS: nat := 0x8000_0000_0000_0002   // writable, not executable

  const STACK_SIZE: nat := 0x1_0000
  const SLOT_SIZE: nat := 0x1_1000

  /** Page `q` of slot `i`: page 0 is the guard. */
  function PageAt(i: nat, q: nat): nat { REGION + i * SLOT_SIZE + q * PAGE }

  /** The lowest stack page of a slot, and the address just above its highest. */
  function StackBase(i: nat): nat { REGION + i * SLOT_SIZE + PAGE }

  function StackTop(i: nat): nat { REGION + i * SLOT_SIZE + SLOT_SIZE }

  // ---------------------------------------------------------------- addresses

  lemma SlotPage(i: nat, q: nat)
    requires i < MAX_TASKS && q < SLOT_PAGES
    ensures Canonical(PageAt(i, q)) && PageAt(i, q) / PAGE == REGION / PAGE + i * SLOT_PAGES + q
    ensures PageAt(i, q) % PAGE == 0
    ensures Ix(PageAt(i, q))[0] >= KERNEL_START
  {
    assert PageAt(i, q) == PAGE * (REGION / PAGE + i * SLOT_PAGES + q);
    IxSum(PageAt(i, q));
  }

  /** Different pages of the region have different table indices. */
  lemma SlotPageDistinct(i: nat, q: nat, j: nat, w: nat)
    requires i < MAX_TASKS && j < MAX_TASKS && q < SLOT_PAGES && w < SLOT_PAGES && Ix(PageAt(i, q)) == Ix(PageAt(j, w))
    ensures i == j && q == w
  {
    hide Ix;
    SlotPage(i, q);
    SlotPage(j, w);
    IxIdentifiesPage(PageAt(i, q), PageAt(j, w));
  }

  /** Page `j` of a stack is page `j + 1` of its slot. */
  lemma StackPage(i: nat, j: nat)
    requires i < MAX_TASKS && j < STACK_PAGES
    ensures AddrAt(StackBase(i), j) == PageAt(i, j + 1)
  {
    assert StackBase(i) + j * PAGE == PageAt(i, j + 1) < ADDRESSES;
  }

  lemma StackFits(i: nat)
    requires i < MAX_TASKS
    ensures StackBase(i) < ADDRESSES && StackBase(i) % PAGE == 0 && StackBase(i) + STACK_PAGES * PAGE < ADDRESSES
    ensures PageCount(STACK_SIZE) == STACK_PAGES && IsFlags(STACK_FLAGS)
    ensures StackTop(i) - STACK_SIZE == StackBase(i)
  {
    SlotPage(i, 1);
    assert StackBase(i) == PageAt(i, 1);
  }

  // ---------------------------------------------------------------- what the region shows

  /** In every directory, a page of the region is mapped exactly when its slot is used and it is not the guard. */
  ghost predicate Guarded(mem: Mem, roots: set<nat>, used: seq<bool>)
    requires |used| == MAX_TASKS
  {
    forall r, i, q :: r in roots && 0 <= i < MAX_TASKS && 0 <= q < SLOT_PAGES ==> Shows(mem, r, used, i, q)
  }

  ghost predicate Shows(mem: Mem, r: nat, used: seq<bool>, i: nat, q: nat) {
    i < |used| && (Walk(mem, r, Ix(PageAt(i, q))).Some? <==> used[i] && q != 0)
  }

  /** Below every stack, and above every one but the last, lies a page that is mapped in no directory. */
  lemma BetweenGuards(mem: Mem, roots: set<nat>, used: seq<bool>, r: nat, i: nat)
    requires |used| == MAX_TASKS && Guarded(mem, roots, used) && r in roots && i < MAX_TASKS
    ensures Walk(mem, r, Ix(StackBase(i) - PAGE)).None?
    ensures i + 1 < MAX_TASKS ==> Walk(mem, r, Ix(StackTop(i))).None?
    ensures forall q :: 1 <= q < SLOT_PAGES ==> (Walk(mem, r, Ix(PageAt(i, q))).Some? <==> used[i])
  {
    hide Walk, Ix;
    assert Shows(mem, r, used, i, 0) && PageAt(i, 0) == StackBase(i) - PAGE;
    if i + 1 < MAX_TASKS { assert Shows(mem, r, used, i + 1, 0) && PageAt(i + 1, 0) == StackTop(i); }
    forall q | 1 <= q < SLOT_PAGES ensures Walk(mem, r, Ix(PageAt(i, q))).Some? <==> used[i] {
      assert Shows(mem, r, used, i, q);
    }
  }

  lemma {:induction false} OverlayHit(w: Option<nat>, r: nat, root: nat, virt: nat, frames: seq<nat>, ix: seq<nat>,
                                      j: nat)
    requires j < |frames| && ix == Ix(AddrAt(virt, j)) && Affects(r, root, ix)
    ensures Overlay(w, r, root, virt, frames, ix).Some?
  {
    hide Ix, AddrAt;
    var n := |frames| - 1;
    if j < n { OverlayHit(w, r, root, virt, frames[..n], ix, j); }
  }

  /** Whether a page of the region lies in the stack of slot `i`. */
  lemma InStack(i: nat, k: nat, q: nat)
    requires i < MAX_TASKS && k < MAX_TASKS && q < SLOT_PAGES
    ensures (exists j :: 0 <= j < STACK_PAGES && Ix(PageAt(k, q)) == Ix(AddrAt(StackBase(i), j))) <==> k == i && q != 0
  {
    hide Ix, AddrAt, PageAt;
    if j :| 0 <= j < STACK_PAGES && Ix(PageAt(k, q)) == Ix(AddrAt(StackBase(i), j)) {
      StackPage(i, j);
      SlotPageDistinct(k, q, i, j + 1);
    }
    if k == i && q != 0 {
      StackPage(i, q - 1);
      assert Ix(PageAt(k, q)) == Ix(AddrAt(StackBase(i), q - 1));
    }
  }

  /** Mapping a stack fills its slot above the guard. */
  lemma GuardedAlloc(mem: Mem, mem': Mem, roots: set<nat>, root: nat, used: seq<bool>, i: nat, frames: seq<nat>)
    requires |used| == MAX_TASKS && i < MAX_TASKS && Guarded(mem, roots, used) && |frames| == STACK_PAGES
    requires RangeMapped(mem, mem', roots, root, StackBase(i), frames)
    ensures Guarded(mem', roots, used[i := true])
  {
    hide Walk, Ix, AddrAt, PageAt, Overlay, StackBase;
    var used' := used[i := true];
    forall r, k, q | r in roots && 0 <= k < MAX_TASKS && 0 <= q < SLOT_PAGES ensures Shows(mem', r, used', k, q) {
      assert Shows(mem, r, used, k, q);
      var ix := Ix(PageAt(k, q));
      InStack(i, k, q);
      SlotPage(k, q);
      OverlayMatch(Walk(mem, r, ix), r, root, StackBase(i), frames, ix);
      if k == i && q != 0 {
        var j :| 0 <= j < STACK_PAGES && ix == Ix(AddrAt(StackBase(i), j));
        OverlayHit(Walk(mem, r, ix), r, root, StackBase(i), frames, ix, j);
      }
    }
  }

  /** Unmapping it empties the slot. */
  lemma GuardedFree(mem: Mem, mem': Mem, roots: set<nat>, root: nat, used: seq<bool>, i: nat)
    requires |used| == MAX_TASKS && i < MAX_TASKS && Guarded(mem, roots, used)
    requires RangeCleared(mem, mem', roots, root, StackBase(i), STACK_PAGES)
    ensures Guarded(mem', roots, used[i := false])
  {
    hide Walk, Ix, AddrAt, PageAt, Cleared, StackBase;
    var used' := used[i := false];
    forall r, k, q | r in roots && 0 <= k < MAX_TASKS && 0 <= q < SLOT_PAGES ensures Shows(mem', r, used', k, q) {
      assert Shows(mem, r, used, k, q);
      var ix := Ix(PageAt(k, q));
      InStack(i, k, q);
      SlotPage(k, q);
      ClearedMatch(Walk(mem, r, ix), r, root, StackBase(i), STACK_PAGES, ix);
    }
  }

  lemma GuardedSame(mem: Mem, mem': Mem, roots: set<nat>, used: seq<bool>)
    requires |used| == MAX_TASKS && Guarded(mem, roots, used) && SameWalks(mem, mem', roots)
    ensures Guarded(mem', roots, used)
  {
    hide Walk, Ix, PageAt;
    forall r, k, q | r in roots && 0 <= k < MAX_TASKS && 0 <= q < SLOT_PAGES ensures Shows(mem', r, used, k, q) {
      assert Shows(mem, r, used, k, q);
      assert Walk(mem', r, Ix(PageAt(k, q))) == Walk(mem, r, Ix(PageAt(k, q)));
    }
  }

  // ---------------------------------------------------------------- which frames back the stacks

  /** Every used slot has its sixteen frames recorded at the paths of its stack pages. */
  ghost predicate Backed(F: Forest, maxPages: nat, used: seq<bool>, frames: map<nat, seq<nat>>)
    requires |used| == MAX_TASKS
  {
    forall i :: 0 <= i < MAX_TASKS && used[i] ==> i in frames && StackBacked(F, maxPages, i, frames[i])
  }

  ghost predicate StackBacked(F: Forest, maxPages: nat, i: nat, fs: seq<nat>) {
    && |fs| == STACK_PAGES && OwnedRange(F, F.kernel, StackBase(i), fs)
    && forall j :: 0 <= j < |fs| ==> 0 < fs[j] < maxPages
  }

  /** A new stack takes frames nobody had. */
  lemma BackedAlloc(F0: Forest, F: Forest, maxPages: nat, used: seq<bool>, frames: map<nat, seq<nat>>,
                    free0: set<nat>, free: set<nat>, tables: set<nat>, i: nat, fs: seq<nat>, inHand: set<nat>)
    requires |used| == MAX_TASKS && i < MAX_TASKS && Backed(F0, maxPages, used, frames) && |fs| == STACK_PAGES
    requires Accounted(F0, F, free0, free, tables, fs, inHand, F0.kernel, StackBase(i))
    requires forall f :: f in free0 ==> 0 < f < maxPages
    ensures Backed(F, maxPages, used[i := true], frames[i := fs])
  {
    hide Ix, AddrAt, StackBase, Spent;
    AccountedOwned(F0, F, free0, free, tables, fs, inHand, F0.kernel, StackBase(i));
    forall k | 0 <= k < MAX_TASKS && used[k] && k != i ensures StackBacked(F, maxPages, k, frames[k]) {
      assert StackBacked(F0, maxPages, k, frames[k]);
      BackedKept(F0, F, maxPages, tables, fs, i, k, frames[k]);
    }
  }

  lemma BackedKept(F0: Forest, F: Forest, maxPages: nat, tables: set<nat>, fs: seq<nat>, i: nat, k: nat, gs: seq<nat>)
    requires StackBacked(F0, maxPages, k, gs) && Placed(F0, F, tables, fs, F0.kernel, StackBase(i))
    ensures StackBacked(F, maxPages, k, gs)
  {
    hide Ix, AddrAt, StackBase, Elems;
    forall j | 0 <= j < |gs| ensures gs[j] in F.path && F.path[gs[j]] == F.Norm(F.kernel, Ix(AddrAt(StackBase(k), j))) {
      assert gs[j] in F0.path;
    }
  }

  /** Giving back one stack leaves the frames of the others. */
  lemma BackedFree(F: Forest, maxPages: nat, used: seq<bool>, frames: map<nat, seq<nat>>, i: nat)
    requires |used| == MAX_TASKS && i < MAX_TASKS && Backed(F, maxPages, used, frames) && used[i] && i in frames
    ensures Backed(Minus(F, Elems(frames[i])), maxPages, used[i := false], frames)
  {
    hide Ix, AddrAt, StackBase;
    var G := Minus(F, Elems(frames[i]));
    assert StackBacked(F, maxPages, i, frames[i]);
    forall k | 0 <= k < MAX_TASKS && used[k] && k != i ensures StackBacked(G, maxPages, k, frames[k]) {
      assert StackBacked(F, maxPages, k, frames[k]);
      forall j | 0 <= j < STACK_PAGES ensures frames[k][j] in G.path && G.path[frames[k][j]] == F.path[frames[k][j]] {
        OtherFrames(F, maxPages, i, k, frames[i], frames[k], j);
      }
    }
  }

  /** Two slots share no frame: their pages have different paths. */
  lemma OtherFrames(F: Forest, maxPages: nat, i: nat, k: nat, fs: seq<nat>, gs: seq<nat>, j: nat)
    requires i < MAX_TASKS && k < MAX_TASKS && i != k && j < STACK_PAGES
    requires StackBacked(F, maxPages, i, fs) && StackBacked(F, maxPages, k, gs)
    ensures gs[j] !in fs
  {
    hide Ix, AddrAt, StackBase, PageAt;
    forall m | 0 <= m < |fs| ensures fs[m] != gs[j] {
      if fs[m] == gs[j] {
        StackPage(i, m);
        StackPage(k, j);
        SlotPage(i, m + 1);
        SlotPage(k, j + 1);
        SlotPageDistinct(i, m + 1, k, j + 1);
      }
    }
  }

  /** The pages of an unused slot can all be mapped. */
  lemma NeverInTheWay(mem: Mem, roots: set<nat>, root: nat, used: seq<bool>, i: nat, j: nat)
    requires |used| == MAX_TASKS && Guarded(mem, roots, used) && root in roots && i < MAX_TASKS && !used[i]
    requires j < STACK_PAGES
    ensures !FailsAt(mem, root, StackBase(i), j)
  {
    hide Walk, Ix, AddrAt, PageAt, Canonical, StackBase;
    StackPage(i, j);
    SlotPage(i, j + 1);
    assert Shows(mem, root, used, i, j + 1);
  }

  /** A stack lies far below the top of the address space, so a failed allocation leaves nothing mapped. */
  lemma StackError(F0: Forest, F: Forest, mem: Mem, mem': Mem, free0: set<nat>, free: set<nat>, maxPages: nat,
                   used: seq<bool>, frames: map<nat, seq<nat>>, i: nat, tables: set<nat>, fs: seq<nat>,
                       inHand: set<nat>)
    requires |used| == MAX_TASKS && i < MAX_TASKS && Guarded(mem, F0.roots, used) && Backed(F0, maxPages, used, frames)
    requires Accounted(F0, F, free0, free, tables, fs, inHand, F0.kernel, StackBase(i))
    requires RangeMapped(mem, mem', F0.roots, F0.kernel, StackBase(i), fs)
    requires fs == []
    ensures Guarded(mem', F0.roots, used) && Backed(F, maxPages, used, frames) && SameWalks(mem, mem', F0.roots)
  {
    hide Walk, Ix, AddrAt, Guarded, StackBase, Spent, SameWalks, RangeMapped, StackBacked;
    RangeMappedNone(mem, mem', F0.roots, F0.kernel, StackBase(i));
    GuardedSame(mem, mem', F0.roots, used);
    forall k | 0 <= k < MAX_TASKS && used[k] ensures StackBacked(F, maxPages, k, frames[k]) {
      BackedKept(F0, F, maxPages, tables, fs, i, k, frames[k]);
    }
  }

  /** The sixteen pages of slot `i`, unmapped before, and nothing else changed. */
  ghost predicate StackMapped(mem: Mem, mem': Mem, F: Forest, i: nat, fs: seq<nat>) {
    && |fs| == STACK_PAGES && RangeMapped(mem, mem', F.roots, F.kernel, StackBase(i), fs)
    && Vacant(mem, F.roots, F.kernel, StackBase(i), fs)
  }

  // ---------------------------------------------------------------- a wrong top

  /** Every page of the region is unmapped or maps a frame recorded at its path. */
  lemma RegionOwns(mem: Mem, F: Forest, used: seq<bool>, frames: map<nat, seq<nat>>, maxPages: nat, i: nat, q: nat)
    requires WF(mem, F) && UpperLinked(mem, F.roots) && F.kernel in F.roots && |used| == MAX_TASKS
    requires Guarded(mem, F.roots, used) && Backed(F, maxPages, used, frames) && i < MAX_TASKS && q < SLOT_PAGES
    ensures OwnsPage(mem, F, F.kernel, Ix(PageAt(i, q)), maxPages)
  {
    hide WF, UpperLinked, Walk, Ix, AddrAt, PageAt, StackBase;
    assert Shows(mem, F.kernel, used, i, q);
    if used[i] && q != 0 {
      StackKnown(F, maxPages, used, frames, i);
      StackPage(i, q - 1);
      OwnedIsMapped(mem, F, F.kernel, Ix(PageAt(i, q)), frames[i][q - 1]);
    }
  }

  /**
   * The page number of page `j` of a range that starts `d` bytes above the stack of slot `i`, counted from the guard.
   */
  function Reached(d: nat, j: nat): nat { 1 + d / PAGE + j }

  lemma ReachesRegion(i: nat, d: nat, j: nat)
    requires i + 1 < MAX_TASKS && d < SLOT_SIZE && j < STACK_PAGES
    ensures var p := Reached(d, j);
            Ix(AddrAt(StackBase(i) + d, j)) == if p < SLOT_PAGES then Ix(PageAt(i, p))
                else Ix(PageAt(i + 1, p - SLOT_PAGES))
  {
    hide Ix;
    var p := Reached(d, j);
    var a := AddrAt(StackBase(i) + d, j);
    assert a == StackBase(i) + d + j * PAGE;
    var b := PageAt(i, p);
    assert p >= SLOT_PAGES ==> b == PageAt(i + 1, p - SLOT_PAGES);
    assert a == b + d % PAGE && b == PAGE * (REGION / PAGE + i * SLOT_PAGES + p);
    PageOf(REGION / PAGE + i * SLOT_PAGES + p, d % PAGE);
    Translation.IxOfSamePage(a, b);
  }

  lemma PageOf(k: nat, off: nat)
    requires off < PAGE
    ensures (PAGE * k + off) / PAGE == k && PAGE * k / PAGE == k
  {}

  lemma ReachOwns(mem: Mem, F: Forest, used: seq<bool>, frames: map<nat, seq<nat>>, maxPages: nat, i: nat, d: nat)
    requires WF(mem, F) && UpperLinked(mem, F.roots) && F.kernel in F.roots && |used| == MAX_TASKS
    requires Guarded(mem, F.roots, used) && Backed(F, maxPages, used, frames) && i + 1 < MAX_TASKS && d < SLOT_SIZE
    ensures OwnsRange(mem, F, F.kernel, StackBase(i) + d, STACK_PAGES, maxPages)
  {
    hide WF, UpperLinked, Walk, Ix, AddrAt, PageAt, StackBase, Guarded, Backed, OwnsPage;
    var base := StackBase(i) + d;
    forall j | 0 <= j < STACK_PAGES ensures OwnsPage(mem, F, F.kernel, Ix(AddrAt(base, j)), maxPages) {
      var p := Reached(d, j);
      ReachesRegion(i, d, j);
      if p < SLOT_PAGES {
        RegionOwns(mem, F, used, frames, maxPages, i, p);
      } else {
        RegionOwns(mem, F, used, frames, maxPages, i + 1, p - SLOT_PAGES);
      }
    }
  }

  /** A range that starts whole pages too high meets the next guard page, which is not mapped. */
  lemma ReachesGuard(mem: Mem, F: Forest, used: seq<bool>, i: nat, d: nat)
    requires |used| == MAX_TASKS && Guarded(mem, F.roots, used) && F.kernel in F.roots
    requires i + 1 < MAX_TASKS && 0 < d < SLOT_SIZE && d % PAGE == 0
    ensures Holes(mem, F.kernel, StackBase(i) + d, STACK_PAGES)
  {
    hide Walk, Ix, AddrAt, PageAt, Cleared;
    var j := STACK_PAGES - d / PAGE;
    ReachesRegion(i, d, j);
    assert Shows(mem, F.kernel, used, i + 1, 0);
    var at := Ix(AddrAt(StackBase(i) + d, j));
    StackFits(i);
    ClearedMatch(Walk(mem, F.kernel, at), F.kernel, F.kernel, StackBase(i) + d, j, at);
    assert Hole(mem, F.kernel, StackBase(i) + d, j);
  }

  /** A slot that is marked unused while its stack is mapped is not as it should be. */
  lemma NotGuarded(mem: Mem, mem': Mem, F: Forest, used: seq<bool>, i: nat)
    requires |used| == MAX_TASKS && Guarded(mem, F.roots, used) && F.kernel in F.roots && i < MAX_TASKS && used[i]
    requires SameWalks(mem, mem', F.roots)
    ensures !Guarded(mem', F.roots, used[i := false])
  {
    hide Walk, Ix, PageAt;
    assert Shows(mem, F.kernel, used, i, 1);
    assert Walk(mem', F.kernel, Ix(PageAt(i, 1))) == Walk(mem, F.kernel, Ix(PageAt(i, 1)));
    assert !Shows(mem', F.kernel, used[i := false], i, 1);
  }

  // ---------------------------------------------------------------- the allocator

  class Stacks {
    const spaces: Spaces
    var used: seq<bool>
    /** The frames of each stack, while its slot is used. */
    ghost var frames: map<nat, seq<nat>>

    ghost predicate Valid()
      reads this, spaces.dirs, spaces.dirs.pmm, spaces.dirs.pmm.bitmap
    {
      && spaces.dirs.Valid() && spaces.dirs.F.kernel in spaces.dirs.F.roots
      && |used| == MAX_TASKS
      && Guarded(spaces.dirs.mem, spaces.dirs.F.roots, used)
      && Backed(spaces.dirs.F, spaces.dirs.pmm.maxPages, used, frames)
    }

    constructor (s: Spaces)
      requires s.dirs.Valid() && s.dirs.F.kernel in s.dirs.F.roots
      requires Guarded(s.dirs.mem, s.dirs.F.roots, seq(MAX_TASKS, _ => false))
      ensures Valid() && spaces == s && used == seq(MAX_TASKS, _ => false)
    {
      spaces, used, frames := s, seq(MAX_TASKS, _ => false), map[];
    }

    method FirstUnused() returns (i: nat)
      requires |used| == MAX_TASKS
      ensures i <= MAX_TASKS && (i < MAX_TASKS ==> !used[i]) && forall j :: 0 <= j < i ==> used[j]
    {
      i := 0;
      while i < MAX_TASKS && used[i]
        invariant 0 <= i <= MAX_TASKS && forall j :: 0 <= j < i ==> used[j]
      {
        i := i + 1;
      }
    }

    /** A stack in the first unused slot. Its guard page stays unmapped; on an error no translation changes. */
    method AllocStack() returns (st: Status, top: nat)
      requires Valid()
      modifies this, spaces.dirs`mem, spaces.dirs`F, spaces.dirs.pmm`usedPages, spaces.dirs.pmm`freePages,
               spaces.dirs.pmm`lastFound, spaces.dirs.pmm`free, spaces.dirs.pmm.bitmap
      ensures Valid() && spaces.dirs.F.roots == old(spaces.dirs.F.roots)
      ensures st == Ok ==> exists i :: 0 <= i < MAX_TASKS && !old(used)[i] && (forall j :: 0 <= j < i ==> old(used)[j])
                                       && used == old(used)[i := true] && top == StackTop(i)
                                       && i in frames
                                       && StackMapped(old(spaces.dirs.mem), spaces.dirs.mem, spaces.dirs.F, i,
                                           frames[i])
      ensures st == Error ==> used == old(used) && SameWalks(old(spaces.dirs.mem), spaces.dirs.mem, spaces.dirs.F.roots)
      ensures st == Error ==> spaces.dirs.pmm.freePages < STACK_PAGES || forall i :: 0 <= i < MAX_TASKS ==> used[i]
    {
      hide WF, UpperLinked, Walk, Ix, AddrAt, Guarded, Backed, RangeMapped, Accounted, Vacant, SameWalks,
           Pmm.Represents, StackBase, IsFlags, PageCount, FailsAt;
      top := 0;
      var dirs := spaces.dirs;
      SameWalksRefl(dirs.mem, dirs.F.roots);
      var i := FirstUnused();
      if i == MAX_TASKS {
        return Error, top;
      }
      ghost var F0, mem0, free0 := dirs.F, dirs.mem, dirs.pmm.free;
      FreeBelow(dirs.pmm);
      StackFits(i);
      ghost var tables, fs, inHand, at;
      var mapFailed;
      st, mapFailed, tables, fs, inHand, at := spaces.AllocRange(dirs.kernelDir, REGION + i * SLOT_SIZE + PAGE,
                                                                 STACK_SIZE, STACK_FLAGS);
      if st == Error {
        NeverInTheWay(mem0, F0.roots, F0.kernel, used, i, at);
        StackError(F0, dirs.F, mem0, dirs.mem, free0, dirs.pmm.free, dirs.pmm.maxPages, used, frames, i, tables, fs,
                   inHand);
        return;
      }
      assert StackMapped(mem0, dirs.mem, dirs.F, i, fs);
      GuardedAlloc(mem0, dirs.mem, F0.roots, F0.kernel, used, i, fs);
      BackedAlloc(F0, dirs.F, dirs.pmm.maxPages, used, frames, free0, dirs.pmm.free, tables, i, fs, inHand);
      top := REGION + i * SLOT_SIZE + SLOT_SIZE;
      frames := frames[i := fs];
      used := used[i := true];
    }

    /** The slot a stack top belongs to, in 64-bit arithmetic. */
    function SlotOf(top: nat): nat { (top + 2 * ADDRESSES - SLOT_SIZE - REGION) % ADDRESSES / SLOT_SIZE }

    /**
     * Gives a stack back. Any address whose slot number is that of a used slot is accepted, and the slot is marked
     * unused; the state is sound afterwards if and only if the address is the top of that stack. Then exactly its pages
     * are unmapped and its frames free.
     */
    method FreeStack(top: nat) returns (st: Status)
      requires Valid() && top < ADDRESSES
      requires SlotOf(top) == MAX_TASKS - 1 ==> top == StackTop(MAX_TASKS - 1)
      modifies this, spaces.dirs`mem, spaces.dirs`F, spaces.dirs.pmm`usedPages, spaces.dirs.pmm`freePages,
               spaces.dirs.pmm`lastFound, spaces.dirs.pmm`free, spaces.dirs.pmm.bitmap
      ensures st == Ok <==> SlotOf(top) < MAX_TASKS && old(used)[SlotOf(top)]
      ensures st == Error ==>
                && Valid() && used == old(used) && spaces.dirs.mem == old(spaces.dirs.mem)
                && spaces.dirs.pmm.free == old(spaces.dirs.pmm.free)
      ensures st == Ok ==> used == old(used)[SlotOf(top) := false] && spaces.dirs.F.roots == old(spaces.dirs.F.roots)
      ensures st == Ok ==> (Valid() <==> top == StackTop(SlotOf(top)))
      ensures st == Ok && top == StackTop(SlotOf(top)) ==>
                && RangeCleared(old(spaces.dirs.mem), spaces.dirs.mem, spaces.dirs.F.roots, spaces.dirs.F.kernel,
                    StackBase(SlotOf(top)), STACK_PAGES)
                && SlotOf(top) in old(frames)
                && spaces.dirs.pmm.free == old(spaces.dirs.pmm.free) + Elems(old(frames)[SlotOf(top)])
    {
      hide WF, UpperLinked, Walk, Ix, AddrAt, Guarded, RangeCleared, Pmm.Represents, StackBase, PageCount,
           OwnedRange, Minus, SlotOf, Backed, Elems, Freed, Holes, OwnsRange, FramesOf, SameWalks;
      var index := SlotOf(top);
      if index >= MAX_TASKS {
        return Error;
      }
      if !used[index] {
        return Error;
      }
      var dirs := spaces.dirs;
      ghost var F0, mem0, free0 := dirs.F, dirs.mem, dirs.pmm.free;
      ghost var d := top - StackTop(index);
      StackFits(index);
      InSlot(this, top);
      StackKnown(dirs.F, dirs.pmm.maxPages, used, frames, index);
      assert frames[index][0] < dirs.pmm.maxPages;
      if d == 0 {
        OwnedIsOwns(mem0, F0, F0.kernel, StackBase(index), frames[index], dirs.pmm.maxPages);
      } else {
        ReachOwns(mem0, F0, used, frames, dirs.pmm.maxPages, index, d);
      }
      spaces.FreeRange(dirs.kernelDir, top - STACK_SIZE, STACK_SIZE);
      if d == 0 {
        FreedAll(mem0, dirs.mem, F0, dirs.F, free0, dirs.pmm.free, F0.kernel, StackBase(index), frames[index]);
        BackedFree(F0, dirs.pmm.maxPages, used, frames, index);
        SameRoots(F0, frames[index]);
        GuardedFree(mem0, dirs.mem, F0.roots, F0.kernel, used, index);
      } else {
        WrongTop(mem0, dirs.mem, F0, dirs.F, free0, dirs.pmm.free, used, index, d);
      }
      used := used[index := false];
      st := Ok;
    }

    /** A new stack given back at once: every slot and every translation is as it was. */
    method AllocThenFree() returns (st: Status)
      requires Valid()
      modifies this, spaces.dirs`mem, spaces.dirs`F, spaces.dirs.pmm`usedPages, spaces.dirs.pmm`freePages,
               spaces.dirs.pmm`lastFound, spaces.dirs.pmm`free, spaces.dirs.pmm.bitmap
      ensures Valid() && used == old(used) && SameWalks(old(spaces.dirs.mem), spaces.dirs.mem, spaces.dirs.F.roots)
    {
      hide Guarded, Backed, SlotOf, WF, UpperLinked, Pmm.Represents, SameWalks, RangeCleared, StackMapped, StackBase;
      var top;
      ghost var mem0 := spaces.dirs.mem;
      st, top := AllocStack();
      if st == Ok {
        ghost var i :| 0 <= i < MAX_TASKS && !old(used)[i] && used == old(used)[i := true] && top == StackTop(i)
                       && i in frames && StackMapped(mem0, spaces.dirs.mem, spaces.dirs.F, i, frames[i]);
        SlotOfTop(this, i);
        ghost var mem1, F1, fs := spaces.dirs.mem, spaces.dirs.F, frames[i];
        st := FreeStack(top);
        StackUndone(mem0, mem1, spaces.dirs.mem, F1, i, fs);
        assert old(used)[i := true][i := false] == old(used);
      }
    }

    /** A new address space shows the stacks like every other. */
    method NewSpace() returns (n: nat)
      requires Valid()
      modifies spaces.dirs`mem, spaces.dirs`F, spaces.dirs.pmm`usedPages, spaces.dirs.pmm`freePages,
               spaces.dirs.pmm`lastFound, spaces.dirs.pmm`free, spaces.dirs.pmm.bitmap
      ensures Valid() && (n != 0 ==> n in spaces.dirs.F.roots)
    {
      hide WF, UpperLinked, Walk, Ix, Guarded, Backed, Pmm.Represents, SameWalks;
      var dirs := spaces.dirs;
      ghost var F0, mem0 := dirs.F, dirs.mem;
      n := dirs.CreateDirectory();
      GuardedSame(mem0, dirs.mem, F0.roots, used);
      if n != 0 {
        GuardedNew(dirs.mem, F0, n, used);
        BackedMore(F0, dirs.F, dirs.pmm.maxPages, used, frames);
      }
    }

    /** Memory for a user leaves the stacks alone, whether it succeeds or not. */
    method AllocUser(root: nat, virt: nat, size: nat, flags: nat) returns (st: Status)
      requires Valid() && root in spaces.dirs.F.roots && IsFlags(flags) && size < ADDRESSES
      requires virt + PageCount(size) * PAGE <= LOW_TOP
      modifies spaces.dirs`mem, spaces.dirs`F, spaces.dirs.pmm`usedPages, spaces.dirs.pmm`freePages,
               spaces.dirs.pmm`lastFound, spaces.dirs.pmm`free, spaces.dirs.pmm.bitmap
      ensures Valid()
    {
      hide WF, UpperLinked, Walk, Ix, Guarded, Backed, Pmm.Represents, SameWalks, RangeMapped, Vacant, FailsAt,
           Accounted, PageCount;
      var dirs := spaces.dirs;
      ghost var F0, mem0, free0 := dirs.F, dirs.mem, dirs.pmm.free;
      var mapFailed;
      ghost var tables, fs, inHand, at;
      st, mapFailed, tables, fs, inHand, at := spaces.AllocRange(root, virt, size, flags);
      PlacedMore(F0, dirs.F, free0, dirs.pmm.free, tables, fs, inHand, root, virt);
      GuardedUser(mem0, dirs.mem, F0.roots, used, root, virt, fs);
      BackedMore(F0, dirs.F, dirs.pmm.maxPages, used, frames);
    }

    /** So does tearing a user's address space down. */
    method FreeUser(user: nat)
      requires Valid() && user in spaces.dirs.F.roots && user != spaces.dirs.F.kernel
      requires Lifecycle.OwnsWalks(spaces.dirs.mem, spaces.dirs.F, user)
      requires Lifecycle.OwnedBelow(spaces.dirs.F, user, spaces.dirs.pmm.maxPages)
      modifies spaces.dirs`mem, spaces.dirs`F, spaces.dirs.pmm`usedPages, spaces.dirs.pmm`freePages,
               spaces.dirs.pmm`lastFound, spaces.dirs.pmm`free, spaces.dirs.pmm.bitmap
      ensures Valid()
    {
      hide WF, UpperLinked, Walk, Ix, Guarded, Backed, Pmm.Represents, Lifecycle.Owned, Lifecycle.LowerCleared,
           Lifecycle.AllOwn,
           Lifecycle.OwnsWalks, Lifecycle.OwnedBelow;
      var dirs := spaces.dirs;
      ghost var F0, mem0 := dirs.F, dirs.mem;
      var calls := Lifecycle.FreeUserSpace(dirs, user);
      GuardedTornDown(mem0, dirs.mem, F0.roots, used, user);
      BackedTornDown(F0, dirs.pmm.maxPages, used, frames, user);
    }
  }

  /** An address whose slot number is in range lies less than a slot above that slot's top. */
  lemma InSlot(s: Stacks, top: nat)
    requires top < ADDRESSES && s.SlotOf(top) < MAX_TASKS
    ensures StackTop(s.SlotOf(top)) <= top < StackTop(s.SlotOf(top)) + SLOT_SIZE
  {
    var o := (top + 2 * ADDRESSES - SLOT_SIZE - REGION) % ADDRESSES;
    assert o / SLOT_SIZE * SLOT_SIZE <= o < o / SLOT_SIZE * SLOT_SIZE + SLOT_SIZE;
    assert o < MAX_TASKS * SLOT_SIZE;
    assert o == if top < SLOT_SIZE + REGION then top + ADDRESSES - SLOT_SIZE - REGION else top - SLOT_SIZE - REGION;
  }

  lemma WrongTop(mem: Mem, mem': Mem, F: Forest, F': Forest, free: set<nat>, free': set<nat>, used: seq<bool>, i: nat,
                 d: nat)
    requires |used| == MAX_TASKS && Guarded(mem, F.roots, used) && F.kernel in F.roots && F'.roots == F.roots
    requires i + 1 < MAX_TASKS && used[i] && 0 < d < SLOT_SIZE
    requires Freed(mem, mem', F, F', free, free', F.kernel, StackBase(i) + d, STACK_PAGES)
    ensures Holes(mem, F.kernel, StackBase(i) + d, STACK_PAGES) || !Guarded(mem', F'.roots, used[i := false])
  {
    hide Walk, Ix, AddrAt, Guarded, StackBase, Holes, RangeCleared, SameWalks, FramesOf, Minus;
    StackFits(i);
    if d % PAGE == 0 {
      ReachesGuard(mem, F, used, i, d);
    } else {
      NotGuarded(mem, mem', F, used, i);
    }
  }

  lemma StackUndone(mem0: Mem, mem1: Mem, mem2: Mem, F: Forest, i: nat, fs: seq<nat>)
    requires StackMapped(mem0, mem1, F, i, fs) && RangeCleared(mem1, mem2, F.roots, F.kernel, StackBase(i), STACK_PAGES)
    ensures SameWalks(mem0, mem2, F.roots)
  {
    hide RangeMapped, Vacant, RangeCleared, SameWalks, StackBase;
    AllocFreeWalks(mem0, mem1, mem2, F.roots, F.kernel, StackBase(i), fs);
  }

  // ---------------------------------------------------------------- what the rest of the kernel leaves alone

  lemma GuardedNew(mem: Mem, F: Forest, n: nat, used: seq<bool>)
    requires |used| == MAX_TASKS && Guarded(mem, F.roots, used) && F.kernel in F.roots
    requires forall ix :: IxOk(ix) ==>
               Walk(mem, n, ix) == if ix[0] < KERNEL_START then None else Walk(mem, F.kernel, ix)
    ensures Guarded(mem, WithRoot(F, n).roots, used)
  {
    hide Walk, Ix, PageAt;
    forall r, i, q | r in WithRoot(F, n).roots && 0 <= i < MAX_TASKS && 0 <= q < SLOT_PAGES
      ensures Shows(mem, r, used, i, q)
    {
      SlotPage(i, q);
      assert Shows(mem, F.kernel, used, i, q);
      if r in F.roots { assert Shows(mem, r, used, i, q); }
    }
  }

  lemma BackedMore(F: Forest, F': Forest, maxPages: nat, used: seq<bool>, frames: map<nat, seq<nat>>)
    requires |used| == MAX_TASKS && Backed(F, maxPages, used, frames) && F'.kernel == F.kernel
    requires forall f :: f in F.path ==> f in F'.path && F'.path[f] == F.path[f]
    ensures Backed(F', maxPages, used, frames)
  {
    hide Ix, AddrAt, StackBase;
    forall i | 0 <= i < MAX_TASKS && used[i] ensures StackBacked(F', maxPages, i, frames[i]) {
      assert StackBacked(F, maxPages, i, frames[i]);
    }
  }

  lemma PlacedMore(F: Forest, F': Forest, free: set<nat>, free': set<nat>, tables: set<nat>, fs: seq<nat>,
                   inHand: set<nat>,
                   root: nat, virt: nat)
    requires Accounted(F, F', free, free', tables, fs, inHand, root, virt)
    ensures F'.kernel == F.kernel && forall f :: f in F.path ==> f in F'.path && F'.path[f] == F.path[f]
  {
    hide Ix, AddrAt;
  }

  lemma GuardedUser(mem: Mem, mem': Mem, roots: set<nat>, used: seq<bool>, root: nat, virt: nat, fs: seq<nat>)
    requires |used| == MAX_TASKS && Guarded(mem, roots, used) && RangeMapped(mem, mem', roots, root, virt, fs)
    requires virt + |fs| * PAGE <= LOW_TOP
    ensures Guarded(mem', roots, used)
  {
    hide Walk, Ix, AddrAt, PageAt, Overlay;
    forall r, i, q | r in roots && 0 <= i < MAX_TASKS && 0 <= q < SLOT_PAGES ensures Shows(mem', r, used, i, q) {
      var ix := Ix(PageAt(i, q));
      assert Shows(mem, r, used, i, q);
      SlotPage(i, q);
      OverlayMatch(Walk(mem, r, ix), r, root, virt, fs, ix);
      forall j | 0 <= j < |fs| ensures ix != Ix(AddrAt(virt, j)) { LowerPage(virt, |fs|, j); }
      assert Walk(mem', r, ix) == Walk(mem, r, ix);
    }
  }

  lemma GuardedTornDown(mem: Mem, mem': Mem, roots: set<nat>, used: seq<bool>, user: nat)
    requires |used| == MAX_TASKS && Guarded(mem, roots, used) && Lifecycle.LowerCleared(mem, mem', roots, user)
    ensures Guarded(mem', roots, used)
  {
    hide Walk, Ix, PageAt;
    forall r, i, q | r in roots && 0 <= i < MAX_TASKS && 0 <= q < SLOT_PAGES ensures Shows(mem', r, used, i, q) {
      assert Shows(mem, r, used, i, q);
      SlotPage(i, q);
      assert Walk(mem', r, Ix(PageAt(i, q))) == Walk(mem, r, Ix(PageAt(i, q)));
    }
  }

  /** The frames of the stacks have paths from the kernel's directory. */
  lemma BackedTornDown(F: Forest, maxPages: nat, used: seq<bool>, frames: map<nat, seq<nat>>, user: nat)
    requires |used| == MAX_TASKS && Backed(F, maxPages, used, frames) && user != F.kernel
    ensures Backed(F.(path := F.path - Lifecycle.Owned(F, user)), maxPages, used, frames)
  {
    hide Ix, AddrAt, StackBase, PageAt;
    var G := F.(path := F.path - Lifecycle.Owned(F, user));
    forall i | 0 <= i < MAX_TASKS && used[i] ensures StackBacked(G, maxPages, i, frames[i]) {
      assert StackBacked(F, maxPages, i, frames[i]);
      forall j | 0 <= j < STACK_PAGES ensures frames[i][j] in G.path && G.path[frames[i][j]] == F.path[frames[i][j]] {
        StackPage(i, j);
        SlotPage(i, j + 1);
      }
    }
  }

  lemma SlotOfTop(s: Stacks, i: nat)
    requires i < MAX_TASKS
    ensures s.SlotOf(StackTop(i)) == i && StackTop(i) < ADDRESSES
  {
    assert StackTop(i) + 2 * ADDRESSES - SLOT_SIZE - REGION == i * SLOT_SIZE + 2 * ADDRESSES;
  }

  lemma SameRoots(F: Forest, fs: seq<nat>)
    ensures Minus(F, Elems(fs)).roots == F.roots && Minus(F, Elems(fs)).kernel == F.kernel
  {}

  lemma StackKnown(F: Forest, maxPages: nat, used: seq<bool>, frames: map<nat, seq<nat>>, i: nat)
    requires |used| == MAX_TASKS && i < MAX_TASKS && Backed(F, maxPages, used, frames) && used[i]
    ensures i in frames && StackBacked(F, maxPages, i, frames[i])
  {}
}
