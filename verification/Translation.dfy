/**
 * The page tables seen as a finite map from canonical addresses, and runs of mapping calls through many directories.
 */
module Translation {
  import opened Common
  import opened PageTables
  import opened PageForest
  import opened PageWrites
  import opened Paging
  import Pmm

  const REGION: nat := 0x20_0000

  /** The physical address of an address, as paging_get_phys computes it. */
  function Translate(mem: Mem, r: nat, a: nat): Option<nat> {
    match Walk(mem, r, Ix(a))
    case None => None
    case Some(f) => Some(f * PAGE + a % PAGE)
  }

  /** A change at `virt` through `root` shows in `r`. */
  predicate Shows(r: nat, root: nat, virt: nat) { r == root || virt >= HIGH_BASE }

  lemma IxOfSamePage(a: nat, b: nat)
    requires a / PAGE == b / PAGE
    ensures Ix(a) == Ix(b)
  {
    IxOfPage(a);
    IxOfPage(b);
  }

  lemma UpperHalfIndex(virt: nat)
    requires Canonical(virt)
    ensures Ix(virt)[0] >= KERNEL_START <==> virt >= HIGH_BASE
  {
    IxSum(virt);
  }

  lemma SamePage(a: nat, virt: nat)
    requires Canonical(a) && Canonical(virt)
    ensures Ix(a) == Ix(virt) <==> a / PAGE == virt / PAGE
  {
    if Ix(a) == Ix(virt) { IxIdentifiesPage(a, virt); }
    if a / PAGE == virt / PAGE { IxOfSamePage(a, virt); }
  }

  /** A successful paging_map updates the finite map at one page: its addresses get frame plus offset. */
  lemma MapUpdatesOnePage(mem: Mem, mem': Mem, roots: set<nat>, root: nat, virt: nat, phys: nat, r: nat, a: nat)
    requires Mappable(virt, phys) && PageChanged(mem, mem', roots, root, Ix(virt), Some(phys / PAGE))
    requires r in roots && Canonical(a)
    ensures Translate(mem', r, a) ==
            if a / PAGE == virt / PAGE && Shows(r, root, virt) then Some(phys + a % PAGE) else Translate(mem, r, a)
  {
    hide Walk, Ix;
    SamePage(a, virt);
    UpperHalfIndex(virt);
    assert Walk(mem', r, Ix(a)) == if Ix(a) == Ix(virt) && Affects(r, root, Ix(virt)) then Some(phys / PAGE)
        else Walk(mem, r, Ix(a));
  }

  /**
   * A successful paging_unmap removes one page from the finite map. The call does not ask for a canonical address: the
   * page is that of the canonical address with the same low 48 bits.
   */
  lemma UnmapRemovesOnePage(mem: Mem, mem': Mem, roots: set<nat>, root: nat, virt: nat, r: nat, a: nat)
    requires PageChanged(mem, mem', roots, root, Ix(virt), None)
    requires r in roots && Canonical(a)
    ensures var c := CanonicalForm(virt);
            Translate(mem', r, a) == if a / PAGE == c / PAGE && Shows(r, root, c) then None else Translate(mem, r, a)
  {
    hide Walk, Ix, CanonicalForm;
    var c := CanonicalForm(virt);
    CanonicalFormIx(virt);
    SamePage(a, c);
    UpperHalfIndex(c);
    assert Walk(mem', r, Ix(a)) == if Ix(a) == Ix(c) && Affects(r, root, Ix(c)) then None else Walk(mem, r, Ix(a));
  }

  lemma SameRegion(a: nat, virt: nat)
    requires Canonical(a) && Canonical(virt)
    ensures Ix(a)[..3] == Ix(virt)[..3] <==> a / REGION == virt / REGION
  {
    IxOfPage(a);
    IxOfPage(virt);
    IxSum(a);
    IxSum(virt);
    if Ix(a)[..3] == Ix(virt)[..3] {
      assert Ix(a)[..3][0] == Ix(virt)[..3][0] && Ix(a)[..3][1] == Ix(virt)[..3][1]
          && Ix(a)[..3][2] == Ix(virt)[..3][2];
      RegionOf(a);
      RegionOf(virt);
    }
    if a / REGION == virt / REGION {
      RegionDigits(a);
      RegionDigits(virt);
    }
  }

  lemma RegionOf(a: nat)
    requires Canonical(a)
    ensures a / REGION == (if a < LOW_TOP then 0
              else 0x1FF_FE00) * 0x4_0000 + Ix(a)[0] * 0x4_0000 + Ix(a)[1] * 0x200 + Ix(a)[2]
  {
    IxSum(a);
    assert a / REGION == a / PAGE / 0x200;
  }

  lemma RegionDigits(a: nat)
    ensures Ix(a)[0] == a / REGION / 0x4_0000 % 512 && Ix(a)[1] == a / REGION / 0x200 % 512
    ensures Ix(a)[2] == a / REGION % 512
  {}

  /**
   * After a successful paging_map_huge, paging_get_phys reads the region of its address from the physical address up.
   */
  lemma HugeMapsRegion(mem: Mem, mem': Mem, roots: set<nat>, root: nat, virt: nat, phys: nat, r: nat, a: nat)
    requires Mappable(virt, phys) && RegionChanged(mem, mem', roots, root, Ix(virt), phys / PAGE)
    requires r in roots && Canonical(a)
    ensures Translate(mem', r, a) ==
            if a / REGION == virt / REGION && Shows(r, root, virt) then Some(phys + a % REGION)
            else Translate(mem, r, a)
  {
    HugeOffset(a);
    hide Walk, Ix;
    SameRegion(a, virt);
    UpperHalfIndex(virt);
    assert Walk(mem', r, Ix(a)) ==
      if Ix(a)[..3] == Ix(virt)[..3] && Affects(r, root, Ix(virt)) then Some(phys / PAGE + Ix(a)[3])
      else Walk(mem, r, Ix(a));
  }

  // ---------------------------------------------------------------- runs of mapping calls

  /** The lower half of a directory translates as before. */
  ghost predicate SameLower(mem: Mem, mem': Mem, watch: nat) {
    forall ix :: IxOk(ix) && ix[0] < KERNEL_START ==> Walk(mem', watch, ix) == Walk(mem, watch, ix)
  }

  /** The upper half translates alike in all directories. */
  ghost predicate Coherent(mem: Mem, F: Forest) {
    forall r, ix :: r in F.roots && IxOk(ix) && ix[0] >= KERNEL_START ==> Walk(mem, r, ix) == Walk(mem, F.kernel, ix)
  }

  lemma ValidCoherent(mem: Mem, F: Forest)
    requires WF(mem, F) && UpperLinked(mem, F.roots)
    ensures Coherent(mem, F)
  {
    hide WF, UpperLinked, Walk;
    forall r, ix | r in F.roots && IxOk(ix) && ix[0] >= KERNEL_START
      ensures Walk(mem, r, ix) == Walk(mem, F.kernel, ix)
    {
      KernelHalfCoherent(mem, F, r, ix);
    }
  }

  lemma SameLowerAfter(mem0: Mem, mem: Mem, mem': Mem, roots: set<nat>, watch: nat)
    requires SameLower(mem0, mem, watch) && SameWalks(mem, mem', roots) && watch in roots
    ensures SameLower(mem0, mem', watch)
  {
    hide Walk;
    forall ix | IxOk(ix) && ix[0] < KERNEL_START ensures Walk(mem', watch, ix) == Walk(mem0, watch, ix) {
      assert Walk(mem', watch, ix) == Walk(mem, watch, ix);
    }
  }

  lemma PageChangeIsolates(mem0: Mem, mem: Mem, mem': Mem, roots: set<nat>, root: nat, at: seq<nat>, to: Option<nat>,
                           watch: nat)
    requires SameLower(mem0, mem, watch) && watch in roots && watch != root
    requires IxOk(at) && PageChanged(mem, mem', roots, root, at, to)
    ensures SameLower(mem0, mem', watch)
  {
    hide Walk;
    forall ix | IxOk(ix) && ix[0] < KERNEL_START ensures Walk(mem', watch, ix) == Walk(mem0, watch, ix) {
      assert Walk(mem, watch, ix) == Walk(mem0, watch, ix);
    }
  }

  lemma RegionChangeIsolates(mem0: Mem, mem: Mem, mem': Mem, roots: set<nat>, root: nat, at: seq<nat>, frame: nat,
                             watch: nat)
    requires SameLower(mem0, mem, watch) && watch in roots && watch != root
    requires IxOk(at) && RegionChanged(mem, mem', roots, root, at, frame)
    ensures SameLower(mem0, mem', watch)
  {
    hide Walk;
    forall ix | IxOk(ix) && ix[0] < KERNEL_START ensures Walk(mem', watch, ix) == Walk(mem0, watch, ix) {
      assert Walk(mem, watch, ix) == Walk(mem0, watch, ix);
      assert ix[..3] == at[..3] ==> ix[..3][0] == at[..3][0];
    }
  }

  // ---------------------------------------------------------------- the finite map as a fold

  /** What a call did to the finite map: nothing, a page or a region mapped, or a page gone. */
  datatype Change =
    | Same
    | Page(root: nat, virt: nat, phys: nat)
    | Region(root: nat, virt: nat, phys: nat)
    | Gone(root: nat, virt: nat)

  /** The translation `w` of address `a` in directory `r`, after the change. */
  function Apply(ch: Change, w: Option<nat>, r: nat, a: nat): Option<nat> {
    match ch
    case Same => w
    case Page(root, virt, phys) =>
      if a / PAGE == virt / PAGE && Shows(r, root, virt) then Some(phys + a % PAGE) else w
    case Region(root, virt, phys) =>
      if a / REGION == virt / REGION && Shows(r, root, virt) then Some(phys + a % REGION) else w
    case Gone(root, virt) =>
      var c := CanonicalForm(virt);
      if a / PAGE == c / PAGE && Shows(r, root, c) then None else w
  }

  function Fold(log: seq<Change>, w: Option<nat>, r: nat, a: nat): Option<nat> {
    if log == [] then w else Apply(log[|log| - 1], Fold(log[..|log| - 1], w, r, a), r, a)
  }

  /** Where a directory starts: with what it translates at first or, if it is new, with the kernel's upper half. */
  ghost function Start(mem: Mem, roots: set<nat>, kernel: nat, r: nat, a: nat): Option<nat> {
    if r in roots then Translate(mem, r, a) else if a >= HIGH_BASE then Translate(mem, kernel, a) else None
  }

  /** Every address, in every directory, translates as the changes so far say. */
  ghost predicate Folded(mem0: Mem, roots0: set<nat>, kernel: nat, log: seq<Change>, mem: Mem, roots: set<nat>) {
    forall r, a :: r in roots && Canonical(a) ==>
      Translate(mem, r, a) == Fold(log, Start(mem0, roots0, kernel, r, a), r, a)
  }

  ghost predicate RootsOk(log: seq<Change>, roots: set<nat>) {
    forall i :: 0 <= i < |log| && !log[i].Same? ==> log[i].root in roots
  }

  ghost predicate Changed(mem: Mem, mem': Mem, roots: set<nat>, ch: Change) {
    forall r, a :: r in roots && Canonical(a) ==> Translate(mem', r, a) == Apply(ch, Translate(mem, r, a), r, a)
  }

  lemma FoldedStart(mem: Mem, roots: set<nat>, kernel: nat)
    ensures Folded(mem, roots, kernel, [], mem, roots)
  {
    hide Translate;
  }

  lemma FoldedStep(mem0: Mem, roots0: set<nat>, kernel: nat, log: seq<Change>, mem: Mem, mem': Mem, roots: set<nat>,
                   ch: Change)
    requires Folded(mem0, roots0, kernel, log, mem, roots) && Changed(mem, mem', roots, ch)
    ensures Folded(mem0, roots0, kernel, log + [ch], mem', roots)
  {
    hide Translate, Apply, Start;
    var log' := log + [ch];
    assert log'[..|log'| - 1] == log;
    forall r, a | r in roots && Canonical(a)
      ensures Translate(mem', r, a) == Fold(log', Start(mem0, roots0, kernel, r, a), r, a)
    {
      assert Translate(mem, r, a) == Fold(log, Start(mem0, roots0, kernel, r, a), r, a);
      assert Translate(mem', r, a) == Apply(ch, Translate(mem, r, a), r, a);
    }
  }

  lemma SameHalf(a: nat, b: nat)
    requires a / PAGE == b / PAGE || a / REGION == b / REGION
    ensures a >= HIGH_BASE <==> b >= HIGH_BASE
  {
    assert HIGH_BASE == HIGH_BASE / PAGE * PAGE == HIGH_BASE / REGION * REGION;
  }

  /** A change shows in the lower half of its own directory only, and in the upper half of all. */
  lemma ApplyElsewhere(ch: Change, w: Option<nat>, r: nat, s: nat, a: nat)
    ensures a < HIGH_BASE && (ch.Same? || ch.root != r) ==> Apply(ch, w, r, a) == w
    ensures a >= HIGH_BASE ==> Apply(ch, w, r, a) == Apply(ch, w, s, a)
  {
    hide CanonicalForm;
    if !ch.Same? {
      var virt := if ch.Gone? then CanonicalForm(ch.virt) else ch.virt;
      if a / PAGE == virt / PAGE || a / REGION == virt / REGION { SameHalf(a, virt); }
    }
  }

  lemma {:induction false} FoldElsewhere(log: seq<Change>, w: Option<nat>, r: nat, s: nat, a: nat)
    ensures a < HIGH_BASE && (forall i :: 0 <= i < |log| && !log[i].Same? ==> log[i].root != r) ==>
              Fold(log, w, r, a) == w
    ensures a >= HIGH_BASE ==> Fold(log, w, r, a) == Fold(log, w, s, a)
  {
    hide Apply;
    if log != [] {
      var n := |log| - 1;
      FoldElsewhere(log[..n], w, r, s, a);
      ApplyElsewhere(log[n], Fold(log[..n], w, r, a), r, s, a);
      assert forall i :: 0 <= i < n ==> log[..n][i] == log[i];
    }
  }

  lemma SameChanged(mem: Mem, mem': Mem, roots: set<nat>)
    requires SameWalks(mem, mem', roots)
    ensures Changed(mem, mem', roots, Same)
  {
    hide Walk, Ix;
    forall r, a | r in roots && Canonical(a) ensures Translate(mem', r, a) == Translate(mem, r, a) {
      assert Walk(mem', r, Ix(a)) == Walk(mem, r, Ix(a));
    }
  }

  lemma MapChanged(mem: Mem, mem': Mem, roots: set<nat>, root: nat, virt: nat, phys: nat)
    requires Mappable(virt, phys) && PageChanged(mem, mem', roots, root, Ix(virt), Some(phys / PAGE))
    ensures Changed(mem, mem', roots, Page(root, virt, phys))
  {
    hide Translate, Ix, PageChanged;
    forall r, a | r in roots && Canonical(a)
      ensures Translate(mem', r, a) == Apply(Page(root, virt, phys), Translate(mem, r, a), r, a)
    {
      MapUpdatesOnePage(mem, mem', roots, root, virt, phys, r, a);
    }
  }

  lemma HugeChanged(mem: Mem, mem': Mem, roots: set<nat>, root: nat, virt: nat, phys: nat)
    requires Mappable(virt, phys) && RegionChanged(mem, mem', roots, root, Ix(virt), phys / PAGE)
    ensures Changed(mem, mem', roots, Region(root, virt, phys))
  {
    hide Translate, Ix, RegionChanged;
    forall r, a | r in roots && Canonical(a)
      ensures Translate(mem', r, a) == Apply(Region(root, virt, phys), Translate(mem, r, a), r, a)
    {
      HugeMapsRegion(mem, mem', roots, root, virt, phys, r, a);
    }
  }

  lemma UnmapChanged(mem: Mem, mem': Mem, roots: set<nat>, root: nat, virt: nat)
    requires PageChanged(mem, mem', roots, root, Ix(virt), None)
    ensures Changed(mem, mem', roots, Gone(root, virt))
  {
    hide Translate, Ix, PageChanged, CanonicalForm;
    forall r, a | r in roots && Canonical(a)
      ensures Translate(mem', r, a) == Apply(Gone(root, virt), Translate(mem, r, a), r, a)
    {
      UnmapRemovesOnePage(mem, mem', roots, root, virt, r, a);
    }
  }

  /** A new directory has the kernel's upper half, with all changes so far, and nothing below. */
  lemma CreateFolded(mem0: Mem, roots0: set<nat>, kernel: nat, log: seq<Change>, mem: Mem, mem': Mem, roots: set<nat>,
                     n: nat)
    requires Folded(mem0, roots0, kernel, log, mem, roots) && RootsOk(log, roots) && SameWalks(mem, mem', roots)
    requires kernel in roots0 && roots0 <= roots && n !in roots
    requires forall ix :: IxOk(ix) ==>
               Walk(mem', n, ix) == if ix[0] < KERNEL_START then None else Walk(mem', kernel, ix)
    ensures Folded(mem0, roots0, kernel, log + [Same], mem', roots + {n})
  {
    hide Walk, Ix, Translate, Start, Fold, SameWalks, Changed;
    SameChanged(mem, mem', roots);
    FoldedStep(mem0, roots0, kernel, log, mem, mem', roots, Same);
    var log' := log + [Same];
    forall a | Canonical(a) ensures Translate(mem', n, a) == Fold(log', Start(mem0, roots0, kernel, n, a), n, a) {
      var w := Start(mem0, roots0, kernel, n, a);
      NewStart(mem0, mem', roots0, kernel, n, a);
      FoldElsewhere(log', w, n, kernel, a);
      assert Translate(mem', kernel, a) == Fold(log', Start(mem0, roots0, kernel, kernel, a), kernel, a);
      assert forall i :: 0 <= i < |log'| && !log'[i].Same? ==> log'[i] == log[i];
    }
  }

  lemma NewStart(mem0: Mem, mem: Mem, roots0: set<nat>, kernel: nat, n: nat, a: nat)
    requires kernel in roots0 && n !in roots0 && Canonical(a)
    requires forall ix :: IxOk(ix) ==> Walk(mem, n, ix) == if ix[0] < KERNEL_START then None else Walk(mem, kernel, ix)
    ensures if a >= HIGH_BASE
            then && Start(mem0, roots0, kernel, n, a) == Start(mem0, roots0, kernel, kernel, a)
                 && Translate(mem, n, a) == Translate(mem, kernel, a)
            else Start(mem0, roots0, kernel, n, a) == None && Translate(mem, n, a) == None
  {
    hide Walk, Ix;
    UpperHalfIndex(a);
  }

  /** A call through the k-th known directory. */
  datatype Call = MapCall(k: nat, virt: nat, phys: nat, flags: nat)
                | HugeCall(k: nat, virt: nat, phys: nat, flags: nat)
                | UnmapCall(k: nat, virt: nat)
                | CreateCall

  /** The change fits the call: what it asked for if it succeeded, and nothing otherwise. */
  predicate Fits(c: Call, known: seq<nat>, ok: bool, ch: Change) {
    if !ok then ch.Same?
    else match c
      case MapCall(k, virt, phys, _) => k < |known| && ch == Page(known[k], virt, phys)
      case HugeCall(k, virt, phys, _) => k < |known| && ch == Region(known[k], virt, phys)
      case UnmapCall(k, virt) => k < |known| && ch == Gone(known[k], virt)
      case CreateCall => ch.Same?
  }

  predicate CallOk(c: Call) { (c.MapCall? || c.HugeCall?) ==> c.phys < FRAMES * PAGE && IsFlags(c.flags) }

  ghost predicate KnownOk(F: Forest, known: seq<nat>, watch: nat) {
    watch in F.roots && forall k :: 0 <= k < |known| ==> known[k] in F.roots && known[k] != watch
  }

  method StepMap(dirs: Directories, root: nat, virt: nat, phys: nat, flags: nat, huge: bool, ghost mem0: Mem,
                 ghost watch: nat)
    returns (st: Status)
    requires dirs.Valid() && root in dirs.F.roots && watch in dirs.F.roots && watch != root
    requires phys < FRAMES * PAGE && IsFlags(flags) && SameLower(mem0, dirs.mem, watch)
    modifies dirs`mem, dirs`F, dirs.pmm`usedPages, dirs.pmm`freePages, dirs.pmm`lastFound, dirs.pmm`free,
             dirs.pmm.bitmap
    ensures dirs.Valid() && SameLower(mem0, dirs.mem, watch) && dirs.F.roots == old(dirs.F.roots)
    ensures Changed(old(dirs.mem), dirs.mem, dirs.F.roots, if st == Error then Same
                                                           else if huge then Region(root, virt, phys)
                                                           else Page(root, virt, phys))
  {
    hide WF, UpperLinked, Walk, SameLower, PageChanged, RegionChanged, SameWalks, Grown, Ix, Pmm.Represents, IsFlags,
         Changed;
    ghost var mem1, F1, free1 := dirs.mem, dirs.F, dirs.pmm.free;
    if huge {
      st := dirs.MapHuge(root, virt, phys, flags);
      GrownKeeps(F1, dirs.F, free1, dirs.pmm.free);
      if st == Ok {
        RegionChangeIsolates(mem0, mem1, dirs.mem, F1.roots, root, Ix(virt), phys / PAGE, watch);
        HugeChanged(mem1, dirs.mem, F1.roots, root, virt, phys);
      }
    } else {
      ghost var mid;
      st, mid := dirs.Map(root, virt, phys, flags, false);
      GrownKeeps(F1, mid, free1, dirs.pmm.free);
      if st == Ok {
        PageChangeIsolates(mem0, mem1, dirs.mem, F1.roots, root, Ix(virt), Some(phys / PAGE), watch);
        MapChanged(mem1, dirs.mem, F1.roots, root, virt, phys);
      }
    }
    if st == Error {
      SameLowerAfter(mem0, mem1, dirs.mem, F1.roots, watch);
      SameChanged(mem1, dirs.mem, F1.roots);
    }
  }

  method StepUnmap(dirs: Directories, root: nat, virt: nat, ghost mem0: Mem, ghost watch: nat) returns (st: Status)
    requires dirs.Valid() && root in dirs.F.roots && watch in dirs.F.roots && watch != root
    requires SameLower(mem0, dirs.mem, watch)
    modifies dirs`mem, dirs`F, dirs.pmm`usedPages, dirs.pmm`freePages, dirs.pmm`lastFound, dirs.pmm`free,
             dirs.pmm.bitmap
    ensures dirs.Valid() && SameLower(mem0, dirs.mem, watch) && dirs.F.roots == old(dirs.F.roots)
    ensures Changed(old(dirs.mem), dirs.mem, dirs.F.roots, if st == Error then Same else Gone(root, virt))
  {
    hide WF, UpperLinked, Walk, SameLower, PageChanged, SameWalks, Ix, SmallPage, Pmm.Represents, Changed;
    ghost var mem1, F1 := dirs.mem, dirs.F;
    st := dirs.Unmap(root, virt);
    if st == Ok {
      PageChangeIsolates(mem0, mem1, dirs.mem, F1.roots, root, Ix(virt), None, watch);
      UnmapChanged(mem1, dirs.mem, F1.roots, root, virt);
    } else {
      SameLowerAfter(mem0, mem1, dirs.mem, F1.roots, watch);
      SameChanged(mem1, dirs.mem, F1.roots);
    }
  }

  method StepCreate(dirs: Directories, known0: seq<nat>, ghost mem0: Mem, ghost watch: nat, ghost roots0: set<nat>,
                    ghost log: seq<Change>)
    returns (known: seq<nat>, ok: bool)
    requires dirs.Valid() && KnownOk(dirs.F, known0, watch) && SameLower(mem0, dirs.mem, watch)
    requires Folded(mem0, roots0, dirs.kernelDir, log, dirs.mem, dirs.F.roots) && RootsOk(log, dirs.F.roots)
    requires dirs.kernelDir in roots0 && roots0 <= dirs.F.roots
    modifies dirs`mem, dirs`F, dirs.pmm`usedPages, dirs.pmm`freePages, dirs.pmm`lastFound, dirs.pmm`free,
             dirs.pmm.bitmap
    ensures dirs.Valid() && KnownOk(dirs.F, known, watch) && SameLower(mem0, dirs.mem, watch) && known0 <= known
    ensures Folded(mem0, roots0, dirs.kernelDir, log + [Same], dirs.mem, dirs.F.roots) && roots0 <= dirs.F.roots
    ensures old(dirs.F.roots) <= dirs.F.roots
  {
    hide WF, UpperLinked, Walk, SameLower, SameWalks, Pmm.Represents, Folded, RootsOk;
    ghost var mem1, F1, free1 := dirs.mem, dirs.F, dirs.pmm.free;
    RootsInPath(mem1, F1);
    var n := dirs.CreateDirectory();
    SameLowerAfter(mem0, mem1, dirs.mem, F1.roots, watch);
    SameChanged(mem1, dirs.mem, F1.roots);
    FoldedStep(mem0, roots0, dirs.kernelDir, log, mem1, dirs.mem, F1.roots, Same);
    known, ok := known0, n != 0;
    if n != 0 {
      CreateFolded(mem0, roots0, dirs.kernelDir, log, mem1, dirs.mem, F1.roots, n);
      known := known0 + [n];
    }
  }

  lemma RootsInPath(mem: Mem, F: Forest)
    requires WF(mem, F)
    ensures F.kernel in F.roots && forall r :: r in F.roots ==> r in F.path
  {
    forall r | r in F.roots ensures r in F.path { RootPath(mem, F, r); }
  }

  /**
   * Any run of maps, huge maps, unmaps and directory creations through any directories: the kernel half stays coherent
   * in all of them, and the user half of a directory no call goes through keeps every translation. At the end every
   * address in every directory translates as the successful calls, one after the other, say.
   */
  method Run(dirs: Directories, start: seq<nat>, calls: seq<Call>, ghost watch: nat)
    returns (known: seq<nat>, oks: seq<bool>, ghost log: seq<Change>)
    requires dirs.Valid() && KnownOk(dirs.F, start, watch)
    requires forall i :: 0 <= i < |calls| ==> CallOk(calls[i])
    modifies dirs`mem, dirs`F, dirs.pmm`usedPages, dirs.pmm`freePages, dirs.pmm`lastFound, dirs.pmm`free,
             dirs.pmm.bitmap
    ensures dirs.Valid() && Coherent(dirs.mem, dirs.F)
    ensures KnownOk(dirs.F, known, watch) && SameLower(old(dirs.mem), dirs.mem, watch)
    ensures Folded(old(dirs.mem), old(dirs.F.roots), dirs.kernelDir, log, dirs.mem, dirs.F.roots)
    ensures |log| == |oks| == |calls| && forall i :: 0 <= i < |calls| ==> Fits(calls[i], known, oks[i], log[i])
  {
    hide WF, UpperLinked, Walk, SameLower, Coherent, Pmm.Represents, IsFlags, Folded, Changed, RootsOk, Fits;
    ghost var mem0, roots0 := dirs.mem, dirs.F.roots;
    known, oks, log := start, [], [];
    SameLowerStart(mem0, watch);
    RootsInPath(mem0, dirs.F);
    FoldedStart(mem0, roots0, dirs.kernelDir);
    NoRoots(roots0);
    for i := 0 to |calls|
      invariant dirs.Valid() && KnownOk(dirs.F, known, watch) && SameLower(mem0, dirs.mem, watch)
      invariant Folded(mem0, roots0, dirs.kernelDir, log, dirs.mem, dirs.F.roots) && RootsOk(log, dirs.F.roots)
      invariant roots0 <= dirs.F.roots && |log| == |oks| == i
      invariant forall j :: 0 <= j < i ==> Fits(calls[j], known, oks[j], log[j])
    {
      ghost var mem1, roots1, known1 := dirs.mem, dirs.F.roots, known;
      var ok := false;
      ghost var ch := Same;
      if calls[i].CreateCall? {
        known, ok := StepCreate(dirs, known, mem0, watch, roots0, log);
      } else {
        ok, ch := StepCall(dirs, known, calls[i], mem0, watch);
        FoldedStep(mem0, roots0, dirs.kernelDir, log, mem1, dirs.mem, roots1, ch);
      }
      MoreRoots(log, ch, roots1, dirs.F.roots);
      forall j | 0 <= j < i ensures Fits(calls[j], known, oks[j], log[j]) {
        FitsMore(calls[j], known1, known, oks[j], log[j]);
      }
      CreateFits(calls[i], known, ok, ch);
      oks, log := oks + [ok], log + [ch];
    }
    ValidCoherent(dirs.mem, dirs.F);
  }

  /** One call that maps or unmaps, through a known directory. */
  method StepCall(dirs: Directories, known: seq<nat>, c: Call, ghost mem0: Mem, ghost watch: nat)
    returns (ok: bool, ghost ch: Change)
    requires dirs.Valid() && KnownOk(dirs.F, known, watch) && SameLower(mem0, dirs.mem, watch)
    requires CallOk(c) && !c.CreateCall?
    modifies dirs`mem, dirs`F, dirs.pmm`usedPages, dirs.pmm`freePages, dirs.pmm`lastFound, dirs.pmm`free,
             dirs.pmm.bitmap
    ensures dirs.Valid() && SameLower(mem0, dirs.mem, watch) && dirs.F.roots == old(dirs.F.roots)
    ensures Changed(old(dirs.mem), dirs.mem, dirs.F.roots, ch) && Fits(c, known, ok, ch)
    ensures ch.Same? || ch.root in dirs.F.roots
  {
    hide WF, UpperLinked, Walk, SameLower, Pmm.Represents, IsFlags, Changed;
    ok, ch := false, Same;
    Unchanged(dirs.mem, dirs.F.roots);
    if c.k < |known| {
      var st;
      match c {
        case MapCall(k, virt, phys, flags) =>
          st := StepMap(dirs, known[k], virt, phys, flags, false, mem0, watch);
          ch := if st == Ok then Page(known[k], virt, phys) else Same;
        case HugeCall(k, virt, phys, flags) =>
          st := StepMap(dirs, known[k], virt, phys, flags, true, mem0, watch);
          ch := if st == Ok then Region(known[k], virt, phys) else Same;
        case UnmapCall(k, virt) =>
          st := StepUnmap(dirs, known[k], virt, mem0, watch);
          ch := if st == Ok then Gone(known[k], virt) else Same;
      }
      ok := st == Ok;
    }
  }

  lemma Unchanged(mem: Mem, roots: set<nat>)
    ensures Changed(mem, mem, roots, Same)
  {
    hide Translate;
  }

  lemma NoRoots(roots: set<nat>)
    ensures RootsOk([], roots)
  {}

  lemma MoreRoots(log: seq<Change>, ch: Change, roots: set<nat>, roots': set<nat>)
    requires RootsOk(log, roots) && roots <= roots' && (ch.Same? || ch.root in roots)
    ensures RootsOk(log + [ch], roots')
  {}

  lemma FitsMore(c: Call, known: seq<nat>, known': seq<nat>, ok: bool, ch: Change)
    requires Fits(c, known, ok, ch) && known <= known'
    ensures Fits(c, known', ok, ch)
  {}

  lemma CreateFits(c: Call, known: seq<nat>, ok: bool, ch: Change)
    requires (c.CreateCall? && ch.Same?) || Fits(c, known, ok, ch)
    ensures Fits(c, known, ok, ch)
  {}

  lemma SameLowerStart(mem: Mem, watch: nat)
    ensures SameLower(mem, mem, watch)
  {}
}
