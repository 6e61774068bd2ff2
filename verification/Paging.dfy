/** Mapping and unmapping pages of any directory over the shared forest of page tables. */
module Paging {
  import opened Common
  import opened PageTables
  import opened PageForest
  import opened PageWrites
  import Pmm

  const ZERO_TABLE: seq<nat> := seq(ENTRIES, _ => 0)
  /** PAGE_PRESENT | PAGE_RW, and PAGE_USER_RW. */
  const LINK_KERNEL: nat := 3
  const LINK_USER: nat := 7

  /** The forest gained tables, and those tables are exactly the frames taken from the free pages. */
  ghost predicate Grown(F: Forest, F': Forest, free: set<nat>, free': set<nat>) {
    && F'.kernel == F.kernel && F'.roots == F.roots
    && (forall f :: f in F.path ==> f in F'.path && F'.path[f] == F.path[f])
    && free' <= free
    && F'.path.Keys == F.path.Keys + (free - free')
    && (forall f :: f in F'.path && f !in F.path ==> 1 <= |F'.path[f].idx| <= 3)
  }

  lemma GrownTrans(F: Forest, G: Forest, H: Forest, a: set<nat>, b: set<nat>, c: set<nat>)
    requires Grown(F, G, a, b) && Grown(G, H, b, c) && F.path.Keys !! a
    ensures Grown(F, H, a, c)
  {
    assert a - c == (a - b) + (b - c);
  }

  /** A write through directory `root` at page `at` shows in `r`: the same directory, or the shared upper half. */
  predicate Affects(r: nat, root: nat, at: seq<nat>)
    requires IxOk(at)
  {
    r == root || at[0] >= KERNEL_START
  }

  /** One page changed its translation to `to`, in every directory it shows in; nothing else did. */
  ghost predicate PageChanged(mem: Mem, mem': Mem, roots: set<nat>, root: nat, at: seq<nat>, to: Option<nat>)
    requires IxOk(at)
  {
    forall r, ix :: r in roots && IxOk(ix) ==>
      Walk(mem', r, ix) == if ix == at && Affects(r, root, at) then to else Walk(mem, r, ix)
  }

  lemma LeafWriteChangesPage(mem: Mem, F: Forest, t: nat, root: nat, at: seq<nat>, e: nat)
    requires WF(mem, F) && UpperLinked(mem, F.roots) && root in F.roots && IxOk(at)
    requires t in F.path && F.path[t] == F.Norm(root, at[..3])
    ensures t in mem && |mem[t]| == ENTRIES
    ensures PageChanged(mem, Store(mem, t, at[3], e), F.roots, root, at, if Present(e) then Some(FrameOf(e)) else None)
  {
    hide Present, Huge, FrameOf, WF, UpperLinked, Walk;
    SizedAt(mem, F, t);
    var mem' := Store(mem, t, at[3], e);
    StoreAgrees(mem, F, t, at[3], e);
    forall r, ix | r in F.roots && IxOk(ix)
      ensures Walk(mem', r, ix) ==
              if ix == at && Affects(r, root, at) then (if Present(e) then Some(FrameOf(e)) else None)
              else Walk(mem, r, ix)
    {
      LeafWrite(mem, mem', F, t, at[3], r, ix);
      SamePageIff(F, r, root, ix, at);
    }
  }

  lemma SamePageIff(F: Forest, r: nat, root: nat, ix: seq<nat>, at: seq<nat>)
    requires IxOk(ix) && IxOk(at)
    ensures F.Norm(r, ix[..3]) == F.Norm(root, at[..3]) && ix[3] == at[3] <==> ix == at && Affects(r, root, at)
  {
    if ix[..3] == at[..3] && ix[3] == at[3] {
      assert ix == ix[..3] + [ix[3]] == at[..3] + [at[3]] == at;
    }
    assert ix[..3][0] == ix[0] && at[..3][0] == at[0];
  }

  /** The last-level table of a page stores its frame; the recorded path of the frame it maps is the page's path. */
  lemma LeafPathIs(F: Forest, t: nat, root: nat, at: seq<nat>)
    requires IxOk(at) && t in F.path && F.path[t] == F.Norm(root, at[..3])
    ensures LeafPath(F, t, at[3]) == F.Norm(root, at)
  {
    assert at == at[..3] + [at[3]];
  }

  class Directories {
    const pmm: Pmm.Manager
    /** The frame of kernel_page_dir. */
    const kernelDir: nat
    /** Physical memory holding tables: frame number to 512 words. */
    var mem: Mem
    ghost var F: Forest

    /** No frame of the forest is free, and free frames are addressable by an entry. */
    ghost predicate Disjoint()
      reads this, pmm
    {
      && F.path.Keys !! pmm.free
      && 0 !in pmm.free && 0 !in F.path
      && pmm.maxPages <= FRAMES
    }

    /** The tables form a forest apart from the free pages and page 0. */
    ghost predicate Sound()
      reads this, pmm, pmm.bitmap
    {
      && pmm.Valid() && F.path.Keys !! pmm.free && 0 !in F.path && pmm.maxPages <= FRAMES
      && WF(mem, F) && UpperLinked(mem, F.roots) && F.kernel == kernelDir
    }

    /** Besides, page 0 is not free, so that no page has the address that means failure. */
    ghost predicate Valid()
      reads this, pmm, pmm.bitmap
    {
      Sound() && 0 !in pmm.free
    }

    /** The kernel directory is a zeroed static table outside the PMM's free pages. */
    constructor (manager: Pmm.Manager, kernel: nat)
      requires manager.Valid() && manager.maxPages <= FRAMES && 0 !in manager.free
      requires kernel !in manager.free && kernel != 0
      ensures pmm == manager && kernelDir == kernel && F == Forest(kernel, {kernel}, map[kernel := Path(kernel, [])])
      ensures mem == map[kernel := ZERO_TABLE] && Populated(KERNEL_START)
    {
      pmm := manager;
      kernelDir := kernel;
      mem := map[kernel := ZERO_TABLE];
      F := Forest(kernel, {kernel}, map[kernel := Path(kernel, [])]);
      new;
      assert forall i :: 0 <= i < ENTRIES ==> !Present(Load(mem, kernel, i));
    }

    /** The upper half of the kernel directory is linked up to index `i` and the rest is empty. */
    ghost predicate Populated(i: nat)
      reads this, pmm, pmm.bitmap
    {
      && pmm.Valid() && Disjoint() && WF(mem, F)
      && F.kernel == kernelDir && F.roots == {kernelDir}
      && forall j :: 0 <= j < ENTRIES ==>
           if KERNEL_START <= j < i then IsLink(Load(mem, kernelDir, j)) else !Present(Load(mem, kernelDir, j))
    }

    /**
     * paging_init's first loop: every upper-half slot of the kernel directory gets a table before anything is mapped.
     */
    method PopulateKernelHalf() returns (st: Status)
      requires Populated(KERNEL_START)
      modifies this`mem, this`F, pmm`usedPages, pmm`freePages, pmm`lastFound, pmm`free, pmm.bitmap
      ensures st == Ok ==> Valid() && F.roots == {kernelDir}
      ensures st == Error ==> pmm.free == {}
      ensures SameWalks(old(mem), mem, {kernelDir})
    {
      hide WF, Walk, SameWalks, Present, Huge, Pmm.Represents;
      SameWalksRefl(mem, {kernelDir});
      for i := KERNEL_START to ENTRIES
        invariant Populated(i) && SameWalks(old(mem), mem, {kernelDir})
      {
        ghost var mem0 := mem;
        var ok := PopulateSlot(i);
        SameWalksTrans(old(mem), mem0, mem, {kernelDir});
        if !ok {
          return Error;
        }
      }
      st := Ok;
    }

    /** One round: a zeroed frame is linked at slot `i`. */
    method PopulateSlot(i: nat) returns (ok: bool)
      requires KERNEL_START <= i < ENTRIES && Populated(i)
      modifies this`mem, this`F, pmm`usedPages, pmm`freePages, pmm`lastFound, pmm`free, pmm.bitmap
      ensures ok ==> Populated(i + 1)
      ensures SameWalks(old(mem), mem, {kernelDir}) && (!ok ==> pmm.free == {})
    {
      hide WF, Walk, Present, Huge, FrameOf, MakeEntry, SameWalks, Store, Pmm.Represents;
      ghost var mem0 := mem;
      var n := AllocZeroed();
      if n == 0 {
        return false;
      }
      var entry := MakeEntry(n, LINK_KERNEL);
      RootPath(mem, F, kernelDir);
      LinkKernelTable(mem0, mem, F, i, n, entry);
      SameWalksTrans(mem0, mem, Store(mem, kernelDir, i, entry), {kernelDir});
      StoredRow(mem, kernelDir, i, entry);
      mem := Store(mem, kernelDir, i, entry);
      F := WithPath(F, n, F.Child(F.path[kernelDir], i));
      assert forall j :: 0 <= j < ENTRIES ==>
          Load(mem, kernelDir, j) == if j == i then entry else Load(mem0, kernelDir, j);
      ok := true;
    }

    /** A zeroed frame from the PMM, or 0. */
    method AllocZeroed() returns (n: nat)
      requires pmm.Valid() && Disjoint() && WF(mem, F)
      modifies this`mem, pmm`usedPages, pmm`freePages, pmm`lastFound, pmm`free, pmm.bitmap
      ensures pmm.Valid() && Disjoint() && WF(mem, F)
      ensures old(UpperLinked(mem, F.roots)) ==> UpperLinked(mem, F.roots)
      ensures n == 0 <==> old(pmm.free) == {}
      ensures n == 0 ==> pmm.free == old(pmm.free) && mem == old(mem)
      ensures n != 0 ==> n in old(pmm.free) && pmm.free == old(pmm.free) - {n} && n !in F.path && n < FRAMES
      ensures n != 0 ==> mem == old(mem)[n := ZERO_TABLE]
      ensures SameWalks(old(mem), mem, F.roots)
    {
      hide WF, UpperLinked, Walk;
      FreeBelow(pmm);
      var phys := pmm.Alloc();
      n := phys / PAGE;
      if phys != 0 {
        OutsideWrite(mem, F, n, ZERO_TABLE);
        mem := mem[n := ZERO_TABLE];
      }
    }

    /**
     * __search_or_create_table: the table linked at an entry, created empty when absent and wanted. Links, new tables
     * and user bits change no translation.
     */
    method SearchOrCreate(table: nat, index: nat, create: bool, flags: nat) returns (r: Option<nat>)
      requires Sound() && (create ==> Valid()) && table in F.path && |F.path[table].idx| <= 2 && index < ENTRIES
      modifies this`mem, this`F, pmm`usedPages, pmm`freePages, pmm`lastFound, pmm`free, pmm.bitmap
      ensures Sound() && (0 in pmm.free ==> 0 in old(pmm.free))
      ensures |old(pmm.free)| <= |pmm.free| + 1
      ensures Grown(old(F), F, old(pmm.free), pmm.free) && SameWalks(old(mem), mem, F.roots)
      ensures r.Some? ==> r.value in F.path && F.path[r.value] == F.Child(F.path[table], index)
      ensures r.Some? ==> IsLink(Load(mem, table, index)) && FrameOf(Load(mem, table, index)) == r.value
      ensures r.Some? && User(flags) ==> User(Load(mem, table, index))
      ensures AgreeBut(old(mem), mem, old(F), table, index)
      ensures r.None? ==> mem == old(mem)
      ensures r.None? && Present(Load(mem, table, index)) ==> Huge(Load(mem, table, index))
      ensures r.None? && !Present(Load(mem, table, index)) ==> !create || pmm.free == {}
      ensures !create ==> F == old(F) && pmm.free == old(pmm.free)
      ensures !create && !User(flags) ==> mem == old(mem)
    {
      hide WF, UpperLinked, Walk, Present, Huge, FrameOf, User, OrUser;
      SizedAt(mem, F, table);
      var e := mem[table][index];
      if Present(e) {
        if Huge(e) {
          return None;
        }
        LinkedChild(mem, F, table, index);
        if User(flags) && !User(e) {
          UserBitWrite(mem, F, table, index);
          OrUserFields(e);
          OrUserIsUser(e);
          mem := Store(mem, table, index, OrUser(e));
        }
        return Some(FrameOf(mem[table][index]));
      }
      if !create {
        return None;
      }
      r := CreateTable(table, index, flags);
    }

    method CreateTable(table: nat, index: nat, flags: nat) returns (r: Option<nat>)
      requires Valid() && table in F.path && |F.path[table].idx| <= 2 && index < ENTRIES
      requires !Present(Load(mem, table, index))
      modifies this`mem, this`F, pmm`usedPages, pmm`freePages, pmm`lastFound, pmm`free, pmm.bitmap
      ensures Valid()
      ensures |old(pmm.free)| <= |pmm.free| + 1
      ensures Grown(old(F), F, old(pmm.free), pmm.free) && SameWalks(old(mem), mem, F.roots)
      ensures r.Some? ==> r.value in F.path && F.path[r.value] == F.Child(F.path[table], index)
      ensures r.Some? ==> IsLink(Load(mem, table, index)) && FrameOf(Load(mem, table, index)) == r.value
      ensures r.Some? && User(flags) ==> User(Load(mem, table, index))
      ensures AgreeBut(old(mem), mem, old(F), table, index)
      ensures r.None? ==> mem == old(mem) && F == old(F) && pmm.free == {}
    {
      hide WF, UpperLinked, Walk, Present, Huge, FrameOf, User, AgreeBut, MakeEntry, SameWalks, Grown, Pmm.Represents;
      ghost var mem0, F0, free0 := mem, F, pmm.free;
      var n := AllocZeroed();
      if n == 0 {
        GrownNothing(F, pmm.free);
        AgreeSelf(mem, F, table, index);
        return None;
      }
      var entry := MakeEntry(n, if User(flags) then LINK_USER else LINK_KERNEL);
      SizedAt(mem, F, table);
      LinkNewTable(mem0, mem, F, table, index, n, entry);
      UserLink(n);
      SameWalksTrans(mem0, mem, Store(mem, table, index, entry), F.roots);
      CreateAgrees(mem0, mem, F, table, index, n, entry);
      mem := Store(mem, table, index, entry);
      F := WithPath(F, n, F.Child(F.path[table], index));
      GrownByOne(F0, free0, n, F0.Child(F0.path[table], index));
      return Some(FrameOf(mem[table][index]));
    }

    /** The page directory for indices `ix`: two descents from the PML4. */
    method FindPd(root: nat, ix: seq<nat>, create: bool, flags: nat) returns (pd: Option<nat>)
      requires Sound() && (create ==> Valid()) && root in F.roots && IxOk(ix)
      modifies this`mem, this`F, pmm`usedPages, pmm`freePages, pmm`lastFound, pmm`free, pmm.bitmap
      ensures Sound() && (0 in pmm.free ==> 0 in old(pmm.free))
      ensures |old(pmm.free)| <= |pmm.free| + 2
      ensures Grown(old(F), F, old(pmm.free), pmm.free) && SameWalks(old(mem), mem, F.roots)
      ensures pd.Some? ==> pd.value in F.path && F.path[pd.value] == F.Norm(root, ix[..2])
      ensures pd.Some? ==> Descend(mem, root, ix[..2]) == pd
      ensures pd.Some? && User(flags) ==> UserLinks(mem, root, ix[..2])
      ensures pd.None? ==> if create then pmm.free == {} else Descend(mem, root, ix[..2]).None?
      ensures !create ==> F == old(F) && pmm.free == old(pmm.free)
      ensures !create && !User(flags) ==> mem == old(mem)
    {
      hide WF, UpperLinked, Walk, Present, Huge, FrameOf, Grown, SameWalks, User, UserLinks, AgreeBut;
      ghost var F0, mem0, free0 := F, mem, pmm.free;
      RootPath(mem, F, root);
      var pdp := SearchOrCreate(root, ix[0], create, flags);
      DescendOne(mem, root, ix);
      GrownKeeps(F0, F, free0, pmm.free);
      if pdp.None? {
        NoHugeAbove(mem, F, root, ix[0]);
        return None;
      }
      ghost var F1, mem1, free1 := F, mem, pmm.free;
      NormStep(F, root, ix);
      pd := SearchOrCreate(pdp.value, ix[1], create, flags);
      GrownTrans(F0, F1, F, free0, free1, pmm.free);
      SameWalksTrans(mem0, mem1, mem, F.roots);
      GrownKeeps(F1, F, free1, pmm.free);
      if pd.None? {
        NoHugeAbove(mem, F, pdp.value, ix[1]);
      }
      DescendTwo(mem, F, root, ix, pdp.value);
      UserLinksOne(mem1, root, ix);
      UserLinksNext(mem1, mem, F1, root, ix, 1, pdp.value);
    }

    /** The last-level table for indices `ix`: a third descent. */
    method FindPt(root: nat, ix: seq<nat>, create: bool, flags: nat) returns (pt: Option<nat>)
      requires Sound() && (create ==> Valid()) && root in F.roots && IxOk(ix)
      modifies this`mem, this`F, pmm`usedPages, pmm`freePages, pmm`lastFound, pmm`free, pmm.bitmap
      ensures Sound() && (0 in pmm.free ==> 0 in old(pmm.free))
      ensures |old(pmm.free)| <= |pmm.free| + 3
      ensures Grown(old(F), F, old(pmm.free), pmm.free) && SameWalks(old(mem), mem, F.roots)
      ensures pt.Some? ==> pt.value in F.path && F.path[pt.value] == F.Norm(root, ix[..3])
      ensures pt.Some? ==> Descend(mem, root, ix[..3]) == pt
      ensures pt.Some? && User(flags) ==> UserLinks(mem, root, ix[..3])
      ensures pt.None? ==>
                if create then pmm.free == {} || Walk(mem, root, ix).Some? else Descend(mem, root, ix[..3]).None?
      ensures !create ==> F == old(F) && pmm.free == old(pmm.free)
      ensures !create && !User(flags) ==> mem == old(mem)
    {
      hide WF, UpperLinked, Walk, Present, Huge, FrameOf, Grown, SameWalks, User, UserLinks, AgreeBut;
      ghost var F0, mem0, free0 := F, mem, pmm.free;
      var pd := FindPd(root, ix, create, flags);
      DescendOne(mem, root, ix);
      NoPdNoPt(mem, root, ix);
      if pd.None? {
        return None;
      }
      ghost var F1, mem1, free1 := F, mem, pmm.free;
      NormStep(F, root, ix);
      pt := SearchOrCreate(pd.value, ix[2], create, flags);
      GrownTrans(F0, F1, F, free0, free1, pmm.free);
      GrownKeeps(F1, F, free1, pmm.free);
      SameWalksTrans(mem0, mem1, mem, F.roots);
      DescendThree(mem, F, root, ix, pd.value);
      UserLinksNext(mem1, mem, F1, root, ix, 2, pd.value);
    }

    /** paging_map. With `own`, the mapped frame becomes a frame the address space owns. */
    method Map(root: nat, virt: nat, phys: nat, flags: nat, ghost own: bool) returns (st: Status, ghost mid: Forest)
      requires Valid() && root in F.roots && phys < FRAMES * PAGE && IsFlags(flags)
      requires own ==> phys / PAGE !in F.path && phys / PAGE !in pmm.free && phys / PAGE != 0
      modifies this`mem, this`F, pmm`usedPages, pmm`freePages, pmm`lastFound, pmm`free, pmm.bitmap
      ensures Valid()
      ensures |old(pmm.free)| <= |pmm.free| + 3
      ensures Grown(old(F), mid, old(pmm.free), pmm.free)
      ensures F == if st == Ok && own then WithPath(mid, phys / PAGE, mid.Norm(root, Ix(virt))) else mid
      ensures st == Ok ==> Mappable(virt, phys) && Walk(old(mem), root, Ix(virt)).None?
      ensures st == Ok ==> PageChanged(old(mem), mem, F.roots, root, Ix(virt), Some(phys / PAGE))
      ensures st == Ok ==> EntryAt(mem, root, Ix(virt), 3, MakeEntry(phys / PAGE, OrPresent(flags)))
      ensures st == Ok && User(flags) ==> UserLinks(mem, root, Ix(virt)[..3])
      ensures st == Error ==> SameWalks(old(mem), mem, F.roots)
      ensures st == Error && Mappable(virt, phys) ==> Walk(old(mem), root, Ix(virt)).Some? || pmm.free == {}
    {
      hide WF, UpperLinked, Walk, Present, Huge, FrameOf, Grown, Ix, OrPresent, User, UserLinks, EntryAt, MakeEntry;
      mid := F;
      if !Mappable(virt, phys) {
        GrownNothing(F, pmm.free);
        return Error, mid;
      }
      var ix := Ix(virt);
      ghost var F0, mem0, free0 := F, mem, pmm.free;
      var pt := FindPt(root, ix, true, flags);
      mid := F;
      GrownKeeps(F0, F, free0, pmm.free);
      assert Walk(mem, root, ix) == Walk(mem0, root, ix);
      if pt.None? {
        return Error, mid;
      }
      SizedAt(mem, F, pt.value);
      WalkViaTable(mem, F, root, ix);
      if Present(mem[pt.value][ix[3]]) {
        return Error, mid;
      }
      st := Ok;
      var entry := MakeEntry(phys / PAGE, OrPresent(flags));
      OrPresentFlags(flags);
      MakeEntryFields(phys / PAGE, OrPresent(flags));
      GrownFresh(F0, F, free0, pmm.free, phys / PAGE);
      LeafMapped(mem0, mem, F, pt.value, root, ix, entry, own);
      StoredEntry(mem, F, root, ix, 3, pt.value, entry);
      mem := Store(mem, pt.value, ix[3], entry);
      F := if own then WithPath(F, phys / PAGE, F.Norm(root, ix)) else F;
    }

    /** paging_map_huge: a 2 MiB leaf in the page directory, covering the whole region the address lies in. */
    method MapHuge(root: nat, virt: nat, phys: nat, flags: nat) returns (st: Status)
      requires Valid() && root in F.roots && phys < FRAMES * PAGE && IsFlags(flags)
      modifies this`mem, this`F, pmm`usedPages, pmm`freePages, pmm`lastFound, pmm`free, pmm.bitmap
      ensures Valid()
      ensures Grown(old(F), F, old(pmm.free), pmm.free)
      ensures st == Ok ==> Mappable(virt, phys) && RegionChanged(old(mem), mem, F.roots, root, Ix(virt), phys / PAGE)
      ensures st == Ok ==> forall ix :: IxOk(ix) && ix[..3] == Ix(virt)[..3] ==> Walk(old(mem), root, ix).None?
      ensures st == Ok ==> EntryAt(mem, root, Ix(virt), 2, MakeEntry(phys / PAGE, OrHuge(OrPresent(flags))))
      ensures st == Ok && User(flags) ==> UserLinks(mem, root, Ix(virt)[..2])
      ensures st == Error ==> SameWalks(old(mem), mem, F.roots)
      ensures st == Error && Mappable(virt, phys) ==> pmm.free == {} || RegionTaken(mem, root, Ix(virt))
    {
      hide WF, UpperLinked, Walk, Present, Huge, FrameOf, Grown, Ix, OrPresent, OrHuge, User, UserLinks, EntryAt,
           MakeEntry;
      if !Mappable(virt, phys) {
        GrownNothing(F, pmm.free);
        return Error;
      }
      var ix := Ix(virt);
      ghost var F0, mem0, free0 := F, mem, pmm.free;
      var pd := FindPd(root, ix, true, flags);
      GrownKeeps(F0, F, free0, pmm.free);
      if pd.None? {
        return Error;
      }
      SizedAt(mem, F, pd.value);
      if Present(mem[pd.value][ix[2]]) {
        return Error;
      }
      forall jx | IxOk(jx) && jx[..3] == ix[..3] ensures Walk(mem0, root, jx).None? {
        RegionAbsent(mem, root, ix, jx, pd.value);
        assert Walk(mem, root, jx) == Walk(mem0, root, jx);
      }
      var entry := MakeEntry(phys / PAGE, OrHuge(OrPresent(flags)));
      OrPresentFlags(flags);
      OrHugeFlags(OrPresent(flags));
      MakeEntryFields(phys / PAGE, OrHuge(OrPresent(flags)));
      HugeWriteWF(mem, F, pd.value, ix[2], entry);
      HugeChangesRegion(mem0, mem, F, pd.value, root, ix, entry);
      StoredEntry(mem, F, root, ix, 2, pd.value, entry);
      mem := Store(mem, pd.value, ix[2], entry);
      st := Ok;
    }

    /** paging_unmap: clears a last-level entry. Any frame owned through it leaves the forest. */
    method Unmap(root: nat, virt: nat) returns (st: Status)
      requires Sound() && root in F.roots
      modifies this`mem, this`F, pmm`usedPages, pmm`freePages, pmm`lastFound, pmm`free, pmm.bitmap
      ensures Sound() && pmm.free == old(pmm.free)
      ensures st == Ok <==> virt % PAGE == 0 && SmallPage(old(mem), root, Ix(virt))
      ensures st == Ok ==> PageChanged(old(mem), mem, F.roots, root, Ix(virt), None)
      ensures st == Ok ==> F == Disown(old(F), old(F).Norm(root, Ix(virt)))
      ensures st == Error ==> SameWalks(old(mem), mem, F.roots) && F == old(F)
    {
      hide WF, UpperLinked, Walk, Present, Huge, FrameOf, Grown, Ix;
      if virt % PAGE != 0 {
        return Error;
      }
      var ix := Ix(virt);
      ghost var mem0 := mem;
      var pt := FindPt(root, ix, false, 0);
      if pt.None? {
        return Error;
      }
      SizedAt(mem, F, pt.value);
      if !Present(mem[pt.value][ix[3]]) {
        return Error;
      }
      LeafUnmapped(mem, F, pt.value, root, ix);
      mem := Store(mem, pt.value, ix[3], 0);
      F := Disown(F, F.Norm(root, ix));
      st := Ok;
    }

    /** paging_get_phys: frame plus offset for a mapped page, 0 for an unmapped one. */
    method GetPhys(root: nat, virt: nat) returns (phys: nat)
      requires Sound() && root in F.roots
      ensures phys == match Walk(mem, root, Ix(virt))
                      case None => 0
                      case Some(f) => f * PAGE + virt % PAGE
    {
      hide WF, UpperLinked, Present, Huge, FrameOf, Descend;
      var ix := Ix(virt);
      RootPath(mem, F, root);
      NoHugeAbove(mem, F, root, ix[0]);
      DescendOne(mem, root, ix);
      SizedAt(mem, F, root);
      var entry := mem[root][ix[0]];
      if !Present(entry) {
        return 0;
      }
      LinkedChild(mem, F, root, ix[0]);
      NoHugeAbove(mem, F, FrameOf(entry), ix[1]);
      SizedAt(mem, F, FrameOf(entry));
      entry := mem[FrameOf(entry)][ix[1]];
      if !Present(entry) {
        return 0;
      }
      NormStep(F, root, ix);
      LinkedChild(mem, F, Descend(mem, root, ix[..1]).value, ix[1]);
      SizedAt(mem, F, FrameOf(entry));
      ghost var pd := FrameOf(entry);
      entry := mem[FrameOf(entry)][ix[2]];
      if !Present(entry) {
        return 0;
      }
      if Huge(entry) {
        HugeOffset(virt);
        return FrameOf(entry) * PAGE + virt % 0x20_0000;
      }
      LinkedChild(mem, F, pd, ix[2]);
      SizedAt(mem, F, FrameOf(entry));
      entry := mem[FrameOf(entry)][ix[3]];
      if !Present(entry) {
        return 0;
      }
      return FrameOf(entry) * PAGE + virt % PAGE;
    }

    /** paging_create_directory: an empty lower half and the kernel's upper half; no existing translation changes. */
    method CreateDirectory() returns (n: nat)
      requires Valid()
      modifies this`mem, this`F, pmm`usedPages, pmm`freePages, pmm`lastFound, pmm`free, pmm.bitmap
      ensures Valid() && SameWalks(old(mem), mem, old(F.roots))
      ensures n == 0 <==> old(pmm.free) == {}
      ensures n == 0 ==> F == old(F) && pmm.free == old(pmm.free)
      ensures n != 0 ==> F == WithRoot(old(F), n) && n in old(pmm.free) && pmm.free == old(pmm.free) - {n}
      ensures n != 0 ==> forall ix :: IxOk(ix) ==>
                Walk(mem, n, ix) == if ix[0] < KERNEL_START then None else Walk(mem, F.kernel, ix)
    {
      hide WF, UpperLinked, Walk, Present, Huge, FrameOf;
      ghost var mem0 := mem;
      n := AllocZeroed();
      if n != 0 {
        RootPath(mem, F, F.kernel);
        SizedAt(mem, F, F.kernel);
        var table: seq<nat> := mem[n][..KERNEL_START] + mem[kernelDir][KERNEL_START..];
        ghost var mem1, F1 := mem, F;
        NewRootWF(mem, F, n, table);
        OutsideWrite(mem, F, n, table);
        SameWalksTrans(mem0, mem, mem[n := table], F.roots);
        mem := mem[n := table];
        F := WithRoot(F, n);
        forall ix | IxOk(ix)
          ensures Walk(mem, n, ix) == if ix[0] < KERNEL_START then None else Walk(mem, F.kernel, ix)
        {
          NewRootWalk(mem, F, n, ix);
        }
      }
    }
  }

  lemma HugeOffset(virt: nat)
    ensures virt % 0x20_0000 == Ix(virt)[3] * PAGE + virt % PAGE
  {
    var p, q := virt / 0x1000, virt / 0x20_0000;
    assert q == p / 512 && p == q * 512 + p % 512;
    assert virt == q * 0x20_0000 + (p % 512 * 0x1000 + virt % 0x1000);
  }

  lemma NewRootWalk(mem: Mem, F: Forest, n: nat, ix: seq<nat>)
    requires WF(mem, F) && UpperLinked(mem, F.roots) && n in F.roots && IxOk(ix)
    requires forall i :: 0 <= i < KERNEL_START ==> Load(mem, n, i) == 0
    ensures Walk(mem, n, ix) == if ix[0] < KERNEL_START then None else Walk(mem, F.kernel, ix)
  {
    if ix[0] >= KERNEL_START {
      KernelHalfCoherent(mem, F, n, ix);
    } else {
      assert !Present(0);
      DescendOne(mem, n, ix);
    }
  }

  /**
   * The 512 pages of a 2 MiB region changed to consecutive frames, in every directory they show in; nothing else did.
   */
  ghost predicate RegionChanged(mem: Mem, mem': Mem, roots: set<nat>, root: nat, at: seq<nat>, frame: nat)
    requires IxOk(at)
  {
    forall r, ix :: r in roots && IxOk(ix) ==>
      Walk(mem', r, ix) == if ix[..3] == at[..3] && Affects(r, root, at) then Some(frame + ix[3]) else Walk(mem, r, ix)
  }

  /** The page is mapped by a last-level entry, not as part of a 2 MiB leaf. */
  ghost predicate SmallPage(mem: Mem, root: nat, ix: seq<nat>)
    requires IxOk(ix)
  {
    var pt := Descend(mem, root, ix[..3]);
    pt.Some? && Present(Load(mem, pt.value, ix[3]))
  }

  lemma HugeChangesRegion(mem0: Mem, mem: Mem, F: Forest, t: nat, root: nat, at: seq<nat>, e: nat)
    requires WF(mem, F) && UpperLinked(mem, F.roots) && root in F.roots && IxOk(at)
    requires t in F.path && F.path[t] == F.Norm(root, at[..2])
    requires SameWalks(mem0, mem, F.roots)
    requires Present(e) && Huge(e)
    ensures t in mem && |mem[t]| == ENTRIES
    ensures RegionChanged(mem0, Store(mem, t, at[2], e), F.roots, root, at, FrameOf(e))
  {
    hide Present, Huge, FrameOf, WF, UpperLinked, Walk;
    SizedAt(mem, F, t);
    var mem' := Store(mem, t, at[2], e);
    StoreAgrees(mem, F, t, at[2], e);
    forall r, ix | r in F.roots && IxOk(ix)
      ensures Walk(mem', r, ix) ==
              if ix[..3] == at[..3] && Affects(r, root, at) then Some(FrameOf(e) + ix[3]) else Walk(mem0, r, ix)
    {
      HugeWrite(mem, mem', F, t, at[2], r, ix);
      SameRegionIff(F, r, root, ix, at);
      assert Walk(mem, r, ix) == Walk(mem0, r, ix);
    }
  }

  lemma SameRegionIff(F: Forest, r: nat, root: nat, ix: seq<nat>, at: seq<nat>)
    requires IxOk(ix) && IxOk(at)
    ensures F.Norm(r, ix[..2]) == F.Norm(root, at[..2]) && ix[2] == at[2] <==>
              ix[..3] == at[..3] && Affects(r, root, at)
  {
    assert ix[..3] == ix[..2] + [ix[2]] && at[..3] == at[..2] + [at[2]];
    assert ix[..2][0] == ix[0] && at[..2][0] == at[0];
    assert ix[..3][..2] == ix[..2] && at[..3][..2] == at[..2];
    assert ix[..3][2] == ix[2] && at[..3][2] == at[2];
  }

  lemma LeafUnmapped(mem: Mem, F: Forest, t: nat, root: nat, at: seq<nat>)
    requires WF(mem, F) && UpperLinked(mem, F.roots) && root in F.roots && IxOk(at)
    requires t in F.path && F.path[t] == F.Norm(root, at[..3])
    ensures t in mem && |mem[t]| == ENTRIES
    ensures var mem', F' := Store(mem, t, at[3], 0), Disown(F, F.Norm(root, at));
            WF(mem', F') && UpperLinked(mem', F.roots) && PageChanged(mem, mem', F.roots, root, at, None)
  {
    assert !Present(0);
    hide WF, Present, Huge, FrameOf, Walk, UpperLinked, PageChanged;
    SizedAt(mem, F, t);
    var mem' := Store(mem, t, at[3], 0);
    StoreAgrees(mem, F, t, at[3], 0);
    StoreSized(mem, F, t, at[3], 0);
    LeafWriteWF(mem, mem', F, t, at[3]);
    LeafPathIs(F, t, root, at);
    LeafWriteChangesPage(mem, F, t, root, at, 0);
    KeepsUpper(mem, F, t, at[3], 0);
  }

  // ---------------------------------------------------------------- user access

  /** Every link followed along `idx` lets user mode through. */
  ghost predicate UserLinks(mem: Mem, root: nat, idx: seq<nat>) {
    if idx == [] then true
    else
      var n := |idx| - 1;
      var t := Descend(mem, root, idx[..n]);
      t.Some? && UserLinks(mem, root, idx[..n]) && User(Load(mem, t.value, idx[n]))
  }

  /** The entry at level `d` of the walk along `ix`. */
  ghost predicate EntryAt(mem: Mem, root: nat, ix: seq<nat>, d: nat, e: nat)
    requires IxOk(ix) && d < 4
  {
    var t := Descend(mem, root, ix[..d]);
    t.Some? && Load(mem, t.value, ix[d]) == e
  }

  lemma CreateAgrees(mem0: Mem, mem: Mem, F: Forest, t: nat, k: nat, n: nat, e: nat)
    requires mem == mem0[n := ZERO_TABLE] && n !in F.path && t in mem && k < |mem[t]|
    ensures AgreeBut(mem0, Store(mem, t, k, e), F, t, k) && Load(Store(mem, t, k, e), t, k) == e
  {}

  lemma AgreeSelf(mem: Mem, F: Forest, t: nat, k: nat)
    ensures AgreeBut(mem, mem, F, t, k)
  {}

  lemma GrownByOne(F: Forest, free: set<nat>, n: nat, p: Path)
    requires n in free && n !in F.path && 1 <= |p.idx| <= 3
    ensures Grown(F, WithPath(F, n, p), free, free - {n})
  {
    assert free - (free - {n}) == {n};
  }

  lemma UserLink(n: nat)
    ensures User(MakeEntry(n, LINK_USER))
  {
    var q := 1 + 2 * (n * 512);
    assert MakeEntry(n, LINK_USER) == 4 * q + 3;
    QuarterOf(q);
    Parity(1, n * 512);
  }

  lemma QuarterOf(q: nat)
    ensures (4 * q + 3) / 4 == q
  {}

  lemma OrUserIsUser(e: nat)
    ensures User(OrUser(e))
  {
    if !User(e) { assert (e + 4) / 4 == e / 4 + 1; }
  }

  /** A write to a table at the end of a walk, or deeper, leaves the links of the walk alone. */
  lemma {:induction false} UserLinksKept(mem: Mem, mem': Mem, F: Forest, root: nat, idx: seq<nat>, t: nat, k: nat)
    requires WF(mem, F) && root in F.roots && Digits(idx) && t in F.path && AgreeBut(mem, mem', F, t, k)
    requires |idx| <= |F.path[t].idx| <= 3
    requires UserLinks(mem, root, idx)
    ensures UserLinks(mem', root, idx)
  {
    hide WF, Present, Huge, FrameOf, User;
    if idx != [] {
      var n := |idx| - 1;
      UserLinksKept(mem, mem', F, root, idx[..n], t, k);
      DescendSkips(mem, mem', F, t, k, root, idx[..n]);
      DescendPath(mem, F, root, idx[..n]);
    }
  }

  lemma UserLinksOne(mem: Mem, root: nat, ix: seq<nat>)
    requires IxOk(ix)
    ensures User(Load(mem, root, ix[0])) ==> UserLinks(mem, root, ix[..1])
  {
    hide User;
    assert ix[..1][..0] == [];
    assert UserLinks(mem, root, ix[..1][..0]);
  }

  /** One more user link at the end of the walk. */
  lemma UserLinksNext(mem: Mem, mem': Mem, F: Forest, root: nat, ix: seq<nat>, d: nat, t: nat)
    requires WF(mem, F) && root in F.roots && IxOk(ix) && 1 <= d <= 2 && t in F.path && |F.path[t].idx| == d
    requires AgreeBut(mem, mem', F, t, ix[d]) && Descend(mem', root, ix[..d]) == Some(t)
    ensures UserLinks(mem, root, ix[..d]) && User(Load(mem', t, ix[d])) ==> UserLinks(mem', root, ix[..d + 1])
  {
    hide WF, User, AgreeBut, Descend;
    if UserLinks(mem, root, ix[..d]) {
      UserLinksKept(mem, mem', F, root, ix[..d], t, ix[d]);
      assert ix[..d + 1][..d] == ix[..d];
    }
  }

  lemma StoredEntry(mem: Mem, F: Forest, root: nat, ix: seq<nat>, d: nat, t: nat, e: nat)
    requires WF(mem, F) && root in F.roots && IxOk(ix) && 2 <= d <= 3 && t in F.path && |F.path[t].idx| == d && t in mem
    requires |mem[t]| == ENTRIES
    requires Descend(mem, root, ix[..d]) == Some(t)
    ensures EntryAt(Store(mem, t, ix[d], e), root, ix, d, e)
    ensures UserLinks(mem, root, ix[..d]) ==> UserLinks(Store(mem, t, ix[d], e), root, ix[..d])
  {
    hide WF, Present, Huge, FrameOf, User, UserLinks;
    StoreAgrees(mem, F, t, ix[d], e);
    var mem' := Store(mem, t, ix[d], e);
    DescendSkips(mem, mem', F, t, ix[d], root, ix[..d]);
    if UserLinks(mem, root, ix[..d]) { UserLinksKept(mem, mem', F, root, ix[..d], t, ix[d]); }
  }

  /** The page-directory entry of the region is in use: a 2 MiB leaf, or a table, be it empty. */
  ghost predicate RegionTaken(mem: Mem, root: nat, ix: seq<nat>)
    requires IxOk(ix)
  {
    var pd := Descend(mem, root, ix[..2]);
    pd.Some? && Present(Load(mem, pd.value, ix[2]))
  }

  lemma RegionAbsent(mem: Mem, root: nat, ix: seq<nat>, jx: seq<nat>, pd: nat)
    requires IxOk(ix) && IxOk(jx) && jx[..3] == ix[..3] && Descend(mem, root, ix[..2]) == Some(pd)
    requires !Present(Load(mem, pd, ix[2]))
    ensures Walk(mem, root, jx).None?
  {
    assert jx[..2] == jx[..3][..2] == ix[..2] && jx[2] == jx[..3][2] == ix[2];
  }

  /** The address checks of paging_map: both page aligned, the virtual one canonical. */
  predicate Mappable(virt: nat, phys: nat) { virt % PAGE == 0 && phys % PAGE == 0 && Canonical(virt) }

  lemma GrownNothing(F: Forest, free: set<nat>)
    ensures Grown(F, F, free, free)
  {
    assert free - free == {};
  }

  lemma GrownFresh(F: Forest, F': Forest, free: set<nat>, free': set<nat>, n: nat)
    requires Grown(F, F', free, free')
    ensures n !in F.path && n !in free ==> n !in F'.path && n !in free'
  {}

  lemma NoPdNoPt(mem: Mem, root: nat, ix: seq<nat>)
    requires IxOk(ix)
    ensures Descend(mem, root, ix[..2]).None? ==> Descend(mem, root, ix[..3]).None?
  {
    assert ix[..3][..2] == ix[..2];
  }

  lemma DescendThree(mem: Mem, F: Forest, root: nat, ix: seq<nat>, pd: nat)
    requires WF(mem, F) && UpperLinked(mem, F.roots) && root in F.roots && IxOk(ix)
    requires pd in F.path && F.path[pd] == F.Norm(root, ix[..2])
    ensures Descend(mem, root, ix[..2]) == Some(pd)
    ensures var e := Load(mem, pd, ix[2]);
            && Descend(mem, root, ix[..3]) == (if IsLink(e) then Some(FrameOf(e)) else None)
            && (Present(e) && Huge(e) ==> Walk(mem, root, ix).Some?)
  {
    hide WF, UpperLinked, Present, Huge, FrameOf;
    ReachesIff(mem, F, pd, root, ix[..2]);
    DescendOne(mem, root, ix);
  }

  /** Writing a present entry over an absent last-level one maps one page; the frame may be recorded as owned. */
  lemma LeafMapped(mem0: Mem, mem: Mem, F: Forest, t: nat, root: nat, at: seq<nat>, e: nat, own: bool)
    requires WF(mem, F) && UpperLinked(mem, F.roots) && root in F.roots && IxOk(at)
    requires t in F.path && F.path[t] == F.Norm(root, at[..3])
    requires SameWalks(mem0, mem, F.roots)
    requires !Present(Load(mem, t, at[3])) && Present(e) && (own ==> FrameOf(e) !in F.path)
    ensures t in mem && |mem[t]| == ENTRIES
    ensures var mem' := Store(mem, t, at[3], e);
            var F' := if own then WithPath(F, FrameOf(e), F.Norm(root, at)) else F;
            && WF(mem', F') && UpperLinked(mem', F'.roots)
            && PageChanged(mem0, mem', F.roots, root, at, Some(FrameOf(e)))
  {
    hide WF, Present, Huge, FrameOf, Walk, UpperLinked, PageChanged;
    SizedAt(mem, F, t);
    var mem' := Store(mem, t, at[3], e);
    StoreAgrees(mem, F, t, at[3], e);
    StoreSized(mem, F, t, at[3], e);
    AbsentUnowned(mem, F, t, at[3]);
    LeafWriteWF(mem, mem', F, t, at[3]);
    LeafPathIs(F, t, root, at);
    if own { OwnWF(mem', F, t, at[3], FrameOf(e)); }
    LeafWriteChangesPage(mem, F, t, root, at, e);
    ChangedAfterSame(mem0, mem, mem', F.roots, root, at, Some(FrameOf(e)));
    KeepsUpper(mem, F, t, at[3], e);
  }

  lemma ChangedAfterSame(a: Mem, b: Mem, c: Mem, roots: set<nat>, root: nat, at: seq<nat>, to: Option<nat>)
    requires SameWalks(a, b, roots) && IxOk(at) && PageChanged(b, c, roots, root, at, to)
    ensures PageChanged(a, c, roots, root, at, to)
  {
    hide Walk;
    forall r, ix | r in roots && IxOk(ix)
      ensures Walk(c, r, ix) == if ix == at && Affects(r, root, at) then to else Walk(a, r, ix)
    {
      assert Walk(b, r, ix) == Walk(a, r, ix);
    }
  }

  lemma RootPath(mem: Mem, F: Forest, root: nat)
    requires WF(mem, F) && (root in F.roots || root == F.kernel)
    ensures root in F.roots && root in F.path && F.path[root] == Path(root, [])
  {}

  lemma GrownKeeps(F: Forest, F': Forest, free: set<nat>, free': set<nat>)
    requires Grown(F, F', free, free')
    ensures F'.kernel == F.kernel && F'.roots == F.roots
    ensures forall f :: f in F.path ==> f in F'.path && F'.path[f] == F.path[f]
    ensures free == free' ==> F'.path.Keys == F.path.Keys
  {
    if free == free' { assert free - free' == {}; }
  }

  /** Above the page directory a present entry is a link. */
  lemma NoHugeAbove(mem: Mem, F: Forest, t: nat, k: nat)
    requires WF(mem, F) && t in F.path && |F.path[t].idx| <= 1 && k < ENTRIES
    ensures Present(Load(mem, t, k)) ==> !Huge(Load(mem, t, k))
  {
    assert EntryOk(mem, F, t, k);
  }

  lemma NormStep(F: Forest, root: nat, ix: seq<nat>)
    requires IxOk(ix)
    ensures F.Child(Path(root, []), ix[0]) == F.Norm(root, ix[..1])
    ensures F.Child(F.Norm(root, ix[..1]), ix[1]) == F.Norm(root, ix[..2])
    ensures F.Child(F.Norm(root, ix[..2]), ix[2]) == F.Norm(root, ix[..3])
  {
    assert [] + [ix[0]] == ix[..1] && ix[..1] + [ix[1]] == ix[..2] && ix[..2] + [ix[2]] == ix[..3];
  }

  lemma DescendOne(mem: Mem, root: nat, ix: seq<nat>)
    requires IxOk(ix)
    ensures Descend(mem, root, ix[..1]) == if IsLink(Load(mem, root, ix[0])) then Some(FrameOf(Load(mem, root, ix[0])))
                                           else None
    ensures Descend(mem, root, ix[..1]).None? ==> Descend(mem, root, ix[..2]).None?
    ensures Descend(mem, root, ix[..1]).Some? ==>
              var e := Load(mem, Descend(mem, root, ix[..1]).value, ix[1]);
              Descend(mem, root, ix[..2]) == if IsLink(e) then Some(FrameOf(e)) else None
    ensures Descend(mem, root, ix[..2]).Some? ==>
              var e := Load(mem, Descend(mem, root, ix[..2]).value, ix[2]);
              Descend(mem, root, ix[..3]) == if IsLink(e) then Some(FrameOf(e)) else None
  {
    hide Present, Huge, FrameOf;
    assert ix[..1][..0] == [] && ix[..2][..1] == ix[..1] && ix[..3][..2] == ix[..2];
  }

  lemma DescendTwo(mem: Mem, F: Forest, root: nat, ix: seq<nat>, pdp: nat)
    requires WF(mem, F) && UpperLinked(mem, F.roots) && root in F.roots && IxOk(ix)
    requires pdp in F.path && F.path[pdp] == F.Norm(root, ix[..1])
    ensures Descend(mem, root, ix[..1]) == Some(pdp)
    ensures var e := Load(mem, pdp, ix[1]);
            Descend(mem, root, ix[..2]) == if IsLink(e) then Some(FrameOf(e)) else None
  {
    hide WF, UpperLinked, Present, Huge, FrameOf;
    ReachesIff(mem, F, pdp, root, ix[..1]);
    DescendOne(mem, root, ix);
  }

  lemma LinkedChild(mem: Mem, F: Forest, t: nat, k: nat)
    requires WF(mem, F) && t in F.path && |F.path[t].idx| <= 2 && k < ENTRIES && IsLink(Load(mem, t, k))
    ensures FrameOf(Load(mem, t, k)) in F.path && F.path[FrameOf(Load(mem, t, k))] == F.Child(F.path[t], k)
  {
    assert EntryOk(mem, F, t, k);
  }

  /** Linking a freshly zeroed frame: the forest grows by one table and no walk changes. */
  lemma NewLink(n: nat, e: nat)
    requires n < FRAMES && (e == MakeEntry(n, LINK_USER) || e == MakeEntry(n, LINK_KERNEL))
    ensures IsLink(e) && FrameOf(e) == n
  {
    MakeEntryFields(n, if e == MakeEntry(n, LINK_USER) then LINK_USER else LINK_KERNEL);
  }

  lemma ZeroAbsent()
    ensures !Present(0)
  {}

  lemma LinkNewTable(mem0: Mem, mem: Mem, F: Forest, t: nat, k: nat, n: nat, e: nat)
    requires WF(mem, F) && UpperLinked(mem, F.roots) && t in F.path && |F.path[t].idx| <= 2 && k < ENTRIES
    requires mem == mem0[n := ZERO_TABLE] && n !in F.path && n < FRAMES
    requires !Present(Load(mem0, t, k))
    requires e == MakeEntry(n, LINK_USER) || e == MakeEntry(n, LINK_KERNEL)
    ensures t in mem && |mem[t]| == ENTRIES
    ensures var mem', F' := Store(mem, t, k, e), WithPath(F, n, F.Child(F.path[t], k));
            && WF(mem', F') && UpperLinked(mem', F'.roots) && SameWalks(mem, mem', F.roots)
            && IsLink(e) && FrameOf(e) == n && 1 <= |F'.path[n].idx| <= 3
  {
    hide Present, Huge, FrameOf, WF, Walk, UpperLinked, MakeEntry;
    NewLink(n, e);
    ZeroAbsent();
    SizedAt(mem, F, t);
    var mem' := Store(mem, t, k, e);
    StoreAgrees(mem, F, t, k, e);
    StoreSized(mem, F, t, k, e);
    assert LinksEmpty(mem, mem', F, t, k, n);
    RootsUpper(mem, F, t, k);
    LinkWF(mem, mem', F, t, k, n);
    forall r, ix | r in F.roots && IxOk(ix) ensures Walk(mem', r, ix) == Walk(mem, r, ix) {
      LinkWalk(mem, mem', F, t, k, n, r, ix);
    }
    LinkUpper(mem, mem', F, t, k, n);
  }

  /** One round of paging_init's first loop. */
  lemma StoredRow(mem: Mem, t: nat, k: nat, e: nat)
    requires t in mem && k < |mem[t]|
    ensures forall j: nat :: Load(Store(mem, t, k, e), t, j) == if j == k then e else Load(mem, t, j)
  {}

  lemma LinkKernelTable(mem0: Mem, mem: Mem, F: Forest, k: nat, n: nat, e: nat)
    requires WF(mem, F) && k < ENTRIES && F.kernel in F.roots && F.kernel in F.path
    requires F.path[F.kernel] == Path(F.kernel, [])
    requires mem == mem0[n := ZERO_TABLE] && n !in F.path && n < FRAMES
    requires !Present(Load(mem0, F.kernel, k)) && e == MakeEntry(n, LINK_KERNEL)
    ensures F.kernel in mem && |mem[F.kernel]| == ENTRIES
    ensures var mem', F' := Store(mem, F.kernel, k, e), WithPath(F, n, F.Child(F.path[F.kernel], k));
            WF(mem', F') && SameWalks(mem, mem', F.roots) && IsLink(e)
  {
    hide Present, Huge, FrameOf, WF, Walk, MakeEntry;
    NewLink(n, e);
    ZeroAbsent();
    SizedAt(mem, F, F.kernel);
    var mem' := Store(mem, F.kernel, k, e);
    StoreAgrees(mem, F, F.kernel, k, e);
    StoreSized(mem, F, F.kernel, k, e);
    LinkWF(mem, mem', F, F.kernel, k, n);
    forall r, ix | r in F.roots && IxOk(ix) ensures Walk(mem', r, ix) == Walk(mem, r, ix) {
      LinkWalk(mem, mem', F, F.kernel, k, n, r, ix);
    }
  }

  /** An absent entry of a directory is in its lower half. */
  lemma RootsUpper(mem: Mem, F: Forest, t: nat, k: nat)
    requires WF(mem, F) && UpperLinked(mem, F.roots) && t in F.path && k < ENTRIES && !Present(Load(mem, t, k))
    ensures !(F.path[t].idx == [] && k >= KERNEL_START)
  {
    hide Present, Huge, FrameOf;
    assert PathOk(F, t);
    assert F.path[t].idx == [] && k >= KERNEL_START ==> IsLink(Load(mem, t, k));
  }

  lemma LinkUpper(mem: Mem, mem': Mem, F: Forest, t: nat, k: nat, n: nat)
    requires WF(mem, F) && UpperLinked(mem, F.roots) && LinksEmpty(mem, mem', F, t, k, n)
    ensures UpperLinked(mem', WithPath(F, n, F.Child(F.path[t], k)).roots)
  {
    hide Present, Huge, FrameOf, EntryOk, Leads;
    forall r, i | r in F.roots && KERNEL_START <= i < ENTRIES ensures IsLink(Load(mem', r, i)) {
      assert IsLink(Load(mem, r, i));
    }
  }

  lemma FreeBelow(pmm: Pmm.Manager)
    requires pmm.Valid()
    ensures forall p :: p in pmm.free ==> p < pmm.maxPages
  {}
}
