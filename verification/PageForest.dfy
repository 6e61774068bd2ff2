/**
 * The page tables of all address spaces as one forest. A ghost map gives every table, and every frame an address
 * space owns, its path of indices from a root; since the walk reaches each table at its path, paths are unique,
 * and a write to one table can only touch walks that follow that table's path. Directories share the
 * tables below their upper halves: those tables have paths from the kernel root.
 */
module PageForest {
  import opened Common
  import opened PageTables

  type Mem = map<nat, seq<nat>>

  function Load(mem: Mem, f: nat, i: nat): nat {
    if f in mem && i < |mem[f]| then mem[f][i] else 0
  }

  function Store(mem: Mem, f: nat, i: nat, e: nat): Mem
    requires f in mem && i < |mem[f]|
  {
    var table: seq<nat> := mem[f][i := e];
    mem[f := table]
  }

  /** An entry that points to a table of the next level. */
  predicate IsLink(e: nat) { Present(e) && !Huge(e) }

  /** The table reached from `root` by following `idx`. */
  function Descend(mem: Mem, root: nat, idx: seq<nat>): Option<nat> {
    if idx == [] then Some(root)
    else
      var n := |idx| - 1;
      match Descend(mem, root, idx[..n])
      case None => None
      case Some(f) =>
        var e := Load(mem, f, idx[n]);
        if IsLink(e) then Some(FrameOf(e)) else None
  }

  /** What a page-directory entry, and below it the last-level entry, say about a page: its frame, if mapped. */
  function Leaf(mem: Mem, e: nat, i: nat): Option<nat> {
    if !Present(e) then None
    else if Huge(e) then Some(FrameOf(e) + i)
    else
      var l := Load(mem, FrameOf(e), i);
      if Present(l) then Some(FrameOf(l)) else None
  }

  /** The frame an address with indices `ix` translates to in the address space of `root`. */
  function Walk(mem: Mem, root: nat, ix: seq<nat>): Option<nat>
    requires |ix| == 4
  {
    match Descend(mem, root, ix[..2])
    case None => None
    case Some(pd) => Leaf(mem, Load(mem, pd, ix[2]), ix[3])
  }

  datatype Path = Path(root: nat, idx: seq<nat>)

  datatype Forest = Forest(kernel: nat, roots: set<nat>, path: map<nat, Path>) {
    /** Paths that start in the upper half belong to the kernel root. */
    function Norm(root: nat, idx: seq<nat>): Path {
      if idx != [] && idx[0] >= KERNEL_START then Path(kernel, idx) else Path(root, idx)
    }

    function Child(p: Path, i: nat): Path { Norm(p.root, p.idx + [i]) }
  }

  ghost predicate PathOk(F: Forest, f: nat)
    requires f in F.path
  {
    var p := F.path[f];
    && p.root in F.roots && |p.idx| <= 4
    && (forall d :: 0 <= d < |p.idx| ==> p.idx[d] < ENTRIES)
    && (p.idx == [] ==> p.root == f)
    && F.Norm(p.root, p.idx) == p
  }

  /**
   * A present entry above the last level is a 2 MiB leaf in a page directory, or links the table with the child path.
   */
  ghost predicate EntryOk(mem: Mem, F: Forest, f: nat, i: nat)
    requires f in F.path
  {
    var e := Load(mem, f, i);
    Present(e) ==>
      if Huge(e) then |F.path[f].idx| == 2
      else FrameOf(e) in F.path && F.path[FrameOf(e)] == F.Child(F.path[f], i)
  }

  /** Where a path leads: to a table by links, to an owned data frame by a last-level entry. */
  ghost predicate Leads(mem: Mem, p: Path, f: nat)
    requires |p.idx| <= 4
  {
    if |p.idx| <= 3 then Descend(mem, p.root, p.idx) == Some(f)
    else
      var pt := Descend(mem, p.root, p.idx[..3]);
      pt.Some? && var e := Load(mem, pt.value, p.idx[3]); Present(e) && FrameOf(e) == f
  }

  ghost predicate Rooted(F: Forest) {
    && F.kernel in F.roots
    && (forall r :: r in F.roots ==> r in F.path && F.path[r] == Path(r, []))
    && (forall f :: f in F.path ==> PathOk(F, f))
  }

  ghost predicate Sized(mem: Mem, F: Forest) {
    forall f :: f in F.path && |F.path[f].idx| <= 3 ==> f in mem && |mem[f]| == ENTRIES
  }

  ghost predicate EntriesOk(mem: Mem, F: Forest) {
    forall f, i :: f in F.path && |F.path[f].idx| <= 2 && 0 <= i < ENTRIES ==> EntryOk(mem, F, f, i)
  }

  ghost predicate AllReached(mem: Mem, F: Forest) {
    forall f :: f in F.path ==> |F.path[f].idx| <= 4 && Leads(mem, F.path[f], f)
  }

  ghost predicate WF(mem: Mem, F: Forest) {
    Rooted(F) && Sized(mem, F) && EntriesOk(mem, F) && AllReached(mem, F)
  }

  /** Every directory links a table at every upper-half index. */
  ghost predicate UpperLinked(mem: Mem, roots: set<nat>) {
    forall r, i :: r in roots && KERNEL_START <= i < ENTRIES ==> IsLink(Load(mem, r, i))
  }

  predicate Digits(idx: seq<nat>) { forall d :: 0 <= d < |idx| ==> idx[d] < ENTRIES }

  /** Descending lands on the table with the matching path. */
  lemma {:induction false} DescendPath(mem: Mem, F: Forest, root: nat, idx: seq<nat>)
    requires WF(mem, F) && root in F.roots && |idx| <= 3 && Digits(idx)
    ensures Descend(mem, root, idx).Some? ==>
              Descend(mem, root, idx).value in F.path && F.path[Descend(mem, root, idx).value] == F.Norm(root, idx)
  {
    hide Present, Huge, FrameOf, AllReached, Sized;
    if idx != [] {
      var n := |idx| - 1;
      DescendPath(mem, F, root, idx[..n]);
      if Descend(mem, root, idx).Some? {
        var f := Descend(mem, root, idx[..n]).value;
        assert EntryOk(mem, F, f, idx[n]);
        assert idx[..n] + [idx[n]] == idx;
      }
    }
  }

  /** Two frames with the same table path are the same frame. */
  lemma PathInjective(mem: Mem, F: Forest, f: nat, g: nat)
    requires WF(mem, F) && f in F.path && g in F.path && F.path[f] == F.path[g]
    ensures f == g
  {
    assert Leads(mem, F.path[f], f) && Leads(mem, F.path[g], g);
  }

  /** Kernel-half coherence: every directory reaches the same tables through an upper-half index. */
  lemma {:induction false} UpperShared(mem: Mem, F: Forest, r: nat, idx: seq<nat>)
    requires WF(mem, F) && UpperLinked(mem, F.roots) && r in F.roots
    requires 1 <= |idx| <= 3 && Digits(idx) && idx[0] >= KERNEL_START
    ensures Descend(mem, r, idx) == Descend(mem, F.kernel, idx)
  {
    hide Present, Huge, FrameOf;
    var n := |idx| - 1;
    if n == 0 {
      assert idx[..0] == [] && IsLink(Load(mem, r, idx[0])) && IsLink(Load(mem, F.kernel, idx[0]));
      DescendPath(mem, F, r, idx);
      DescendPath(mem, F, F.kernel, idx);
      PathInjective(mem, F, Descend(mem, r, idx).value, Descend(mem, F.kernel, idx).value);
    } else {
      UpperShared(mem, F, r, idx[..n]);
    }
  }

  /** Every upper-half address translates identically in all directories. */
  lemma KernelHalfCoherent(mem: Mem, F: Forest, r: nat, ix: seq<nat>)
    requires WF(mem, F) && UpperLinked(mem, F.roots) && r in F.roots
    requires IxOk(ix) && ix[0] >= KERNEL_START
    ensures Walk(mem, r, ix) == Walk(mem, F.kernel, ix)
  {
    UpperShared(mem, F, r, ix[..2]);
  }
}
