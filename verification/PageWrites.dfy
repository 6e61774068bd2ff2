/** What a single table-entry write does to the forest and to every walk of every directory. */
module PageWrites {
  import opened Common
  import opened PageTables
  import opened PageForest

  /** Memories that agree on every table of the forest except possibly at one entry of table `t`. */
  ghost predicate AgreeBut(mem: Mem, mem': Mem, F: Forest, t: nat, k: nat) {
    forall f, i :: f in F.path && |F.path[f].idx| <= 3 && !(f == t && i == k) ==> Load(mem', f, i) == Load(mem, f, i)
  }

  ghost predicate SameWalks(mem: Mem, mem': Mem, roots: set<nat>) {
    forall r, ix :: r in roots && IxOk(ix) ==> Walk(mem', r, ix) == Walk(mem, r, ix)
  }

  lemma SameWalksRefl(mem: Mem, roots: set<nat>)
    ensures SameWalks(mem, mem, roots)
  {}

  lemma SameWalksTrans(a: Mem, b: Mem, c: Mem, roots: set<nat>)
    requires SameWalks(a, b, roots) && SameWalks(b, c, roots)
    ensures SameWalks(a, c, roots)
  {
    forall r, ix | r in roots && IxOk(ix) ensures Walk(c, r, ix) == Walk(a, r, ix) {
      assert Walk(b, r, ix) == Walk(a, r, ix);
    }
  }

  lemma StoreAgrees(mem: Mem, F: Forest, t: nat, k: nat, e: nat)
    requires t in mem && k < |mem[t]|
    ensures AgreeBut(mem, Store(mem, t, k, e), F, t, k)
    ensures Load(Store(mem, t, k, e), t, k) == e
  {}

  // ---------------------------------------------------------------- writes below the tables a descent reads

  /** A descent of at most the depth of `t` never reads `t`. */
  lemma {:induction false} DescendSkips(mem: Mem, mem': Mem, F: Forest, t: nat, k: nat, root: nat, idx: seq<nat>)
    requires WF(mem, F) && t in F.path && AgreeBut(mem, mem', F, t, k)
    requires root in F.roots && Digits(idx) && |idx| <= |F.path[t].idx| <= 3
    ensures Descend(mem', root, idx) == Descend(mem, root, idx)
  {
    hide Present, Huge, FrameOf, WF;
    if idx != [] {
      var n := |idx| - 1;
      DescendSkips(mem, mem', F, t, k, root, idx[..n]);
      DescendPath(mem, F, root, idx[..n]);
    }
  }

  /** The walk reaches table `t` exactly when its indices spell the path of `t`. */
  lemma ReachesIff(mem: Mem, F: Forest, t: nat, r: nat, idx: seq<nat>)
    requires WF(mem, F) && UpperLinked(mem, F.roots) && t in F.path && r in F.roots
    requires 1 <= |idx| <= 3 && |idx| == |F.path[t].idx| && Digits(idx)
    ensures Descend(mem, r, idx) == Some(t) <==> F.Norm(r, idx) == F.path[t]
  {
    DescendPath(mem, F, r, idx);
    if F.Norm(r, idx) == F.path[t] {
      assert Leads(mem, F.path[t], t);
      if idx[0] >= KERNEL_START { UpperShared(mem, F, r, idx); }
    }
  }

  lemma WalkViaTable(mem: Mem, F: Forest, r: nat, ix: seq<nat>)
    requires WF(mem, F) && r in F.roots && IxOk(ix)
    ensures Descend(mem, r, ix[..3]).Some? ==>
              var l := Load(mem, Descend(mem, r, ix[..3]).value, ix[3]);
              Walk(mem, r, ix) == if Present(l) then Some(FrameOf(l)) else None
  {
    assert ix[..3][..2] == ix[..2];
  }

  /** A last-level entry write changes the translation of one page, in the directories that share the table. */
  lemma LeafWrite(mem: Mem, mem': Mem, F: Forest, t: nat, k: nat, r: nat, ix: seq<nat>)
    requires WF(mem, F) && UpperLinked(mem, F.roots) && t in F.path && |F.path[t].idx| == 3
    requires AgreeBut(mem, mem', F, t, k)
    requires r in F.roots && IxOk(ix)
    ensures Walk(mem', r, ix) ==
            if F.Norm(r, ix[..3]) == F.path[t] && ix[3] == k
            then (if Present(Load(mem', t, k)) then Some(FrameOf(Load(mem', t, k))) else None)
            else Walk(mem, r, ix)
  {
    hide Present, Huge, FrameOf, WF, UpperLinked;
    DescendSkips(mem, mem', F, t, k, r, ix[..2]);
    DescendSkips(mem, mem', F, t, k, r, ix[..3]);
    DescendPath(mem, F, r, ix[..2]);
    DescendPath(mem, F, r, ix[..3]);
    ReachesIff(mem, F, t, r, ix[..3]);
    assert ix[..3][..2] == ix[..2];
  }

  /** A page-directory entry write that installs a 2 MiB leaf changes the 512 pages below it. */
  lemma HugeWrite(mem: Mem, mem': Mem, F: Forest, t: nat, k: nat, r: nat, ix: seq<nat>)
    requires WF(mem, F) && UpperLinked(mem, F.roots) && t in F.path && |F.path[t].idx| == 2
    requires AgreeBut(mem, mem', F, t, k)
    requires Present(Load(mem', t, k)) && Huge(Load(mem', t, k))
    requires r in F.roots && IxOk(ix)
    ensures Walk(mem', r, ix) ==
            if F.Norm(r, ix[..2]) == F.path[t] && ix[2] == k then Some(FrameOf(Load(mem', t, k)) + ix[3])
            else Walk(mem, r, ix)
  {
    hide Present, Huge, FrameOf, WF, UpperLinked;
    DescendSkips(mem, mem', F, t, k, r, ix[..2]);
    DescendPath(mem, F, r, ix[..2]);
    DescendPath(mem, F, r, ix[..3]);
    ReachesIff(mem, F, t, r, ix[..2]);
    assert ix[..3][..2] == ix[..2];
  }

  // ---------------------------------------------------------------- linking an empty table

  /** `mem'` is `mem` with the empty table `n` linked at entry `k` of `t`, which was not present. */
  ghost predicate LinksEmpty(mem: Mem, mem': Mem, F: Forest, t: nat, k: nat, n: nat) {
    && t in F.path && |F.path[t].idx| <= 2 && k < ENTRIES && n !in F.path
    && AgreeBut(mem, mem', F, t, k)
    && !Present(Load(mem, t, k))
    && IsLink(Load(mem', t, k)) && FrameOf(Load(mem', t, k)) == n
    && forall i :: 0 <= i < ENTRIES ==> !Present(Load(mem', n, i))
  }

  lemma {:induction false} LinkDescend(mem: Mem, mem': Mem, F: Forest, t: nat, k: nat, n: nat, r: nat, idx: seq<nat>)
    requires WF(mem, F) && LinksEmpty(mem, mem', F, t, k, n)
    requires r in F.roots && |idx| <= 3 && Digits(idx)
    ensures Descend(mem, r, idx).Some? ==> Descend(mem', r, idx) == Descend(mem, r, idx)
    ensures Descend(mem, r, idx).None? ==> Descend(mem', r, idx).None? || Descend(mem', r, idx) == Some(n)
  {
    hide Present, Huge, FrameOf, WF;
    if idx != [] {
      var d := |idx| - 1;
      LinkDescend(mem, mem', F, t, k, n, r, idx[..d]);
      DescendPath(mem, F, r, idx[..d]);
    }
  }

  lemma LinkWalk(mem: Mem, mem': Mem, F: Forest, t: nat, k: nat, n: nat, r: nat, ix: seq<nat>)
    requires WF(mem, F) && LinksEmpty(mem, mem', F, t, k, n)
    requires r in F.roots && IxOk(ix)
    ensures Walk(mem', r, ix) == Walk(mem, r, ix)
  {
    hide Present, Huge, FrameOf, WF;
    LinkDescend(mem, mem', F, t, k, n, r, ix[..2]);
    DescendPath(mem, F, r, ix[..2]);
    DescendPath(mem, F, r, ix[..3]);
    assert ix[..3][..2] == ix[..2];
  }

  /** A path still leads to its frame when descents persist and the last-level entry stays. */
  lemma LeadsKept(mem: Mem, mem': Mem, p: Path, f: nat)
    requires |p.idx| <= 4 && Digits(p.idx) && Leads(mem, p, f)
    requires forall idx :: |idx| <= 3 && Digits(idx) && Descend(mem, p.root, idx).Some? ==>
               Descend(mem', p.root, idx) == Descend(mem, p.root, idx)
    requires |p.idx| == 4 && Descend(mem, p.root, p.idx[..3]).Some? ==>
               var pt := Descend(mem, p.root, p.idx[..3]).value;
               Load(mem', pt, p.idx[3]) == Load(mem, pt, p.idx[3])
    ensures Leads(mem', p, f)
  {
    hide Present, Huge, FrameOf, Descend;
    assert |p.idx| == 4 ==> Digits(p.idx[..3]);
  }

  ghost function WithPath(F: Forest, n: nat, p: Path): Forest { F.(path := F.path[n := p]) }

  lemma LinkLeads(mem: Mem, mem': Mem, F: Forest, t: nat, k: nat, n: nat, f: nat)
    requires WF(mem, F) && LinksEmpty(mem, mem', F, t, k, n) && f in F.path
    ensures Leads(mem', F.path[f], f)
  {
    hide Present, Huge, FrameOf, Descend;
    assert PathOk(F, f);
    var p := F.path[f];
    forall idx | |idx| <= 3 && Digits(idx) && Descend(mem, p.root, idx).Some?
      ensures Descend(mem', p.root, idx) == Descend(mem, p.root, idx)
    {
      LinkDescend(mem, mem', F, t, k, n, p.root, idx);
    }
    if |p.idx| == 4 { DescendPath(mem, F, p.root, p.idx[..3]); }
    LeadsKept(mem, mem', p, f);
  }

  lemma NewLeads(mem: Mem, mem': Mem, F: Forest, t: nat, k: nat, n: nat)
    requires WF(mem, F) && LinksEmpty(mem, mem', F, t, k, n)
    requires F.path[t].idx == [] && k >= KERNEL_START ==> t == F.kernel
    ensures Leads(mem', F.Child(F.path[t], k), n)
  {
    hide Present, Huge, FrameOf;
    LinkLeads(mem, mem', F, t, k, n, t);
    var p, q := F.path[t], F.Child(F.path[t], k);
    assert PathOk(F, t);
    assert q == Path(p.root, p.idx + [k]);
    assert q.idx[..|p.idx|] == p.idx;
  }

  /** Linking an empty table keeps the forest well formed, with the table at the child path. */
  lemma LinkWF(mem: Mem, mem': Mem, F: Forest, t: nat, k: nat, n: nat)
    requires WF(mem, F) && LinksEmpty(mem, mem', F, t, k, n)
    requires F.path[t].idx == [] && k >= KERNEL_START ==> t == F.kernel
    requires n in mem' && |mem'[n]| == ENTRIES
    requires Sized(mem', F)
    ensures WF(mem', WithPath(F, n, F.Child(F.path[t], k)))
  {
    hide EntriesOk, AllReached, Rooted, AgreeBut, Present, Huge, FrameOf, Load;
    LinkReached(mem, mem', F, t, k, n);
    LinkEntries(mem, mem', F, t, k, n);
    LinkRooted(mem, mem', F, t, k, n);
  }

  lemma LinkReached(mem: Mem, mem': Mem, F: Forest, t: nat, k: nat, n: nat)
    requires WF(mem, F) && LinksEmpty(mem, mem', F, t, k, n)
    requires F.path[t].idx == [] && k >= KERNEL_START ==> t == F.kernel
    ensures AllReached(mem', WithPath(F, n, F.Child(F.path[t], k)))
  {
    hide Present, Huge, FrameOf, Descend, Leads, EntriesOk;
    var F' := WithPath(F, n, F.Child(F.path[t], k));
    assert PathOk(F, t);
    forall f | f in F'.path ensures |F'.path[f].idx| <= 4 && Leads(mem', F'.path[f], f) {
      if f == n {
        NewLeads(mem, mem', F, t, k, n);
      } else {
        LinkLeads(mem, mem', F, t, k, n, f);
      }
    }
  }

  lemma LinkEntries(mem: Mem, mem': Mem, F: Forest, t: nat, k: nat, n: nat)
    requires WF(mem, F) && LinksEmpty(mem, mem', F, t, k, n)
    ensures EntriesOk(mem', WithPath(F, n, F.Child(F.path[t], k)))
  {
    hide Present, Huge, FrameOf, Rooted, AllReached, Sized;
    var F' := WithPath(F, n, F.Child(F.path[t], k));
    forall f, i | f in F'.path && |F'.path[f].idx| <= 2 && 0 <= i < ENTRIES ensures EntryOk(mem', F', f, i) {
      if f != n { assert EntryOk(mem, F, f, i); }
    }
  }

  lemma LinkRooted(mem: Mem, mem': Mem, F: Forest, t: nat, k: nat, n: nat)
    requires WF(mem, F) && LinksEmpty(mem, mem', F, t, k, n)
    ensures Rooted(WithPath(F, n, F.Child(F.path[t], k)))
  {
    assert PathOk(F, t);
    hide EntriesOk, AllReached, Sized;
    RootedMore(F, n, F.Child(F.path[t], k));
  }

  /** A new frame at a proper path keeps the directories' paths and all others. */
  lemma RootedMore(F: Forest, n: nat, p: Path)
    requires Rooted(F) && n !in F.path && PathOk(F.(path := F.path[n := p]), n)
    ensures Rooted(WithPath(F, n, p))
  {
    var G := WithPath(F, n, p);
    forall f | f in G.path ensures PathOk(G, f) {
      if f != n { assert PathOk(F, f); }
    }
  }

  // ---------------------------------------------------------------- writes that leave every descent alone

  /** Every descent from a root is the same in both memories. */
  ghost predicate SameDescents(mem: Mem, mem': Mem, F: Forest) {
    forall r, idx :: r in F.roots && |idx| <= 3 && Digits(idx) ==> Descend(mem', r, idx) == Descend(mem, r, idx)
  }

  lemma {:induction false} NonLinkDescend(mem: Mem, mem': Mem, F: Forest, t: nat, k: nat, r: nat, idx: seq<nat>)
    requires WF(mem, F) && t in F.path && AgreeBut(mem, mem', F, t, k)
    requires !IsLink(Load(mem, t, k)) && !IsLink(Load(mem', t, k))
    requires r in F.roots && |idx| <= 3 && Digits(idx)
    ensures Descend(mem', r, idx) == Descend(mem, r, idx)
  {
    hide Present, Huge, FrameOf, WF;
    if idx != [] {
      var d := |idx| - 1;
      NonLinkDescend(mem, mem', F, t, k, r, idx[..d]);
      DescendPath(mem, F, r, idx[..d]);
    }
  }

  predicate SameShape(e: nat, e': nat) {
    Present(e) == Present(e') && Huge(e) == Huge(e') && FrameOf(e) == FrameOf(e')
  }

  lemma {:induction false} SameShapeDescend(mem: Mem, mem': Mem, F: Forest, t: nat, k: nat, r: nat, idx: seq<nat>)
    requires WF(mem, F) && t in F.path && AgreeBut(mem, mem', F, t, k)
    requires SameShape(Load(mem, t, k), Load(mem', t, k))
    requires r in F.roots && |idx| <= 3 && Digits(idx)
    ensures Descend(mem', r, idx) == Descend(mem, r, idx)
  {
    hide Present, Huge, FrameOf, WF;
    if idx != [] {
      var d := |idx| - 1;
      SameShapeDescend(mem, mem', F, t, k, r, idx[..d]);
      DescendPath(mem, F, r, idx[..d]);
    }
  }

  lemma SameShapeWalk(mem: Mem, mem': Mem, F: Forest, t: nat, k: nat, r: nat, ix: seq<nat>)
    requires WF(mem, F) && t in F.path && |F.path[t].idx| <= 2 && AgreeBut(mem, mem', F, t, k)
    requires SameShape(Load(mem, t, k), Load(mem', t, k))
    requires r in F.roots && IxOk(ix)
    ensures Walk(mem', r, ix) == Walk(mem, r, ix)
  {
    hide Present, Huge, FrameOf, WF;
    SameShapeDescend(mem, mem', F, t, k, r, ix[..2]);
    DescendPath(mem, F, r, ix[..2]);
    DescendPath(mem, F, r, ix[..3]);
    assert ix[..3][..2] == ix[..2];
  }

  /**
   * Table entries above the last level keep the forest well formed when their shape, or their being no link, is kept.
   */
  lemma SameDescentsLeads(mem: Mem, mem': Mem, F: Forest, t: nat, k: nat, f: nat)
    requires WF(mem, F) && SameDescents(mem, mem', F) && AgreeBut(mem, mem', F, t, k)
    requires t in F.path && |F.path[t].idx| <= 2 && f in F.path
    ensures Leads(mem', F.path[f], f)
  {
    hide Present, Huge, FrameOf, Descend;
    assert PathOk(F, f);
    var p := F.path[f];
    if |p.idx| == 4 { DescendPath(mem, F, p.root, p.idx[..3]); }
    LeadsKept(mem, mem', p, f);
  }

  lemma UpperWriteWF(mem: Mem, mem': Mem, F: Forest, t: nat, k: nat)
    requires WF(mem, F) && SameDescents(mem, mem', F) && AgreeBut(mem, mem', F, t, k) && Sized(mem', F)
    requires t in F.path && |F.path[t].idx| <= 2 && k < ENTRIES
    requires EntryOk(mem', F, t, k)
    ensures WF(mem', F)
  {
    hide Present, Huge, FrameOf, Descend, Leads;
    forall f | f in F.path ensures Leads(mem', F.path[f], f) { SameDescentsLeads(mem, mem', F, t, k, f); }
    forall f, i | f in F.path && |F.path[f].idx| <= 2 && 0 <= i < ENTRIES ensures EntryOk(mem', F, f, i) {
      assert EntryOk(mem, F, f, i);
    }
  }

  /** Setting the user bit of a link changes nothing else. */
  lemma UserBitWrite(mem: Mem, F: Forest, t: nat, k: nat)
    requires WF(mem, F) && t in F.path && |F.path[t].idx| <= 2 && k < ENTRIES
    ensures t in mem && |mem[t]| == ENTRIES
    ensures var mem' := Store(mem, t, k, OrUser(Load(mem, t, k)));
            WF(mem', F) && SameWalks(mem, mem', F.roots) && (UpperLinked(mem, F.roots) ==> UpperLinked(mem', F.roots))
  {
    OrUserFields(Load(mem, t, k));
    hide Present, Huge, FrameOf, Descend, Leads, OrUser, WF, EntryOk;
    SizedAt(mem, F, t);
    var mem' := Store(mem, t, k, OrUser(Load(mem, t, k)));
    StoreAgrees(mem, F, t, k, OrUser(Load(mem, t, k)));
    StoreSized(mem, F, t, k, OrUser(Load(mem, t, k)));
    forall r, idx | r in F.roots && |idx| <= 3 && Digits(idx) ensures Descend(mem', r, idx) == Descend(mem, r, idx) {
      SameShapeDescend(mem, mem', F, t, k, r, idx);
    }
    SameShapeEntry(mem, mem', F, t, k);
    UpperWriteWF(mem, mem', F, t, k);
    forall r, ix | r in F.roots && IxOk(ix) ensures Walk(mem', r, ix) == Walk(mem, r, ix) {
      SameShapeWalk(mem, mem', F, t, k, r, ix);
    }
    if UpperLinked(mem, F.roots) {
      forall r, i | r in F.roots && KERNEL_START <= i < ENTRIES ensures IsLink(Load(mem', r, i)) {
        assert IsLink(Load(mem, r, i));
        assert Load(mem', r, i) == Load(mem, r, i) || (r == t && i == k);
      }
    }
  }

  lemma SameShapeEntry(mem: Mem, mem': Mem, F: Forest, t: nat, k: nat)
    requires WF(mem, F) && t in F.path && |F.path[t].idx| <= 2 && k < ENTRIES
    requires SameShape(Load(mem, t, k), Load(mem', t, k))
    ensures EntryOk(mem', F, t, k)
  {
    hide Present, Huge, FrameOf, Leads;
    assert EntryOk(mem, F, t, k);
  }

  lemma SizedAt(mem: Mem, F: Forest, t: nat)
    requires WF(mem, F) && t in F.path && |F.path[t].idx| <= 3
    ensures t in mem && |mem[t]| == ENTRIES
  {}

  lemma StoreSized(mem: Mem, F: Forest, t: nat, k: nat, e: nat)
    requires WF(mem, F) && t in mem && k < |mem[t]|
    ensures Sized(Store(mem, t, k, e), F)
  {}

  /** Installing a 2 MiB leaf where nothing was present keeps the forest well formed. */
  lemma HugeWriteWF(mem: Mem, F: Forest, t: nat, k: nat, e: nat)
    requires WF(mem, F) && t in F.path && |F.path[t].idx| == 2 && k < ENTRIES
    requires !Present(Load(mem, t, k)) && Present(e) && Huge(e)
    ensures t in mem && |mem[t]| == ENTRIES
    ensures WF(Store(mem, t, k, e), F) && (UpperLinked(mem, F.roots) ==> UpperLinked(Store(mem, t, k, e), F.roots))
  {
    hide Present, Huge, FrameOf, Descend, Leads, WF;
    SizedAt(mem, F, t);
    var mem' := Store(mem, t, k, e);
    StoreAgrees(mem, F, t, k, e);
    StoreSized(mem, F, t, k, e);
    forall r, idx | r in F.roots && |idx| <= 3 && Digits(idx) ensures Descend(mem', r, idx) == Descend(mem, r, idx) {
      NonLinkDescend(mem, mem', F, t, k, r, idx);
    }
    UpperWriteWF(mem, mem', F, t, k);
    if UpperLinked(mem, F.roots) { KeepsUpper(mem, F, t, k, e); }
  }

  /** A write to a table below the directories leaves their upper halves linked. */
  lemma KeepsUpper(mem: Mem, F: Forest, t: nat, k: nat, e: nat)
    requires WF(mem, F) && UpperLinked(mem, F.roots)
    requires t in F.path && |F.path[t].idx| >= 1 && t in mem && k < |mem[t]|
    ensures UpperLinked(Store(mem, t, k, e), F.roots)
  {
    hide Present, Huge, FrameOf, EntryOk, Leads;
    var mem' := Store(mem, t, k, e);
    forall r, i | r in F.roots && KERNEL_START <= i < ENTRIES ensures IsLink(Load(mem', r, i)) {
      assert IsLink(Load(mem, r, i));
    }
  }

  // ---------------------------------------------------------------- last-level entries and owned frames

  function LeafPath(F: Forest, t: nat, k: nat): Path
    requires t in F.path
  {
    Path(F.path[t].root, F.path[t].idx + [k])
  }

  /** The forest without the frame owned at path `p`, if there is one. */
  ghost function Disown(F: Forest, p: Path): Forest {
    F.(path := map f | f in F.path && F.path[f] != p :: F.path[f])
  }

  lemma LeafLeads(mem: Mem, mem': Mem, F: Forest, t: nat, k: nat, f: nat)
    requires WF(mem, F) && AgreeBut(mem, mem', F, t, k)
    requires t in F.path && |F.path[t].idx| == 3 && f in F.path && F.path[f] != LeafPath(F, t, k)
    ensures Leads(mem', F.path[f], f)
  {
    hide Present, Huge, FrameOf, Descend;
    assert PathOk(F, f) && PathOk(F, t);
    var p := F.path[f];
    forall idx | |idx| <= 3 && Digits(idx) ensures Descend(mem', p.root, idx) == Descend(mem, p.root, idx) {
      DescendSkips(mem, mem', F, t, k, p.root, idx);
    }
    if |p.idx| == 4 {
      DescendPath(mem, F, p.root, p.idx[..3]);
      NormOfPrefix(F, p);
      assert p.idx == p.idx[..3] + [p.idx[3]];
    }
    LeadsKept(mem, mem', p, f);
  }

  lemma NormOfPrefix(F: Forest, p: Path)
    requires F.Norm(p.root, p.idx) == p && |p.idx| == 4
    ensures F.Norm(p.root, p.idx[..3]) == Path(p.root, p.idx[..3])
  {}

  /** Any write to a last-level entry keeps the forest well formed once the frame it mapped is disowned. */
  lemma LeafWriteWF(mem: Mem, mem': Mem, F: Forest, t: nat, k: nat)
    requires WF(mem, F) && AgreeBut(mem, mem', F, t, k) && Sized(mem', F)
    requires t in F.path && |F.path[t].idx| == 3
    ensures WF(mem', Disown(F, LeafPath(F, t, k)))
  {
    hide Present, Huge, FrameOf, Descend, Leads;
    var G := Disown(F, LeafPath(F, t, k));
    forall f | f in G.path ensures PathOk(G, f) && Leads(mem', G.path[f], f) {
      assert PathOk(F, f);
      LeafLeads(mem, mem', F, t, k, f);
    }
    forall f, i | f in G.path && |G.path[f].idx| <= 2 && 0 <= i < ENTRIES ensures EntryOk(mem', G, f, i) {
      LeafEntryOk(mem, mem', F, t, k, f, i);
    }
    assert forall f :: f in F.path && |F.path[f].idx| <= 3 ==> F.path[f] != LeafPath(F, t, k);
  }

  lemma LeafEntryOk(mem: Mem, mem': Mem, F: Forest, t: nat, k: nat, f: nat, i: nat)
    requires WF(mem, F) && AgreeBut(mem, mem', F, t, k)
    requires t in F.path && |F.path[t].idx| == 3 && i < ENTRIES
    requires f in F.path && |F.path[f].idx| <= 2 && f in Disown(F, LeafPath(F, t, k)).path
    ensures EntryOk(mem', Disown(F, LeafPath(F, t, k)), f, i)
  {
    hide Present, Huge, FrameOf, Descend, Leads;
    assert EntryOk(mem, F, f, i);
    assert |F.Child(F.path[f], i).idx| <= 3;
  }

  /** A frame mapped by a last-level entry may be recorded as owned there. */
  lemma OwnWF(mem: Mem, F: Forest, t: nat, k: nat, n: nat)
    requires WF(mem, F) && t in F.path && |F.path[t].idx| == 3 && k < ENTRIES && n !in F.path
    requires Present(Load(mem, t, k)) && FrameOf(Load(mem, t, k)) == n
    ensures WF(mem, WithPath(F, n, LeafPath(F, t, k)))
  {
    OwnRooted(mem, F, t, k, n);
    OwnReached(mem, F, t, k, n);
    OwnEntries(mem, F, t, k, n);
    hide EntriesOk, AllReached, Rooted, Present, FrameOf;
  }

  lemma OwnRooted(mem: Mem, F: Forest, t: nat, k: nat, n: nat)
    requires WF(mem, F) && t in F.path && |F.path[t].idx| == 3 && k < ENTRIES && n !in F.path
    ensures Rooted(WithPath(F, n, LeafPath(F, t, k))) && |LeafPath(F, t, k).idx| == 4
  {
    assert PathOk(F, t);
    hide EntriesOk, AllReached, Sized;
    RootedMore(F, n, LeafPath(F, t, k));
  }

  lemma OwnReached(mem: Mem, F: Forest, t: nat, k: nat, n: nat)
    requires WF(mem, F) && t in F.path && |F.path[t].idx| == 3 && k < ENTRIES && n !in F.path
    requires Present(Load(mem, t, k)) && FrameOf(Load(mem, t, k)) == n
    ensures AllReached(mem, WithPath(F, n, LeafPath(F, t, k)))
  {
    hide Present, Huge, FrameOf, Descend, EntriesOk, Sized, Rooted;
    var G := WithPath(F, n, LeafPath(F, t, k));
    assert Leads(mem, F.path[t], t);
    assert LeafPath(F, t, k).idx[..3] == F.path[t].idx;
    forall f | f in G.path ensures |G.path[f].idx| <= 4 && Leads(mem, G.path[f], f) {
      if f != n { assert Leads(mem, F.path[f], f); }
    }
  }

  lemma OwnEntries(mem: Mem, F: Forest, t: nat, k: nat, n: nat)
    requires WF(mem, F) && t in F.path && |F.path[t].idx| == 3 && n !in F.path
    ensures EntriesOk(mem, WithPath(F, n, LeafPath(F, t, k)))
  {
    hide Present, Huge, FrameOf, AllReached, Sized, Rooted;
    var G := WithPath(F, n, LeafPath(F, t, k));
    forall f, i | f in G.path && |G.path[f].idx| <= 2 && 0 <= i < ENTRIES ensures EntryOk(mem, G, f, i) {
      assert EntryOk(mem, F, f, i);
    }
  }

  /** Nothing is owned at a last-level entry that is not present. */
  lemma AbsentUnowned(mem: Mem, F: Forest, t: nat, k: nat)
    requires WF(mem, F) && t in F.path && |F.path[t].idx| == 3 && !Present(Load(mem, t, k))
    ensures Disown(F, LeafPath(F, t, k)) == F
  {
    hide Present, Huge, FrameOf, Descend;
    assert Leads(mem, F.path[t], t);
    assert LeafPath(F, t, k).idx[..3] == F.path[t].idx;
    forall f | f in F.path ensures F.path[f] != LeafPath(F, t, k) {
      assert Leads(mem, F.path[f], f);
    }
    assert Disown(F, LeafPath(F, t, k)).path == F.path;
  }

  // ---------------------------------------------------------------- memory outside the forest, new directories

  lemma {:induction false} AgreeDescend(mem: Mem, mem': Mem, F: Forest, r: nat, idx: seq<nat>)
    requires WF(mem, F) && r in F.roots && |idx| <= 3 && Digits(idx)
    requires forall f, i :: f in F.path && |F.path[f].idx| <= 3 ==> Load(mem', f, i) == Load(mem, f, i)
    ensures Descend(mem', r, idx) == Descend(mem, r, idx)
  {
    hide Present, Huge, FrameOf, WF;
    if idx != [] {
      var d := |idx| - 1;
      AgreeDescend(mem, mem', F, r, idx[..d]);
      DescendPath(mem, F, r, idx[..d]);
    }
  }

  lemma AgreeWalk(mem: Mem, mem': Mem, F: Forest, r: nat, ix: seq<nat>)
    requires WF(mem, F) && r in F.roots && IxOk(ix)
    requires forall f, i :: f in F.path && |F.path[f].idx| <= 3 ==> Load(mem', f, i) == Load(mem, f, i)
    ensures Walk(mem', r, ix) == Walk(mem, r, ix)
  {
    hide Present, Huge, FrameOf, WF;
    AgreeDescend(mem, mem', F, r, ix[..2]);
    DescendPath(mem, F, r, ix[..2]);
    DescendPath(mem, F, r, ix[..3]);
    assert ix[..3][..2] == ix[..2];
  }

  lemma AgreeLeads(mem: Mem, mem': Mem, F: Forest, f: nat)
    requires WF(mem, F) && f in F.path
    requires forall f, i :: f in F.path && |F.path[f].idx| <= 3 ==> Load(mem', f, i) == Load(mem, f, i)
    ensures Leads(mem', F.path[f], f)
  {
    hide Present, Huge, FrameOf, Descend;
    assert PathOk(F, f);
    var p := F.path[f];
    forall idx | |idx| <= 3 && Digits(idx) ensures Descend(mem', p.root, idx) == Descend(mem, p.root, idx) {
      AgreeDescend(mem, mem', F, p.root, idx);
    }
    if |p.idx| == 4 { DescendPath(mem, F, p.root, p.idx[..3]); }
    LeadsKept(mem, mem', p, f);
  }

  /** Memory outside the forest's tables does not matter. */
  lemma OutsideWrite(mem: Mem, F: Forest, n: nat, table: seq<nat>)
    requires WF(mem, F) && (n in F.path ==> |F.path[n].idx| == 4)
    ensures WF(mem[n := table], F) && SameWalks(mem, mem[n := table], F.roots)
    ensures UpperLinked(mem, F.roots) ==> UpperLinked(mem[n := table], F.roots)
  {
    hide Present, Huge, FrameOf, Descend, Leads;
    var mem' := mem[n := table];
    forall f | f in F.path ensures Leads(mem', F.path[f], f) { AgreeLeads(mem, mem', F, f); }
    forall f, i | f in F.path && |F.path[f].idx| <= 2 && 0 <= i < ENTRIES ensures EntryOk(mem', F, f, i) {
      assert EntryOk(mem, F, f, i);
    }
    forall r, ix | r in F.roots && IxOk(ix) ensures Walk(mem', r, ix) == Walk(mem, r, ix) {
      AgreeWalk(mem, mem', F, r, ix);
    }
    if UpperLinked(mem, F.roots) {
      forall r, i | r in F.roots && KERNEL_START <= i < ENTRIES ensures IsLink(Load(mem', r, i)) {
        assert F.path[r].idx == [] && IsLink(Load(mem, r, i));
      }
    }
  }

  ghost function WithRoot(F: Forest, n: nat): Forest {
    F.(roots := F.roots + {n}, path := F.path[n := Path(n, [])])
  }

  /** A directory with an empty lower half and the kernel's upper half. */
  predicate IsNewDirectory(mem: Mem, kernel: nat, table: seq<nat>) {
    && |table| == ENTRIES
    && (forall i :: 0 <= i < KERNEL_START ==> table[i] == 0)
    && (forall i :: KERNEL_START <= i < ENTRIES ==> table[i] == Load(mem, kernel, i))
  }

  lemma NewRootWF(mem: Mem, F: Forest, n: nat, table: seq<nat>)
    requires WF(mem, F) && UpperLinked(mem, F.roots) && n !in F.path && IsNewDirectory(mem, F.kernel, table)
    ensures WF(mem[n := table], WithRoot(F, n)) && UpperLinked(mem[n := table], WithRoot(F, n).roots)
  {
    hide Present, Huge, FrameOf, Leads, EntryOk;
    OutsideWrite(mem, F, n, table);
    var mem', G := mem[n := table], WithRoot(F, n);
    forall f | f in G.path ensures PathOk(G, f) && Leads(mem', G.path[f], f) {
      if f == n { NewRootLeads(mem', n); } else { assert PathOk(F, f); }
    }
    forall f, i | f in G.path && |G.path[f].idx| <= 2 && 0 <= i < ENTRIES ensures EntryOk(mem', G, f, i) {
      NewRootEntryOk(mem, F, n, table, f, i);
    }
    forall r, i | r in G.roots && KERNEL_START <= i < ENTRIES ensures IsLink(Load(mem', r, i)) {
      assert r != n ==> IsLink(Load(mem, r, i));
      assert IsLink(Load(mem, F.kernel, i));
    }
  }

  lemma NewRootEntryOk(mem: Mem, F: Forest, n: nat, table: seq<nat>, f: nat, i: nat)
    requires WF(mem, F) && n !in F.path && IsNewDirectory(mem, F.kernel, table)
    requires f in WithRoot(F, n).path && |WithRoot(F, n).path[f].idx| <= 2 && i < ENTRIES
    ensures EntryOk(mem[n := table], WithRoot(F, n), f, i)
  {
    assert !Present(0);
    hide Present, Huge, FrameOf, Leads;
    if f != n {
      assert EntryOk(mem, F, f, i);
    } else if i >= KERNEL_START {
      assert EntryOk(mem, F, F.kernel, i);
    }
  }

  lemma NewRootLeads(mem: Mem, n: nat)
    ensures Leads(mem, Path(n, []), n)
  {}
}
