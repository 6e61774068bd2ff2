/** The kernel heap: a first-fit, address-ordered free list that splits, coalesces and grows upward. */
module KernelHeap {
  import opened Common
  import opened FreeList

  const NULL: nat := 0
  const HEAP_MAGIC: nat := 0xDEADBEEF
  const ADDRESSES: nat := 0x1_0000_0000_0000_0000
  /** Bytes added by one growth step: ADDITION_HEAP_PAGE_SIZE * PAGE_SIZE * 2. */
  const ADDITION: nat := 256 * 4096 * 2

  /** The header words in memory at the start of a block. */
  datatype Header = Header(magic: nat, size: nat, next: nat)

  // ---------------------------------------------------------------- specification

  ghost predicate InLive(live: map<nat, nat>, a: int) {
    exists p :: p in live && Block(p, live[p]).Contains(a)
  }

  ghost predicate LiveApart(live: map<nat, nat>) {
    forall p, q :: p in live && q in live && p < q ==> Block(p, live[p]).End() <= q
  }

  ghost predicate LiveWithin(live: map<nat, nat>, start: nat, ceiling: nat) {
    forall p :: p in live ==> start <= p && Block(p, live[p]).End() <= ceiling
  }

  /**
   * The heap invariant: live blocks do not overlap, and the coalesced free list covers exactly the bytes
   * of [start, ceiling) that lie in no live block, so it lists the maximal gaps between live blocks.
   */
  ghost predicate Tiles(start: nat, ceiling: nat, free: seq<Block>, live: map<nat, nat>) {
    && Canonical(free)
    && LiveApart(live)
    && LiveWithin(live, start, ceiling)
    && forall a :: Covers(free, a) <==> start <= a < ceiling && !InLive(live, a)
  }

  /** The first block of at least `n` payload bytes, or |s|. */
  function FirstFit(s: seq<Block>, n: nat): (k: nat)
    ensures k <= |s|
    ensures k < |s| ==> s[k].size >= n
    ensures forall i :: 0 <= i < k ==> s[i].size < n
  {
    if s == [] then 0
    else if s[0].size >= n then 0
    else 1 + FirstFit(s[1..], n)
  }

  /** A block is split when the remainder holds a header and at least one byte. */
  predicate Splits(b: Block, n: nat) { b.size >= n + HEADER + 1 }

  /** Payload bytes kept by an allocation of `n` from `b`. */
  function Granted(b: Block, n: nat): nat { if Splits(b, n) then n else b.size }

  /** The free list after taking `n` bytes from block `k`. */
  function Taken(s: seq<Block>, k: nat, n: nat): seq<Block>
    requires k < |s|
  {
    s[..k]
    + (if Splits(s[k], n) then [Block(s[k].addr + HEADER + n, s[k].size - n - HEADER)] else [])
    + s[k + 1..]
  }

  /** The coalesced free list after `n` bytes are added at `ceiling`. */
  function Extended(s: seq<Block>, ceiling: nat, n: nat): seq<Block>
    requires n == 0 || n >= HEADER
  {
    if n == 0 then s
    else if |s| > 0 && s[|s| - 1].End() == ceiling then
      s[..|s| - 1] + [Block(s[|s| - 1].addr, s[|s| - 1].size + n)]
    else s + [Block(ceiling, n - HEADER)]
  }

  /** Bytes of the free block that reaches the ceiling, if there is one. */
  function Trailing(s: seq<Block>, ceiling: nat): nat {
    if |s| > 0 && s[|s| - 1].End() == ceiling then s[|s| - 1].size + HEADER else 0
  }

  /** Growth steps left below the heap limit. */
  function StepsLeft(ceiling: nat, limit: nat): nat {
    if ceiling + ADDITION > limit then 0 else (limit - ceiling) / ADDITION
  }

  /** Some block fits now, or the trailing gap fits once every remaining growth step has joined it. */
  ghost predicate Satisfiable(s: seq<Block>, ceiling: nat, limit: nat, n: nat) {
    || FirstFit(s, n) < |s|
    || Trailing(s, ceiling) + StepsLeft(ceiling, limit) * ADDITION >= n + HEADER
  }

  // ---------------------------------------------------------------- lemmas on the specification

  /** The free list is a function of the live blocks and the heap bounds. */
  lemma LiveDeterminesFree(start: nat, ceiling: nat, f: seq<Block>, g: seq<Block>, live: map<nat, nat>)
    requires Tiles(start, ceiling, f, live) && Tiles(start, ceiling, g, live)
    ensures f == g
  {
    CanonicalUnique(f, g);
  }

  /** With nothing live, the free list is one block spanning the heap. */
  lemma EmptyHeapIsOneBlock(start: nat, ceiling: nat, f: seq<Block>)
    requires Tiles(start, ceiling, f, map[]) && start + HEADER <= ceiling
    ensures f == [Block(start, ceiling - start - HEADER)]
  {
    var g := [Block(start, ceiling - start - HEADER)];
    forall a ensures Covers(f, a) <==> Covers(g, a) {
      assert !InLive(map[], a);
      if start <= a < ceiling { assert g[0].Contains(a); }
    }
    CanonicalUnique(f, g);
  }

  /** The remaining heap size is the number of bytes that lie in no live block. */
  lemma RemainingCountsFreeBytes(start: nat, ceiling: nat, f: seq<Block>, live: map<nat, nat>)
    requires Tiles(start, ceiling, f, live)
    ensures TotalBytes(f) == |set a | start <= a < ceiling && !InLive(live, a)|
  {
    hide Covers, InLive;
    TotalBytesCounts(f) by { assert Ordered(f); }
    assert CoveredBytes(f) == set a | start <= a < ceiling && !InLive(live, a);
  }

  /** An allocation costs a header and its payload: what was asked for, or the whole block when no more fits in it. */
  lemma TakenTotal(s: seq<Block>, k: nat, n: nat)
    requires k < |s| && s[k].size >= n
    ensures var payload := if s[k].size >= n + HEADER + 1 then n else s[k].size;
            TotalBytes(Taken(s, k, n)) + payload + HEADER == TotalBytes(s) && n <= payload <= n + HEADER
  {
    hide TotalBytes;
    var a, b := s[..k], s[k + 1..];
    assert s == a + [s[k]] + b;
    TotalMiddle(a, [s[k]], b);
    TotalOne(s[k]);
    var left := if Splits(s[k], n) then [Block(s[k].addr + HEADER + n, s[k].size - n - HEADER)] else [];
    TotalMiddle(a, left, b);
    if left == [] { TotalNone(); } else { TotalOne(left[0]); }
  }

  lemma TotalMiddle(a: seq<Block>, m: seq<Block>, b: seq<Block>)
    ensures TotalBytes(a + m + b) == TotalBytes(a) + TotalBytes(m) + TotalBytes(b)
  {
    TotalJoin(a + m, b);
    TotalJoin(a, m);
  }

  lemma ExtendedTotal(s: seq<Block>, ceiling: nat, n: nat)
    requires n == 0 || n >= HEADER
    ensures TotalBytes(Extended(s, ceiling, n)) == TotalBytes(s) + n
  {
    if n > 0 && |s| > 0 && s[|s| - 1].End() == ceiling {
      TotalJoin(s[..|s| - 1], [Block(s[|s| - 1].addr, s[|s| - 1].size + n)]);
      TotalOne(Block(s[|s| - 1].addr, s[|s| - 1].size + n));
    } else if n > 0 {
      TotalJoin(s, [Block(ceiling, n - HEADER)]);
      TotalOne(Block(ceiling, n - HEADER));
    }
  }

  lemma TakenAt(s: seq<Block>, k: nat, n: nat, i: nat)
    requires k < |s| && i < |Taken(s, k, n)|
    ensures Taken(s, k, n)[i] ==
            if i < k then s[i]
            else if Splits(s[k], n) then
              (if i == k then Block(s[k].addr + HEADER + n, s[k].size - n - HEADER) else s[i])
            else s[i + 1]
  {}

  lemma TakenCanonical(s: seq<Block>, k: nat, n: nat)
    requires Canonical(s) && k < |s|
    ensures Canonical(Taken(s, k, n))
  {
    var r := Taken(s, k, n);
    forall i, j | 0 <= i < j < |r| ensures r[i].End() < r[j].addr {
      TakenAt(s, k, n, i);
      TakenAt(s, k, n, j);
      var split := Splits(s[k], n);
      assert s[if split || i < k then i else i + 1].End() < s[if split || j < k then j else j + 1].addr;
    }
  }

  /** Taking from a block removes exactly the granted header and payload from the covered bytes. */
  lemma TakenCovers(s: seq<Block>, k: nat, n: nat, a: int)
    requires Canonical(s) && k < |s| && s[k].size >= n
    ensures Covers(Taken(s, k, n), a) <==> Covers(s, a) && !Block(s[k].addr, Granted(s[k], n)).Contains(a)
  {
    if Covers(Taken(s, k, n), a) { TakenWithin(s, k, n, a); }
    if Covers(s, a) && !Block(s[k].addr, Granted(s[k], n)).Contains(a) { TakenKeeps(s, k, n, a); }
  }

  lemma TakenWithin(s: seq<Block>, k: nat, n: nat, a: int)
    requires Canonical(s) && k < |s| && s[k].size >= n && Covers(Taken(s, k, n), a)
    ensures Covers(s, a) && !Block(s[k].addr, Granted(s[k], n)).Contains(a)
  {
    hide Taken;
    var r, split := Taken(s, k, n), Splits(s[k], n);
    TakenLength(s, k, n);
    var i :| 0 <= i < |r| && r[i].Contains(a);
    TakenAt(s, k, n, i);
    var i' := if split || i < k then i else i + 1;
    assert s[i'].Contains(a);
    assert i' < k ==> s[i'].End() < s[k].addr;
    assert i' > k ==> s[k].End() < s[i'].addr;
  }

  lemma TakenKeeps(s: seq<Block>, k: nat, n: nat, a: int)
    requires Canonical(s) && k < |s| && s[k].size >= n && Covers(s, a)
    requires !Block(s[k].addr, Granted(s[k], n)).Contains(a)
    ensures Covers(Taken(s, k, n), a)
  {
    hide Taken, Canonical;
    var r, split := Taken(s, k, n), Splits(s[k], n);
    TakenLength(s, k, n);
    var i :| 0 <= i < |s| && s[i].Contains(a);
    var i' := if split || i < k then i else i - 1;
    TakenAt(s, k, n, i');
    assert r[i'].Contains(a);
  }

  lemma TakenLength(s: seq<Block>, k: nat, n: nat)
    requires k < |s|
    ensures |Taken(s, k, n)| == |s| - if Splits(s[k], n) then 0 else 1
  {}

  lemma InLiveAdd(live: map<nat, nat>, p: nat, n: nat, a: int)
    requires p !in live
    ensures InLive(live[p := n], a) <==> InLive(live, a) || Block(p, n).Contains(a)
  {
    var l := live[p := n];
    if InLive(live, a) {
      var q :| q in live && Block(q, live[q]).Contains(a);
      assert q in l && Block(q, l[q]).Contains(a);
    }
    if Block(p, n).Contains(a) { assert p in l && Block(p, l[p]).Contains(a); }
  }

  lemma FreeBlockApart(start: nat, ceiling: nat, f: seq<Block>, live: map<nat, nat>, k: nat, p: nat)
    requires Tiles(start, ceiling, f, live) && k < |f| && p in live
    ensures f[k].End() <= p || Block(p, live[p]).End() <= f[k].addr
    ensures start <= f[k].addr && f[k].End() <= ceiling
  {
    assert f[k].Contains(f[k].addr) && f[k].Contains(f[k].End() - 1);
    assert Covers(f, f[k].addr) && Covers(f, f[k].End() - 1);
    assert Block(p, live[p]).Contains(p) && InLive(live, p);
    assert !Covers(f, p);
    assert !f[k].Contains(p);
    assert !InLive(live, f[k].addr);
    assert !Block(p, live[p]).Contains(f[k].addr);
  }

  lemma FreeBlockWithin(start: nat, ceiling: nat, f: seq<Block>, live: map<nat, nat>, k: nat)
    requires Tiles(start, ceiling, f, live) && k < |f|
    ensures start <= f[k].addr && f[k].End() <= ceiling && f[k].addr !in live
  {
    assert f[k].Contains(f[k].addr) && f[k].Contains(f[k].End() - 1);
    assert Covers(f, f[k].addr) && Covers(f, f[k].End() - 1);
    if f[k].addr in live { FreeBlockApart(start, ceiling, f, live, k, f[k].addr); }
  }

  lemma TilesTake(start: nat, ceiling: nat, f: seq<Block>, live: map<nat, nat>, k: nat, n: nat)
    requires Tiles(start, ceiling, f, live) && k < |f| && f[k].size >= n
    ensures f[k].addr !in live
    ensures Tiles(start, ceiling, Taken(f, k, n), live[f[k].addr := Granted(f[k], n)])
  {
    FreeBlockWithin(start, ceiling, f, live, k);
    TakenCanonical(f, k, n);
    forall p | p in live ensures f[k].End() <= p || Block(p, live[p]).End() <= f[k].addr {
      FreeBlockApart(start, ceiling, f, live, k, p);
    }
    var live' := live[f[k].addr := Granted(f[k], n)];
    forall a ensures Covers(Taken(f, k, n), a) <==> start <= a < ceiling && !InLive(live', a) {
      TakenCovers(f, k, n, a);
      InLiveAdd(live, f[k].addr, Granted(f[k], n), a);
    }
  }

  lemma InLiveRemove(live: map<nat, nat>, p: nat, a: int)
    requires LiveApart(live) && p in live
    ensures InLive(live - {p}, a) <==> InLive(live, a) && !Block(p, live[p]).Contains(a)
  {
    var l := live - {p};
    assert live == l[p := live[p]];
    InLiveAdd(l, p, live[p], a);
  }

  lemma TilesFree(start: nat, ceiling: nat, f: seq<Block>, g: seq<Block>, live: map<nat, nat>, p: nat)
    requires Tiles(start, ceiling, f, live) && p in live && Canonical(g)
    requires forall a :: Covers(g, a) <==> Covers(f, a) || Block(p, live[p]).Contains(a)
    ensures Tiles(start, ceiling, g, live - {p})
  {
    hide Covers, InLive;
    forall a ensures Covers(g, a) <==> start <= a < ceiling && !InLive(live - {p}, a) {
      InLiveRemove(live, p, a);
    }
  }

  lemma ExtendedCanonical(s: seq<Block>, ceiling: nat, n: nat)
    requires Canonical(s) && n >= HEADER
    requires forall i :: 0 <= i < |s| ==> s[i].End() <= ceiling
    ensures Canonical(Extended(s, ceiling, n))
    ensures forall i :: 0 <= i < |Extended(s, ceiling, n)| ==> Extended(s, ceiling, n)[i].End() <= ceiling + n
  {
    if |s| > 0 && s[|s| - 1].End() < ceiling {
      forall i | 0 <= i < |s| ensures s[i].End() < ceiling {
        assert i < |s| - 1 ==> s[i].End() < s[|s| - 1].addr;
      }
    }
  }

  lemma ExtendedCovers(s: seq<Block>, ceiling: nat, n: nat, a: int)
    requires n >= HEADER
    ensures Covers(Extended(s, ceiling, n), a) <==> Covers(s, a) || ceiling <= a < ceiling + n
  {
    var r := Extended(s, ceiling, n);
    if Covers(s, a) {
      var i :| 0 <= i < |s| && s[i].Contains(a);
      assert r[i].Contains(a);
    }
    if ceiling <= a < ceiling + n { assert r[|r| - 1].Contains(a); }
    if Covers(r, a) && !(ceiling <= a < ceiling + n) {
      var i :| 0 <= i < |r| && r[i].Contains(a);
      assert s[i].Contains(a);
    }
  }

  lemma TilesGrow(start: nat, ceiling: nat, f: seq<Block>, live: map<nat, nat>, n: nat)
    requires Tiles(start, ceiling, f, live) && n >= HEADER && start <= ceiling
    ensures Tiles(start, ceiling + n, Extended(f, ceiling, n), live)
  {
    forall i | 0 <= i < |f| ensures f[i].End() <= ceiling { FreeBlockWithin(start, ceiling, f, live, i); }
    ExtendedCanonical(f, ceiling, n);
    forall a ensures Covers(Extended(f, ceiling, n), a) <==> start <= a < ceiling + n && !InLive(live, a) {
      ExtendedCovers(f, ceiling, n, a);
    }
  }

  lemma ExtendTwice(s: seq<Block>, ceiling: nat, m: nat, n: nat)
    requires m == 0 || m >= HEADER
    requires n >= HEADER
    ensures Extended(Extended(s, ceiling, m), ceiling + m, n) == Extended(s, ceiling, m + n)
  {}

  lemma StepsLeftDrops(ceiling: nat, limit: nat)
    requires ceiling + ADDITION <= limit
    ensures StepsLeft(ceiling, limit) * ADDITION == StepsLeft(ceiling + ADDITION, limit) * ADDITION + ADDITION
  {
    assert (limit - ceiling) / ADDITION == (limit - ceiling - ADDITION) / ADDITION + 1;
  }

  /** After growth without a fit, only the block reaching the ceiling can fit. */
  lemma OnlyTrailingFits(s: seq<Block>, ceiling: nat, n: nat)
    requires FirstFit(s, n) == |s|
    ensures var r := Extended(s, ceiling, ADDITION);
            && |r| > 0
            && r[|r| - 1].End() == ceiling + ADDITION
            && r[|r| - 1].size + HEADER == Trailing(s, ceiling) + ADDITION
            && Trailing(r, ceiling + ADDITION) == Trailing(s, ceiling) + ADDITION
            && FirstFit(r, n) == if r[|r| - 1].size >= n then |r| - 1 else |r|
  {
    var r := Extended(s, ceiling, ADDITION);
    forall i | 0 <= i < |r| - 1 ensures r[i].size < n { assert r[i] == s[i]; }
    FirstFitIs(r, n, if r[|r| - 1].size >= n then |r| - 1 else |r|);
  }

  /** A growth step spends one step and lengthens the trailing gap by it, so satisfiability is unchanged. */
  lemma GrowKeepsSatisfiable(s: seq<Block>, ceiling: nat, limit: nat, n: nat)
    requires FirstFit(s, n) == |s| && ceiling + ADDITION <= limit
    ensures Satisfiable(s, ceiling, limit, n)
            <==> Satisfiable(Extended(s, ceiling, ADDITION), ceiling + ADDITION, limit, n)
  {
    hide FirstFit, Extended, Trailing, StepsLeft;
    StepsLeftDrops(ceiling, limit);
    OnlyTrailingFits(s, ceiling, n);
  }

  /** With no fitting block and no step left, the request cannot be satisfied. */
  lemma NoStepsNoFit(s: seq<Block>, ceiling: nat, limit: nat, n: nat)
    requires FirstFit(s, n) == |s| && ceiling + ADDITION > limit
    ensures !Satisfiable(s, ceiling, limit, n)
  {}

  lemma FirstFitIs(s: seq<Block>, n: nat, k: nat)
    requires k <= |s|
    requires forall i :: 0 <= i < k ==> s[i].size < n
    requires k < |s| ==> s[k].size >= n
    ensures FirstFit(s, n) == k
  {}

  // ---------------------------------------------------------------- the allocator

  function NextAddr(s: seq<Block>, i: nat): nat {
    if i + 1 < |s| then s[i + 1].addr else NULL
  }

  ghost predicate HeaderOf(hdr: map<nat, Header>, s: seq<Block>, i: nat)
    requires i < |s|
  {
    && s[i].addr in hdr
    && hdr[s[i].addr].size == s[i].size
    && hdr[s[i].addr].next == NextAddr(s, i)
  }

  /** The headers in memory reached from `head` spell out the block list `s`. */
  ghost predicate Linked(hdr: map<nat, Header>, head: nat, s: seq<Block>) {
    && head == (if |s| == 0 then NULL else s[0].addr)
    && (forall i :: 0 <= i < |s| ==> s[i].addr != NULL)
    && (forall i :: 0 <= i < |s| ==> HeaderOf(hdr, s, i))
  }

  ghost predicate Sealed(hdr: map<nat, Header>, s: seq<Block>) {
    forall i :: 0 <= i < |s| ==> s[i].addr in hdr && hdr[s[i].addr].magic == HEAP_MAGIC
  }

  ghost predicate IsListed(s: seq<Block>, addr: nat) {
    exists i :: 0 <= i < |s| && s[i].addr == addr
  }

  ghost predicate ClearOf(s: seq<Block>, b: Block) {
    forall i :: 0 <= i < |s| ==> s[i].End() <= b.addr || b.End() <= s[i].addr
  }

  ghost predicate SameOutside(hdr: map<nat, Header>, hdr': map<nat, Header>, s: seq<Block>) {
    && hdr'.Keys == hdr.Keys
    && forall p :: p in hdr && !IsListed(s, p) ==> hdr'[p] == hdr[p]
  }

  /** Joining blocks `i` and `i + 1` needs one header write. */
  lemma MergeStep(hdr: map<nat, Header>, head: nat, s: seq<Block>, i: nat, h: Header)
    requires Linked(hdr, head, s) && Ordered(s) && i + 1 < |s|
    requires h.size == s[i].size + HEADER + s[i + 1].size && h.next == NextAddr(s, i + 1)
    ensures Linked(hdr[s[i].addr := h], head, Merged(s, i))
  {
    var r, hdr' := Merged(s, i), hdr[s[i].addr := h];
    MergedAt(s, i, 0);
    forall k | 0 <= k < |r| ensures HeaderOf(hdr', r, k) {
      var k' := if k <= i then k else k + 1;
      assert HeaderOf(hdr, s, k');
      MergedAt(s, i, k);
      if k + 1 < |r| { MergedAt(s, i, k + 1); }
      if k != i { OrderedDistinct(s, k', i); }
    }
  }

  ghost function Inserted(s: seq<Block>, k: nat, b: Block): seq<Block>
    requires k <= |s|
  {
    s[..k] + [b] + s[k..]
  }

  lemma InsertedAt(s: seq<Block>, k: nat, b: Block, i: nat)
    requires k <= |s| && i <= |s|
    ensures Inserted(s, k, b)[i] == if i < k then s[i] else if i == k then b else s[i - 1]
  {}

  lemma InsertOrdered(s: seq<Block>, k: nat, b: Block)
    requires Ordered(s) && k <= |s| && ClearOf(s, b)
    requires forall i :: 0 <= i < |s| ==> s[i].addr != b.addr && (i < k <==> s[i].addr < b.addr)
    ensures Ordered(Inserted(s, k, b))
  {
    var r := Inserted(s, k, b);
    forall i, j | 0 <= i < j < |r| ensures r[i].End() <= r[j].addr {
      InsertedAt(s, k, b, i);
      InsertedAt(s, k, b, j);
    }
  }

  /** Linking a block in between its neighbours, as __kfree does with two pointer writes. */
  lemma InsertLinked(hdr: map<nat, Header>, head: nat, s: seq<Block>, k: nat, b: Block, hdr': map<nat, Header>)
    requires Linked(hdr, head, s) && Ordered(s) && k <= |s| && b.addr != NULL
    requires forall i :: 0 <= i < |s| ==> s[i].addr != b.addr
    requires b.addr in hdr' && hdr'[b.addr].size == b.size && hdr'[b.addr].next == (if k < |s| then s[k].addr else NULL)
    requires forall i :: 0 <= i < |s| ==> s[i].addr in hdr && s[i].addr in hdr'
    requires forall i :: 0 <= i < |s| && i != k - 1 ==> hdr'[s[i].addr] == hdr[s[i].addr]
    requires k > 0 ==> hdr'[s[k - 1].addr] == hdr[s[k - 1].addr].(next := b.addr)
    ensures Linked(hdr', if k == 0 then b.addr else head, Inserted(s, k, b))
  {
    var r := Inserted(s, k, b);
    InsertedAt(s, k, b, 0);
    forall i | 0 <= i < |r| ensures HeaderOf(hdr', r, i) { InsertLinkedAt(hdr, head, s, k, b, hdr', i); }
  }

  lemma InsertLinkedAt(hdr: map<nat, Header>, head: nat, s: seq<Block>, k: nat, b: Block, hdr': map<nat, Header>,
                       i: nat)
    requires Linked(hdr, head, s) && k <= |s| && i < |Inserted(s, k, b)|
    requires b.addr in hdr' && hdr'[b.addr].size == b.size && hdr'[b.addr].next == (if k < |s| then s[k].addr else NULL)
    requires forall i :: 0 <= i < |s| ==> s[i].addr in hdr && s[i].addr in hdr'
    requires forall i :: 0 <= i < |s| && i != k - 1 ==> hdr'[s[i].addr] == hdr[s[i].addr]
    requires k > 0 ==> hdr'[s[k - 1].addr] == hdr[s[k - 1].addr].(next := b.addr)
    ensures HeaderOf(hdr', Inserted(s, k, b), i)
  {
    hide Linked, Inserted;
    InsertedSize(s, k, b);
    InsertedAt(s, k, b, i);
    if i + 1 <= |s| { InsertedAt(s, k, b, i + 1); }
    if i != k { HeaderAt(hdr, head, s, if i < k then i else i - 1); }
  }

  lemma InsertedSize(s: seq<Block>, k: nat, b: Block)
    requires k <= |s|
    ensures |Inserted(s, k, b)| == |s| + 1
  {}

  lemma OrderedDistinct(s: seq<Block>, i: nat, j: nat)
    requires Ordered(s) && i < |s| && j < |s| && i != j
    ensures s[i].addr != s[j].addr
  {
    assert s[if i < j then i else j].End() <= s[if i < j then j else i].addr;
  }

  ghost predicate LostMagic(hdr: map<nat, Header>, s: seq<Block>, k: int) {
    0 <= k < |s| && s[k].addr in hdr && hdr[s[k].addr].magic != HEAP_MAGIC
  }

  function AddrAt(s: seq<Block>, i: nat): nat { if i < |s| then s[i].addr else NULL }

  /** How far a merging pass has come: block `i` is current, and the blocks of the input after `m` are untouched. */
  ghost predicate MergeProgress(hdr0: map<nat, Header>, s0: seq<Block>, hdr: map<nat, Header>, head: nat, s: seq<Block>,
                                i: nat, m: nat)
  {
    && (|s| == 0 <==> |s0| == 0) && i <= |s| && (|s| > 0 ==> i < |s|)
    && |s| - i == |s0| - m
    && Linked(hdr, head, s) && Ordered(s) && SameBytes(s0, s)
    && (forall k :: m < k < |s0| ==> s[k - m + i] == s0[k])
    && (forall k :: 1 <= k <= m ==> !LostMagic(hdr0, s0, k))
    && (forall k :: 0 <= k < i ==> s[k].End() < s[k + 1].addr)
    && HeadersKept(hdr0, s0, hdr, s)
  }

  /** A merging pass rewrites sizes and links of listed headers only, and never a magic. */
  ghost predicate HeadersKept(hdr0: map<nat, Header>, s0: seq<Block>, hdr: map<nat, Header>, s: seq<Block>) {
    && hdr.Keys == hdr0.Keys
    && (forall p :: p in hdr0 ==> hdr[p].magic == hdr0[p].magic)
    && (forall p :: p in hdr0 && !IsListed(s0, p) ==> hdr[p] == hdr0[p])
    && (forall p :: IsListed(s, p) ==> IsListed(s0, p))
  }

  lemma MergeStart(hdr0: map<nat, Header>, head: nat, s0: seq<Block>)
    requires Linked(hdr0, head, s0) && Ordered(s0)
    ensures MergeProgress(hdr0, s0, hdr0, head, s0, 0, 0)
    ensures head == AddrAt(s0, 0)
    ensures head != NULL ==> HeaderOf(hdr0, s0, 0)
  {}

  /** The block after the current one is the next untouched block of the input. */
  lemma MergeNext(hdr0: map<nat, Header>, s0: seq<Block>, hdr: map<nat, Header>, head: nat, s: seq<Block>, i: nat,
                  m: nat)
    requires MergeProgress(hdr0, s0, hdr, head, s, i, m) && i < |s| && HeaderOf(hdr, s, i)
    requires hdr[s[i].addr].next != NULL
    ensures i + 1 < |s| && HeaderOf(hdr, s, i + 1)
    ensures hdr[s[i + 1].addr].magic != HEAP_MAGIC <==> LostMagic(hdr0, s0, m + 1)
  {
    assert s[i + 1] == s0[m + 1];
  }

  lemma MergeAdvance(hdr0: map<nat, Header>, s0: seq<Block>, hdr: map<nat, Header>, head: nat, s: seq<Block>, i: nat,
                     m: nat)
    requires MergeProgress(hdr0, s0, hdr, head, s, i, m) && i + 1 < |s|
    requires !LostMagic(hdr0, s0, m + 1) && s[i].End() != s[i + 1].addr
    ensures MergeProgress(hdr0, s0, hdr, head, s, i + 1, m + 1)
  {
    assert s[i].End() <= s[i + 1].addr;
  }

  lemma MergeJoin(hdr0: map<nat, Header>, s0: seq<Block>, hdr: map<nat, Header>, head: nat, s: seq<Block>, i: nat,
                  m: nat, h: Header)
    requires MergeProgress(hdr0, s0, hdr, head, s, i, m) && i + 1 < |s|
    requires !LostMagic(hdr0, s0, m + 1) && s[i].End() == s[i + 1].addr
    requires s[i].addr in hdr && h.magic == hdr[s[i].addr].magic
    requires h.size == s[i].size + HEADER + s[i + 1].size && h.next == NextAddr(s, i + 1)
    ensures MergeProgress(hdr0, s0, hdr[s[i].addr := h], head, Merged(s, i), i, m + 1)
    ensures i < |Merged(s, i)| < |s| && Merged(s, i)[i].addr == s[i].addr
    ensures HeaderOf(hdr[s[i].addr := h], Merged(s, i), i)
  {
    var r, hdr' := Merged(s, i), hdr[s[i].addr := h];
    MergeStep(hdr, head, s, i, h);
    MergePair(s, i);
    forall k | m + 1 < k < |s0| ensures r[k - (m + 1) + i] == s0[k] {
      MergedAt(s, i, k - (m + 1) + i);
    }
    forall k | 0 <= k < i ensures r[k].End() < r[k + 1].addr {
      MergedAt(s, i, k);
      MergedAt(s, i, k + 1);
    }
    MergeJoinKeeps(hdr0, s0, hdr, s, i, h);
  }

  lemma MergeJoinKeeps(hdr0: map<nat, Header>, s0: seq<Block>, hdr: map<nat, Header>, s: seq<Block>, i: nat, h: Header)
    requires HeadersKept(hdr0, s0, hdr, s) && i + 1 < |s|
    requires s[i].addr in hdr && h.magic == hdr[s[i].addr].magic
    ensures HeadersKept(hdr0, s0, hdr[s[i].addr := h], Merged(s, i))
  {
    var r := Merged(s, i);
    assert IsListed(s, s[i].addr);
    forall p | IsListed(r, p) ensures IsListed(s0, p) {
      var k :| 0 <= k < |r| && r[k].addr == p;
      MergedAt(s, i, k);
      assert IsListed(s, s[if k <= i then k else k + 1].addr);
    }
  }

  /** What holds of the list wherever a merging pass stops. */
  lemma MergeKept(hdr0: map<nat, Header>, s0: seq<Block>, hdr: map<nat, Header>, head: nat, s: seq<Block>, i: nat,
                  m: nat)
    requires MergeProgress(hdr0, s0, hdr, head, s, i, m)
    ensures Linked(hdr, head, s) && Ordered(s) && SameBytes(s0, s)
    ensures Sealed(hdr0, s0) ==> Sealed(hdr, s)
    ensures SameOutside(hdr0, hdr, s0)
  {
    if Sealed(hdr0, s0) {
      forall i | 0 <= i < |s| ensures s[i].addr in hdr && hdr[s[i].addr].magic == HEAP_MAGIC {
        assert IsListed(s, s[i].addr);
        var j :| 0 <= j < |s0| && s0[j].addr == s[i].addr;
      }
    }
  }

  lemma MergeDone(hdr0: map<nat, Header>, s0: seq<Block>, hdr: map<nat, Header>, head: nat, s: seq<Block>, i: nat,
                  m: nat)
    requires MergeProgress(hdr0, s0, hdr, head, s, i, m)
    requires AddrAt(s, i) != NULL ==> i < |s| && HeaderOf(hdr, s, i) && hdr[s[i].addr].next == NULL
    ensures Linked(hdr, head, s) && Ordered(s) && SameBytes(s0, s) && Canonical(s)
    ensures Sealed(hdr0, s0) ==> Sealed(hdr, s)
    ensures SameOutside(hdr0, hdr, s0)
    ensures forall k :: 1 <= k ==> !LostMagic(hdr0, s0, k)
  {
    MergeKept(hdr0, s0, hdr, head, s, i, m);
    forall j, k | 0 <= j < k < |s| ensures s[j].End() < s[k].addr {
      assert s[j].End() < s[j + 1].addr;
      assert j + 1 < k ==> s[j + 1].End() <= s[k].addr;
    }
  }

  ghost function SplitAt(s: seq<Block>, k: nat, n: nat): seq<Block>
    requires k < |s| && Splits(s[k], n)
  {
    s[..k] + [Block(s[k].addr, n), Block(s[k].addr + HEADER + n, s[k].size - n - HEADER)] + s[k + 1..]
  }

  lemma SplitAtAt(s: seq<Block>, k: nat, n: nat, i: nat)
    requires k < |s| && Splits(s[k], n) && i <= |s|
    ensures SplitAt(s, k, n)[i] == if i < k then s[i]
                                   else if i == k then Block(s[k].addr, n)
                                   else if i == k + 1 then Block(s[k].addr + HEADER + n, s[k].size - n - HEADER)
                                   else s[i - 1]
  {}

  /** Cutting block `k` in two keeps the list linked and ordered. */
  lemma SplitLinked(hdr: map<nat, Header>, head: nat, s: seq<Block>, k: nat, n: nat, h: Header, hdr': map<nat, Header>)
    requires Linked(hdr, head, s) && Ordered(s) && k < |s| && Splits(s[k], n)
    requires h.size == n && h.next == s[k].addr + HEADER + n
    requires var rest := Header(HEAP_MAGIC, s[k].size - n - HEADER, NextAddr(s, k));
             hdr' == hdr[s[k].addr + HEADER + n := rest][s[k].addr := h]
    ensures Linked(hdr', head, SplitAt(s, k, n)) && Ordered(SplitAt(s, k, n))
  {
    var r := SplitAt(s, k, n);
    SplitAtAt(s, k, n, 0);
    forall i | 0 <= i < |r| ensures HeaderOf(hdr', r, i) && r[i].addr != NULL {
      SplitAtAt(s, k, n, i);
      if i + 1 < |r| { SplitAtAt(s, k, n, i + 1); }
      var i' := if i <= k then i else i - 1;
      assert HeaderOf(hdr, s, i');
      if i' < k { assert s[i'].End() <= s[k].addr; }
      if k < i' { assert s[k].End() <= s[i'].addr; }
    }
    SplitOrdered(s, k, n);
  }

  lemma SplitOrdered(s: seq<Block>, k: nat, n: nat)
    requires Ordered(s) && k < |s| && Splits(s[k], n)
    ensures Ordered(SplitAt(s, k, n))
  {
    var r := SplitAt(s, k, n);
    forall i, j | 0 <= i < j < |r| ensures r[i].End() <= r[j].addr {
      SplitAtAt(s, k, n, i);
      SplitAtAt(s, k, n, j);
      var i', j' := if i <= k then i else i - 1, if j <= k then j else j - 1;
      if i' != j' { assert s[i'].End() <= s[j'].addr; }
    }
  }

  /** Unlinking block `k` with one pointer write keeps the list linked. */
  lemma RemoveLinked(hdr: map<nat, Header>, head: nat, s: seq<Block>, k: nat, hdr': map<nat, Header>)
    requires Linked(hdr, head, s) && Ordered(s) && k < |s|
    requires forall i :: 0 <= i < |s| ==> s[i].addr in hdr
    requires hdr' == if k == 0 then hdr else hdr[s[k - 1].addr := hdr[s[k - 1].addr].(next := hdr[s[k].addr].next)]
    ensures Linked(hdr', if k == 0 then hdr[s[k].addr].next else head, s[..k] + s[k + 1..])
  {
    var r := s[..k] + s[k + 1..];
    assert HeaderOf(hdr, s, k);
    forall i | 0 <= i < |r| ensures HeaderOf(hdr', r, i) { RemoveLinkedAt(hdr, head, s, k, hdr', i); }
  }

  lemma HeaderAt(hdr: map<nat, Header>, head: nat, s: seq<Block>, i: nat)
    requires Linked(hdr, head, s) && i < |s|
    ensures HeaderOf(hdr, s, i)
  {}

  lemma RemoveLinkedAt(hdr: map<nat, Header>, head: nat, s: seq<Block>, k: nat, hdr': map<nat, Header>, i: nat)
    requires Linked(hdr, head, s) && Ordered(s) && k < |s| && i < |s| - 1
    requires forall i :: 0 <= i < |s| ==> s[i].addr in hdr
    requires hdr' == if k == 0 then hdr else hdr[s[k - 1].addr := hdr[s[k - 1].addr].(next := hdr[s[k].addr].next)]
    ensures HeaderOf(hdr', s[..k] + s[k + 1..], i)
  {
    hide Linked, Ordered;
    var r, i' := s[..k] + s[k + 1..], if i < k then i else i + 1;
    HeaderAt(hdr, head, s, k);
    HeaderAt(hdr, head, s, i');
    assert r[i] == s[i'];
    assert i + 1 < |r| ==> r[i + 1] == s[if i + 1 < k then i + 1 else i + 2];
    if k > 0 && i' != k - 1 { OrderedDistinct(s, i', k - 1); }
  }

  ghost function CutList(s: seq<Block>, k: nat, n: nat): seq<Block>
    requires k < |s|
  {
    if Splits(s[k], n) then SplitAt(s, k, n) else s
  }

  lemma CutListAt(s: seq<Block>, k: nat, n: nat)
    requires k < |s|
    ensures k < |CutList(s, k, n)| && CutList(s, k, n)[k].addr == s[k].addr
    ensures k > 0 ==> CutList(s, k, n)[k - 1] == s[k - 1]
    ensures CutList(s, k, n)[..k] + CutList(s, k, n)[k + 1..] == Taken(s, k, n)
  {}

  /** An allocation from block `k` writes headers inside that block and in its predecessor only. */
  ghost predicate TakeFrame(hdr: map<nat, Header>, hdr': map<nat, Header>, s: seq<Block>, k: nat)
    requires k < |s|
  {
    forall p :: p in hdr && !s[k].Contains(p) && (k > 0 ==> p != s[k - 1].addr) ==> p in hdr' && hdr'[p] == hdr[p]
  }

  lemma TakeKeepsLive(start: nat, ceiling: nat, hdr: map<nat, Header>, hdr': map<nat, Header>, s: seq<Block>,
                      live: map<nat, nat>, k: nat, p: nat)
    requires Tiles(start, ceiling, s, live) && p in live && p in hdr
    requires k < |s| && TakeFrame(hdr, hdr', s, k)
    ensures p in hdr' && hdr'[p] == hdr[p]
  {
    FreeBlockApart(start, ceiling, s, live, k, p);
    if k > 0 { FreeBlockApart(start, ceiling, s, live, k - 1, p); }
  }

  lemma LinkedIn(hdr: map<nat, Header>, head: nat, s: seq<Block>)
    requires Linked(hdr, head, s)
    ensures forall i :: 0 <= i < |s| ==> s[i].addr != NULL
    ensures forall i :: 0 <= i < |s| ==>
              s[i].addr in hdr && hdr[s[i].addr].size == s[i].size && hdr[s[i].addr].next == NextAddr(s, i)
  {
    forall i | 0 <= i < |s|
      ensures s[i].addr in hdr && hdr[s[i].addr].size == s[i].size && hdr[s[i].addr].next == NextAddr(s, i)
    {
      assert HeaderOf(hdr, s, i);
    }
  }

  lemma CanonicalOrdered(s: seq<Block>)
    requires Canonical(s)
    ensures Ordered(s)
    ensures forall i, j :: 0 <= i < j < |s| ==> s[i].addr < s[j].addr
  {}

  lemma TakeSealed(hdr: map<nat, Header>, hdr': map<nat, Header>, s: seq<Block>, k: nat, n: nat)
    requires Sealed(hdr, s) && k < |s| && hdr.Keys <= hdr'.Keys
    requires forall p :: p in hdr && hdr[p].magic == HEAP_MAGIC ==> hdr'[p].magic == HEAP_MAGIC
    requires Splits(s[k], n) ==> var rest := s[k].addr + HEADER + n; rest in hdr' && hdr'[rest].magic == HEAP_MAGIC
    ensures Sealed(hdr', Taken(s, k, n))
  {
    var r := Taken(s, k, n);
    forall i | 0 <= i < |r| ensures r[i].addr in hdr' && hdr'[r[i].addr].magic == HEAP_MAGIC { TakenAt(s, k, n, i); }
  }

  /** A live block is off the free list and clear of it. */
  lemma LiveUnlisted(start: nat, ceiling: nat, f: seq<Block>, live: map<nat, nat>, p: nat)
    requires Tiles(start, ceiling, f, live) && p in live
    ensures !IsListed(f, p) && ClearOf(f, Block(p, live[p])) && p < ceiling
  {
    forall i | 0 <= i < |f| ensures f[i].addr != p && (f[i].End() <= p || Block(p, live[p]).End() <= f[i].addr) {
      FreeBlockApart(start, ceiling, f, live, i, p);
    }
  }

  lemma LiveAboveStart(start: nat, ceiling: nat, f: seq<Block>, live: map<nat, nat>, p: nat)
    requires Tiles(start, ceiling, f, live) && p in live
    ensures start <= p
  {}

  lemma BeyondCeiling(start: nat, ceiling: nat, f: seq<Block>, live: map<nat, nat>)
    requires Tiles(start, ceiling, f, live)
    ensures !IsListed(f, ceiling) && ClearOf(f, Block(ceiling, ADDITION - HEADER)) && live - {ceiling} == live
  {
    assert ceiling !in live;
    forall i | 0 <= i < |f| ensures f[i].End() <= ceiling { FreeBlockWithin(start, ceiling, f, live, i); }
  }

  lemma LinkedFrame(hdr: map<nat, Header>, head: nat, s: seq<Block>, p: nat, h: Header)
    requires Linked(hdr, head, s) && !IsListed(s, p)
    ensures Linked(hdr[p := h], head, s)
  {
    var hdr' := hdr[p := h];
    forall i | 0 <= i < |s| ensures HeaderOf(hdr', s, i) { assert HeaderOf(hdr, s, i); }
  }

  /** Freeing the new step into the list yields exactly the extended list. */
  lemma GrownList(start: nat, ceiling: nat, f: seq<Block>, g: seq<Block>, live: map<nat, nat>)
    requires Tiles(start, ceiling, f, live) && Canonical(g)
    requires forall a :: Covers(g, a) <==> Covers(f, a) || Block(ceiling, ADDITION - HEADER).Contains(a)
    ensures g == Extended(f, ceiling, ADDITION)
  {
    hide Covers;
    forall i | 0 <= i < |f| ensures f[i].End() <= ceiling { FreeBlockWithin(start, ceiling, f, live, i); }
    ExtendedCanonical(f, ceiling, ADDITION);
    forall a ensures Covers(g, a) <==> Covers(Extended(f, ceiling, ADDITION), a) {
      ExtendedCovers(f, ceiling, ADDITION, a);
    }
    CanonicalUnique(g, Extended(f, ceiling, ADDITION));
  }

  lemma ExtendedByNothing(s: seq<Block>, ceiling: nat)
    ensures Extended(s, ceiling, 0) == s
  {}

  lemma LinkedHead(hdr: map<nat, Header>, head: nat, s: seq<Block>)
    requires Linked(hdr, head, s)
    ensures head == AddrAt(s, 0)
  {}

  lemma FitSatisfies(s: seq<Block>, ceiling: nat, limit: nat, n: nat)
    requires FirstFit(s, n) < |s|
    ensures Satisfiable(s, ceiling, limit, n)
  {}

  ghost predicate LiveHeaders(hdr: map<nat, Header>, live: map<nat, nat>) {
    forall p :: p in live ==> p in hdr && hdr[p].magic == HEAP_MAGIC && hdr[p].size == live[p]
  }

  lemma LiveHeaderAt(hdr: map<nat, Header>, live: map<nat, nat>, p: nat)
    requires LiveHeaders(hdr, live) && p in live
    ensures p in hdr && hdr[p].magic == HEAP_MAGIC && hdr[p].size == live[p]
  {}

  /** Header writes at listed addresses and at `addr` leave the other live headers alone. */
  lemma LiveHeadersKept(start: nat, ceiling: nat, f: seq<Block>, live: map<nat, nat>, hdr: map<nat, Header>,
                        hdr': map<nat, Header>, addr: nat)
    requires Tiles(start, ceiling, f, live) && LiveHeaders(hdr, live) && hdr.Keys <= hdr'.Keys
    requires forall p :: p in hdr && p != addr && !IsListed(f, p) ==> hdr'[p] == hdr[p]
    ensures LiveHeaders(hdr', live - {addr})
  {
    forall p | p in live && p != addr ensures p in hdr' && hdr'[p] == hdr[p] {
      LiveUnlisted(start, ceiling, f, live, p);
    }
  }

  /** No block of the list grown by `g` steps holds `n` bytes. */
  ghost predicate NoFitAfter(s: seq<Block>, ceiling: nat, g: nat, n: nat) {
    var f := Extended(s, ceiling, g * ADDITION);
    FirstFit(f, n) == |f|
  }

  /** First fit from list `f`: either nothing fits and nothing is taken, or the first fitting block is. */
  ghost predicate Outcome(f: seq<Block>, live: map<nat, nat>, n: nat, ptr: nat, f': seq<Block>, live': map<nat, nat>) {
    var k := FirstFit(f, n);
    if ptr == NULL then (n > 0 ==> k == |f|) && f' == f && live' == live
    else
      && k < |f| && f[k].addr > 0 && f[k].addr !in live
      && ptr == f[k].addr + HEADER
      && f' == Taken(f, k, n)
      && live' == live[f[k].addr := Granted(f[k], n)]
  }

  /**
   * Without the names: a request fails when every block is too small, and else takes the first block that is not; a
   * remainder of at least a header and a byte stays in the list, and a smaller one goes with the allocation.
   */
  lemma OutcomeMeans(f: seq<Block>, live: map<nat, nat>, n: nat, ptr: nat, f': seq<Block>, live': map<nat, nat>)
    requires Outcome(f, live, n, ptr, f', live')
    ensures ptr == NULL && n > 0 ==> forall i :: 0 <= i < |f| ==> f[i].size < n
    ensures ptr != NULL ==>
              exists k :: 0 <= k < |f| && f[k].addr + HEADER == ptr && f[k].size >= n
                && (forall i :: 0 <= i < k ==> f[i].size < n)
                && if f[k].size > n + HEADER
                   then && live' == live[f[k].addr := n]
                        && f' == f[..k] + [Block(ptr + n, f[k].size - n - HEADER)] + f[k + 1..]
                   else live' == live[f[k].addr := f[k].size] && f' == f[..k] + f[k + 1..]
  {
    var k := FirstFit(f, n);
    assert k < |f| ==> f[..k] + [] + f[k + 1..] == f[..k] + f[k + 1..];
  }

  /** The heap does not grow while a block is large enough. */
  lemma NoFitMeans(s: seq<Block>, ceiling: nat, n: nat)
    ensures NoFitAfter(s, ceiling, 0, n) <==> forall i :: 0 <= i < |s| ==> s[i].size < n
  {
    var k := FirstFit(s, n);
    assert k < |s| ==> s[k].size >= n;
  }

  lemma OutcomeLive(f: seq<Block>, live: map<nat, nat>, n: nat, ptr: nat, f': seq<Block>, live': map<nat, nat>)
    requires Outcome(f, live, n, ptr, f', live')
    ensures ptr == NULL ==> live' == live && f' == f
    ensures ptr != NULL ==> ptr > HEADER && ptr - HEADER !in live && live'.Keys == live.Keys + {ptr - HEADER}
    ensures ptr != NULL ==> live' - {ptr - HEADER} == live
  {}

  /** Where the search of __kfree stops: every listed address before `k` is below `addr`, the rest above. */
  lemma ReleasePosition(s: seq<Block>, k: nat, addr: nat)
    requires Canonical(s) && k <= |s| && (k < |s| ==> addr < s[k].addr)
    requires forall i :: 0 <= i < k ==> s[i].addr < addr
    ensures !IsListed(s, addr)
    ensures forall i :: 0 <= i < |s| ==> s[i].addr != addr && (i < k <==> s[i].addr < addr)
  {
    forall i | k <= i < |s| ensures addr < s[i].addr {
      assert k < i ==> s[k].End() < s[i].addr;
    }
  }

  lemma SameBytesCovers(s: seq<Block>, t: seq<Block>)
    requires SameBytes(s, t)
    ensures forall a :: Covers(s, a) <==> Covers(t, a)
  {}

  /** The list state of __kfree just before it coalesces. */
  lemma ReleaseLinked(hdr: map<nat, Header>, head: nat, s: seq<Block>, k: nat, b: Block, hdr': map<nat, Header>)
    requires Linked(hdr, head, s) && Canonical(s) && Sealed(hdr, s) && k <= |s| && b.addr != NULL && ClearOf(s, b)
    requires forall i :: 0 <= i < |s| ==> s[i].addr != b.addr && (i < k <==> s[i].addr < b.addr)
    requires b.addr in hdr && hdr[b.addr].size == b.size && hdr[b.addr].magic == HEAP_MAGIC
    requires k > 0 ==> s[k - 1].addr in hdr
    requires var linked := hdr[b.addr := hdr[b.addr].(next := if k < |s| then s[k].addr else NULL)];
             hdr' == if k == 0 then linked
                     else linked[s[k - 1].addr := hdr[s[k - 1].addr].(next := b.addr)]
    ensures Linked(hdr', if k == 0 then b.addr else head, Inserted(s, k, b))
    ensures Ordered(Inserted(s, k, b)) && Sealed(hdr', Inserted(s, k, b))
    ensures forall p :: IsListed(Inserted(s, k, b), p) ==> p == b.addr || IsListed(s, p)
  {
    var r := Inserted(s, k, b);
    forall i | 0 <= i < |s| ensures s[i].addr in hdr && s[i].addr in hdr' { assert HeaderOf(hdr, s, i); }
    forall i | 0 <= i < |s| && i != k - 1 ensures hdr'[s[i].addr] == hdr[s[i].addr] {
      if k > 0 { OrderedDistinct(s, i, k - 1); }
    }
    InsertLinked(hdr, head, s, k, b, hdr');
    InsertOrdered(s, k, b);
    forall i | 0 <= i < |r| ensures r[i].addr in hdr' && hdr'[r[i].addr].magic == HEAP_MAGIC {
      InsertedAt(s, k, b, i);
    }
    forall p | IsListed(r, p) && p != b.addr ensures IsListed(s, p) {
      var i :| 0 <= i < |r| && r[i].addr == p;
      InsertedAt(s, k, b, i);
    }
  }

  /** One client call: allocate, or free the pointer held at an index. */
  datatype Op = Alloc(n: nat) | Free(k: nat)

  /** The held blocks are distinct and are exactly the live blocks beyond `live0`. */
  /** The blocks held are distinct and are the live ones beside `live0`, and each fits its request. */
  ghost predicate Holds(live0: map<nat, nat>, live: map<nat, nat>, held: seq<nat>, sizes: seq<nat>) {
    && (forall p :: p in live <==> p in live0 || p in held)
    && (forall p :: p in live0 ==> p in live && live[p] == live0[p])
    && (forall i, j :: 0 <= i < j < |held| ==> held[i] != held[j])
    && |sizes| == |held| && forall i :: 0 <= i < |held| ==> HeldOk(live0, live, held[i], sizes[i])
  }

  ghost predicate HeldOk(live0: map<nat, nat>, live: map<nat, nat>, p: nat, n: nat) {
    p !in live0 && p in live && n <= live[p] <= n + HEADER
  }

  function Drop<T>(s: seq<T>, k: nat): seq<T>
    requires k < |s|
  {
    s[..k] + s[k + 1..]
  }

  lemma DropIn(s: seq<nat>, k: nat, p: nat)
    requires k < |s| && forall i, j :: 0 <= i < j < |s| ==> s[i] != s[j]
    ensures p in Drop(s, k) <==> p in s && p != s[k]
  {
    var t := Drop(s, k);
    if p in s && p != s[k] {
      var i :| 0 <= i < |s| && s[i] == p;
      assert t[if i < k then i else i - 1] == p;
    }
  }

  lemma HoldsRemove(live0: map<nat, nat>, live: map<nat, nat>, held: seq<nat>, sizes: seq<nat>, k: nat)
    requires Holds(live0, live, held, sizes) && k < |held|
    ensures Holds(live0, live - {held[k]}, Drop(held, k), Drop(sizes, k))
  {
    var held', sizes', live' := Drop(held, k), Drop(sizes, k), live - {held[k]};
    forall p ensures p in held' <==> p in held && p != held[k] { DropIn(held, k, p); }
    assert HeldOk(live0, live, held[k], sizes[k]);
    hide Drop;
    forall i | 0 <= i < |held'| ensures HeldOk(live0, live', held'[i], sizes'[i]) {
      DropAt(held, k, i);
      DropAt(sizes, k, i);
      assert HeldOk(live0, live, held[Past(k, i)], sizes[Past(k, i)]);
    }
    forall i, j | 0 <= i < j < |held'| ensures held'[i] != held'[j] {
      DropAt(held, k, i);
      DropAt(held, k, j);
    }
    DropLength(held, k);
    DropLength(sizes, k);
  }

  lemma HoldsMore(live0: map<nat, nat>, live: map<nat, nat>, live': map<nat, nat>, held: seq<nat>, sizes: seq<nat>,
                  p: nat, n: nat)
    requires Holds(live0, live, held, sizes) && p !in live && p in live' && live' - {p} == live
    requires n <= live'[p] <= n + HEADER
    ensures Holds(live0, live', held + [p], sizes + [n])
  {
    forall q | q in live ensures q in live' && live'[q] == live[q] { assert q in live' - {p}; }
    forall q ensures q in live' <==> q in live || q == p { assert q in live' - {p} <==> q in live; }
    forall i | 0 <= i < |held| ensures HeldOk(live0, live', held[i], sizes[i]) {
      assert HeldOk(live0, live, held[i], sizes[i]);
    }
  }

  function Past(k: nat, i: nat): nat { if i < k then i else i + 1 }

  lemma DropLength<T>(s: seq<T>, k: nat)
    requires k < |s|
    ensures |Drop(s, k)| == |s| - 1
  {}

  lemma DropAt<T>(s: seq<T>, k: nat, i: nat)
    requires k < |s| && i < |s| - 1
    ensures |Drop(s, k)| == |s| - 1 && Drop(s, k)[i] == s[Past(k, i)]
  {}

  class Heap {
    const start: nat
    /** HEAP_CEIL: growth never passes it. */
    const limit: nat
    var freeList: nat
    var ceiling: nat
    var remaining: nat
    /** Header words in heap memory, keyed by the address of the block that carries them. */
    var hdr: map<nat, Header>
    ghost var free: seq<Block>
    /** Payload size of every live block, keyed by header address. */
    ghost var live: map<nat, nat>
    /** How often the VMM has refused to map a growth step. */
    ghost var refusals: nat

    ghost predicate ListOk()
      reads this
    {
      && Linked(hdr, freeList, free)
      && Sealed(hdr, free)
      && Canonical(free)
    }

    ghost predicate Valid()
      reads this
    {
      && ListOk()
      && 0 < start && start + HEADER <= ceiling
      && Tiles(start, ceiling, free, live)
      && LiveHeaders(hdr, live)
      && remaining == TotalBytes(free)
    }

    /** One block over the whole heap; for a heap too small for a header, a block larger than the address space. */
    constructor (heapStart: nat, heapSize: nat, heapLimit: nat)
      requires 0 < heapStart && 0 < heapSize < ADDRESSES
      ensures Valid() <==> HEADER <= heapSize
      ensures start == heapStart && limit == heapLimit && ceiling == heapStart + heapSize && live == map[]
      ensures |free| == 1 && free[0].addr == heapStart
      ensures if HEADER <= heapSize then free[0].End() == ceiling else free[0].End() > heapStart + ADDRESSES
    {
      start, limit := heapStart, heapLimit;
      freeList := heapStart;
      var size := (heapSize + ADDRESSES - HEADER) % ADDRESSES;
      hdr := map[heapStart := Header(HEAP_MAGIC, size, NULL)];
      ceiling := heapStart + heapSize;
      remaining := HEADER + size;
      free := [Block(heapStart, size)];
      live, refusals := map[], 0;
      new;
      if HEADER <= heapSize {
        forall a ensures Covers(free, a) <==> start <= a < ceiling && !InLive(live, a) {
          if start <= a < ceiling { assert free[0].Contains(a); }
        }
      }
      assert TotalBytes(free[..0]) == 0;
    }

    method UpdateRemaining()
      requires Linked(hdr, freeList, free)
      modifies this`remaining
      ensures remaining == TotalBytes(free)
    {
      var total := 0;
      var current := freeList;
      ghost var i := 0;
      while current != NULL
        invariant i <= |free|
        invariant current == if i < |free| then free[i].addr else NULL
        invariant total == TotalBytes(free[..i])
        decreases |free| - i
      {
        assert HeaderOf(hdr, free, i);
        assert free[..i + 1][..i] == free[..i];
        total := total + HEADER + hdr[current].size;
        current := hdr[current].next;
        i := i + 1;
      }
      assert free[..i] == free;
      remaining := total;
    }

    /**
     * One pass that joins touching neighbours. It stops with an error exactly when some header after the
     * first lost its magic; otherwise the list comes out coalesced over the same bytes.
     */
    method Merge() returns (st: Status)
      requires Linked(hdr, freeList, free) && Ordered(free)
      modifies this`hdr, this`free, this`remaining
      ensures st == Error <==> exists k :: 1 <= k && LostMagic(old(hdr), old(free), k)
      ensures Linked(hdr, freeList, free) && Ordered(free) && SameBytes(old(free), free)
      ensures st == Ok ==> Canonical(free) && remaining == TotalBytes(free)
      ensures Sealed(old(hdr), old(free)) ==> Sealed(hdr, free)
      ensures SameOutside(old(hdr), hdr, old(free))
    {
      hide SameBytes, Ordered, Canonical, Linked, MergeProgress, HeadersKept, Merged;
      var current := freeList;
      ghost var i, m := 0, 0;
      ghost var free0, hdr0 := free, hdr;
      MergeStart(hdr, freeList, free);
      while current != NULL && hdr[current].next != NULL
        invariant MergeProgress(hdr0, free0, hdr, freeList, free, i, m)
        invariant current == AddrAt(free, i)
        invariant current != NULL ==> i < |free| && HeaderOf(hdr, free, i)
        decreases |free| - i
      {
        var next := hdr[current].next;
        MergeNext(hdr0, free0, hdr, freeList, free, i, m);
        if hdr[next].magic != HEAP_MAGIC {
          MergeKept(hdr0, free0, hdr, freeList, free, i, m);
          return Error;
        }
        if current + HEADER + hdr[current].size == next {
          ghost var hdr1, free1 := hdr, free;
          hdr := hdr[current := hdr[current].(size := hdr[current].size + HEADER + hdr[next].size)];
          hdr := hdr[current := hdr[current].(next := hdr[next].next)];
          free := Merged(free, i);
          MergeJoin(hdr0, free0, hdr1, freeList, free1, i, m, hdr[current]);
          assert hdr == hdr1[current := hdr[current]];
        } else {
          MergeAdvance(hdr0, free0, hdr, freeList, free, i, m);
          current := next;
          i := i + 1;
        }
        m := m + 1;
      }
      MergeDone(hdr0, free0, hdr, freeList, free, i, m);
      UpdateRemaining();
      st := Ok;
    }

    /** __kfree: link the block at `ptr - HEADER` back in address order, then coalesce. */
    method Release(ptr: nat) returns (st: Status)
      requires ptr > HEADER && ptr - HEADER in hdr
      requires ListOk()
      requires hdr[ptr - HEADER].magic == HEAP_MAGIC && !IsListed(free, ptr - HEADER)
               ==> ClearOf(free, Block(ptr - HEADER, hdr[ptr - HEADER].size))
      modifies this`hdr, this`free, this`freeList, this`remaining
      ensures st == Ok <==> old(hdr[ptr - HEADER].magic == HEAP_MAGIC && !IsListed(free, ptr - HEADER))
      ensures st == Error ==>
                hdr == old(hdr) && free == old(free) && freeList == old(freeList) && remaining == old(remaining)
      ensures ListOk()
      ensures st == Ok ==> remaining == TotalBytes(free)
      ensures st == Ok ==> forall a :: Covers(free, a) <==>
                old(Covers(free, a)) || Block(ptr - HEADER, old(hdr[ptr - HEADER].size)).Contains(a)
      ensures hdr.Keys == old(hdr.Keys)
      ensures forall p :: p in hdr && p != ptr - HEADER && !IsListed(old(free), p) ==> hdr[p] == old(hdr[p])
    {
      hide SameBytes, Ordered, Covers, Linked, Canonical, ClearOf, AddrAt, TotalBytes;
      var addr := ptr - HEADER;
      if hdr[addr].magic != HEAP_MAGIC {
        return Error;
      }
      var prev, current;
      ghost var k;
      prev, current, k := FindPlace(addr);
      if current == addr {
        assert IsListed(free, addr);
        return Error;
      }
      ReleasePosition(free, k, addr);
      LinkIn(addr, prev, current, k);
      ghost var inserted := free;
      st := Merge();
      SameBytesCovers(inserted, free);
    }

    /** Links the block at `addr` between its neighbours. */
    method LinkIn(addr: nat, prev: nat, current: nat, ghost k: nat)
      requires ListOk() && addr != NULL && addr in hdr && hdr[addr].magic == HEAP_MAGIC
      requires ClearOf(free, Block(addr, hdr[addr].size))
      requires k <= |free| && current == (if k < |free| then free[k].addr else NULL)
      requires prev == (if k == 0 then NULL else free[k - 1].addr)
      requires forall i :: 0 <= i < |free| ==> free[i].addr != addr && (i < k <==> free[i].addr < addr)
      modifies this`hdr, this`free, this`freeList
      ensures Linked(hdr, freeList, free) && Ordered(free) && Sealed(hdr, free) && hdr.Keys == old(hdr.Keys)
      ensures forall a :: Covers(free, a) <==> old(Covers(free, a)) || Block(addr, old(hdr[addr].size)).Contains(a)
      ensures forall p :: p in hdr && p != addr && !IsListed(old(free), p) ==> hdr[p] == old(hdr[p])
      ensures forall p :: IsListed(free, p) ==> p == addr || IsListed(old(free), p)
    {
      hide Ordered, Covers, Linked, Canonical, Sealed, ClearOf;
      ghost var s, hdr0 := free, hdr;
      LinkedIn(hdr, freeList, s);
      ghost var b := Block(addr, hdr[addr].size);
      hdr := hdr[addr := hdr[addr].(next := current)];
      if prev == NULL {
        freeList := addr;
      } else {
        hdr := hdr[prev := hdr[prev].(next := addr)];
      }
      free := Inserted(s, k, b);
      ReleaseLinked(hdr0, old(freeList), s, k, b, hdr);
      InsertCovers(s, k, b, free);
    }

    /** Walks the list to the first block at or after `addr`. */
    method FindPlace(addr: nat) returns (prev: nat, current: nat, ghost k: nat)
      requires Linked(hdr, freeList, free)
      ensures k <= |free| && current == (if k < |free| then free[k].addr else NULL)
      ensures prev == (if k == 0 then NULL else free[k - 1].addr)
      ensures k < |free| ==> addr <= free[k].addr
      ensures forall i :: 0 <= i < k ==> free[i].addr < addr
    {
      prev, current, k := NULL, freeList, 0;
      while current != NULL && current < addr
        invariant k <= |free| && current == AddrAt(free, k)
        invariant prev == if k == 0 then NULL else free[k - 1].addr
        invariant forall i :: 0 <= i < k ==> free[i].addr < addr
        decreases |free| - k
      {
        assert HeaderOf(hdr, free, k);
        prev := current;
        current := hdr[current].next;
        k := k + 1;
      }
      assert k < |free| ==> HeaderOf(hdr, free, k);
    }

    /** Write the headers of a split of block `k`, if one is worthwhile. */
    method Cut(current: nat, size: nat, ghost k: nat) returns (h: map<nat, Header>)
      requires ListOk() && k < |free| && free[k].size >= size && current == free[k].addr
      ensures Linked(h, freeList, CutList(free, k, size)) && Ordered(CutList(free, k, size))
      ensures hdr.Keys <= h.Keys
      ensures current in h && h[current].magic == HEAP_MAGIC && h[current].size == Granted(free[k], size)
      ensures forall p :: p in hdr && !free[k].Contains(p) ==> h[p] == hdr[p]
      ensures Sealed(h, Taken(free, k, size))
    {
      hide Linked, Ordered, Canonical, SplitAt, Taken;
      LinkedIn(hdr, freeList, free);
      CanonicalOrdered(free);
      assert free[k].Contains(current);
      h := hdr;
      if h[current].size >= size + HEADER + 1 {
        var rest := current + HEADER + size;
        assert free[k].Contains(rest);
        h := h[rest := Header(HEAP_MAGIC, h[current].size - size - HEADER, h[current].next)];
        h := h[current := h[current].(size := size)];
        h := h[current := h[current].(next := rest)];
        SplitLinked(hdr, freeList, free, k, size, h[current], h);
      }
      TakeSealed(hdr, h, free, k, size);
    }

    /** The header writes of an allocation: an optional split, then unlinking block `k`. */
    method CutAndUnlink(prev: nat, current: nat, size: nat, ghost k: nat) returns (h: map<nat, Header>, head: nat)
      requires ListOk() && k < |free| && free[k].size >= size
      requires current == free[k].addr && prev == if k == 0 then NULL else free[k - 1].addr
      ensures Linked(h, head, Taken(free, k, size)) && Sealed(h, Taken(free, k, size))
      ensures Canonical(Taken(free, k, size))
      ensures TakeFrame(hdr, h, free, k)
      ensures current in h && h[current].magic == HEAP_MAGIC && h[current].size == Granted(free[k], size)
    {
      hide Ordered, Linked, Canonical, CutList, Taken, NextAddr;
      h := Cut(current, size, k);
      head := freeList;
      ghost var s, h1 := CutList(free, k, size), h;
      LinkedIn(h, head, s);
      LinkedIn(hdr, freeList, free);
      CanonicalOrdered(free);
      CutListAt(free, k, size);
      TakenCanonical(free, k, size);
      if prev == NULL {
        head := h[current].next;
      } else {
        h := h[prev := h[prev].(next := h[current].next)];
      }
      RemoveLinked(h1, freeList, s, k, h);
    }

    /** Split if worthwhile and unlink block `k`: the fitting branch of __kmalloc. */
    method Take(prev: nat, current: nat, size: nat, ghost k: nat) returns (ptr: nat)
      requires Valid() && k < |free| && free[k].size >= size
      requires current == free[k].addr && prev == if k == 0 then NULL else free[k - 1].addr
      modifies this`hdr, this`free, this`freeList, this`remaining, this`live
      ensures Valid()
      ensures ptr == current + HEADER && current !in old(live)
      ensures free == Taken(old(free), k, size)
      ensures live == old(live)[current := Granted(old(free)[k], size)]
      ensures live[current] == if old(free)[k].size >= size + HEADER + 1 then size else old(free)[k].size
      ensures size <= live[current] <= size + HEADER && remaining == old(remaining) - HEADER - live[current]
    {
      hide Covers, InLive, Canonical, Ordered, Tiles, Sealed, Linked, Taken, SplitAt, TakeFrame;
      ghost var hdr0 := hdr;
      TilesTake(start, ceiling, free, live, k, size);
      TakenTotal(free, k, size);
      hdr, freeList := CutAndUnlink(prev, current, size, k);
      forall p | p in live ensures p in hdr && hdr[p] == hdr0[p] {
        TakeKeepsLive(start, ceiling, hdr0, hdr, free, live, k, p);
      }
      live := live[current := Granted(free[k], size)];
      free := Taken(free, k, size);
      UpdateRemaining();
      ptr := current + HEADER;
    }

    /**
     * Ask the VMM for one more step at the ceiling and free it into the list.
     * The VMM may refuse; nothing has changed then.
     */
    method Grow() returns (ok: bool)
      requires Valid()
      modifies this`hdr, this`free, this`freeList, this`remaining, this`ceiling, this`refusals
      ensures Valid() && refusals == old(refusals) + if ok then 0 else 1
      ensures !ok ==> ceiling == old(ceiling) && free == old(free)
      ensures ok ==> ceiling == old(ceiling) + ADDITION && free == Extended(old(free), old(ceiling), ADDITION)
    {
      hide Ordered, Covers, Canonical, Tiles, Linked, Extended;
      ok := *;
      if !ok {
        refusals := refusals + 1;
        return;
      }
      ghost var f0, hdr0 := free, hdr;
      var newBlock := ceiling;
      BeyondCeiling(start, ceiling, free, live);
      LinkedFrame(hdr, freeList, free, newBlock, Header(HEAP_MAGIC, ADDITION - HEADER, NULL));
      hdr := hdr[newBlock := Header(HEAP_MAGIC, ADDITION - HEADER, NULL)];
      var st := Release(newBlock + HEADER);
      GrownList(start, ceiling, f0, free, live);
      TilesGrow(start, ceiling, f0, live, ADDITION);
      LiveHeadersKept(start, ceiling, f0, live, hdr0, hdr, newBlock);
      ceiling := ceiling + ADDITION;
      UpdateRemaining();
    }

    /** kfree on a pointer the allocator handed out, or on one whose header it rejects. */
    method Kfree(ptr: nat) returns (st: Status)
      requires Valid()
      requires ptr > HEADER ==> ptr - HEADER in hdr
      requires ptr > HEADER && hdr[ptr - HEADER].magic == HEAP_MAGIC ==>
                 ptr - HEADER in live || IsListed(free, ptr - HEADER)
      modifies this
      ensures Valid() && ceiling == old(ceiling)
      ensures st == Ok <==> ptr > HEADER && ptr - HEADER in old(live)
      ensures st == Ok ==> live == old(live) - {ptr - HEADER}
      ensures st == Error ==> live == old(live) && free == old(free) && hdr == old(hdr)
    {
      hide Ordered, Covers, Canonical, Tiles, Linked, Sealed, ClearOf, LiveHeaders, IsListed;
      if ptr <= HEADER {
        return Error;
      }
      ghost var addr, f0, hdr0, live0 := ptr - HEADER, free, hdr, live;
      if addr in live {
        LiveUnlisted(start, ceiling, free, live, addr);
        LiveHeaderAt(hdr, live, addr);
      }
      st := Release(ptr);
      if st == Ok {
        live := live - {addr};
        TilesFree(start, ceiling, f0, free, live0, addr);
        LiveHeadersKept(start, ceiling, f0, live0, hdr0, hdr, addr);
      }
    }

    /** The first block of the list that is large enough. */
    method FindFit(size: nat) returns (current: nat, prev: nat)
      requires Linked(hdr, freeList, free)
      ensures FirstFit(free, size) <= |free|
      ensures prev == (if FirstFit(free, size) == 0 then NULL else free[FirstFit(free, size) - 1].addr)
      ensures current == NULL <==> FirstFit(free, size) == |free|
      ensures current != NULL ==> current == free[FirstFit(free, size)].addr && free[FirstFit(free, size)].size >= size
    {
      hide Linked, FirstFit;
      LinkedIn(hdr, freeList, free);
      LinkedHead(hdr, freeList, free);
      current, prev := freeList, NULL;
      ghost var k := 0;
      while current != NULL
        invariant k <= |free| && current == AddrAt(free, k)
        invariant prev == if k == 0 then NULL else free[k - 1].addr
        invariant forall i :: 0 <= i < k ==> free[i].size < size
        decreases |free| - k
      {
        if hdr[current].size >= size {
          break;
        }
        prev := current;
        current := hdr[current].next;
        k := k + 1;
      }
      FirstFitIs(free, size, k);
    }

    /**
     * kmalloc. The heap grows only while nothing fits; the request then takes the first fit. `grown` counts the
     * growth steps.
     */
    method Kmalloc(size: nat) returns (ptr: nat, ghost grown: nat)
      requires Valid()
      modifies this
      ensures Valid()
      ensures ceiling == old(ceiling) + grown * ADDITION
      ensures size == 0 ==> ptr == NULL && grown == 0
      ensures forall g :: 0 <= g < grown ==> NoFitAfter(old(free), old(ceiling), g, size)
      ensures Outcome(Extended(old(free), old(ceiling), grown * ADDITION), old(live), size, ptr, free, live)
      ensures refusals == old(refusals) || (refusals == old(refusals) + 1 && ptr == NULL)
      ensures size > 0 && refusals == old(refusals) ==>
                (ptr != NULL <==> Satisfiable(old(free), old(ceiling), limit, size))
      ensures ptr == NULL ==> remaining == old(remaining) + grown * ADDITION
      ensures ptr != NULL ==>
                var f := Extended(old(free), old(ceiling), grown * ADDITION);
                var k := FirstFit(f, size);
                && k < |f| && ptr > HEADER && ptr - HEADER in live
                && live[ptr - HEADER] == (if f[k].size >= size + HEADER + 1 then size else f[k].size)
                && size <= live[ptr - HEADER] <= size + HEADER
                && remaining == old(remaining) + grown * ADDITION - HEADER - live[ptr - HEADER]
    {
      hide Tiles, Linked, Canonical, Sealed, Extended, Satisfiable, Taken, FirstFit, LiveHeaders;
      grown, ptr := 0, NULL;
      ghost var f0, c0 := free, ceiling;
      ExtendedByNothing(f0, c0);
      if size == 0 {
        return;
      }
      while true
        invariant Valid() && live == old(live)
        invariant ceiling == c0 + grown * ADDITION && free == Extended(f0, c0, grown * ADDITION)
        invariant forall g :: 0 <= g < grown ==> NoFitAfter(f0, c0, g, size)
        invariant Satisfiable(f0, c0, limit, size) <==> Satisfiable(free, ceiling, limit, size)
        invariant ptr == NULL && refusals == old(refusals) && remaining == old(remaining) + grown * ADDITION
        decreases limit - ceiling
      {
        var current, prev := FindFit(size);
        if current != NULL {
          FitSatisfies(free, ceiling, limit, size);
          ptr := Take(prev, current, size, FirstFit(free, size));
          return;
        }
        if ADDITION + ceiling > limit {
          NoStepsNoFit(free, ceiling, limit, size);
          break;
        }
        assert NoFitAfter(f0, c0, grown, size);
        GrowKeepsSatisfiable(free, ceiling, limit, size);
        var ok := Grow();
        if !ok {
          break;
        }
        ExtendTwice(f0, c0, grown * ADDITION, ADDITION);
        ExtendedTotal(f0, c0, grown * ADDITION + ADDITION);
        grown := grown + 1;
      }
    }

    /** kfree undoes kmalloc: only heap growth is left behind, as free space at the top. */
    method AllocThenFree(size: nat) returns (ptr: nat, ghost grown: nat)
      requires Valid()
      modifies this
      ensures Valid() && live == old(live) && ceiling == old(ceiling) + grown * ADDITION
      ensures free == Extended(old(free), old(ceiling), grown * ADDITION)
      ensures grown == 0 ==> free == old(free) && remaining == old(remaining)
    {
      hide Tiles, Linked, Canonical, Sealed, Extended, Satisfiable, Outcome, IsListed, NoFitAfter;
      ghost var f0, c0, live0 := free, ceiling, live;
      ptr, grown := Kmalloc(size);
      ExtendedByNothing(f0, c0);
      OutcomeLive(Extended(f0, c0, grown * ADDITION), live0, size, ptr, free, live);
      if ptr != NULL {
        LiveHeaderAt(hdr, live, ptr - HEADER);
        var st := Kfree(ptr);
        if grown > 0 { TilesGrow(start, c0, f0, live0, grown * ADDITION); }
        LiveDeterminesFree(start, ceiling, free, Extended(f0, c0, grown * ADDITION), live0);
      }
    }

    /** Freeing every live block, in any order, leaves one free block spanning the heap. */
    method FreeAll(order: seq<nat>)
      requires Valid()
      requires forall i, j :: 0 <= i < j < |order| ==> order[i] != order[j]
      requires forall p :: p in live <==> p in order
      modifies this
      ensures Valid() && live == map[] && ceiling == old(ceiling)
      ensures free == [Block(start, ceiling - start - HEADER)]
      ensures remaining == ceiling - start
    {
      hide Tiles, Linked, Canonical, Sealed, IsListed, LiveHeaders;
      for i := 0 to |order|
        invariant Valid() && ceiling == old(ceiling)
        invariant forall p :: p in live <==> p in order[i..]
      {
        assert order[i..] == [order[i]] + order[i + 1..];
        LiveHeaderAt(hdr, live, order[i]);
        LiveAboveStart(start, ceiling, free, live, order[i]);
        var st := Kfree(order[i] + HEADER);
      }
      assert live == map[];
      EmptyHeapIsOneBlock(start, ceiling, free);
      assert free[..0] == [] && TotalBytes(free[..0]) == 0;
    }

    /**
     * A client that allocates, and frees what it holds, in any order and number: the heap invariant
     * holds throughout, and the blocks it holds are distinct and are exactly the live blocks it added, each with room
     * for what was asked.
     */
    method Run(ops: seq<Op>) returns (held: seq<nat>, sizes: seq<nat>)
      requires Valid()
      modifies this
      ensures Valid() && |sizes| == |held|
      ensures forall p :: p in live <==> p in old(live) || p in held
      ensures forall p :: p in old(live) ==> p in live && live[p] == old(live)[p]
      ensures forall i, j :: 0 <= i < j < |held| ==> held[i] != held[j]
      ensures forall i :: 0 <= i < |held| ==> held[i] in live && sizes[i] <= live[held[i]] <= sizes[i] + HEADER
    {
      hide Tiles, Linked, Canonical, Sealed, IsListed, LiveHeaders, Extended, Satisfiable, Outcome, NoFitAfter;
      held, sizes := [], [];
      for i := 0 to |ops|
        invariant Valid() && Holds(old(live), live, held, sizes)
      {
        match ops[i]
        case Alloc(n) =>
          ghost var f0, c0, live0 := free, ceiling, live;
          var ptr, grown := Kmalloc(n);
          OutcomeLive(Extended(f0, c0, grown * ADDITION), live0, n, ptr, free, live);
          if ptr != NULL {
            HoldsMore(old(live), live0, live, held, sizes, ptr - HEADER, n);
            held, sizes := held + [ptr - HEADER], sizes + [n];
          }
        case Free(k) =>
          if k < |held| {
            assert held[k] in held;
            LiveHeaderAt(hdr, live, held[k]);
            LiveAboveStart(start, ceiling, free, live, held[k]);
            HoldsRemove(old(live), live, held, sizes, k);
            var st := Kfree(held[k] + HEADER);
            held, sizes := Drop(held, k), Drop(sizes, k);
          }
      }
    }
  }
}
