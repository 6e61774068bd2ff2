/** Address-ordered lists of heap blocks, and why a coalesced list is determined by the bytes it covers. */
module FreeList {

  /** sizeof(block_header_t): three machine words. */
  const HEADER: nat := 24

  /** A block of `size` payload bytes whose header starts at `addr`. */
  datatype Block = Block(addr: nat, size: nat) {
    function End(): nat { addr + HEADER + size }

    predicate Contains(a: int) { addr <= a < End() }
  }

  /** Blocks in address order that do not overlap; neighbours may touch. */
  ghost predicate Ordered(s: seq<Block>) {
    forall i, j :: 0 <= i < j < |s| ==> s[i].End() <= s[j].addr
  }

  /** Ordered, and no block touches the next one. */
  ghost predicate Canonical(s: seq<Block>) {
    forall i, j :: 0 <= i < j < |s| ==> s[i].End() < s[j].addr
  }

  ghost predicate Covers(s: seq<Block>, a: int) {
    exists i :: 0 <= i < |s| && s[i].Contains(a)
  }

  ghost predicate SameBytes(s: seq<Block>, t: seq<Block>) {
    forall a :: Covers(s, a) <==> Covers(t, a)
  }

  /** Total bytes of a list, headers included: what update_remaining_heap_size adds up. */
  function TotalBytes(s: seq<Block>): nat {
    if s == [] then 0 else TotalBytes(s[..|s| - 1]) + HEADER + s[|s| - 1].size
  }

  lemma {:induction false} TotalJoin(s: seq<Block>, t: seq<Block>)
    ensures TotalBytes(s + t) == TotalBytes(s) + TotalBytes(t)
  {
    if t == [] {
      assert s + t == s;
    } else {
      var n := |t| - 1;
      TotalJoin(s, t[..n]);
      assert (s + t)[..|s + t| - 1] == s + t[..n];
    }
  }

  lemma TotalNone()
    ensures TotalBytes([]) == 0
  {}

  lemma TotalOne(b: Block)
    ensures TotalBytes([b]) == HEADER + b.size
  {
    assert [b][..0] == [];
  }

  lemma CoversHead(s: seq<Block>, a: int)
    requires |s| > 0
    ensures Covers(s, a) <==> s[0].Contains(a) || Covers(s[1..], a)
  {
    if Covers(s, a) && !s[0].Contains(a) {
      var i :| 0 <= i < |s| && s[i].Contains(a);
      assert s[1..][i - 1] == s[i];
    }
    if Covers(s[1..], a) {
      var i :| 0 <= i < |s[1..]| && s[1..][i].Contains(a);
      assert s[i + 1].Contains(a);
    }
  }

  /** Two coalesced lists that cover the same bytes are the same list. */
  lemma {:induction false} CanonicalUnique(s: seq<Block>, t: seq<Block>)
    requires Canonical(s) && Canonical(t)
    requires SameBytes(s, t)
    ensures s == t
  {
    if s == [] {
      if t != [] { FirstCovered(t); }
    } else if t == [] {
      FirstCovered(s);
    } else {
      FirstNotAbove(s, t);
      FirstNotAbove(t, s);
      FirstNotLonger(s, t);
      FirstNotLonger(t, s);
      assert s[0] == t[0];
      forall a ensures Covers(s[1..], a) <==> Covers(t[1..], a) {
        CoversHead(s, a);
        CoversHead(t, a);
        if Covers(s[1..], a) { TailAbove(s, a); }
        if Covers(t[1..], a) { TailAbove(t, a); }
      }
      CanonicalUnique(s[1..], t[1..]);
      assert s == [s[0]] + s[1..] && t == [t[0]] + t[1..];
    }
  }

  lemma FirstCovered(s: seq<Block>)
    requires |s| > 0
    ensures Covers(s, s[0].addr)
  {
    assert s[0].Contains(s[0].addr);
  }

  lemma TailAbove(s: seq<Block>, a: int)
    requires Canonical(s) && |s| > 0
    requires Covers(s[1..], a)
    ensures !s[0].Contains(a)
  {
    var i :| 0 <= i < |s[1..]| && s[1..][i].Contains(a);
    assert s[i + 1].Contains(a);
  }

  lemma FirstNotAbove(s: seq<Block>, t: seq<Block>)
    requires Canonical(s) && Canonical(t) && |s| > 0 && |t| > 0
    requires SameBytes(s, t)
    ensures t[0].addr <= s[0].addr
  {
    FirstCovered(s);
    var i :| 0 <= i < |t| && t[i].Contains(s[0].addr);
  }

  lemma FirstNotLonger(s: seq<Block>, t: seq<Block>)
    requires Canonical(s) && Canonical(t) && |s| > 0 && |t| > 0
    requires SameBytes(s, t) && s[0].addr == t[0].addr
    ensures t[0].End() <= s[0].End()
  {
    if t[0].End() > s[0].End() {
      assert t[0].Contains(s[0].End());
      assert Covers(t, s[0].End());
    }
  }

  /** `s` with blocks `i` and `i + 1` replaced by one block spanning both. */
  ghost function Merged(s: seq<Block>, i: nat): seq<Block>
    requires i + 1 < |s|
  {
    s[..i] + [Block(s[i].addr, s[i].size + HEADER + s[i + 1].size)] + s[i + 2..]
  }

  lemma MergedAt(s: seq<Block>, i: nat, k: nat)
    requires i + 1 < |s| && k < |s| - 1
    ensures Merged(s, i)[k] == if k < i then s[k]
                               else if k == i then Block(s[i].addr, s[i].size + HEADER + s[i + 1].size)
                               else s[k + 1]
  {}

  /** Replacing two touching neighbours by their union keeps order and bytes. */
  lemma MergePair(s: seq<Block>, i: nat)
    requires i + 1 < |s| && Ordered(s)
    requires s[i].End() == s[i + 1].addr
    ensures Ordered(Merged(s, i)) && SameBytes(s, Merged(s, i))
  {
    var r := Merged(s, i);
    forall j, k | 0 <= j < k < |r| ensures r[j].End() <= r[k].addr {
      MergedAt(s, i, j);
      MergedAt(s, i, k);
      assert s[if j < i then j else j + 1].End() <= s[if k <= i then k else k + 1].addr;
    }
    forall a ensures Covers(s, a) <==> Covers(r, a) { MergedCovers(s, i, a); }
  }

  lemma MergedCovers(s: seq<Block>, i: nat, a: int)
    requires i + 1 < |s| && s[i].End() == s[i + 1].addr
    ensures Covers(s, a) <==> Covers(Merged(s, i), a)
  {
    var r := Merged(s, i);
    if Covers(s, a) {
      var k :| 0 <= k < |s| && s[k].Contains(a);
      var k' := if k <= i then k else k - 1;
      MergedAt(s, i, k');
      assert r[k'].Contains(a);
    }
    if Covers(r, a) {
      var k :| 0 <= k < |r| && r[k].Contains(a);
      MergedAt(s, i, k);
      assert s[if k < i || (k == i && a < s[i].End()) then k else k + 1].Contains(a);
    }
  }

  /** Inserting a block between its neighbours adds exactly its bytes. */
  lemma InsertCovers(s: seq<Block>, k: nat, b: Block, r: seq<Block>)
    requires k <= |s| && r == s[..k] + [b] + s[k..]
    ensures forall a :: Covers(r, a) <==> Covers(s, a) || b.Contains(a)
  {
    forall a ensures Covers(r, a) <==> Covers(s, a) || b.Contains(a) {
      if Covers(s, a) {
        var i :| 0 <= i < |s| && s[i].Contains(a);
        assert r[if i < k then i else i + 1].Contains(a);
      }
      if b.Contains(a) {
        assert r[k].Contains(a);
      }
      if Covers(r, a) {
        var i :| 0 <= i < |r| && r[i].Contains(a);
        if i != k { assert s[if i < k then i else i - 1].Contains(a); }
      }
    }
  }

  ghost function Bytes(lo: int, hi: int): (r: set<int>)
    requires lo <= hi
    ensures forall a :: a in r <==> lo <= a < hi
    ensures |r| == hi - lo
    decreases hi - lo
  {
    if lo == hi then {} else Bytes(lo, hi - 1) + {hi - 1}
  }

  /** The bytes covered by a list, as a set. */
  ghost function CoveredBytes(s: seq<Block>): (r: set<int>)
    ensures forall a :: a in r <==> Covers(s, a)
  {
    if s == [] then {}
    else
      var n := |s| - 1;
      assert s == s[..n] + [s[n]] + s[..n][n..];
      InsertCovers(s[..n], n, s[n], s);
      CoveredBytes(s[..n]) + Bytes(s[n].addr, s[n].End())
  }

  lemma PrefixBelowLast(s: seq<Block>, a: int)
    requires Ordered(s) && |s| > 0
    requires Covers(s[..|s| - 1], a)
    ensures a < s[|s| - 1].addr
  {
    var n := |s| - 1;
    var i :| 0 <= i < n && s[..n][i].Contains(a);
    assert s[i].End() <= s[n].addr;
  }

  /** The total of an ordered list counts the bytes it covers. */
  lemma {:induction false} TotalBytesCounts(s: seq<Block>)
    requires Ordered(s)
    ensures |CoveredBytes(s)| == TotalBytes(s)
  {
    if s != [] {
      var n := |s| - 1;
      TotalBytesCounts(s[..n]);
      var rest, last := CoveredBytes(s[..n]), Bytes(s[n].addr, s[n].End());
      assert rest !! last by {
        forall a | a in rest ensures a < s[n].addr { PrefixBelowLast(s, a); }
      }
      assert CoveredBytes(s) == rest + last;
    }
  }
}
