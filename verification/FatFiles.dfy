/** File contents over cluster chains: reading a file and writing a new one. */
module FatFiles {
  import opened Common
  import opened FatLayout
  import opened FatChains
  import opened Fat32

  ghost predicate InData(data: seq<seq<byte>>, s: seq<nat>) { forall i :: 0 <= i < |s| ==> 2 <= s[i] < |data| }

  ghost predicate NoRepeat(s: seq<nat>) { forall i, j :: 0 <= i < j < |s| ==> s[i] != s[j] }

  /** What the volume invariant says about one chain. */
  lemma ChainFacts(v: Volume, h: nat)
    requires v.Valid() && h in v.chains
    ensures var s := v.chains[h];
            |s| > 0 && IsChain(v.fat, v.g.maxCluster, s) && s[0] == h && InData(v.data, s) && NoRepeat(s)
                && |v.data| == v.g.maxCluster
  {
    var s := v.chains[h];
    ForestChain(v.fat, v.g.maxCluster, v.chains, h);
    FatSize(v.disk, v.g, v.fat, v.data);
    hide Represents, Forest, TailFull, IsChain;
    forall i | 0 <= i < |s| ensures 2 <= s[i] < |v.data| { ChainInUse(v.fat, v.g.maxCluster, s, i); }
    forall i, j | 0 <= i < j < |s| ensures s[i] != s[j] { ChainNoRepeat(v.fat, v.g.maxCluster, s, i, j); }
  }

  lemma VolumeUniform(v: Volume)
    requires v.Valid()
    ensures Uniform(v.data, v.g.ClusterSize()) && |v.data| == v.g.maxCluster && v.g.ClusterSize() > 0
  {
    FatSize(v.disk, v.g, v.fat, v.data);
    forall c | 2 <= c < |v.data| ensures |v.data[c]| == v.g.ClusterSize() { DataRead(v.disk, v.g, v.fat, v.data, c); }
  }

  // ---------------------------------------------------------------- reading

  function Min(a: nat, b: nat): nat { if a < b then a else b }

  lemma {:induction false} FileBytesPrefix(data: seq<seq<byte>>, s: seq<nat>, k: nat)
    requires InData(data, s) && k <= |s|
    ensures FileBytes(data, s[..k]) <= FileBytes(data, s)
  {
    if k < |s| {
      FileBytesPrefix(data, s[..|s| - 1], k);
      assert s[..|s| - 1][..k] == s[..k];
    } else {
      assert s[..k] == s;
    }
  }

  /** Reading one more cluster of the chain, up to `size` bytes in all. */
  lemma ReadStep(data: seq<seq<byte>>, s: seq<nat>, cs: nat, k: nat, size: nat, out: seq<byte>, n: nat)
    requires InData(data, s) && Uniform(data, cs) && k < |s| && out == FileBytes(data, s[..k]) && |out| <= size
    requires n == Min(size - |out|, cs)
    ensures n <= |data[s[k]]|
    ensures var out' := out + data[s[k]][..n];
            && |out'| == |out| + n
            && out' <= FileBytes(data, s)
            && (|out'| < size ==> out' == FileBytes(data, s[..k + 1]))
  {
    assert s[..k + 1][..k] == s[..k];
    FileBytesPrefix(data, s, k + 1);
    assert FileBytes(data, s[..k + 1]) == out + data[s[k]];
  }

  /** Copies up to `size` bytes of the file at `start`; `out` is what has been copied. */
  method ReadFile(v: Volume, start: nat, size: nat) returns (st: Status, out: seq<byte>)
    requires v.Valid() && (start < 2 || start in v.chains)
    modifies v`faults
    ensures v.faults >= old(v.faults)
    ensures st == Error <==> start < 2 || v.faults > old(v.faults)
    ensures st == Ok ==> start in v.chains && InData(v.data, v.chains[start])
    ensures st == Ok ==>
              out <= FileBytes(v.data, v.chains[start]) && |out| == Min(size, |FileBytes(v.data, v.chains[start])|)
  {
    hide Represents, Forest, TailFull, IsChain, FileBytes, LowBits;
    out := [];
    FatSize(v.disk, v.g, v.fat, v.data);
    VolumeUniform(v);
    var cs := v.g.ClusterSize();
    var noBuffer := v.Fails();
    if noBuffer {
      return Error, out;
    }
    var current: nat := start;
    ghost var k := 0;
    ghost var s := if start < 2 then [] else v.chains[start];
    if start >= 2 {
      ChainFacts(v, start);
      NoBytes(v.data, s);
    }
    while true
      invariant v.Valid() && current < v.g.maxCluster
      invariant start >= 2 ==> IsChain(v.fat, v.g.maxCluster, s) && InData(v.data, s) && s == v.chains[start]
      invariant v.faults >= old(v.faults)
      invariant current == 0 && start >= 2 ==> v.faults > old(v.faults)
      invariant current >= 2 ==> k < |s| && current == s[k] && v.faults == old(v.faults)
      invariant current >= 2 ==> out == FileBytes(v.data, s[..k]) && |out| <= size
      invariant current < 2 ==> start < 2 || current == 0
      invariant start < 2 ==> current < 2
      decreases if current < 2 then 0 else |s| - k
    {
      var temp;
      st, temp := v.ReadCluster(current);
      if st == Error {
        return;
      }
      var n := Min(size - |out|, cs);
      ReadStep(v.data, s, cs, k, size, out, n);
      ChainStep(v.fat, v.g.maxCluster, s, k);
      out := out + temp[..n];
      if |out| >= size {
        return;
      }
      var next := v.NextCluster(current);
      if next >= EOC_MIN {
        WholeChain(v.data, s, k);
        return;
      }
      current := next;
      k := k + 1;
    }
  }

  lemma NoBytes(data: seq<seq<byte>>, s: seq<nat>)
    requires InData(data, s)
    ensures FileBytes(data, s[..0]) == []
  {}

  lemma WholeChain(data: seq<seq<byte>>, s: seq<nat>, k: nat)
    requires InData(data, s) && k + 1 == |s|
    ensures s[..k + 1] == s
  {}

  // ---------------------------------------------------------------- writing a new file

  datatype Snapshot = Snapshot(fat: seq<nat>, data: seq<seq<byte>>, chains: map<nat, seq<nat>>, hint: nat)

  ghost function Now(v: Volume): Snapshot
    reads v
  {
    Snapshot(v.fat, v.data, v.chains, v.lastAllocated)
  }

  /** The clusters of `t`, in increasing order, are the first |t| free ones at or above max(2, hint). */
  ghost predicate FirstFree(fat: seq<nat>, hint: nat, t: seq<nat>) {
    && (forall j :: 0 <= j < |t| ==> 2 <= t[j] < |fat| && hint <= t[j] && IsFree(fat[t[j]]))
    && (forall i, j :: 0 <= i < j < |t| ==> t[i] < t[j])
    && (t != [] ==> forall d :: hint <= d <= Last(t) && 2 <= d < |fat| && IsFree(fat[d]) ==> d in t)
  }

  /** Block `j` of the file image: the buffer's bytes from `from` on, padded with zeros. */
  function Block(buf: seq<byte>, from: nat, cs: nat): (b: seq<byte>)
    ensures |b| == cs
  {
    seq(cs, q => if 0 <= q && from + q < |buf| then buf[from + q] else 0)
  }

  ghost predicate Blocks(data: seq<seq<byte>>, t: seq<nat>, buf: seq<byte>, cs: nat) {
    forall j :: 0 <= j < |t| ==> t[j] < |data| && data[t[j]] == Block(buf, j * cs, cs)
  }

  /** Links and data off `t` are as before. */
  ghost predicate SameOff(o: Snapshot, n: Snapshot, t: seq<nat>) {
    && |n.fat| == |o.fat| && |n.data| == |o.data|
    && (forall c :: 0 <= c < |o.fat| && c !in t ==> n.fat[c] == o.fat[c])
    && (forall c :: 0 <= c < |o.data| && c !in t ==> n.data[c] == o.data[c])
  }

  /** The first |t| blocks of the file are on disk, as one new chain. */
  ghost predicate Wrote(o: Snapshot, n: Snapshot, t: seq<nat>, buf: seq<byte>, cs: nat) {
    && FirstFree(o.fat, o.hint, t) && SameOff(o, n, t) && Blocks(n.data, t, buf, cs)
    && n.hint == (if t == [] then o.hint else Last(t))
    && (if t == [] then n.chains == o.chains else t[0] !in o.chains && n.chains == o.chains[t[0] := t])
  }

  /** Every chain, every link and every cluster in use is as before. */
  ghost predicate UsedKept(o: Snapshot, n: Snapshot) {
    && |n.fat| == |o.fat| && |n.data| == |o.data|
    && (forall k :: k in o.chains ==> k in n.chains && n.chains[k] == o.chains[k])
    && (forall c :: 0 <= c < |o.fat| && !IsFree(o.fat[c]) ==> n.fat[c] == o.fat[c])
    && (forall c :: 0 <= c < |o.data| && c < |o.fat| && !IsFree(o.fat[c]) ==> n.data[c] == o.data[c])
  }

  lemma WroteKeepsUsed(o: Snapshot, n: Snapshot, t: seq<nat>, buf: seq<byte>, cs: nat)
    requires Wrote(o, n, t, buf, cs)
    ensures UsedKept(o, n)
  {}

  /** Off `t` the same clusters are free. */
  ghost predicate SameFree(fat: seq<nat>, fat': seq<nat>, t: seq<nat>) {
    |fat'| == |fat| && forall d :: 0 <= d < |fat| && d !in t ==> IsFree(fat'[d]) == IsFree(fat[d])
  }

  /** The next free cluster after those of `t`. */
  lemma FirstFreeNext(fat: seq<nat>, hint: nat, fat': seq<nat>, hint': nat, t: seq<nat>, c: nat)
    requires FirstFree(fat, hint, t) && SameFree(fat, fat', t) && hint' == (if t == [] then hint else Last(t))
    requires LeastFree(fat', hint', c) && c !in t
    ensures FirstFree(fat, hint, t + [c])
  {
    hide IsFree;
    var u := t + [c];
    if t != [] { assert Last(t) == t[|t| - 1] && Last(t) in t; }
    forall d | hint <= d <= c && 2 <= d < |fat| && IsFree(fat[d]) ensures d in u {
      if d == c {
        assert u[|t|] == d;
      } else {
        NoneSkipped(fat, hint, fat', hint', t, c, d);
        var i :| 0 <= i < |t| && t[i] == d;
        assert u[i] == d;
      }
    }
  }

  lemma NoneSkipped(fat: seq<nat>, hint: nat, fat': seq<nat>, hint': nat, t: seq<nat>, c: nat, d: nat)
    requires FirstFree(fat, hint, t) && SameFree(fat, fat', t) && hint' == (if t == [] then hint else Last(t))
    requires LeastFree(fat', hint', c) && hint <= d < c && 2 <= d < |fat| && IsFree(fat[d])
    ensures d in t
  {
    assert IsFree(fat'[d]) || d in t;
  }

  /** The state after cluster `c` is claimed, and, behind the first block, after it is linked too. */
  ghost function Claimed(n: Snapshot, c: nat): Snapshot
    requires c < |n.fat|
  {
    Snapshot(n.fat[c := EOC], n.data, n.chains[c := [c]], c)
  }

  ghost function Linked(n: Snapshot, t: seq<nat>, c: nat): Snapshot
    requires c < |n.fat| && t != [] && Last(t) < |n.fat|
  {
    Snapshot(n.fat[c := EOC][Last(t) := c], n.data, n.chains[t[0] := t + [c]], c)
  }

  lemma WroteClaim(o: Snapshot, n: Snapshot, t: seq<nat>, buf: seq<byte>, cs: nat, c: nat)
    requires Wrote(o, n, t, buf, cs) && LeastFree(n.fat, n.hint, c) && !OnChain(n.chains, c) && c !in n.chains
    ensures c !in t && c !in o.chains && FirstFree(o.fat, o.hint, t + [c]) && UsedKept(o, Claimed(n, c))
    ensures t != [] ==>
              t[0] in n.chains && n.chains[t[0]] == t && 2 <= Last(t) < |n.fat| && UsedKept(o, Linked(n, t, c))
  {
    hide NoneFree, Blocks;
    if t != [] {
      assert t[0] in n.chains && n.chains[t[0]] == t;
      assert Last(t) == t[|t| - 1];
    }
    FirstFreeNext(o.fat, o.hint, n.fat, n.hint, t, c);
    assert (t + [c])[|t|] == c;
  }

  lemma WroteBlock(o: Snapshot, n: Snapshot, t: seq<nat>, buf: seq<byte>, cs: nat, c: nat)
    requires Wrote(o, n, t, buf, cs) && c !in t && c !in o.chains && FirstFree(o.fat, o.hint, t + [c]) && c < |n.data|
    ensures c < |n.fat| && (t != [] ==> Last(t) < |n.fat|)
    ensures var l := if t == [] then Claimed(n, c) else Linked(n, t, c);
            Wrote(o, l.(data := n.data[c := Block(buf, |t| * cs, cs)]), t + [c], buf, cs)
  {
    FirstFreeRange(o.fat, o.hint, t + [c]);
    hide FirstFree, Block, Blocks, SameOff;
    var u := t + [c];
    assert u[|t|] == c;
    var l := if t == [] then Claimed(n, c) else Linked(n, t, c);
    var d := n.data[c := Block(buf, |t| * cs, cs)];
    BlocksMore(n.data, t, buf, cs, c);
    SameOffMore(o, n, l.(data := d), t, c);
    if t != [] {
      assert u[|t| - 1] == Last(t) && u[0] == t[0];
      assert l.chains == o.chains[u[0] := u];
    } else {
      assert u == [c];
    }
  }

  lemma BlocksMore(data: seq<seq<byte>>, t: seq<nat>, buf: seq<byte>, cs: nat, c: nat)
    requires Blocks(data, t, buf, cs) && c !in t && c < |data|
    ensures Blocks(data[c := Block(buf, |t| * cs, cs)], t + [c], buf, cs)
  {
    hide Block;
    var u, data' := t + [c], data[c := Block(buf, |t| * cs, cs)];
    forall j | 0 <= j < |u| ensures u[j] < |data'| && data'[u[j]] == Block(buf, j * cs, cs) {
      if j < |t| { assert u[j] == t[j]; }
    }
  }

  lemma SameOffMore(o: Snapshot, n: Snapshot, m: Snapshot, t: seq<nat>, c: nat)
    requires SameOff(o, n, t) && c < |n.fat| && c < |n.data| && (t != [] ==> Last(t) < |n.fat|)
    requires m.fat == if t == [] then n.fat[c := EOC] else n.fat[c := EOC][Last(t) := c]
    requires |m.data| == |n.data| && forall d :: 0 <= d < |n.data| && d != c ==> m.data[d] == n.data[d]
    ensures SameOff(o, m, t + [c])
  {
    var u := t + [c];
    assert u[|t|] == c;
    assert t != [] ==> u[|t| - 1] == Last(t);
    assert forall d :: d in t ==> d in u;
  }

  lemma FirstFreeRange(fat: seq<nat>, hint: nat, t: seq<nat>)
    requires FirstFree(fat, hint, t)
    ensures forall j :: 0 <= j < |t| ==> 2 <= t[j] < |fat|
  {}

  /** A cleared cluster buffer with the remaining bytes copied in. */
  method FillBlock(buf: seq<byte>, from: nat, cs: nat) returns (temp: seq<byte>)
    requires from <= |buf|
    ensures temp == Block(buf, from, cs)
  {
    var left := |buf| - from;
    var n := if left > cs then cs else left;
    temp := seq(cs, _ => 0);
    temp := buf[from..from + n] + temp[n..];
  }

  /** Claims the next cluster of the file and links it behind the previous one. */
  method ClaimBlock(v: Volume, prev: nat, ghost o: Snapshot, ghost t: seq<nat>, ghost buf: seq<byte>) returns (c: nat)
    requires v.Valid() && Wrote(o, Now(v), t, buf, v.g.ClusterSize()) && prev == if t == [] then 0 else Last(t)
    modifies v
    ensures v.Valid() && v.faults >= old(v.faults) && UsedKept(o, Now(v))
    ensures c != 0 ==> v.faults == old(v.faults) && 2 <= c < v.g.maxCluster && c < |old(v.fat)| && c < |old(v.data)|
    ensures c != 0 ==>
              c !in t && c !in o.chains && FirstFree(o.fat, o.hint, t + [c]) && (t != [] ==> Last(t) < |old(v.fat)|)
    ensures c != 0 ==> Now(v) == if t == [] then Claimed(old(Now(v)), c) else Linked(old(Now(v)), t, c)
    ensures c == 0 && v.faults == old(v.faults) ==> NoneFree(v.fat, v.lastAllocated, |v.fat|)
    ensures old(Covered(v.fat, v.g.maxCluster, v.chains)) ==> Covered(v.fat, v.g.maxCluster, v.chains)
  {
    hide Represents, Forest, TailFull, IsChain, Covered, OnChain, Wrote, UsedKept, NoneFree, FirstFree, Grows,
         EntryWritten;
    WroteKeepsUsed(o, Now(v), t, buf, v.g.ClusterSize());
    ghost var n := Now(v);
    FatSize(v.disk, v.g, v.fat, v.data);
    c := v.AllocCluster();
    if c == INVALID_CLUSTER {
      return;
    }
    WroteClaim(o, n, t, buf, v.g.ClusterSize(), c);
    if prev != 0 {
      LinkFresh(n.fat, v.fat, v.g.maxCluster, n.chains, v.chains, t[0], c);
      var st := v.SetCluster(prev, c);
      if st == Error {
        return INVALID_CLUSTER;
      }
      v.chains := Appended(v.chains, t[0], c);
    }
  }

  /**
   * Claim, link and fill the next cluster of the file. On an error 0: what was claimed stays behind as chains of its
   * own.
   */
  method AddBlock(v: Volume, prev: nat, buf: seq<byte>, from: nat, ghost o: Snapshot,
                  ghost t: seq<nat>) returns (c: nat)
    requires v.Valid() && Wrote(o, Now(v), t, buf, v.g.ClusterSize()) && from == |t| * v.g.ClusterSize()
    requires from <= |buf|
    requires prev == if t == [] then 0 else Last(t)
    modifies v
    ensures v.Valid() && v.faults >= old(v.faults) && UsedKept(o, Now(v))
    ensures c != 0 ==> v.faults == old(v.faults) && Wrote(o, Now(v), t + [c], buf, v.g.ClusterSize())
    ensures c == 0 && v.faults == old(v.faults) ==> NoneFree(v.fat, v.lastAllocated, |v.fat|)
    ensures old(Covered(v.fat, v.g.maxCluster, v.chains)) ==> Covered(v.fat, v.g.maxCluster, v.chains)
  {
    hide Represents, Forest, TailFull, Covered, Wrote, UsedKept, NoneFree, FirstFree, Block, Claimed, Linked;
    ghost var n := Now(v);
    c := ClaimBlock(v, prev, o, t, buf);
    if c == INVALID_CLUSTER {
      return;
    }
    var temp := FillBlock(buf, from, v.g.ClusterSize());
    WroteBlock(o, n, t, buf, v.g.ClusterSize(), c);
    LinkedData(n, t, c);
    var st := v.WriteCluster(c, temp);
    WroteKeepsUsed(o, Now(v), t + [c], buf, v.g.ClusterSize());
  }

  lemma LinkedData(n: Snapshot, t: seq<nat>, c: nat)
    requires c < |n.fat| && (t != [] ==> Last(t) < |n.fat|)
    ensures (if t == [] then Claimed(n, c) else Linked(n, t, c)).data == n.data
  {}

  /** The buffer rounded up to whole clusters with zeros. */
  function Image(buf: seq<byte>, n: nat): (image: seq<byte>)
    requires |buf| <= n
    ensures |image| == n && buf <= image
  {
    buf + seq(n - |buf|, _ => 0)
  }

  lemma {:induction false} BlocksAreFile(data: seq<seq<byte>>, t: seq<nat>, buf: seq<byte>, cs: nat, k: nat)
    requires Blocks(data, t, buf, cs) && k <= |t| && |buf| <= |t| * cs
    ensures 0 <= k * cs <= |t| * cs && FileBytes(data, t[..k]) == Image(buf, |t| * cs)[..k * cs]
  {
    hide Image, Block;
    MulMono(k, |t|, cs);
    if k > 0 {
      BlocksAreFile(data, t, buf, cs, k - 1);
      assert t[..k][..k - 1] == t[..k - 1];
      assert (k - 1) * cs + cs == k * cs;
      assert data[t[k - 1]] == Block(buf, (k - 1) * cs, cs);
      ImageBlock(buf, |t| * cs, (k - 1) * cs, cs);
    }
  }

  lemma ImageBlock(buf: seq<byte>, n: nat, from: nat, cs: nat)
    requires |buf| <= n && from + cs <= n
    ensures Image(buf, n)[..from + cs] == Image(buf, n)[..from] + Block(buf, from, cs)
  {}

  lemma CeilDiv(size: nat, cs: nat)
    requires cs > 0 && size > 0
    ensures var n := (size + cs - 1) / cs; n > 0 && (n - 1) * cs < size <= n * cs
  {
    var n := (size + cs - 1) / cs;
    var r := (size + cs - 1) % cs;
    assert size + cs - 1 == n * cs + r;
    assert n * cs > 0;
    assert (n - 1) * cs == n * cs - cs;
  }

  /** Before the last block there is always a byte left to copy. */
  lemma BlockStarts(i: nat, n: nat, cs: nat, size: nat)
    requires i < n && (n - 1) * cs < size
    ensures 0 <= i * cs <= size
  {
    MulMono(i, n - 1, cs);
  }

  lemma WroteNothing(o: Snapshot, buf: seq<byte>, cs: nat)
    ensures Wrote(o, o, [], buf, cs) && UsedKept(o, o)
  {}

  lemma WroteFacts(o: Snapshot, n: Snapshot, t: seq<nat>, buf: seq<byte>, cs: nat)
    requires Wrote(o, n, t, buf, cs)
    ensures FirstFree(o.fat, o.hint, t) && Blocks(n.data, t, buf, cs)
    ensures t != [] ==> 2 <= t[0] && t[0] !in o.chains && n.chains == o.chains[t[0] := t]
    ensures t == [] ==> n.chains == o.chains && n.fat == o.fat && n.data == o.data && n.hint == o.hint
  {}

  lemma WroteReseal(o: Snapshot, n: Snapshot, t: seq<nat>, buf: seq<byte>, cs: nat)
    requires Wrote(o, n, t, buf, cs) && t != []
    ensures 2 <= t[0] && Last(t) < |n.fat| && UsedKept(o, n)
    ensures var m := n.(fat := n.fat[Last(t) := EOC]); Wrote(o, m, t, buf, cs) && UsedKept(o, m)
  {
    assert Last(t) == t[|t| - 1];
    WroteKeepsUsed(o, n, t, buf, cs);
    var m := n.(fat := n.fat[Last(t) := EOC]);
    WroteKeepsUsed(o, m, t, buf, cs);
  }

  /** The 32-bit sum either wraps, and then asks for no cluster at all, or is exact. */
  lemma Wrapped(size: nat, cs: nat)
    requires size < WORD && 0 < cs < WORD
    ensures var needed := (size + (cs - 1)) % WORD / cs;
            if size == 0 || size + cs - 1 >= WORD then needed == 0
            else needed > 0 && (needed - 1) * cs < size <= needed * cs
  {
    if size + cs - 1 >= WORD {
      assert (size + (cs - 1)) % WORD == size + cs - 1 - WORD < cs;
    } else if size > 0 {
      CeilDiv(size, cs);
    }
  }

  /** The loop over the blocks. */
  method WriteBlocks(v: Volume, buf: seq<byte>, needed: nat, ghost o: Snapshot)
      returns (ok: bool, first: nat, prev: nat, ghost t: seq<nat>)
    requires v.Valid() && Wrote(o, Now(v), [], buf, v.g.ClusterSize())
    requires needed > 0 ==> (needed - 1) * v.g.ClusterSize() < |buf|
    modifies v
    ensures v.Valid() && v.faults >= old(v.faults) && UsedKept(o, Now(v))
    ensures ok ==> v.faults == old(v.faults) && |t| == needed && Wrote(o, Now(v), t, buf, v.g.ClusterSize())
    ensures ok ==> if needed == 0 then first == 0 && prev == 0 else first == t[0] >= 2 && prev == Last(t) >= 2
    ensures !ok && v.faults == old(v.faults) ==> NoneFree(v.fat, v.lastAllocated, |v.fat|)
    ensures needed == 0 ==> ok && Now(v) == old(Now(v)) && v.disk == old(v.disk)
    ensures old(Covered(v.fat, v.g.maxCluster, v.chains)) ==> Covered(v.fat, v.g.maxCluster, v.chains)
  {
    hide Represents, Forest, TailFull, Covered, UsedKept, NoneFree, Wrote;
    var cs := v.g.ClusterSize();
    first, prev, t := 0, 0, [];
    WroteKeepsUsed(o, Now(v), t, buf, cs);
    var i := 0;
    while i < needed
      invariant i <= needed && |t| == i && v.Valid() && Wrote(o, Now(v), t, buf, cs) && v.faults == old(v.faults)
      invariant if i == 0 then first == 0 && prev == 0 else first == t[0] >= 2 && prev == Last(t) >= 2
      invariant needed == 0 ==> Now(v) == old(Now(v)) && v.disk == old(v.disk)
      invariant UsedKept(o, Now(v))
      invariant old(Covered(v.fat, v.g.maxCluster, v.chains)) ==> Covered(v.fat, v.g.maxCluster, v.chains)
    {
      BlockStarts(i, needed, cs, |buf|);
      var c := AddBlock(v, prev, buf, i * cs, o, t);
      if c == INVALID_CLUSTER {
        ok := false;
        return;
      }
      t := t + [c];
      WroteRange(o, Now(v), t, buf, cs);
      if first == 0 {
        first := c;
      }
      prev := c;
      i := i + 1;
    }
    ok := true;
  }

  lemma WroteRange(o: Snapshot, n: Snapshot, t: seq<nat>, buf: seq<byte>, cs: nat)
    requires Wrote(o, n, t, buf, cs)
    ensures forall j :: 0 <= j < |t| ==> 2 <= t[j]
  {}

  /** Marks the last cluster of the new chain as end of chain once more. */
  method Seal(v: Volume, prev: nat, ghost o: Snapshot, ghost t: seq<nat>, ghost buf: seq<byte>) returns (ok: bool)
    requires v.Valid() && t != [] && prev == Last(t) && Wrote(o, Now(v), t, buf, v.g.ClusterSize())
    modifies v`disk, v`fat, v`faults
    ensures v.Valid() && v.faults >= old(v.faults) && UsedKept(o, Now(v)) && Wrote(o, Now(v), t, buf, v.g.ClusterSize())
    ensures ok <==> v.faults == old(v.faults)
    ensures old(Covered(v.fat, v.g.maxCluster, v.chains)) ==> Covered(v.fat, v.g.maxCluster, v.chains)
  {
    hide Represents, Forest, TailFull, IsChain, Covered, UsedKept, Wrote, EntryWritten;
    WroteFacts(o, Now(v), t, buf, v.g.ClusterSize());
    ChainFacts(v, t[0]);
    ChainStep(v.fat, v.g.maxCluster, t, |t| - 1);
    LinkReseal(v.fat, v.g.maxCluster, v.chains, t[0], prev);
    WroteReseal(o, Now(v), t, buf, v.g.ClusterSize());
    var st := v.SetCluster(prev, EOC);
    ok := st == Ok;
  }

  /** The first cluster of a new chain that holds the buffer; 0 for an empty or too large buffer, and on errors. */
  method WriteFile(v: Volume, buf: seq<byte>) returns (c: nat)
    requires v.Valid() && |buf| < WORD && v.g.ClusterSize() < WORD
    modifies v
    ensures v.Valid() && v.faults >= old(v.faults) && UsedKept(old(Now(v)), Now(v))
    ensures c != 0 ==>
              && c >= 2 && v.faults == old(v.faults) && c in v.chains && c !in old(v.chains)
              && v.chains == old(v.chains)[c := v.chains[c]]
    ensures c != 0 ==> FirstFree(old(v.fat), old(v.lastAllocated), v.chains[c]) && InData(v.data, v.chains[c])
    ensures c != 0 ==> var n := |v.chains[c]| * v.g.ClusterSize();
                       0 <= n - v.g.ClusterSize() < |buf| <= n && FileBytes(v.data, v.chains[c]) == Image(buf, n)
    ensures |buf| == 0 || |buf| + v.g.ClusterSize() - 1 >= WORD ==>
              c == 0 && Now(v) == old(Now(v)) && v.disk == old(v.disk)
    ensures c == 0 && v.faults == old(v.faults) && 0 < |buf| && |buf| + v.g.ClusterSize() - 1 < WORD ==>
              NoneFree(v.fat, v.lastAllocated, |v.fat|)
    ensures old(Covered(v.fat, v.g.maxCluster, v.chains)) ==> Covered(v.fat, v.g.maxCluster, v.chains)
  {
    hide Represents, Forest, TailFull, IsChain, Covered, FirstFree, UsedKept, NoneFree, Blocks, FileBytes, Wrote,
         Image, InData;
    var cs, size := v.g.ClusterSize(), |buf|;
    VolumeUniform(v);
    var needed := (size + (cs - 1)) % WORD / cs;
    Wrapped(size, cs);
    ghost var o := Now(v);
    WroteNothing(o, buf, cs);
    var noBuffer := v.Fails();
    if noBuffer {
      return 0;
    }
    var ok, first, prev;
    ghost var t;
    ok, first, prev, t := WriteBlocks(v, buf, needed, o);
    if !ok {
      return 0;
    }
    if prev != 0 {
      ok := Seal(v, prev, o, t, buf);
      if !ok {
        return 0;
      }
      WroteFacts(o, Now(v), t, buf, cs);
      ChainFacts(v, first);
      BlocksAreFile(v.data, t, buf, cs, |t|);
      assert t[..|t|] == t;
      assert |t| * cs - cs == (needed - 1) * cs;
    }
    c := first;
  }

  /** File `k` has the same chain and the same bytes. */
  ghost predicate SameFile(o: Snapshot, n: Snapshot, k: nat) {
    && k in o.chains && k in n.chains && n.chains[k] == o.chains[k]
    && InData(o.data, o.chains[k]) && InData(n.data, n.chains[k])
    && FileBytes(n.data, n.chains[k]) == FileBytes(o.data, o.chains[k])
  }

  lemma FilesKept(o: Snapshot, n: Snapshot, max: nat)
    requires UsedKept(o, n) && Forest(o.fat, max, o.chains) && |o.data| == max
    ensures forall k :: k in o.chains ==> SameFile(o, n, k)
  {
    forall k | k in o.chains ensures SameFile(o, n, k) {
      var s := o.chains[k];
      forall i | 0 <= i < |s| ensures 2 <= s[i] < |o.data| && n.data[s[i]] == o.data[s[i]] {
        ChainInUse(o.fat, max, s, i);
      }
      FileBytesFrame(o.data, n.data, s);
    }
  }

  /** What was written is what is read, and every other file stays as it was. */
  method WriteThenRead(v: Volume, buf: seq<byte>) returns (c: nat, st: Status, out: seq<byte>)
    requires v.Valid() && |buf| < WORD && v.g.ClusterSize() < WORD
    modifies v
    ensures v.Valid()
    ensures c != 0 && st == Ok ==> out == buf
    ensures v.faults == old(v.faults) ==> st == Ok || c == 0
    ensures forall k :: k in old(v.chains) ==> SameFile(old(Now(v)), Now(v), k)
  {
    hide Represents, TailFull, IsChain, Covered, FirstFree, UsedKept, NoneFree, FileBytes, Image, Forest, SameFile;
    ghost var o := Now(v);
    FatSize(v.disk, v.g, v.fat, v.data);
    c := WriteFile(v, buf);
    FilesKept(o, Now(v), v.g.maxCluster);
    st, out := ReadFile(v, c, |buf|);
    if c != 0 && st == Ok {
      assert out == FileBytes(v.data, v.chains[c])[..|buf|];
    }
  }
}
