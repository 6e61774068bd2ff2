/** Writing into a file at an offset, with chain growth: a splice of the file's bytes. */
module FatSplice {
  import opened Common
  import opened FatLayout
  import opened FatChains
  import opened Fat32
  import opened FatFiles

  /**
   * One cluster of a splice of `buf[..n]` at `offset` into a file: `base` is the cluster's position in the file,
   * `before` and `after` its bytes (`before` is empty for a cluster that was not part of the file).
   */
  ghost predicate BlockSpliced(before: seq<byte>, after: seq<byte>, base: nat, offset: nat, buf: seq<byte>, n: nat) {
    && n <= |buf|
    && forall q :: 0 <= q < |after| ==>
         if offset <= base + q < offset + n then after[q] == buf[base + q - offset]
         else q < |before| ==> after[q] == before[q]
  }

  ghost predicate Spliced(data: seq<seq<byte>>, s: seq<nat>, data': seq<seq<byte>>, s': seq<nat>, cs: nat, offset: nat,
                          buf: seq<byte>, n: nat) {
    && InData(data, s) && InData(data', s') && s <= s'
    && forall i :: 0 <= i < |s'| ==>
        BlockSpliced(if i < |s| then data[s[i]] else [], data'[s'[i]], i * cs, offset, buf, n)
  }

  /** A cluster's bytes with `chunk` copied in at `to`. */
  function Patch(d: seq<byte>, to: nat, chunk: seq<byte>): (r: seq<byte>)
    requires to + |chunk| <= |d|
    ensures |r| == |d|
  {
    d[..to] + chunk + d[to + |chunk|..]
  }

  lemma PatchSplices(before: seq<byte>, after: seq<byte>, base: nat, offset: nat, buf: seq<byte>, n: nat, to: nat,
                     m: nat)
    requires BlockSpliced(before, after, base, offset, buf, n) && base + to == offset + n && to + m <= |after|
    requires n + m <= |buf|
    ensures BlockSpliced(before, Patch(after, to, buf[n..n + m]), base, offset, buf, n + m)
  {}

  /** Bytes added to the splice inside one cluster do not reach another. */
  lemma OtherBlock(before: seq<byte>, after: seq<byte>, i: nat, k: nat, cs: nat, offset: nat, buf: seq<byte>, n: nat,
                   to: nat, m: nat)
    requires BlockSpliced(before, after, i * cs, offset, buf, n) && k * cs + to == offset + n && to + m <= cs
    requires n + m <= |buf|
    requires i != k && |after| == cs
    ensures BlockSpliced(before, after, i * cs, offset, buf, n + m)
  {
    if i < k {
      MulMono(i + 1, k, cs);
      assert (i + 1) * cs == i * cs + cs;
    } else {
      MulMono(k + 1, i, cs);
      assert (k + 1) * cs == k * cs + cs;
    }
  }

  lemma SpliceStep(data: seq<seq<byte>>, s: seq<nat>, data': seq<seq<byte>>, s': seq<nat>, cs: nat, offset: nat,
                   buf: seq<byte>, n: nat, k: nat, to: nat, m: nat)
    requires Spliced(data, s, data', s', cs, offset, buf, n) && Uniform(data', cs) && NoRepeat(s')
    requires k < |s'| && k * cs + to == offset + n && to + m <= cs && n + m <= |buf|
    ensures to + m <= |data'[s'[k]]|
    ensures Spliced(data, s, data'[s'[k] := Patch(data'[s'[k]], to, buf[n..n + m])], s', cs, offset, buf, n + m)
  {
    hide Patch, BlockSpliced;
    var c := s'[k];
    var data'' := data'[c := Patch(data'[c], to, buf[n..n + m])];
    forall i | 0 <= i < |s'|
      ensures BlockSpliced(if i < |s| then data[s[i]] else [], data''[s'[i]], i * cs, offset, buf, n + m)
    {
      var before := if i < |s| then data[s[i]] else [];
      assert BlockSpliced(before, data'[s'[i]], i * cs, offset, buf, n);
      if i == k {
        PatchSplices(before, data'[c], k * cs, offset, buf, n, to, m);
      } else {
        assert s'[i] != c;
        OtherBlock(before, data'[s'[i]], i, k, cs, offset, buf, n, to, m);
      }
    }
  }

  /** A fresh cluster behind the last byte written so far. */
  lemma SpliceGrow(data: seq<seq<byte>>, s: seq<nat>, data': seq<seq<byte>>, s': seq<nat>, cs: nat, offset: nat,
                   buf: seq<byte>, n: nat, c: nat)
    requires Spliced(data, s, data', s', cs, offset, buf, n) && InData(data', s' + [c]) && |s'| * cs == offset + n
    requires n <= |buf|
    ensures Spliced(data, s, data', s' + [c], cs, offset, buf, n)
  {
    hide BlockSpliced;
    var t := s' + [c];
    forall i | 0 <= i < |t|
      ensures BlockSpliced(if i < |s| then data[s[i]] else [], data'[t[i]], i * cs, offset, buf, n)
    {
      if i < |s'| {
        assert t[i] == s'[i];
      } else {
        FreshBlock(data'[c], |s'| * cs, offset, buf, n);
      }
    }
  }

  lemma FreshBlock(after: seq<byte>, base: nat, offset: nat, buf: seq<byte>, n: nat)
    requires base == offset + n && n <= |buf|
    ensures BlockSpliced([], after, base, offset, buf, n)
  {}

  // The state of a write at an offset: `o` before the call, `n` now, `h` the file's first cluster.

  ghost predicate SameDataOff(data: seq<seq<byte>>, data': seq<seq<byte>>, s: seq<nat>) {
    |data'| == |data| && forall c :: 0 <= c < |data| && c !in s ==> data'[c] == data[c]
  }

  /** The file's chain grew only at its end, by the first free clusters. */
  ghost predicate ChainGrew(o: Snapshot, n: Snapshot, h: nat) {
    && h in o.chains && h in n.chains && o.chains[h] <= n.chains[h] && n.chains == o.chains[h := n.chains[h]]
    && var u := n.chains[h][|o.chains[h]|..];
       && FirstFree(o.fat, o.hint, u) && SameFree(o.fat, n.fat, u)
       && n.hint == if u == [] then o.hint else Last(u)
  }

  /** All files but `h` are as they were. */
  ghost predicate OthersKept(o: Snapshot, n: Snapshot, h: nat) {
    Grows(o.chains, n.chains, h) && forall k :: k in o.chains && k != h ==> SameFile(o, n, k)
  }

  lemma KeepsOthers(o: Snapshot, n: Snapshot, max: nat, h: nat)
    requires Forest(n.fat, max, n.chains) && |n.data| == max && h in o.chains && Grows(o.chains, n.chains, h)
    requires SameDataOff(o.data, n.data, n.chains[h])
    ensures OthersKept(o, n, h)
  {
    forall k | k in o.chains && k != h ensures SameFile(o, n, k) {
      var s := n.chains[k];
      assert Apart(s, n.chains[h]);
      forall i | 0 <= i < |s| ensures 2 <= s[i] < |n.data| && n.data[s[i]] == o.data[s[i]] {
        ChainInUse(n.fat, max, s, i);
      }
      FileBytesFrame(o.data, n.data, s);
    }
  }

  lemma GrewBy(o: Snapshot, n: Snapshot, m: Snapshot, h: nat, c: nat)
    requires ChainGrew(o, n, h) && |n.chains[h]| > 0 && Extended(n.fat, n.chains, n.hint, m.fat, m.chains, m.hint, h, c)
    requires IsFree(n.fat[c]) && !IsFree(n.fat[Last(n.chains[h])]) && !IsFree(m.fat[Last(n.chains[h])])
    ensures ChainGrew(o, m, h) && m.chains[h] == n.chains[h] + [c]
  {
    hide IsFree, FirstFree, SameFree, NoneFree;
    var s, t := o.chains[h], n.chains[h];
    var u := t[|s|..];
    assert (t + [c])[|s|..] == u + [c];
    assert c !in u by { assert h in n.chains; assert forall d :: d in u ==> d in t; }
    FirstFreeNext(o.fat, o.hint, n.fat, n.hint, u, c);
    SameFreeNext(o.fat, n.fat, u, Last(t), c);
    assert o.chains[h := t][h := t + [c]] == o.chains[h := t + [c]];
  }

  lemma SameFreeNext(fat: seq<nat>, fat': seq<nat>, u: seq<nat>, l: nat, c: nat)
    requires SameFree(fat, fat', u) && l < |fat'| && c < |fat'|
    requires !IsFree(fat'[l]) && !IsFree(fat'[l := c][c := EOC][l])
    ensures SameFree(fat, fat'[l := c][c := EOC], u + [c])
  {
    hide IsFree;
    assert (u + [c])[|u|] == c;
    assert forall d :: d in u ==> d in u + [c];
  }

  /** Follows `n` links from the first cluster. */
  method WalkTo(v: Volume, h: nat, n: nat) returns (st: Status, target: nat)
    requires v.Valid() && h in v.chains
    modifies v`faults
    ensures v.faults >= old(v.faults)
    ensures st == Ok <==> n < |v.chains[h]| && v.faults == old(v.faults)
    ensures st == Ok ==> target == v.chains[h][n]
  {
    hide Represents, Forest, TailFull, IsChain, LowBits;
    ChainFacts(v, h);
    target := h;
    var i := 0;
    while i < n
      invariant i <= n && v.faults == old(v.faults) && i < |v.chains[h]| && target == v.chains[h][i] && v.Valid()
    {
      ChainStep(v.fat, v.g.maxCluster, v.chains[h], i);
      var next := v.NextCluster(target);
      if next == INVALID_CLUSTER || next >= EOC_MIN {
        return Error, target;
      }
      target := next;
      i := i + 1;
    }
    st := Ok;
  }

  /** Read, patch and write back one cluster. */
  method PatchCluster(v: Volume, c: nat, to: nat, chunk: seq<byte>) returns (st: Status)
    requires v.Valid() && 2 <= c < v.g.maxCluster && to + |chunk| <= v.g.ClusterSize()
    modifies v`disk, v`data, v`faults
    ensures v.Valid() && v.faults >= old(v.faults)
    ensures st == Ok <==> v.faults == old(v.faults)
    ensures |old(v.data)| == v.g.maxCluster && |old(v.data)[c]| == v.g.ClusterSize()
    ensures v.data == if st == Ok then old(v.data)[c := Patch(old(v.data)[c], to, chunk)] else old(v.data)
  {
    hide Represents, Forest, TailFull;
    VolumeUniform(v);
    var tmp;
    st, tmp := v.ReadCluster(c);
    if st == Error {
      return;
    }
    tmp := Patch(tmp, to, chunk);
    st := v.WriteCluster(c, tmp);
  }

  /** What a write has done when `n` bytes are in place and cluster `k` of the chain was the last one touched. */
  ghost predicate Writing(o: Snapshot, n: Snapshot, h: nat, cs: nat, offset: nat, buf: seq<byte>, written: nat,
                          k: nat) {
    && ChainGrew(o, n, h) && SameDataOff(o.data, n.data, n.chains[h])
    && Spliced(o.data, o.chains[h], n.data, n.chains[h], cs, offset, buf, written)
    && k < |n.chains[h]| && (|n.chains[h]| == |o.chains[h]| || |n.chains[h]| == k + 1)
  }

  lemma WritingStarts(v: Volume, h: nat, offset: nat, buf: seq<byte>, k: nat)
    requires v.Valid() && h in v.chains && k < |v.chains[h]|
    ensures Writing(Now(v), Now(v), h, v.g.ClusterSize(), offset, buf, 0, k)
  {
    hide Represents, Forest, TailFull, IsChain, BlockSpliced;
    ChainFacts(v, h);
    var n, s := Now(v), v.chains[h];
    assert n.chains == n.chains[h := s] && s[|s|..] == [];
    forall i | 0 <= i < |s| ensures BlockSpliced(n.data[s[i]], n.data[s[i]], i * v.g.ClusterSize(), offset, buf, 0) {
      NoSplice(n.data[s[i]], i * v.g.ClusterSize(), offset, buf);
    }
  }

  lemma NoSplice(d: seq<byte>, base: nat, offset: nat, buf: seq<byte>)
    ensures BlockSpliced(d, d, base, offset, buf, 0)
  {}

  lemma WritingPatched(o: Snapshot, n: Snapshot, h: nat, cs: nat, offset: nat, buf: seq<byte>, written: nat, k: nat,
                       to: nat, m: nat)
    requires Writing(o, n, h, cs, offset, buf, written, k) && Uniform(n.data, cs) && NoRepeat(n.chains[h])
    requires k * cs + to == offset + written && to + m <= cs && written + m <= |buf|
    ensures var c := n.chains[h][k];
            && 2 <= c < |n.data| && to + m <= |n.data[c]|
            && Writing(o, n.(data := n.data[c := Patch(n.data[c], to, buf[written..written + m])]), h, cs, offset, buf,
                written + m, k)
  {
    hide ChainGrew, Patch;
    GrewSameChain(o, n, h);
    SpliceStep(o.data, o.chains[h], n.data, n.chains[h], cs, offset, buf, written, k, to, m);
    var c := n.chains[h][k];
    GrewAnyData(o, n, h, n.data[c := Patch(n.data[c], to, buf[written..written + m])]);
  }

  lemma GrewSameChain(o: Snapshot, n: Snapshot, h: nat)
    requires ChainGrew(o, n, h)
    ensures h in o.chains && h in n.chains
  {}

  lemma GrewAnyData(o: Snapshot, n: Snapshot, h: nat, data: seq<seq<byte>>)
    requires ChainGrew(o, n, h)
    ensures ChainGrew(o, n.(data := data), h)
  {}

  /** The write moved on to the next cluster of the chain, an old one or a fresh one. */
  lemma WritingLinked(o: Snapshot, n: Snapshot, m: Snapshot, h: nat, cs: nat, offset: nat, buf: seq<byte>, written: nat,
                      k: nat, c: nat)
    requires Writing(o, n, h, cs, offset, buf, written, k) && k * cs + cs == offset + written && written <= |buf|
    requires m.data == n.data
    requires h in m.chains && InData(m.data, m.chains[h])
    requires k + 1 < |n.chains[h]| ==> m.fat == n.fat && m.chains == n.chains && m.hint == n.hint
    requires k + 1 == |n.chains[h]| ==> Extended(n.fat, n.chains, n.hint, m.fat, m.chains, m.hint, h, c)
    requires k + 1 == |n.chains[h]| ==> !IsFree(n.fat[Last(n.chains[h])]) && !IsFree(m.fat[Last(n.chains[h])])
    ensures Writing(o, m, h, cs, offset, buf, written, k + 1)
  {
    hide ChainGrew, Spliced, LeastFree, OnChain;
    GrewSameChain(o, n, h);
    var t := n.chains[h];
    if k + 1 < |t| {
      assert m == n;
    } else {
      assert |t| * cs == k * cs + cs;
      LeastIsFree(n.fat, n.hint, c);
      GrewBy(o, n, m, h, c);
      SpliceGrow(o.data, o.chains[h], n.data, t, cs, offset, buf, written, c);
      assert forall d :: d in t ==> d in t + [c];
    }
  }

  lemma LeastIsFree(fat: seq<nat>, hint: nat, c: nat)
    requires LeastFree(fat, hint, c)
    ensures c < |fat| && IsFree(fat[c])
  {}

  lemma GrewGrows(o: Snapshot, n: Snapshot, h: nat)
    requires ChainGrew(o, n, h)
    ensures Grows(o.chains, n.chains, h)
  {}

  /** However far the write got, and whatever the last link operation left behind, other files are as before. */
  lemma WritingKeepsOthers(o: Snapshot, n: Snapshot, m: Snapshot, max: nat, h: nat, cs: nat, offset: nat,
                           buf: seq<byte>, written: nat, k: nat)
    requires Writing(o, n, h, cs, offset, buf, written, k) && m.data == n.data && Grows(n.chains, m.chains, h)
    requires Forest(m.fat, max, m.chains) && |m.data| == max
    ensures OthersKept(o, m, h)
  {
    hide ChainGrew, Forest, Spliced;
    GrewSameChain(o, n, h);
    GrewGrows(o, n, h);
    GrowsTrans(o.chains, n.chains, m.chains, h);
    PrefixElements(n.chains[h], m.chains[h]);
    KeepsOthers(o, m, max, h);
  }

  lemma PrefixElements(s: seq<nat>, t: seq<nat>)
    requires s <= t
    ensures forall c :: c in s ==> c in t
  {
    assert forall i :: 0 <= i < |s| ==> s[i] == t[i];
  }

  /** On to the next cluster of the chain. */
  method NextTarget(v: Volume, target: nat, ghost o: Snapshot, ghost h: nat, ghost offset: nat, ghost buf: seq<byte>,
                    ghost written: nat, ghost k: nat)
      returns (next: nat)
    requires v.Valid() && Writing(o, Now(v), h, v.g.ClusterSize(), offset, buf, written, k) && written <= |buf|
    requires k * v.g.ClusterSize() + v.g.ClusterSize() == offset + written && h in v.chains && target == v.chains[h][k]
    modifies v`disk, v`fat, v`chains, v`faults, v`lastAllocated
    ensures v.Valid() && v.faults >= old(v.faults) && h in v.chains && OthersKept(o, Now(v), h)
    ensures next != 0 ==>
              v.faults == old(v.faults) && Writing(o, Now(v), h, v.g.ClusterSize(), offset, buf, written, k + 1)
    ensures next != 0 ==> next == v.chains[h][k + 1]
    ensures Grows(old(v.chains), v.chains, h)
    ensures next == 0 && v.faults == old(v.faults) ==> NoneFree(v.fat, v.lastAllocated, |v.fat|)
    ensures old(Covered(v.fat, v.g.maxCluster, v.chains)) ==> Covered(v.fat, v.g.maxCluster, v.chains)
  {
    hide Represents, Forest, TailFull, IsChain, Covered, NoneFree, OthersKept, ChainGrew, Spliced, SameDataOff,
         LeastFree, OnChain, InData, NoRepeat;
    ghost var n, cs := Now(v), v.g.ClusterSize();
    ghost var t := v.chains[h];
    ChainFacts(v, h);
    ChainInUse(v.fat, v.g.maxCluster, t, |t| - 1);
    next := v.LinkClusterChain(target, h, k);
    FatSize(v.disk, v.g, v.fat, v.data);
    WritingKeepsOthers(o, n, Now(v), v.g.maxCluster, h, cs, offset, buf, written, k);
    if next != 0 {
      ChainFacts(v, h);
      if k + 1 == |t| {
        assert v.chains[h][|t| - 1] == t[|t| - 1];
        ChainInUse(v.fat, v.g.maxCluster, v.chains[h], |t| - 1);
      }
      WritingLinked(o, n, Now(v), h, cs, offset, buf, written, k, next);
    }
  }

  lemma BlockOf(p: nat, n: nat, cs: nat)
    requires cs > 0 && p < n * cs
    ensures var k, q := p / cs, p % cs; 0 <= k < n && 0 <= q < cs && k * cs + q == p
  {
    var k := p / cs;
    assert k * cs + p % cs == p;
    if k >= n { MulMono(n, k, cs); }
  }

  lemma SplicedAt(data: seq<seq<byte>>, s: seq<nat>, data': seq<seq<byte>>, s': seq<nat>, cs: nat, offset: nat,
                  buf: seq<byte>, k: nat, q: nat, p: nat)
    requires Spliced(data, s, data', s', cs, offset, buf, |buf|) && Uniform(data, cs) && Uniform(data', cs) && k < |s'|
    requires q < cs && p == k * cs + q
    ensures p < |FileBytes(data', s')| && (k < |s| ==> p < |FileBytes(data, s)|)
    ensures offset <= p < offset + |buf| ==> FileBytes(data', s')[p] == buf[p - offset]
    ensures !(offset <= p < offset + |buf|) && k < |s| ==> FileBytes(data', s')[p] == FileBytes(data, s)[p]
  {
    hide FileBytes, Spliced, BlockSpliced;
    SplicedInData(data, s, data', s', cs, offset, buf);
    SplicedBlock(data, s, data', s', cs, offset, buf, k, p - q);
    FileByte(data', s', cs, k, q, p);
    if k < |s| { FileByte(data, s, cs, k, q, p); }
    BlockByte(if k < |s| then data[s[k]] else [], data'[s'[k]], p - q, offset, buf, q);
  }

  lemma FileByte(data: seq<seq<byte>>, s: seq<nat>, cs: nat, k: nat, q: nat, p: nat)
    requires InData(data, s) && Uniform(data, cs) && k < |s| && q < cs && p == k * cs + q
    ensures p < |FileBytes(data, s)| && FileBytes(data, s)[p] == data[s[k]][q]
  {
    FileBytesAt(data, s, cs, k, q);
  }

  lemma SplicedBlock(data: seq<seq<byte>>, s: seq<nat>, data': seq<seq<byte>>, s': seq<nat>, cs: nat, offset: nat,
                     buf: seq<byte>, k: nat, base: int)
    requires Spliced(data, s, data', s', cs, offset, buf, |buf|) && k < |s'| && base == k * cs
    ensures (k < |s| ==> s[k] < |data|) && base >= 0
    ensures s'[k] < |data'| && BlockSpliced(if k < |s| then data[s[k]] else [], data'[s'[k]], base, offset, buf, |buf|)
  {}

  lemma BlockByte(before: seq<byte>, after: seq<byte>, base: nat, offset: nat, buf: seq<byte>, q: nat)
    requires BlockSpliced(before, after, base, offset, buf, |buf|) && q < |after|
    ensures offset <= base + q < offset + |buf| ==> after[q] == buf[base + q - offset]
    ensures !(offset <= base + q < offset + |buf|) && q < |before| ==> after[q] == before[q]
  {}

  lemma SplicedByte(data: seq<seq<byte>>, s: seq<nat>, data': seq<seq<byte>>, s': seq<nat>, cs: nat, offset: nat,
                    buf: seq<byte>, p: nat)
    requires Spliced(data, s, data', s', cs, offset, buf, |buf|) && Uniform(data, cs) && Uniform(data', cs) && cs > 0
    requires p < |s'| * cs
    ensures p < |FileBytes(data', s')|
    ensures offset <= p < offset + |buf| ==> FileBytes(data', s')[p] == buf[p - offset]
    ensures p < |s| * cs ==> p < |FileBytes(data, s)|
    ensures p < |s| * cs && !(offset <= p < offset + |buf|) ==> FileBytes(data', s')[p] == FileBytes(data, s)[p]
  {
    SplicedInData(data, s, data', s', cs, offset, buf);
    hide FileBytes, Spliced, Uniform;
    BlockOf(p, |s'|, cs);
    SplicedAt(data, s, data', s', cs, offset, buf, p / cs, p % cs, p);
    if p < |s| * cs { BlockOf(p, |s|, cs); }
  }

  lemma SplicedInData(data: seq<seq<byte>>, s: seq<nat>, data': seq<seq<byte>>, s': seq<nat>, cs: nat, offset: nat,
                      buf: seq<byte>)
    requires Spliced(data, s, data', s', cs, offset, buf, |buf|)
    ensures InData(data, s) && InData(data', s') && |s| <= |s'| && s <= s'
  {}

  /** The file `b` with `buf` written over it at `offset`; past the old end only the written bytes are known. */
  ghost predicate IsSplice(b: seq<byte>, b': seq<byte>, offset: nat, buf: seq<byte>) {
    && |b| <= |b'| && offset + |buf| <= |b'|
    && b'[offset..offset + |buf|] == buf
    && forall p :: 0 <= p < |b| && !(offset <= p < offset + |buf|) ==> b'[p] == b[p]
  }

  lemma SplicedBytes(data: seq<seq<byte>>, s: seq<nat>, data': seq<seq<byte>>, s': seq<nat>, cs: nat, offset: nat,
                     buf: seq<byte>)
    requires Spliced(data, s, data', s', cs, offset, buf, |buf|) && Uniform(data, cs) && Uniform(data', cs) && cs > 0
    requires offset + |buf| <= |s'| * cs
    ensures IsSplice(FileBytes(data, s), FileBytes(data', s'), offset, buf)
  {
    var b, b' := FileBytes(data, s), FileBytes(data', s');
    FileBytesLength(data, s, cs);
    FileBytesLength(data', s', cs);
    MulMono(|s|, |s'|, cs);
    hide FileBytes, Spliced;
    forall p | offset <= p < offset + |buf| ensures b'[p] == buf[p - offset] {
      SplicedByte(data, s, data', s', cs, offset, buf, p);
    }
    assert b'[offset..offset + |buf|] == buf;
    forall p | 0 <= p < |b| && !(offset <= p < offset + |buf|) ensures b'[p] == b[p] {
      SplicedByte(data, s, data', s', cs, offset, buf, p);
    }
  }

  /** File `h` now holds `bytes` at `offset`, and what it held before elsewhere. */
  ghost predicate Written(o: Snapshot, n: Snapshot, h: nat, offset: nat, bytes: seq<byte>) {
    && h in o.chains && h in n.chains && o.chains[h] <= n.chains[h]
    && InData(o.data, o.chains[h]) && InData(n.data, n.chains[h])
    && IsSplice(FileBytes(o.data, o.chains[h]), FileBytes(n.data, n.chains[h]), offset, bytes)
  }

  /** Only the bytes in place count. */
  lemma SplicedTake(data: seq<seq<byte>>, s: seq<nat>, data': seq<seq<byte>>, s': seq<nat>, cs: nat, offset: nat,
                    buf: seq<byte>, n: nat)
    requires Spliced(data, s, data', s', cs, offset, buf, n) && n <= |buf|
    ensures Spliced(data, s, data', s', cs, offset, buf[..n], n)
  {
    hide BlockSpliced;
    forall i | 0 <= i < |s'|
      ensures BlockSpliced(if i < |s| then data[s[i]] else [], data'[s'[i]], i * cs, offset, buf[..n], n)
    {
      BlockTake(if i < |s| then data[s[i]] else [], data'[s'[i]], i * cs, offset, buf, n);
    }
  }

  lemma BlockTake(before: seq<byte>, after: seq<byte>, base: nat, offset: nat, buf: seq<byte>, n: nat)
    requires BlockSpliced(before, after, base, offset, buf, n)
    ensures n <= |buf| && BlockSpliced(before, after, base, offset, buf[..n], n)
  {}

  lemma SpliceGrows(b: seq<byte>, b': seq<byte>, b'': seq<byte>, offset: nat, buf: seq<byte>)
    requires IsSplice(b, b', offset, buf) && b' <= b''
    ensures IsSplice(b, b'', offset, buf)
  {
    assert b''[offset..offset + |buf|] == b'[offset..offset + |buf|];
  }

  /** However far the write got, and whatever the last link operation left behind, the bytes in place are a splice. */
  lemma WritingPartial(v: Volume, o: Snapshot, n: Snapshot, h: nat, offset: nat, buf: seq<byte>, written: nat, k: nat)
    requires v.Valid() && Writing(o, n, h, v.g.ClusterSize(), offset, buf, written, k) && written <= |buf|
    requires v.data == n.data && Grows(n.chains, v.chains, h) && Uniform(o.data, v.g.ClusterSize())
    requires offset + written <= k * v.g.ClusterSize() + v.g.ClusterSize()
    ensures Written(o, Now(v), h, offset, buf[..written])
  {
    hide Represents, Forest, TailFull, ChainGrew, SameDataOff, FileBytes, IsSplice, Uniform, Spliced, IsChain, NoRepeat;
    VolumeUniform(v);
    GrewSameChain(o, n, h);
    ChainFacts(v, h);
    var cs, s, t, u := v.g.ClusterSize(), o.chains[h], n.chains[h], v.chains[h];
    SplicedTake(o.data, s, n.data, t, cs, offset, buf, written);
    SplicedInData(o.data, s, n.data, t, cs, offset, buf[..written]);
    Reaches(k, |t|, cs);
    SplicedBytes(o.data, s, n.data, t, cs, offset, buf[..written]);
    FileBytesPrefix(v.data, u, |t|);
    assert u[..|t|] == t;
    SpliceGrows(FileBytes(o.data, s), FileBytes(n.data, t), FileBytes(v.data, u), offset, buf[..written]);
    PrefixOf(s, t, u);
  }

  lemma GrowsSelf(chains: map<nat, seq<nat>>, h: nat)
    ensures Grows(chains, chains, h)
  {}

  lemma PrefixOf(s: seq<nat>, t: seq<nat>, u: seq<nat>)
    requires s <= t && t <= u
    ensures s <= u
  {
    assert forall i :: 0 <= i < |s| ==> s[i] == t[i] == u[i];
  }

  lemma KeptNow(v: Volume, h: nat)
    requires v.Valid() && h in v.chains
    ensures OthersKept(Now(v), Now(v), h)
  {
    FatSize(v.disk, v.g, v.fat, v.data);
    KeepsOthers(Now(v), Now(v), v.g.maxCluster, h);
  }

  lemma WritingOthers(v: Volume, o: Snapshot, h: nat, offset: nat, buf: seq<byte>, written: nat, k: nat)
    requires v.Valid() && Writing(o, Now(v), h, v.g.ClusterSize(), offset, buf, written, k)
    ensures OthersKept(o, Now(v), h)
  {
    FatSize(v.disk, v.g, v.fat, v.data);
    hide Represents, Forest, TailFull, ChainGrew, Spliced, SameDataOff;
    GrewSameChain(o, Now(v), h);
    WritingKeepsOthers(o, Now(v), Now(v), v.g.maxCluster, h, v.g.ClusterSize(), offset, buf, written, k);
  }

  /** All bytes are in place: the file is the splice, and no longer than it has to be. */
  lemma WritingDone(v: Volume, o: Snapshot, h: nat, offset: nat, buf: seq<byte>, k: nat)
    requires v.Valid() && Writing(o, Now(v), h, v.g.ClusterSize(), offset, buf, |buf|, k)
    requires Uniform(o.data, v.g.ClusterSize()) && offset + |buf| <= k * v.g.ClusterSize() + v.g.ClusterSize()
    requires h in o.chains && (k < |o.chains[h]| || k * v.g.ClusterSize() < offset + |buf|)
    ensures h in v.chains && ChainGrew(o, Now(v), h) && InData(o.data, o.chains[h]) && InData(v.data, v.chains[h])
    ensures IsSplice(FileBytes(o.data, o.chains[h]), FileBytes(v.data, v.chains[h]), offset, buf)
    ensures |v.chains[h]| == |o.chains[h]| || (|v.chains[h]| - 1) * v.g.ClusterSize() < offset + |buf|
  {
    VolumeUniform(v);
    hide Represents, Forest, TailFull, ChainGrew, SameDataOff, FileBytes, IsSplice, Uniform, Spliced;
    GrewSameChain(o, Now(v), h);
    SplicedInData(o.data, o.chains[h], v.data, v.chains[h], v.g.ClusterSize(), offset, buf);
    Reaches(k, |v.chains[h]|, v.g.ClusterSize());
    SplicedBytes(o.data, o.chains[h], v.data, v.chains[h], v.g.ClusterSize(), offset, buf);
  }

  lemma Reaches(k: nat, n: nat, cs: nat)
    requires k < n
    ensures k * cs + cs <= n * cs
  {
    MulMono(k + 1, n, cs);
    assert (k + 1) * cs == k * cs + cs;
  }

  /** The loop over the clusters from the one that holds the offset on. */
  method WriteClusters(v: Volume, first: nat, start: nat, buf: seq<byte>, ghost o: Snapshot, ghost h: nat,
                       ghost offset: nat, ghost walk: nat)
      returns (st: Status, ghost done: nat)
    requires v.Valid() && h in v.chains && h in o.chains && Uniform(o.data, v.g.ClusterSize())
    requires start < v.g.ClusterSize()
    requires Writing(o, Now(v), h, v.g.ClusterSize(), offset, buf, 0, walk) && walk < |o.chains[h]|
    requires first == v.chains[h][walk] && walk * v.g.ClusterSize() + start == offset
    modifies v
    ensures v.Valid() && v.faults >= old(v.faults) && h in v.chains && OthersKept(o, Now(v), h)
    ensures st == Ok ==> v.faults == old(v.faults) && ChainGrew(o, Now(v), h)
    ensures st == Ok ==> InData(o.data, o.chains[h]) && InData(v.data, v.chains[h])
    ensures st == Ok ==> IsSplice(FileBytes(o.data, o.chains[h]), FileBytes(v.data, v.chains[h]), offset, buf)
    ensures st == Ok ==> |v.chains[h]| == |o.chains[h]| || (|v.chains[h]| - 1) * v.g.ClusterSize() < offset + |buf|
    ensures st == Error && v.faults == old(v.faults) ==> NoneFree(v.fat, v.lastAllocated, |v.fat|)
    ensures done <= |buf| && (st == Ok ==> done == |buf|) && Written(o, Now(v), h, offset, buf[..done])
    ensures old(Covered(v.fat, v.g.maxCluster, v.chains)) ==> Covered(v.fat, v.g.maxCluster, v.chains)
  {
    hide Represents, Forest, TailFull, IsChain, Covered, NoneFree, OthersKept, ChainGrew, Spliced, SameDataOff,
         FileBytes, IsSplice, NoRepeat, Patch, Uniform, Written, Grows;
    var cs := v.g.ClusterSize();
    var target, to: nat := first, start;
    ghost var k: nat := walk;
    var written := 0;
    while true
      invariant v.Valid() && v.faults == old(v.faults) && h in v.chains && written <= |buf| && to < cs
      invariant Writing(o, Now(v), h, cs, offset, buf, written, k) && target == v.chains[h][k]
      invariant k * cs + to == offset + written
      invariant written < |buf| || |buf| == 0
      invariant k < |o.chains[h]| || (to == 0 && written < |buf|)
      invariant old(Covered(v.fat, v.g.maxCluster, v.chains)) ==> Covered(v.fat, v.g.maxCluster, v.chains)
      decreases |buf| - written
    {
      VolumeUniform(v);
      ChainFacts(v, h);
      var left, space := |buf| - written, cs - to;
      var m := if left < space then left else space;
      WritingPatched(o, Now(v), h, cs, offset, buf, written, k, to, m);
      WritingOthers(v, o, h, offset, buf, written, k);
      ghost var n := Now(v);
      GrowsSelf(v.chains, h);
      st := PatchCluster(v, target, to, buf[written..written + m]);
      if st == Error {
        done := written;
        WritingPartial(v, o, n, h, offset, buf, written, k);
        return;
      }
      written := written + m;
      done, n := written, Now(v);
      if written >= |buf| {
        WritingPartial(v, o, n, h, offset, buf, written, k);
        WritingOthers(v, o, h, offset, buf, written, k);
        WritingDone(v, o, h, offset, buf, k);
        return;
      }
      to := 0;
      target := NextTarget(v, target, o, h, offset, buf, written, k);
      if target == INVALID_CLUSTER {
        WritingPartial(v, o, n, h, offset, buf, written, k);
        return Error, done;
      }
      k := k + 1;
    }
  }

  /**
   * Writes `buf` at `offset` of the file: a splice, with fresh clusters linked behind the chain as far as needed.
   * When the write does not start, because the offset lies past the chain or because a read or the buffer failed on the
   * way to it, nothing changes. However a write that has started ends, the `done` bytes it got to are in place.
   */
  method WriteAtOffset(v: Volume, h: nat, offset: nat, buf: seq<byte>)
    returns (st: Status, ghost started: bool, ghost done: nat)
    requires v.Valid() && h in v.chains
    modifies v
    ensures v.Valid() && v.faults >= old(v.faults) && h in v.chains && OthersKept(old(Now(v)), Now(v), h)
    ensures v.g.ClusterSize() > 0
    ensures !started ==> st == Error && Now(v) == old(Now(v)) && v.disk == old(v.disk)
    ensures offset / v.g.ClusterSize() >= |old(v.chains)[h]| ==> !started
    ensures !started && v.faults == old(v.faults) ==> offset / v.g.ClusterSize() >= |old(v.chains)[h]|
    ensures st == Ok ==> v.faults == old(v.faults) && ChainGrew(old(Now(v)), Now(v), h)
    ensures st == Ok ==> InData(old(v.data), old(v.chains)[h]) && InData(v.data, v.chains[h])
    ensures st == Ok ==> IsSplice(FileBytes(old(v.data), old(v.chains)[h]), FileBytes(v.data, v.chains[h]), offset, buf)
    ensures st == Ok ==> |v.chains[h]| == |old(v.chains)[h]| || (|v.chains[h]| - 1) * v.g.ClusterSize() < offset + |buf|
    ensures started ==> done <= |buf| && Written(old(Now(v)), Now(v), h, offset, buf[..done])
    ensures st == Ok ==> started && done == |buf|
    ensures st == Error && v.faults == old(v.faults) && started ==> NoneFree(v.fat, v.lastAllocated, |v.fat|)
    ensures old(Covered(v.fat, v.g.maxCluster, v.chains)) ==> Covered(v.fat, v.g.maxCluster, v.chains)
  {
    hide Represents, Forest, TailFull, IsChain, Covered, NoneFree, OthersKept, ChainGrew, Spliced, SameDataOff,
         FileBytes, IsSplice, Writing, InData;
    started, done := false, 0;
    VolumeUniform(v);
    ghost var o := Now(v);
    var cs := v.g.ClusterSize();
    var walk, to: nat := offset / cs, offset % cs;
    assert walk * cs + to == offset;
    KeptNow(v, h);
    var target;
    st, target := WalkTo(v, h, walk);
    if st == Error {
      return;
    }
    var noBuffer := v.Fails();
    if noBuffer {
      return Error, false, 0;
    }
    started := true;
    WritingStarts(v, h, offset, buf, walk);
    st, done := WriteClusters(v, target, to, buf, o, h, offset, walk);
  }
}
