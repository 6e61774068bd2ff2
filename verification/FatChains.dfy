/** Cluster chains in a flat FAT: linked runs of clusters that end in an end-of-chain mark and share no cluster. */
module FatChains {
  import opened FatLayout

  function Masked(v: nat): nat { v % MASK }

  predicate IsFree(v: nat) { Masked(v) == 0 }

  predicate IsLast(v: nat) { Masked(v) >= EOC_MIN }

  /** Link `i` of the run: to the next cluster, or end of chain at the last one. */
  ghost predicate LinkOk(fat: seq<nat>, max: nat, s: seq<nat>, i: nat)
    requires i < |s|
  {
    && 2 <= s[i] < max && s[i] < |fat|
    && if i + 1 < |s| then Masked(fat[s[i]]) == s[i + 1] else IsLast(fat[s[i]])
  }

  ghost predicate IsChain(fat: seq<nat>, max: nat, s: seq<nat>) {
    |s| > 0 && max <= BAD && forall i :: 0 <= i < |s| ==> LinkOk(fat, max, s, i)
  }

  /** A chain never visits a cluster twice: from a repeat it could not reach its end. */
  lemma {:induction false} ChainNoRepeat(fat: seq<nat>, max: nat, s: seq<nat>, i: nat, j: nat)
    requires IsChain(fat, max, s) && i < j < |s|
    ensures s[i] != s[j]
    decreases |s| - j
  {
    assert LinkOk(fat, max, s, i) && LinkOk(fat, max, s, j);
    if j + 1 < |s| {
      assert LinkOk(fat, max, s, i + 1);
      ChainNoRepeat(fat, max, s, i + 1, j + 1);
    } else {
      assert LinkOk(fat, max, s, i + 1);
    }
  }

  /** The chain from a cluster is determined by the FAT. */
  lemma {:induction false} ChainUnique(fat: seq<nat>, max: nat, s: seq<nat>, t: seq<nat>)
    requires IsChain(fat, max, s) && IsChain(fat, max, t) && s[0] == t[0]
    ensures s == t
  {
    assert LinkOk(fat, max, s, 0) && LinkOk(fat, max, t, 0);
    if |s| > 1 && |t| > 1 {
      assert LinkOk(fat, max, s, 1) && LinkOk(fat, max, t, 1);
      ChainTail(fat, max, s);
      ChainTail(fat, max, t);
      ChainUnique(fat, max, s[1..], t[1..]);
      assert s == [s[0]] + s[1..] && t == [t[0]] + t[1..];
    } else {
      assert |s| > 1 ==> LinkOk(fat, max, s, 1);
      assert |t| > 1 ==> LinkOk(fat, max, t, 1);
    }
  }

  lemma ChainTail(fat: seq<nat>, max: nat, s: seq<nat>)
    requires IsChain(fat, max, s) && |s| > 1
    ensures IsChain(fat, max, s[1..])
  {
    forall i | 0 <= i < |s| - 1 ensures LinkOk(fat, max, s[1..], i) { assert LinkOk(fat, max, s, i + 1); }
  }

  /** Every cluster on a chain is in use. */
  lemma ChainInUse(fat: seq<nat>, max: nat, s: seq<nat>, i: nat)
    requires IsChain(fat, max, s) && i < |s|
    ensures 2 <= s[i] < max && s[i] < |fat| && !IsFree(fat[s[i]])
  {
    assert LinkOk(fat, max, s, i);
    if i + 1 < |s| { assert LinkOk(fat, max, s, i + 1); }
  }

  ghost predicate Apart(s: seq<nat>, t: seq<nat>) { forall i, j :: 0 <= i < |s| && 0 <= j < |t| ==> s[i] != t[j] }

  /** The chains, by first cluster: each ends in EOC, and no two share a cluster. */
  ghost predicate Forest(fat: seq<nat>, max: nat, chains: map<nat, seq<nat>>) {
    && (forall h :: h in chains ==> IsChain(fat, max, chains[h]) && chains[h][0] == h)
    && (forall h, k :: h in chains && k in chains && h != k ==> Apart(chains[h], chains[k]))
  }

  ghost predicate OnChain(chains: map<nat, seq<nat>>, c: nat) { exists h :: h in chains && c in chains[h] }

  /** Every cluster in use lies on a chain. */
  ghost predicate Covered(fat: seq<nat>, max: nat, chains: map<nat, seq<nat>>) {
    forall c :: 2 <= c < max && c < |fat| && !IsFree(fat[c]) ==> OnChain(chains, c)
  }

  /** A change to an entry off the chain leaves the chain alone. */
  lemma ChainFrame(fat: seq<nat>, max: nat, s: seq<nat>, c: nat, v: nat)
    requires IsChain(fat, max, s) && c < |fat| && c !in s
    ensures IsChain(fat[c := v], max, s)
  {
    var fat' := fat[c := v];
    forall i | 0 <= i < |s| ensures LinkOk(fat', max, s, i) { assert LinkOk(fat, max, s, i); }
  }

  /** Claiming a free cluster starts a new one-cluster chain. */
  lemma ForestClaim(fat: seq<nat>, max: nat, chains: map<nat, seq<nat>>, c: nat)
    requires Forest(fat, max, chains) && 2 <= c < max && c < |fat| && IsFree(fat[c]) && max <= BAD
    ensures !OnChain(chains, c) && c !in chains
    ensures Forest(fat[c := EOC], max, chains[c := [c]])
    ensures Covered(fat, max, chains) ==> Covered(fat[c := EOC], max, chains[c := [c]])
  {
    forall h | h in chains ensures c !in chains[h] { FreeOffChain(fat, max, chains[h], c); }
    assert forall h :: h in chains ==> chains[h][0] in chains[h];
    var fat' := fat[c := EOC];
    forall h | h in chains ensures IsChain(fat', max, chains[h]) { ChainFrame(fat, max, chains[h], c, EOC); }
    assert LinkOk(fat', max, [c], 0);
    ClaimCovered(fat, max, chains, c);
  }

  lemma FreeOffChain(fat: seq<nat>, max: nat, s: seq<nat>, c: nat)
    requires IsChain(fat, max, s) && c < |fat| && IsFree(fat[c])
    ensures c !in s
  {
    forall i | 0 <= i < |s| ensures s[i] != c { ChainInUse(fat, max, s, i); }
  }

  lemma ClaimCovered(fat: seq<nat>, max: nat, chains: map<nat, seq<nat>>, c: nat)
    requires c < |fat| && forall h :: h in chains ==> c !in chains[h]
    ensures Covered(fat, max, chains) && c !in chains ==> Covered(fat[c := EOC], max, chains[c := [c]])
  {
    var chains' := chains[c := [c]];
    if Covered(fat, max, chains) && c !in chains {
      var fat' := fat[c := EOC];
      forall d | 2 <= d < max && d < |fat| && !IsFree(fat'[d]) ensures OnChain(chains', d) {
        if d == c {
          assert c in chains' && d in chains'[c];
        } else {
          var h :| h in chains && d in chains[h];
          assert h in chains' && d in chains'[h];
        }
      }
    }
  }

  function Last(s: seq<nat>): nat
    requires |s| > 0
  {
    s[|s| - 1]
  }

  lemma ChainAppend(fat: seq<nat>, max: nat, s: seq<nat>, c: nat)
    requires IsChain(fat, max, s) && IsChain(fat, max, [c]) && c !in s && Last(s) < |fat|
    ensures IsChain(fat[Last(s) := c], max, s + [c])
  {
    var fat', t := fat[Last(s) := c], s + [c];
    assert LinkOk(fat, max, [c], 0);
    forall i | 0 <= i < |t| ensures LinkOk(fat', max, t, i) {
      if i < |s| {
        assert LinkOk(fat, max, s, i);
        if i < |s| - 1 { ChainNoRepeat(fat, max, s, i, |s| - 1); }
      }
    }
  }

  /** The chains after the one-cluster chain `c` is linked behind chain `h`. */
  ghost function Appended(chains: map<nat, seq<nat>>, h: nat, c: nat): map<nat, seq<nat>>
    requires h in chains
  {
    (chains - {c})[h := chains[h] + [c]]
  }

  lemma ForestAppend(fat: seq<nat>, max: nat, chains: map<nat, seq<nat>>, h: nat, c: nat)
    requires Forest(fat, max, chains) && h in chains && c in chains && chains[c] == [c] && h != c
    ensures Last(chains[h]) < |fat|
    ensures Forest(fat[Last(chains[h]) := c], max, Appended(chains, h, c))
    ensures Covered(fat, max, chains) ==> Covered(fat[Last(chains[h]) := c], max, Appended(chains, h, c))
  {
    var s := chains[h];
    ChainInUse(fat, max, s, |s| - 1);
    var l, chains' := Last(s), Appended(chains, h, c);
    var fat' := fat[l := c];
    assert Apart(chains[h], chains[c]) && chains[c][0] == c;
    ChainAppend(fat, max, s, c);
    forall k | k in chains' && k != h ensures IsChain(fat', max, chains'[k]) && Apart(chains'[k], chains'[h]) {
      assert Apart(chains[k], chains[h]) && Apart(chains[k], chains[c]);
      assert s[|s| - 1] == l;
      ChainFrame(fat, max, chains[k], l, c);
    }
    AppendCovered(fat, max, chains, h, c, l);
  }

  lemma AppendCovered(fat: seq<nat>, max: nat, chains: map<nat, seq<nat>>, h: nat, c: nat, l: nat)
    requires h in chains && c in chains && chains[c] == [c] && h != c && l in chains[h] && l < |fat|
    ensures Covered(fat, max, chains) ==> Covered(fat[l := c], max, Appended(chains, h, c))
  {
    var chains', fat' := Appended(chains, h, c), fat[l := c];
    if Covered(fat, max, chains) {
      forall d | 2 <= d < max && d < |fat'| && !IsFree(fat'[d]) ensures OnChain(chains', d) {
        if d == l {
          assert h in chains' && d in chains'[h];
        } else {
          var k :| k in chains && d in chains[k];
          var k' := if k == c then h else k;
          assert k' in chains' && d in chains'[k'];
        }
      }
    }
  }

  /** Marking the last cluster of a chain as end of chain again changes no chain. */
  lemma ForestReseal(fat: seq<nat>, max: nat, chains: map<nat, seq<nat>>, h: nat)
    requires Forest(fat, max, chains) && h in chains
    ensures Last(chains[h]) < |fat|
    ensures Forest(fat[Last(chains[h]) := EOC], max, chains)
    ensures Covered(fat, max, chains) ==> Covered(fat[Last(chains[h]) := EOC], max, chains)
  {
    var s := chains[h];
    ChainInUse(fat, max, s, |s| - 1);
    var l := Last(s);
    var fat' := fat[l := EOC];
    forall k | k in chains ensures IsChain(fat', max, chains[k]) {
      if k == h {
        forall i | 0 <= i < |s| ensures LinkOk(fat', max, s, i) {
          assert LinkOk(fat, max, s, i);
          if i < |s| - 1 { ChainNoRepeat(fat, max, s, i, |s| - 1); }
        }
      } else {
        assert Apart(chains[k], s) && s[|s| - 1] == l;
        ChainFrame(fat, max, chains[k], l, EOC);
      }
    }
    assert Covered(fat, max, chains) ==> forall d :: 2 <= d < max && d < |fat'| && !IsFree(fat'[d]) ==> !IsFree(fat[d]);
  }

  // ---------------------------------------------------------------- file contents

  /** All clusters of the data region have the cluster size. */
  ghost predicate Uniform(data: seq<seq<byte>>, size: nat) { forall c :: 2 <= c < |data| ==> |data[c]| == size }

  /** The bytes of a chain, cluster after cluster. */
  ghost function FileBytes(data: seq<seq<byte>>, s: seq<nat>): seq<byte>
    requires forall i :: 0 <= i < |s| ==> s[i] < |data|
  {
    if s == [] then [] else FileBytes(data, s[..|s| - 1]) + data[s[|s| - 1]]
  }

  lemma {:induction false} FileBytesLength(data: seq<seq<byte>>, s: seq<nat>, size: nat)
    requires Uniform(data, size) && forall i :: 0 <= i < |s| ==> 2 <= s[i] < |data|
    ensures |FileBytes(data, s)| == |s| * size
  {
    if s != [] {
      FileBytesLength(data, s[..|s| - 1], size);
      assert (|s| - 1) * size + size == |s| * size;
    }
  }

  lemma InBlock(k: nat, q: nat, n: nat, size: nat)
    requires k < n && q < size
    ensures 0 <= k * size + q < n * size
  {
    MulMono(k + 1, n, size);
    assert (k + 1) * size == k * size + size;
  }

  /** Byte `q` of the k-th cluster. */
  lemma {:induction false} FileBytesAt(data: seq<seq<byte>>, s: seq<nat>, size: nat, k: nat, q: nat)
    requires Uniform(data, size) && (forall i :: 0 <= i < |s| ==> 2 <= s[i] < |data|) && k < |s| && q < size
    ensures |FileBytes(data, s)| == |s| * size && 0 <= k * size + q < |s| * size
    ensures FileBytes(data, s)[k * size + q] == data[s[k]][q]
  {
    FileBytesLength(data, s, size);
    InBlock(k, q, |s|, size);
    var n := |s| - 1;
    FileBytesLength(data, s[..n], size);
    if k < n {
      InBlock(k, q, n, size);
      FileBytesAt(data, s[..n], size, k, q);
    }
  }

  /** Contents depend on the clusters of the chain only. */
  lemma {:induction false} FileBytesFrame(data: seq<seq<byte>>, data': seq<seq<byte>>, s: seq<nat>)
    requires |data'| == |data| && forall i :: 0 <= i < |s| ==> s[i] < |data| && data'[s[i]] == data[s[i]]
    ensures FileBytes(data', s) == FileBytes(data, s)
  {
    if s != [] { FileBytesFrame(data, data', s[..|s| - 1]); }
  }

  // ---------------------------------------------------------------- growth

  /** Chain `h` may have grown at its end and chains may have been added; every other chain is as before. */
  ghost predicate Grows(chains: map<nat, seq<nat>>, chains': map<nat, seq<nat>>, h: nat) {
    && (forall k :: k in chains ==> k in chains' && (k != h ==> chains'[k] == chains[k]))
    && (h in chains ==> chains[h] <= chains'[h])
  }

  lemma GrowsTrans(a: map<nat, seq<nat>>, b: map<nat, seq<nat>>, c: map<nat, seq<nat>>, h: nat)
    requires Grows(a, b, h) && Grows(b, c, h)
    ensures Grows(a, c, h)
  {
    if h in a {
      forall i | 0 <= i < |a[h]| ensures a[h][i] == c[h][i] { assert a[h][i] == b[h][i]; }
    }
  }

  /** Where the walk of a chain goes next. */
  lemma ChainStep(fat: seq<nat>, max: nat, s: seq<nat>, i: nat)
    requires IsChain(fat, max, s) && i < |s|
    ensures 2 <= s[i] < max && s[i] < |fat|
    ensures if i + 1 < |s| then Masked(fat[s[i]]) == s[i + 1] && 2 <= s[i + 1] < max <= BAD
              else Masked(fat[s[i]]) >= EOC_MIN
  {
    assert LinkOk(fat, max, s, i);
    if i + 1 < |s| { assert LinkOk(fat, max, s, i + 1); }
  }

  lemma ForestChain(fat: seq<nat>, max: nat, chains: map<nat, seq<nat>>, h: nat)
    requires Forest(fat, max, chains) && h in chains
    ensures IsChain(fat, max, chains[h]) && chains[h][0] == h
  {}
}
