/** Runs of the file operations. */
module FatRuns {
  import opened Common
  import opened FatLayout
  import opened FatChains
  import opened Fat32
  import opened FatFiles
  import opened FatSplice

  /** An operation on the volume; files are named by their place in the list of first clusters known so far. */
  datatype Op =
    | Alloc
    | Link(file: nat, at: nat)
    | Write(buf: seq<byte>)
    | WriteAt(file: nat, offset: nat, buf: seq<byte>)

  ghost predicate Known(chains: map<nat, seq<nat>>, files: seq<nat>) {
    forall i :: 0 <= i < |files| ==> files[i] in chains
  }

  /** Chains only ever grow at their ends. */
  ghost predicate AllGrow(a: map<nat, seq<nat>>, b: map<nat, seq<nat>>) {
    forall k :: k in a ==> k in b && a[k] <= b[k]
  }

  /** The operation writes to file `k`, or asks for a cluster behind one of its clusters. */
  predicate Writes(op: Op, files: seq<nat>, k: nat) { op.WriteAt? && op.file < |files| && files[op.file] == k }

  predicate Links(op: Op, files: seq<nat>, k: nat) { op.Link? && op.file < |files| && files[op.file] == k }

  /** File `k` begins with the bytes it had. */
  ghost predicate KeptFile(o: Snapshot, n: Snapshot, k: nat) {
    && k in o.chains && k in n.chains && o.chains[k] <= n.chains[k]
    && InData(o.data, o.chains[k]) && InData(n.data, n.chains[k])
    && FileBytes(o.data, o.chains[k]) <= FileBytes(n.data, n.chains[k])
  }

  /**
   * What the operations leave of the files: one that is not written to keeps its bytes, one that is not named is the
   * same.
   */
  ghost predicate FilesKeptBy(o: Snapshot, n: Snapshot, ops: seq<Op>, files: seq<nat>) {
    forall k :: k in o.chains && Unwritten(ops, files, k) ==>
        KeptFile(o, n, k) && (Unlinked(ops, files, k) ==> SameFile(o, n, k))
  }

  ghost predicate Unwritten(ops: seq<Op>, files: seq<nat>, k: nat) {
    forall i :: 0 <= i < |ops| ==> !Writes(ops[i], files, k)
  }

  ghost predicate Unlinked(ops: seq<Op>, files: seq<nat>, k: nat) {
    forall i :: 0 <= i < |ops| ==> !Links(ops[i], files, k)
  }

  lemma SameIsKept(o: Snapshot, n: Snapshot, k: nat)
    requires SameFile(o, n, k)
    ensures KeptFile(o, n, k)
  {}

  /** With the contents untouched, a chain that grew begins with the bytes it had. */
  lemma GrownIsKept(o: Snapshot, n: Snapshot, k: nat)
    requires k in o.chains && k in n.chains && o.chains[k] <= n.chains[k] && n.data == o.data
    requires InData(n.data, n.chains[k])
    ensures KeptFile(o, n, k) && (o.chains[k] == n.chains[k] ==> SameFile(o, n, k))
  {
    var s := n.chains[k];
    FileBytesPrefix(n.data, s, |o.chains[k]|);
    assert s[..|o.chains[k]|] == o.chains[k];
  }

  lemma KeptTrans(a: Snapshot, b: Snapshot, c: Snapshot, k: nat)
    requires KeptFile(a, b, k) && KeptFile(b, c, k)
    ensures KeptFile(a, c, k) && (SameFile(a, b, k) && SameFile(b, c, k) ==> SameFile(a, c, k))
  {
    hide FileBytes;
    PrefixTrans(a.chains[k], b.chains[k], c.chains[k]);
    PrefixTrans(FileBytes(a.data, a.chains[k]), FileBytes(b.data, b.chains[k]), FileBytes(c.data, c.chains[k]));
  }

  lemma PrefixTrans<T>(a: seq<T>, b: seq<T>, c: seq<T>)
    requires a <= b && b <= c
    ensures a <= c
  {
    assert forall i :: 0 <= i < |a| ==> a[i] == b[i] == c[i];
  }

  /** One more operation; the list of files may have grown since. */
  lemma KeptStep(a: Snapshot, b: Snapshot, c: Snapshot, ops: seq<Op>, op: Op, files: seq<nat>, files': seq<nat>)
    requires FilesKeptBy(a, b, ops, files) && FilesKeptBy(b, c, [op], files) && files <= files'
    ensures FilesKeptBy(a, c, ops + [op], files')
  {
    hide KeptFile, SameFile;
    var all := ops + [op];
    forall k | k in a.chains && Unwritten(all, files', k)
      ensures KeptFile(a, c, k) && (Unlinked(all, files', k) ==> SameFile(a, c, k))
    {
      FewerNames(ops, op, files, files', k);
      KeptIn(a, b, k);
      KeptTrans(a, b, c, k);
    }
  }

  lemma KeptIn(a: Snapshot, b: Snapshot, k: nat)
    requires KeptFile(a, b, k)
    ensures k in b.chains
  {}

  lemma FewerNames(ops: seq<Op>, op: Op, files: seq<nat>, files': seq<nat>, k: nat)
    requires files <= files'
    ensures Unwritten(ops + [op], files', k) ==> Unwritten(ops, files, k) && Unwritten([op], files, k)
    ensures Unlinked(ops + [op], files', k) ==> Unlinked(ops, files, k) && Unlinked([op], files, k)
  {
    var all := ops + [op];
    assert all[|ops|] == op;
    assert forall i :: 0 <= i < |ops| ==> ops[i] == all[i];
  }

  lemma NothingDone(v: Volume, files: seq<nat>)
    requires v.Valid()
    ensures FilesKeptBy(Now(v), Now(v), [], files)
  {
    AllKeptNow(v);
    hide KeptFile, SameFile;
  }

  lemma AllKeptNow(v: Volume)
    requires v.Valid()
    ensures forall k :: k in v.chains ==> KeptFile(Now(v), Now(v), k) && SameFile(Now(v), Now(v), k)
  {
    hide Represents, Forest, TailFull, FileBytes;
    forall k | k in v.chains ensures KeptFile(Now(v), Now(v), k) && SameFile(Now(v), Now(v), k) { ChainFacts(v, k); }
  }

  /** Claiming and linking clusters writes no contents. */
  lemma GrowthKeeps(v: Volume, o: Snapshot, op: Op, files: seq<nat>, h: nat)
    requires v.Valid() && v.data == o.data && Grows(o.chains, v.chains, h)
    requires forall k :: k in o.chains && Unlinked([op], files, k) && k == h ==> v.chains[k] == o.chains[k]
    ensures FilesKeptBy(o, Now(v), [op], files)
  {
    hide Represents, Forest, TailFull, FileBytes;
    forall k | k in o.chains ensures KeptFile(o, Now(v), k) && (Unlinked([op], files, k) ==> SameFile(o, Now(v), k)) {
      ChainFacts(v, k);
      GrownIsKept(o, Now(v), k);
    }
  }

  lemma WriteKeeps(v: Volume, o: Snapshot, op: Op, files: seq<nat>)
    requires v.Valid() && forall k :: k in o.chains && Unwritten([op], files, k) ==> SameFile(o, Now(v), k)
    ensures FilesKeptBy(o, Now(v), [op], files)
  {
    hide SameFile, KeptFile;
    forall k | k in o.chains && Unwritten([op], files, k) ensures KeptFile(o, Now(v), k) { SameIsKept(o, Now(v), k); }
  }

  // ---------------------------------------------------------------- what the files hold

  /** What an operation did to the files: nothing, a new file, or bytes put in place. */
  datatype Event = Quiet | New(file: nat, bytes: seq<byte>) | Put(file: nat, offset: nat, bytes: seq<byte>)

  /** The event fits the operation: a write puts a prefix of its buffer in place, all of it when it succeeds. */
  ghost predicate Fits(op: Op, files: seq<nat>, ok: bool, ev: Event) {
    match ev
    case Quiet => ok ==> op.Link?
    case New(_, bytes) => ok && ((op.Alloc? && bytes == []) || (op.Write? && bytes == op.buf))
    case Put(h, offset, bytes) =>
      && op.WriteAt? && op.file < |files| && files[op.file] == h && offset == op.offset
      && bytes <= op.buf && (ok ==> bytes == op.buf)
  }

  ghost predicate AllKept(a: Snapshot, b: Snapshot) { forall k :: k in a.chains ==> KeptFile(a, b, k) }

  ghost predicate Happened(a: Snapshot, b: Snapshot, ev: Event) {
    match ev
    case Quiet => AllKept(a, b)
    case New(c, bytes) => AllKept(a, b) && c !in a.chains && Begins(b, c, bytes)
    case Put(h, offset, bytes) =>
      Written(a, b, h, offset, bytes) && forall k :: k in a.chains && k != h ==> KeptFile(a, b, k)
  }

  /** File `c` begins with those bytes. */
  ghost predicate Begins(n: Snapshot, c: nat, bytes: seq<byte>) {
    c in n.chains && InData(n.data, n.chains[c]) && bytes <= FileBytes(n.data, n.chains[c])
  }

  /** Byte `p` of file `k` as the events tell it, the last one first; None where they do not say. */
  ghost function Recall(o: Snapshot, log: seq<Event>, k: nat, p: nat): Option<byte> {
    if log == [] then
      if k in o.chains && InData(o.data, o.chains[k]) && p < |FileBytes(o.data, o.chains[k])|
      then Some(FileBytes(o.data, o.chains[k])[p]) else None
    else
      var rest := log[..|log| - 1];
      match log[|log| - 1]
      case Quiet => Recall(o, rest, k, p)
      case New(c, bytes) =>
        if k != c then Recall(o, rest, k, p) else if p < |bytes| then Some(bytes[p]) else None
      case Put(h, offset, bytes) =>
        if k == h && offset <= p < offset + |bytes| then Some(bytes[p - offset]) else Recall(o, rest, k, p)
  }

  ghost predicate Holds(n: Snapshot, k: nat, p: nat, b: byte) {
    && k in n.chains && InData(n.data, n.chains[k]) && p < |FileBytes(n.data, n.chains[k])|
    && FileBytes(n.data, n.chains[k])[p] == b
  }

  /** The files hold what the events tell: the fold of all splices over the files there were and the new ones. */
  ghost predicate Tells(o: Snapshot, log: seq<Event>, n: Snapshot) {
    forall k, p: nat :: Recall(o, log, k, p).Some? ==> Holds(n, k, p, Recall(o, log, k, p).value)
  }

  lemma TellsNothing(v: Volume)
    requires v.Valid()
    ensures Tells(Now(v), [], Now(v))
  {
    hide Represents, Forest, TailFull, FileBytes;
  }

  lemma HoldsKept(a: Snapshot, b: Snapshot, k: nat, p: nat, x: byte)
    requires Holds(a, k, p, x) && KeptFile(a, b, k)
    ensures Holds(b, k, p, x)
  {}

  lemma HoldsWritten(a: Snapshot, b: Snapshot, h: nat, offset: nat, bytes: seq<byte>, p: nat)
    requires Written(a, b, h, offset, bytes)
    ensures offset <= p < offset + |bytes| ==> Holds(b, h, p, bytes[p - offset])
    ensures forall x :: Holds(a, h, p, x) && !(offset <= p < offset + |bytes|) ==> Holds(b, h, p, x)
  {
    var b' := FileBytes(b.data, b.chains[h]);
    if offset <= p < offset + |bytes| { assert b'[p] == b'[offset..offset + |bytes|][p - offset]; }
  }

  lemma TellsStep(o: Snapshot, log: seq<Event>, a: Snapshot, b: Snapshot, ev: Event)
    requires Tells(o, log, a) && Happened(a, b, ev)
    ensures Tells(o, log + [ev], b)
  {
    hide KeptFile, Written, Holds, FileBytes;
    var log' := log + [ev];
    assert log'[..|log'| - 1] == log;
    forall k, p: nat | Recall(o, log', k, p).Some? ensures Holds(b, k, p, Recall(o, log', k, p).value) {
      var r := Recall(o, log, k, p);
      if r.Some? {
        assert Holds(a, k, p, r.value);
        HoldsHas(a, k, p, r.value);
      }
      match ev
      case Quiet => HoldsKept(a, b, k, p, r.value);
      case New(c, bytes) =>
        if k == c { HoldsBegins(b, c, bytes, p); } else { HoldsKept(a, b, k, p, r.value); }
      case Put(h, offset, bytes) =>
        if k == h { HoldsWritten(a, b, h, offset, bytes, p); } else { HoldsKept(a, b, k, p, r.value); }
    }
  }

  lemma HoldsHas(n: Snapshot, k: nat, p: nat, b: byte)
    requires Holds(n, k, p, b)
    ensures k in n.chains
  {}

  lemma HoldsBegins(n: Snapshot, c: nat, bytes: seq<byte>, p: nat)
    requires Begins(n, c, bytes)
    ensures p < |bytes| ==> Holds(n, c, p, bytes[p])
  {}

  /** Operations other than writes at an offset keep the bytes of every file. */
  lemma KeptByOthers(a: Snapshot, b: Snapshot, op: Op, files: seq<nat>)
    requires FilesKeptBy(a, b, [op], files) && !op.WriteAt?
    ensures AllKept(a, b)
  {
    hide KeptFile, SameFile;
    forall k | k in a.chains ensures KeptFile(a, b, k) { assert Unwritten([op], files, k); }
  }

  lemma BeginsEmpty(v: Volume, c: nat)
    requires v.Valid() && c in v.chains
    ensures Begins(Now(v), c, [])
  {
    ChainFacts(v, c);
  }

  lemma PutHappened(o: Snapshot, n: Snapshot, h: nat, offset: nat, bytes: seq<byte>)
    requires Written(o, n, h, offset, bytes) && OthersKept(o, n, h)
    ensures Happened(o, n, Put(h, offset, bytes))
  {
    hide Written, KeptFile, SameFile;
    forall k | k in o.chains && k != h ensures KeptFile(o, n, k) { SameIsKept(o, n, k); }
  }

  /** Both FAT copies hold the same words. */
  lemma CopiesEqual(v: Volume, c: nat)
    requires v.Valid() && c < |v.fat|
    ensures FatSector(v.g, 0, c) < |v.disk| && FatSector(v.g, 1, c) < |v.disk|
    ensures Entry(v.disk, v.g, 0, c) == Entry(v.disk, v.g, 1, c)
  {
    assert EntryIs(v.disk, v.g, 0, c, v.fat[c]) && EntryIs(v.disk, v.g, 1, c, v.fat[c]);
  }

  method Step(v: Volume, op: Op, files: seq<nat>) returns (files': seq<nat>, ok: bool, ghost ev: Event)
    requires v.Valid() && Known(v.chains, files) && v.g.ClusterSize() < WORD
    requires Covered(v.fat, v.g.maxCluster, v.chains)
    requires op.Write? ==> |op.buf| < WORD
    modifies v
    ensures v.Valid() && Covered(v.fat, v.g.maxCluster, v.chains) && Known(v.chains, files') && files <= files'
    ensures AllGrow(old(v.chains), v.chains) && FilesKeptBy(old(Now(v)), Now(v), [op], files)
    ensures Happened(old(Now(v)), Now(v), ev) && Fits(op, files, ok, ev)
  {
    hide Represents, Forest, TailFull, Covered, NoneFree, LeastFree, FirstFree, OnChain, IsChain, FileBytes,
         IsSplice, InData, ChainGrew, OthersKept, FilesKeptBy, SameFile, UsedKept;
    hide KeptFile, Written;
    files', ok, ev := files, false, Quiet;
    ghost var o := Now(v);
    StepStart(v, op, files);
    match op {
      case Alloc =>
        var c := v.AllocCluster();
        GrowthKeeps(v, o, op, files, c);
        KeptByOthers(o, Now(v), op, files);
        if c != INVALID_CLUSTER {
          BeginsEmpty(v, c);
          files', ok, ev := files + [c], true, New(c, []);
        }
      case Link(i, at) =>
        if i < |files| {
          var st, target := WalkTo(v, files[i], at);
          if st == Ok {
            var c := v.LinkClusterChain(target, files[i], at);
            assert Links([op][0], files, files[i]);
            GrowthKeeps(v, o, op, files, files[i]);
            KeptByOthers(o, Now(v), op, files);
            ok := c != INVALID_CLUSTER;
          }
        }
      case Write(buf) =>
        var c := WriteFile(v, buf);
        AfterWrite(v, o, op, files);
        KeptByOthers(o, Now(v), op, files);
        if c != INVALID_CLUSTER {
          ghost var n := |v.chains[c]| * v.g.ClusterSize();
          assert buf <= Image(buf, n);
          files', ok, ev := files + [c], true, New(c, buf);
        }
      case WriteAt(i, offset, buf) =>
        if i < |files| {
          var st, started, done := WriteAtOffset(v, files[i], offset, buf);
          OthersGrow(o, Now(v), files[i]);
          AfterWriteAt(v, o, op, files);
          ok := st == Ok;
          if started {
            PutHappened(o, Now(v), files[i], offset, buf[..done]);
            ev := Put(files[i], offset, buf[..done]);
          }
        }
    }
  }

  lemma StepStart(v: Volume, op: Op, files: seq<nat>)
    requires v.Valid()
    ensures FilesKeptBy(Now(v), Now(v), [op], files) && |v.data| == v.g.maxCluster && AllKept(Now(v), Now(v))
  {
    FatSize(v.disk, v.g, v.fat, v.data);
    AllKeptNow(v);
    hide KeptFile, SameFile;
  }

  lemma AfterWrite(v: Volume, o: Snapshot, op: Op, files: seq<nat>)
    requires v.Valid() && UsedKept(o, Now(v)) && Forest(o.fat, v.g.maxCluster, o.chains) && |o.data| == v.g.maxCluster
    ensures FilesKeptBy(o, Now(v), [op], files) && AllGrow(o.chains, v.chains)
  {
    FilesKept(o, Now(v), v.g.maxCluster);
    WriteKeeps(v, o, op, files);
    hide Forest, SameFile, FilesKeptBy;
  }

  lemma AfterWriteAt(v: Volume, o: Snapshot, op: Op, files: seq<nat>)
    requires v.Valid() && op.WriteAt? && op.file < |files| && OthersKept(o, Now(v), files[op.file])
    ensures FilesKeptBy(o, Now(v), [op], files)
  {
    hide SameFile, Grows;
    assert Writes([op][0], files, files[op.file]);
    WriteKeeps(v, o, op, files);
  }

  lemma OthersGrow(o: Snapshot, n: Snapshot, h: nat)
    requires OthersKept(o, n, h)
    ensures Grows(o.chains, n.chains, h)
  {}

  /**
   * Over any run, with reads and buffers failing at any time, the FAT stays a forest of disjoint chains that covers
   * every used cluster; a file that no operation writes to keeps its bytes, and one that no operation names is the
   * same. Every file holds the fold of what the operations wrote, one event for each.
   */
  method Run(v: Volume, ops: seq<Op>, files: seq<nat>)
    returns (files': seq<nat>, oks: seq<bool>, ghost log: seq<Event>)
    requires v.Valid() && Known(v.chains, files) && v.g.ClusterSize() < WORD
    requires Covered(v.fat, v.g.maxCluster, v.chains)
    requires forall i :: 0 <= i < |ops| && ops[i].Write? ==> |ops[i].buf| < WORD
    modifies v
    ensures v.Valid() && Covered(v.fat, v.g.maxCluster, v.chains) && Known(v.chains, files') && files <= files'
    ensures AllGrow(old(v.chains), v.chains) && FilesKeptBy(old(Now(v)), Now(v), ops, files')
    ensures Tells(old(Now(v)), log, Now(v)) && |log| == |oks| == |ops|
    ensures forall i :: 0 <= i < |ops| ==> Fits(ops[i], files', oks[i], log[i])
  {
    hide Represents, Forest, TailFull, Covered, FilesKeptBy, Tells, Happened, Fits;
    files', oks, log := files, [], [];
    var i := 0;
    ghost var o := Now(v);
    NothingDone(v, files);
    TellsNothing(v);
    assert ops[..0] == [];
    while i < |ops|
      invariant i <= |ops| && v.Valid() && Covered(v.fat, v.g.maxCluster, v.chains) && Known(v.chains, files')
      invariant files <= files'
      invariant AllGrow(old(v.chains), v.chains) && FilesKeptBy(o, Now(v), ops[..i], files')
      invariant Tells(o, log, Now(v)) && |log| == |oks| == i
      invariant forall j :: 0 <= j < i ==> Fits(ops[j], files', oks[j], log[j])
    {
      ghost var before, known := Now(v), files';
      var ok;
      ghost var ev;
      files', ok, ev := Step(v, ops[i], files');
      TellsStep(o, log, before, Now(v), ev);
      forall j | 0 <= j < i ensures Fits(ops[j], files', oks[j], log[j]) {
        FitsMore(ops[j], known, files', oks[j], log[j]);
      }
      FitsMore(ops[i], known, files', ok, ev);
      oks, log := oks + [ok], log + [ev];
      AllGrowTrans(old(v.chains), before.chains, v.chains);
      KeptStep(o, before, Now(v), ops[..i], ops[i], known, files');
      assert ops[..i] + [ops[i]] == ops[..i + 1];
      i := i + 1;
    }
    assert ops[..i] == ops;
  }

  lemma FitsMore(op: Op, files: seq<nat>, files': seq<nat>, ok: bool, ev: Event)
    requires Fits(op, files, ok, ev) && files <= files'
    ensures Fits(op, files', ok, ev)
  {}

  lemma AllGrowTrans(a: map<nat, seq<nat>>, b: map<nat, seq<nat>>, c: map<nat, seq<nat>>)
    requires AllGrow(a, b) && AllGrow(b, c)
    ensures AllGrow(a, c)
  {
    forall k | k in a ensures k in c && a[k] <= c[k] {
      assert forall i :: 0 <= i < |a[k]| ==> a[k][i] == b[k][i] == c[k][i];
    }
  }
}
