/** The FAT32 driver: cluster allocation, chains, whole-file and in-place writes, reads. */
module Fat32 {
  import opened Common
  import opened FatLayout
  import opened FatChains

  const INVALID_CLUSTER: nat := 0

  /** __fat32_calculate_lba and __fat32_calculate_offset. */
  function CalcLba(g: Geometry, c: nat): nat { if c >= g.maxCluster then 0 else g.fatStart + c * 4 / SECTOR }

  function CalcOffset(g: Geometry, c: nat): nat { if c >= g.maxCluster then 0 else c * 4 % SECTOR }

  lemma CalcIsEntry(g: Geometry, c: nat)
    requires c < g.maxCluster
    ensures CalcLba(g, c) == FatSector(g, 0, c) && CalcLba(g, c) + g.spf == FatSector(g, 1, c)
    ensures CalcOffset(g, c) / 4 == c % ENTRIES_PER_SECTOR
  {}

  /** The least free cluster that is at least 2 and at least the hint: what a linear search of the FAT would find. */
  ghost predicate LeastFree(fat: seq<nat>, hint: nat, c: nat) {
    && 2 <= c < |fat| && hint <= c && IsFree(fat[c])
    && NoneFree(fat, hint, c)
  }

  ghost predicate NoneFree(fat: seq<nat>, lo: nat, hi: nat) {
    forall d :: lo <= d < hi && 2 <= d < |fat| ==> !IsFree(fat[d])
  }

  /** Free means that the low 28 bits are zero. */
  lemma FreeMeans(fat: seq<nat>, hint: nat, c: nat)
    requires 2 <= c < |fat| && hint <= c
    ensures LeastFree(fat, hint, c) <==>
              fat[c] % 0x1000_0000 == 0 && forall d :: hint <= d < c && 2 <= d ==> fat[d] % 0x1000_0000 != 0
    ensures NoneFree(fat, hint, |fat|) <==> forall d :: hint <= d < |fat| && 2 <= d ==> fat[d] % 0x1000_0000 != 0
  {
    assert forall d :: hint <= d < |fat| && 2 <= d ==> (IsFree(fat[d]) <==> fat[d] % 0x1000_0000 == 0);
  }

  /** FAT entries past the last cluster are never free, so the scan cannot run past the data region. */
  ghost predicate TailFull(fat: seq<nat>, max: nat) { forall c :: max <= c < |fat| ==> !IsFree(fat[c]) }

  class Volume {
    const g: Geometry
    var disk: Disk
    var lastAllocated: nat
    /** The flat FAT, the clusters' contents and the chains the disk stands for. */
    ghost var fat: seq<nat>
    ghost var data: seq<seq<byte>>
    ghost var chains: map<nat, seq<nat>>
    /** Sector reads and buffer allocations that failed so far. */
    ghost var faults: nat
    /** The disk as it was mounted; the sectors that are neither FAT nor cluster stay like it. */
    ghost const image: Disk

    ghost predicate Valid()
      reads this
    {
      && Represents(disk, g, fat, data) && Untouched(disk, g, image)
      && TailFull(fat, g.maxCluster)
      && Forest(fat, g.maxCluster, chains)
    }

    constructor (geometry: Geometry, initial: Disk, ghost fat0: seq<nat>, ghost data0: seq<seq<byte>>,
                 ghost chains0: map<nat, seq<nat>>)
      requires Represents(initial, geometry, fat0, data0) && TailFull(fat0, geometry.maxCluster)
      requires Forest(fat0, geometry.maxCluster, chains0)
      ensures Valid() && fat == fat0 && data == data0 && chains == chains0 && lastAllocated == 0
      ensures image == initial && g == geometry
    {
      g, disk, lastAllocated, image := geometry, initial, 0, initial;
      fat, data, chains, faults := fat0, data0, chains0, 0;
    }

    /** The environment may fail a buffer allocation or a sector read. */
    method Fails() returns (failed: bool)
      modifies this`faults
      ensures faults == old(faults) + if failed then 1 else 0
    {
      failed := *;
      if failed {
        faults := faults + 1;
      }
    }

    /**
     * The masked FAT entry of a cluster; 0 when a buffer or the read fails. A number past the last cluster reads the
     * first word of the disk.
     */
    method NextCluster(c: nat) returns (n: nat)
      requires Valid()
      modifies this`faults
      ensures |fat| >= g.maxCluster && |disk| > 0
      ensures faults == old(faults) ==> n == Masked(if c < g.maxCluster then fat[c] else WordAt(disk[0], 0))
      ensures faults != old(faults) ==> faults == old(faults) + 1 && n == INVALID_CLUSTER
      ensures faults == old(faults) ==> LowBits(disk, if c < g.maxCluster then g.fatStart * SECTOR + 4 * c else 0, n)
    {
      hide Represents, Forest, TailFull, WordAt, Masked, LowBits;
      FirstWord(disk, g, fat, data);
      FatSize(disk, g, fat, data);
      DiskHasSectors(disk, g, fat, data);
      var noBuffer := Fails();
      if noBuffer {
        return INVALID_CLUSTER;
      }
      var lba, offset := CalcLba(g, c), CalcOffset(g, c);
      if c < g.maxCluster {
        CalcIsEntry(g, c);
        EntryRead(disk, g, fat, data, c);
        EntryLowBits(disk, g, fat, data, c);
      }
      var readFails := Fails();
      if readFails {
        return INVALID_CLUSTER;
      }
      n := Masked(WordAt(disk[lba], offset / 4));
    }

    /** Writes one FAT word to both copies. */
    method SetCluster(c: nat, v: nat) returns (st: Status)
      requires Represents(disk, g, fat, data) && c < g.maxCluster && v < WORD
      modifies this`disk, this`fat, this`faults
      ensures Represents(disk, g, fat, data)
      ensures faults >= old(faults)
      ensures st == Ok <==> faults == old(faults)
      ensures fat == if st == Ok then old(fat)[c := v] else old(fat)
      ensures old(Untouched(disk, g, image)) ==> Untouched(disk, g, image)
      ensures st == Error ==> disk == old(disk)
      ensures st == Ok ==> EntryWritten(old(disk), disk, g, c, v)
    {
      hide Represents, WordAt, WithWord, EntryWritten, Untouched;
      var noBuffer := Fails();
      if noBuffer {
        return Error;
      }
      var lba, offset := CalcLba(g, c), CalcOffset(g, c);
      CalcIsEntry(g, c);
      EntryRead(disk, g, fat, data, c);
      WithEntryRepresents(disk, g, fat, data, c, v);
      WithEntryBytes(disk, g, fat, data, c, v);
      var readFails := Fails();
      if readFails {
        return Error;
      }
      var buf := WithWord(disk[lba], offset / 4, v);
      SetUntouched(disk, g, fat, data, image, c, buf);
      disk := disk[lba := buf];
      disk := disk[lba + g.spf := buf];
      fat := fat[c := v];
      st := Ok;
    }

    /** Reads the sectors of a cluster into one buffer. */
    method ReadCluster(c: nat) returns (st: Status, buf: seq<byte>)
      requires Represents(disk, g, fat, data) && c < g.maxCluster
      modifies this`faults
      ensures faults >= old(faults)
      ensures st == Ok <==> c >= 2 && faults == old(faults)
      ensures st == Ok ==> buf == data[c]
    {
      hide GeometryOk, FatMirrored, ClusterData;
      buf := [];
      if c < 2 {
        return Error, buf;
      }
      var first := g.DataSector(c);
      DataRead(disk, g, fat, data, c);
      var i := 0;
      while i < g.spc
        invariant 0 <= i <= g.spc && faults == old(faults)
        invariant |buf| == i * SECTOR && i * SECTOR <= |data[c]| && buf == data[c][..i * SECTOR]
      {
        var readFails := Fails();
        if readFails {
          return Error, buf;
        }
        SectorIsSlice(disk, g, c, i);
        buf := buf + disk[first + i];
        i := i + 1;
      }
      assert buf == data[c];
      st := Ok;
    }

    /** Writes one buffer over the sectors of a cluster. */
    method WriteCluster(c: nat, buf: seq<byte>) returns (st: Status)
      requires Represents(disk, g, fat, data) && c < g.maxCluster && |buf| == g.ClusterSize()
      modifies this`disk, this`data
      ensures Represents(disk, g, fat, data)
      ensures st == Ok <==> c >= 2
      ensures data == if st == Ok then old(data)[c := buf] else old(data)
      ensures old(Untouched(disk, g, image)) ==> Untouched(disk, g, image)
      ensures st == Ok ==> ClusterWritten(old(disk), disk, g, c, buf, g.spc)
      ensures st == Error ==> disk == old(disk)
    {
      hide Untouched, GeometryOk, FatMirrored, ClusterData, DataHeld, SectorHolds;
      if c < 2 {
        return Error;
      }
      var first := g.DataSector(c);
      DataRead(disk, g, fat, data, c);
      var i := 0;
      while i < g.spc
        invariant 0 <= i <= g.spc && data == old(data)
        invariant ClusterWritten(old(disk), disk, g, c, buf, i)
      {
        SliceInBuffer(g, buf, i);
        disk := disk[first + i := buf[i * SECTOR..i * SECTOR + SECTOR]];
        i := i + 1;
      }
      ClusterWrittenRepresents(old(disk), disk, g, fat, data, c, buf);
      if old(Untouched(disk, g, image)) { ClusterUntouched(old(disk), disk, g, image, c, buf); }
      data := data[c := buf];
      st := Ok;
    }

    /** The first entry of the sector, from `from` on, that is free and not one of the two reserved ones. */
    method ScanSector(i: nat, from: nat, s: Sector) returns (j: nat)
      requires from <= ENTRIES_PER_SECTOR
      ensures from <= j <= ENTRIES_PER_SECTOR
      ensures j < ENTRIES_PER_SECTOR ==> IsFree(WordAt(s, j)) && i * ENTRIES_PER_SECTOR + j >= 2
      ensures forall k :: from <= k < j && i * ENTRIES_PER_SECTOR + k >= 2 ==> !IsFree(WordAt(s, k))
    {
      j := from;
      while j < ENTRIES_PER_SECTOR
        invariant from <= j <= ENTRIES_PER_SECTOR
        invariant forall k :: from <= k < j && i * ENTRIES_PER_SECTOR + k >= 2 ==> !IsFree(WordAt(s, k))
      {
        if !(i == 0 && j < 2) && IsFree(WordAt(s, j)) {
          return;
        }
        j := j + 1;
      }
    }

    /**
     * Sector by sector from the hint: claims the least free cluster at or above max(2, hint), marks it end of
     * chain in both FATs and makes it the new hint. 0 when there is none or a read fails.
     */
    method AllocCluster() returns (c: nat)
      requires Valid()
      modifies this`disk, this`fat, this`chains, this`faults, this`lastAllocated
      ensures Valid()
      ensures c == 0 ==> fat == old(fat) && chains == old(chains) && lastAllocated == old(lastAllocated)
      ensures c == 0 && faults == old(faults) ==> NoneFree(fat, lastAllocated, |fat|)
      ensures faults >= old(faults)
      ensures c != 0 ==> faults == old(faults)
      ensures c != 0 ==> LeastFree(old(fat), old(lastAllocated), c) && c < g.maxCluster
      ensures c != 0 ==> fat == old(fat)[c := EOC] && chains == old(chains)[c := [c]] && lastAllocated == c
      ensures c != 0 ==> !OnChain(old(chains), c) && c !in old(chains)
      ensures if c == 0 then disk == old(disk) else EntryWritten(old(disk), disk, g, c, 0x0FFF_FFFF)
      ensures old(Covered(fat, g.maxCluster, chains)) ==> Covered(fat, g.maxCluster, chains)
    {
      hide GeometryOk, DataHeld, Forest, TailFull, Covered, OnChain, LeastFree, NoneFree, WordAt, WithWord, Untouched,
           EntryWritten;
      c := 0;
      var noBuffer := Fails();
      if noBuffer {
        return;
      }
      FatSize(disk, g, fat, data);
      var first, from, i := lastAllocated / ENTRIES_PER_SECTOR, lastAllocated % ENTRIES_PER_SECTOR,
          lastAllocated / ENTRIES_PER_SECTOR;
      NoneFreeStart(fat, lastAllocated);
      while i < g.spf
        invariant first <= i && faults == old(faults) && lastAllocated == old(lastAllocated)
        invariant disk == old(disk) && fat == old(fat) && chains == old(chains)
        invariant NoneFree(fat, lastAllocated, i * ENTRIES_PER_SECTOR)
        decreases g.spf - i
      {
        var readFails := Fails();
        if readFails {
          return;
        }
        FatSectorHeld(disk, g, fat, data, i);
        var buf := disk[g.fatStart + i];
        var j := ScanSector(i, if i == first then from else 0, buf);
        ScanExtends(buf, fat, lastAllocated, i, j);
        if j < ENTRIES_PER_SECTOR {
          c := i * ENTRIES_PER_SECTOR + j;
          ClaimFound(disk, g, fat, data, image, chains, lastAllocated, c);
          buf := WithWord(buf, j, EOC);
          disk := disk[g.fatStart + i := buf];
          disk := disk[g.fatStart + g.spf + i := buf];
          fat, chains := fat[c := EOC], chains[c := [c]];
          lastAllocated := c;
          return;
        }
        i := i + 1;
      }
      NoneFreeEnd(fat, lastAllocated, i * ENTRIES_PER_SECTOR);
    }

    /**
     * The cluster after `c` on its chain: the next one, or a new one claimed and linked behind the last. On an
     * error chain `h` may have grown, or the claimed cluster is left as a chain of its own.
     */
    method LinkClusterChain(c: nat, ghost h: nat, ghost i: nat) returns (n: nat)
      requires Valid() && h in chains && i < |chains[h]| && chains[h][i] == c
      modifies this`disk, this`fat, this`chains, this`faults, this`lastAllocated
      ensures Valid() && Grows(old(chains), chains, h)
      ensures faults >= old(faults)
      ensures n != 0 ==> faults == old(faults)
      ensures n != 0 ==> i + 1 < |chains[h]| && n == chains[h][i + 1]
      ensures n != 0 && i + 1 < |old(chains)[h]| ==>
                chains == old(chains) && fat == old(fat) && lastAllocated == old(lastAllocated)
      ensures n != 0 && i + 1 == |old(chains)[h]| ==>
                Extended(old(fat), old(chains), old(lastAllocated), fat, chains, lastAllocated, h, n)
      ensures n == 0 && faults == old(faults) ==> i + 1 == |chains[h]| && NoneFree(fat, lastAllocated, |fat|)
      ensures old(Covered(fat, g.maxCluster, chains)) ==> Covered(fat, g.maxCluster, chains)
    {
      hide Represents, Forest, TailFull, Covered, NoneFree, OnChain, IsChain, LowBits, EntryWritten;
      ForestChain(fat, g.maxCluster, chains, h);
      ChainStep(fat, g.maxCluster, chains[h], i);
      n := NextCluster(c);
      if n >= EOC_MIN {
        n := AllocCluster();
        if n == INVALID_CLUSTER {
          return;
        }
        ForestChain(fat, g.maxCluster, chains, n);
        ChainStep(fat, g.maxCluster, chains[n], 0);
        LinkFresh(old(fat), fat, g.maxCluster, old(chains), chains, h, n);
        var st := SetCluster(c, n);
        if st == Error {
          return INVALID_CLUSTER;
        }
        chains := Appended(chains, h, n);
        LinkReseal(fat, g.maxCluster, chains, h, n);
        st := SetCluster(n, EOC);
        if st == Error {
          return INVALID_CLUSTER;
        }
      }
    }
  }

  lemma DiskHasSectors(disk: Disk, g: Geometry, fat: seq<nat>, data: seq<seq<byte>>)
    requires Represents(disk, g, fat, data)
    ensures |disk| > 0
  {
    FatSectorInRange(g, |disk|, 0, 0);
  }

  lemma SetUntouched(disk: Disk, g: Geometry, fat: seq<nat>, data: seq<seq<byte>>, image: Disk, c: nat, s: Sector)
    requires Represents(disk, g, fat, data) && c < g.maxCluster
    ensures FatSector(g, 0, c) < |disk| && FatSector(g, 1, c) < |disk|
    ensures Untouched(disk, g, image) ==> Untouched(disk[FatSector(g, 0, c) := s][FatSector(g, 1, c) := s], g, image)
  {
    EntryRead(disk, g, fat, data, c);
    if Untouched(disk, g, image) { EntryUntouched(disk, g, image, c, s); }
  }

  lemma FirstWord(disk: Disk, g: Geometry, fat: seq<nat>, data: seq<seq<byte>>)
    requires Represents(disk, g, fat, data)
    ensures disk != [] && LowBits(disk, 0, Masked(WordAt(disk[0], 0)))
  {
    DiskHasSectors(disk, g, fat, data);
  }

  lemma EntryLowBits(disk: Disk, g: Geometry, fat: seq<nat>, data: seq<seq<byte>>, c: nat)
    requires Represents(disk, g, fat, data) && c < |fat|
    ensures LowBits(disk, g.fatStart * SECTOR + 4 * c, Masked(fat[c]))
  {
    hide Represents, ByteAt;
    EntryBytes(disk, g, fat, data, 0, c);
    assert EntryAddress(g, 0, c) == g.fatStart * SECTOR + 4 * c;
  }

  lemma EntryRead(disk: Disk, g: Geometry, fat: seq<nat>, data: seq<seq<byte>>, c: nat)
    requires Represents(disk, g, fat, data) && c < g.maxCluster
    ensures c < |fat| && FatSector(g, 0, c) < |disk| && FatSector(g, 1, c) < |disk|
    ensures WordAt(disk[FatSector(g, 0, c)], c % ENTRIES_PER_SECTOR) == fat[c]
  {
    assert EntryIs(disk, g, 0, c, fat[c]) && EntryIs(disk, g, 1, c, fat[c]);
  }

  lemma DataRead(disk: Disk, g: Geometry, fat: seq<nat>, data: seq<seq<byte>>, c: nat)
    requires Represents(disk, g, fat, data) && 2 <= c < g.maxCluster
    ensures |data| == g.maxCluster && g.DataSector(c) + g.spc <= |disk| && data[c] == ClusterData(disk, g, c)
    ensures |data[c]| == g.spc * SECTOR
  {
    assert ClusterIs(disk, g, c, data[c]);
  }

  lemma SectorIsSlice(disk: Disk, g: Geometry, c: nat, i: nat)
    requires 2 <= c && g.DataSector(c) + g.spc <= |disk| && i < g.spc
    ensures (i + 1) * SECTOR <= |ClusterData(disk, g, c)|
    ensures var d := ClusterData(disk, g, c);
            d[..i * SECTOR] + disk[g.DataSector(c) + i] == d[..(i + 1) * SECTOR]
  {
    var d := ClusterData(disk, g, c);
    assert i * SECTOR + SECTOR == (i + 1) * SECTOR <= g.spc * SECTOR;
    var sector := disk[g.DataSector(c) + i];
    forall k | 0 <= k < SECTOR ensures d[i * SECTOR + k] == sector[k] {
      assert (i * SECTOR + k) / SECTOR == i && (i * SECTOR + k) % SECTOR == k;
    }
  }

  lemma SliceInBuffer(g: Geometry, buf: seq<byte>, i: nat)
    requires |buf| == g.ClusterSize() && i < g.spc
    ensures i * SECTOR + SECTOR <= |buf| && SectorHolds(buf[i * SECTOR..i * SECTOR + SECTOR], buf, i)
  {}

  lemma FatSize(disk: Disk, g: Geometry, fat: seq<nat>, data: seq<seq<byte>>)
    requires Represents(disk, g, fat, data)
    ensures |fat| == g.spf * ENTRIES_PER_SECTOR && g.maxCluster <= |fat| && 2 <= g.maxCluster <= BAD
    ensures |data| == g.maxCluster
  {}

  lemma NoneFreeStart(fat: seq<nat>, hint: nat)
    ensures NoneFree(fat, hint, hint / ENTRIES_PER_SECTOR * ENTRIES_PER_SECTOR)
  {}

  lemma NoneFreeEnd(fat: seq<nat>, hint: nat, hi: nat)
    requires NoneFree(fat, hint, hi) && hi >= |fat|
    ensures NoneFree(fat, hint, |fat|)
  {}

  /** Sector `i` of the first FAT copy holds entries 128i to 128i + 127. */
  lemma FatSectorHeld(disk: Disk, g: Geometry, fat: seq<nat>, data: seq<seq<byte>>, i: nat)
    requires Represents(disk, g, fat, data) && i < g.spf
    ensures g.fatStart + g.spf + i < |disk| && |fat| == g.spf * ENTRIES_PER_SECTOR
    ensures (i + 1) * ENTRIES_PER_SECTOR <= |fat|
    ensures HoldsEntries(disk[g.fatStart + i], fat, i)
  {
    var c := i * ENTRIES_PER_SECTOR;
    assert c < |fat| by { assert (i + 1) * ENTRIES_PER_SECTOR <= g.spf * ENTRIES_PER_SECTOR; }
    FatSectorInRange(g, |disk|, 1, c);
    assert FatSector(g, 1, c) == g.fatStart + g.spf + i;
    var s := disk[g.fatStart + i];
    forall j | 0 <= j < ENTRIES_PER_SECTOR ensures WordAt(s, j) == fat[c + j] {
      assert EntryIs(disk, g, 0, c + j, fat[c + j]);
      assert (c + j) / ENTRIES_PER_SECTOR == i && (c + j) % ENTRIES_PER_SECTOR == j;
    }
  }

  ghost predicate HoldsEntries(s: Sector, fat: seq<nat>, i: nat) {
    (i + 1) * ENTRIES_PER_SECTOR <= |fat| && forall j :: 0 <= j < ENTRIES_PER_SECTOR ==>
        WordAt(s, j) == fat[i * ENTRIES_PER_SECTOR + j]
  }

  /** The entry of FAT sector `i` that the scan begins with. */
  function ScanFrom(hint: nat, i: nat): nat {
    if i == hint / ENTRIES_PER_SECTOR then hint % ENTRIES_PER_SECTOR else 0
  }

  /** One more sector scanned up to entry `j`. */
  lemma ScanExtends(s: Sector, fat: seq<nat>, hint: nat, i: nat, j: nat)
    requires HoldsEntries(s, fat, i) && hint / ENTRIES_PER_SECTOR <= i && j <= ENTRIES_PER_SECTOR
    requires NoneFree(fat, hint, i * ENTRIES_PER_SECTOR)
    requires ScanFrom(hint, i) <= j
    requires forall k :: ScanFrom(hint, i) <= k < j && i * ENTRIES_PER_SECTOR + k >= 2 ==> !IsFree(WordAt(s, k))
    ensures NoneFree(fat, hint, i * ENTRIES_PER_SECTOR + j) && i * ENTRIES_PER_SECTOR + j >= hint
    ensures j < ENTRIES_PER_SECTOR ==>
              i * ENTRIES_PER_SECTOR + j < |fat| && WordAt(s, j) == fat[i * ENTRIES_PER_SECTOR + j]
  {
    hide WordAt, IsFree;
    forall d | hint <= d < i * ENTRIES_PER_SECTOR + j && 2 <= d < |fat| ensures !IsFree(fat[d]) {
      if d >= i * ENTRIES_PER_SECTOR {
        assert WordAt(s, d - i * ENTRIES_PER_SECTOR) == fat[d];
      }
    }
  }

  /** Marking a found free cluster: the disk, the FAT and the chains move together. */
  lemma ClaimFound(disk: Disk, g: Geometry, fat: seq<nat>, data: seq<seq<byte>>, image: Disk,
                   chains: map<nat, seq<nat>>, hint: nat, c: nat)
    requires Represents(disk, g, fat, data) && TailFull(fat, g.maxCluster) && Forest(fat, g.maxCluster, chains)
    requires 2 <= c < |fat| && hint <= c && IsFree(fat[c]) && NoneFree(fat, hint, c)
    ensures LeastFree(fat, hint, c) && c < g.maxCluster && !OnChain(chains, c) && c !in chains
    ensures FatSector(g, 0, c) < |disk| && FatSector(g, 1, c) < |disk|
    ensures FatSector(g, 0, c) == g.fatStart + c / ENTRIES_PER_SECTOR
    ensures FatSector(g, 1, c) == g.fatStart + g.spf + c / ENTRIES_PER_SECTOR
    ensures Represents(WithEntry(disk, g, c, EOC), g, fat[c := EOC], data)
    ensures EntryWritten(disk, WithEntry(disk, g, c, EOC), g, c, 0x0FFF_FFFF)
    ensures Untouched(disk, g, image) ==> Untouched(WithEntry(disk, g, c, EOC), g, image)
    ensures TailFull(fat[c := EOC], g.maxCluster) && Forest(fat[c := EOC], g.maxCluster, chains[c := [c]])
    ensures Covered(fat, g.maxCluster, chains) ==> Covered(fat[c := EOC], g.maxCluster, chains[c := [c]])
  {
    hide WordAt, WithWord, GeometryOk, FatMirrored, DataHeld, Forest, Covered, OnChain, EntryWritten, Untouched;
    FatSize(disk, g, fat, data);
    WithEntryRepresents(disk, g, fat, data, c, EOC);
    WithEntryBytes(disk, g, fat, data, c, EOC);
    SetUntouched(disk, g, fat, data, image, c, WithWord(disk[FatSector(g, 0, c)], c % ENTRIES_PER_SECTOR, EOC));
    ForestClaim(fat, g.maxCluster, chains, c);
  }

  /** Chain `h` grew by the least free cluster. */
  ghost predicate Extended(fat: seq<nat>, chains: map<nat, seq<nat>>, hint: nat, fat': seq<nat>,
                           chains': map<nat, seq<nat>>, hint': nat, h: nat, n: nat) {
    && h in chains && |chains[h]| > 0 && Last(chains[h]) < |fat|
    && LeastFree(fat, hint, n) && hint' == n && !OnChain(chains, n)
    && fat' == fat[Last(chains[h]) := n][n := EOC]
    && chains' == chains[h := chains[h] + [n]]
  }

  lemma TailKept(fat: seq<nat>, max: nat, c: nat, v: nat)
    requires TailFull(fat, max) && c < max && c < |fat|
    ensures TailFull(fat[c := v], max)
  {}

  /** A freshly claimed cluster `n`, linked behind the last cluster of chain `h`. */
  lemma LinkFresh(fat: seq<nat>, fat': seq<nat>, max: nat, chains: map<nat, seq<nat>>, chains': map<nat, seq<nat>>,
                  h: nat, n: nat)
    requires Forest(fat, max, chains) && h in chains && n !in chains && !OnChain(chains, n) && n < |fat|
    requires chains' == chains[n := [n]] && fat' == fat[n := EOC] && Forest(fat', max, chains') && TailFull(fat', max)
    ensures Grows(chains, chains', h) && |chains[h]| > 0
    ensures var l := Last(chains[h]); 2 <= l < max && l < |fat'| && l != n
    ensures var l := Last(chains[h]);
            var linked := fat'[l := n];
            && linked[n := EOC] == fat[l := n][n := EOC]
            && TailFull(linked, max)
            && Appended(chains', h, n) == chains[h := chains[h] + [n]]
            && Grows(chains, Appended(chains', h, n), h)
            && Forest(linked, max, Appended(chains', h, n))
            && (Covered(fat', max, chains') ==> Covered(linked, max, Appended(chains', h, n)))
  {
    var s := chains[h];
    ForestChain(fat, max, chains, h);
    ChainInUse(fat, max, s, |s| - 1);
    hide Covered;
    var l := Last(s);
    assert l in s;
    ForestAppend(fat', max, chains', h, n);
    hide Forest;
    assert fat'[l := n][n := EOC] == fat[l := n][n := EOC];
    TailKept(fat', max, l, n);
  }

  lemma LinkReseal(fat: seq<nat>, max: nat, chains: map<nat, seq<nat>>, h: nat, n: nat)
    requires Forest(fat, max, chains) && h in chains && |chains[h]| > 0 && Last(chains[h]) == n && TailFull(fat, max)
    requires n < max
    ensures n < |fat| && Forest(fat[n := EOC], max, chains) && TailFull(fat[n := EOC], max)
    ensures Covered(fat, max, chains) ==> Covered(fat[n := EOC], max, chains)
  {
    hide Covered, Forest, TailFull;
    ForestReseal(fat, max, chains, h);
    TailKept(fat, max, n, EOC);
  }
}
