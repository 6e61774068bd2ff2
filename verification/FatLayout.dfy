/** The FAT32 volume on disk: sectors, two FAT copies of little-endian words, and the data region of clusters. */
module FatLayout {

  newtype byte = x: int | 0 <= x < 256

  const SECTOR: nat := 512
  const ENTRIES_PER_SECTOR: nat := 128
  const WORD: nat := 0x1_0000_0000
  const MASK: nat := 0x1000_0000            // entries are taken modulo 2^28
  const EOC: nat := 0x0FFF_FFFF
  const EOC_MIN: nat := 0x0FFF_FFF8
  const BAD: nat := 0x0FFF_FFF7

  type Sector = s: seq<byte> | |s| == SECTOR witness seq(SECTOR, _ => 0)
  type Disk = seq<Sector>

  // ---------------------------------------------------------------- little-endian words

  function Word32(b: seq<byte>): nat
    requires |b| == 4
  {
    b[0] as nat + 0x100 * b[1] as nat + 0x1_0000 * b[2] as nat + 0x100_0000 * b[3] as nat
  }

  function Bytes32(v: nat): (b: seq<byte>)
    requires v < WORD
    ensures |b| == 4
  {
    [(v % 0x100) as byte, (v / 0x100 % 0x100) as byte, (v / 0x1_0000 % 0x100) as byte, (v / 0x100_0000 % 0x100) as byte]
  }

  lemma Word32OfBytes(v: nat)
    requires v < WORD
    ensures Word32(Bytes32(v)) == v
  {
    var a := v / 0x100;
    var b := a / 0x100;
    var c := b / 0x100;
    assert v / 0x1_0000 == b && v / 0x100_0000 == c && c < 0x100;
    assert v == v % 0x100 + 0x100 * (a % 0x100 + 0x100 * (b % 0x100 + 0x100 * c));
  }

  lemma BytesOfWord32(b: seq<byte>)
    requires |b| == 4
    ensures Word32(b) < WORD && Bytes32(Word32(b)) == b
  {
    var v := Word32(b);
    var x := b[1] as nat + 0x100 * b[2] as nat + 0x1_0000 * b[3] as nat;
    var y := b[2] as nat + 0x100 * b[3] as nat;
    assert v == b[0] as nat + 0x100 * x && x == b[1] as nat + 0x100 * y && y == b[2] as nat + 0x100 * b[3] as nat;
    assert v / 0x100 == x && v % 0x100 == b[0] as nat;
    assert v / 0x1_0000 == x / 0x100 == y && x % 0x100 == b[1] as nat;
    assert v / 0x100_0000 == y / 0x100 == b[3] as nat && y % 0x100 == b[2] as nat;
  }

  /** Word `j` of a sector, and the sector with that word replaced. */
  function WordAt(s: Sector, j: nat): nat
    requires j < ENTRIES_PER_SECTOR
  {
    Word32(s[4 * j..4 * j + 4])
  }

  function WithWord(s: Sector, j: nat, v: nat): Sector
    requires j < ENTRIES_PER_SECTOR && v < WORD
  {
    s[..4 * j] + Bytes32(v) + s[4 * j + 4..]
  }

  /** Replacing one word of a sector changes that word only. */
  lemma WithWordAt(s: Sector, j: nat, v: nat, k: nat)
    requires j < ENTRIES_PER_SECTOR && k < ENTRIES_PER_SECTOR && v < WORD
    ensures WordAt(WithWord(s, j, v), k) == if k == j then v else WordAt(s, k)
  {
    hide Word32, Bytes32;
    var t := WithWord(s, j, v);
    if k == j {
      assert t[4 * j..4 * j + 4] == Bytes32(v);
      Word32OfBytes(v);
    } else if k < j {
      assert t[4 * k..4 * k + 4] == s[4 * k..4 * k + 4];
    } else {
      assert t[4 * k..4 * k + 4] == s[4 * k..4 * k + 4];
    }
  }

  // ---------------------------------------------------------------- geometry

  /** The fields of f32_fs that the driver computes with. */
  datatype Geometry = Geometry(fatStart: nat, spf: nat, spc: nat, dataStart: nat, maxCluster: nat) {
    function ClusterSize(): nat { spc * SECTOR }

    /** First sector of a cluster's data. */
    function DataSector(c: nat): nat
      requires c >= 2
    {
      dataStart + (c - 2) * spc
    }
  }

  /** 512-byte sectors, two FATs right before the data, a FAT that covers every cluster, and a disk that holds them. */
  ghost predicate GeometryOk(g: Geometry, sectors: nat) {
    && 0 < g.fatStart && 0 < g.spc && 0 < g.spf
    && g.dataStart == g.fatStart + 2 * g.spf
    && 2 <= g.maxCluster <= BAD && g.maxCluster <= g.spf * ENTRIES_PER_SECTOR
    && g.dataStart + (g.maxCluster - 2) * g.spc <= sectors
  }

  /** The BIOS parameter block fields that mounting reads. */
  datatype Bpb = Bpb(spc: nat, reserved: nat, fatCount: nat, totalSectors: nat, spf: nat)

  function Mount(b: Bpb, partition: nat): Geometry
    requires b.spc > 0 && b.reserved + b.fatCount * b.spf <= b.totalSectors
  {
    var fatStart := partition + b.reserved;
    Geometry(fatStart, b.spf, b.spc, fatStart + b.fatCount * b.spf,
        (b.totalSectors - b.reserved - b.fatCount * b.spf) / b.spc + 2)
  }

  /**
   * A mounted partition with two FATs that cover its clusters has a usable geometry: no cluster reaches past the
   * partition.
   */
  lemma MountOk(b: Bpb, partition: nat, sectors: nat)
    requires b.spc > 0 && b.spf > 0 && b.fatCount == 2 && b.reserved + b.fatCount * b.spf <= b.totalSectors
    requires partition + b.reserved > 0 && partition + b.totalSectors <= sectors
    requires Mount(b, partition).maxCluster <= BAD && Mount(b, partition).maxCluster <= b.spf * ENTRIES_PER_SECTOR
    ensures GeometryOk(Mount(b, partition), sectors)
    ensures var n := Mount(b, partition).maxCluster - 2;
            partition + b.reserved + 2 * b.spf + n * b.spc <= partition + b.totalSectors
              < partition + b.reserved + 2 * b.spf + n * b.spc + b.spc
  {
    var n := b.totalSectors - b.reserved - b.fatCount * b.spf;
    assert n / b.spc * b.spc + n % b.spc == n;
  }

  /**
   * Where things lie on a mounted partition: the FATs behind the reserved sectors, one behind the other, the clusters
   * behind the FATs.
   */
  lemma MountPlaces(b: Bpb, partition: nat, copy: nat, c: nat)
    requires b.spc > 0 && b.reserved + b.fatCount * b.spf <= b.totalSectors
    ensures var g := Mount(b, partition);
            && EntryAddress(g, copy, c) == (partition + b.reserved + copy * b.spf) * SECTOR + 4 * c
            && (c >= 2 ==> g.DataSector(c) == partition + b.reserved + b.fatCount * b.spf + (c - 2) * b.spc)
            && g.ClusterSize() == b.spc * SECTOR
  {}

  /** The sector of FAT copy `copy` that holds the entry of a cluster, and the entry's place in it. */
  function FatSector(g: Geometry, copy: nat, c: nat): nat { g.fatStart + copy * g.spf + c / ENTRIES_PER_SECTOR }

  function Entry(disk: Disk, g: Geometry, copy: nat, c: nat): nat
    requires FatSector(g, copy, c) < |disk|
  {
    WordAt(disk[FatSector(g, copy, c)], c % ENTRIES_PER_SECTOR)
  }

  lemma FatSectorInRange(g: Geometry, sectors: nat, copy: nat, c: nat)
    requires GeometryOk(g, sectors) && copy < 2 && c < g.spf * ENTRIES_PER_SECTOR
    ensures g.fatStart + copy * g.spf <= FatSector(g, copy, c) < g.fatStart + (copy + 1) * g.spf
    ensures FatSector(g, copy, c) < g.dataStart <= sectors
  {
    assert c / ENTRIES_PER_SECTOR < g.spf;
    assert copy * g.spf <= g.spf;
    ClusterSpan(g.maxCluster - 2, g.spc);
  }

  lemma ClusterSpan(n: nat, spc: nat)
    ensures 0 <= n * spc
  {}

  /** Distinct clusters occupy disjoint runs of sectors, after both FATs and within the disk. */
  lemma ClusterSectors(g: Geometry, sectors: nat, c: nat, i: nat)
    requires GeometryOk(g, sectors) && 2 <= c < g.maxCluster && i < g.spc
    ensures g.dataStart <= g.DataSector(c) + i < sectors
  {
    assert (c - 2) * g.spc + g.spc <= (g.maxCluster - 2) * g.spc by {
      assert (c - 2) * g.spc + g.spc == (c - 1) * g.spc;
      MulMono(c - 1, g.maxCluster - 2, g.spc);
    }
    ClusterSpan(c - 2, g.spc);
  }

  /** On a disk of at most 2^32 sectors the 32-bit address calculations do not wrap. */
  lemma NoOverflow(g: Geometry, sectors: nat, c: nat, i: nat)
    requires GeometryOk(g, sectors) && sectors <= WORD && 2 <= c < g.maxCluster && i < g.spc
    ensures 4 * c < WORD && FatSector(g, 0, c) <= FatSector(g, 1, c) < WORD
    ensures (c - 2) * g.spc <= g.DataSector(c) <= g.DataSector(c) + i < WORD
  {
    FatSectorInRange(g, sectors, 1, c);
    ClusterSectors(g, sectors, c, i);
  }

  lemma MulMono(a: nat, b: nat, k: nat)
    requires a <= b
    ensures a * k <= b * k
  {}

  lemma ClustersDisjoint(g: Geometry, c: nat, d: nat, i: nat, j: nat)
    requires 2 <= c && 2 <= d && c != d && i < g.spc && j < g.spc
    ensures g.DataSector(c) + i != g.DataSector(d) + j
  {
    if c < d {
      MulMono(c - 1, d - 2, g.spc);
      assert (c - 2) * g.spc + g.spc == (c - 1) * g.spc;
    } else {
      MulMono(d - 1, c - 2, g.spc);
      assert (d - 2) * g.spc + g.spc == (d - 1) * g.spc;
    }
  }

  // ---------------------------------------------------------------- the volume a disk represents

  function ClusterData(disk: Disk, g: Geometry, c: nat): (d: seq<byte>)
    requires 2 <= c && g.DataSector(c) + g.spc <= |disk|
    ensures |d| == g.ClusterSize()
  {
    seq(g.ClusterSize(), i requires 0 <= i < g.ClusterSize() =>
      SectorOffset(g, i); disk[g.DataSector(c) + i / SECTOR][i % SECTOR])
  }

  lemma SectorOffset(g: Geometry, i: nat)
    requires i < g.ClusterSize()
    ensures i / SECTOR < g.spc && i % SECTOR < SECTOR
  {}

  /** Both FAT copies hold the words of `fat`, and the data region holds the clusters of `data`. */
  ghost predicate FatMirrored(disk: Disk, g: Geometry, fat: seq<nat>)
    requires GeometryOk(g, |disk|)
  {
    && |fat| == g.spf * ENTRIES_PER_SECTOR
    && forall copy, c :: 0 <= copy < 2 && 0 <= c < |fat| ==> EntryIs(disk, g, copy, c, fat[c])
  }

  ghost predicate EntryIs(disk: Disk, g: Geometry, copy: nat, c: nat, v: nat) {
    FatSector(g, copy, c) < |disk| && Entry(disk, g, copy, c) == v
  }

  ghost predicate DataHeld(disk: Disk, g: Geometry, data: seq<seq<byte>>) {
    && |data| == g.maxCluster
    && forall c :: 2 <= c < g.maxCluster ==> ClusterIs(disk, g, c, data[c])
  }

  ghost predicate ClusterIs(disk: Disk, g: Geometry, c: nat, d: seq<byte>)
    requires c >= 2
  {
    g.DataSector(c) + g.spc <= |disk| && ClusterData(disk, g, c) == d
  }

  ghost predicate Represents(disk: Disk, g: Geometry, fat: seq<nat>, data: seq<seq<byte>>) {
    GeometryOk(g, |disk|) && FatMirrored(disk, g, fat) && DataHeld(disk, g, data)
  }

  lemma SameSectorEntry(c: nat, d: nat)
    ensures c / ENTRIES_PER_SECTOR == d / ENTRIES_PER_SECTOR && c % ENTRIES_PER_SECTOR == d % ENTRIES_PER_SECTOR ==>
              c == d
  {}

  /** The disk after a FAT word is written to both copies from a buffer of the first copy's sector. */
  function WithEntry(disk: Disk, g: Geometry, c: nat, v: nat): Disk
    requires FatSector(g, 0, c) < |disk| && FatSector(g, 1, c) < |disk| && v < WORD
  {
    var s := WithWord(disk[FatSector(g, 0, c)], c % ENTRIES_PER_SECTOR, v);
    disk[FatSector(g, 0, c) := s][FatSector(g, 1, c) := s]
  }

  /** Sector arithmetic is exact: writing one FAT word changes one link, in both copies, and no data. */
  lemma WithEntryRepresents(disk: Disk, g: Geometry, fat: seq<nat>, data: seq<seq<byte>>, c: nat, v: nat)
    requires Represents(disk, g, fat, data) && c < |fat| && v < WORD
    ensures FatSector(g, 0, c) < |disk| && FatSector(g, 1, c) < |disk|
    ensures Represents(WithEntry(disk, g, c, v), g, fat[c := v], data)
  {
    hide WordAt, WithWord, FatSector, ClusterData, GeometryOk;
    FatSectorInRange(g, |disk|, 0, c);
    FatSectorInRange(g, |disk|, 1, c);
    var disk', fat' := WithEntry(disk, g, c, v), fat[c := v];
    forall copy, d | 0 <= copy < 2 && 0 <= d < |fat| ensures EntryIs(disk', g, copy, d, fat'[d]) {
      WithEntryAt(disk, g, fat, c, v, copy, d);
    }
    forall d | 2 <= d < g.maxCluster ensures ClusterIs(disk', g, d, data[d]) {
      assert ClusterIs(disk, g, d, data[d]);
      WithEntryKeepsData(disk, g, c, v, d);
    }
  }

  lemma WithEntryAt(disk: Disk, g: Geometry, fat: seq<nat>, c: nat, v: nat, copy: nat, d: nat)
    requires GeometryOk(g, |disk|) && FatMirrored(disk, g, fat) && c < |fat| && d < |fat| && v < WORD && copy < 2
    requires FatSector(g, 0, c) < |disk| && FatSector(g, 1, c) < |disk|
    ensures EntryIs(WithEntry(disk, g, c, v), g, copy, d, fat[c := v][d])
  {
    hide WordAt, WithWord, GeometryOk;
    assert EntryIs(disk, g, copy, d, fat[d]) && EntryIs(disk, g, 0, d, fat[d]);
    FatSectorInRange(g, |disk|, copy, d);
    FatSectorInRange(g, |disk|, 0, c);
    FatSectorInRange(g, |disk|, 1, c);
    WithWordAt(disk[FatSector(g, 0, c)], c % ENTRIES_PER_SECTOR, v, d % ENTRIES_PER_SECTOR);
    SameSectorEntry(c, d);
  }

  lemma WithEntryKeepsData(disk: Disk, g: Geometry, c: nat, v: nat, d: nat)
    requires GeometryOk(g, |disk|) && c < g.spf * ENTRIES_PER_SECTOR && v < WORD && 2 <= d < g.maxCluster
    requires FatSector(g, 0, c) < |disk| && FatSector(g, 1, c) < |disk|
    requires g.DataSector(d) + g.spc <= |disk|
    ensures ClusterData(WithEntry(disk, g, c, v), g, d) == ClusterData(disk, g, d)
  {
    hide WordAt, WithWord, GeometryOk, FatSector;
    FatSectorInRange(g, |disk|, 0, c);
    FatSectorInRange(g, |disk|, 1, c);
    var disk' := WithEntry(disk, g, c, v);
    forall i | 0 <= i < g.ClusterSize() ensures ClusterData(disk', g, d)[i] == ClusterData(disk, g, d)[i] {
      SectorOffset(g, i);
      ClusterSectors(g, |disk|, d, i / SECTOR);
    }
  }

  /** `disk'` differs from `disk` only in the sectors of cluster `c`, which hold `buf`. */
  ghost predicate ClusterWritten(disk: Disk, disk': Disk, g: Geometry, c: nat, buf: seq<byte>, n: nat)
    requires c >= 2 && n <= g.spc
  {
    && |disk'| == |disk| && |buf| == g.ClusterSize()
    && (forall s :: 0 <= s < |disk| && !(g.DataSector(c) <= s < g.DataSector(c) + n) ==> disk'[s] == disk[s])
    && (forall s :: 0 <= s < |disk| && g.DataSector(c) <= s < g.DataSector(c) + n ==>
        SectorHolds(disk'[s], buf, s - g.DataSector(c)))
  }

  predicate SectorHolds(s: Sector, buf: seq<byte>, i: nat) {
    i * SECTOR + SECTOR <= |buf| && s == buf[i * SECTOR..i * SECTOR + SECTOR]
  }

  // ---------------------------------------------------------------- the bytes of the disk

  /** Byte `a` of the disk. */
  function ByteAt(disk: Disk, a: nat): nat
    requires a < |disk| * SECTOR
  {
    disk[a / SECTOR][a % SECTOR] as nat
  }

  /** Where the four bytes of a cluster's entry begin. */
  function EntryAddress(g: Geometry, copy: nat, c: nat): nat { (g.fatStart + copy * g.spf) * SECTOR + 4 * c }

  lemma EntryPlace(g: Geometry, copy: nat, c: nat, i: nat)
    requires i < 4
    ensures (EntryAddress(g, copy, c) + i) / SECTOR == FatSector(g, copy, c)
    ensures (EntryAddress(g, copy, c) + i) % SECTOR == 4 * (c % ENTRIES_PER_SECTOR) + i
  {
    var q, r := c / ENTRIES_PER_SECTOR, c % ENTRIES_PER_SECTOR;
    assert EntryAddress(g, copy, c) + i == (g.fatStart + copy * g.spf + q) * SECTOR + (4 * r + i);
    DivSector(g.fatStart + copy * g.spf + q, 4 * r + i);
  }

  lemma DivSector(q: nat, r: nat)
    requires r < SECTOR
    ensures (q * SECTOR + r) / SECTOR == q && (q * SECTOR + r) % SECTOR == r
  {}

  /** An entry is stored in four bytes, least significant first, in both copies of the FAT. */
  lemma EntryBytes(disk: Disk, g: Geometry, fat: seq<nat>, data: seq<seq<byte>>, copy: nat, c: nat)
    requires Represents(disk, g, fat, data) && copy < 2 && c < |fat|
    ensures var a := EntryAddress(g, copy, c);
            && a + 4 <= |disk| * SECTOR
            && fat[c] == ByteAt(disk, a) + 0x100 * ByteAt(disk, a + 1) + 0x1_0000 * ByteAt(disk, a + 2)
                         + 0x100_0000 * ByteAt(disk, a + 3)
  {
    hide DataHeld, GeometryOk, EntryAddress;
    assert EntryIs(disk, g, copy, c, fat[c]);
    EntryPlace(g, copy, c, 0);
    EntryPlace(g, copy, c, 1);
    EntryPlace(g, copy, c, 2);
    EntryPlace(g, copy, c, 3);
    var a, j := EntryAddress(g, copy, c), c % ENTRIES_PER_SECTOR;
    assert (a + 3) / SECTOR < |disk|;
    var b := disk[FatSector(g, copy, c)][4 * j..4 * j + 4];
    assert b[0] as nat == ByteAt(disk, a) && b[1] as nat == ByteAt(disk, a + 1);
    assert b[2] as nat == ByteAt(disk, a + 2) && b[3] as nat == ByteAt(disk, a + 3);
  }

  /** Byte `i` of a cluster lies in the data region, clusters in order from number 2. */
  lemma ClusterBytes(disk: Disk, g: Geometry, fat: seq<nat>, data: seq<seq<byte>>, c: nat, i: nat)
    requires Represents(disk, g, fat, data) && 2 <= c < g.maxCluster && i < g.spc * SECTOR
    ensures var a := (g.dataStart + (c - 2) * g.spc) * SECTOR + i;
            a < |disk| * SECTOR && |data| == g.maxCluster && i < |data[c]| && data[c][i] as nat == ByteAt(disk, a)
  {
    assert ClusterIs(disk, g, c, data[c]);
    hide FatMirrored, GeometryOk, DataHeld;
    SectorOffset(g, i);
    var q, r := i / SECTOR, i % SECTOR;
    assert (g.dataStart + (c - 2) * g.spc) * SECTOR + i == (g.DataSector(c) + q) * SECTOR + r;
    DivSector(g.DataSector(c) + q, r);
  }

  /** The two copies of a FAT sector hold the same bytes. */
  lemma SameCopies(disk: Disk, g: Geometry, fat: seq<nat>, data: seq<seq<byte>>, c: nat)
    requires Represents(disk, g, fat, data) && c < |fat|
    ensures FatSector(g, 0, c) < |disk| && FatSector(g, 1, c) < |disk|
    ensures disk[FatSector(g, 0, c)] == disk[FatSector(g, 1, c)]
  {
    hide DataHeld, Word32, Bytes32;
    FatSectorInRange(g, |disk|, 1, c);
    var s, t := disk[FatSector(g, 0, c)], disk[FatSector(g, 1, c)];
    forall k | 0 <= k < SECTOR ensures s[k] == t[k] {
      var j := k / 4;
      var d := c / ENTRIES_PER_SECTOR * ENTRIES_PER_SECTOR + j;
      assert d / ENTRIES_PER_SECTOR == c / ENTRIES_PER_SECTOR && d % ENTRIES_PER_SECTOR == j;
      assert d < g.spf * ENTRIES_PER_SECTOR;
      assert EntryIs(disk, g, 0, d, fat[d]) && EntryIs(disk, g, 1, d, fat[d]);
      assert WordAt(s, j) == WordAt(t, j);
      BytesOfWord32(s[4 * j..4 * j + 4]);
      BytesOfWord32(t[4 * j..4 * j + 4]);
      assert s[4 * j..4 * j + 4][k - 4 * j] == t[4 * j..4 * j + 4][k - 4 * j];
    }
  }

  /** Byte `a` belongs to the entry of the cluster in that copy. */
  predicate InEntry(g: Geometry, copy: nat, c: nat, a: nat) {
    EntryAddress(g, copy, c) <= a < EntryAddress(g, copy, c) + 4
  }

  /** The bytes of `v` at `a`, least significant first. */
  predicate Stored(disk: Disk, a: nat, v: nat) {
    && a + 4 <= |disk| * SECTOR
    && ByteAt(disk, a) == v % 0x100 && ByteAt(disk, a + 1) == v / 0x100 % 0x100
    && ByteAt(disk, a + 2) == v / 0x1_0000 % 0x100 && ByteAt(disk, a + 3) == v / 0x100_0000
  }

  /** The four bytes of the entry are stored in both copies, and every other byte of the disk is as it was. */
  ghost predicate EntryWritten(disk: Disk, disk': Disk, g: Geometry, c: nat, v: nat) {
    && |disk'| == |disk|
    && Stored(disk', EntryAddress(g, 0, c), v) && Stored(disk', EntryAddress(g, 1, c), v)
    && forall a :: 0 <= a < |disk| * SECTOR && !InEntry(g, 0, c, a) && !InEntry(g, 1, c, a) ==>
         ByteAt(disk', a) == ByteAt(disk, a)
  }

  /** `n` is the low 28 bits of the number whose four bytes, least significant first, begin at `a`. */
  ghost predicate LowBits(disk: Disk, a: nat, n: nat) {
    && a + 4 <= |disk| * SECTOR
    && n == (ByteAt(disk, a) + 0x100 * ByteAt(disk, a + 1) + 0x1_0000 * ByteAt(disk, a + 2)
             + 0x100_0000 * ByteAt(disk, a + 3)) % 0x1000_0000
  }

  /** Writing an entry does that, and nothing else. */
  lemma WithEntryBytes(disk: Disk, g: Geometry, fat: seq<nat>, data: seq<seq<byte>>, c: nat, v: nat)
    requires Represents(disk, g, fat, data) && c < |fat| && v < WORD
    ensures FatSector(g, 0, c) < |disk| && FatSector(g, 1, c) < |disk|
    ensures EntryWritten(disk, WithEntry(disk, g, c, v), g, c, v)
  {
    hide DataHeld, GeometryOk, EntryAddress, WithWord, Bytes32, Stored, InEntry;
    SameCopies(disk, g, fat, data, c);
    var disk' := WithEntry(disk, g, c, v);
    WrittenEntry(disk, disk', g, 0, c, v);
    WrittenEntry(disk, disk', g, 1, c, v);
    forall a | 0 <= a < |disk| * SECTOR && !InEntry(g, 0, c, a) && !InEntry(g, 1, c, a)
      ensures ByteAt(disk', a) == ByteAt(disk, a)
    {
      if a / SECTOR == FatSector(g, 0, c) { WordElsewhere(disk[a / SECTOR], g, 0, c, v, a); }
      if a / SECTOR == FatSector(g, 1, c) { WordElsewhere(disk[a / SECTOR], g, 1, c, v, a); }
    }
  }

  lemma WrittenEntry(disk: Disk, disk': Disk, g: Geometry, copy: nat, c: nat, v: nat)
    requires FatSector(g, copy, c) < |disk| == |disk'| && v < WORD
    requires disk'[FatSector(g, copy, c)] == WithWord(disk[FatSector(g, copy, c)], c % ENTRIES_PER_SECTOR, v)
    ensures Stored(disk', EntryAddress(g, copy, c), v)
  {
    EntryPlace(g, copy, c, 0);
    EntryPlace(g, copy, c, 1);
    EntryPlace(g, copy, c, 2);
    EntryPlace(g, copy, c, 3);
    hide EntryAddress, FatSector;
    assert (EntryAddress(g, copy, c) + 3) / SECTOR < |disk'|;
  }

  lemma WordElsewhere(s: Sector, g: Geometry, copy: nat, c: nat, v: nat, a: nat)
    requires a / SECTOR == FatSector(g, copy, c) && !InEntry(g, copy, c, a) && v < WORD
    ensures WithWord(s, c % ENTRIES_PER_SECTOR, v)[a % SECTOR] == s[a % SECTOR]
  {
    hide Bytes32, FatSector;
    EntryPlace(g, copy, c, 0);
  }

  /** Writing a cluster changes its data and no other cluster's, and neither FAT copy. */
  lemma ClusterWrittenRepresents(disk: Disk, disk': Disk, g: Geometry, fat: seq<nat>, data: seq<seq<byte>>, c: nat,
                                 buf: seq<byte>)
    requires Represents(disk, g, fat, data) && 2 <= c < g.maxCluster && ClusterWritten(disk, disk', g, c, buf, g.spc)
    ensures Represents(disk', g, fat, data[c := buf])
  {
    hide WordAt, ClusterData, GeometryOk, FatSector, ClusterWritten;
    forall copy, d | 0 <= copy < 2 && 0 <= d < |fat| ensures EntryIs(disk', g, copy, d, fat[d]) {
      assert EntryIs(disk, g, copy, d, fat[d]);
      WrittenKeepsEntry(disk, disk', g, c, buf, copy, d);
    }
    WrittenLength(disk, disk', g, c, buf);
    var data' := data[c := buf];
    forall d | 2 <= d < g.maxCluster ensures ClusterIs(disk', g, d, data'[d]) {
      assert ClusterIs(disk, g, d, data[d]);
      WrittenData(disk, disk', g, c, buf, d);
    }
  }

  /** The sectors before the FATs and behind the last cluster are as in `image`. */
  ghost predicate Untouched(disk: Disk, g: Geometry, image: Disk) {
    && |disk| == |image|
    && forall s :: 0 <= s < |disk| && (s < g.fatStart || g.dataStart + (g.maxCluster - 2) * g.spc <= s) ==>
         disk[s] == image[s]
  }

  lemma EntryUntouched(disk: Disk, g: Geometry, image: Disk, c: nat, s: Sector)
    requires GeometryOk(g, |disk|) && c < g.spf * ENTRIES_PER_SECTOR && Untouched(disk, g, image)
    ensures FatSector(g, 0, c) < |disk| && FatSector(g, 1, c) < |disk|
    ensures Untouched(disk[FatSector(g, 0, c) := s][FatSector(g, 1, c) := s], g, image)
  {
    FatSectorInRange(g, |disk|, 0, c);
    FatSectorInRange(g, |disk|, 1, c);
    ClusterSpan(g.maxCluster - 2, g.spc);
    hide GeometryOk, FatSector;
  }

  lemma ClusterRange(g: Geometry, sectors: nat, c: nat)
    requires GeometryOk(g, sectors) && 2 <= c < g.maxCluster
    ensures g.fatStart <= g.DataSector(c) && g.DataSector(c) + g.spc <= g.dataStart + (g.maxCluster - 2) * g.spc
  {
    MulMono(c - 1, g.maxCluster - 2, g.spc);
    assert (c - 2) * g.spc + g.spc == (c - 1) * g.spc;
    ClusterSpan(c - 2, g.spc);
  }

  lemma ClusterUntouched(disk: Disk, disk': Disk, g: Geometry, image: Disk, c: nat, buf: seq<byte>)
    requires GeometryOk(g, |disk|) && 2 <= c < g.maxCluster && Untouched(disk, g, image)
    requires ClusterWritten(disk, disk', g, c, buf, g.spc)
    ensures Untouched(disk', g, image)
  {
    hide GeometryOk, SectorHolds, Geometry.DataSector;
    ClusterRange(g, |disk|, c);
  }

  lemma WrittenLength(disk: Disk, disk': Disk, g: Geometry, c: nat, buf: seq<byte>)
    requires c >= 2 && ClusterWritten(disk, disk', g, c, buf, g.spc)
    ensures |disk'| == |disk|
  {}

  lemma WrittenKeepsEntry(disk: Disk, disk': Disk, g: Geometry, c: nat, buf: seq<byte>, copy: nat, d: nat)
    requires GeometryOk(g, |disk|) && 2 <= c < g.maxCluster && ClusterWritten(disk, disk', g, c, buf, g.spc)
    requires copy < 2 && d < g.spf * ENTRIES_PER_SECTOR
    ensures |disk'| == |disk| && FatSector(g, copy, d) < |disk|
    ensures disk'[FatSector(g, copy, d)] == disk[FatSector(g, copy, d)]
  {
    FatSectorInRange(g, |disk|, copy, d);
    ClusterSectors(g, |disk|, c, 0);
    hide GeometryOk, FatSector;
  }

  lemma WrittenData(disk: Disk, disk': Disk, g: Geometry, c: nat, buf: seq<byte>, d: nat)
    requires GeometryOk(g, |disk|) && 2 <= c < g.maxCluster && 2 <= d < g.maxCluster
    requires ClusterWritten(disk, disk', g, c, buf, g.spc) && g.DataSector(d) + g.spc <= |disk|
    ensures g.DataSector(d) + g.spc <= |disk'|
    ensures ClusterData(disk', g, d) == if d == c then buf else ClusterData(disk, g, d)
  {
    forall i | 0 <= i < g.ClusterSize()
      ensures ClusterData(disk', g, d)[i] == if d == c then buf[i] else ClusterData(disk, g, d)[i]
    {
      WrittenByte(disk, disk', g, c, buf, d, i);
    }
  }

  lemma WrittenByte(disk: Disk, disk': Disk, g: Geometry, c: nat, buf: seq<byte>, d: nat, i: nat)
    requires GeometryOk(g, |disk|) && 2 <= c < g.maxCluster && 2 <= d < g.maxCluster
    requires ClusterWritten(disk, disk', g, c, buf, g.spc) && g.DataSector(d) + g.spc <= |disk| && i < g.ClusterSize()
    ensures ClusterData(disk', g, d)[i] == if d == c then buf[i] else ClusterData(disk, g, d)[i]
  {
    SectorOffset(g, i);
    var k := i / SECTOR;
    ClusterSectors(g, |disk|, d, k);
    hide GeometryOk;
    var s := g.DataSector(d) + k;
    if d == c {
      assert SectorHolds(disk'[s], buf, k);
      assert k * SECTOR + i % SECTOR == i;
    } else {
      OutsideCluster(g, c, d, k);
    }
  }

  lemma OutsideCluster(g: Geometry, c: nat, d: nat, k: nat)
    requires 2 <= c && 2 <= d && c != d && k < g.spc
    ensures !(g.DataSector(c) <= g.DataSector(d) + k < g.DataSector(c) + g.spc)
  {
    var j := g.DataSector(d) + k - g.DataSector(c);
    if 0 <= j < g.spc { ClustersDisjoint(g, c, d, j, k); }
  }
}
