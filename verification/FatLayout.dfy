/** Where a FAT32 volume keeps its tables and clusters, and the abstract table and cluster contents
    that the bytes on the disk stand for. */
module FatLayout {
  import opened Arith
  import opened Bytes
  import opened BlockDevice
  import opened FatTable

  datatype Geometry = Geometry(
    partition: nat,          // first sector of the partition
    sectorsPerCluster: nat,
    reserved: nat,           // sectors in front of the first table copy
    numFats: nat,
    sectorsPerFat: nat,
    totalClusters: nat)
  {
    function FatRegion(): nat {
      partition + reserved
    }

    function DataRegion(): nat {
      partition + reserved + numFats * sectorsPerFat
    }

    function Entries(): nat {
      sectorsPerFat * 128
    }

    /** Data clusters are numbered `2 <= c < Limit()`. */
    function Limit(): nat {
      totalClusters + 2
    }

    function ClusterSize(): nat {
      SECTOR * sectorsPerCluster
    }

    /** The regions fit on the disk and every cluster has a table entry. */
    ghost predicate Fits(d: Disk) {
      && IsDisk(d)
      && 1 <= sectorsPerCluster <= 64 && 1 <= numFats && 1 <= totalClusters
      && Limit() <= Entries() && Limit() <= BAD
      && DataRegion() + totalClusters * sectorsPerCluster <= |d|
    }
  }

  /** Sector of copy `i` of the table that holds the entry of cluster `c`. */
  function FatLba(g: Geometry, i: nat, c: nat): nat {
    g.FatRegion() + i * g.sectorsPerFat + 4 * c / SECTOR
  }

  function FatOffset(c: nat): nat {
    4 * c % SECTOR
  }

  /** First sector of data cluster `c`. */
  function ClusterLba(g: Geometry, c: nat): nat
    requires 2 <= c
  {
    g.DataRegion() + (c - 2) * g.sectorsPerCluster
  }

  lemma FatLbaInRegion(g: Geometry, i: nat, c: nat)
    requires i < g.numFats && c < g.Entries()
    ensures FatLba(g, i, c) < g.DataRegion()
    ensures FatOffset(c) + 4 <= SECTOR
  {
    MulMono(i, g.numFats, g.sectorsPerFat);
  }

  lemma ClusterInRegion(g: Geometry, c: nat)
    requires 2 <= c < g.Limit()
    ensures g.DataRegion() <= ClusterLba(g, c)
    ensures ClusterLba(g, c) + g.sectorsPerCluster <= g.DataRegion() + g.totalClusters * g.sectorsPerCluster
  {
    MulMono(c - 2, g.totalClusters, g.sectorsPerCluster);
  }

  /** Different clusters occupy different sectors. */
  lemma ClustersAreDisjoint(g: Geometry, c: nat, e: nat)
    requires 2 <= c < e
    ensures ClusterLba(g, c) + g.sectorsPerCluster <= ClusterLba(g, e)
  {
    MulMono(c - 2, e - 2, g.sectorsPerCluster);
  }

  /** Different entries, or the same entry of different copies, occupy different words. */
  lemma EntriesAreDisjoint(g: Geometry, i: nat, c: nat, j: nat, e: nat)
    requires c < g.Entries() && e < g.Entries()
    requires FatLba(g, i, c) == FatLba(g, j, e)
    ensures i == j
    ensures c != e ==> FatOffset(c) + 4 <= FatOffset(e) || FatOffset(e) + 4 <= FatOffset(c)
  {
    if i < j {
      MulMono(i, j, g.sectorsPerFat);
    } else if j < i {
      MulMono(j, i, g.sectorsPerFat);
    }
  }

  /** Copy `i` of the table is the `sectorsPerFat` sectors behind the reserved ones and the copies in front of it,
      and entry `c` is the `c`-th word of it. */
  lemma EntryPlace(g: Geometry, i: nat, c: nat)
    requires c < g.Entries()
    ensures var first := g.partition + g.reserved + i * g.sectorsPerFat;
            && first <= FatLba(g, i, c) < first + g.sectorsPerFat
            && (FatLba(g, i, c) - first) * SECTOR + FatOffset(c) == 4 * c && FatOffset(c) + 4 <= SECTOR
  {
  }

  /** Cluster `c` is the `(c - 2)`-nd group of `sectorsPerCluster` sectors behind the tables. */
  lemma ClusterPlace(g: Geometry, c: nat)
    requires 2 <= c
    ensures ClusterLba(g, c) ==
            g.partition + g.reserved + g.numFats * g.sectorsPerFat + (c - 2) * g.sectorsPerCluster
  {
  }

  /** `entry` is the `c`-th word of copy `i` of the table, without its top four bits. */
  predicate IsEntry(g: Geometry, d: Disk, i: nat, c: nat, entry: nat) {
    var lba := g.partition + g.reserved + i * g.sectorsPerFat + 4 * c / SECTOR;
    lba < |d| && 4 * c % SECTOR + 4 <= |d[lba]| && entry == ReadLe32(d[lba], 4 * c % SECTOR) % TWO_28
  }

  /** `buf` is the bytes of the `sectorsPerCluster` sectors of cluster `c`. */
  predicate IsCluster(g: Geometry, d: Disk, c: nat, buf: seq<byte>)
    requires 2 <= c
  {
    var lba := g.partition + g.reserved + g.numFats * g.sectorsPerFat + (c - 2) * g.sectorsPerCluster;
    && lba + g.sectorsPerCluster <= |d| && |buf| == g.sectorsPerCluster * SECTOR
    && forall k :: 0 <= k < g.sectorsPerCluster ==> buf[k * SECTOR..k * SECTOR + SECTOR] == d[lba + k]
  }

  /** Only sectors of the tables have changed. */
  ghost predicate TablesOnly(g: Geometry, d: Disk, d': Disk) {
    var first := g.partition + g.reserved;
    |d'| == |d| && forall s :: 0 <= s < |d| && !(first <= s < first + g.numFats * g.sectorsPerFat) ==> d'[s] == d[s]
  }

  /** Only sectors of cluster `c` have changed. */
  ghost predicate ClusterOnly(g: Geometry, d: Disk, d': Disk, c: nat)
    requires 2 <= c
  {
    var lba := g.partition + g.reserved + g.numFats * g.sectorsPerFat + (c - 2) * g.sectorsPerCluster;
    |d'| == |d| && forall s :: 0 <= s < |d| && !(lba <= s < lba + g.sectorsPerCluster) ==> d'[s] == d[s]
  }

  /** No sector in front of the tables or behind the last cluster has changed. */
  ghost predicate Confined(g: Geometry, d: Disk, d': Disk) {
    var first := g.partition + g.reserved;
    var last := first + g.numFats * g.sectorsPerFat + g.totalClusters * g.sectorsPerCluster;
    |d'| == |d| && forall s :: 0 <= s < |d| && (s < first || last <= s) ==> d'[s] == d[s]
  }

  lemma TablesAreConfined(g: Geometry, d: Disk, d1: Disk, d2: Disk)
    requires Confined(g, d, d1) && TablesOnly(g, d1, d2)
    ensures Confined(g, d, d2)
  {
  }

  lemma ClusterIsConfined(g: Geometry, d: Disk, d1: Disk, d2: Disk, c: nat)
    requires Confined(g, d, d1) && 2 <= c < g.Limit() && ClusterOnly(g, d1, d2, c)
    ensures Confined(g, d, d2)
  {
    ClusterInRegion(g, c);
  }

  // ---------------------------------------------------------------- the abstract views

  /** Entry `c` of copy `i`; the top four bits are reserved and ignored. */
  function FatEntry(g: Geometry, d: Disk, i: nat, c: nat): nat
    requires g.Fits(d) && i < g.numFats && c < g.Entries()
  {
    FatLbaInRegion(g, i, c);
    ReadLe32(d[FatLba(g, i, c)], FatOffset(c)) % TWO_28
  }

  /** The table that readers follow: the first copy. */
  ghost function FatView(g: Geometry, d: Disk): (f: Fat)
    requires g.Fits(d)
    ensures |f| == g.Entries() && Shape(f, g.Limit())
  {
    seq(g.Entries(), c requires 0 <= c < g.Entries() => FatEntry(g, d, 0, c))
  }

  function ClusterBytes(g: Geometry, d: Disk, c: nat): (b: seq<byte>)
    requires g.Fits(d) && 2 <= c < g.Limit()
    ensures |b| == g.ClusterSize()
  {
    ClusterInRegion(g, c);
    ReadRunLength(d, ClusterLba(g, c), g.sectorsPerCluster);
    ReadRun(d, ClusterLba(g, c), g.sectorsPerCluster)
  }

  /** The contents of every cluster, indexed by cluster number. */
  ghost function DataView(g: Geometry, d: Disk): (s: seq<seq<byte>>)
    requires g.Fits(d)
    ensures |s| == g.Limit()
    ensures forall c :: 2 <= c < g.Limit() ==> |s[c]| == g.ClusterSize()
  {
    seq(g.Limit(), c requires 0 <= c < g.Limit() => if c < 2 then [] else ClusterBytes(g, d, c))
  }

  /** All copies of the table are identical. */
  ghost predicate CopiesAgree(g: Geometry, d: Disk)
    requires g.Fits(d)
  {
    forall i, c :: 0 <= i < g.numFats && 0 <= c < g.Entries() ==> FatEntry(g, d, i, c) == FatEntry(g, d, 0, c)
  }

  // ---------------------------------------------------------------- writing an entry

  /** The disk after the entry of cluster `c` has been written in copy `i`. */
  function WriteCopy(g: Geometry, d: Disk, i: nat, c: nat, value: nat): (d': Disk)
    requires g.Fits(d) && i < g.numFats && c < g.Entries() && value < TWO_32
    ensures g.Fits(d') && |d'| == |d|
  {
    FatLbaInRegion(g, i, c);
    var lba := FatLba(g, i, c);
    d[lba := WriteLe32(d[lba], FatOffset(c), value)]
  }

  lemma WriteCopyEntry(g: Geometry, d: Disk, i: nat, c: nat, value: nat, j: nat, e: nat)
    requires g.Fits(d) && i < g.numFats && c < g.Entries() && value < TWO_32
    requires j < g.numFats && e < g.Entries()
    ensures FatEntry(g, WriteCopy(g, d, i, c, value), j, e) ==
            if i == j && c == e then value % TWO_28 else FatEntry(g, d, j, e)
  {
    hide WriteLe32, ReadLe32, FatLba, FatOffset;
    FatLbaInRegion(g, i, c);
    FatLbaInRegion(g, j, e);
    var sector := d[FatLba(g, i, c)];
    if FatLba(g, i, c) == FatLba(g, j, e) {
      EntriesAreDisjoint(g, i, c, j, e);
      if c == e {
        Le32RoundTrip(sector, FatOffset(c), value);
      } else {
        Le32Disjoint(sector, FatOffset(c), value, FatOffset(e));
      }
    }
  }

  lemma WriteCopyData(g: Geometry, d: Disk, i: nat, c: nat, value: nat, e: nat)
    requires g.Fits(d) && i < g.numFats && c < g.Entries() && value < TWO_32 && 2 <= e < g.Limit()
    ensures ClusterBytes(g, WriteCopy(g, d, i, c, value), e) == ClusterBytes(g, d, e)
  {
    FatLbaInRegion(g, i, c);
    ClusterInRegion(g, e);
    ReadRunFrame(d, WriteCopy(g, d, i, c, value), ClusterLba(g, e), g.sectorsPerCluster);
  }

  /** The disk after the entry has been written in the first `k` copies. */
  ghost function WriteCopies(g: Geometry, d: Disk, k: nat, c: nat, value: nat): (d': Disk)
    requires g.Fits(d) && k <= g.numFats && c < g.Entries() && value < TWO_32
    ensures g.Fits(d') && |d'| == |d|
  {
    if k == 0 then d else WriteCopy(g, WriteCopies(g, d, k - 1, c, value), k - 1, c, value)
  }

  lemma {:induction false} WriteCopiesEntry(g: Geometry, d: Disk, k: nat, c: nat, value: nat, j: nat, e: nat)
    requires g.Fits(d) && k <= g.numFats && c < g.Entries() && value < TWO_32
    requires j < g.numFats && e < g.Entries()
    ensures FatEntry(g, WriteCopies(g, d, k, c, value), j, e) ==
            if j < k && c == e then value % TWO_28 else FatEntry(g, d, j, e)
  {
    if k != 0 {
      WriteCopiesEntry(g, d, k - 1, c, value, j, e);
      WriteCopyEntry(g, WriteCopies(g, d, k - 1, c, value), k - 1, c, value, j, e);
    }
  }

  /** The copies written are in the table region, and each holds the value. */
  lemma {:induction false} WriteCopiesSectors(g: Geometry, d: Disk, k: nat, c: nat, value: nat)
    requires g.Fits(d) && k <= g.numFats && c < g.Entries() && value < TWO_32
    ensures TablesOnly(g, d, WriteCopies(g, d, k, c, value))
  {
    if k != 0 {
      WriteCopiesSectors(g, d, k - 1, c, value);
      EntryPlace(g, k - 1, c);
      MulMono(k - 1, g.numFats, g.sectorsPerFat);
    }
  }

  lemma {:induction false} WriteCopiesData(g: Geometry, d: Disk, k: nat, c: nat, value: nat, e: nat)
    requires g.Fits(d) && k <= g.numFats && c < g.Entries() && value < TWO_32 && 2 <= e < g.Limit()
    ensures ClusterBytes(g, WriteCopies(g, d, k, c, value), e) == ClusterBytes(g, d, e)
  {
    if k != 0 {
      WriteCopiesData(g, d, k - 1, c, value, e);
      WriteCopyData(g, WriteCopies(g, d, k - 1, c, value), k - 1, c, value, e);
    }
  }

  /** Writing an entry in every copy sets exactly that entry of the abstract table to the low 28
      bits of the value, keeps the copies identical and touches no cluster. */
  lemma WriteEntryRefines(g: Geometry, d: Disk, c: nat, value: nat)
    requires g.Fits(d) && c < g.Entries() && value < TWO_32
    ensures var d' := WriteCopies(g, d, g.numFats, c, value);
            && FatView(g, d') == FatView(g, d)[c := value % TWO_28]
            && DataView(g, d') == DataView(g, d)
            && (CopiesAgree(g, d) ==> CopiesAgree(g, d'))
  {
    var d' := WriteCopies(g, d, g.numFats, c, value);
    forall j, e | 0 <= j < g.numFats && 0 <= e < g.Entries()
      ensures FatEntry(g, d', j, e) == if c == e then value % TWO_28 else FatEntry(g, d, j, e)
    {
      WriteCopiesEntry(g, d, g.numFats, c, value, j, e);
    }
    forall e | 2 <= e < g.Limit() ensures ClusterBytes(g, d', e) == ClusterBytes(g, d, e) {
      WriteCopiesData(g, d, g.numFats, c, value, e);
    }
  }

  lemma EntryIsThere(g: Geometry, d: Disk, i: nat, c: nat)
    requires g.Fits(d) && i < g.numFats && c < g.Entries()
    ensures IsEntry(g, d, i, c, FatEntry(g, d, i, c))
  {
    FatLbaInRegion(g, i, c);
  }

  lemma ClusterIsThere(g: Geometry, d: Disk, c: nat)
    requires g.Fits(d) && 2 <= c < g.Limit()
    ensures IsCluster(g, d, c, ClusterBytes(g, d, c))
  {
    ClusterInRegion(g, c);
    ReadRunLength(d, ClusterLba(g, c), g.sectorsPerCluster);
    forall k | 0 <= k < g.sectorsPerCluster
      ensures ReadRun(d, ClusterLba(g, c), g.sectorsPerCluster)[k * SECTOR..k * SECTOR + SECTOR] ==
              d[ClusterLba(g, c) + k]
    {
      ReadRunSector(d, ClusterLba(g, c), g.sectorsPerCluster, k);
    }
  }

  /** Writing an entry in every copy leaves it in every copy. */
  lemma EntryInCopies(g: Geometry, d: Disk, c: nat, value: nat)
    requires g.Fits(d) && c < g.Entries() && value < TWO_32
    ensures forall i :: 0 <= i < g.numFats ==> IsEntry(g, WriteCopies(g, d, g.numFats, c, value), i, c, value % TWO_28)
  {
    var d' := WriteCopies(g, d, g.numFats, c, value);
    forall i | 0 <= i < g.numFats ensures IsEntry(g, d', i, c, value % TWO_28) {
      WriteCopiesEntry(g, d, g.numFats, c, value, i, c);
      EntryIsThere(g, d', i, c);
    }
  }

  // ---------------------------------------------------------------- writing a cluster

  ghost function WriteClusterAt(g: Geometry, d: Disk, c: nat, buf: seq<byte>): (d': Disk)
    requires g.Fits(d) && 2 <= c < g.Limit() && |buf| == g.ClusterSize()
    ensures g.Fits(d') && ClusterOnly(g, d, d', c)
  {
    ClusterInRegion(g, c);
    WriteRunFrame(d, ClusterLba(g, c), g.sectorsPerCluster, buf);
    WriteRun(d, ClusterLba(g, c), g.sectorsPerCluster, buf)
  }

  /** Writing a cluster replaces exactly its contents: no table entry of any copy and no other
      cluster is touched. */
  lemma WriteClusterRefines(g: Geometry, d: Disk, c: nat, buf: seq<byte>)
    requires g.Fits(d) && 2 <= c < g.Limit() && |buf| == g.ClusterSize()
    ensures var d' := WriteClusterAt(g, d, c, buf);
            && FatView(g, d') == FatView(g, d)
            && DataView(g, d') == DataView(g, d)[c := buf]
            && (CopiesAgree(g, d) ==> CopiesAgree(g, d'))
  {
    var d', lba := WriteClusterAt(g, d, c, buf), ClusterLba(g, c);
    ClusterInRegion(g, c);
    WriteRunFrame(d, lba, g.sectorsPerCluster, buf);
    forall j, e | 0 <= j < g.numFats && 0 <= e < g.Entries()
      ensures FatEntry(g, d', j, e) == FatEntry(g, d, j, e)
    {
      FatLbaInRegion(g, j, e);
    }
    forall e | 2 <= e < g.Limit()
      ensures ClusterBytes(g, d', e) == if e == c then buf else ClusterBytes(g, d, e)
    {
      if e == c {
        RunRoundTrip(d, lba, g.sectorsPerCluster, buf);
      } else {
        ClusterInRegion(g, e);
        if e < c { ClustersAreDisjoint(g, e, c); } else { ClustersAreDisjoint(g, c, e); }
        ReadRunFrame(d, d', ClusterLba(g, e), g.sectorsPerCluster);
      }
    }
  }
}
