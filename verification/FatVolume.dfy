/** A mounted FAT32 volume: the disk together with the fields of the info block that the driver
    updates in place. */
module FatVolume {
  import opened Bytes
  import opened BlockDevice
  import opened FatTable
  import opened FatLayout

  class Volume {
    const g: Geometry
    /** The disk when the volume was mounted. */
    ghost const mounted: Disk
    var disk: Disk
    var freeClusters: nat
    var nextFree: nat

    constructor (g: Geometry, disk: Disk, freeClusters: nat, nextFree: nat)
      requires g.Fits(disk)
      ensures Valid() && this.g == g && this.disk == disk && mounted == disk
      ensures this.freeClusters == freeClusters && this.nextFree == nextFree
    {
      this.g, this.disk, this.freeClusters, this.nextFree, mounted := g, disk, freeClusters, nextFree, disk;
    }

    /** The disk is a volume, and no sector in front of its tables or behind its last cluster has been written
        since it was mounted. */
    ghost predicate Valid()
      reads this
    {
      g.Fits(disk) && Confined(g, mounted, disk)
    }

    /** The table as an abstract array of links. */
    ghost function Table(): (f: Fat)
      requires Valid()
      reads this
      ensures |f| == g.Entries() && Shape(f, g.Limit())
    {
      FatView(g, disk)
    }

    /** The contents of the clusters. */
    ghost function Data(): (s: seq<seq<byte>>)
      requires Valid()
      reads this
      ensures |s| == g.Limit()
      ensures forall c :: 2 <= c < g.Limit() ==> |s[c]| == g.ClusterSize()
    {
      DataView(g, disk)
    }

    ghost predicate Synced()
      requires Valid()
      reads this
    {
      CopiesAgree(g, disk)
    }

    method NextCluster(cluster: nat) returns (next: nat)
      requires Valid() && cluster < g.Entries()
      ensures next == Table()[cluster] && IsEntry(g, disk, 0, cluster, next)
    {
      EntryIsThere(g, disk, 0, cluster);
      FatLbaInRegion(g, 0, cluster);
      next := ReadLe32(disk[FatLba(g, 0, cluster)], FatOffset(cluster)) % TWO_28;
    }

    /** Read-modify-write of the entry in every copy of the table. */
    method WriteFatEntry(cluster: nat, value: nat)
      requires Valid() && cluster < g.Entries() && value < TWO_32
      modifies this`disk
      ensures Valid() && Table() == old(Table())[cluster := value % TWO_28]
      ensures Data() == old(Data()) && TablesOnly(g, old(disk), disk)
      ensures forall i :: 0 <= i < g.numFats ==> IsEntry(g, disk, i, cluster, value % TWO_28)
      ensures old(Synced()) ==> Synced()
    {
      hide FatView, DataView, CopiesAgree, WriteLe32, FatLba, FatOffset, Confined, TablesOnly, IsEntry;
      var i := 0;
      while i < g.numFats
        invariant i <= g.numFats && g.Fits(disk)
        invariant disk == WriteCopies(g, old(disk), i, cluster, value)
      {
        FatLbaInRegion(g, i, cluster);
        var lba := FatLba(g, i, cluster);
        var buf := disk[lba];
        buf := WriteLe32(buf, FatOffset(cluster), value);
        disk := disk[lba := buf];
        i := i + 1;
      }
      WriteEntryRefines(g, old(disk), cluster, value);
      WriteCopiesSectors(g, old(disk), g.numFats, cluster, value);
      EntryInCopies(g, old(disk), cluster, value);
      TablesAreConfined(g, mounted, old(disk), disk);
    }

    method ReadCluster(cluster: nat) returns (buf: seq<byte>)
      requires Valid() && 2 <= cluster < g.Limit()
      ensures buf == Data()[cluster]
      ensures IsCluster(g, disk, cluster, buf)
    {
      ClusterInRegion(g, cluster);
      ClusterIsThere(g, disk, cluster);
      buf := ReadRun(disk, ClusterLba(g, cluster), g.sectorsPerCluster);
    }

    method WriteCluster(cluster: nat, buf: seq<byte>)
      requires Valid() && 2 <= cluster < g.Limit() && |buf| == g.ClusterSize()
      modifies this`disk
      ensures Valid() && Data() == old(Data())[cluster := buf]
      ensures Table() == old(Table()) && ClusterOnly(g, old(disk), disk, cluster)
      ensures IsCluster(g, disk, cluster, buf)
      ensures old(Synced()) ==> Synced()
    {
      ClusterInRegion(g, cluster);
      disk := WriteRun(disk, ClusterLba(g, cluster), g.sectorsPerCluster, buf);
      WriteRunFrame(old(disk), ClusterLba(g, cluster), g.sectorsPerCluster, buf);
      WriteClusterRefines(g, old(disk), cluster, buf);
      ClusterIsConfined(g, mounted, old(disk), disk, cluster);
      ClusterIsThere(g, disk, cluster);
      RunRoundTrip(old(disk), ClusterLba(g, cluster), g.sectorsPerCluster, buf);
    }

    /** The circular search: hands out the nearest free cluster, marks it as the end of a chain and
        advances the hint; 0 exactly when no cluster is free. */
    method AllocCluster() returns (r: nat)
      requires Valid() && HintSafe(Table(), g.Limit(), nextFree)
      modifies this
      ensures Valid() && Data() == old(Data())
      ensures old(Synced()) ==> Synced()
      ensures r == old(AllocResult(Table(), g.Limit(), nextFree))
      ensures r == 0 <==> !old(HasFree(Table(), g.Limit()))
      ensures r == 0 ==> Table() == old(Table()) && nextFree == old(nextFree) && freeClusters == old(freeClusters)
      ensures r != 0 ==>
                && 2 <= r < g.Limit() && old(Table())[r] == FREE
                && Table() == old(Table())[r := EOF] && nextFree == r + 1
                && freeClusters == if old(freeClusters) != UNKNOWN && old(freeClusters) > 0
                                   then old(freeClusters) - 1 else old(freeClusters)
    {
      hide FatView, DataView, CopiesAgree;
      ghost var n := g.Limit();
      AllocIsNearestFree(Table(), n, nextFree);
      var start := if nextFree != UNKNOWN && nextFree >= 2 then nextFree else 2;
      var cluster := start;
      ghost var left := if start < n then n else 2 * n;
      while true
        invariant disk == old(disk) && nextFree == old(nextFree) && freeClusters == old(freeClusters)
        invariant 2 <= cluster < |Table()| && (cluster < n || cluster == start)
        invariant start < n ==> forall c :: start <= c < cluster ==> Table()[c] != FREE
        invariant cluster < start < n ==>
                    forall c :: 2 <= c < n && (c < cluster || start <= c) ==> Table()[c] != FREE
        invariant cluster < n <= start ==> forall c :: 2 <= c < cluster ==> Table()[c] != FREE
        decreases if start < n && cluster >= start then 2 else if cluster >= n then 1 else 0,
                  if cluster < n then n - cluster else 0
      {
        var entry := NextCluster(cluster);
        if entry == FREE {
          WriteFatEntry(cluster, EOF);
          if freeClusters != UNKNOWN && freeClusters > 0 { freeClusters := freeClusters - 1; }
          nextFree := cluster + 1;
          return cluster;
        }
        cluster := cluster + 1;
        if cluster >= g.totalClusters + 2 { cluster := 2; }
        if cluster == start { break; }
      }
      return 0;
    }

    /** Frees every cluster reached from `start`, one table entry per iteration. */
    method FreeClusterChain(start: nat)
      requires Valid() && WalkInRange(Table(), g.Limit(), start)
      requires freeClusters != UNKNOWN ==> freeClusters + ReleaseSteps(Table(), g.Limit(), start) < UNKNOWN
      modifies this
      ensures Valid() && Data() == old(Data())
      ensures old(Synced()) ==> Synced()
      ensures Table() == Release(old(Table()), g.Limit(), start)
      ensures nextFree == old(nextFree)
      ensures freeClusters == if old(freeClusters) != UNKNOWN
                              then old(freeClusters) + ReleaseSteps(old(Table()), g.Limit(), start)
                              else UNKNOWN
    {
      hide FatView, DataView, CopiesAgree;
      ghost var n := g.Limit();
      var cluster: nat := start;
      while 2 <= cluster < EOF
        invariant Valid() && Data() == old(Data()) && nextFree == old(nextFree)
        invariant old(Synced()) ==> Synced()
        invariant WalkInRange(Table(), n, cluster)
        invariant Release(Table(), n, cluster) == Release(old(Table()), n, start)
        invariant old(freeClusters) == UNKNOWN ==> freeClusters == UNKNOWN
        invariant old(freeClusters) != UNKNOWN ==>
                    freeClusters + ReleaseSteps(Table(), n, cluster) ==
                    old(freeClusters) + ReleaseSteps(old(Table()), n, start)
        decreases n - CountFree(Table(), 2, n), if IsLink(cluster) then 1 else 0
      {
        ghost var before := Table();
        WalkInRangeStep(before, n, cluster);
        ReleaseUnfold(before, n, cluster);
        CountFreeUpdate(before, 2, n, cluster, FREE);
        CountFreeBound(before[cluster := FREE], 2, n);
        var next := NextCluster(cluster);
        WriteFatEntry(cluster, FREE);
        if freeClusters != UNKNOWN { freeClusters := freeClusters + 1; }
        if next >= EOF { break; }
        cluster := next;
      }
    }
  }
}
