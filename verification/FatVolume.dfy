/**
 The mounted volume: the cluster-level operations of the driver, on a disk of
 sectors that they read, patch and write back.
 */
module FatVolume {
  import opened Arith
  import opened FatLayout
  import opened FatTable

  /** The data sectors of cluster c are all zero. */
  ghost predicate ZeroCluster(g: Geometry, disk: Disk, c: nat) {
    forall l :: 0 <= l < |disk| && InCluster(g, l, c) ==> disk[l] == ZeroSector()
  }

  /** lba is one of the sectors of cluster c. */
  predicate InCluster(g: Geometry, lba: nat, c: nat) {
    c >= 2 && g.ClusterLba(c) <= lba < g.ClusterLba(c) + g.sectorsPerCluster
  }

  lemma ClusterPlace(g: Geometry, c: nat)
    requires g.Valid() && g.InRange(c)
    ensures g.FatEnd() <= g.dataStart <= g.ClusterLba(c)
    ensures g.ClusterLba(c) + g.sectorsPerCluster <= g.dataStart + Times(g.totalClusters, g.sectorsPerCluster)
  {
    TimesStep(c - 2, g.totalClusters, g.sectorsPerCluster);
  }

  /** Different clusters share no sector. */
  lemma ClustersDisjoint(g: Geometry, lba: nat, c: nat, c': nat)
    requires InCluster(g, lba, c) && InCluster(g, lba, c')
    ensures c == c'
  {
    if c < c' {
      TimesStep(c - 2, c' - 2, g.sectorsPerCluster);
    } else if c' < c {
      TimesStep(c' - 2, c - 2, g.sectorsPerCluster);
    }
  }

  /** Tables only depend on the table sectors. */
  lemma FatOnly(g: Geometry, d: Disk, d': Disk)
    requires g.Valid() && g.Fits(d) && |d'| == |d|
    requires forall l :: 0 <= l < |d| && g.InFat(l) ==> d'[l] == d[l]
    ensures forall f :: 0 <= f < g.numFats ==> Table(g, d', f) == Table(g, d, f)
  {
    forall f, c | 0 <= f < g.numFats && 0 <= c < g.totalClusters + 2
      ensures RawEntry(g, d', f, c) == RawEntry(g, d, f, c)
    {
      EntryPlace(g, f, c);
    }
  }

  class Volume {
    const g: Geometry
    var disk: Disk

    constructor (g: Geometry, disk: Disk)
      ensures this.g == g && this.disk == disk
    {
      this.g := g;
      this.disk := disk;
    }

    ghost predicate Ready()
      reads this
    {
      g.Valid() && g.Fits(disk)
    }

    /** The first copy of the table, the one the driver reads. */
    ghost function T(): (t: seq<nat>)
      reads this
      requires Ready()
      ensures |t| == g.totalClusters + 2
    {
      Table(g, disk, 0)
    }

    /** Sectors outside the tables are as they were on disk d. */
    ghost predicate OnlyFatChanged(d: Disk)
      reads this
    {
      |disk| == |d| && forall l :: 0 <= l < |d| && !g.InFat(l) ==> disk[l] == d[l]
    }

    /** The masked entry of a cluster, from the sector that holds it. */
    function ReadEntry(cluster: nat): (v: nat)
      reads this
      requires Ready() && cluster <= g.LastCluster()
      ensures v == T()[cluster]
    {
      EntryPlace(g, 0, cluster);
      var offset := g.EntryOffset(cluster);
      var buf := disk[g.fatStart + Quot(offset, 512)];
      g.Low(DecodeEntry(g, buf, Rem(offset, 512)))
    }

    method NextCluster(cluster: nat) returns (next: nat)
      requires Ready()
      ensures next == Next(T(), cluster)
    {
      if cluster < 2 || cluster > g.totalClusters + 1 {
        return 0;
      }
      next := ReadEntry(cluster);
      if next >= g.EocMin() {
        return 0;
      }
      if next < 2 || next > g.totalClusters + 1 {
        return 0;
      }
    }

    /** Every copy of the table takes the value; reserved bits and all other
        sectors stay. Holds whether or not the copies agreed before. */
    method SetCluster(cluster: nat, value: nat)
      requires Ready() && cluster <= g.LastCluster()
      modifies this
      ensures Ready() && OnlyFatChanged(old(disk))
      ensures forall f :: 0 <= f < g.numFats ==>
                Table(g, disk, f) == Table(g, old(disk), f)[cluster := g.Low(value)]
      ensures ReservedBitsKept(g, old(disk), disk)
    {
      hide PatchEntry, DecodeEntry, Quot, Rem, Table, Times;
      var f := 0;
      while f < g.numFats
        invariant 0 <= f <= g.numFats && Ready() && OnlyFatChanged(old(disk))
        invariant forall k :: 0 <= k < f ==>
                    Table(g, disk, k) == Table(g, old(disk), k)[cluster := g.Low(value)]
        invariant forall k :: f <= k < g.numFats ==> Table(g, disk, k) == Table(g, old(disk), k)
        invariant ReservedBitsKept(g, old(disk), disk)
      {
        ghost var before := disk;
        EntryPlace(g, f, cluster);
        var offset := g.EntryOffset(cluster);
        var sect := g.fatStart + Times(f, g.sectorsPerFat) + Quot(offset, 512);
        var buf := disk[sect];
        buf := PatchEntry(g, buf, Rem(offset, 512), value);
        disk := disk[sect := buf];
        assert disk == PutEntry(g, before, f, cluster, value);
        forall k | 0 <= k < g.numFats
          ensures Table(g, disk, k)
               == if f == k then Table(g, before, k)[cluster := g.Low(value)] else Table(g, before, k)
        {
          PutEntryTable(g, before, f, cluster, value, k);
        }
        forall k, c | 0 <= k < g.numFats && 0 <= c <= g.LastCluster()
          ensures g.High(RawEntry(g, disk, k, c)) == g.High(RawEntry(g, old(disk), k, c))
        {
          PutEntryRaw(g, before, f, cluster, value, k, c);
        }
        f := f + 1;
      }
    }

    /** Zero the data sectors of a cluster. */
    method ZeroData(c: nat)
      requires Ready() && g.InRange(c)
      modifies this
      ensures Ready() && |disk| == |old(disk)| && ZeroCluster(g, disk, c)
      ensures forall l :: 0 <= l < |disk| && !InCluster(g, l, c) ==> disk[l] == old(disk)[l]
    {
      ClusterPlace(g, c);
      var lba := g.dataStart + Times(c - 2, g.sectorsPerCluster);
      var s := 0;
      while s < g.sectorsPerCluster
        invariant 0 <= s <= g.sectorsPerCluster && |disk| == |old(disk)|
        invariant forall l :: lba <= l < lba + s ==> disk[l] == ZeroSector()
        invariant forall l :: 0 <= l < |disk| && !InCluster(g, l, c) ==> disk[l] == old(disk)[l]
      {
        disk := disk[lba + s := ZeroSector()];
        s := s + 1;
      }
    }

    /** Mark a free cluster as the end of a chain and zero its data. */
    method ClaimCluster(c: nat)
      requires Ready() && g.InRange(c)
      modifies this
      ensures Ready() && |disk| == |old(disk)| && ZeroCluster(g, disk, c)
      ensures forall f :: 0 <= f < g.numFats ==> Table(g, disk, f) == Table(g, old(disk), f)[c := g.Eoc()]
      ensures forall l :: 0 <= l < |disk| && !g.InFat(l) && !InCluster(g, l, c) ==> disk[l] == old(disk)[l]
    {
      hide Table;
      SetCluster(c, g.Eoc());
      ghost var mid := disk;
      ZeroData(c);
      ClusterPlace(g, c);
      FatOnly(g, mid, disk);
    }

    /** First fit: the lowest free cluster is marked as a chain end in every
        copy and its data is zeroed; 0 exactly when none is free. */
    method AllocCluster() returns (r: nat)
      requires Ready()
      modifies this
      ensures Ready() && |disk| == |old(disk)|
      ensures r == 0 ==> disk == old(disk) && forall c :: g.InRange(c) ==> T()[c] != 0
      ensures r != 0 ==>
        && g.InRange(r) && old(T())[r] == 0
        && (forall c :: 2 <= c < r ==> old(T())[c] != 0)
        && (forall f :: 0 <= f < g.numFats ==> Table(g, disk, f) == Table(g, old(disk), f)[r := g.Eoc()])
        && ZeroCluster(g, disk, r)
        && (forall l :: 0 <= l < |disk| && !g.InFat(l) && !InCluster(g, l, r) ==> disk[l] == old(disk)[l])
    {
      var c := 2;
      while c <= g.totalClusters + 1
        invariant 2 <= c <= g.totalClusters + 2 && disk == old(disk)
        invariant forall k :: 2 <= k < c ==> T()[k] != 0
      {
        var val := ReadEntry(c);
        if val == 0 {
          ClaimCluster(c);
          return c;
        }
        c := c + 1;
      }
      return 0;
    }

    /** Frees every cluster reachable from start and nothing else, in every
        copy, on tables of any content: a cyclic chain is freed once round. */
    method FreeChain(start: nat)
      requires Ready()
      modifies this
      ensures Ready() && OnlyFatChanged(old(disk))
      ensures forall f, c :: 0 <= f < g.numFats && 0 <= c < g.totalClusters + 2 ==>
                Table(g, disk, f)[c] == if Reachable(old(T()), start, c) then 0 else Table(g, old(disk), f)[c]
    {
      hide Table, Next, IsPath, Reachable;
      ghost var t0 := T();
      ghost var v: seq<nat> := [];
      var c: nat := start;
      while c >= 2 && c <= g.totalClusters + 1
        invariant Ready() && OnlyFatChanged(old(disk))
        invariant FreeWalk(t0, v, start, c)
        invariant AllCleared(old(disk), v)
        decreases Allocated(T())
      {
        var next := NextCluster(c);
        ghost var t := T();
        assert Cleared(t0, t, v);
        FreeWalkStep(t0, t, v, start, c);
        SetCluster(c, 0);
        ghost var v' := if c in v then v else v + [c];
        assert AllCleared(old(disk), v');
        if next == 0 {
          FreeWalkEnd(t0, v, v', start, c);
          return;
        }
        NextAllocated(t, c);
        AllocatedDrops(t, c);
        v := v';
        c := next;
      }
      NothingReachable(t0, v, start, c);
    }

    /** In every copy, exactly the clusters of v were cleared since disk d. */
    ghost predicate AllCleared(d: Disk, v: seq<nat>)
      reads this
      requires Ready() && g.Fits(d)
    {
      forall f :: 0 <= f < g.numFats ==> Cleared(Table(g, d, f), Table(g, disk, f), v)
    }
  }
}
