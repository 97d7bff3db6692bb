/**
 From the boot sector to a mounted volume: the geometry with its 32-bit words, when
 that geometry is consistent, and that a freshly formatted volume is well formed.
 */
module FatMount {
  import opened Octets
  import opened Arith
  import opened FatLayout
  import opened FatTable
  import opened FatVolume
  import opened FatFile
  import opened FatIo
  import opened FatSlots
  import opened FatDir
  import opened FatFs

  const W32 := 0x1_0000_0000

  /** The boot-sector fields that mounting reads. */
  datatype Bpb = Bpb(
    bytesPerSector: nat, sectorsPerCluster: nat, reserved: nat, numFats: nat, rootEntries: nat,
    totalSectors16: nat, sectorsPerFat16: nat, totalSectors32: nat, sectorsPerFat32: nat, rootCluster: nat)

  function Parse(s: Sector): Bpb {
    Bpb(Word16(s[11], s[12]), s[13], Word16(s[14], s[15]), s[16], Word16(s[17], s[18]),
        Word16(s[19], s[20]), Word16(s[22], s[23]), Word32(s[32], s[33], s[34], s[35]),
        Word32(s[36], s[37], s[38], s[39]), Word32(s[44], s[45], s[46], s[47]))
  }

  function IsFat32(b: Bpb): bool { b.sectorsPerFat16 == 0 }

  function FatSize(b: Bpb): nat { if IsFat32(b) then b.sectorsPerFat32 else b.sectorsPerFat16 }

  function RootSectors(b: Bpb): nat { if IsFat32(b) then 0 else (b.rootEntries * 32 + 511) / 512 }

  function RootLba(b: Bpb): nat { (b.reserved + Times(b.numFats, FatSize(b))) % W32 }

  function DataStart(b: Bpb): nat { (RootLba(b) + RootSectors(b)) % W32 }

  function TotalSectors(b: Bpb): nat { if b.totalSectors16 != 0 then b.totalSectors16 else b.totalSectors32 }

  datatype Mounted = Mounted(g: Geometry) | Refused

  /** The checks and sums of mounting. */
  method Mount(sector: Sector) returns (r: Mounted)
    ensures var b := Parse(sector);
      r.Refused? <==>
        || b.bytesPerSector != 512 || b.sectorsPerCluster == 0 || b.reserved == 0 || b.numFats == 0
        || FatSize(b) == 0 || (!IsFat32(b) && b.rootEntries == 0) || TotalSectors(b) <= DataStart(b)
    ensures r.Mounted? ==> GeometryOf(Parse(sector), r.g)
  {
    hide Times, Parse, RootLba, DataStart, RootSectors, TotalSectors, FatSize;
    var b := Parse(sector);
    if b.bytesPerSector != 512 || b.sectorsPerCluster == 0 || b.reserved == 0 || b.numFats == 0 {
      return Refused;
    }
    if FatSize(b) == 0 || (!IsFat32(b) && b.rootEntries == 0) || DataStart(b) >= TotalSectors(b) {
      return Refused;
    }
    var clusters := (TotalSectors(b) - DataStart(b)) / b.sectorsPerCluster;
    DivTimes(TotalSectors(b) - DataStart(b), b.sectorsPerCluster);
    return Mounted(Geometry(IsFat32(b), b.reserved, FatSize(b), b.numFats, if IsFat32(b) then 0 else RootLba(b),
      RootSectors(b), if IsFat32(b) then b.rootCluster else 0, DataStart(b), b.sectorsPerCluster, clusters));
  }

  /** The geometry of a boot sector: as many whole clusters as there is room for. */
  ghost predicate GeometryOf(b: Bpb, g: Geometry) {
    && g.isFat32 == IsFat32(b) && g.fatStart == b.reserved && g.sectorsPerFat == FatSize(b) && g.numFats == b.numFats
    && g.rootDirLba == (if IsFat32(b) then 0 else RootLba(b)) && g.rootDirSectors == RootSectors(b)
    && g.rootCluster == (if IsFat32(b) then b.rootCluster else 0) && g.dataStart == DataStart(b)
    && 0 < b.numFats && 0 < b.sectorsPerCluster && g.sectorsPerCluster == b.sectorsPerCluster
    && DataStart(b) + Times(g.totalClusters, g.sectorsPerCluster) <= TotalSectors(b)
    && TotalSectors(b) < DataStart(b) + Times(g.totalClusters, g.sectorsPerCluster) + g.sectorsPerCluster
  }

  /** Exactly what mounting leaves unchecked: the sums did not wrap, each table
      holds all entries, cluster numbers stay below the end marks, and a FAT32
      root is a cluster. */
  ghost predicate Consistent(b: Bpb, g: Geometry) {
    && b.reserved + Times(b.numFats, FatSize(b)) + RootSectors(b) < W32
    && g.EntryOffset(g.totalClusters + 2) <= g.sectorsPerFat * 512 && g.LastCluster() < g.EocMin()
    && (g.isFat32 ==> g.InRange(g.rootCluster))
  }

  lemma MountedValid(b: Bpb, g: Geometry, d: Disk)
    requires GeometryOf(b, g) && b.reserved < W32 && TotalSectors(b) <= |d|
    ensures g.Valid() <==> Consistent(b, g)
    ensures g.Fits(d)
  {
    hide Times;
    var end := b.reserved + Times(b.numFats, FatSize(b));
    if g.Valid() {
      assert end <= g.dataStart < W32;
      assert RootLba(b) == end;
    }
  }

  /** An empty FAT16 volume: a zeroed root region and agreeing tables. */
  lemma FormattedFat16(g: Geometry, d: Disk)
    requires g.Valid() && !g.isFat32 && g.Fits(d) && Mirrored(g, d)
    requires forall l :: g.rootDirLba <= l < g.rootDirLba + g.rootDirSectors ==> d[l] == ZeroSector()
    ensures VolOk(g, d, Tree(0, map[0 := SlotsOf(RegionBytes(d, g.rootDirLba, g.rootDirSectors))], {}), map[])
  {
    hide Mirrored, Table;
    var b := RegionBytes(d, g.rootDirLba, g.rootDirSectors);
    forall k | 0 <= k < |b| ensures b[k] == 0 {
      assert b[k] == d[g.rootDirLba + k / 512][k % 512];
    }
    ZeroSlots(b);
  }

  /** An empty FAT32 volume: a root of one zeroed cluster and agreeing tables. */
  lemma FormattedFat32(g: Geometry, d: Disk)
    requires g.Valid() && g.isFat32 && g.Fits(d) && Mirrored(g, d)
    requires Table(g, d, 0)[g.rootCluster] >= g.EocMin() && Clusters(g, [g.rootCluster])
    requires forall k :: 0 <= k < |Contents(g, d, [g.rootCluster])| ==> Contents(g, d, [g.rootCluster])[k] == 0
    ensures var rc := g.rootCluster;
      VolOk(g, d, Tree(rc, map[rc := SlotsOf(Contents(g, d, [rc]))], {rc}), map[rc := [rc]])
  {
    hide Mirrored, Table, Contents;
    ZeroSlots(Contents(g, d, [g.rootCluster]));
  }
}
