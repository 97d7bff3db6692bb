/**
 The steps that creating a file or a directory is made of, each shown to keep
 the volume well formed.
 */
module FatCreate {
  import opened Octets
  import opened Arith
  import opened FatLayout
  import opened FatTable
  import opened FatVolume
  import opened FatFile
  import opened FatIo
  import opened FatSlots
  import opened FatDir
  import opened FatFs
  import opened FatOps

  // ----- a slot of a directory is filled -----

  lemma FillOutside(g: Geometry, d: Disk, d2: Disk, t: Tree, chains: Chains, x: nat, i: nat, e: Slot)
    requires VolOk(g, d, t, chains) && g.Fits(d2) && |d2| == |d| && x in t.dirs && i < |t.dirs[x]|
    requires IsFile(e) ==> FirstOf(e) == 0
    requires forall h :: h in chains && h != x ==> Kept(g, d, d2, chains[h])
    requires x != 0 && !g.isFat32 ==> RootKept(g, d, d2)
    ensures StepOutside(g, d, d2, t, Placed(t, x, i, e), chains, chains, {x})
  {
    hide Table, Kept, IsChain, DirBytes, SlotsOf, FilesOk, Mirrored, TreeOk, IsEntry, FirstOf, RootKept, IsDir;
  }

  lemma FillChains(g: Geometry, d: Disk, d2: Disk, chains: Chains, x: nat)
    requires g.Valid() && g.Fits(d) && g.Fits(d2) && ChainsOk(g, d, chains)
    requires OnlyDirChanged(g, d, d2, x, ChainOf(chains, x))
    requires if x == 0 then !g.isFat32 else x in chains
    ensures forall h :: h in chains && h != x ==> Kept(g, d, d2, chains[h])
    ensures ChainsOk(g, d2, chains)
  {
    hide Table, Kept, IsChain, OnlyDirChanged, Apart;
    DirChangeTables(g, d, d2, x, ChainOf(chains, x));
    forall h | h in chains && h != x ensures Kept(g, d, d2, chains[h]) {
      ApartFrom(chains, x, h);
      DirChangeKeeps(g, d, d2, x, ChainOf(chains, x), chains[h]);
    }
  }

  lemma FilledVol(g: Geometry, d: Disk, d2: Disk, t: Tree, chains: Chains, x: nat, i: nat, e: Slot)
    requires VolOk(g, d, t, chains) && g.Fits(d2) && x in t.dirs && i < |t.dirs[x]|
    requires OnlyDirChanged(g, d, d2, x, ChainOf(chains, x))
    requires Clusters(g, ChainOf(chains, x)) && (x == 0 ==> !g.isFat32)
    requires SlotsOf(DirBytes(g, d2, x, ChainOf(chains, x))) == t.dirs[x][i := e]
    requires TreeOk(Placed(t, x, i, e)) && (IsFile(e) ==> FirstOf(e) == 0)
    ensures VolOk(g, d2, Placed(t, x, i, e), chains)
    ensures SameFiles(g, d, d2, t, Placed(t, x, i, e), chains, chains, {(x, i)})
  {
    hide Table, Kept, IsChain, OnlyDirChanged, Apart, DirBytes, SlotsOf, FilesOk, Mirrored, IsEntry, FirstOf, DirOk,
      Points, StepOutside, EntryChain, BytesOf, SameFiles, RootKept, IsDir, SizeOf, TreeOk, DirsOk, ChainsOk;
    var t' := Placed(t, x, i, e);
    DirKind(g, d, t, chains, x);
    FillChains(g, d, d2, chains, x);
    DirChangeTables(g, d, d2, x, ChainOf(chains, x));
    DirChangeLength(g, d, d2, x, ChainOf(chains, x));
    FillOutside(g, d, d2, t, chains, x, i, e);
    forall y: nat, j: nat | FileAt(t', y, j) && FirstOf(t'.dirs[y][j]) in {x} ensures FirstOf(t'.dirs[y][j]) == 0 {
      FileNotDir(t', y, j);
    }
    Reassembled(g, d, d2, t, t', chains, chains, {x});
    forall y: nat, j: nat | FileAt(t', y, j) && !(y == x && j == i)
      ensures FileAt(t, y, j) && t.dirs[y][j] == t'.dirs[y][j] && FirstOf(t.dirs[y][j]) !in {x} - {0}
    {
    }
    FilesKept(g, d, d2, t, t', chains, chains, {x}, {(x, i)});
  }

  /** No file shares its chain with a directory. */
  lemma FileNotDir(t: Tree, y: nat, j: nat)
    requires TreeOk(t) && FileAt(t, y, j)
    ensures FirstOf(t.dirs[y][j]) == 0 || FirstOf(t.dirs[y][j]) !in t.dirs
  {
    assert RefOk(t, t.dirs[y][j]);
  }

  // ----- a directory grows by a cleared cluster -----

  lemma GrowDirVol(g: Geometry, d: Disk, d2: Disk, t: Tree, chains: Chains, x: nat, s': seq<nat>)
    requires VolOk(g, d, t, chains) && g.Fits(d2) && x in t.dirs && x != 0 && x in chains
    requires Extended(g, d, d2, chains[x], s') && |s'| > 0
    requires Clusters(g, chains[x]) && Clusters(g, s')
    requires Contents(g, d2, s') == Contents(g, d, chains[x]) + Zeros(g.BytesPerCluster())
    ensures VolOk(g, d2, GrownTree(t, x, SlotsOf(Zeros(g.BytesPerCluster()))), chains[x := s'])
    ensures SameFiles(g, d, d2, t, GrownTree(t, x, SlotsOf(Zeros(g.BytesPerCluster()))), chains, chains[x := s'], {})
  {
    hide Table, Kept, IsChain, Apart, FilesOk, Mirrored, IsEntry, FirstOf, DirOk, Points, StepOutside, EntryChain,
      BytesOf, SameFiles, RootKept, IsDir, SizeOf, DirsOk, ChainsOk, Extended, SlotsOf, Contents, RefOk, IsEnd,
      IsLongName;
    var zeros := SlotsOf(Zeros(g.BytesPerCluster()));
    var t', chains' := GrownTree(t, x, zeros), chains[x := s'];
    ZeroSlots(Zeros(g.BytesPerCluster()));
    GrownOk(t, x, zeros);
    GrowDirChains(g, d, d2, t, chains, x, s');
    DirKind(g, d, t, chains, x);
    GrownSlots(g, d, d2, chains[x], s');
    forall y: nat, j: nat | FileAt(t', y, j)
      ensures FileAt(t, y, j) && t.dirs[y][j] == t'.dirs[y][j] && FirstOf(t.dirs[y][j]) !in {x} - {0}
    {
      GrownFileAt(t, x, zeros, y, j);
      FileNotDir(t, y, j);
    }
    GrowOutside(g, d, d2, t, chains, x, s', zeros);
    Reassembled(g, d, d2, t, t', chains, chains', {x});
    FilesKept(g, d, d2, t, t', chains, chains', {x}, {});
  }

  lemma GrownFileAt(t: Tree, x: nat, zeros: seq<Slot>, y: nat, j: nat)
    requires x in t.dirs && FileAt(GrownTree(t, x, zeros), y, j)
    requires forall i :: 0 <= i < |zeros| ==> IsEnd(zeros[i]) && !IsLongName(zeros[i])
    ensures FileAt(t, y, j) && t.dirs[y][j] == GrownTree(t, x, zeros).dirs[y][j]
  {
  }

  lemma GrownSlots(g: Geometry, d: Disk, d2: Disk, s: seq<nat>, s': seq<nat>)
    requires g.Valid() && g.Fits(d) && g.Fits(d2) && Clusters(g, s) && Clusters(g, s')
    requires Contents(g, d2, s') == Contents(g, d, s) + Zeros(g.BytesPerCluster())
    ensures SlotsOf(Contents(g, d2, s')) == SlotsOf(Contents(g, d, s)) + SlotsOf(Zeros(g.BytesPerCluster()))
  {
    hide Contents, SlotsOf;
    SlotCounts(g, |s|);
    SlotsConcat(Contents(g, d, s), Zeros(g.BytesPerCluster()));
  }

  lemma GrowDirChains(g: Geometry, d: Disk, d2: Disk, t: Tree, chains: Chains, x: nat, s': seq<nat>)
    requires VolOk(g, d, t, chains) && g.Fits(d2) && x != 0 && x in chains
    requires Extended(g, d, d2, chains[x], s') && |s'| > 0
    ensures |d2| == |d| && Mirrored(g, d2) && ChainsOk(g, d2, chains[x := s']) && s'[0] == x
    ensures forall h :: h in chains && h != x ==> Kept(g, d, d2, chains[h])
    ensures !g.isFat32 ==> RootKept(g, d, d2)
  {
    hide Table, Kept, IsChain, Apart, FilesOk, Mirrored, DirsOk, RootKept, Extended;
    ExtendedGives(g, d, d2, chains[x], s');
    ChainClusters(g, Table(g, d, 0), chains[x]);
    WriteChains(g, d, d2, chains, x, s');
    if !g.isFat32 {
      ExtendedKeepsRoot(g, d, d2, chains[x], s');
    }
  }

  lemma GrowOutside(g: Geometry, d: Disk, d2: Disk, t: Tree, chains: Chains, x: nat, s': seq<nat>, zeros: seq<Slot>)
    requires VolOk(g, d, t, chains) && g.Fits(d2) && |d2| == |d| && x in t.dirs && x != 0
    requires forall h :: h in chains && h != x ==> Kept(g, d, d2, chains[h])
    requires !g.isFat32 ==> RootKept(g, d, d2)
    requires forall y: nat, j: nat :: FileAt(GrownTree(t, x, zeros), y, j) ==>
      FileAt(t, y, j) && t.dirs[y][j] == GrownTree(t, x, zeros).dirs[y][j]
    ensures StepOutside(g, d, d2, t, GrownTree(t, x, zeros), chains, chains[x := s'], {x})
  {
    hide Table, Kept, IsChain, DirBytes, SlotsOf, FilesOk, Mirrored, TreeOk, IsEntry, FirstOf, RootKept, IsDir;
  }

  // ----- a new directory -----

  lemma NewDirVol(g: Geometry, d: Disk, d2: Disk, t: Tree, chains: Chains, c: nat, slots: seq<Slot>)
    requires VolOk(g, d, t, chains) && g.Fits(d2) && g.InRange(c)
    requires Extended(g, d, d2, [], [c]) && Clusters(g, [c])
    requires SlotsOf(Contents(g, d2, [c])) == slots
    requires DirOk(slots) && forall i :: 0 <= i < |slots| ==> !IsEntry(slots[i])
    ensures c !in chains && VolOk(g, d2, WithDir(t, c, slots), chains[c := [c]])
    ensures SameFiles(g, d, d2, t, WithDir(t, c, slots), chains, chains[c := [c]], {})
    ensures forall y: nat, j: nat :: !Points(WithDir(t, c, slots), y, j, c)
  {
    hide Table, Kept, IsChain, Apart, FilesOk, Mirrored, IsEntry, FirstOf, DirOk, Points, StepOutside, EntryChain,
      BytesOf, SameFiles, RootKept, IsDir, SizeOf, DirsOk, ChainsOk, Extended, SlotsOf, Contents, RefOk;
    var t', chains' := WithDir(t, c, slots), chains[c := [c]];
    NewDirChains(g, d, d2, t, chains, c);
    NewDirOk(t, c, slots);
    NewDirOutside(g, d, d2, t, chains, c, slots);
    forall y: nat, j: nat | FileAt(t', y, j)
      ensures FileAt(t, y, j) && t.dirs[y][j] == t'.dirs[y][j] && FirstOf(t.dirs[y][j]) !in {c} - {0}
    {
      FileNotDir(t', y, j);
    }
    Reassembled(g, d, d2, t, t', chains, chains', {c});
    FilesKept(g, d, d2, t, t', chains, chains', {c}, {});
  }

  lemma NewDirChains(g: Geometry, d: Disk, d2: Disk, t: Tree, chains: Chains, c: nat)
    requires VolOk(g, d, t, chains) && g.Fits(d2) && Extended(g, d, d2, [], [c])
    ensures c !in chains && c !in t.dirs && c != 0
    ensures |d2| == |d| && Mirrored(g, d2) && ChainsOk(g, d2, chains[c := [c]])
    ensures forall h :: h in chains ==> Kept(g, d, d2, chains[h])
    ensures !g.isFat32 ==> RootKept(g, d, d2)
  {
    hide Table, Kept, IsChain, Apart, FilesOk, Mirrored, DirsOk, RootKept, Extended, DirOk, RefOk, IsEntry, Points;
    ExtendedGives(g, d, d2, [], [c]);
    assert ChainOf(chains, 0) == [];
    WriteChains(g, d, d2, chains, 0, [c]);
    if !g.isFat32 {
      ExtendedKeepsRoot(g, d, d2, [], [c]);
    }
  }

  lemma NewDirOutside(g: Geometry, d: Disk, d2: Disk, t: Tree, chains: Chains, c: nat, slots: seq<Slot>)
    requires VolOk(g, d, t, chains) && g.Fits(d2) && |d2| == |d| && c != 0 && c !in t.dirs
    requires forall h :: h in chains ==> Kept(g, d, d2, chains[h])
    requires !g.isFat32 ==> RootKept(g, d, d2)
    requires forall i :: 0 <= i < |slots| ==> !IsEntry(slots[i])
    ensures StepOutside(g, d, d2, t, WithDir(t, c, slots), chains, chains[c := [c]], {c})
  {
    hide Table, Kept, IsChain, DirBytes, SlotsOf, FilesOk, Mirrored, TreeOk, IsEntry, FirstOf, RootKept, IsDir;
  }

  /** Clusters may be lost to no chain; the volume stays well formed. */
  lemma LeakedVol(g: Geometry, d: Disk, d2: Disk, t: Tree, chains: Chains, s': seq<nat>)
    requires VolOk(g, d, t, chains) && g.Fits(d2) && Extended(g, d, d2, [], s')
    ensures VolOk(g, d2, t, chains) && SameFiles(g, d, d2, t, t, chains, chains, {})
  {
    hide Table, Kept, IsChain, FilesOk, Mirrored, IsEntry, FirstOf, DirOk, Points, EntryChain, BytesOf, SameFiles,
      RootKept, IsDir, SizeOf, DirsOk, Extended, SlotsOf, Contents, RefOk, Apart;
    ExtendedGives(g, d, d2, [], s');
    forall h | h in chains ensures Kept(g, d, d2, chains[h]) && IsChain(Table(g, d2, 0), chains[h]) {
      NothingApart(chains[h]);
      ExtendedKeeps(g, d, d2, [], s', chains[h]);
      KeptChain(g, d, d2, chains[h]);
      ChainClusters(g, Table(g, d, 0), chains[h]);
    }
    if !g.isFat32 {
      ExtendedKeepsRoot(g, d, d2, [], s');
    }
    if 0 in t.dirs {
      DirKind(g, d, t, chains, 0);
    }
    Reassembled(g, d, d2, t, t, chains, chains, {});
    FilesKept(g, d, d2, t, t, chains, chains, {}, {});
  }

  lemma NothingApart(k: seq<nat>)
    ensures Apart([], k)
  {
  }
}
