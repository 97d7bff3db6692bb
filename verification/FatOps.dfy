/**
 The file operations on a mounted volume. Each keeps the volume well formed,
 and says what it does to the tree and to the bytes of every file.
 */
module FatOps {
  import opened Arith
  import opened FatLayout
  import opened FatTable
  import opened FatVolume
  import opened FatFile
  import opened FatIo
  import opened FatSlots
  import opened FatDir
  import opened FatFs

  // ----- removing an entry -----

  /** From d to d1 exactly the clusters of s were freed, in every copy. */
  ghost predicate Freed(g: Geometry, d: Disk, d1: Disk, s: seq<nat>)
    requires g.Valid() && g.Fits(d) && g.Fits(d1)
  {
    && |d1| == |d| && (forall l :: 0 <= l < |d| && !g.InFat(l) ==> d1[l] == d[l])
    && (forall f, c :: 0 <= f < g.numFats && 0 <= c < g.totalClusters + 2 ==>
          Table(g, d1, f)[c] == if c in s then 0 else Table(g, d, f)[c])
  }

  lemma FreedKeeps(g: Geometry, d: Disk, d1: Disk, s: seq<nat>, k: seq<nat>)
    requires g.Valid() && g.Fits(d) && g.Fits(d1) && Freed(g, d, d1, s)
    requires Clusters(g, k) && Apart(s, k)
    ensures Kept(g, d, d1, k)
  {
    hide Table;
    forall j, l | 0 <= j < |k| && 0 <= l < |d| && InCluster(g, l, k[j]) ensures d1[l] == d[l] {
      ClusterPlace(g, k[j]);
    }
    assert forall j :: 0 <= j < |k| ==> k[j] !in s;
  }

  lemma FreedMirrored(g: Geometry, d: Disk, d1: Disk, s: seq<nat>)
    requires g.Valid() && g.Fits(d) && g.Fits(d1) && Freed(g, d, d1, s) && Mirrored(g, d)
    ensures |d1| == |d| && Mirrored(g, d1) && (!g.isFat32 ==> RootKept(g, d, d1))
  {
    hide Table;
    forall f | 0 <= f < g.numFats ensures Table(g, d1, f) == Table(g, d1, 0) {
      assert Table(g, d, f) == Table(g, d, 0);
      forall c | 0 <= c < g.totalClusters + 2 ensures Table(g, d1, f)[c] == Table(g, d1, 0)[c] {
        assert Table(g, d1, 0)[c] == if c in s then 0 else Table(g, d, 0)[c];
      }
    }
  }

  /** The chains left after a freeing and a directory patch. */
  lemma UnlinkChains(g: Geometry, d: Disk, d1: Disk, d2: Disk, chains: Chains, x: nat, first: nat)
    requires g.Valid() && g.Fits(d) && g.Fits(d1) && g.Fits(d2) && ChainsOk(g, d, chains)
    requires Freed(g, d, d1, ChainOf(chains, first)) && OnlyDirChanged(g, d1, d2, x, ChainOf(chains, x))
    requires if x == 0 then !g.isFat32 else x in chains
    ensures forall h :: h in chains && h != first && h != x ==> Kept(g, d, d2, chains[h])
    ensures ChainsOk(g, d2, chains - {first})
  {
    hide Table, Kept, IsChain, Freed, OnlyDirChanged, Apart;
    var rest := chains - {first};
    DirChangeTables(g, d1, d2, x, ChainOf(chains, x));
    forall h | h in chains && h != first
      ensures IsChain(Table(g, d2, 0), chains[h]) && (h != x ==> Kept(g, d, d2, chains[h]))
    {
      ApartFrom(chains, first, h);
      FreedKeeps(g, d, d1, ChainOf(chains, first), chains[h]);
      KeptChain(g, d, d1, chains[h]);
      ChainClusters(g, Table(g, d, 0), chains[h]);
      if h != x {
        ApartFrom(chains, x, h);
        DirChangeKeeps(g, d1, d2, x, ChainOf(chains, x), chains[h]);
        KeptTrans(g, d, d1, d2, chains[h]);
      }
    }
  }

  lemma ApartFrom(chains: Chains, a: nat, h: nat)
    requires h in chains && h != a
    requires forall h, k :: h in chains && k in chains && h != k ==> Apart(chains[h], chains[k])
    ensures Apart(ChainOf(chains, a), chains[h])
  {
  }

  /** The bytes of every file of t', except at the slots in `but`, are those it had in t. */
  ghost predicate SameFiles(
    g: Geometry, d: Disk, d': Disk, t: Tree, t': Tree, chains: Chains, chains': Chains, but: set<(nat, nat)>)
    requires VolOk(g, d, t, chains) && VolOk(g, d', t', chains')
  {
    forall y: nat, j: nat :: FileAt(t', y, j) && (y, j) !in but ==>
      FileAt(t, y, j) && t.dirs[y][j] == t'.dirs[y][j]
      && BytesOf(g, d', t'.dirs[y][j], chains') == BytesOf(g, d, t.dirs[y][j], chains)
  }

  /** Removing an entry leaves all other slots as they were. */
  lemma RemovedSlots(t: Tree, x: nat, i: nat, y: nat)
    requires x in t.dirs && i < |t.dirs[x]| && y in Removed(t, x, i).dirs
    ensures y in t.dirs && |Removed(t, x, i).dirs[y]| == |t.dirs[y]|
    ensures y != x ==> Removed(t, x, i).dirs[y] == t.dirs[y]
    ensures forall j: nat :: j < |t.dirs[y]| && !(y == x && j == i) ==> Removed(t, x, i).dirs[y][j] == t.dirs[y][j]
    ensures !FileAt(Removed(t, x, i), x, i)
  {
    DeletedSlot(t.dirs[x][i]);
  }

  lemma UnlinkOutside(g: Geometry, d: Disk, d2: Disk, t: Tree, chains: Chains, x: nat, i: nat)
    requires VolOk(g, d, t, chains) && g.Fits(d2) && |d2| == |d|
    requires x in t.dirs && i < |t.dirs[x]|
    requires forall h :: h in chains && h != FirstOf(t.dirs[x][i]) && h != x ==> Kept(g, d, d2, chains[h])
    requires x != 0 && !g.isFat32 ==> RootKept(g, d, d2)
    ensures StepOutside(g, d, d2, t, Removed(t, x, i), chains, chains - {FirstOf(t.dirs[x][i])}, {x})
  {
    hide Table, Kept, IsChain, DirBytes, SlotsOf, FilesOk, Mirrored, TreeOk, IsEntry, FirstOf, Removed, IsFile,
      RootKept;
    var t' := Removed(t, x, i);
    forall y | y in t'.dirs
      ensures y in t.dirs && |t'.dirs[y]| == |t.dirs[y]| && (y != x ==> t'.dirs[y] == t.dirs[y])
    {
      RemovedSlots(t, x, i, y);
    }
    forall y: nat, j: nat | FileAt(t', y, j) ensures t'.dirs[y][j] == t.dirs[y][j] {
      RemovedSlots(t, x, i, y);
    }
  }

  lemma RootKeptTrans(g: Geometry, d: Disk, d1: Disk, d2: Disk)
    requires RootKept(g, d, d1) && RootKept(g, d1, d2)
    ensures RootKept(g, d, d2)
  {
  }

  lemma DirChangeLength(g: Geometry, d: Disk, d': Disk, x: nat, s: seq<nat>)
    requires OnlyDirChanged(g, d, d', x, s)
    ensures |d'| == |d|
  {
  }

  /** Files that a step does not touch keep their bytes. */
  lemma FilesKept(
    g: Geometry, d: Disk, d': Disk, t: Tree, t': Tree, chains: Chains, chains': Chains, at: set<nat>,
      but: set<(nat, nat)>)
    requires VolOk(g, d, t, chains) && VolOk(g, d', t', chains')
    requires StepOutside(g, d, d', t, t', chains, chains', at)
    requires forall y: nat, j: nat :: FileAt(t', y, j) && (y, j) !in but ==>
      FileAt(t, y, j) && t.dirs[y][j] == t'.dirs[y][j] && FirstOf(t.dirs[y][j]) !in at - {0}
    ensures SameFiles(g, d, d', t, t', chains, chains', but)
  {
    hide Table, Kept, IsChain, DirBytes, SlotsOf, Mirrored, IsEntry, FirstOf, SizeOf, DirOk, RefOk, Points,
      StepOutside, DirsOk, IsDir;
    forall y: nat, j: nat | FileAt(t', y, j) && (y, j) !in but
      ensures BytesOf(g, d', t'.dirs[y][j], chains') == BytesOf(g, d, t.dirs[y][j], chains)
    {
      var e := t.dirs[y][j];
      assert EntryChain(g, d, e, chains) && EntryChain(g, d', e, chains');
      if FirstOf(e) == 0 {
        EmptyFile(g, d, e, chains);
        EmptyFile(g, d', e, chains');
      } else {
        OldFileKept(g, d, d', t, t', chains, chains', at, y, j);
      }
    }
  }

  lemma EmptyFile(g: Geometry, d: Disk, e: Slot, chains: Chains)
    requires g.Valid() && g.Fits(d) && EntryChain(g, d, e, chains) && FirstOf(e) == 0
    ensures BytesOf(g, d, e, chains) == []
  {
  }

  lemma UnlinkOk(g: Geometry, d: Disk, d1: Disk, d2: Disk, t: Tree, chains: Chains, x: nat, i: nat)
    requires VolOk(g, d, t, chains) && g.Fits(d1) && g.Fits(d2)
    requires x in t.dirs && i < |t.dirs[x]| && IsLive(t.dirs[x][i]) && !IsDot(t.dirs[x][i])
    requires Freed(g, d, d1, ChainOf(chains, FirstOf(t.dirs[x][i])))
    requires OnlyDirChanged(g, d1, d2, x, ChainOf(chains, x))
    requires SlotsOf(DirBytes(g, d2, x, ChainOf(chains, x))) == t.dirs[x][i := t.dirs[x][i][0 := 0xE5]]
    ensures VolOk(g, d2, Removed(t, x, i), chains - {FirstOf(t.dirs[x][i])})
    ensures SameFiles(g, d, d2, t, Removed(t, x, i), chains, chains - {FirstOf(t.dirs[x][i])}, {})
  {
    hide Table, Kept, IsChain, Freed, OnlyDirChanged, Apart, DirBytes, SlotsOf, FilesOk, Mirrored, IsEntry, FirstOf,
      DirOk, Points, IsLive, IsDot, StepOutside, EntryChain, BytesOf, SameFiles, RootKept, IsDir, SizeOf;
    var first := FirstOf(t.dirs[x][i]);
    var t', chains' := Removed(t, x, i), chains - {first};
    RemovedOk(t, x, i);
    UnlinkChains(g, d, d1, d2, chains, x, first);
    FreedMirrored(g, d, d1, ChainOf(chains, first));
    DirChangeTables(g, d1, d2, x, ChainOf(chains, x));
    DirChangeLength(g, d1, d2, x, ChainOf(chains, x));
    if x != 0 && !g.isFat32 {
      RootKeptTrans(g, d, d1, d2);
    }
    UnlinkOutside(g, d, d2, t, chains, x, i);
    forall y: nat, j: nat | FileAt(t', y, j)
      ensures FileAt(t, y, j) && t.dirs[y][j] == t'.dirs[y][j] && FirstOf(t.dirs[y][j]) !in {x} - {0}
    {
      RemovedSlots(t, x, i, y);
      assert RefOk(t, t.dirs[y][j]);
    }
    Reassembled(g, d, d2, t, t', chains, chains', {x});
    FilesKept(g, d, d2, t, t', chains, chains', {x}, {});
  }

  // ----- updating a written file -----

  /** The chains after one of them grew, taking free clusters. */
  lemma WriteChains(g: Geometry, d: Disk, d1: Disk, chains: Chains, first: nat, s': seq<nat>)
    requires g.Valid() && g.Fits(d) && g.Fits(d1) && ChainsOk(g, d, chains)
    requires first == 0 || first in chains
    requires 0 !in chains
    requires Extended(g, d, d1, ChainOf(chains, first), s') && |s'| > 0 && (first != 0 ==> s'[0] == first)
    ensures first == 0 ==> s'[0] !in chains
    ensures s'[0] != 0 && g.InRange(s'[0])
    ensures forall h :: h in chains && h != first ==> Kept(g, d, d1, chains[h])
    ensures ChainsOk(g, d1, chains[s'[0] := s'])
  {
    hide Table, Kept, IsChain, Apart;
    assert Mirrored(g, d1) && IsChain(Table(g, d1, 0), s') && Clusters(g, s');
    if first == 0 {
      FreshHead(g, d, d1, chains, s');
    }
    forall h | h in chains && h != first
      ensures Kept(g, d, d1, chains[h]) && Apart(s', chains[h]) && Apart(chains[h], s')
      ensures IsChain(Table(g, d1, 0), chains[h])
    {
      ApartFrom(chains, first, h);
      ExtendedKeeps(g, d, d1, ChainOf(chains, first), s', chains[h]);
      KeptChain(g, d, d1, chains[h]);
      ChainClusters(g, Table(g, d, 0), chains[h]);
      ApartSymmetric(s', chains[h]);
    }
  }

  lemma ApartSymmetric(a: seq<nat>, b: seq<nat>)
    requires Apart(a, b)
    ensures Apart(b, a)
  {
  }

  /** A cluster taken from the free ones heads no live chain. */
  lemma FreshHead(g: Geometry, d: Disk, d1: Disk, chains: Chains, s': seq<nat>)
    requires g.Valid() && g.Fits(d) && g.Fits(d1) && ChainsOk(g, d, chains)
    requires Extended(g, d, d1, [], s') && |s'| > 0
    ensures s'[0] !in chains
  {
    hide Table, Next;
  }

  /** The tree after the entry of a written file took its chain and size. */
  function WrittenTree(t: Tree, x: nat, i: nat, inode: nat, size: nat): (r: Tree)
    requires x in t.dirs && i < |t.dirs[x]|
  {
    Placed(t.(heads := t.heads + {inode}), x, i, Patched(t.dirs[x][i], inode, size))
  }

  lemma WrittenTreeOk(t: Tree, x: nat, i: nat, inode: nat, size: nat)
    requires TreeOk(t) && FileAt(t, x, i) && inode != 0
    requires inode < 0x1_0000_0000 && size < 0x1_0000_0000
    requires FirstOf(t.dirs[x][i]) == inode || (FirstOf(t.dirs[x][i]) == 0 && inode !in t.heads)
    ensures TreeOk(WrittenTree(t, x, i, inode, size)) && inode !in t.dirs
    ensures var e := WrittenTree(t, x, i, inode, size).dirs[x][i];
      IsFile(e) && FirstOf(e) == inode && SizeOf(e) == size
  {
    hide DirOk, Patched;
    var t1 := t.(heads := t.heads + {inode});
    PatchedFields(t.dirs[x][i], inode, size);
    assert RefOk(t, t.dirs[x][i]);
    hide FirstOf, SizeOf, IsEntry, IsDir;
    if FirstOf(t.dirs[x][i]) == inode {
      assert t1 == t;
      assert Points(t, x, i, inode);
    } else {
      HeadAdded(t, inode);
    }
    UpdatedOk(t1, x, i, inode, size);
  }

  lemma WriteOutside(
    g: Geometry, d: Disk, d2: Disk, t: Tree, chains: Chains, x: nat, i: nat, inode: nat, size: nat, s': seq<nat>)
    requires VolOk(g, d, t, chains) && g.Fits(d2) && |d2| == |d| && FileAt(t, x, i)
    requires inode < 0x1_0000_0000 && size < 0x1_0000_0000 && inode !in t.dirs
    requires FirstOf(Patched(t.dirs[x][i], inode, size)) == inode
    requires forall h :: h in chains && h != inode && h != x ==> Kept(g, d, d2, chains[h])
    requires x != 0 && !g.isFat32 ==> RootKept(g, d, d2)
    ensures StepOutside(g, d, d2, t, WrittenTree(t, x, i, inode, size), chains, chains[inode := s'], {x, inode})
  {
    hide Table, Kept, IsChain, DirBytes, SlotsOf, FilesOk, Mirrored, TreeOk, IsEntry, FirstOf, Patched, RootKept, IsDir;
  }

  /** What holds on disk after the data and the directory entry went out. */
  ghost predicate WroteEntry(
    g: Geometry, d: Disk, d1: Disk, d2: Disk, t: Tree, chains: Chains, x: nat, i: nat, s': seq<nat>, size: nat)
    requires VolOk(g, d, t, chains) && g.Fits(d1) && g.Fits(d2) && FileAt(t, x, i)
  {
    && size < 0x1_0000_0000
    && Extended(g, d, d1, ChainOf(chains, FirstOf(t.dirs[x][i])), s') && |s'| > 0
    && (FirstOf(t.dirs[x][i]) != 0 ==> s'[0] == FirstOf(t.dirs[x][i]))
    && FileChain(g, d1, s'[0], size, s')
    && OnlyDirChanged(g, d1, d2, x, ChainOf(chains, x))
    && SlotsOf(DirBytes(g, d2, x, ChainOf(chains, x))) == t.dirs[x][i := Patched(t.dirs[x][i], s'[0], size)]
  }

  lemma WriteChainsOk(
    g: Geometry, d: Disk, d1: Disk, d2: Disk, t: Tree, chains: Chains, x: nat, i: nat, s': seq<nat>, size: nat)
    requires VolOk(g, d, t, chains) && g.Fits(d1) && g.Fits(d2) && FileAt(t, x, i)
    requires WroteEntry(g, d, d1, d2, t, chains, x, i, s', size)
    ensures |d2| == |d| && Mirrored(g, d2) && ChainsOk(g, d2, chains[s'[0] := s'])
    ensures forall h :: h in chains && h != s'[0] && h != x ==> Kept(g, d, d2, chains[h])
    ensures Clusters(g, s') && Kept(g, d1, d2, s') && s'[0] !in t.dirs && 0 < s'[0] < 0x1_0000_0000
    ensures FirstOf(t.dirs[x][i]) == s'[0] || (FirstOf(t.dirs[x][i]) == 0 && s'[0] !in t.heads)
    ensures x != 0 && !g.isFat32 ==> RootKept(g, d, d2)
  {
    hide Table, Kept, IsChain, OnlyDirChanged, Apart, DirBytes, SlotsOf, Mirrored, FirstOf, DirOk, Points, RootKept,
      IsDir, SizeOf, Extended, Patched, IsEntry, FileChain;
    var first := FirstOf(t.dirs[x][i]);
    assert RefOk(t, t.dirs[x][i]);
    ExtendedGives(g, d, d1, ChainOf(chains, first), s');
    WriteChains(g, d, d1, chains, first, s');
    DirChangeTables(g, d1, d2, x, ChainOf(chains, x));
    DirChangeLength(g, d1, d2, x, ChainOf(chains, x));
    WriteChainsTwo(g, d, d1, d2, chains, x, first, s');
    if x != 0 && !g.isFat32 {
      ExtendedKeepsRoot(g, d, d1, ChainOf(chains, first), s');
      RootKeptTrans(g, d, d1, d2);
    }
  }

  /** Every other file entry is an old one and refers to another chain. */
  lemma OthersElsewhere(t: Tree, x: nat, i: nat, inode: nat, size: nat, y: nat, j: nat)
    requires FileAt(t, x, i) && TreeOk(WrittenTree(t, x, i, inode, size)) && inode != 0
    requires FileAt(WrittenTree(t, x, i, inode, size), x, i)
    requires FirstOf(WrittenTree(t, x, i, inode, size).dirs[x][i]) == inode
    requires FileAt(WrittenTree(t, x, i, inode, size), y, j) && !(y == x && j == i)
    ensures FileAt(t, y, j) && t.dirs[y][j] == WrittenTree(t, x, i, inode, size).dirs[y][j]
    ensures FirstOf(t.dirs[y][j]) !in {x, inode} - {0}
  {
    hide FirstOf, Patched, TreeOk, IsEntry, IsDir;
    var t' := WrittenTree(t, x, i, inode, size);
    assert t'.dirs[y][j] == t.dirs[y][j];
    if FirstOf(t.dirs[y][j]) in {x, inode} - {0} {
      WrittenPoints(t, t', x, i, inode, y, j);
    }
  }

  lemma WriteStep(
    g: Geometry, d: Disk, d1: Disk, d2: Disk, t: Tree, chains: Chains, x: nat, i: nat, s': seq<nat>, size: nat)
    requires VolOk(g, d, t, chains) && g.Fits(d1) && g.Fits(d2) && FileAt(t, x, i)
    requires WroteEntry(g, d, d1, d2, t, chains, x, i, s', size)
    ensures TreeOk(WrittenTree(t, x, i, s'[0], size))
    ensures StepOutside(g, d, d2, t, WrittenTree(t, x, i, s'[0], size), chains, chains[s'[0] := s'], {x, s'[0]})
    ensures forall y: nat, j: nat :: FileAt(WrittenTree(t, x, i, s'[0], size), y, j) && !(y == x && j == i) ==>
      FileAt(t, y, j) && t.dirs[y][j] == WrittenTree(t, x, i, s'[0], size).dirs[y][j]
      && FirstOf(t.dirs[y][j]) !in {x, s'[0]} - {0}
  {
    hide Table, Kept, IsChain, OnlyDirChanged, Apart, DirBytes, SlotsOf, Mirrored, FirstOf, DirOk, Points, StepOutside,
      RootKept, IsDir, SizeOf, Extended, Patched, IsEntry, FileChain, RefOk, FilesOk, DirsOk, ChainsOk, TreeOk;
    var inode := s'[0];
    WriteChainsOk(g, d, d1, d2, t, chains, x, i, s', size);
    WrittenTreeOk(t, x, i, inode, size);
    PatchedFields(t.dirs[x][i], inode, size);
    WriteOutside(g, d, d2, t, chains, x, i, inode, size, s');
    forall y: nat, j: nat | FileAt(WrittenTree(t, x, i, inode, size), y, j) && !(y == x && j == i)
      ensures FileAt(t, y, j) && t.dirs[y][j] == WrittenTree(t, x, i, inode, size).dirs[y][j]
      ensures FirstOf(t.dirs[y][j]) !in {x, inode} - {0}
    {
      OthersElsewhere(t, x, i, inode, size, y, j);
    }
  }

  lemma DirKind(g: Geometry, d: Disk, t: Tree, chains: Chains, x: nat)
    requires VolOk(g, d, t, chains) && x in t.dirs
    ensures if x == 0 then !g.isFat32 else x in chains
    ensures Clusters(g, ChainOf(chains, x)) && t.dirs[x] == SlotsOf(DirBytes(g, d, x, ChainOf(chains, x)))
  {
  }

  lemma WriteVolOk(
    g: Geometry, d: Disk, d1: Disk, d2: Disk, t: Tree, chains: Chains, x: nat, i: nat, s': seq<nat>, size: nat)
    requires VolOk(g, d, t, chains) && g.Fits(d1) && g.Fits(d2) && FileAt(t, x, i)
    requires WroteEntry(g, d, d1, d2, t, chains, x, i, s', size)
    ensures VolOk(g, d2, WrittenTree(t, x, i, s'[0], size), chains[s'[0] := s'])
  {
    hide Table, Kept, IsChain, OnlyDirChanged, Apart, DirBytes, SlotsOf, Mirrored, FirstOf, DirOk, Points, StepOutside,
      RootKept, IsDir, SizeOf, Extended, Patched, IsEntry, FileChain, RefOk, FilesOk, DirsOk, ChainsOk, TreeOk;
    var e, inode := t.dirs[x][i], s'[0];
    var t', chains' := WrittenTree(t, x, i, inode, size), chains[inode := s'];
    WriteChainsOk(g, d, d1, d2, t, chains, x, i, s', size);
    WriteStep(g, d, d1, d2, t, chains, x, i, s', size);
    DirKind(g, d, t, chains, x);
    PatchedFields(e, inode, size);
    KeptFile(g, d1, d2, inode, size, s');
    assert EntryChain(g, d2, t'.dirs[x][i], chains');
    Reassembled(g, d, d2, t, t', chains, chains', {x, inode});
  }

  lemma WriteOk(
    g: Geometry, d: Disk, d1: Disk, d2: Disk, t: Tree, chains: Chains, x: nat, i: nat, s': seq<nat>, size: nat)
    requires VolOk(g, d, t, chains) && g.Fits(d1) && g.Fits(d2) && FileAt(t, x, i)
    requires WroteEntry(g, d, d1, d2, t, chains, x, i, s', size)
    ensures VolOk(g, d2, WrittenTree(t, x, i, s'[0], size), chains[s'[0] := s'])
    ensures SameFiles(g, d, d2, t, WrittenTree(t, x, i, s'[0], size), chains, chains[s'[0] := s'], {(x, i)})
    ensures Clusters(g, s') && size <= Times(|s'|, g.BytesPerCluster())
    ensures EntryChain(g, d2, Patched(t.dirs[x][i], s'[0], size), chains[s'[0] := s'])
    ensures BytesOf(g, d2, Patched(t.dirs[x][i], s'[0], size), chains[s'[0] := s']) == FileBytes(g, d1, size, s')
  {
    hide Table, Kept, IsChain, OnlyDirChanged, Apart, DirBytes, SlotsOf, Mirrored, FirstOf, DirOk, Points, StepOutside,
      RootKept, IsDir, SizeOf, Extended, Patched, IsEntry, FileChain, RefOk, TreeOk, FilesOk, DirsOk, ChainsOk,
      SameFiles;
    var inode := s'[0];
    WriteVolOk(g, d, d1, d2, t, chains, x, i, s', size);
    WriteStep(g, d, d1, d2, t, chains, x, i, s', size);
    FilesKept(g, d, d2, t, WrittenTree(t, x, i, inode, size), chains, chains[inode := s'], {x, inode}, {(x, i)});
    WriteChainsOk(g, d, d1, d2, t, chains, x, i, s', size);
    PatchedFields(t.dirs[x][i], inode, size);
    KeptFile(g, d1, d2, inode, size, s');
  }

  /** Only the written entry refers to the written chain. */
  lemma WrittenPoints(t: Tree, t': Tree, x: nat, i: nat, inode: nat, y: nat, j: nat)
    requires TreeOk(t') && FileAt(t', x, i) && FirstOf(t'.dirs[x][i]) == inode != 0
    requires FileAt(t', y, j) && FirstOf(t'.dirs[y][j]) in {x, inode} && FirstOf(t'.dirs[y][j]) != 0
    ensures y == x && j == i
  {
    assert RefOk(t', t'.dirs[y][j]);
    assert Points(t', x, i, inode);
    assert FirstOf(t'.dirs[y][j]) == inode ==> Points(t', y, j, inode);
  }

  lemma WriteChainsTwo(g: Geometry, d: Disk, d1: Disk, d2: Disk, chains: Chains, x: nat, first: nat, s': seq<nat>)
    requires g.Valid() && g.Fits(d) && g.Fits(d1) && g.Fits(d2) && ChainsOk(g, d, chains) && |s'| > 0
    requires ChainsOk(g, d1, chains[s'[0] := s'])
    requires forall h :: h in chains && h != first ==> Kept(g, d, d1, chains[h])
    requires OnlyDirChanged(g, d1, d2, x, ChainOf(chains, x)) && x != s'[0]
    requires if x == 0 then !g.isFat32 else x in chains
    requires first != 0 ==> s'[0] == first
    requires 0 !in chains
    ensures forall h :: h in chains && h != s'[0] && h != x ==> Kept(g, d, d2, chains[h])
    ensures Clusters(g, s') && Kept(g, d1, d2, s')
    ensures ChainsOk(g, d2, chains[s'[0] := s'])
  {
    hide Table, Kept, IsChain, OnlyDirChanged, Apart;
    var c1 := chains[s'[0] := s'];
    DirChangeTables(g, d1, d2, x, ChainOf(chains, x));
    forall h | h in c1 && h != x ensures Kept(g, d1, d2, c1[h]) {
      assert ChainOf(c1, x) == ChainOf(chains, x);
      ApartFrom(c1, x, h);
      DirChangeKeeps(g, d1, d2, x, ChainOf(chains, x), c1[h]);
    }
    forall h | h in chains && h != s'[0] && h != x ensures Kept(g, d, d2, chains[h]) {
      assert c1[h] == chains[h] && h in c1;
      KeptTrans(g, d, d1, d2, chains[h]);
    }
    assert c1[s'[0]] == s';
  }
}
