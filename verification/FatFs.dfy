/**
 The whole volume: a tree of directories and files over disjoint cluster
 chains, and the driver's create, write and unlink as steps that keep it so.
 */
module FatFs {
  import opened Octets
  import opened Arith
  import opened FatLayout
  import opened FatTable
  import opened FatVolume
  import opened FatFile
  import opened FatIo
  import opened FatSlots
  import opened FatDir

  type Chains = map<nat, seq<nat>>

  /** The chain headed by x; a file without clusters and the fixed root have none. */
  function ChainOf(chains: Chains, x: nat): (s: seq<nat>) {
    if x in chains then chains[x] else []
  }

  ghost predicate Apart(a: seq<nat>, b: seq<nat>) {
    forall i, j :: 0 <= i < |a| && 0 <= j < |b| ==> a[i] != b[j]
  }

  /** Every live chain is terminated and allocated, and no two share a cluster. */
  ghost predicate ChainsOk(g: Geometry, d: Disk, chains: Chains)
    requires g.Valid() && g.Fits(d)
  {
    && (forall h :: h in chains ==> IsChain(Table(g, d, 0), chains[h]) && chains[h][0] == h && Clusters(g, chains[h]))
    && (forall h, k :: h in chains && k in chains && h != k ==> Apart(chains[h], chains[k]))
  }

  /** The tree is what the directory sectors say. */
  ghost predicate DirsOk(g: Geometry, d: Disk, t: Tree, chains: Chains)
    requires g.Valid() && g.Fits(d) && ChainsOk(g, d, chains)
  {
    forall x :: x in t.dirs ==>
      && (x == 0 ==> !g.isFat32)
      && t.dirs[x] == SlotsOf(DirBytes(g, d, x, ChainOf(chains, x)))
  }

  predicate IsFile(e: Slot) { IsEntry(e) && !IsDir(e) }

  /** Slot i of directory x names a file. */
  ghost predicate FileAt(t: Tree, x: nat, i: nat) {
    x in t.dirs && i < |t.dirs[x]| && IsFile(t.dirs[x][i])
  }

  /** The chain of a file covers its size and is zero beyond it. */
  ghost predicate EntryChain(g: Geometry, d: Disk, e: Slot, chains: Chains)
    requires g.Valid() && g.Fits(d)
  {
    FileChain(g, d, FirstOf(e), SizeOf(e), ChainOf(chains, FirstOf(e)))
  }

  ghost predicate FilesOk(g: Geometry, d: Disk, t: Tree, chains: Chains)
    requires g.Valid() && g.Fits(d)
  {
    forall x: nat, i: nat :: FileAt(t, x, i) ==> EntryChain(g, d, t.dirs[x][i], chains)
  }

  ghost predicate VolOk(g: Geometry, d: Disk, t: Tree, chains: Chains) {
    && g.Valid() && g.Fits(d) && Mirrored(g, d)
    && TreeOk(t) && t.root == g.rootCluster && t.heads == chains.Keys
    && ChainsOk(g, d, chains) && DirsOk(g, d, t, chains) && FilesOk(g, d, t, chains)
  }

  /** The bytes of the file an entry names. */
  ghost function BytesOf(g: Geometry, d: Disk, e: Slot, chains: Chains): (b: seq<byte>)
    requires g.Valid() && g.Fits(d) && EntryChain(g, d, e, chains)
  {
    FileChainClusters(g, d, FirstOf(e), SizeOf(e), ChainOf(chains, FirstOf(e)));
    FileBytes(g, d, SizeOf(e), ChainOf(chains, FirstOf(e)))
  }

  // ----- chains that a step leaves alone -----

  /** The entries and the sectors of chain s are the same on d and d'. */
  ghost predicate Kept(g: Geometry, d: Disk, d': Disk, s: seq<nat>)
    requires g.Valid() && g.Fits(d) && g.Fits(d') && Clusters(g, s)
  {
    && |d'| == |d|
    && (forall i :: 0 <= i < |s| ==> Table(g, d', 0)[s[i]] == Table(g, d, 0)[s[i]])
    && (forall i :: 0 <= i < |s| ==> SameCluster(g, d, d', s[i]))
  }

  ghost predicate RootKept(g: Geometry, d: Disk, d': Disk) {
    |d'| == |d| && forall l :: 0 <= l < |d| && g.rootDirLba <= l < g.rootDirLba + g.rootDirSectors ==> d'[l] == d[l]
  }

  lemma KeptChain(g: Geometry, d: Disk, d': Disk, s: seq<nat>)
    requires g.Valid() && g.Fits(d) && g.Fits(d') && Clusters(g, s) && Kept(g, d, d', s)
    ensures Contents(g, d', s) == Contents(g, d, s)
    ensures |s| > 0 && IsChain(Table(g, d, 0), s) ==> IsChain(Table(g, d', 0), s)
  {
    hide Table, Contents, SameCluster, Next;
    SameContents(g, d, d', s);
    if |s| > 0 && IsChain(Table(g, d, 0), s) {
      ChainFrame(Table(g, d, 0), Table(g, d', 0), s);
    }
  }

  lemma KeptFile(g: Geometry, d: Disk, d': Disk, first: nat, size: nat, s: seq<nat>)
    requires g.Valid() && g.Fits(d) && g.Fits(d') && FileChain(g, d, first, size, s)
    requires Clusters(g, s) && Kept(g, d, d', s)
    ensures FileChain(g, d', first, size, s) && size <= Times(|s|, g.BytesPerCluster())
    ensures FileBytes(g, d', size, s) == FileBytes(g, d, size, s)
  {
    hide Table, Contents, IsChain;
    KeptChain(g, d, d', s);
  }

  lemma KeptDir(g: Geometry, d: Disk, d': Disk, x: nat, s: seq<nat>)
    requires g.Valid() && g.Fits(d) && g.Fits(d') && Clusters(g, s) && (x == 0 ==> !g.isFat32)
    requires if x == 0 then RootKept(g, d, d') else Kept(g, d, d', s)
    ensures DirBytes(g, d', x, s) == DirBytes(g, d, x, s)
  {
    if x != 0 {
      hide Table, Contents, IsChain;
      KeptChain(g, d, d', s);
    } else {
      var a, b := DirBytes(g, d, x, s), DirBytes(g, d', x, s);
      forall k | 0 <= k < |a| ensures b[k] == a[k] {
      }
    }
  }

  lemma KeptTrans(g: Geometry, d: Disk, d': Disk, d'': Disk, s: seq<nat>)
    requires g.Valid() && g.Fits(d) && g.Fits(d') && g.Fits(d'') && Clusters(g, s)
    requires Kept(g, d, d', s) && Kept(g, d', d'', s)
    ensures Kept(g, d, d'', s)
  {
    hide Table, InCluster;
  }

  /** Growing one chain leaves every chain apart from it alone. */
  lemma ExtendedKeeps(g: Geometry, d: Disk, d': Disk, s: seq<nat>, s': seq<nat>, k: seq<nat>)
    requires g.Valid() && g.Fits(d) && g.Fits(d') && Extended(g, d, d', s, s')
    requires Clusters(g, k) && Apart(s, k) && IsChain(Table(g, d, 0), k)
    ensures Kept(g, d, d', k) && Apart(s', k)
  {
    hide Table, InCluster, Next;
    assert Apart(s', k) by {
      forall i, j | 0 <= i < |s'| && 0 <= j < |k| ensures s'[i] != k[j] {
        assert Table(g, d, 0)[k[j]] != 0;
      }
    }
    forall j | 0 <= j < |k| ensures SameCluster(g, d, d', k[j]) {
      NotInChain(g, d, d', s', k[j]);
    }
  }

  lemma NotInChain(g: Geometry, d: Disk, d': Disk, s: seq<nat>, c: nat)
    requires g.Valid() && g.InRange(c) && c !in s && Clusters(g, s) && |d'| == |d|
    requires forall l :: 0 <= l < |d| && !g.InFat(l) && !InChain(g, l, s) ==> d'[l] == d[l]
    ensures SameCluster(g, d, d', c)
  {
    forall l | 0 <= l < |d| && InCluster(g, l, c) ensures d'[l] == d[l] {
      if g.InFat(l) {
        FatIsNotData(g, l, c);
      }
      if InChain(g, l, s) {
        var i :| 0 <= i < |s| && InCluster(g, l, s[i]);
        ClustersDisjoint(g, l, c, s[i]);
      }
    }
  }

  lemma ExtendedKeepsRoot(g: Geometry, d: Disk, d': Disk, s: seq<nat>, s': seq<nat>)
    requires g.Valid() && g.Fits(d) && g.Fits(d') && Extended(g, d, d', s, s') && !g.isFat32
    ensures RootKept(g, d, d')
  {
    hide Table, Next;
    forall l | 0 <= l < |d| && g.rootDirLba <= l < g.rootDirLba + g.rootDirSectors ensures d'[l] == d[l] {
    }
  }

  /** Patching directory x leaves every other chain, and the tables, alone. */
  lemma DirChangeKeeps(g: Geometry, d: Disk, d': Disk, x: nat, s: seq<nat>, k: seq<nat>)
    requires g.Valid() && g.Fits(d) && g.Fits(d') && OnlyDirChanged(g, d, d', x, s)
    requires Clusters(g, s) && Clusters(g, k) && (x == 0 ==> !g.isFat32) && (x != 0 ==> Apart(s, k))
    ensures Kept(g, d, d', k)
  {
    DirChangeTables(g, d, d', x, s);
    hide Table, Next;
    forall j | 0 <= j < |k| ensures SameCluster(g, d, d', k[j]) {
      forall l | 0 <= l < |d| && InCluster(g, l, k[j]) ensures d'[l] == d[l] {
        ClusterPlace(g, k[j]);
        if x != 0 && InChain(g, l, s) {
          var i :| 0 <= i < |s| && InCluster(g, l, s[i]);
          ClustersDisjoint(g, l, k[j], s[i]);
        }
      }
    }
  }

  lemma DirChangeTables(g: Geometry, d: Disk, d': Disk, x: nat, s: seq<nat>)
    requires g.Valid() && g.Fits(d) && g.Fits(d') && OnlyDirChanged(g, d, d', x, s)
    requires Clusters(g, s) && (x == 0 ==> !g.isFat32)
    ensures forall f :: 0 <= f < g.numFats ==> Table(g, d', f) == Table(g, d, f)
    ensures Mirrored(g, d) ==> Mirrored(g, d')
    ensures x != 0 && !g.isFat32 ==> RootKept(g, d, d')
  {
    hide Table;
    forall l | 0 <= l < |d| && d'[l] != d[l] ensures !g.InFat(l) && (x != 0 ==> l >= g.dataStart) {
      if x != 0 {
        var i :| 0 <= i < |s| && InCluster(g, l, s[i]);
        ClusterPlace(g, s[i]);
      }
    }
    FatOnly(g, d, d');
  }

  // ----- putting the volume back together -----

  /** What a step changed: the directories and chains in `at`. Everything else
      in the new tree and chains is old and was left alone on disk. */
  ghost predicate StepOutside(
    g: Geometry, d: Disk, d': Disk, t: Tree, t': Tree, chains: Chains, chains': Chains, at: set<nat>)
    requires VolOk(g, d, t, chains) && g.Fits(d')
  {
    && |d'| == |d|
    && (forall h :: h in chains' && h !in at ==>
          h in chains && chains'[h] == chains[h] && Kept(g, d, d', chains[h]))
    && (0 in t'.dirs && 0 !in at ==> RootKept(g, d, d'))
    && (forall x :: x in t'.dirs && x !in at ==> x in t.dirs && t'.dirs[x] == t.dirs[x])
    && (forall x: nat, i: nat :: FileAt(t', x, i) && FirstOf(t'.dirs[x][i]) != 0 && FirstOf(t'.dirs[x][i]) !in at ==>
          x in t.dirs && i < |t.dirs[x]| && t'.dirs[x][i] == t.dirs[x][i])
  }

  /** Checking the touched directories and files is enough. */
  lemma Reassembled(
    g: Geometry, d: Disk, d': Disk, t: Tree, t': Tree, chains: Chains, chains': Chains, at: set<nat>)
    requires VolOk(g, d, t, chains) && g.Fits(d') && Mirrored(g, d')
    requires TreeOk(t') && t'.root == t.root && t'.heads == chains'.Keys
    requires StepOutside(g, d, d', t, t', chains, chains', at)
    requires ChainsOk(g, d', chains')
    requires forall x :: x in t'.dirs && x in at ==>
      && (x == 0 ==> !g.isFat32)
      && t'.dirs[x] == SlotsOf(DirBytes(g, d', x, ChainOf(chains', x)))
    requires forall x: nat, i: nat ::
      FileAt(t', x, i) && FirstOf(t'.dirs[x][i]) in at && FirstOf(t'.dirs[x][i]) != 0 ==>
      EntryChain(g, d', t'.dirs[x][i], chains')
    ensures VolOk(g, d', t', chains')
  {
    hide Mirrored, IsChain, Table, DirBytes, SlotsOf, IsEntry, FirstOf, SizeOf, DirOk, IsDir, EntryChain, Kept;
    forall x | x in t'.dirs
      ensures (x == 0 ==> !g.isFat32) && t'.dirs[x] == SlotsOf(DirBytes(g, d', x, ChainOf(chains', x)))
    {
      if x !in at {
        OldDirKept(g, d, d', t, t', chains, chains', at, x);
      }
    }
    forall x: nat, i: nat | FileAt(t', x, i) ensures EntryChain(g, d', t'.dirs[x][i], chains') {
      OldFileKept(g, d, d', t, t', chains, chains', at, x, i);
    }
  }

  lemma OldDirKept(
    g: Geometry, d: Disk, d': Disk, t: Tree, t': Tree, chains: Chains, chains': Chains, at: set<nat>, x: nat)
    requires VolOk(g, d, t, chains) && g.Fits(d') && TreeOk(t') && t'.heads == chains'.Keys
    requires StepOutside(g, d, d', t, t', chains, chains', at)
    requires x in t'.dirs && x !in at
    ensures Clusters(g, ChainOf(chains', x)) && (x == 0 ==> !g.isFat32)
    ensures t'.dirs[x] == SlotsOf(DirBytes(g, d', x, ChainOf(chains', x)))
  {
    hide Mirrored, IsChain, Table, SlotsOf, IsEntry, FirstOf, SizeOf, DirOk, IsDir, FileChain, Kept, FilesOk,
      RegionBytes, Contents;
    KeptDir(g, d, d', x, ChainOf(chains, x));
  }

  lemma OldFileKept(
    g: Geometry, d: Disk, d': Disk, t: Tree, t': Tree, chains: Chains, chains': Chains, at: set<nat>, x: nat, i: nat)
    requires VolOk(g, d, t, chains) && g.Fits(d') && TreeOk(t') && t'.heads == chains'.Keys
    requires StepOutside(g, d, d', t, t', chains, chains', at)
    requires FileAt(t', x, i)
    ensures FirstOf(t'.dirs[x][i]) == 0 || FirstOf(t'.dirs[x][i]) !in at ==> EntryChain(g, d', t'.dirs[x][i], chains')
    ensures FirstOf(t'.dirs[x][i]) != 0 && FirstOf(t'.dirs[x][i]) !in at ==>
      BytesOf(g, d', t'.dirs[x][i], chains') == BytesOf(g, d, t'.dirs[x][i], chains)
  {
    hide Mirrored, IsChain, Table, SlotsOf, IsEntry, FirstOf, SizeOf, DirOk, IsDir, Kept, DirBytes, Contents;
    var e := t'.dirs[x][i];
    var f := FirstOf(e);
    assert RefOk(t', e);
    if f != 0 && f !in at {
      assert FileAt(t, x, i) && EntryChain(g, d, e, chains);
      assert f in chains' && f in chains;
      KeptFile(g, d, d', f, SizeOf(e), chains[f]);
    }
  }
}
