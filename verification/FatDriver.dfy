/**
 The driver's operations on a mounted volume, as methods over the disk. Every
 run of them keeps the volume well formed.
 */
module FatDriver {
  import opened Octets
  import opened Arith
  import opened FatLayout
  import opened FatTable
  import opened FatVolume
  import opened FatFile
  import opened FatIo
  import opened FatSlots
  import opened FatDir
  import opened FatFs
  import opened FatOps
  import opened FatCreate
  import opened FatStore
  import opened Seqs

  class FileSystem {
    const vol: Volume
    ghost var tree: Tree
    ghost var chains: Chains

    constructor (vol: Volume, ghost tree: Tree, ghost chains: Chains)
      requires VolOk(vol.g, vol.disk, tree, chains)
      ensures this.vol == vol && this.tree == tree && this.chains == chains && Ok()
    {
      this.vol := vol;
      this.tree := tree;
      this.chains := chains;
    }

    ghost predicate Ok()
      reads this, vol
    {
      VolOk(vol.g, vol.disk, tree, chains)
    }

    /** What the volume holds, by directory and name. */
    ghost function View(): (s: Store)
      requires Ok()
      reads this, vol
    {
      StoreOf(vol.g, vol.disk, tree, chains)
    }

    ghost function Now(): (m: Moment)
      requires Ok()
      reads this, vol
    {
      VolParts(vol.g, vol.disk, tree, chains);
      Moment(View(), Full(vol.g, vol.disk), 0 in tree.dirs && NoRoom(tree.dirs[0]))
    }

    /** The part of a well-formed volume that the walks over directory x need. */
    lemma DirReady(x: nat)
      requires Ok() && x in tree.dirs
      ensures vol.Ready() && Mirrored(vol.g, vol.disk)
      ensures Clusters(vol.g, ChainOf(chains, x)) && Distinct(ChainOf(chains, x))
      ensures if x == 0 then !vol.g.isFat32 else IsChain(vol.T(), ChainOf(chains, x)) && ChainOf(chains, x)[0] == x
      ensures tree.dirs[x] == SlotsOf(DirBytes(vol.g, vol.disk, x, ChainOf(chains, x))) && DirOk(tree.dirs[x])
    {
      hide Table, Contents, Next, DirBytes, SlotsOf, FilesOk, RefOk, Points, DirOk, IsEntry;
      if x in chains {
        ChainDistinct(vol.T(), chains[x]);
      }
    }

    /** Walk a directory of the tree. */
    method Walk(x: nat, cb: Callback, target: Name) returns (rc: int, lba: nat, off: nat, ghost i: nat)
      requires Ok() && x in tree.dirs
      ensures i == StopAt(cb, target, tree.dirs[x])
      ensures rc != 0 <==> i < |tree.dirs[x]|
      ensures rc != 0 ==>
        rc == Verdict(cb, target, tree.dirs[x][i]) && SlotAt(vol.g, x, ChainOf(chains, x), i, lba, off)
      ensures rc != 0 ==> lba < |vol.disk| && off + 32 <= 512 && vol.disk[lba][off..off + 32] == tree.dirs[x][i]
    {
      hide Table, Contents, Next, DirBytes, SlotsOf, StopAt, Verdict, SlotAt, VolOk;
      DirReady(x);
      rc, lba, off := WalkDir(vol, x, cb, target, ChainOf(chains, x));
      i := StopAt(cb, target, tree.dirs[x]);
      if rc != 0 {
        SlotRead(vol.g, vol.disk, x, ChainOf(chains, x), i, lba, off);
      }
    }

    /** Removes the entry of a name and frees its chain, or reports that no
        slot in use has the name. No other file is affected. */
    method Unlink(x: nat, target: Name) returns (r: int)
      requires Ok() && x in tree.dirs && ProperName(target)
      modifies this, vol
      ensures Ok() && (r == 0 || r == -1)
      ensures r == -1 ==> vol.disk == old(vol.disk) && tree == old(tree) && chains == old(chains)
      ensures r == -1 ==> forall i: nat :: !Named(old(tree).dirs[x], target, i)
      ensures r == 0 ==> exists i: nat ::
        && Named(old(tree).dirs[x], target, i) && tree == Removed(old(tree), x, i)
        && Released(old(vol.T()), vol.T(), ChainOf(old(chains), FirstOf(old(tree).dirs[x][i])))
      ensures SameFiles(vol.g, old(vol.disk), vol.disk, old(tree), tree, old(chains), chains, {})
      ensures LabelsKept(old(tree), tree) && View() == Without(old(View()), (x, target))
    {
      hide Table, Contents, Next, DirBytes, SlotsOf, StopAt, Verdict, SlotAt, VolOk, SameFiles, LabelsKept, Freed,
        OnlyDirChanged, DirOk, StoreOf, Without;
      ghost var d, t, ch := vol.disk, tree, chains;
      DirReady(x);
      MatchFinds(tree.dirs[x], target);
      Unchanged(vol.g, vol.disk, tree, chains);
      SameLabels(t);
      var rc, lba, off;
      ghost var i;
      rc, lba, off, i := Walk(x, Match, target);
      if rc != 1 {
        MatchVerdict(tree.dirs[x], target, i);
        NotNamed(vol.g, d, t, ch, (x, target));
        NothingRemoved(View(), (x, target));
        return -1;
      }
      var e: Slot := vol.disk[lba][off..off + 32];
      var first := FirstOf(e);
      RefersTo(vol.g, vol.disk, tree, chains, x, i, target);
      ghost var t0 := vol.T();
      if first >= 2 {
        vol.FreeChain(first);
      }
      ChainFreed(vol.g, d, vol.disk, tree, chains, first, t0);
      ghost var d1 := vol.disk;
      FreedDir(vol.g, d, d1, x, first, tree, chains);
      PutSlotBytes(vol, x, lba, off, 0, [0xE5], ChainOf(chains, x), i);
      ReleasedTable(vol.g, d, d1, vol.disk, x, ChainOf(chains, x), ChainOf(chains, first));
      DeletedBytes(e);
      UnlinkOk(vol.g, d, d1, vol.disk, tree, chains, x, i);
      tree, chains := Removed(t, x, i), ch - {first};
      RemovedLabels(t, x, i);
      RemovedStore(vol.g, d, vol.disk, t, ch, chains, x, i, target);
      r := 0;
    }

    /** Find the entry of a name and open it. */
    method FindDir(x: nat, target: Name) returns (found: bool, node: FileNode?, ghost i: nat)
      requires Ok() && x in tree.dirs && ProperName(target)
      ensures !found ==> forall j: nat :: Named(tree.dirs[x], target, j) ==> IsLabel(tree.dirs[x][j])
      ensures found ==> Named(tree.dirs[x], target, i) && IsEntry(tree.dirs[x][i])
      ensures found ==>
        && node != null && fresh(node)
        && node.isFile == !IsDir(tree.dirs[x][i])
        && node.inode == FirstOf(tree.dirs[x][i]) && node.size == SizeOf(tree.dirs[x][i])
    {
      hide Table, Contents, Next, DirBytes, SlotsOf, StopAt, Verdict, SlotAt, VolOk, DirOk;
      node := null;
      DirReady(x);
      LookupFinds(tree.dirs[x], target);
      var rc, lba, off;
      rc, lba, off, i := Walk(x, Lookup, target);
      if rc != 1 {
        LookupVerdict(tree.dirs[x], target, i);
        return false, node, i;
      }
      var e: Slot := vol.disk[lba][off..off + 32];
      node := new FileNode(!IsDir(e), FirstOf(e), SizeOf(e));
      found := true;
    }

    /** Writes a file by name. The file becomes its old bytes with a stretch at the
        32-bit position of the offset replaced; no other file changes; a failed write
        changes none. The stretch is the one asked for if and only if it ends below
        2^32. */
    method WriteFile(x: nat, target: Name, data: seq<byte>, offset: Word) returns (r: int)
      requires Ok() && x in tree.dirs && ProperName(target) && InReach(vol.g, data, offset)
      modifies this, vol
      ensures Ok() && -1 <= r <= |data|
      ensures r < 0 ==> tree == old(tree) && View() == old(View())
      ensures r < 0 ==> SameFiles(vol.g, old(vol.disk), vol.disk, old(tree), tree, old(chains), chains, {})
      ensures r >= 0 ==>
        && (x, target) in old(View()).files
        && View() == Rewritten(old(View()), (x, target), data[..r], Low32(offset))
        && (View() == Rewritten(old(View()), (x, target), data[..r], offset) <==> offset + r < W32)
      ensures r >= 0 ==> exists i: nat ::
        && Named(old(tree).dirs[x], target, i) && FileAt(old(tree), x, i)
        && x in tree.dirs && Named(tree.dirs[x], target, i) && FileAt(tree, x, i)
        && BytesOf(vol.g, vol.disk, tree.dirs[x][i], chains)
           == Spliced(BytesOf(vol.g, old(vol.disk), old(tree).dirs[x][i], old(chains)), Low32(offset), data[..r])
        && SameFiles(vol.g, old(vol.disk), vol.disk, old(tree), tree, old(chains), chains, {(x, i)})
        && SameEntries(old(tree), tree, x, i)
      ensures 0 <= r < |data| ==> Full(vol.g, vol.disk)
      ensures r < 0 && (exists i: nat :: Named(old(tree).dirs[x], target, i) && FileAt(old(tree), x, i)) ==>
        Full(vol.g, vol.disk)
      ensures LabelsKept(old(tree), tree)
    {
      hide LabelsKept, Table, Contents, Next, DirBytes, SlotsOf, VolOk, DirOk, FirstOf, SizeOf, IsDir, IsLabel,
        Extended, FileChain, SameFiles, EntryChain, BytesOf, Full, Spliced, FileBytes, Patched, WrittenTree,
        OnlyDirChanged, IsChain, IsLive, NameOf, StoreOf, SameEntries, IsFileNamed, Low32, InReach;
      ghost var d, t, ch := vol.disk, tree, chains;
      Unchanged(vol.g, d, t, ch);
      SameLabels(t);
      DirReady(x);
      var found, node;
      ghost var i;
      found, node, i := FindDir(x, target);
      if !found {
        NoFileNamed(t, x, target);
        return -1;
      }
      NamedOnce(t.dirs[x], target, i);
      if !node.isFile {
        return -1;
      }
      ghost var e := t.dirs[x][i];
      FileReady(vol.g, d, t, ch, x, i);
      ghost var s';
      r, s' := WriteNode(vol, node, data, offset, e, ch);
      if r < 0 {
        if FirstOf(e) == 0 {
          EmptyChain(vol.g, d, t, ch);
          LeakedVol(vol.g, d, vol.disk, t, ch, s');
          SameStore(vol.g, d, vol.disk, t, ch, ch);
        } else {
          NodeChain(vol.g, vol.disk, node.inode, node.size, s');
          FailedWriteOk(vol.g, d, vol.disk, t, ch, x, i, s');
          chains := ch[s'[0] := s'];
          SameStore(vol.g, d, vol.disk, t, ch, chains);
        }
        return;
      }
      ghost var d1 := vol.disk;
      NodeChain(vol.g, vol.disk, node.inode, node.size, s');
      DirAfterWrite(vol.g, d, d1, t, ch, x, i, s');
      FlushDirent(vol, x, target, node.size, node.inode, ChainOf(ch, x), t.dirs[x], i);
      WriteOk(vol.g, d, d1, vol.disk, t, ch, x, i, s', node.size);
      FullKept(vol.g, d1, vol.disk, x, ChainOf(ch, x));
      WrittenName(t, x, i, s'[0], node.size, target);
      WrittenLabels(t, x, i, s'[0], node.size);
      tree, chains := WrittenTree(t, x, i, s'[0], node.size), ch[s'[0] := s'];
      WrittenEntries(t, x, i, s'[0], node.size);
      FileIsNamed(t, x, i, target);
      FileIsNamed(tree, x, i, target);
      WrittenStore(vol.g, d, vol.disk, t, tree, ch, chains, x, i, target);
      FileShort(vol.g, d, t, ch, (x, target));
      RewrittenAt(StoreOf(vol.g, d, t, ch), (x, target), data[..r], offset);
    }

    /** Put an entry into the first free slot of a directory, growing a chained
        directory by a cluster when it has none. */
    method AddEntry(x: nat, e: Slot) returns (ok: bool, ghost i: nat)
      requires Ok() && x in tree.dirs && IsEntry(e) && RefOk(tree, e) && (IsFile(e) ==> FirstOf(e) == 0)
      requires forall j: nat :: !Named(tree.dirs[x], NameOf(e), j)
      requires forall y: nat, j: nat :: !Points(tree, y, j, FirstOf(e))
      modifies this, vol
      ensures Ok()
      ensures !ok ==> vol.disk == old(vol.disk) && tree == old(tree) && chains == old(chains)
      ensures !ok ==> NoRoom(tree.dirs[x]) && (x == 0 || Full(vol.g, vol.disk))
      ensures ok ==> OneAdded(old(tree), tree, x, i, e)
      ensures ok ==> SameFiles(vol.g, old(vol.disk), vol.disk, old(tree), tree, old(chains), chains, {(x, i)})
    {
      hide Table, Contents, Next, DirBytes, SlotsOf, StopAt, Verdict, SlotAt, VolOk, SameFiles, OnlyDirChanged, DirOk,
        FirstOf, IsEntry, RefOk, Points, IsDir, NameOf, IsLive, Named, TreeOk, Full, NoRoom;
      AllTaken(NameOf(e), tree.dirs[x]);
      DirReady(x);
      TreeFacts(vol.g, vol.disk, tree, chains);
      var rc, lba, off;
      rc, lba, off, i := Walk(x, FindFree, NameOf(e));
      if rc != 0 {
        FillAt(x, lba, off, e, i);
        return true, i;
      }
      if !vol.g.isFat32 && x == 0 {
        return false, i;
      }
      ok, i := AddInNewCluster(x, e);
    }

    /** Write an entry over the free slot found by a walk. */
    method FillAt(x: nat, lba: nat, off: nat, e: Slot, ghost i: nat)
      requires Ok() && x in tree.dirs && i < |tree.dirs[x]| && i == StopAt(FindFree, NameOf(e), tree.dirs[x])
      requires SlotAt(vol.g, x, ChainOf(chains, x), i, lba, off)
      requires IsEntry(e) && RefOk(tree, e) && (IsFile(e) ==> FirstOf(e) == 0)
      requires forall j: nat :: !Named(tree.dirs[x], NameOf(e), j)
      requires forall y: nat, j: nat :: !Points(tree, y, j, FirstOf(e))
      modifies this, vol
      ensures Ok() && chains == old(chains) && tree == Placed(old(tree), x, i, e)
      ensures OneAdded(old(tree), tree, x, i, e)
      ensures SameFiles(vol.g, old(vol.disk), vol.disk, old(tree), tree, old(chains), chains, {(x, i)})
    {
      hide Table, Contents, Next, DirBytes, SlotsOf, StopAt, SlotAt, VolOk, SameFiles, OnlyDirChanged, DirOk, FirstOf,
        IsEntry, RefOk, Points, IsDir, NameOf, IsLive, Named, TreeOk;
      ghost var d, t := vol.disk, tree;
      DirReady(x);
      TreeFacts(vol.g, vol.disk, tree, chains);
      PlaceReady(t, x, i, e);
      WholeSlot(t.dirs[x][i], e);
      PutSlotBytes(vol, x, lba, off, 0, e, ChainOf(chains, x), i);
      FilledVol(vol.g, d, vol.disk, t, chains, x, i, e);
      tree := Placed(t, x, i, e);
    }

    method AddInNewCluster(x: nat, e: Slot) returns (ok: bool, ghost i: nat)
      requires Ok() && x in tree.dirs && x != 0 && StopAt(FindFree, NameOf(e), tree.dirs[x]) == |tree.dirs[x]|
      requires IsEntry(e) && RefOk(tree, e) && (IsFile(e) ==> FirstOf(e) == 0)
      requires forall j: nat :: !Named(tree.dirs[x], NameOf(e), j)
      requires forall y: nat, j: nat :: !Points(tree, y, j, FirstOf(e))
      modifies this, vol
      ensures Ok()
      ensures !ok ==> vol.disk == old(vol.disk) && tree == old(tree) && chains == old(chains) && Full(vol.g, vol.disk)
      ensures ok ==> OneAdded(old(tree), tree, x, i, e)
      ensures ok ==> SameFiles(vol.g, old(vol.disk), vol.disk, old(tree), tree, old(chains), chains, {(x, i)})
    {
      hide Table, Contents, Next, DirBytes, SlotsOf, StopAt, SlotAt, VolOk, SameFiles, DirOk, FirstOf, IsEntry, RefOk,
        Points, IsDir, NameOf, IsLive, Named, TreeOk, Extended, Full, IsChain, IsEnd, IsLongName;
      ghost var d, t, ch := vol.disk, tree, chains;
      ghost var s := ChainOf(chains, x);
      DirReady(x);
      TreeFacts(vol.g, d, t, ch);
      DirKind(vol.g, d, t, ch, x);
      assert DirBytes(vol.g, d, x, s) == Contents(vol.g, d, s) by { ChainedDir(vol.g, d, x, s); }
      i := |t.dirs[x]|;
      ChainClusters(vol.g, vol.T(), s);
      var last := LastCluster(vol, x, s);
      var nc;
      ghost var s';
      nc, s' := NextOrGrow(vol, last, s, |s| - 1);
      if nc == 0 {
        return false, i;
      }
      ghost var d1, zeros := vol.disk, SlotsOf(Zeros(vol.g.BytesPerCluster()));
      ExtendedGives(vol.g, d, d1, s, s');
      GrowDirVol(vol.g, d, d1, t, ch, x, s');
      ZeroSlots(Zeros(vol.g.BytesPerCluster()));
      GrownStop(t, x, zeros, NameOf(e));
      GrownRefs(t, x, zeros, e);
      tree, chains := GrownTree(t, x, zeros), ch[x := s'];
      NewSlotPlace(vol.g, d, x, s, s', nc, i);
      FillAt(x, vol.g.ClusterLba(nc), 0, e, i);
      AddedInGrown(t, tree, x, zeros, i, e);
      SameFilesTrans(vol.g, d, d1, vol.disk, t, GrownTree(t, x, zeros), tree, ch, ch[x := s'], chains, {(x, i)});
      ok := true;
    }

    /** Creates an empty file or a directory with its two dot records. */
    method Create(x: nat, target: Name, isDir: bool) returns (r: int)
      requires Ok() && x in tree.dirs && ProperName(target)
      requires forall i: nat :: Named(tree.dirs[x], target, i) ==> !IsLabel(tree.dirs[x][i])
      modifies this, vol
      ensures Ok() && (r == 0 || r == -1)
      ensures r == -1 ==> tree == old(tree) && chains == old(chains)
      ensures r == -1 ==> SameFiles(vol.g, old(vol.disk), vol.disk, old(tree), tree, old(chains), chains, {})
      ensures (exists i: nat :: Named(old(tree).dirs[x], target, i)) ==> r == -1 && vol.disk == old(vol.disk)
      ensures r == -1 ==>
        (x == 0 && NoRoom(tree.dirs[x])) || Full(vol.g, vol.disk) ||
          exists i: nat :: Named(old(tree).dirs[x], target, i)
      ensures r == 0 ==> x in tree.dirs && exists i: nat, c: nat ::
        && i < |tree.dirs[x]| && tree.dirs[x][i] == NewEntry(target, isDir, c) && Named(tree.dirs[x], target, i)
        && (if isDir then c !in old(tree).dirs && c in tree.dirs &&
          NewDir(tree.dirs[c], c, x % 0x1_0000_0000) else c == 0)
        && SameFiles(vol.g, old(vol.disk), vol.disk, old(tree), tree, old(chains), chains, {(x, i)})
        && (forall y: nat, j: nat :: y in old(tree).dirs && j < |old(tree).dirs[y]| && !(y == x && j == i) ==>
              y in tree.dirs && j < |tree.dirs[y]| && tree.dirs[y][j] == old(tree).dirs[y][j])
        && SameEntries(old(tree), tree, x, i)
      ensures LabelsKept(old(tree), tree)
      ensures r == -1 ==> View() == old(View())
      ensures r == 0 ==> Grown(old(View()), View(), vol.g.rootCluster, (x, target), isDir)
    {
      hide LabelsKept, Table, Contents, Next, DirBytes, SlotsOf, StopAt, VolOk, SameFiles, DirOk, FirstOf, IsEntry,
        Points, IsDir, NameOf, IsLive, TreeOk, Extended, Full, IsChain, SizeOf, IsLabel, NewEntry, NoRoom, NewDir,
        StoreOf, SameEntries, Fresh;
      ghost var d, t, ch := vol.disk, tree, chains;
      DirReady(x);
      Unchanged(vol.g, d, t, ch);
      SameLabels(t);
      var found, node;
      ghost var i;
      found, node, i := FindDir(x, target);
      if found {
        return -1;
      }
      var c := 0;
      if isDir {
        ghost var slots;
        c, slots := NewDirCluster(vol, x % 0x1_0000_0000);
        if c == 0 {
          return -1;
        }
        LeakedVol(vol.g, d, vol.disk, t, ch, [c]);
        SameStore(vol.g, d, vol.disk, t, ch, ch);
        NewDirVol(vol.g, d, vol.disk, t, ch, c, slots);
        NewDirRef(vol.g, d, t, ch, c, slots, x);
        tree, chains := WithDir(t, c, slots), ch[c := [c]];
        NewDirLabels(t, c, slots);
        FreshDir(vol.g, d, t, ch, c);
        FreshInStore(vol.g, d, t, ch, c);
        NewDirEntries(t, c, slots);
      }
      ghost var d1, t1, ch1 := vol.disk, tree, chains;
      assert EqualEntries(t, t1);
      var e := NewEntry(target, isDir, c);
      NewEntryFields(target, isDir, c);
      NothingPoints(t1, e);
      var ok;
      ok, i := AddEntry(x, e);
      if !ok {
        tree, chains := t, ch;
        return -1;
      }
      SameFilesTrans(vol.g, d, d1, vol.disk, t, t1, tree, ch, ch1, chains, {(x, i)});
      AddedIsThere(t1, tree, x, i, e);
      if isDir {
        DirStays(t1, tree, x, i, e, c);
      }
      AddedLabels(t, t1, tree, x, i, e);
      AddedEntries(t, t1, tree, x, i, e);
      CreatedStore(vol.g, d, vol.disk, t, tree, ch, chains, x, i, target);
      forall y: nat, j: nat | y in t.dirs && j < |t.dirs[y]| && !(y == x && j == i)
        ensures y in tree.dirs && j < |tree.dirs[y]| && tree.dirs[y][j] == t.dirs[y][j]
      {
        OthersStay(t1, tree, x, i, e, y, j);
      }
      r := 0;
    }

    /** Follow a path of directory names from the root. */
    method Resolve(path: seq<Name>) returns (found: bool, x: nat)
      requires Ok() && forall k :: 0 <= k < |path| ==> ProperName(path[k])
      ensures At(View(), vol.g.rootCluster, path) == if found then x else -1
      ensures found ==> x in tree.dirs
    {
      hide VolOk, DirOk, FirstOf, SizeOf, IsDir, IsEntry, IsLabel, NameOf, IsLive, StoreOf;
      RootIsDir(vol.g, vol.disk, tree, chains);
      x := vol.g.rootCluster;
      var k := 0;
      assert path[..0] == [];
      while k < |path|
        invariant 0 <= k <= |path| && x in tree.dirs && At(View(), vol.g.rootCluster, path[..k]) == x
      {
        var hit, node;
        ghost var i;
        hit, node, i := FindDir(x, path[k]);
        OneDown(View(), vol.g.rootCluster, path, k);
        if !hit || node.isFile {
          NoDown(vol.g, vol.disk, tree, chains, (x, path[k]), hit, i);
          Lost(View(), vol.g.rootCluster, path, k + 1);
          return false, 0;
        }
        DirInStore(vol.g, vol.disk, tree, chains, (x, path[k]), i);
        SubdirIsDir(vol.g, vol.disk, tree, chains, (x, path[k]), i);
        x := node.inode;
        k := k + 1;
      }
      assert path[..k] == path;
      found := true;
    }

    /** Every run of requests from a well-formed volume keeps it well formed
        (chains stay terminated, allocated and disjoint, and the copies agree), and is
        a run of the store: each request does to it what its result says. */
    method Run(requests: seq<Request>, ghost labels: set<Name>) returns (rs: seq<int>, ghost trace: seq<Moment>)
      requires Ok() && LabelsAmong(tree, labels)
      requires forall k :: 0 <= k < |requests| ==> Admissible(requests[k], labels, vol.g)
      modifies this, vol
      ensures Ok() && LabelsAmong(tree, labels)
      ensures |rs| == |requests| && |trace| == |requests| + 1
      ensures trace[0] == old(Now()) && trace[|requests|] == Now()
      ensures forall k :: 0 <= k < |requests| ==> Does(trace[k], trace[k + 1], vol.g.rootCluster, requests[k], rs[k])
    {
      hide VolOk, StoreOf, Does, LabelsAmong, Admissible, Full, NoRoom;
      rs, trace := [], [Now()];
      while |rs| < |requests|
        invariant |rs| <= |requests| && |trace| == |rs| + 1 && Ok() && LabelsAmong(tree, labels)
        invariant trace[0] == old(Now()) && trace[|rs|] == Now()
        invariant forall k :: 0 <= k < |rs| ==> Does(trace[k], trace[k + 1], vol.g.rootCluster, requests[k], rs[k])
      {
        var r := Serve(requests[|rs|], labels);
        rs, trace := rs + [r], trace + [Now()];
      }
    }

    /** One request, on the directory at its path. */
    method Serve(q: Request, ghost labels: set<Name>) returns (r: int)
      requires Ok() && LabelsAmong(tree, labels) && Admissible(q, labels, vol.g)
      modifies this, vol
      ensures Ok() && LabelsAmong(tree, labels)
      ensures Does(old(Now()), Now(), vol.g.rootCluster, q, r)
    {
      hide VolOk, StoreOf, SameFiles, BytesOf, Full, NameOf, IsLabel, IsLive, ProperName, IsEntry, FirstOf, Removed,
        SameEntries, Without, Grown, Rewritten, Low32, InReach, NoRoom, IsDir;
      var found, x := Resolve(q.path);
      if !found {
        return -1;
      }
      NoLabelNamed(tree, labels, x, q.name);
      InStoreIffNamed(vol.g, vol.disk, tree, chains, (x, q.name));
      match q.action {
        case CreateEntry(isDir) => r := Create(x, q.name, isDir);
        case WriteBytes(data, offset) =>
          FileIsThere(vol.g, vol.disk, tree, chains, (x, q.name));
          r := WriteFile(x, q.name, data, offset);
        case UnlinkEntry => r := Unlink(x, q.name);
      }
    }

    /** Reads a file by name, as ReadOut says of its bytes and of the room in its
        chain: what is due, if and only if its 32-bit position is past the end, or
        the offset fits 32 bits and either the range ends below 2^64 or the file
        fills its chain. */
    method ReadFile(x: nat, target: Name, n: Word, offset: Word)
      returns (r: int, out: seq<byte>, ghost cap: nat)
      requires Ok() && x in tree.dirs && ProperName(target)
      modifies vol
      ensures Ok() && vol.disk == old(vol.disk)
      ensures r == -1 ==> forall i: nat :: Named(tree.dirs[x], target, i) ==> !FileAt(tree, x, i)
      ensures r != -1 ==> r == |out| && exists i: nat ::
        && Named(tree.dirs[x], target, i) && FileAt(tree, x, i)
        && |BytesOf(vol.g, vol.disk, tree.dirs[x][i], chains)| <= cap
        && out == ReadOut(BytesOf(vol.g, vol.disk, tree.dirs[x][i], chains), cap, n, offset)
      ensures r != -1 <==> (x, target) in View().files
      ensures r != -1 ==>
        var b := View().files[(x, target)];
        && |b| <= cap && out == ReadOut(b, cap, n, offset)
        && (out == Slice(b, n, offset)
            <==> Low32(offset) >= |b| || (offset < W32 && (offset + n < W64 || cap == |b|)))
    {
      hide Table, Contents, Next, DirBytes, SlotsOf, VolOk, DirOk, FirstOf, SizeOf, IsDir, IsLabel, StoreOf,
        ReadOut, Slice, Low32, EntryChain, FileChain;
      cap := 0;
      var found, node;
      ghost var i;
      DirReady(x);
      found, node, i := FindDir(x, target);
      if !found {
        NotNamed(vol.g, vol.disk, tree, chains, (x, target));
        return -1, [], 0;
      }
      NamedOnce(tree.dirs[x], target, i);
      EntryInStore(vol.g, vol.disk, tree, chains, (x, target), i);
      if !node.isFile {
        return -1, [], 0;
      }
      assert FileAt(tree, x, i);
      ghost var e := tree.dirs[x][i];
      ghost var s := ChainOf(chains, FirstOf(e));
      FileReady(vol.g, vol.disk, tree, chains, x, i);
      OpenChain(vol.g, vol.disk, e, chains);
      SameSlot(e);
      r, out := Read(vol, node, n, offset, s);
      cap := Times(|s|, vol.g.BytesPerCluster());
      BytesShort(vol.g, vol.disk, e, chains);
      ReadExact(BytesOf(vol.g, vol.disk, e, chains), cap, n, offset);
    }
  }

  // ----- runs -----

  /** Requests with 8.3 names that are no volume labels, and writes in reach. */
  ghost predicate Admissible(q: Request, labels: set<Name>, g: Geometry) {
    && (forall k :: 0 <= k < |q.path| ==> ProperName(q.path[k]))
    && ProperName(q.name) && q.name !in labels
    && (q.action.WriteBytes? ==> InReach(g, q.action.data, q.action.offset))
  }

  ghost predicate LabelsAmong(t: Tree, labels: set<Name>) {
    forall y: nat, j: nat :: LabelAt(t, y, j) ==> NameOf(t.dirs[y][j]) in labels
  }

  lemma NoLabelNamed(t: Tree, labels: set<Name>, x: nat, target: Name)
    requires LabelsAmong(t, labels) && x in t.dirs && target !in labels
    ensures forall i: nat :: Named(t.dirs[x], target, i) ==> !IsLabel(t.dirs[x][i])
  {
    hide IsLabel, NameOf, IsLive;
    forall i: nat | Named(t.dirs[x], target, i) ensures !LabelAt(t, x, i) {
    }
  }

  /** Where no label has the name, the store knows exactly the names in use. */
  lemma InStoreIffNamed(g: Geometry, d: Disk, t: Tree, chains: Chains, k: Key)
    requires VolOk(g, d, t, chains) && k.0 in t.dirs && ProperName(k.1)
    requires forall i: nat :: Named(t.dirs[k.0], k.1, i) ==> !IsLabel(t.dirs[k.0][i])
    ensures var s := StoreOf(g, d, t, chains);
      (exists i: nat :: Named(t.dirs[k.0], k.1, i)) <==> k in s.files || k in s.dirs
  {
    hide VolOk, StoreOf, FirstOf, IsDir, IsLabel;
    if i: nat :| Named(t.dirs[k.0], k.1, i) {
      assert NameOf(t.dirs[k.0][i])[0] == t.dirs[k.0][i][0];
      EntryInStore(g, d, t, chains, k, i);
    } else {
      NotNamed(g, d, t, chains, k);
    }
  }

  /** A file of the store has a slot. */
  lemma FileIsThere(g: Geometry, d: Disk, t: Tree, chains: Chains, k: Key)
    requires VolOk(g, d, t, chains) && k.0 in t.dirs
    ensures k in StoreOf(g, d, t, chains).files ==>
      exists i: nat :: Named(t.dirs[k.0], k.1, i) && FileAt(t, k.0, i)
  {
    hide VolOk, FileOf, NameOf, FirstOf, IsDir, IsLabel;
    if k in StoreOf(g, d, t, chains).files {
      var i: nat :| IsFileNamed(t, k, i);
      assert Named(t.dirs[k.0], k.1, i);
    }
  }

  // ----- creating -----

  /** A fresh directory entry (fat.c:629-641). */
  function NewEntry(target: Name, isDir: bool, first: nat): (e: Slot) {
    Patched(target + [if isDir then 0x10 else 0] + Zeros(20), first, 0)
  }

  lemma NewEntryFields(target: Name, isDir: bool, first: nat)
    requires ProperName(target) && first < 0x1_0000_0000
    ensures var e := NewEntry(target, isDir, first);
      && IsEntry(e) && NameOf(e) == target && IsDir(e) == isDir && FirstOf(e) == first && SizeOf(e) == 0
  {
    hide Patched, FirstOf, SizeOf;
    var e0: Slot := target + [if isDir then 0x10 else 0] + Zeros(20);
    assert e0[..11] == target && e0[0] == target[0] && e0[11] == if isDir then 0x10 else 0;
    PatchedFields(e0, first, 0);
  }

  /** The "." and ".." records of a new directory. */
  function DotEntry(second: byte, first: nat): (e: Slot) {
    Patched([0x2E, second] + seq(9, _ => 32) + [0x10] + Zeros(20), first, 0)
  }

  lemma DotEntryFields(second: byte, first: nat)
    requires first < 0x1_0000_0000
    ensures var e := DotEntry(second, first);
      && IsLive(e) && IsDot(e) && !IsEntry(e) && !IsLabel(e) && !IsLongName(e) && !IsEnd(e) && NameOf(e)[1] == second
  {
    hide Patched, FirstOf, SizeOf;
    var e0: Slot := [0x2E, second] + seq(9, _ => 32) + [0x10] + Zeros(20);
    assert e0[..11][1] == second && e0[0] == 0x2E && e0[11] == 0x10;
    PatchedFields(e0, first, 0);
  }

  /** Two dot records followed by end marks form a directory without entries. */
  lemma DotsOk(slots: seq<Slot>, a: Slot, b: Slot)
    requires |slots| >= 2 && slots[0] == a && slots[1] == b
    requires IsLive(a) && IsLive(b) && !IsEntry(a) && !IsEntry(b) && !IsLabel(a) && !IsLabel(b)
    requires !IsEnd(a) && !IsEnd(b) && NameOf(a) != NameOf(b)
    requires forall i :: 2 <= i < |slots| ==> IsEnd(slots[i]) && !IsLongName(slots[i])
    ensures DirOk(slots) && forall i :: 0 <= i < |slots| ==> !IsEntry(slots[i])
    ensures forall i :: 0 <= i < |slots| && IsLive(slots[i]) ==> !IsLabel(slots[i])
  {
    hide NameOf, FirstOf, IsLabel;
    forall i | 2 <= i < |slots| ensures !IsLive(slots[i]) && !IsEntry(slots[i]) {
    }
  }

  lemma DotSlots(g: Geometry, a: Slot, b: Slot)
    requires g.Valid()
    ensures 64 <= g.BytesPerCluster()
    ensures var slots := SlotsOf(Overwrite(Overwrite(Zeros(g.BytesPerCluster()), 0, a), 32, b));
      && |slots| >= 2 && slots[0] == a && slots[1] == b
      && forall i :: 2 <= i < |slots| ==> IsEnd(slots[i]) && !IsLongName(slots[i])
  {
    hide SlotsOf, Overwrite, IsEnd, IsLongName;
    ClusterSlots(g);
    var n := g.BytesPerCluster();
    var z := Zeros(n);
    ZeroSlots(z);
    SlotsOverwritten(z, 0, 0, a);
    SlotsOverwritten(Overwrite(z, 0, a), 1, 0, b);
    WholeSlot(SlotsOf(z)[0], a);
    WholeSlot(SlotsOf(z)[1], b);
  }

  lemma ClusterSlots(g: Geometry)
    requires g.Valid()
    ensures 512 <= g.BytesPerCluster() && g.BytesPerCluster() / 32 >= 16 &&
      |Zeros(g.BytesPerCluster())| == g.BytesPerCluster()
  {
  }

  /** Take a cluster for a new directory and write its dot records. */
  method NewDirCluster(v: Volume, parent: nat) returns (c: nat, ghost slots: seq<Slot>)
    requires v.Ready() && Mirrored(v.g, v.disk) && parent < 0x1_0000_0000
    modifies v
    ensures v.Ready()
    ensures c == 0 ==> v.disk == old(v.disk) && Full(v.g, v.disk)
    ensures c != 0 ==>
      && v.g.InRange(c) && Extended(v.g, old(v.disk), v.disk, [], [c]) && Clusters(v.g, [c])
      && slots == SlotsOf(Contents(v.g, v.disk, [c])) && DirOk(slots) && NewDir(slots, c, parent)
      && (forall i :: 0 <= i < |slots| ==> !IsEntry(slots[i]))
      && (forall i :: 0 <= i < |slots| && IsLive(slots[i]) ==> !IsLabel(slots[i]))
  {
    hide Table, Contents, Next, SlotsOf, Extended, InCluster, DirOk, ClusterBytes, IsEntry, DotEntry, Overwrite,
      IsLive, IsDot, IsLabel, IsEnd, IsLongName, NameOf, InChain;
    ghost var d0 := v.disk;
    c := v.AllocCluster();
    slots := [];
    if c == 0 {
      return;
    }
    ghost var d1 := v.disk;
    assert [] + [c] == [c];
    LinkedExtends(v.g, d0, d1, [], c);
    GrownContents(v.g, d0, d1, [], c);
    var dot, dotdot := DotEntry(32, c), DotEntry(0x2E, parent);
    DotEntryFields(32, c);
    DotEntryFields(0x2E, parent);
    DotSlots(v.g, dot, dotdot);
    WriteSector(v, c, 0, 0, dot);
    ghost var d2 := v.disk;
    WriteSector(v, c, 0, 32, dotdot);
    OneCluster(v.g, d0, c);
    OneCluster(v.g, d1, c);
    OneCluster(v.g, v.disk, c);
    assert [] + Zeros(v.g.BytesPerCluster()) == Zeros(v.g.BytesPerCluster());
    ExtendedPatched(v.g, d0, d1, d2, [], [c], 0);
    ExtendedPatched(v.g, d0, d2, v.disk, [], [c], 0);
    slots := SlotsOf(Contents(v.g, v.disk, [c]));
    DotsOk(slots, dot, dotdot);
  }

  lemma OneCluster(g: Geometry, d: Disk, c: nat)
    requires g.Valid() && g.Fits(d) && g.InRange(c)
    ensures Clusters(g, [c]) && Contents(g, d, [c]) == ClusterBytes(g, d, c)
    ensures Clusters(g, []) && Contents(g, d, []) == []
  {
    assert [c][..0] == [];
  }

  lemma PlaceReady(t: Tree, x: nat, i: nat, e: Slot)
    requires TreeOk(t) && x in t.dirs && i < |t.dirs[x]| && i == StopAt(FindFree, NameOf(e), t.dirs[x])
    requires IsEntry(e) && RefOk(t, e) && forall j: nat :: !Named(t.dirs[x], NameOf(e), j)
    requires forall y: nat, j: nat :: !Points(t, y, j, FirstOf(e))
    ensures TreeOk(Placed(t, x, i, e)) && !IsLive(t.dirs[x][i])
  {
    hide DirOk, FirstOf, IsEntry, NameOf, RefOk, Points;
    DirOkFilled(t.dirs[x], i, e);
    PlacedOk(t, x, i, e);
    FreeIsNotLive(NameOf(e), t.dirs[x][i]);
  }

  /** No slot outside long names is an end mark or deleted. */
  ghost predicate NoRoom(slots: seq<Slot>) {
    forall j :: 0 <= j < |slots| ==> IsLongName(slots[j]) || (!IsEnd(slots[j]) && !IsDeleted(slots[j]))
  }

  lemma AllTaken(target: Name, slots: seq<Slot>)
    ensures StopAt(FindFree, target, slots) == |slots| <==> NoRoom(slots)
  {
    var i := StopAt(FindFree, target, slots);
    forall j | 0 <= j < i ensures IsLongName(slots[j]) || (!IsEnd(slots[j]) && !IsDeleted(slots[j])) {
      assert !Stops(FindFree, target, slots[j]);
    }
  }

  lemma FreeIsNotLive(target: Name, e: Slot)
    requires Stops(FindFree, target, e)
    ensures !IsLive(e)
  {
  }

  /** Growing a full directory makes its first new slot the free one. */
  lemma GrownStop(t: Tree, x: nat, zeros: seq<Slot>, target: Name)
    requires x in t.dirs && StopAt(FindFree, target, t.dirs[x]) == |t.dirs[x]| && |zeros| > 0
    requires forall i :: 0 <= i < |zeros| ==> IsEnd(zeros[i]) && !IsLongName(zeros[i])
    requires forall j: nat :: !Named(t.dirs[x], target, j)
    ensures StopAt(FindFree, target, GrownTree(t, x, zeros).dirs[x]) == |t.dirs[x]|
    ensures forall j: nat :: !Named(GrownTree(t, x, zeros).dirs[x], target, j)
  {
    StopAtIs(FindFree, target, zeros, 0);
    StopInSecond(FindFree, target, t.dirs[x], zeros, []);
    assert t.dirs[x] + zeros + [] == t.dirs[x] + zeros;
    forall j: nat | j < |t.dirs[x] + zeros| && Named(t.dirs[x] + zeros, target, j) ensures Named(t.dirs[x], target, j) {
    }
  }

  /** An entry was added at slot i of directory x and every other slot in use
      of every directory is where it was. */
  ghost predicate OneAdded(t: Tree, t': Tree, x: nat, i: nat, e: Slot) {
    && t'.dirs.Keys == t.dirs.Keys && x in t.dirs && i < |t'.dirs[x]| && t'.dirs[x][i] == e
    && (i < |t.dirs[x]| ==> !IsLive(t.dirs[x][i]))
    && (forall y :: y in t.dirs ==> |t.dirs[y]| <= |t'.dirs[y]| && (y != x ==> t'.dirs[y] == t.dirs[y]))
    && (forall y: nat, j: nat :: y in t.dirs && j < |t.dirs[y]| && !(y == x && j == i) ==>
          t'.dirs[y][j] == t.dirs[y][j])
    && (forall y: nat, j: nat :: y in t.dirs && |t.dirs[y]| <= j < |t'.dirs[y]| && !(y == x && j == i) ==>
          !IsLive(t'.dirs[y][j]))
  }

  /** Every volume label of t' was there in t. */
  ghost predicate LabelsKept(t: Tree, t': Tree) {
    forall y: nat, j: nat :: LabelAt(t', y, j) ==> LabelAt(t, y, j) && NameOf(t.dirs[y][j]) == NameOf(t'.dirs[y][j])
  }

  ghost predicate LabelAt(t: Tree, y: nat, j: nat) {
    y in t.dirs && j < |t.dirs[y]| && IsLive(t.dirs[y][j]) && IsLabel(t.dirs[y][j])
  }

  lemma SameLabels(t: Tree)
    ensures LabelsKept(t, t)
  {
  }

  lemma RemovedLabels(t: Tree, x: nat, i: nat)
    requires x in t.dirs && i < |t.dirs[x]|
    ensures LabelsKept(t, Removed(t, x, i))
  {
    hide FirstOf, IsLabel;
    DeletedSlot(t.dirs[x][i]);
  }

  lemma WrittenLabels(t: Tree, x: nat, i: nat, inode: nat, size: nat)
    requires x in t.dirs && i < |t.dirs[x]| && inode < 0x1_0000_0000 && size < 0x1_0000_0000
    ensures LabelsKept(t, WrittenTree(t, x, i, inode, size))
  {
    hide FirstOf, SizeOf, Patched, IsLabel, IsLive, NameOf, IsEntry, IsDir;
    PatchedFields(t.dirs[x][i], inode, size);
  }

  lemma NewDirLabels(t: Tree, c: nat, slots: seq<Slot>)
    requires forall i :: 0 <= i < |slots| && IsLive(slots[i]) ==> !IsLabel(slots[i])
    ensures LabelsKept(t, WithDir(t, c, slots))
  {
    hide IsLabel, IsLive, NameOf;
  }

  lemma AddedLabels(t: Tree, t1: Tree, t2: Tree, x: nat, i: nat, e: Slot)
    requires LabelsKept(t, t1) && OneAdded(t1, t2, x, i, e) && IsEntry(e)
    ensures LabelsKept(t, t2)
  {
    EntryIsNotLabel(e);
    hide IsLabel, IsLive, NameOf, IsEntry;
    forall y: nat, j: nat | LabelAt(t2, y, j)
      ensures LabelAt(t1, y, j) && NameOf(t1.dirs[y][j]) == NameOf(t2.dirs[y][j])
    {
      if j < |t1.dirs[y]| && !(y == x && j == i) {
        assert t2.dirs[y][j] == t1.dirs[y][j];
      }
    }
  }

  // ----- paths -----

  lemma OneDown(s: Store, from: nat, path: seq<Name>, k: nat)
    requires k < |path|
    ensures var x := At(s, from, path[..k]);
      At(s, from, path[..k + 1]) == if x >= 0 && (x, path[k]) in s.dirs then s.dirs[(x, path[k])] else -1
  {
    assert path[..k + 1][..k] == path[..k];
  }

  /** A name found to be no directory stands for none in the store. */
  lemma NoDown(g: Geometry, d: Disk, t: Tree, chains: Chains, k: Key, hit: bool, i: nat)
    requires VolOk(g, d, t, chains) && k.0 in t.dirs
    requires hit ==> Named(t.dirs[k.0], k.1, i) && IsEntry(t.dirs[k.0][i]) && !IsDir(t.dirs[k.0][i])
    requires !hit ==> forall j: nat :: Named(t.dirs[k.0], k.1, j) ==> IsLabel(t.dirs[k.0][j])
    ensures k !in StoreOf(g, d, t, chains).dirs
  {
    if hit {
      hide VolOk, StoreOf, FirstOf, IsDir, IsLabel, NameOf, IsEntry;
      FileInStore(g, d, t, chains, k, i);
    } else {
      hide VolOk, StoreOf, FirstOf, IsDir, IsLabel, NameOf;
      NotNamed(g, d, t, chains, k);
    }
  }

  /** Once a path leads nowhere, so do its continuations. */
  lemma {:induction false} Lost(s: Store, from: nat, path: seq<Name>, k: nat)
    requires k <= |path| && At(s, from, path[..k]) == -1
    ensures At(s, from, path) == -1
    decreases |path| - k
  {
    if k == |path| {
      assert path[..k] == path;
    } else {
      OneDown(s, from, path, k);
      Lost(s, from, path, k + 1);
    }
  }

  lemma AddedEntries(t: Tree, t1: Tree, t2: Tree, x: nat, i: nat, e: Slot)
    requires EqualEntries(t, t1) && OneAdded(t1, t2, x, i, e) && IsEntry(e)
    ensures SameEntries(t, t2, x, i) && !EntryAt(t, x, i) && EntryAt(t2, x, i)
  {
    forall y: nat, j: nat | !(y == x && j == i) ensures SameEntry(t, t2, y, j) {
      assert SameEntry(t, t1, y, j);
      AddedElsewhere(t1, t2, x, i, e, y, j);
    }
    assert SameEntry(t, t1, x, i);
  }

  lemma AddedElsewhere(t: Tree, t': Tree, x: nat, i: nat, e: Slot, y: nat, j: nat)
    requires OneAdded(t, t', x, i, e) && !(y == x && j == i)
    ensures SameEntry(t, t', y, j)
  {
    if y in t.dirs && |t.dirs[y]| <= j < |t'.dirs[y]| {
      assert !IsLive(t'.dirs[y][j]);
    }
  }

  lemma TreeFacts(g: Geometry, d: Disk, t: Tree, chains: Chains)
    requires VolOk(g, d, t, chains)
    ensures TreeOk(t)
  {
  }

  lemma ChainedDir(g: Geometry, d: Disk, x: nat, s: seq<nat>)
    requires g.Valid() && g.Fits(d) && Clusters(g, s) && x != 0
    ensures DirBytes(g, d, x, s) == Contents(g, d, s)
  {
  }

  lemma GrownRefs(t: Tree, x: nat, zeros: seq<Slot>, e: Slot)
    requires TreeOk(t) && x in t.dirs && RefOk(t, e) && forall y: nat, j: nat :: !Points(t, y, j, FirstOf(e))
    requires forall i :: 0 <= i < |zeros| ==> IsEnd(zeros[i]) && !IsLongName(zeros[i])
    ensures RefOk(GrownTree(t, x, zeros), e)
    ensures forall y: nat, j: nat :: !Points(GrownTree(t, x, zeros), y, j, FirstOf(e))
  {
    hide FirstOf, IsEntry, DirOk, TreeOk;
    GrownOk(t, x, zeros);
  }

  /** The first slot of the appended cluster. */
  lemma NewSlotPlace(g: Geometry, d: Disk, x: nat, s: seq<nat>, s': seq<nat>, nc: nat, i: nat)
    requires g.Valid() && g.Fits(d) && Clusters(g, s) && Clusters(g, s') && x != 0
    requires g.InRange(nc) && s' == s + [nc] && i == |SlotsOf(Contents(g, d, s))|
    ensures SlotAt(g, x, s', i, g.ClusterLba(nc), 0)
  {
    hide SlotsOf, Contents;
    SlotCounts(g, |s|);
    assert s'[|s|] == nc;
    SlotPlace(g, s', |s|, i, 0);
  }

  lemma AddedInGrown(t: Tree, t': Tree, x: nat, zeros: seq<Slot>, i: nat, e: Slot)
    requires x in t.dirs && i == |t.dirs[x]| && |zeros| > 0
    requires forall k :: 0 <= k < |zeros| ==> IsEnd(zeros[k]) && !IsLongName(zeros[k])
    requires t' == Placed(GrownTree(t, x, zeros), x, i, e)
    ensures OneAdded(t, t', x, i, e)
  {
    forall k | 0 <= k < |zeros| ensures !IsLive(zeros[k]) {
    }
    hide IsLive, IsEnd, IsLongName;
  }

  lemma NewDirRef(g: Geometry, d: Disk, t: Tree, chains: Chains, c: nat, slots: seq<Slot>, x: nat)
    requires VolOk(g, d, t, chains) && x in t.dirs && c !in chains && c >= 2
    ensures forall y :: y in t.dirs ==> y in WithDir(t, c, slots).dirs && WithDir(t, c, slots).dirs[y] == t.dirs[y]
    ensures x in WithDir(t, c, slots).dirs && WithDir(t, c, slots).dirs[x] == t.dirs[x]
    ensures forall e: Slot :: IsDir(e) && FirstOf(e) == c ==> RefOk(WithDir(t, c, slots), e)
  {
    hide Table, DirBytes, SlotsOf, FilesOk, ChainsOk, DirOk, IsEntry, FirstOf, IsDir, Mirrored, SizeOf;
  }

  lemma AddedIsThere(t: Tree, t': Tree, x: nat, i: nat, e: Slot)
    requires OneAdded(t, t', x, i, e) && IsEntry(e)
    ensures x in t'.dirs && i < |t'.dirs[x]| && t'.dirs[x][i] == e && Named(t'.dirs[x], NameOf(e), i)
  {
  }

  lemma DirStays(t: Tree, t': Tree, x: nat, i: nat, e: Slot, c: nat)
    requires OneAdded(t, t', x, i, e) && c in t.dirs && c != x
    ensures c in t'.dirs && t'.dirs[c] == t.dirs[c]
  {
  }

  lemma FreshDir(g: Geometry, d: Disk, t: Tree, chains: Chains, c: nat)
    requires VolOk(g, d, t, chains) && c !in chains && c != 0
    ensures c !in t.dirs
  {
    hide Table, DirBytes, SlotsOf, FilesOk, DirOk, IsEntry, FirstOf, IsDir, Mirrored, SizeOf;
  }

  /** The two dot records, of the directory and of its parent, and nothing else. */
  ghost predicate NewDir(slots: seq<Slot>, c: nat, parent: nat) {
    && |slots| >= 2 && slots[0] == DotEntry(32, c) && slots[1] == DotEntry(0x2E, parent)
    && forall i :: 2 <= i < |slots| ==> IsEnd(slots[i])
  }

  lemma OthersStay(t: Tree, t': Tree, x: nat, i: nat, e: Slot, y: nat, j: nat)
    requires OneAdded(t, t', x, i, e) && y in t.dirs && j < |t.dirs[y]| && !(y == x && j == i)
    ensures y in t'.dirs && j < |t'.dirs[y]| && t'.dirs[y][j] == t.dirs[y][j]
  {
  }

  lemma NothingPoints(t: Tree, e: Slot)
    requires FirstOf(e) == 0 || forall y: nat, j: nat :: !Points(t, y, j, FirstOf(e))
    ensures forall y: nat, j: nat :: !Points(t, y, j, FirstOf(e))
  {
  }

  lemma SameFilesTrans(
    g: Geometry, d: Disk, d1: Disk, d2: Disk, t: Tree, t1: Tree, t2: Tree, c: Chains, c1: Chains, c2: Chains,
      but: set<(nat, nat)>)
    requires VolOk(g, d, t, c) && VolOk(g, d1, t1, c1) && VolOk(g, d2, t2, c2)
    requires SameFiles(g, d, d1, t, t1, c, c1, {}) && SameFiles(g, d1, d2, t1, t2, c1, c2, but)
    ensures SameFiles(g, d, d2, t, t2, c, c2, but)
  {
    hide BytesOf, EntryChain, Table, DirBytes, TreeOk, ChainsOk, DirsOk, Mirrored, IsFile;
  }

  /** The end of a chain, by following its links. */
  method LastCluster(v: Volume, first: nat, ghost s: seq<nat>) returns (last: nat)
    requires v.Ready() && IsChain(v.T(), s) && s[0] == first
    ensures last == s[|s| - 1]
  {
    hide Table, Next, IsChain;
    ChainClusters(v.g, v.T(), s);
    ghost var i: nat := 0;
    last := first;
    ChainStep(v.T(), s, 0);
    var next := v.NextCluster(last);
    while next != 0
      invariant i < |s| && last == s[i] && next == if i + 1 < |s| then s[i + 1] else 0
      decreases |s| - i
    {
      last := next;
      i := i + 1;
      ChainStep(v.T(), s, i);
      next := v.NextCluster(last);
    }
    ChainStep(v.T(), s, i);
  }

  /** What writing through a node did, given to the proofs in one piece. */
  ghost predicate NodeWritten(
    g: Geometry, d: Disk, d1: Disk, e: Slot, chains: Chains, inode: nat, size: nat, s': seq<nat>, r: int,
      data: seq<byte>, offset: nat)
    requires g.Valid() && g.Fits(d) && g.Fits(d1) && EntryChain(g, d, e, chains) && r <= |data|
  {
    && Extended(g, d, d1, ChainOf(chains, FirstOf(e)), s')
    && FileChain(g, d1, inode, size, s') && (FirstOf(e) != 0 ==> inode == FirstOf(e))
    && Clusters(g, s') && size <= Times(|s'|, g.BytesPerCluster()) && size < 0x1_0000_0000
    && (r < 0 ==> size == SizeOf(e) && FileBytes(g, d1, size, s') == BytesOf(g, d, e, chains))
    && (r >= 0 ==> inode != 0 && FileBytes(g, d1, size, s') == Spliced(BytesOf(g, d, e, chains), offset, data[..r]))
  }

  /** Open the node of an entry, write, and hand back the node. */
  method WriteNode(v: Volume, node: FileNode, data: seq<byte>, offset: Word, ghost e: Slot, ghost chains: Chains)
    returns (r: int, ghost s': seq<nat>)
    requires v.Ready() && Mirrored(v.g, v.disk) && EntryChain(v.g, v.disk, e, chains)
    requires node.isFile && node.inode == FirstOf(e) && node.size == SizeOf(e)
    requires InReach(v.g, data, offset)
    modifies v, node
    ensures v.Ready() && -1 <= r <= |data| && (r >= 0 ==> Low32(offset) + r < W32)
    ensures NodeWritten(v.g, old(v.disk), v.disk, e, chains, node.inode, node.size, s', r, data, Low32(offset))
    ensures r < |data| ==> Full(v.g, v.disk)
  {
    hide Table, Contents, Extended, Full, FirstOf, SizeOf, Spliced, IsChain, Low32, Written;
    SameSlot(e);
    ghost var d0 := v.disk;
    r, s' := Write(v, node, data, offset, ChainOf(chains, FirstOf(e)));
    ExtendedGives(v.g, d0, v.disk, ChainOf(chains, FirstOf(e)), s');
    if r >= 0 {
      EndsInReach(v.g, v.disk, s', data, offset, r);
    }
  }

  /** The range ends below 2^32 from its 32-bit position on, or the volume does. */
  predicate InReach(g: Geometry, data: seq<byte>, offset: Word) {
    Low32(offset) + |data| < W32 || Times(g.totalClusters, g.BytesPerCluster()) < W32
  }

  lemma EndsInReach(g: Geometry, d: Disk, s: seq<nat>, data: seq<byte>, offset: Word, r: nat)
    requires g.Valid() && g.Fits(d) && InReach(g, data, offset) && r <= |data|
    requires |s| > 0 ==> IsChain(Table(g, d, 0), s)
    requires Low32(offset) + r <= Times(|s|, g.BytesPerCluster())
    ensures Low32(offset) + r < W32
  {
    hide Table, IsChain, Low32;
    if |s| > 0 {
      ChainLength(Table(g, d, 0), s);
      TimesMono(|s|, g.totalClusters, g.BytesPerCluster());
    }
  }

  lemma NodeChain(g: Geometry, d1: Disk, inode: nat, size: nat, s': seq<nat>)
    requires g.Valid() && g.Fits(d1) && FileChain(g, d1, inode, size, s') && inode != 0
    ensures |s'| > 0 && s'[0] == inode
  {
  }

  lemma LiveChain(g: Geometry, d: Disk, t: Tree, chains: Chains, h: nat)
    requires VolOk(g, d, t, chains) && h in chains
    ensures IsChain(Table(g, d, 0), chains[h]) && |chains[h]| > 0 && chains[h][0] == h
  {
  }

  lemma EmptyChain(g: Geometry, d: Disk, t: Tree, chains: Chains)
    requires VolOk(g, d, t, chains)
    ensures ChainOf(chains, 0) == []
  {
  }

  /** Find the entry by name once more and patch its size and first cluster. */
  method FlushDirent(
    v: Volume, x: nat, target: Name, size: nat, first: nat, ghost s: seq<nat>, ghost slots: seq<Slot>, ghost i: nat)
    requires v.Ready() && Clusters(v.g, s) && Distinct(s)
    requires if x == 0 then !v.g.isFat32 else IsChain(v.T(), s) && s[0] == x
    requires slots == SlotsOf(DirBytes(v.g, v.disk, x, s)) && DirOk(slots)
    requires ProperName(target) && Named(slots, target, i)
    modifies v
    ensures v.Ready() && OnlyDirChanged(v.g, old(v.disk), v.disk, x, s)
    ensures SlotsOf(DirBytes(v.g, v.disk, x, s)) == slots[i := Patched(slots[i], first, size)]
  {
    hide Table, Contents, Next, DirBytes, SlotsOf, StopAt, Verdict, SlotAt, DirOk, Patched, OnlyDirChanged;
    MatchFinds(slots, target);
    var rc, lba, off := WalkDir(v, x, Match, target, s);
    assert rc == 1;
    SlotRead(v.g, v.disk, x, s, i, lba, off);
    var e: Slot := v.disk[lba][off..off + 32];
    var patched := Patched(e, first, size);
    WholeSlot(e, patched);
    PutSlotBytes(v, x, lba, off, 0, patched, s, i);
  }

  lemma WholeSlot(e: Slot, p: Slot)
    ensures Overwrite(e, 0, p) == p
  {
  }

  /** Writing a file of the volume leaves directory x readable as it was. */
  lemma DirAfterWrite(g: Geometry, d: Disk, d1: Disk, t: Tree, chains: Chains, x: nat, i: nat, s': seq<nat>)
    requires VolOk(g, d, t, chains) && g.Fits(d1) && FileAt(t, x, i)
    requires Extended(g, d, d1, ChainOf(chains, FirstOf(t.dirs[x][i])), s')
    ensures Clusters(g, ChainOf(chains, x)) && Distinct(ChainOf(chains, x)) && DirOk(t.dirs[x])
    ensures if x == 0 then !g.isFat32 else IsChain(Table(g, d1, 0), ChainOf(chains, x)) && ChainOf(chains, x)[0] == x
    ensures t.dirs[x] == SlotsOf(DirBytes(g, d1, x, ChainOf(chains, x)))
  {
    hide Table, Contents, Next, DirBytes, SlotsOf, DirOk, FirstOf, IsEntry, IsDir, FilesOk, Points, SizeOf, Kept,
      RootKept, Extended, IsChain;
    var first, s := FirstOf(t.dirs[x][i]), ChainOf(chains, x);
    assert RefOk(t, t.dirs[x][i]);
    DirKind(g, d, t, chains, x);
    if x == 0 {
      ExtendedKeepsRoot(g, d, d1, ChainOf(chains, first), s');
    } else {
      ApartFrom(chains, first, x);
      ExtendedKeeps(g, d, d1, ChainOf(chains, first), s', s);
      KeptChain(g, d, d1, s);
      ChainClusters(g, Table(g, d, 0), s);
      ChainDistinct(Table(g, d, 0), s);
    }
    KeptDir(g, d, d1, x, s);
  }

  lemma SameSlot(e: Slot)
    ensures Patched(e, FirstOf(e), SizeOf(e)) == e
    ensures FirstOf(e) < 0x1_0000_0000 && SizeOf(e) < 0x1_0000_0000
  {
    BytesRoundTrip(e[26], e[27], e[20], e[21]);
    BytesRoundTrip(e[28], e[29], e[30], e[31]);
  }

  /** A failed write may have grown the chain; nothing else shows. */
  lemma FailedWriteOk(g: Geometry, d: Disk, d1: Disk, t: Tree, chains: Chains, x: nat, i: nat, s': seq<nat>)
    requires VolOk(g, d, t, chains) && g.Fits(d1) && FileAt(t, x, i) && FirstOf(t.dirs[x][i]) != 0
    requires Extended(g, d, d1, ChainOf(chains, FirstOf(t.dirs[x][i])), s') && |s'| > 0
    requires s'[0] == FirstOf(t.dirs[x][i])
    requires FileChain(g, d1, s'[0], SizeOf(t.dirs[x][i]), s')
    requires EntryChain(g, d, t.dirs[x][i], chains)
    requires Clusters(g, s') && SizeOf(t.dirs[x][i]) <= Times(|s'|, g.BytesPerCluster())
    requires FileBytes(g, d1, SizeOf(t.dirs[x][i]), s') == BytesOf(g, d, t.dirs[x][i], chains)
    ensures VolOk(g, d1, t, chains[s'[0] := s'])
    ensures SameFiles(g, d, d1, t, t, chains, chains[s'[0] := s'], {})
  {
    hide Table, Contents, Next, DirBytes, SlotsOf, DirOk, FirstOf, IsEntry, IsDir, FilesOk, Points, SizeOf, Kept,
      RootKept, Extended, IsChain, Patched, FileChain, TreeOk, BytesOf, VolOk;
    var e := t.dirs[x][i];
    SameSlot(e);
    DirAfterWrite(g, d, d1, t, chains, x, i, s');
    assert t.dirs[x][i := e] == t.dirs[x];
    assert OnlyDirChanged(g, d1, d1, x, ChainOf(chains, x));
    WriteOk(g, d, d1, d1, t, chains, x, i, s', SizeOf(e));
    HeadThere(g, d, t, chains, x, i);
    assert WrittenTree(t, x, i, s'[0], SizeOf(e)) == t;
    SameFilesAlso(g, d, d1, t, chains, chains[s'[0] := s'], x, i);
  }

  lemma HeadThere(g: Geometry, d: Disk, t: Tree, chains: Chains, x: nat, i: nat)
    requires VolOk(g, d, t, chains) && FileAt(t, x, i) && FirstOf(t.dirs[x][i]) != 0
    ensures FirstOf(t.dirs[x][i]) in t.heads
  {
    assert RefOk(t, t.dirs[x][i]);
  }

  lemma SameFilesAlso(g: Geometry, d: Disk, d1: Disk, t: Tree, chains: Chains, chains': Chains, x: nat, i: nat)
    requires VolOk(g, d, t, chains) && VolOk(g, d1, t, chains')
    requires SameFiles(g, d, d1, t, t, chains, chains', {(x, i)}) && FileAt(t, x, i)
    requires BytesOf(g, d1, t.dirs[x][i], chains') == BytesOf(g, d, t.dirs[x][i], chains)
    ensures SameFiles(g, d, d1, t, t, chains, chains', {})
  {
    hide BytesOf, EntryChain, Table, DirBytes, TreeOk;
  }

  lemma OpenChain(g: Geometry, d: Disk, e: Slot, chains: Chains)
    requires g.Valid() && g.Fits(d) && EntryChain(g, d, e, chains)
    ensures FileChain(g, d, FirstOf(e), SizeOf(e), ChainOf(chains, FirstOf(e)))
  {
  }

  lemma LookupVerdict(slots: seq<Slot>, target: Name, i: nat)
    requires i == StopAt(Lookup, target, slots)
    requires i < |slots| ==> Verdict(Lookup, target, slots[i]) != 1
    requires forall j: nat :: Named(slots, target, j) && !IsLabel(slots[j]) ==>
      j == i && Verdict(Lookup, target, slots[i]) == 1
    ensures forall j: nat :: Named(slots, target, j) ==> IsLabel(slots[j])
  {
  }

  /** Exactly the entries of the chain became free. */
  ghost predicate Released(t: seq<nat>, t': seq<nat>, s: seq<nat>) {
    |t'| == |t| && forall c :: 0 <= c < |t| ==> t'[c] == if c in s then 0 else t[c]
  }

  lemma ReleasedTable(g: Geometry, d: Disk, d1: Disk, d2: Disk, x: nat, k: seq<nat>, s: seq<nat>)
    requires g.Valid() && g.Fits(d) && g.Fits(d1) && g.Fits(d2) && Freed(g, d, d1, s) && OnlyDirChanged(g, d1, d2, x, k)
    requires Clusters(g, k) && (x == 0 ==> !g.isFat32)
    ensures Released(Table(g, d, 0), Table(g, d2, 0), s)
  {
    DirChangeTables(g, d1, d2, x, k);
  }

  lemma FullKept(g: Geometry, d: Disk, d': Disk, x: nat, s: seq<nat>)
    requires g.Valid() && g.Fits(d) && g.Fits(d') && OnlyDirChanged(g, d, d', x, s)
    requires Clusters(g, s) && (x == 0 ==> !g.isFat32)
    ensures Full(g, d) ==> Full(g, d')
  {
    hide Table;
    DirChangeTables(g, d, d', x, s);
  }

  lemma NoFileNamed(t: Tree, x: nat, target: Name)
    requires x in t.dirs && forall j: nat :: Named(t.dirs[x], target, j) ==> IsLabel(t.dirs[x][j])
    ensures forall j: nat :: Named(t.dirs[x], target, j) ==> !FileAt(t, x, j)
  {
  }

  lemma WrittenName(t: Tree, x: nat, i: nat, inode: nat, size: nat, target: Name)
    requires FileAt(t, x, i) && Named(t.dirs[x], target, i) && inode < 0x1_0000_0000 && size < 0x1_0000_0000
    ensures var t' := WrittenTree(t, x, i, inode, size);
      && x in t'.dirs && i < |t'.dirs[x]| && t'.dirs[x][i] == Patched(t.dirs[x][i], inode, size)
      && Named(t'.dirs[x], target, i) && FileAt(t', x, i)
  {
    hide FirstOf, SizeOf, Patched, IsLabel;
    PatchedFields(t.dirs[x][i], inode, size);
  }

  lemma Unchanged(g: Geometry, d: Disk, t: Tree, chains: Chains)
    requires VolOk(g, d, t, chains)
    ensures SameFiles(g, d, d, t, t, chains, chains, {})
  {
  }

  lemma MatchVerdict(slots: seq<Slot>, target: Name, i: nat)
    requires i == StopAt(Match, target, slots)
    requires i < |slots| ==> Verdict(Match, target, slots[i]) != 1
    requires forall j: nat :: Named(slots, target, j) ==> j == i && Verdict(Match, target, slots[i]) == 1
    ensures forall j: nat :: !Named(slots, target, j)
  {
  }

  /** What an entry found by name refers to. */
  lemma RefersTo(g: Geometry, d: Disk, t: Tree, chains: Chains, x: nat, i: nat, target: Name)
    requires VolOk(g, d, t, chains) && x in t.dirs && Named(t.dirs[x], target, i) && ProperName(target)
    ensures IsLive(t.dirs[x][i]) && !IsDot(t.dirs[x][i])
    ensures FirstOf(t.dirs[x][i]) == 0 || (FirstOf(t.dirs[x][i]) >= 2 && FirstOf(t.dirs[x][i]) in chains)
  {
    hide Table, FirstOf, DirBytes, SlotsOf;
    var e := t.dirs[x][i];
    assert NameOf(e)[0] == e[0];
    if IsLabel(e) {
      assert FirstOf(e) == 0;
    } else {
      assert RefOk(t, e);
    }
  }

  lemma ChainFreed(g: Geometry, d: Disk, d1: Disk, t: Tree, chains: Chains, first: nat, t0: seq<nat>)
    requires VolOk(g, d, t, chains) && g.Fits(d1) && t0 == Table(g, d, 0)
    requires first == 0 || (first >= 2 && first in chains)
    requires first == 0 ==> d1 == d
    requires first >= 2 ==>
      && |d1| == |d| && (forall l :: 0 <= l < |d| && !g.InFat(l) ==> d1[l] == d[l])
      && (forall f, c :: 0 <= f < g.numFats && 0 <= c < g.totalClusters + 2 ==>
            Table(g, d1, f)[c] == if Reachable(t0, first, c) then 0 else Table(g, d, f)[c])
    ensures Freed(g, d, d1, ChainOf(chains, first))
  {
    hide Table, Next, Reachable, VolOk, IsChain;
    if first >= 2 {
      LiveChain(g, d, t, chains, first);
      ChainIsReach(t0, chains[first]);
    } else {
      EmptyChain(g, d, t, chains);
    }
  }

  /** Freeing a chain does not touch the bytes of a directory. */
  lemma FreedDir(g: Geometry, d: Disk, d1: Disk, x: nat, first: nat, t: Tree, chains: Chains)
    requires VolOk(g, d, t, chains) && g.Fits(d1) && x in t.dirs && Freed(g, d, d1, ChainOf(chains, first))
    ensures Clusters(g, ChainOf(chains, x)) && (x == 0 ==> !g.isFat32)
    ensures DirBytes(g, d1, x, ChainOf(chains, x)) == DirBytes(g, d, x, ChainOf(chains, x))
  {
    hide Table, Next, IsChain, SlotsOf, Contents, FilesOk, RegionBytes, ChainsOk;
    DirKind(g, d, t, chains, x);
    FreedMirrored(g, d, d1, ChainOf(chains, first));
    if x == 0 {
      KeptDir(g, d, d1, x, ChainOf(chains, x));
    } else {
      var s := ChainOf(chains, x);
      forall j | 0 <= j < |s| ensures SameCluster(g, d, d1, s[j]) {
        ClusterPlace(g, s[j]);
      }
      SameContents(g, d, d1, s);
    }
  }

  lemma DeletedBytes(e: Slot)
    ensures Overwrite(e, 0, [0xE5]) == e[0 := 0xE5]
  {
  }
}
