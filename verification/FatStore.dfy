/**
 What a volume holds, with the clusters, slots and sectors left out: the bytes of
 every file and the subdirectories, by directory and name. The driver's operations
 are steps on this store.
 */
module FatStore {
  import opened Arith
  import opened Octets
  import opened FatLayout
  import opened FatTable
  import opened FatVolume
  import opened FatFile
  import opened FatIo
  import opened FatSlots
  import opened FatDir
  import opened FatFs
  import opened FatOps

  /** A name in a directory. */
  type Key = (nat, Name)

  datatype Store = Store(files: imap<Key, seq<byte>>, dirs: imap<Key, nat>)

  ghost function StoreOf(g: Geometry, d: Disk, t: Tree, chains: Chains): (s: Store)
    requires VolOk(g, d, t, chains)
  {
    Store(
      imap k: Key | HasFile(t, k) :: FileOf(g, d, t, chains, k),
      imap k: Key | HasSubdir(t, k) :: SubdirOf(t, k))
  }

  ghost predicate IsFileNamed(t: Tree, k: Key, i: nat) {
    FileAt(t, k.0, i) && NameOf(t.dirs[k.0][i]) == k.1
  }

  ghost predicate HasFile(t: Tree, k: Key) { exists i: nat :: IsFileNamed(t, k, i) }

  ghost function FileOf(g: Geometry, d: Disk, t: Tree, chains: Chains, k: Key): seq<byte>
    requires VolOk(g, d, t, chains) && HasFile(t, k)
  {
    var i: nat :| IsFileNamed(t, k, i);
    FileReady(g, d, t, chains, k.0, i);
    BytesOf(g, d, t.dirs[k.0][i], chains)
  }

  ghost predicate IsSubdir(t: Tree, k: Key, i: nat) {
    k.0 in t.dirs && Named(t.dirs[k.0], k.1, i) && IsEntry(t.dirs[k.0][i]) && IsDir(t.dirs[k.0][i])
  }

  ghost predicate HasSubdir(t: Tree, k: Key) { exists i: nat :: IsSubdir(t, k, i) }

  ghost function SubdirOf(t: Tree, k: Key): nat
    requires HasSubdir(t, k)
  {
    var i: nat :| IsSubdir(t, k, i); FirstOf(t.dirs[k.0][i])
  }

  lemma FileReady(g: Geometry, d: Disk, t: Tree, chains: Chains, x: nat, i: nat)
    requires VolOk(g, d, t, chains) && FileAt(t, x, i)
    ensures EntryChain(g, d, t.dirs[x][i], chains)
  {
  }

  lemma NamedOnce(slots: seq<Slot>, target: Name, i: nat)
    requires DirOk(slots) && Named(slots, target, i)
    ensures forall j: nat :: Named(slots, target, j) ==> j == i
  {
  }

  // ----- reading the store off the slots -----

  lemma FileInStore(g: Geometry, d: Disk, t: Tree, chains: Chains, k: Key, i: nat)
    requires VolOk(g, d, t, chains) && IsFileNamed(t, k, i)
    ensures k in StoreOf(g, d, t, chains).files && k !in StoreOf(g, d, t, chains).dirs
    ensures EntryChain(g, d, t.dirs[k.0][i], chains)
    ensures StoreOf(g, d, t, chains).files[k] == BytesOf(g, d, t.dirs[k.0][i], chains)
  {
    hide VolOk, BytesOf, EntryChain, DirOk, IsFileNamed, IsSubdir;
    FileDir(t, k, i);
    DirSlots(g, d, t, chains, k.0);
    FileReady(g, d, t, chains, k.0, i);
    OneFile(t, k, i);
  }

  lemma FileDir(t: Tree, k: Key, i: nat)
    requires IsFileNamed(t, k, i)
    ensures k.0 in t.dirs && FileAt(t, k.0, i)
  {
  }

  lemma SubdirKey(t: Tree, k: Key, i: nat)
    requires IsSubdir(t, k, i)
    ensures k.0 in t.dirs && i < |t.dirs[k.0]|
  {
  }

  lemma OneFile(t: Tree, k: Key, i: nat)
    requires IsFileNamed(t, k, i) && DirOk(t.dirs[k.0])
    ensures k.0 in t.dirs && i < |t.dirs[k.0]|
    ensures (forall j: nat :: IsFileNamed(t, k, j) ==> j == i) && !HasSubdir(t, k)
  {
    hide DirOk, NameOf, IsDir, IsLabel;
    NamedOnce(t.dirs[k.0], k.1, i);
    assert forall j: nat :: IsFileNamed(t, k, j) ==> Named(t.dirs[k.0], k.1, j);
  }

  lemma OneSubdir(t: Tree, k: Key, i: nat)
    requires IsSubdir(t, k, i) && DirOk(t.dirs[k.0])
    ensures k.0 in t.dirs && i < |t.dirs[k.0]|
    ensures (forall j: nat :: IsSubdir(t, k, j) ==> j == i) && !HasFile(t, k)
  {
    hide DirOk, NameOf, IsDir, IsLabel;
    NamedOnce(t.dirs[k.0], k.1, i);
    assert forall j: nat :: IsFileNamed(t, k, j) ==> Named(t.dirs[k.0], k.1, j);
  }

  /** Files are shorter than 2^32 bytes. */
  lemma FileShort(g: Geometry, d: Disk, t: Tree, chains: Chains, k: Key)
    requires VolOk(g, d, t, chains) && k in StoreOf(g, d, t, chains).files
    ensures |StoreOf(g, d, t, chains).files[k]| < W32
  {
    hide VolOk, IsFileNamed;
    var i: nat :| IsFileNamed(t, k, i);
    FileDir(t, k, i);
    FileInStore(g, d, t, chains, k, i);
    VolParts(g, d, t, chains);
    BytesShort(g, d, t.dirs[k.0][i], chains);
  }

  lemma BytesShort(g: Geometry, d: Disk, e: Slot, chains: Chains)
    requires g.Valid() && g.Fits(d) && EntryChain(g, d, e, chains)
    ensures |BytesOf(g, d, e, chains)| == SizeOf(e) < W32
  {
    hide Contents, Table, IsChain;
    FileChainClusters(g, d, FirstOf(e), SizeOf(e), ChainOf(chains, FirstOf(e)));
  }

  lemma DirInStore(g: Geometry, d: Disk, t: Tree, chains: Chains, k: Key, i: nat)
    requires VolOk(g, d, t, chains) && IsSubdir(t, k, i)
    ensures k in StoreOf(g, d, t, chains).dirs && k !in StoreOf(g, d, t, chains).files
    ensures StoreOf(g, d, t, chains).dirs[k] == FirstOf(t.dirs[k.0][i])
  {
    hide VolOk, BytesOf, EntryChain, DirOk, IsFileNamed, IsSubdir, FirstOf;
    SubdirKey(t, k, i);
    DirSlots(g, d, t, chains, k.0);
    OneSubdir(t, k, i);
  }

  lemma DirSlots(g: Geometry, d: Disk, t: Tree, chains: Chains, x: nat)
    requires VolOk(g, d, t, chains) && x in t.dirs
    ensures DirOk(t.dirs[x])
  {
  }

  lemma NotNamed(g: Geometry, d: Disk, t: Tree, chains: Chains, k: Key)
    requires VolOk(g, d, t, chains)
    requires k.0 in t.dirs ==> forall j: nat :: Named(t.dirs[k.0], k.1, j) ==> !IsEntry(t.dirs[k.0][j])
    ensures k !in StoreOf(g, d, t, chains).files && k !in StoreOf(g, d, t, chains).dirs
  {
    hide VolOk, BytesOf, EntryChain, NameOf, FirstOf, IsDir, IsLabel;
    assert forall j: nat :: IsFileNamed(t, k, j) ==> Named(t.dirs[k.0], k.1, j);
  }

  // ----- steps that leave all entries but one alone -----

  ghost predicate EntryAt(t: Tree, y: nat, j: nat) { y in t.dirs && j < |t.dirs[y]| && IsEntry(t.dirs[y][j]) }

  /** Slot i is the entry of a name. */
  ghost predicate EntryNamed(t: Tree, k: Key, i: nat) { EntryAt(t, k.0, i) && NameOf(t.dirs[k.0][i]) == k.1 }

  ghost predicate SameEntry(t: Tree, t': Tree, y: nat, j: nat) {
    && (EntryAt(t, y, j) <==> EntryAt(t', y, j))
    && (EntryAt(t, y, j) ==> t'.dirs[y][j] == t.dirs[y][j])
  }

  /** The trees have the same entries, slot by slot, except perhaps at slot i of directory x. */
  ghost predicate SameEntries(t: Tree, t': Tree, x: nat, i: nat) {
    forall y: nat, j: nat :: !(y == x && j == i) ==> SameEntry(t, t', y, j)
  }

  lemma WrittenEntries(t: Tree, x: nat, i: nat, inode: nat, size: nat)
    requires x in t.dirs && i < |t.dirs[x]|
    ensures SameEntries(t, WrittenTree(t, x, i, inode, size), x, i)
  {
    hide Patched, IsEntry;
  }

  /** Both trees have the same entries everywhere. */
  ghost predicate EqualEntries(t: Tree, t': Tree) {
    forall y: nat, j: nat :: SameEntry(t, t', y, j)
  }

  /** A new directory without entries. */
  lemma NewDirEntries(t: Tree, c: nat, slots: seq<Slot>)
    requires c !in t.dirs && forall i :: 0 <= i < |slots| ==> !IsEntry(slots[i])
    ensures EqualEntries(t, WithDir(t, c, slots))
  {
    hide IsEntry;
  }

  lemma FileIsNamed(t: Tree, x: nat, i: nat, target: Name)
    requires FileAt(t, x, i) && Named(t.dirs[x], target, i)
    ensures IsFileNamed(t, (x, target), i)
  {
  }

  /** The name of slot i of directory x is k, if an entry is there. */
  ghost predicate OnlyName(t: Tree, x: nat, i: nat, k: Key) {
    k.0 == x && (EntryAt(t, x, i) ==> NameOf(t.dirs[x][i]) == k.1)
  }

  /** Other names keep their file and their directory. */
  lemma OtherKey(
    g: Geometry, d: Disk, d': Disk, t: Tree, t': Tree, c: Chains, c': Chains, x: nat, i: nat, k: Key, q: Key)
    requires VolOk(g, d, t, c) && VolOk(g, d', t', c') && SameEntries(t, t', x, i)
    requires SameFiles(g, d, d', t, t', c, c', {(x, i)})
    requires OnlyName(t, x, i, k) && OnlyName(t', x, i, k) && q != k
    ensures var s, s' := StoreOf(g, d, t, c), StoreOf(g, d', t', c');
      && (q in s.files <==> q in s'.files) && (q in s.files ==> s'.files[q] == s.files[q])
      && (q in s.dirs <==> q in s'.dirs) && (q in s.dirs ==> s'.dirs[q] == s.dirs[q])
  {
    hide VolOk, BytesOf, EntryChain, NameOf, FirstOf, IsDir, IsLabel, StoreOf, SameEntries;
    if j: nat :| EntryNamed(t, q, j) {
      KeptEntry(t, t', x, i, q.0, j);
      EntryInStore(g, d, t, c, q, j);
      EntryInStore(g, d', t', c', q, j);
    } else {
      forall j: nat | EntryNamed(t', q, j) ensures EntryNamed(t, q, j) {
        KeptEntry(t, t', x, i, q.0, j);
      }
      NoEntry(g, d, t, c, q);
      NoEntry(g, d', t', c', q);
    }
  }

  lemma KeptEntry(t: Tree, t': Tree, x: nat, i: nat, y: nat, j: nat)
    requires SameEntries(t, t', x, i) && !(y == x && j == i)
    ensures SameEntry(t, t', y, j)
  {
  }

  lemma EntryInStore(g: Geometry, d: Disk, t: Tree, chains: Chains, k: Key, i: nat)
    requires VolOk(g, d, t, chains) && EntryNamed(t, k, i)
    ensures var s, e := StoreOf(g, d, t, chains), t.dirs[k.0][i];
      if IsDir(e) then k in s.dirs && k !in s.files && s.dirs[k] == FirstOf(e)
      else k in s.files && k !in s.dirs && EntryChain(g, d, e, chains) && s.files[k] == BytesOf(g, d, e, chains)
  {
    hide VolOk, BytesOf, EntryChain, NameOf, FirstOf, IsDir, IsLabel, StoreOf;
    if IsDir(t.dirs[k.0][i]) {
      DirInStore(g, d, t, chains, k, i);
    } else {
      FileInStore(g, d, t, chains, k, i);
    }
  }

  lemma NoEntry(g: Geometry, d: Disk, t: Tree, chains: Chains, k: Key)
    requires VolOk(g, d, t, chains)
    requires !exists j: nat :: EntryNamed(t, k, j)
    ensures k !in StoreOf(g, d, t, chains).files && k !in StoreOf(g, d, t, chains).dirs
  {
    hide VolOk, BytesOf, EntryChain, NameOf, FirstOf, IsDir, IsLabel, StoreOf, IsEntry;
    if k.0 in t.dirs {
      forall j: nat | Named(t.dirs[k.0], k.1, j) ensures !IsEntry(t.dirs[k.0][j]) {
        assert !EntryNamed(t, k, j);
      }
    }
    NotNamed(g, d, t, chains, k);
  }

  /** Replacing the bytes of one file. */
  lemma WrittenStore(
    g: Geometry, d: Disk, d': Disk, t: Tree, t': Tree, c: Chains, c': Chains, x: nat, i: nat, target: Name)
    requires VolOk(g, d, t, c) && VolOk(g, d', t', c') && SameEntries(t, t', x, i)
    requires SameFiles(g, d, d', t, t', c, c', {(x, i)})
    requires IsFileNamed(t, (x, target), i) && IsFileNamed(t', (x, target), i)
    ensures EntryChain(g, d, t.dirs[x][i], c) && EntryChain(g, d', t'.dirs[x][i], c')
    ensures var s, s' := StoreOf(g, d, t, c), StoreOf(g, d', t', c');
      && (x, target) in s.files && s.files[(x, target)] == BytesOf(g, d, t.dirs[x][i], c)
      && s' == s.(files := s.files[(x, target) := BytesOf(g, d', t'.dirs[x][i], c')])
  {
    hide VolOk, BytesOf, EntryChain, NameOf, FirstOf, IsDir, IsLabel, StoreOf, SameEntries, SameFiles;
    var k: Key := (x, target);
    FileInStore(g, d, t, c, k, i);
    FileInStore(g, d', t', c', k, i);
    OtherKeys(g, d, d', t, t', c, c', x, i, k);
    SameButOne(StoreOf(g, d, t, c), StoreOf(g, d', t', c'), k);
  }

  /** Adding one entry under a name that was not there. */
  lemma CreatedStore(
    g: Geometry, d: Disk, d': Disk, t: Tree, t': Tree, c: Chains, c': Chains, x: nat, i: nat, target: Name)
    requires VolOk(g, d, t, c) && VolOk(g, d', t', c') && SameEntries(t, t', x, i)
    requires SameFiles(g, d, d', t, t', c, c', {(x, i)}) && !EntryAt(t, x, i)
    requires x in t.dirs && forall j: nat :: !Named(t.dirs[x], target, j)
    requires EntryAt(t', x, i) && NameOf(t'.dirs[x][i]) == target
    requires IsFile(t'.dirs[x][i]) ==> FirstOf(t'.dirs[x][i]) == 0
    ensures var s, s', k, e := StoreOf(g, d, t, c), StoreOf(g, d', t', c'), (x, target), t'.dirs[x][i];
      && k !in s.files && k !in s.dirs
      && s' == if IsDir(e) then s.(dirs := s.dirs[k := FirstOf(e)]) else s.(files := s.files[k := []])
  {
    hide VolOk, BytesOf, EntryChain, NameOf, FirstOf, IsDir, IsLabel, StoreOf, SameEntries, SameFiles;
    var k: Key := (x, target);
    NotNamed(g, d, t, c, k);
    EntryInStore(g, d', t', c', k, i);
    if !IsDir(t'.dirs[x][i]) {
      VolParts(g, d', t', c');
      EmptyFile(g, d', t'.dirs[x][i], c');
    }
    OtherKeys(g, d, d', t, t', c, c', x, i, k);
    SameButOne(StoreOf(g, d, t, c), StoreOf(g, d', t', c'), k);
  }

  lemma VolParts(g: Geometry, d: Disk, t: Tree, chains: Chains)
    requires VolOk(g, d, t, chains)
    ensures g.Valid() && g.Fits(d)
  {
  }

  ghost predicate AgreeAt(s: Store, s': Store, q: Key) {
    && (q in s.files <==> q in s'.files) && (q in s.files ==> s'.files[q] == s.files[q])
    && (q in s.dirs <==> q in s'.dirs) && (q in s.dirs ==> s'.dirs[q] == s.dirs[q])
  }

  lemma OtherKeys(g: Geometry, d: Disk, d': Disk, t: Tree, t': Tree, c: Chains, c': Chains, x: nat, i: nat, k: Key)
    requires VolOk(g, d, t, c) && VolOk(g, d', t', c') && SameEntries(t, t', x, i)
    requires SameFiles(g, d, d', t, t', c, c', {(x, i)}) && OnlyName(t, x, i, k) && OnlyName(t', x, i, k)
    ensures forall q: Key :: q != k ==> AgreeAt(StoreOf(g, d, t, c), StoreOf(g, d', t', c'), q)
  {
    hide VolOk, SameEntries, SameFiles, OnlyName, StoreOf;
    forall q: Key | q != k ensures AgreeAt(StoreOf(g, d, t, c), StoreOf(g, d', t', c'), q) {
      OtherKey(g, d, d', t, t', c, c', x, i, k, q);
    }
  }

  /** Two stores that agree but for one name. */
  lemma SameButOne(s: Store, s': Store, k: Key)
    requires forall q: Key :: q != k ==> AgreeAt(s, s', q)
    ensures k in s'.files ==> s'.files == s.files[k := s'.files[k]]
    ensures k in s'.dirs ==> s'.dirs == s.dirs[k := s'.dirs[k]]
    ensures k !in s.files && k !in s'.files ==> s'.files == s.files
    ensures k !in s.dirs && k !in s'.dirs ==> s'.dirs == s.dirs
  {
    forall q: Key | q != k
      ensures (q in s.files <==> q in s'.files) && (q in s.files ==> s'.files[q] == s.files[q])
      ensures (q in s.dirs <==> q in s'.dirs) && (q in s.dirs ==> s'.dirs[q] == s.dirs[q])
    {
      assert AgreeAt(s, s', q);
    }
    MapsButOne(s.files, s'.files, k);
    MapsButOne(s.dirs, s'.dirs, k);
  }

  lemma MapsButOne<V>(m: imap<Key, V>, m': imap<Key, V>, k: Key)
    requires forall q: Key :: q != k ==> (q in m <==> q in m') && (q in m ==> m'[q] == m[q])
    ensures k in m' ==> m' == m[k := m'[k]]
    ensures k !in m && k !in m' ==> m' == m
  {
  }

  /** The tree stayed, and so did the bytes of every file. */
  lemma SameStore(g: Geometry, d: Disk, d': Disk, t: Tree, c: Chains, c': Chains)
    requires VolOk(g, d, t, c) && VolOk(g, d', t, c') && SameFiles(g, d, d', t, t, c, c', {})
    ensures StoreOf(g, d', t, c') == StoreOf(g, d, t, c)
  {
    hide VolOk, BytesOf, EntryChain, NameOf, FirstOf, IsDir, IsLabel, IsEntry;
    var s, s' := StoreOf(g, d, t, c), StoreOf(g, d', t, c');
    forall q: Key | q in s.files ensures s'.files[q] == s.files[q] {
      var j: nat :| IsFileNamed(t, q, j);
      FileInStore(g, d, t, c, q, j);
      FileInStore(g, d', t, c', q, j);
    }
    assert s'.files == s.files;
  }

  // ----- removing -----

  /** The store without a name, and without what the directory of that name held. */
  ghost function Without(s: Store, k: Key): (r: Store) {
    Store(
      imap q: Key | q in s.files && Stays(s, k, q) :: s.files[q],
      imap q: Key | q in s.dirs && Stays(s, k, q) :: s.dirs[q])
  }

  ghost predicate Stays(s: Store, k: Key, q: Key) { q != k && !(k in s.dirs && q.0 == s.dirs[k]) }

  lemma NothingRemoved(s: Store, k: Key)
    requires k !in s.files && k !in s.dirs
    ensures Without(s, k) == s
  {
    assert Without(s, k).files == s.files && Without(s, k).dirs == s.dirs;
  }

  /** The entries that a removal leaves. */
  lemma RemovedEntry(t: Tree, x: nat, i: nat, y: nat, j: nat)
    requires x in t.dirs && i < |t.dirs[x]|
    ensures var e, t' := t.dirs[x][i], Removed(t, x, i);
      && (EntryAt(t', y, j) <==> EntryAt(t, y, j) && !(y == x && j == i) && !(FirstOf(e) != 0 && y == FirstOf(e)))
      && (EntryAt(t', y, j) ==> t'.dirs[y][j] == t.dirs[y][j])
  {
    DeletedSlot(t.dirs[x][i]);
    hide IsEntry, FirstOf;
  }

  /** A removed entry other than a directory takes no directory with it. */
  lemma GoneDir(g: Geometry, d: Disk, t: Tree, chains: Chains, k: Key, i: nat, y: nat)
    requires VolOk(g, d, t, chains) && y in t.dirs && k.0 in t.dirs && Named(t.dirs[k.0], k.1, i) && ProperName(k.1)
    ensures var s, e := StoreOf(g, d, t, chains), t.dirs[k.0][i];
      FirstOf(e) != 0 && y == FirstOf(e) <==> k in s.dirs && y == s.dirs[k]
  {
    var e := t.dirs[k.0][i];
    assert NameOf(e)[0] == e[0];
    DirSlots(g, d, t, chains, k.0);
    if IsEntry(e) {
      assert RefOk(t, e);
      assert IsDir(e) ==> FirstOf(e) in t.heads && 0 !in t.heads;
      hide VolOk, BytesOf, EntryChain, NameOf, FirstOf, IsLabel, StoreOf, IsDir;
      EntryInStore(g, d, t, chains, k, i);
    } else {
      assert IsLabel(e) && FirstOf(e) == 0;
      hide VolOk, BytesOf, EntryChain, NameOf, FirstOf, IsLabel, StoreOf, IsDir, DirOk;
      NamedOnce(t.dirs[k.0], k.1, i);
      NotNamed(g, d, t, chains, k);
    }
  }

  lemma RemovedKey(
    g: Geometry, d: Disk, d': Disk, t: Tree, c: Chains, c': Chains, k: Key, i: nat, q: Key)
    requires VolOk(g, d, t, c) && k.0 in t.dirs && Named(t.dirs[k.0], k.1, i) && ProperName(k.1)
    requires VolOk(g, d', Removed(t, k.0, i), c') && SameFiles(g, d, d', t, Removed(t, k.0, i), c, c', {})
    ensures AgreeAt(Without(StoreOf(g, d, t, c), k), StoreOf(g, d', Removed(t, k.0, i), c'), q)
  {
    hide VolOk, BytesOf, EntryChain, NameOf, FirstOf, IsDir, IsLabel, StoreOf, Removed, IsLive, IsDot, DirOk;
    var t' := Removed(t, k.0, i);
    if j: nat :| EntryNamed(t, q, j) {
      RemovedEntry(t, k.0, i, q.0, j);
      GoneDir(g, d, t, c, k, i, q.0);
      DirSlots(g, d, t, c, k.0);
      NamedOnce(t.dirs[k.0], k.1, i);
      EntryIsNamed(t, q, j);
      EntryInStore(g, d, t, c, q, j);
      if EntryAt(t', q.0, j) {
        EntryInStore(g, d', t', c', q, j);
      } else {
        DirSlots(g, d, t, c, q.0);
        GoneEntry(t, k.0, i, q, j);
        NoEntry(g, d', t', c', q);
      }
    } else {
      NoEntry(g, d, t, c, q);
      forall m: nat | EntryNamed(t', q, m) ensures EntryNamed(t, q, m) {
        RemovedEntry(t, k.0, i, q.0, m);
      }
      NoEntry(g, d', t', c', q);
    }
  }

  lemma GoneEntry(t: Tree, x: nat, i: nat, q: Key, j: nat)
    requires x in t.dirs && i < |t.dirs[x]| && EntryNamed(t, q, j) && DirOk(t.dirs[q.0])
    requires !EntryAt(Removed(t, x, i), q.0, j)
    ensures forall m: nat :: !EntryNamed(Removed(t, x, i), q, m)
  {
    hide Removed, DirOk, IsEntry, NameOf, Named;
    EntryIsNamed(t, q, j);
    NamedOnce(t.dirs[q.0], q.1, j);
    forall m: nat | EntryNamed(Removed(t, x, i), q, m) ensures m == j {
      RemovedEntry(t, x, i, q.0, m);
      EntryIsNamed(t, q, m);
    }
  }

  lemma EntryIsNamed(t: Tree, k: Key, i: nat)
    requires EntryNamed(t, k, i)
    ensures Named(t.dirs[k.0], k.1, i)
  {
  }

  lemma RemovedStore(g: Geometry, d: Disk, d': Disk, t: Tree, c: Chains, c': Chains, x: nat, i: nat, target: Name)
    requires VolOk(g, d, t, c) && x in t.dirs && Named(t.dirs[x], target, i) && ProperName(target)
    requires VolOk(g, d', Removed(t, x, i), c') && SameFiles(g, d, d', t, Removed(t, x, i), c, c', {})
    ensures StoreOf(g, d', Removed(t, x, i), c') == Without(StoreOf(g, d, t, c), (x, target))
  {
    hide VolOk, StoreOf, Removed, SameFiles, Without, IsLive, NameOf;
    var k: Key, s, s' := (x, target), Without(StoreOf(g, d, t, c), (x, target)), StoreOf(g, d', Removed(t, x, i), c');
    forall q: Key ensures AgreeAt(s, s', q) {
      RemovedKey(g, d, d', t, c, c', k, i, q);
    }
    SameEverywhere(s, s');
  }

  lemma SameEverywhere(s: Store, s': Store)
    requires forall q: Key :: AgreeAt(s, s', q)
    ensures s' == s
  {
    assert forall q: Key :: q in s.files || q in s'.files ==> AgreeAt(s, s', q);
    assert forall q: Key :: q in s.dirs || q in s'.dirs ==> AgreeAt(s, s', q);
    assert s'.files == s.files && s'.dirs == s.dirs;
  }

  // ----- requests as steps of the store -----

  datatype Action =
    | CreateEntry(isDir: bool)
    | WriteBytes(data: seq<byte>, offset: Word)
    | UnlinkEntry

  /** One request: an action on a name in the directory at a path. */
  datatype Request = Request(path: seq<Name>, name: Name, action: Action)

  /** The directory that a path of names leads to, or -1. */
  ghost function At(s: Store, from: nat, path: seq<Name>): (x: int)
    ensures x >= -1
  {
    if path == [] then from else
    var x, name := At(s, from, path[..|path| - 1]), path[|path| - 1];
    if x >= 0 && (x, name) in s.dirs then s.dirs[(x, name)] else -1
  }

  /** No directory of the store is c. */
  ghost predicate Fresh(s: Store, root: nat, c: nat) {
    && c != root && (forall k :: k in s.files ==> k.0 != c)
    && (forall k :: k in s.dirs ==> k.0 != c && s.dirs[k] != c)
  }

  lemma FreshInStore(g: Geometry, d: Disk, t: Tree, chains: Chains, c: nat)
    requires VolOk(g, d, t, chains) && c !in t.dirs
    ensures Fresh(StoreOf(g, d, t, chains), g.rootCluster, c)
  {
    hide VolOk, FileOf, IsSubdir, IsFileNamed;
    var s := StoreOf(g, d, t, chains);
    RootIsDir(g, d, t, chains);
    forall k | k in s.files ensures k.0 != c {
      var i: nat :| IsFileNamed(t, k, i);
      FileDir(t, k, i);
    }
    forall k | k in s.dirs ensures k.0 != c && s.dirs[k] != c {
      var i: nat :| IsSubdir(t, k, i);
      DirInStore(g, d, t, chains, k, i);
      SubdirIsDir(g, d, t, chains, k, i);
    }
  }

  lemma RootIsDir(g: Geometry, d: Disk, t: Tree, chains: Chains)
    requires VolOk(g, d, t, chains)
    ensures g.rootCluster in t.dirs
  {
  }

  lemma SubdirIsDir(g: Geometry, d: Disk, t: Tree, chains: Chains, k: Key, i: nat)
    requires VolOk(g, d, t, chains) && IsSubdir(t, k, i)
    ensures k.0 in t.dirs && FirstOf(t.dirs[k.0][i]) in t.dirs
  {
    assert RefOk(t, t.dirs[k.0][i]);
  }

  /** An empty file or directory under a name that was not there. */
  ghost predicate Grown(s: Store, s': Store, root: nat, k: Key, isDir: bool) {
    && k !in s.files && k !in s.dirs
    && if isDir then exists c: nat :: Fresh(s, root, c) && s' == s.(dirs := s.dirs[k := c])
       else s' == s.(files := s.files[k := []])
  }

  /** The file of a name with a stretch of its bytes replaced. */
  ghost function Rewritten(s: Store, k: Key, data: seq<byte>, offset: nat): (r: Store)
    requires k in s.files
  {
    s.(files := s.files[k := Spliced(s.files[k], offset, data)])
  }

  /** Writing at the 32-bit position of an offset is writing at the offset if and
      only if the range ends below 2^32. */
  lemma RewrittenAt(s: Store, k: Key, data: seq<byte>, offset: nat)
    requires k in s.files && |s.files[k]| < W32 && Low32(offset) + |data| < W32
    ensures Rewritten(s, k, data, Low32(offset)) == Rewritten(s, k, data, offset) <==> offset + |data| < W32
  {
    hide Low32, Spliced;
    var b := s.files[k];
    if offset + |data| >= W32 {
      assert |Spliced(b, offset, data)| >= W32 > |Spliced(b, Low32(offset), data)|;
      assert Rewritten(s, k, data, offset).files[k] == Spliced(b, offset, data);
      assert Rewritten(s, k, data, Low32(offset)).files[k] == Spliced(b, Low32(offset), data);
    }
  }

  /** The store, and what decides whether a request can be met: whether every
      cluster is taken, and whether the fixed root has no free slot. */
  datatype Moment = Moment(store: Store, full: bool, packed: bool)

  /** What a request with result r does to the store. A create fails only for a name
      that is there, on a full volume or in a packed root; a write fails or stops
      early only without the file or on a full volume, and a failure changes
      nothing; a remove always removes. Bytes go to the 32-bit position of the offset. */
  ghost predicate Does(m: Moment, m': Moment, root: nat, q: Request, r: int) {
    var s, s' := m.store, m'.store;
    var x := At(s, root, q.path);
    if x < 0 then r == -1 && s' == s else
    var k := (x, q.name);
    match q.action
    case CreateEntry(isDir) =>
      if r == 0 then Grown(s, s', root, k, isDir)
      else r == -1 && s' == s && (k in s.files || k in s.dirs || m'.full || (x == 0 && m'.packed))
    case WriteBytes(data, offset) =>
      if r >= 0 then
        && r <= |data| && k in s.files && s' == Rewritten(s, k, data[..r], Low32(offset))
        && (r < |data| ==> m'.full)
      else r == -1 && s' == s && (k !in s.files || m'.full)
    case UnlinkEntry =>
      s' == Without(s, k) && r == if k in s.files || k in s.dirs then 0 else -1
  }
}
