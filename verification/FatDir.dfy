/**
 Directories on disk: the walk over their sectors and the read-modify-write of
 one slot, proved against the sequence of slots a directory stands for.
 */
module FatDir {
  import opened Octets
  import opened Arith
  import opened FatLayout
  import opened FatTable
  import opened FatVolume
  import opened FatFile
  import opened FatSlots
  import opened Seqs

  // ----- slots as a view of bytes -----

  function SlotsOf(b: seq<byte>): (r: seq<Slot>)
    ensures |r| == |b| / 32
  {
    seq(|b| / 32, i requires 0 <= i < |b| / 32 => b[32 * i..32 * i + 32])
  }

  lemma SlotsConcat(a: seq<byte>, b: seq<byte>)
    requires |a| % 32 == 0
    ensures SlotsOf(a + b) == SlotsOf(a) + SlotsOf(b)
  {
    forall i | 0 <= i < |SlotsOf(a + b)| ensures SlotsOf(a + b)[i] == (SlotsOf(a) + SlotsOf(b))[i] {
      if i >= |a| / 32 {
        assert SlotsOf(b)[i - |a| / 32] == b[32 * (i - |a| / 32)..32 * (i - |a| / 32) + 32];
      }
    }
  }

  /** Overwriting inside one slot's bytes changes that slot only. */
  lemma SlotsOverwritten(b: seq<byte>, i: nat, at: nat, x: seq<byte>)
    requires i < |b| / 32 && at + |x| <= 32
    ensures SlotsOf(Overwrite(b, 32 * i + at, x)) == SlotsOf(b)[i := Overwrite(SlotsOf(b)[i], at, x)]
  {
    var b' := Overwrite(b, 32 * i + at, x);
    forall k | 0 <= k < |b| / 32 ensures SlotsOf(b')[k] == SlotsOf(b)[i := Overwrite(SlotsOf(b)[i], at, x)][k] {
    }
  }

  lemma ZeroSlots(b: seq<byte>)
    requires forall k :: 0 <= k < |b| ==> b[k] == 0
    ensures |SlotsOf(b)| == |b| / 32 && DirOk(SlotsOf(b))
    ensures forall i :: 0 <= i < |b| / 32 ==>
      IsEnd(SlotsOf(b)[i]) && !IsLongName(SlotsOf(b)[i]) && !IsLive(SlotsOf(b)[i])
  {
    var s := SlotsOf(b);
    forall i | 0 <= i < |s| ensures s[i][0] == 0 && s[i][11] == 0 {
      assert s[i] == b[32 * i..32 * i + 32];
    }
  }

  // ----- consecutive sectors -----

  function RegionBytes(d: Disk, lba: nat, n: nat): (b: seq<byte>)
    requires lba + n <= |d|
    ensures |b| == n * 512
    ensures forall k :: 0 <= k < |b| ==> b[k] == d[lba + k / 512][k % 512]
  {
    seq(n * 512, k requires 0 <= k < n * 512 => d[lba + k / 512][k % 512])
  }

  lemma ClusterIsRegion(g: Geometry, d: Disk, c: nat)
    requires g.Valid() && g.Fits(d) && g.InRange(c)
    ensures g.ClusterLba(c) + g.sectorsPerCluster <= |d|
    ensures ClusterBytes(g, d, c) == RegionBytes(d, g.ClusterLba(c), g.sectorsPerCluster)
  {
    ClusterPlace(g, c);
    forall k | 0 <= k < g.BytesPerCluster() ensures Quot(k, 512) == k / 512 && Rem(k, 512) == k % 512 {
      QuotRem(k, 512);
    }
  }

  /** The slot at byte offset 32 * j of a sector, among the slots of the region. */
  lemma RegionSlot(d: Disk, lba: nat, n: nat, s: nat, j: nat)
    requires lba + n <= |d| && s < n && j < 16
    ensures 16 * s + j < |SlotsOf(RegionBytes(d, lba, n))|
    ensures SlotsOf(RegionBytes(d, lba, n))[16 * s + j] == d[lba + s][32 * j..32 * j + 32]
  {
    var b := RegionBytes(d, lba, n);
    assert b[32 * (16 * s + j)..32 * (16 * s + j) + 32] == d[lba + s][32 * j..32 * j + 32];
  }

  /** The loop over the sectors of a region and the slots of each sector. */
  method ScanRegion(v: Volume, lba: nat, n: nat, cb: Callback, target: Name)
    returns (rc: int, at: nat, off: nat)
    requires v.Ready() && lba + n <= |v.disk|
    ensures var slots := SlotsOf(RegionBytes(v.disk, lba, n)); var i := StopAt(cb, target, slots);
      if i < |slots| then rc == Verdict(cb, target, slots[i]) != 0 && at == lba + i / 16 && off == 32 * (i % 16)
      else rc == 0
  {
    hide Stops, Verdict, RegionBytes, SlotsOf;
    ghost var slots := SlotsOf(RegionBytes(v.disk, lba, n));
    var s := 0;
    while s < n
      invariant 0 <= s <= n
      invariant forall k :: 0 <= k < 16 * s ==> !Stops(cb, target, slots[k])
    {
      var buf := v.disk[lba + s];
      var j := 0;
      while j < 16
        invariant 0 <= j <= 16
        invariant forall k :: 0 <= k < 16 * s + j ==> !Stops(cb, target, slots[k])
      {
        RegionSlot(v.disk, lba, n, s, j);
        var e: Slot := buf[32 * j..32 * j + 32];
        StopMeaning(cb, target, e);
        if !IsLongName(e) {
          rc := Verdict(cb, target, e);
          if rc != 0 {
            StopAtIs(cb, target, slots, 16 * s + j);
            return rc, lba + s, 32 * j;
          }
        }
        j := j + 1;
      }
      s := s + 1;
    }
    StopAtIs(cb, target, slots, |slots|);
    return 0, 0, 0;
  }

  lemma StopMeaning(cb: Callback, target: Name, e: Slot)
    ensures Stops(cb, target, e) <==> !IsLongName(e) && Verdict(cb, target, e) != 0
  {
  }

  // ----- a directory -----

  /** The bytes of a directory: the fixed root region, or its cluster chain. */
  function DirBytes(g: Geometry, d: Disk, x: nat, s: seq<nat>): (b: seq<byte>)
    requires g.Valid() && g.Fits(d) && Clusters(g, s) && (x == 0 ==> !g.isFat32)
  {
    if x == 0 then RegionBytes(d, g.rootDirLba, g.rootDirSectors) else Contents(g, d, s)
  }

  /** Where on disk slot i of a directory lies. */
  ghost predicate SlotAt(g: Geometry, x: nat, s: seq<nat>, i: nat, lba: nat, off: nat) {
    if x == 0 then lba == g.rootDirLba + i / 16 && lba < g.rootDirLba + g.rootDirSectors && off == 32 * (i % 16)
    else exists ci :: InSlotCluster(g, s, i, lba, off, ci)
  }

  ghost predicate InSlotCluster(g: Geometry, s: seq<nat>, i: nat, lba: nat, off: nat, ci: nat) {
    && ci < |s| && g.InRange(s[ci]) && InCluster(g, lba, s[ci]) && off % 32 == 0 && off < 512
    && 32 * i == Times(ci, g.BytesPerCluster()) + (lba - g.ClusterLba(s[ci])) * 512 + off
  }

  lemma {:induction false} ContentsAligned(g: Geometry, n: nat)
    ensures Times(n, g.BytesPerCluster()) % 512 == 0
  {
    if n > 0 {
      ContentsAligned(g, n - 1);
    }
  }

  /** The first stop of a concatenation is the first stop of its first part
      that has one. */
  lemma StopInSecond(cb: Callback, target: Name, a: seq<Slot>, b: seq<Slot>, rest: seq<Slot>)
    requires StopAt(cb, target, a) == |a|
    ensures StopAt(cb, target, b) < |b| ==> StopAt(cb, target, a + b + rest) == |a| + StopAt(cb, target, b)
    ensures StopAt(cb, target, b) == |b| ==> StopAt(cb, target, a + b) == |a| + |b|
  {
    hide Stops;
    var j := StopAt(cb, target, b);
    assert forall k :: 0 <= k < |b| ==> (a + b)[|a| + k] == b[k];
    if j < |b| {
      assert (a + b + rest)[|a| + j] == b[j];
      assert forall k :: |a| <= k < |a| + j ==> (a + b + rest)[k] == b[k - |a|];
      StopAtIs(cb, target, a + b + rest, |a| + j);
    } else {
      assert forall k :: |a| <= k < |a| + |b| ==> (a + b)[k] == b[k - |a|];
      StopAtIs(cb, target, a + b, |a| + |b|);
    }
  }

  /** The contents of a chain, split at one of its clusters. */
  lemma {:induction false} ContentsSplit(g: Geometry, d: Disk, s: seq<nat>, i: nat)
    requires g.Valid() && g.Fits(d) && Clusters(g, s) && i < |s|
    ensures Contents(g, d, s[..i + 1]) == Contents(g, d, s[..i]) + ClusterBytes(g, d, s[i])
    ensures Contents(g, d, s[..i + 1]) <= Contents(g, d, s)
    decreases |s| - i
  {
    assert s[..i + 1][..i] == s[..i];
    if i + 1 < |s| {
      ContentsSplit(g, d, s, i + 1);
    } else {
      assert s[..i + 1] == s;
    }
  }

  lemma SlotsPrefix(a: seq<byte>, b: seq<byte>)
    requires a <= b && |a| % 32 == 0
    ensures SlotsOf(b) == SlotsOf(a) + SlotsOf(b[|a|..])
  {
    SlotsConcat(a, b[|a|..]);
    assert a + b[|a|..] == b;
  }

  /** What a walk returns: the verdict at the first stopping slot and where
      that slot lies, or 0. */
  ghost predicate WalkResult(
    g: Geometry, slots: seq<Slot>, x: nat, s: seq<nat>, cb: Callback, target: Name, rc: int, lba: nat, off: nat)
  {
    var i := StopAt(cb, target, slots);
    if i < |slots| then rc == Verdict(cb, target, slots[i]) != 0 && SlotAt(g, x, s, i, lba, off) else rc == 0
  }

  lemma SlotCounts(g: Geometry, n: nat)
    ensures Times(n, g.BytesPerCluster()) % 32 == 0 &&
      32 * (Times(n, g.BytesPerCluster()) / 32) == Times(n, g.BytesPerCluster())
    ensures (Times(n, g.BytesPerCluster()) + g.BytesPerCluster()) % 32 == 0
    ensures g.BytesPerCluster() / 32 == 16 * g.sectorsPerCluster
  {
    ContentsAligned(g, n);
  }

  /** The slots of a directory, split around its ci-th cluster. */
  lemma DirSplit(g: Geometry, d: Disk, s: seq<nat>, ci: nat) returns (rest: seq<Slot>)
    requires g.Valid() && g.Fits(d) && Clusters(g, s) && ci < |s|
    ensures var a, m := SlotsOf(Contents(g, d, s[..ci])), SlotsOf(ClusterBytes(g, d, s[ci]));
      && SlotsOf(Contents(g, d, s[..ci + 1])) == a + m
      && SlotsOf(Contents(g, d, s)) == a + m + rest
      && 32 * |a| == Times(ci, g.BytesPerCluster()) && |m| == 16 * g.sectorsPerCluster
  {
    hide ClusterBytes, Contents, Times, SlotsOf;
    var b, a, m := Contents(g, d, s), Contents(g, d, s[..ci]), ClusterBytes(g, d, s[ci]);
    ContentsSplit(g, d, s, ci);
    SlotCounts(g, ci);
    SlotsConcat(a, m);
    SlotsPrefix(a + m, b);
    rest := SlotsOf(b[|a + m|..]);
  }

  lemma SlotPlace(g: Geometry, s: seq<nat>, ci: nat, i: nat, j: nat)
    requires ci < |s| && g.InRange(s[ci]) && j < 16 * g.sectorsPerCluster
    requires 32 * i == Times(ci, g.BytesPerCluster()) + 32 * j
    ensures InSlotCluster(g, s, i, g.ClusterLba(s[ci]) + j / 16, 32 * (j % 16), ci)
  {
    hide Times;
  }

  lemma ClusterStop(g: Geometry, d: Disk, s: seq<nat>, ci: nat, cb: Callback, target: Name)
    requires g.Valid() && g.Fits(d) && Clusters(g, s) && ci < |s|
    requires NoStopBefore(g, d, s, ci, cb, target)
    ensures var r := SlotsOf(ClusterBytes(g, d, s[ci])); var j := StopAt(cb, target, r);
      var slots := SlotsOf(Contents(g, d, s)); var i := StopAt(cb, target, slots);
      && (j < |r| ==>
            && i < |slots| && slots[i] == r[j]
            && InSlotCluster(g, s, i, g.ClusterLba(s[ci]) + j / 16, 32 * (j % 16), ci))
      && (j == |r| ==> NoStopBefore(g, d, s, ci + 1, cb, target))
  {
    hide Stops, ClusterBytes, Contents, Times, SlotsOf, StopAt, InSlotCluster;
    var rest := DirSplit(g, d, s, ci);
    var a, r := SlotsOf(Contents(g, d, s[..ci])), SlotsOf(ClusterBytes(g, d, s[ci]));
    StopInSecond(cb, target, a, r, rest);
    var j := StopAt(cb, target, r);
    if j < |r| {
      assert (a + r + rest)[|a| + j] == r[j];
      SlotPlace(g, s, ci, |a| + j, j);
    }
  }

  /** No slot of the first ci clusters stops the walk. */
  ghost predicate NoStopBefore(g: Geometry, d: Disk, s: seq<nat>, ci: nat, cb: Callback, target: Name)
    requires g.Valid() && g.Fits(d) && Clusters(g, s) && ci <= |s|
  {
    var a := SlotsOf(Contents(g, d, s[..ci]));
    StopAt(cb, target, a) == |a|
  }

  method WalkDir(v: Volume, x: nat, cb: Callback, target: Name, ghost s: seq<nat>)
    returns (rc: int, lba: nat, off: nat)
    requires v.Ready() && Clusters(v.g, s)
    requires if x == 0 then !v.g.isFat32 else IsChain(v.T(), s) && s[0] == x
    ensures WalkResult(v.g, SlotsOf(DirBytes(v.g, v.disk, x, s)), x, s, cb, target, rc, lba, off)
  {
    if !v.g.isFat32 && x == 0 {
      hide Stops, Verdict, StopAt, SlotsOf, RegionBytes;
      rc, lba, off := ScanRegion(v, v.g.rootDirLba, v.g.rootDirSectors, cb, target);
    } else {
      rc, lba, off := WalkChainDir(v, x, cb, target, s);
    }
  }

  method WalkChainDir(v: Volume, x: nat, cb: Callback, target: Name, ghost s: seq<nat>)
    returns (rc: int, lba: nat, off: nat)
    requires v.Ready() && Clusters(v.g, s) && x != 0 && IsChain(v.T(), s) && s[0] == x
    ensures WalkResult(v.g, SlotsOf(Contents(v.g, v.disk, s)), x, s, cb, target, rc, lba, off)
  {
    hide Stops, Verdict, ClusterBytes, Contents, IsChain, Table, Next, InSlotCluster, Times, SlotsOf, NoStopBefore,
      StopAt, RegionBytes;
    var c: nat := x;
    var max := v.g.totalClusters + 2;
    var steps := 0;
    ghost var ci: nat := 0;
    ChainLength(v.T(), s);
    ChainClusters(v.g, v.T(), s);
    NoSlots(v.g, v.disk, s, cb, target);
    while c >= 2 && c <= v.g.totalClusters + 1 && steps < max
      invariant 0 <= steps <= ci <= |s| && c == (if ci < |s| then s[ci] else 0)
      invariant NoStopBefore(v.g, v.disk, s, ci, cb, target)
      decreases max - steps
    {
      steps := steps + 1;
      ClusterIsRegion(v.g, v.disk, c);
      rc, lba, off := ScanRegion(v, v.g.ClusterLba(c), v.g.sectorsPerCluster, cb, target);
      ClusterStop(v.g, v.disk, s, ci, cb, target);
      if rc != 0 {
        return;
      }
      ChainStep(v.T(), s, ci);
      c := v.NextCluster(c);
      ci := ci + 1;
    }
    assert ci == |s|;
    WholeDir(v.g, v.disk, s, cb, target);
    return 0, 0, 0;
  }

  lemma WholeDir(g: Geometry, d: Disk, s: seq<nat>, cb: Callback, target: Name)
    requires g.Valid() && g.Fits(d) && Clusters(g, s) && NoStopBefore(g, d, s, |s|, cb, target)
    ensures var a := SlotsOf(Contents(g, d, s)); StopAt(cb, target, a) == |a|
  {
    assert s[..|s|] == s;
  }

  lemma NoSlots(g: Geometry, d: Disk, s: seq<nat>, cb: Callback, target: Name)
    requires g.Valid() && g.Fits(d)
    requires Clusters(g, s)
    ensures NoStopBefore(g, d, s, 0, cb, target)
  {
    assert s[..0] == [];
  }

  // ----- changing a slot -----

  /** d' differs from d in sectors of directory x only. */
  ghost predicate OnlyDirChanged(g: Geometry, d: Disk, d': Disk, x: nat, s: seq<nat>) {
    && |d'| == |d|
    && forall l :: 0 <= l < |d| && d'[l] != d[l] ==>
         if x == 0 then g.rootDirLba <= l < g.rootDirLba + g.rootDirSectors else InChain(g, l, s)
  }

  lemma RegionPatched(d: Disk, lba: nat, n: nat, s: nat, at: nat, x: seq<byte>)
    requires lba + n <= |d| && s < n && at + |x| <= 512
    ensures var sector: Sector := Overwrite(d[lba + s], at, x);
      RegionBytes(d[lba + s := sector], lba, n) == Overwrite(RegionBytes(d, lba, n), s * 512 + at, x)
  {
    var sector: Sector := Overwrite(d[lba + s], at, x);
    var d' := d[lba + s := sector];
    var b := Overwrite(RegionBytes(d, lba, n), s * 512 + at, x);
    forall k | 0 <= k < n * 512 ensures RegionBytes(d', lba, n)[k] == b[k] {
      if k / 512 == s {
        assert k % 512 == k - s * 512;
      }
    }
  }

  /** Read-modify-write of some bytes of one slot. */
  method PutSlot(v: Volume, x: nat, lba: nat, off: nat, at: nat, bytes: seq<byte>, ghost s: seq<nat>, ghost i: nat)
    requires v.Ready() && Clusters(v.g, s) && Distinct(s) && (x == 0 ==> !v.g.isFat32)
    requires SlotAt(v.g, x, s, i, lba, off) && at + |bytes| <= 32 && off + at + |bytes| <= 512
    modifies v
    ensures v.Ready() && OnlyDirChanged(v.g, old(v.disk), v.disk, x, s)
    ensures 32 * i + at + |bytes| <= |DirBytes(v.g, old(v.disk), x, s)|
    ensures DirBytes(v.g, v.disk, x, s) == Overwrite(DirBytes(v.g, old(v.disk), x, s), 32 * i + at, bytes)
  {
    hide Contents, ClusterBytes, Times, Overwrite, RegionBytes;
    ghost var d := v.disk;
    if x == 0 {
      RegionPatched(d, v.g.rootDirLba, v.g.rootDirSectors, lba - v.g.rootDirLba, off + at, bytes);
      var buf: Sector := v.disk[lba];
      buf := Overwrite(buf, off + at, bytes);
      v.disk := v.disk[lba := buf];
    } else {
      ghost var ci: nat :| InSlotCluster(v.g, s, i, lba, off, ci);
      ClusterPlace(v.g, s[ci]);
      ghost var sec := lba - v.g.ClusterLba(s[ci]);
      SectorPatched(v.g, d, s[ci], sec, off + at, bytes);
      var buf: Sector := v.disk[lba];
      buf := Overwrite(buf, off + at, bytes);
      v.disk := v.disk[lba := buf];
      OneSectorKept(v.g, d, v.disk, s, ci, lba);
      assert sec * 512 + 512 <= v.g.BytesPerCluster();
      ContentsPatched(v.g, d, v.disk, s, ci, sec * 512 + (off + at), bytes);
    }
  }

  lemma OneSectorKept(g: Geometry, d: Disk, d': Disk, s: seq<nat>, ci: nat, lba: nat)
    requires |d'| == |d| && ci < |s| && Clusters(g, s) && Distinct(s) && InCluster(g, lba, s[ci])
    requires forall l :: 0 <= l < |d| && l != lba ==> d'[l] == d[l]
    ensures forall j :: 0 <= j < |s| && j != ci ==> SameCluster(g, d, d', s[j])
    ensures lba < |d| ==> InChain(g, lba, s)
  {
    forall j | 0 <= j < |s| && j != ci ensures SameCluster(g, d, d', s[j]) {
      if InCluster(g, lba, s[j]) {
        ClustersDisjoint(g, lba, s[ci], s[j]);
      }
    }
  }

  /** The bytes at a slot's place on disk are that slot. */
  lemma SlotRead(g: Geometry, d: Disk, x: nat, s: seq<nat>, i: nat, lba: nat, off: nat)
    requires g.Valid() && g.Fits(d) && Clusters(g, s) && (x == 0 ==> !g.isFat32)
    requires SlotAt(g, x, s, i, lba, off)
    ensures lba < |d| && off + 32 <= 512
    ensures i < |SlotsOf(DirBytes(g, d, x, s))| && SlotsOf(DirBytes(g, d, x, s))[i] == d[lba][off..off + 32]
  {
    if x == 0 {
      RegionSlot(d, g.rootDirLba, g.rootDirSectors, i / 16, i % 16);
    } else {
      var ci: nat :| InSlotCluster(g, s, i, lba, off, ci);
      ChainSlotRead(g, d, s, i, lba, off, ci);
    }
  }

  lemma ChainSlotRead(g: Geometry, d: Disk, s: seq<nat>, i: nat, lba: nat, off: nat, ci: nat)
    requires g.Valid() && g.Fits(d) && Clusters(g, s) && InSlotCluster(g, s, i, lba, off, ci)
    ensures lba < |d| && off + 32 <= 512
    ensures i < |SlotsOf(Contents(g, d, s))| && SlotsOf(Contents(g, d, s))[i] == d[lba][off..off + 32]
  {
    hide ClusterBytes, Contents, Times, SlotsOf;
    var rest := DirSplit(g, d, s, ci);
    ClusterIsRegion(g, d, s[ci]);
    var a, m := SlotsOf(Contents(g, d, s[..ci])), SlotsOf(ClusterBytes(g, d, s[ci]));
    var sec := lba - g.ClusterLba(s[ci]);
    RegionSlot(d, g.ClusterLba(s[ci]), g.sectorsPerCluster, sec, off / 32);
    assert i == |a| + (16 * sec + off / 32);
    assert (a + m + rest)[i] == m[16 * sec + off / 32];
  }

  /** Rewriting bytes of a slot, seen as slots. */
  method PutSlotBytes(v: Volume, x: nat, lba: nat, off: nat, at: nat, bytes: seq<byte>, ghost s: seq<nat>, ghost i: nat)
    requires v.Ready() && Clusters(v.g, s) && Distinct(s) && (x == 0 ==> !v.g.isFat32)
    requires SlotAt(v.g, x, s, i, lba, off) && at + |bytes| <= 32
    modifies v
    ensures v.Ready() && OnlyDirChanged(v.g, old(v.disk), v.disk, x, s)
    ensures i < |SlotsOf(DirBytes(v.g, old(v.disk), x, s))|
    ensures SlotsOf(DirBytes(v.g, v.disk, x, s))
         == SlotsOf(DirBytes(v.g, old(v.disk), x, s))[i := Overwrite(SlotsOf(DirBytes(v.g, old(v.disk), x, s))[i], at,
           bytes)]
  {
    hide SlotsOf, DirBytes, OnlyDirChanged, SlotAt;
    ghost var b := DirBytes(v.g, v.disk, x, s);
    SlotRead(v.g, v.disk, x, s, i, lba, off);
    SlotsOverwritten(b, i, at, bytes);
    PutSlot(v, x, lba, off, at, bytes, s, i);
  }
}
