/**
 File contents: the bytes of a cluster chain, and the read and write paths of
 the driver proved against the plain byte sequence a file stands for.
 */
module FatFile {
  import opened Octets
  import opened Arith
  import opened FatLayout
  import opened FatTable
  import opened FatVolume
  import opened Seqs

  // ----- byte sequences -----

  /** b with the bytes from `at` on replaced by x, in place. */
  function Overwrite(b: seq<byte>, at: nat, x: seq<byte>): (r: seq<byte>)
    requires at + |x| <= |b|
    ensures |r| == |b|
    ensures forall k :: 0 <= k < |b| ==> r[k] == if at <= k < at + |x| then x[k - at] else b[k]
  {
    b[..at] + x + b[at + |x|..]
  }

  /** What writing x at offset `at` of a file means: bytes past the old end
      and before `at` read as zero. */
  function Spliced(b: seq<byte>, at: nat, x: seq<byte>): (r: seq<byte>)
    ensures |r| == if at + |x| > |b| then at + |x| else |b|
    ensures forall k :: 0 <= k < |r| ==>
              r[k] == if at <= k < at + |x| then x[k - at] else if k < |b| then b[k] else 0
  {
    if at + |x| > |b| then Overwrite(b + Zeros(at + |x| - |b|), at, x) else Overwrite(b, at, x)
  }

  lemma OverwriteTwice(b: seq<byte>, at: nat, data: seq<byte>, m: nat, n: nat)
    requires m <= n <= |data| && at + n <= |b|
    ensures Overwrite(Overwrite(b, at, data[..m]), at + m, data[m..n]) == Overwrite(b, at, data[..n])
  {
  }

  lemma OverwriteNothing(b: seq<byte>, at: nat)
    requires at <= |b|
    ensures Overwrite(b, at, []) == b
  {
  }

  lemma SuffixSlice(data: seq<byte>, a: nat, i: nat, j: nat)
    requires a <= i <= j <= |data|
    ensures data[i..j] == data[a..][i - a..j - a]
  {
    var rest := data[a..];
    assert forall k :: a <= k < |data| ==> rest[k - a] == data[k];
  }

  lemma OverwriteConcat(a: seq<byte>, b: seq<byte>, at: nat, x: seq<byte>)
    requires at + |x| <= |a| || |a| <= at <= |a| + |b| - |x|
    ensures at + |x| <= |a| ==> Overwrite(a + b, at, x) == Overwrite(a, at, x) + b
    ensures |a| <= at ==> Overwrite(a + b, at, x) == a + Overwrite(b, at - |a|, x)
  {
  }

  // ----- the bytes of a cluster and of a chain -----

  ghost predicate Clusters(g: Geometry, s: seq<nat>) {
    forall i :: 0 <= i < |s| ==> g.InRange(s[i])
  }

  function ClusterByte(g: Geometry, d: Disk, c: nat, x: nat): (b: byte)
    requires g.Valid() && g.Fits(d) && g.InRange(c) && x < g.BytesPerCluster()
  {
    ClusterPlace(g, c);
    QuotRem(x, 512);
    d[g.ClusterLba(c) + Quot(x, 512)][Rem(x, 512)]
  }

  function ClusterBytes(g: Geometry, d: Disk, c: nat): (b: seq<byte>)
    requires g.Valid() && g.Fits(d) && g.InRange(c)
    ensures |b| == g.BytesPerCluster()
    ensures forall x :: 0 <= x < |b| ==> b[x] == ClusterByte(g, d, c, x)
  {
    seq(g.BytesPerCluster(), x requires 0 <= x < g.BytesPerCluster() => ClusterByte(g, d, c, x))
  }

  /** The bytes of a chain, cluster after cluster. */
  function Contents(g: Geometry, d: Disk, s: seq<nat>): (b: seq<byte>)
    requires g.Valid() && g.Fits(d) && Clusters(g, s)
    ensures |b| == Times(|s|, g.BytesPerCluster())
  {
    if |s| == 0 then [] else Contents(g, d, s[..|s| - 1]) + ClusterBytes(g, d, s[|s| - 1])
  }

  /** Byte x of the i-th cluster is byte i * bpc + x of the chain. */
  lemma {:induction false} ContentsSlice(g: Geometry, d: Disk, s: seq<nat>, i: nat)
    requires g.Valid() && g.Fits(d) && Clusters(g, s) && i < |s|
    ensures var p := Times(i, g.BytesPerCluster());
      && p + g.BytesPerCluster() <= |Contents(g, d, s)|
      && Contents(g, d, s)[p..p + g.BytesPerCluster()] == ClusterBytes(g, d, s[i])
  {
    TimesStep(i, |s|, g.BytesPerCluster());
    if i < |s| - 1 {
      ContentsSlice(g, d, s[..|s| - 1], i);
      TimesStep(i, |s| - 1, g.BytesPerCluster());
    }
  }

  /** d' holds the same bytes as d in cluster c. */
  ghost predicate SameCluster(g: Geometry, d: Disk, d': Disk, c: nat) {
    |d'| == |d| && forall l :: 0 <= l < |d| && InCluster(g, l, c) ==> d'[l] == d[l]
  }

  lemma SameClusterBytes(g: Geometry, d: Disk, d': Disk, c: nat)
    requires g.Valid() && g.Fits(d) && g.InRange(c) && SameCluster(g, d, d', c)
    ensures ClusterBytes(g, d', c) == ClusterBytes(g, d, c)
  {
    ClusterPlace(g, c);
    forall x | 0 <= x < g.BytesPerCluster()
      ensures ClusterByte(g, d', c, x) == ClusterByte(g, d, c, x)
    {
      QuotRem(x, 512);
      assert InCluster(g, g.ClusterLba(c) + x / 512, c);
    }
  }

  lemma {:induction false} SameContents(g: Geometry, d: Disk, d': Disk, s: seq<nat>)
    requires g.Valid() && g.Fits(d) && |d'| == |d| && Clusters(g, s)
    requires forall i :: 0 <= i < |s| ==> SameCluster(g, d, d', s[i])
    ensures Contents(g, d', s) == Contents(g, d, s)
  {
    if |s| > 0 {
      SameContents(g, d, d', s[..|s| - 1]);
      SameClusterBytes(g, d, d', s[|s| - 1]);
    }
  }

  /** Overwriting inside the i-th cluster overwrites the chain at its offset. */
  lemma {:induction false} ContentsPatched(
    g: Geometry, d: Disk, d': Disk, s: seq<nat>, i: nat, o: nat, x: seq<byte>)
    requires g.Valid() && g.Fits(d) && |d'| == |d| && Clusters(g, s) && Distinct(s)
    requires i < |s| && o + |x| <= g.BytesPerCluster()
    requires forall j :: 0 <= j < |s| && j != i ==> SameCluster(g, d, d', s[j])
    requires ClusterBytes(g, d', s[i]) == Overwrite(ClusterBytes(g, d, s[i]), o, x)
    ensures Times(i, g.BytesPerCluster()) + o + |x| <= |Contents(g, d, s)|
    ensures Contents(g, d', s) == Overwrite(Contents(g, d, s), Times(i, g.BytesPerCluster()) + o, x)
  {
    hide ClusterBytes, Overwrite, SameCluster, Times;
    var bpc, r, c := g.BytesPerCluster(), s[..|s| - 1], s[|s| - 1];
    TimesStep(i, |s|, bpc);
    assert forall j :: 0 <= j < |r| ==> r[j] == s[j];
    if i == |s| - 1 {
      SameContents(g, d, d', r);
      OverwriteConcat(Contents(g, d, r), ClusterBytes(g, d, c), Times(i, bpc) + o, x);
    } else {
      TimesStep(i, |s| - 1, bpc);
      ContentsPatched(g, d, d', r, i, o, x);
      SameClusterBytes(g, d, d', c);
      OverwriteConcat(Contents(g, d, r), ClusterBytes(g, d, c), Times(i, bpc) + o, x);
    }
  }

  lemma ZeroClusterBytes(g: Geometry, d: Disk, c: nat)
    requires g.Valid() && g.Fits(d) && g.InRange(c) && ZeroCluster(g, d, c)
    ensures ClusterBytes(g, d, c) == Zeros(g.BytesPerCluster())
  {
    ClusterPlace(g, c);
    forall x | 0 <= x < g.BytesPerCluster() ensures ClusterByte(g, d, c, x) == 0 {
      QuotRem(x, 512);
      assert InCluster(g, g.ClusterLba(c) + x / 512, c);
    }
  }

  /** Patching part of one sector patches the cluster at that place. */
  lemma SectorPatched(g: Geometry, d: Disk, c: nat, s: nat, at: nat, x: seq<byte>)
    requires g.Valid() && g.Fits(d) && g.InRange(c) && s < g.sectorsPerCluster && at + |x| <= 512
    ensures g.ClusterLba(c) + s < |d| && InCluster(g, g.ClusterLba(c) + s, c)
    ensures var sector: Sector := Overwrite(d[g.ClusterLba(c) + s], at, x);
      ClusterBytes(g, d[g.ClusterLba(c) + s := sector], c)
      == Overwrite(ClusterBytes(g, d, c), s * 512 + at, x)
  {
    ClusterPlace(g, c);
    var sector: Sector := Overwrite(d[g.ClusterLba(c) + s], at, x);
    var d' := d[g.ClusterLba(c) + s := sector];
    var b := Overwrite(ClusterBytes(g, d, c), s * 512 + at, x);
    forall k | 0 <= k < g.BytesPerCluster() ensures ClusterByte(g, d', c, k) == b[k] {
      QuotRem(k, 512);
      if k / 512 == s {
        assert k % 512 == k - s * 512;
      }
    }
  }

  // ----- one cluster of a read or a write -----

  /** Read-modify-write of part of one sector of a cluster. */
  method WriteSector(v: Volume, cluster: nat, s: nat, at: nat, x: seq<byte>)
    requires v.Ready() && v.g.InRange(cluster) && s < v.g.sectorsPerCluster && at + |x| <= 512
    modifies v
    ensures v.Ready() && |v.disk| == |old(v.disk)|
    ensures forall l :: 0 <= l < |v.disk| && !InCluster(v.g, l, cluster) ==> v.disk[l] == old(v.disk)[l]
    ensures ClusterBytes(v.g, v.disk, cluster)
         == Overwrite(ClusterBytes(v.g, old(v.disk), cluster), s * 512 + at, x)
  {
    hide ClusterBytes;
    SectorPatched(v.g, v.disk, cluster, s, at, x);
    var lba := v.g.ClusterLba(cluster);
    var buf: Sector := v.disk[lba + s];
    buf := Overwrite(buf, at, x);
    v.disk := v.disk[lba + s := buf];
  }

  /** The inner loop of a write: fill one cluster from clusterOff on. */
  method WriteInCluster(v: Volume, cluster: nat, clusterOff: nat, data: seq<byte>, done0: nat)
    returns (done: nat)
    requires v.Ready() && v.g.InRange(cluster) && clusterOff < v.g.BytesPerCluster() && done0 <= |data|
    modifies v
    ensures v.Ready() && |v.disk| == |old(v.disk)|
    ensures forall l :: 0 <= l < |v.disk| && !InCluster(v.g, l, cluster) ==> v.disk[l] == old(v.disk)[l]
    ensures done == if |data| - done0 < v.g.BytesPerCluster() - clusterOff then |data|
                    else done0 + v.g.BytesPerCluster() - clusterOff
    ensures ClusterBytes(v.g, v.disk, cluster)
         == Overwrite(ClusterBytes(v.g, old(v.disk), cluster), clusterOff, data[done0..done])
  {
    hide ClusterBytes, Overwrite, InCluster;
    ghost var rest := data[done0..];
    ghost var b0 := ClusterBytes(v.g, v.disk, cluster);
    OverwriteNothing(b0, clusterOff);
    done := done0;
    var s := 0;
    while s < v.g.sectorsPerCluster && done < |data|
      invariant 0 <= s <= v.g.sectorsPerCluster && v.Ready() && |v.disk| == |old(v.disk)|
      invariant done0 <= done <= |data| && clusterOff + (done - done0) <= v.g.BytesPerCluster()
      invariant done < |data| ==> done - done0 == if s * 512 <= clusterOff then 0 else s * 512 - clusterOff
      invariant done == |data| ==> |data| - done0 <= v.g.BytesPerCluster() - clusterOff
      invariant forall l :: 0 <= l < |v.disk| && !InCluster(v.g, l, cluster) ==> v.disk[l] == old(v.disk)[l]
      invariant ClusterBytes(v.g, v.disk, cluster) == Overwrite(b0, clusterOff, rest[..done - done0])
    {
      var sectStart := s * 512;
      if sectStart + 512 > clusterOff {
        var copyTo := if clusterOff > sectStart then clusterOff - sectStart else 0;
        var chunk := 512 - copyTo;
        if chunk > |data| - done {
          chunk := |data| - done;
        }
        SuffixSlice(data, done0, done, done + chunk);
        OverwriteTwice(b0, clusterOff, rest, done - done0, done - done0 + chunk);
        WriteSector(v, cluster, s, copyTo, data[done..done + chunk]);
        done := done + chunk;
      }
      s := s + 1;
    }
    SuffixSlice(data, done0, done0, done);
  }

  lemma SectorBytes(g: Geometry, d: Disk, c: nat, s: nat)
    requires g.Valid() && g.Fits(d) && g.InRange(c) && s < g.sectorsPerCluster && g.ClusterLba(c) + s < |d|
    ensures forall x :: s * 512 <= x < s * 512 + 512 ==> ClusterByte(g, d, c, x) == d[g.ClusterLba(c) + s][x - s * 512]
  {
    forall x | s * 512 <= x < s * 512 + 512 ensures ClusterByte(g, d, c, x) == d[g.ClusterLba(c) + s][x - s * 512] {
      QuotRem(x, 512);
    }
  }

  /** The inner loop of a read: copy out of one cluster from clusterOff on. */
  method ReadInCluster(v: Volume, cluster: nat, clusterOff: nat, want: nat) returns (out: seq<byte>)
    requires v.Ready() && v.g.InRange(cluster) && clusterOff < v.g.BytesPerCluster()
    ensures |out| == if want < v.g.BytesPerCluster() - clusterOff then want else v.g.BytesPerCluster() - clusterOff
    ensures out == ClusterBytes(v.g, v.disk, cluster)[clusterOff..clusterOff + |out|]
  {
    ClusterPlace(v.g, cluster);
    var lba := v.g.ClusterLba(cluster);
    out := [];
    var s := 0;
    while s < v.g.sectorsPerCluster && |out| < want
      invariant 0 <= s <= v.g.sectorsPerCluster
      invariant |out| <= want && clusterOff + |out| <= v.g.BytesPerCluster()
      invariant |out| < want ==> |out| == if s * 512 <= clusterOff then 0 else s * 512 - clusterOff
      invariant forall k :: 0 <= k < |out| ==> out[k] == ClusterByte(v.g, v.disk, cluster, clusterOff + k)
    {
      var sectStart := s * 512;
      if sectStart + 512 > clusterOff {
        var buf := v.disk[lba + s];
        var copyFrom := if clusterOff > sectStart then clusterOff - sectStart else 0;
        var chunk := 512 - copyFrom;
        if chunk > want - |out| {
          chunk := want - |out|;
        }
        SectorBytes(v.g, v.disk, cluster, s);
        out := out + buf[copyFrom..copyFrom + chunk];
      }
      s := s + 1;
    }
  }

  // ----- growing a chain -----

  /** lba belongs to one of the clusters of s. */
  ghost predicate InChain(g: Geometry, lba: nat, s: seq<nat>) {
    exists i :: 0 <= i < |s| && InCluster(g, lba, s[i])
  }

  ghost predicate Full(g: Geometry, d: Disk)
    requires g.Valid() && g.Fits(d)
  {
    forall c :: g.InRange(c) ==> Table(g, d, 0)[c] != 0
  }

  /** From disk d to d' only the chain s changed, and it grew to s' by taking
      free clusters: entries and sectors of everything else are as before. */
  ghost predicate Extended(g: Geometry, d: Disk, d': Disk, s: seq<nat>, s': seq<nat>)
    requires g.Valid() && g.Fits(d) && g.Fits(d')
  {
    var t, t' := Table(g, d, 0), Table(g, d', 0);
    && |d'| == |d| && Mirrored(g, d')
    && s <= s' && Clusters(g, s') && (|s'| > 0 ==> IsChain(t', s'))
    && (forall c :: 0 <= c < |t| && c !in s' ==> t'[c] == t[c])
    && (forall i :: |s| <= i < |s'| ==> t[s'[i]] == 0)
    && (forall l :: 0 <= l < |d| && !g.InFat(l) && !InChain(g, l, s') ==> d'[l] == d[l])
  }

  lemma ExtendedRefl(g: Geometry, d: Disk, s: seq<nat>)
    requires g.Valid() && g.Fits(d) && Mirrored(g, d) && (|s| > 0 ==> IsChain(Table(g, d, 0), s))
    ensures Extended(g, d, d, s, s)
  {
  }

  lemma ExtendedTrans(g: Geometry, d: Disk, d': Disk, d'': Disk, s: seq<nat>, s': seq<nat>, s'': seq<nat>)
    requires g.Valid() && g.Fits(d) && g.Fits(d') && g.Fits(d'')
    requires Extended(g, d, d', s, s') && Extended(g, d', d'', s', s'')
    ensures Extended(g, d, d'', s, s'')
  {
    hide Table, Next, InCluster;
    var t, t', t'' := Table(g, d, 0), Table(g, d', 0), Table(g, d'', 0);
    assert forall x :: x in s' ==> x in s'';
    forall l, i | 0 <= i < |s'| && InCluster(g, l, s'[i]) ensures InCluster(g, l, s''[i]) {
    }
  }

  /** A data write inside the chain keeps the relation. */
  lemma ExtendedPatched(g: Geometry, d: Disk, d': Disk, d'': Disk, s: seq<nat>, s': seq<nat>, i: nat)
    requires g.Valid() && g.Fits(d) && g.Fits(d') && g.Fits(d'') && |d''| == |d'|
    requires Extended(g, d, d', s, s') && i < |s'|
    requires forall l :: 0 <= l < |d'| && !InCluster(g, l, s'[i]) ==> d''[l] == d'[l]
    ensures Extended(g, d, d'', s, s')
  {
    hide Table, Next, InCluster;
    forall l | 0 <= l < |d'| && g.InFat(l) ensures d''[l] == d'[l] {
      FatIsNotData(g, l, s'[i]);
    }
    FatOnly(g, d', d'');
  }

  lemma FatIsNotData(g: Geometry, l: nat, c: nat)
    requires g.Valid() && g.InRange(c) && g.InFat(l)
    ensures !InCluster(g, l, c)
  {
    ClusterPlace(g, c);
  }

  /** Appending a fresh zeroed cluster appends zeros. */
  lemma GrownContents(g: Geometry, d: Disk, d': Disk, s: seq<nat>, c: nat)
    requires g.Valid() && g.Fits(d) && |d'| == |d| && Clusters(g, s) && g.InRange(c) && c !in s
    requires ZeroCluster(g, d', c)
    requires forall l :: 0 <= l < |d| && !g.InFat(l) && !InCluster(g, l, c) ==> d'[l] == d[l]
    ensures Contents(g, d', s + [c]) == Contents(g, d, s) + Zeros(g.BytesPerCluster())
  {
    hide ClusterByte, ClusterBytes, Quot, Rem, Times;
    forall i | 0 <= i < |s| ensures SameCluster(g, d, d', s[i]) {
      forall l | 0 <= l < |d| && InCluster(g, l, s[i]) ensures d'[l] == d[l] {
        if InCluster(g, l, c) {
          ClustersDisjoint(g, l, c, s[i]);
        }
        if g.InFat(l) {
          FatIsNotData(g, l, s[i]);
        }
      }
    }
    SameContents(g, d, d', s);
    ZeroClusterBytes(g, d', c);
    assert (s + [c])[..|s|] == s;
  }

  /** Claiming c and linking it after the last cluster extends the chain. */
  lemma LinkedExtends(g: Geometry, d: Disk, d': Disk, s: seq<nat>, c: nat)
    requires g.Valid() && g.Fits(d) && |d'| == |d| && Mirrored(g, d) && g.InRange(c)
    requires |s| > 0 ==> IsChain(Table(g, d, 0), s)
    requires Table(g, d, 0)[c] == 0
    requires forall f :: 0 <= f < g.numFats ==>
      Table(g, d', f) == if |s| == 0 then Table(g, d, f)[c := g.Eoc()]
                         else Table(g, d, f)[c := g.Eoc()][s[|s| - 1] := c]
    requires forall l :: 0 <= l < |d| && !g.InFat(l) && !InCluster(g, l, c) ==> d'[l] == d[l]
    ensures Extended(g, d, d', s, s + [c])
  {
    hide Table, Next, InCluster;
    var t := Table(g, d, 0);
    if |s| == 0 {
      ChainSingle(t, c, g.Eoc());
      assert s + [c] == [c];
    } else {
      ChainExtend(t, s, c, g.Eoc());
    }
    forall l | 0 <= l < |d| && !g.InFat(l) && !InChain(g, l, s + [c]) ensures d'[l] == d[l] {
      assert (s + [c])[|s|] == c;
    }
  }

  /** The next cluster of the chain, taking a free one at its end. */
  method NextOrGrow(v: Volume, cluster: nat, ghost s: seq<nat>, ghost i: nat)
    returns (next: nat, ghost s': seq<nat>)
    requires v.Ready() && Mirrored(v.g, v.disk) && IsChain(v.T(), s) && i < |s| && s[i] == cluster
    modifies v
    ensures v.Ready() && |v.disk| == |old(v.disk)| && Clusters(v.g, s)
    ensures next == 0 ==> v.disk == old(v.disk) && s' == s && i == |s| - 1 && Full(v.g, v.disk)
    ensures next != 0 ==>
      && Extended(v.g, old(v.disk), v.disk, s, s') && i + 1 < |s'| && s'[i + 1] == next
      && (i + 1 < |s| ==> s' == s && v.disk == old(v.disk))
      && (i + 1 == |s| ==>
            && s' == s + [next]
            && Contents(v.g, v.disk, s') == Contents(v.g, old(v.disk), s) + Zeros(v.g.BytesPerCluster()))
  {
    hide Table, Next, InCluster, Contents;
    s' := s;
    ghost var t := v.T();
    ghost var d0 := v.disk;
    ChainStep(t, s, i);
    next := v.NextCluster(cluster);
    ExtendedRefl(v.g, v.disk, s);
    if next == 0 {
      next := v.AllocCluster();
      if next == 0 {
        return;
      }
      ghost var d1 := v.disk;
      v.SetCluster(cluster, next);
      s' := s + [next];
      LowId(v.g, next);
      LinkedExtends(v.g, d0, v.disk, s, next);
      ZeroKept(v.g, d1, v.disk, next);
      GrownContents(v.g, d0, v.disk, s, next);
    }
  }

  lemma ChainStep(t: seq<nat>, s: seq<nat>, i: nat)
    requires IsChain(t, s) && i < |s|
    ensures Next(t, s[i]) == if i + 1 < |s| then s[i + 1] else 0
    ensures i + 1 < |s| ==> s[i + 1] != 0
  {
  }

  lemma LowId(g: Geometry, c: nat)
    requires g.Valid() && g.InRange(c)
    ensures g.Low(c) == c
  {
  }

  lemma ZeroKept(g: Geometry, d: Disk, d': Disk, c: nat)
    requires g.Valid() && g.InRange(c) && |d'| == |d| && ZeroCluster(g, d, c)
    requires forall l :: 0 <= l < |d| && !g.InFat(l) ==> d'[l] == d[l]
    ensures ZeroCluster(g, d', c)
  {
    forall l | 0 <= l < |d| && InCluster(g, l, c) ensures d'[l] == ZeroSector() {
      if g.InFat(l) {
        FatIsNotData(g, l, c);
      }
    }
  }

  lemma MoreZeros(b: seq<byte>, n: nat, k: nat)
    ensures Zeros(Times(n, k)) + Zeros(k) == Zeros(Times(n + 1, k))
    ensures b + Zeros(Times(n, k)) + Zeros(k) == b + Zeros(Times(n + 1, k))
  {
    assert b + Zeros(Times(n, k)) + Zeros(k) == b + (Zeros(Times(n, k)) + Zeros(k));
  }

  /** Walk to the n-th cluster of a chain, growing it when asked to. Without
      growing it is a lookup; with it, 0 means the volume is full. */
  method WalkChain(v: Volume, start: nat, n: nat, alloc: bool, ghost s: seq<nat>)
    returns (c: nat, ghost s': seq<nat>)
    requires v.Ready() && Mirrored(v.g, v.disk) && IsChain(v.T(), s) && s[0] == start
    modifies v
    ensures v.Ready() && Extended(v.g, old(v.disk), v.disk, s, s')
    ensures !alloc ==> v.disk == old(v.disk) && s' == s && c == if n < |s| then s[n] else 0
    ensures alloc && c != 0 ==> n < |s'| && c == s'[n] && |s'| == if n < |s| then |s| else n + 1
    ensures alloc && c == 0 ==> Full(v.g, v.disk)
    ensures Clusters(v.g, s)
    ensures Contents(v.g, v.disk, s')
         == Contents(v.g, old(v.disk), s) + Zeros(Times(|s'| - |s|, v.g.BytesPerCluster()))
  {
    hide Table, Next, InCluster, Contents, Extended, IsChain;
    ChainClusters(v.g, v.T(), s);
    ExtendedRefl(v.g, v.disk, s);
    ghost var d0, b0 := v.disk, Contents(v.g, v.disk, s);
    assert b0 + Zeros(Times(0, v.g.BytesPerCluster())) == b0;
    s' := s;
    c := start;
    var i := 0;
    while i < n
      invariant 0 <= i <= n && v.Ready() && |v.disk| == |d0| && Mirrored(v.g, v.disk)
      invariant Extended(v.g, d0, v.disk, s, s') && IsChain(v.T(), s') && Clusters(v.g, s')
      invariant i < |s'| && c == s'[i] && |s| <= |s'| && s <= s'
      invariant |s'| == if i < |s| then |s| else i + 1
      invariant !alloc ==> v.disk == d0 && s' == s
      invariant Contents(v.g, v.disk, s') == b0 + Zeros(Times(|s'| - |s|, v.g.BytesPerCluster()))
    {
      if !alloc {
        ChainStep(v.T(), s', i);
        var next := v.NextCluster(c);
        if next == 0 {
          return 0, s';
        }
        c := next;
      } else {
        ghost var d1, s1 := v.disk, s';
        var next;
        next, s' := NextOrGrow(v, c, s1, i);
        if next == 0 {
          return 0, s';
        }
        ExtendedTrans(v.g, d0, d1, v.disk, s, s1, s');
        ExtendedGives(v.g, d1, v.disk, s1, s');
        MoreZeros(b0, |s1| - |s|, v.g.BytesPerCluster());
        c := next;
      }
      i := i + 1;
    }
    ChainNonZero(v.T(), s', n);
  }

  lemma ChainClusters(g: Geometry, t: seq<nat>, s: seq<nat>)
    requires IsChain(t, s) && |t| == g.totalClusters + 2
    ensures Clusters(g, s) && |s| > 0
  {
  }

  lemma ChainNonZero(t: seq<nat>, s: seq<nat>, i: nat)
    requires IsChain(t, s) && i < |s|
    ensures s[i] != 0
  {
  }

  lemma ExtendedGives(g: Geometry, d: Disk, d': Disk, s: seq<nat>, s': seq<nat>)
    requires g.Valid() && g.Fits(d) && g.Fits(d') && Extended(g, d, d', s, s')
    ensures |d'| == |d| && Mirrored(g, d') && Clusters(g, s') && s <= s'
    ensures |s'| > 0 ==> IsChain(Table(g, d', 0), s')
  {
  }
}
