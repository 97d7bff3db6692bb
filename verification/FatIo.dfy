/**
 Reading and writing files. A file is a byte sequence; these are the driver's
 read and write paths and their proof against that meaning.
 */
module FatIo {
  import opened Octets
  import opened Arith
  import opened FatLayout
  import opened FatTable
  import opened FatVolume
  import opened FatFile
  import opened Seqs

  /** The in-memory node of an open file. */
  class FileNode {
    const isFile: bool
    var inode: nat
    var size: nat

    constructor (isFile: bool, inode: nat, size: nat)
      ensures this.isFile == isFile && this.inode == inode && this.size == size
    {
      this.isFile := isFile;
      this.inode := inode;
      this.size := size;
    }
  }

  ghost predicate ZeroFrom(b: seq<byte>, n: nat) {
    forall k :: n <= k < |b| ==> b[k] == 0
  }

  /** s is the chain of a file with this first cluster and size: it is long
      enough, and its bytes past the size are zero. */
  ghost predicate FileChain(g: Geometry, d: Disk, first: nat, size: nat, s: seq<nat>)
    requires g.Valid() && g.Fits(d)
  {
    if first == 0 then s == [] && size == 0
    else
      && |s| > 0 && s[0] == first && IsChain(Table(g, d, 0), s) && Clusters(g, s)
      && size <= Times(|s|, g.BytesPerCluster())
      && ZeroFrom(Contents(g, d, s), size)
  }

  /** The file itself. */
  ghost function FileBytes(g: Geometry, d: Disk, size: nat, s: seq<nat>): (b: seq<byte>)
    requires g.Valid() && g.Fits(d) && Clusters(g, s) && size <= Times(|s|, g.BytesPerCluster())
  {
    Contents(g, d, s)[..size]
  }

  lemma FileChainClusters(g: Geometry, d: Disk, first: nat, size: nat, s: seq<nat>)
    requires g.Valid() && g.Fits(d) && FileChain(g, d, first, size, s)
    ensures Clusters(g, s) && size <= Times(|s|, g.BytesPerCluster())
  {
  }

  const W32 := 0x1_0000_0000
  const W64 := 0x1_0000_0000_0000_0000

  /** A 64-bit word: a byte count, or a file offset in two's complement. */
  type Word = n: nat | n < W64

  /** The cast of a word to 32 bits. */
  function Low32(n: nat): (r: nat)
    ensures r < W32 && r <= n && (n < W32 <==> r == n)
  {
    LowBound(n);
    Rem(n, W32)
  }

  lemma {:induction false} LowBound(n: nat)
    ensures Rem(n, W32) <= n && (n < W32 <==> Rem(n, W32) == n)
  {
    if n >= W32 {
      LowBound(n - W32);
    }
  }

  /** The cluster index and the offset inside that cluster. */
  method Split(offset: nat, bpc: nat) returns (skip: nat, clusterOff: nat)
    requires bpc > 0
    ensures offset == Times(skip, bpc) + clusterOff && clusterOff < bpc
  {
    DivTimes(offset, bpc);
    skip, clusterOff := offset / bpc, offset % bpc;
  }

  // ----- read -----

  /** The loop that copies out cluster after cluster. */
  method ReadData(
    v: Volume, start: nat, size: nat, ghost offset: nat, ghost s: seq<nat>, ghost skip: nat, clusterOff0: nat)
    returns (out: seq<byte>)
    requires v.Ready() && IsChain(v.T(), s) && Clusters(v.g, s)
    requires skip < |s| && s[skip] == start && clusterOff0 < v.g.BytesPerCluster()
    requires offset == Times(skip, v.g.BytesPerCluster()) + clusterOff0
    ensures offset <= |Contents(v.g, v.disk, s)|
    ensures out == Contents(v.g, v.disk, s)[offset..Min(offset + size, |Contents(v.g, v.disk, s)|)]
  {
    hide Table, Next, InCluster, Contents, IsChain, ClusterBytes, IsSlice;
    var bpc := v.g.BytesPerCluster();
    ghost var b := Contents(v.g, v.disk, s);
    ghost var i: nat := skip;
    TimesStep(skip, |s|, bpc);
    SliceNone(b, offset);
    var cluster, clusterOff := start, clusterOff0;
    out := [];
    var maxSteps := v.g.totalClusters + 2;
    var steps := 0;
    ChainLength(v.T(), s);
    while |out| < size && cluster != 0 && steps < maxSteps
      invariant 0 <= steps <= i <= |s| && |out| <= size && clusterOff < bpc && (i == |s| ==> clusterOff == 0)
      invariant cluster == (if i < |s| then s[i] else 0)
      invariant |out| < size ==> offset + |out| == Times(i, bpc) + clusterOff
      invariant IsSlice(out, b, offset)
    {
      steps := steps + 1;
      if cluster < 2 || cluster > v.g.totalClusters + 1 {
        break;
      }
      var got := ReadInCluster(v, cluster, clusterOff, size - |out|);
      ContentsSlice(v.g, v.disk, s, i);
      SliceOfSlice(got, b, Times(i, bpc), bpc, clusterOff);
      SliceJoin(out, got, b, offset);
      out := out + got;
      clusterOff := 0;
      ChainStep(v.T(), s, i);
      cluster := v.NextCluster(cluster);
      i := i + 1;
    }
    if |out| < size {
      assert i == |s| && offset + |out| == |b|;
    }
    SliceEnd(out, b, offset);
  }

  /** What the driver reads from a file of bytes b whose chain has room for cap bytes:
      the test and the position take 32 bits of the offset, the cut to the file's end
      takes 64, and the copying stops only at the end of the chain. */
  function ReadOut(b: seq<byte>, cap: nat, n: Word, offset: Word): (out: seq<byte>)
    requires |b| <= cap
  {
    var o := Low32(offset);
    if o >= |b| then [] else (b + Zeros(cap - |b|))[o..Min(o + Length(|b|, n, offset), cap)]
  }

  /** The byte count after the cut, on 64-bit words. */
  function Length(size: nat, n: Word, offset: Word): (len: nat) {
    if Sum64(offset, n) > size then (if offset <= size then size - offset else W64 - (offset - size)) else n
  }

  function Sum64(a: Word, b: Word): Word { if a + b < W64 then a + b else a + b - W64 }

  /** What is due: the bytes from offset on, n of them or up to the end. */
  function Slice(b: seq<byte>, n: nat, offset: nat): (out: seq<byte>) {
    b[Min(offset, |b|)..Min(offset + n, |b|)]
  }

  /** The read gives what is due if and only if its 32-bit position is past the end,
      or the offset fits 32 bits and either the range ends below 2^64 or the file
      fills its chain. */
  lemma ReadExact(b: seq<byte>, cap: nat, n: Word, offset: Word)
    requires |b| <= cap && |b| < W32
    ensures ReadOut(b, cap, n, offset) == Slice(b, n, offset)
       <==> Low32(offset) >= |b| || (offset < W32 && (offset + n < W64 || cap == |b|))
  {
    var out, due, o := ReadOut(b, cap, n, offset), Slice(b, n, offset), Low32(offset);
    hide Low32;
    if o < |b| {
      var to := Min(o + Length(|b|, n, offset), cap);
      assert |out| == to - o;
      if offset >= W32 {
        assert due == [] && |out| > 0;
      } else if offset + n < W64 {
        assert to <= |b|;
        assert out == due by { TakeFirst(b, Zeros(cap - |b|), o, to); }
      } else if cap == |b| {
        assert b + Zeros(cap - |b|) == b;
      } else {
        assert |due| == |b| - o < |out|;
      }
    }
  }

  lemma TakeFirst(a: seq<byte>, b: seq<byte>, from: nat, to: nat)
    requires from <= to <= |a|
    ensures (a + b)[from..to] == a[from..to]
  {
  }

  /** At offset 2^32, where nothing is due, the whole chain of the file comes out. */
  lemma ReadWraps(b: seq<byte>, cap: nat, n: Word)
    requires 0 < |b| <= cap < W32 && n < W32
    ensures ReadOut(b, cap, n, W32) == b + Zeros(cap - |b|) && Slice(b, n, W32) == []
  {
    assert Rem(W32, W32) == Rem(0, W32) == 0;
    assert Low32(W32) == 0;
    var whole := b + Zeros(cap - |b|);
    assert whole[0..cap] == whole;
  }

  /** Reads as ReadOut says, for every offset and count. */
  method Read(v: Volume, node: FileNode, n: Word, offset: Word, ghost s: seq<nat>)
    returns (r: int, out: seq<byte>)
    requires v.Ready() && Mirrored(v.g, v.disk)
    requires FileChain(v.g, v.disk, node.inode, node.size, s) && node.size < W32
    modifies v
    ensures v.disk == old(v.disk)
    ensures !node.isFile ==> r == -1 && out == []
    ensures Clusters(v.g, s) && node.size <= Times(|s|, v.g.BytesPerCluster())
    ensures node.isFile ==>
      && r == |out|
      && out == ReadOut(FileBytes(v.g, v.disk, node.size, s), Times(|s|, v.g.BytesPerCluster()), n, offset)
  {
    hide Table, Next, InCluster, Contents, IsChain, ClusterBytes, Low32;
    FileChainClusters(v.g, v.disk, node.inode, node.size, s);
    if !node.isFile {
      return -1, [];
    }
    var o := Low32(offset);
    if o >= node.size {
      return 0, [];
    }
    var size := Length(node.size, n, offset);
    var cluster := node.inode;
    var bpc := v.g.BytesPerCluster();
    var skip, clusterOff := Split(o, bpc);
    PositionInside(skip, |s|, bpc, o);
    if skip != 0 {
      ghost var s';
      cluster, s' := WalkChain(v, cluster, skip, false, s);
    }
    ChainNonZero(v.T(), s, skip);
    out := ReadData(v, cluster, size, o, s, skip, clusterOff);
    r := |out|;
    ZeroSlack(Contents(v.g, v.disk, s), node.size);
  }

  /** A chain is the file and zeros. */
  lemma ZeroSlack(c: seq<byte>, size: nat)
    requires size <= |c| && ZeroFrom(c, size)
    ensures c == c[..size] + Zeros(|c| - size)
  {
  }

  lemma PositionInside(i: nat, n: nat, d: nat, p: nat)
    requires Times(i, d) <= p < Times(n, d)
    ensures i < n
  {
    TimesMono(if n <= i then n else i, i, d);
  }

  /** out is the stretch of b that starts at `at`. */
  ghost predicate IsSlice(out: seq<byte>, b: seq<byte>, at: nat) {
    at + |out| <= |b| && forall k :: 0 <= k < |out| ==> out[k] == b[at + k]
  }

  lemma SliceOfSlice(out: seq<byte>, b: seq<byte>, p: nat, len: nat, o: nat)
    requires p + len <= |b| && o + |out| <= len && out == b[p..p + len][o..o + |out|]
    ensures IsSlice(out, b, p + o)
  {
    var mid := b[p..p + len];
    assert forall k :: 0 <= k < |out| ==> out[k] == mid[o + k];
  }

  lemma SliceJoin(out: seq<byte>, more: seq<byte>, b: seq<byte>, at: nat)
    requires IsSlice(out, b, at) && IsSlice(more, b, at + |out|)
    ensures IsSlice(out + more, b, at)
  {
    forall k | 0 <= k < |out + more| ensures (out + more)[k] == b[at + k] {
      if k >= |out| {
        assert (out + more)[k] == more[k - |out|];
      }
    }
  }

  lemma SliceNone(b: seq<byte>, at: nat)
    requires at <= |b|
    ensures IsSlice([], b, at)
  {
  }

  lemma SliceEnd(out: seq<byte>, b: seq<byte>, at: nat)
    requires IsSlice(out, b, at)
    ensures at + |out| <= |b| && out == b[at..at + |out|]
  {
  }

  // ----- write -----

  /** The chain bytes after `done` bytes of data went in at offset, the chain
      having grown from bytes b by `more` zeroed clusters. */
  ghost predicate Written(now: seq<byte>, b: seq<byte>, more: nat, bpc: nat, offset: nat, data: seq<byte>) {
    && offset + |data| <= |b| + Times(more, bpc)
    && now == Overwrite(b + Zeros(Times(more, bpc)), offset, data)
  }

  lemma WrittenStart(b: seq<byte>, more: nat, bpc: nat, offset: nat)
    requires offset <= |b| + Times(more, bpc)
    ensures Written(b + Zeros(Times(more, bpc)), b, more, bpc, offset, [])
  {
    OverwriteNothing(b + Zeros(Times(more, bpc)), offset);
  }

  lemma WrittenMore(now: seq<byte>, b: seq<byte>, more: nat, bpc: nat, offset: nat, data: seq<byte>, m: nat, n: nat)
    requires m <= n <= |data| && Written(now, b, more, bpc, offset, data[..m])
    requires offset + n <= |now|
    ensures Written(Overwrite(now, offset + m, data[m..n]), b, more, bpc, offset, data[..n])
  {
    OverwriteTwice(b + Zeros(Times(more, bpc)), offset, data, m, n);
  }

  lemma WrittenGrown(now: seq<byte>, b: seq<byte>, more: nat, bpc: nat, offset: nat, data: seq<byte>)
    requires Written(now, b, more, bpc, offset, data)
    ensures Written(now + Zeros(bpc), b, more + 1, bpc, offset, data)
  {
    MoreZeros(b, more, bpc);
    OverwriteConcat(b + Zeros(Times(more, bpc)), Zeros(bpc), offset, data);
  }

  /** With zero slack, the chain bytes cut at the new size are the spliced file. */
  lemma WrittenIsSpliced(
    now: seq<byte>, b: seq<byte>, more: nat, bpc: nat, offset: nat, data: seq<byte>, size: nat, size': nat)
    requires Written(now, b, more, bpc, offset, data)
    requires size <= |b| && ZeroFrom(b, size)
    requires size' == if offset + |data| > size then offset + |data| else size
    ensures size' <= |now| && now[..size'] == Spliced(b[..size], offset, data) && ZeroFrom(now, size')
  {
  }

  /** One cluster's share of the data goes in at its place in the chain. */
  lemma ChunkWritten(
    g: Geometry, d0: Disk, d1: Disk, d2: Disk, s: seq<nat>, s': seq<nat>, i: nat, o: nat, x: seq<byte>)
    requires g.Valid() && g.Fits(d0) && g.Fits(d1) && g.Fits(d2) && |d2| == |d1|
    requires Extended(g, d0, d1, s, s') && Clusters(g, s') && i < |s'| && o + |x| <= g.BytesPerCluster()
    requires forall l :: 0 <= l < |d1| && !InCluster(g, l, s'[i]) ==> d2[l] == d1[l]
    requires ClusterBytes(g, d2, s'[i]) == Overwrite(ClusterBytes(g, d1, s'[i]), o, x)
    ensures Extended(g, d0, d2, s, s') && Mirrored(g, d2) && IsChain(Table(g, d2, 0), s')
    ensures Times(i, g.BytesPerCluster()) + o + |x| <= |Contents(g, d1, s')|
    ensures Contents(g, d2, s') == Overwrite(Contents(g, d1, s'), Times(i, g.BytesPerCluster()) + o, x)
  {
    hide Table, Next, InCluster, IsChain, ClusterBytes, Extended, Overwrite, SameCluster, Distinct, Mirrored;
    ExtendedPatched(g, d0, d1, d2, s, s', i);
    ExtendedGives(g, d0, d1, s, s');
    ExtendedGives(g, d0, d2, s, s');
    ChainDistinct(Table(g, d1, 0), s');
    OthersKept(g, d1, d2, s', i);
    ContentsPatched(g, d1, d2, s', i, o, x);
  }

  /** The loop that fills clusters from the one holding the offset, growing
      the chain as needed. Stops early only on a full volume. */
  method WriteData(
    v: Volume, start: nat, data: seq<byte>, offset: nat, ghost s: seq<nat>, ghost skip: nat, clusterOff0: nat)
    returns (done: nat, ghost s': seq<nat>)
    requires v.Ready() && Mirrored(v.g, v.disk) && IsChain(v.T(), s) && Clusters(v.g, s)
    requires skip < |s| && s[skip] == start && clusterOff0 < v.g.BytesPerCluster()
    requires offset == Times(skip, v.g.BytesPerCluster()) + clusterOff0
    modifies v
    ensures v.Ready() && Extended(v.g, old(v.disk), v.disk, s, s')
    ensures done <= |data| && (done < |data| ==> Full(v.g, v.disk))
    ensures Written(Contents(v.g, v.disk, s'), Contents(v.g, old(v.disk), s), |s'| - |s|,
                    v.g.BytesPerCluster(), offset, data[..done])
  {
    hide Table, Next, InCluster, Contents, IsChain, ClusterBytes, ClusterByte, Extended, Written, Full, Overwrite,
      Quot, Rem, Distinct;
    var bpc := v.g.BytesPerCluster();
    ghost var d0, b0 := v.disk, Contents(v.g, v.disk, s);
    ExtendedRefl(v.g, v.disk, s);
    TimesStep(skip, |s|, bpc);
    NoZeros(b0, bpc);
    WrittenStart(b0, 0, bpc, offset);
    s' := s;
    done := 0;
    ghost var i: nat := skip;
    var cluster, clusterOff := start, clusterOff0;
    var maxSteps := v.g.totalClusters + 2;
    var steps := 0;
    while done < |data| && cluster != 0 && steps < maxSteps
      invariant v.Ready() && |v.disk| == |d0| && Mirrored(v.g, v.disk)
      invariant Extended(v.g, d0, v.disk, s, s') && IsChain(v.T(), s') && Clusters(v.g, s') && |s| <= |s'|
      invariant 0 <= steps <= i + 1 && i < |s'| && cluster == s'[i] && clusterOff < bpc
      invariant done < |data| ==> steps <= i
      invariant 0 <= done <= |data|
      invariant done < |data| ==> offset + done == Times(i, bpc) + clusterOff
      invariant Written(Contents(v.g, v.disk, s'), b0, |s'| - |s|, bpc, offset, data[..done])
    {
      steps := steps + 1;
      ghost var d1, done1 := v.disk, done;
      done := WriteInCluster(v, cluster, clusterOff, data, done);
      ChunkWritten(v.g, d0, d1, v.disk, s, s', i, clusterOff, data[done1..done]);
      WrittenMore(Contents(v.g, d1, s'), b0, |s'| - |s|, bpc, offset, data, done1, done);
      clusterOff := 0;
      if done < |data| {
        ghost var d2, s2 := v.disk, s';
        var next;
        next, s' := NextOrGrow(v, cluster, s2, i);
        if next == 0 {
          return;
        }
        ExtendedTrans(v.g, d0, d2, v.disk, s, s2, s');
        ExtendedGives(v.g, d0, v.disk, s, s');
        if i + 1 == |s2| {
          WrittenGrown(Contents(v.g, d2, s2), b0, |s2| - |s|, bpc, offset, data[..done]);
        }
        cluster := next;
        i := i + 1;
      }
    }
    ChainNonZero(v.T(), s', i);
    ChainLength(v.T(), s');
  }

  lemma NoZeros(b: seq<byte>, k: nat)
    ensures b + Zeros(Times(0, k)) == b
  {
  }

  lemma OthersKept(g: Geometry, d: Disk, d': Disk, s: seq<nat>, i: nat)
    requires |d'| == |d| && i < |s| && Distinct(s) && Clusters(g, s)
    requires forall l :: 0 <= l < |d| && !InCluster(g, l, s[i]) ==> d'[l] == d[l]
    ensures forall j :: 0 <= j < |s| && j != i ==> SameCluster(g, d, d', s[j])
  {
    forall j, l | 0 <= j < |s| && j != i && 0 <= l < |d| && InCluster(g, l, s[j]) ensures d'[l] == d[l] {
      if InCluster(g, l, s[i]) {
        ClustersDisjoint(g, l, s[i], s[j]);
      }
    }
  }

  /** The cluster that holds the offset: the first cluster is allocated for an
      empty file and the chain is grown up to the offset. 0 on a full volume. */
  method SeekForWrite(v: Volume, node: FileNode, skip: nat, ghost s: seq<nat>)
    returns (cluster: nat, ghost s': seq<nat>)
    requires v.Ready() && Mirrored(v.g, v.disk)
    requires FileChain(v.g, v.disk, node.inode, node.size, s)
    modifies v, node`inode
    ensures v.Ready() && Extended(v.g, old(v.disk), v.disk, s, s')
    ensures Clusters(v.g, s) && Clusters(v.g, s')
    ensures Contents(v.g, v.disk, s')
         == Contents(v.g, old(v.disk), s) + Zeros(Times(|s'| - |s|, v.g.BytesPerCluster()))
    ensures if |s'| == 0 then node.inode == 0 else node.inode == s'[0] != 0
    ensures old(node.inode) != 0 ==> node.inode == old(node.inode)
    ensures cluster == 0 ==> Full(v.g, v.disk)
    ensures cluster != 0 ==> skip < |s'| && cluster == s'[skip]
  {
    hide Table, Next, InCluster, Contents, IsChain, Extended, ClusterBytes;
    FileChainClusters(v.g, v.disk, node.inode, node.size, s);
    FileChainExtended(v.g, v.disk, node.inode, node.size, s);
    ghost var d0, b0 := v.disk, Contents(v.g, v.disk, s);
    var bpc := v.g.BytesPerCluster();
    s' := s;
    cluster := node.inode;
    NoZeros(b0, bpc);
    if cluster == 0 {
      cluster := v.AllocCluster();
      if cluster == 0 {
        return;
      }
      node.inode := cluster;
      s' := [cluster];
      assert s + [cluster] == s';
      LinkedExtends(v.g, d0, v.disk, s, cluster);
      GrownContents(v.g, d0, v.disk, s, cluster);
      MoreZeros(b0, 0, bpc);
    }
    ExtendedGives(v.g, d0, v.disk, s, s');
    if skip != 0 {
      ghost var d1, s1 := v.disk, s';
      cluster, s' := WalkChain(v, cluster, skip, true, s1);
      ExtendedTrans(v.g, d0, d1, v.disk, s, s1, s');
      ExtendedGives(v.g, d0, v.disk, s, s');
      ExtendedGives(v.g, d1, v.disk, s1, s');
      ZerosJoin(b0, |s1| - |s|, |s'| - |s1|, bpc);
    }
  }

  /** The size after r bytes went in at the 32-bit position o; the sum is cut to 32 bits. */
  function NewSize(size: nat, o: nat, r: nat): (n: nat)
    ensures n <= size || n <= o + r
  {
    if Low32(o + r) > size then Low32(o + r) else size
  }

  /** Writing k >= 0 bytes puts them at the 32-bit position of the offset, any gap
      reading as zero; a failed write leaves the file alone. Fewer bytes than asked, or
      -1, only on a full volume. The file becomes what the offset asks for if and only
      if the range written ends below 2^32. */
  method Write(v: Volume, node: FileNode, data: seq<byte>, offset: Word, ghost s: seq<nat>)
    returns (r: int, ghost s': seq<nat>)
    requires v.Ready() && Mirrored(v.g, v.disk)
    requires FileChain(v.g, v.disk, node.inode, node.size, s) && node.size < W32
    modifies v, node
    ensures v.Ready() && Extended(v.g, old(v.disk), v.disk, s, s') && node.size < W32
    ensures old(node.inode) != 0 ==> node.inode == old(node.inode)
    ensures !node.isFile ==> r == -1 && v.disk == old(v.disk) && s' == s
    ensures -1 <= r <= |data| && (r >= 0 ==> node.inode != 0)
    ensures node.size == if 0 <= r then NewSize(old(node.size), Low32(offset), r) else old(node.size)
    ensures node.isFile && r < |data| ==> Full(v.g, v.disk)
    ensures Clusters(v.g, s) && old(node.size) <= Times(|s|, v.g.BytesPerCluster())
    ensures Clusters(v.g, s') && node.size <= Times(|s'|, v.g.BytesPerCluster())
    ensures r >= 0 ==>
      && |s| <= |s'| && Low32(offset) + r <= Times(|s'|, v.g.BytesPerCluster())
      && Written(Contents(v.g, v.disk, s'), Contents(v.g, old(v.disk), s), |s'| - |s|,
                 v.g.BytesPerCluster(), Low32(offset), data[..r])
    ensures r >= 0 ==>
      (FileBytes(v.g, v.disk, node.size, s')
         == Spliced(FileBytes(v.g, old(v.disk), old(node.size), s), offset, data[..r])
       <==> offset + r < W32)
    ensures r < 0 || Low32(offset) + r < W32 ==>
      && FileChain(v.g, v.disk, node.inode, node.size, s')
      && FileBytes(v.g, v.disk, node.size, s')
         == if r < 0 then FileBytes(v.g, old(v.disk), old(node.size), s)
            else Spliced(FileBytes(v.g, old(v.disk), old(node.size), s), Low32(offset), data[..r])
  {
    hide Table, Next, InCluster, Contents, IsChain, Extended, Written, Full, Spliced, ClusterBytes, Low32, NewSize,
      FileChain, FileBytes, ZeroFrom, Mirrored;
    FileChainClusters(v.g, v.disk, node.inode, node.size, s);
    FileChainExtended(v.g, v.disk, node.inode, node.size, s);
    if !node.isFile {
      return -1, s;
    }
    ghost var d0, size0 := v.disk, node.size;
    FileSlack(v.g, v.disk, node.inode, node.size, s);
    var o := Low32(offset);
    r, s' := PutBytes(v, node, data, o, s);
    if r < 0 {
      FileGrown(v.g, d0, v.disk, node.inode, node.size, s, s');
      return;
    }
    var end := Low32(o + r);
    NewSizeIs(node.size, o, r);
    if end > node.size {
      node.size := end;
    }
    WrittenEnd(v.g, d0, v.disk, s, s', o, data[..r]);
    FileWritten(v.g, d0, v.disk, node.inode, size0, s, s', offset, data[..r]);
  }

  lemma WrittenEnd(g: Geometry, d: Disk, d': Disk, s: seq<nat>, s': seq<nat>, o: nat, data: seq<byte>)
    requires g.Valid() && g.Fits(d) && g.Fits(d') && Clusters(g, s) && Clusters(g, s') && |s| <= |s'|
    requires Written(Contents(g, d', s'), Contents(g, d, s), |s'| - |s|, g.BytesPerCluster(), o, data)
    ensures o + |data| <= Times(|s'|, g.BytesPerCluster())
  {
    hide Contents;
  }

  /** Find the place for a write and fill it from there; the size is left to the caller. */
  method PutBytes(v: Volume, node: FileNode, data: seq<byte>, o: nat, ghost s: seq<nat>)
    returns (r: int, ghost s': seq<nat>)
    requires v.Ready() && Mirrored(v.g, v.disk) && FileChain(v.g, v.disk, node.inode, node.size, s)
    modifies v, node`inode
    ensures v.Ready() && Extended(v.g, old(v.disk), v.disk, s, s') && |s| <= |s'|
    ensures Clusters(v.g, s) && Clusters(v.g, s') && -1 <= r <= |data| && (r < |data| ==> Full(v.g, v.disk))
    ensures old(node.inode) != 0 ==> node.inode == old(node.inode)
    ensures if |s'| == 0 then node.inode == 0 else node.inode == s'[0] != 0 && IsChain(v.T(), s')
    ensures r < 0 ==>
      Contents(v.g, v.disk, s') == Contents(v.g, old(v.disk), s) + Zeros(Times(|s'| - |s|, v.g.BytesPerCluster()))
    ensures r >= 0 ==>
      && |s'| > 0
      && Written(Contents(v.g, v.disk, s'), Contents(v.g, old(v.disk), s), |s'| - |s|,
                 v.g.BytesPerCluster(), o, data[..r])
  {
    hide Table, Next, InCluster, Contents, IsChain, Extended, Written, Full, ClusterBytes, FileChain, Mirrored;
    FileChainClusters(v.g, v.disk, node.inode, node.size, s);
    ghost var d0, b0 := v.disk, Contents(v.g, v.disk, s);
    var bpc := v.g.BytesPerCluster();
    var skip, clusterOff := Split(o, bpc);
    var cluster;
    cluster, s' := SeekForWrite(v, node, skip, s);
    ExtendedGives(v.g, d0, v.disk, s, s');
    if cluster == 0 {
      return -1, s';
    }
    ghost var d2, s2 := v.disk, s';
    var done: nat;
    done, s' := WriteData(v, cluster, data, o, s2, skip, clusterOff);
    ExtendedTrans(v.g, d0, d2, v.disk, s, s2, s');
    ExtendedGives(v.g, d0, v.disk, s, s');
    ExtendedGives(v.g, d2, v.disk, s2, s');
    WrittenRebase(Contents(v.g, v.disk, s'), b0, |s2| - |s|, |s'| - |s2|, bpc, o, data[..done]);
    r := done;
  }

  /** A chain that only grew holds the same file. */
  lemma FileGrown(g: Geometry, d: Disk, d': Disk, first: nat, size: nat, s: seq<nat>, s': seq<nat>)
    requires g.Valid() && g.Fits(d) && g.Fits(d') && Clusters(g, s) && Clusters(g, s') && |s| <= |s'|
    requires size <= Times(|s|, g.BytesPerCluster()) && ZeroFrom(Contents(g, d, s), size)
    requires Contents(g, d', s') == Contents(g, d, s) + Zeros(Times(|s'| - |s|, g.BytesPerCluster()))
    requires if |s'| == 0 then first == 0 else first == s'[0] != 0 && IsChain(Table(g, d', 0), s')
    ensures size <= Times(|s'|, g.BytesPerCluster()) && FileChain(g, d', first, size, s')
    ensures FileBytes(g, d', size, s') == FileBytes(g, d, size, s)
  {
    hide Table, Contents, IsChain;
    TimesMono(|s|, |s'|, g.BytesPerCluster());
    GrownFile(g, d', s', Contents(g, d, s), Times(|s'| - |s|, g.BytesPerCluster()), size);
  }

  lemma FileWritten(
    g: Geometry, d: Disk, d': Disk, first: nat, size: nat, s: seq<nat>, s': seq<nat>, offset: nat, data: seq<byte>)
    requires g.Valid() && g.Fits(d) && g.Fits(d') && Clusters(g, s) && Clusters(g, s') && |s| <= |s'|
    requires size <= Times(|s|, g.BytesPerCluster()) && size < W32 && ZeroFrom(Contents(g, d, s), size)
    requires Written(Contents(g, d', s'), Contents(g, d, s), |s'| - |s|, g.BytesPerCluster(), Low32(offset), data)
    requires |s'| > 0 && first == s'[0] != 0 && IsChain(Table(g, d', 0), s')
    ensures var size' := NewSize(size, Low32(offset), |data|); var b := FileBytes(g, d, size, s);
      && size' <= Times(|s'|, g.BytesPerCluster()) && size' < W32
      && (FileBytes(g, d', size', s') == Spliced(b, offset, data) <==> offset + |data| < W32)
      && (Low32(offset) + |data| < W32 ==>
            FileChain(g, d', first, size', s') && FileBytes(g, d', size', s') == Spliced(b, Low32(offset), data))
  {
    hide Table, Contents, IsChain, Written, NewSize, Low32, Spliced, ZeroFrom;
    WrittenAt(Contents(g, d', s'), Contents(g, d, s), |s'| - |s|, g.BytesPerCluster(), offset, data, size);
  }

  lemma NewSizeIs(size: nat, o: nat, r: nat)
    ensures NewSize(size, o, r) == if Low32(o + r) > size then Low32(o + r) else size
    ensures o + r < W32 ==> NewSize(size, o, r) == if o + r > size then o + r else size
  {
    hide Low32;
  }

  lemma WrittenSize(now: seq<byte>, b: seq<byte>, more: nat, bpc: nat, o: nat, data: seq<byte>, size: nat)
    requires Written(now, b, more, bpc, o, data) && size <= |b|
    ensures |now| == |b| + Times(more, bpc) && o + |data| <= |now| && NewSize(size, o, |data|) <= |now|
  {
    hide Low32;
  }

  /** The bytes written are those asked for if and only if the range ends below 2^32. */
  lemma WrittenAt(now: seq<byte>, b: seq<byte>, more: nat, bpc: nat, offset: nat, data: seq<byte>, size: nat)
    requires Written(now, b, more, bpc, Low32(offset), data)
    requires size <= |b| && size < W32 && ZeroFrom(b, size)
    ensures var o := Low32(offset); var size' := NewSize(size, o, |data|);
      && size' <= |now| && size' < W32
      && (now[..size'] == Spliced(b[..size], offset, data) <==> offset + |data| < W32)
      && (o + |data| < W32 ==> now[..size'] == Spliced(b[..size], o, data) && ZeroFrom(now, size'))
  {
    hide Low32, Written, NewSize, Spliced;
    var o := Low32(offset);
    var size' := NewSize(size, o, |data|);
    WrittenSize(now, b, more, bpc, o, data, size);
    NewSizeIs(size, o, |data|);
    if o + |data| < W32 {
      WrittenIsSpliced(now, b, more, bpc, o, data, size, size');
    }
    if offset + |data| >= W32 {
      assert |Spliced(b[..size], offset, data)| >= W32 > |now[..size']|;
    }
  }

  /** At offset 2^32 a write goes over the start of the file. */
  lemma WriteWraps(b: seq<byte>, data: seq<byte>)
    requires |data| <= |b| < W32
    ensures Spliced(b, Low32(W32), data) == data + b[|data|..] && |Spliced(b, W32, data)| == W32 + |data|
  {
    assert Rem(W32, W32) == Rem(0, W32) == 0;
    assert Low32(W32) == 0;
  }

  lemma FileSlack(g: Geometry, d: Disk, first: nat, size: nat, s: seq<nat>)
    requires g.Valid() && g.Fits(d) && FileChain(g, d, first, size, s) && Clusters(g, s)
    ensures ZeroFrom(Contents(g, d, s), size)
  {
  }

  lemma FileChainExtended(g: Geometry, d: Disk, first: nat, size: nat, s: seq<nat>)
    requires g.Valid() && g.Fits(d) && Mirrored(g, d) && FileChain(g, d, first, size, s)
    ensures Extended(g, d, d, s, s)
  {
    ExtendedRefl(g, d, s);
  }

  lemma {:induction false} ZerosJoin(b: seq<byte>, m: nat, n: nat, k: nat)
    ensures b + Zeros(Times(m, k)) + Zeros(Times(n, k)) == b + Zeros(Times(m + n, k))
  {
    TimesAdd(m, n, k);
    assert Zeros(Times(m, k)) + Zeros(Times(n, k)) == Zeros(Times(m + n, k));
    assert b + Zeros(Times(m, k)) + Zeros(Times(n, k)) == b + (Zeros(Times(m, k)) + Zeros(Times(n, k)));
  }

  lemma WrittenRebase(now: seq<byte>, b: seq<byte>, m: nat, n: nat, k: nat, offset: nat, data: seq<byte>)
    requires Written(now, b + Zeros(Times(m, k)), n, k, offset, data)
    ensures Written(now, b, m + n, k, offset, data)
  {
    TimesAdd(m, n, k);
    ZerosJoin(b, m, n, k);
  }

  /** Appending zeros leaves the bytes and the slack of a file alone. */
  lemma GrownFile(g: Geometry, d: Disk, s: seq<nat>, b: seq<byte>, n: nat, size: nat)
    requires g.Valid() && g.Fits(d) && Clusters(g, s) && Contents(g, d, s) == b + Zeros(n)
    requires size <= |b| && ZeroFrom(b, size)
    ensures Contents(g, d, s)[..size] == b[..size] && ZeroFrom(Contents(g, d, s), size)
  {
  }
}
