/**
 The on-disk layout of a FAT16/FAT32 volume: sectors, the mirrored allocation
 tables, and the pure functions that read and patch one table entry.
 Integers are unbounded here; the byte shifts and masks of the driver are
 written as the arithmetic they perform.
 */
module FatLayout {
  import opened Octets
  import opened Arith

  type Sector = s: seq<byte> | |s| == 512 witness seq(512, _ => 0)
  type Disk = seq<Sector>

  function ZeroSector(): (s: Sector)
    ensures forall i :: 0 <= i < 512 ==> s[i] == 0
  {
    seq(512, _ => 0)
  }

  const FAT32_SPAN := 0x1000_0000     // one more than the 28-bit entry mask
  const FAT16_SPAN := 0x1_0000

  datatype Geometry = Geometry(
    isFat32: bool,
    fatStart: nat,
    sectorsPerFat: nat,
    numFats: nat,
    rootDirLba: nat,
    rootDirSectors: nat,
    rootCluster: nat,
    dataStart: nat,
    sectorsPerCluster: nat,
    totalClusters: nat)
  {
    function EntrySize(): nat { if isFat32 then 4 else 2 }

    function Span(): nat { if isFat32 then FAT32_SPAN else FAT16_SPAN }

    /** The entry bits of a table word. */
    function Low(v: nat): (r: nat)
      ensures r < Span()
    {
      Rem(v, Span())
    }

    /** The reserved bits of a table word. */
    function High(v: nat): nat { Quot(v, Span()) }

    function Eoc(): nat { Span() - 1 }

    function EocMin(): nat { Span() - 8 }

    function BytesPerCluster(): nat { sectorsPerCluster * 512 }

    function LastCluster(): nat { totalClusters + 1 }

    predicate InRange(c: int) { 2 <= c <= totalClusters + 1 }

    function FatEnd(): nat { fatStart + Times(numFats, sectorsPerFat) }

    /** A consistent boot sector: every entry of every table copy has a place
        on disk, no cluster number can be mistaken for an end-of-chain mark,
        and tables, fixed root and data follow each other without overlap. */
    predicate Valid() {
      && 0 < sectorsPerCluster
      && 0 < numFats
      && EntryOffset(totalClusters + 2) <= sectorsPerFat * 512
      && LastCluster() < EocMin()
      && (if isFat32 then FatEnd() <= dataStart && InRange(rootCluster)
          else FatEnd() <= rootDirLba && rootDirLba + rootDirSectors <= dataStart && rootCluster == 0)
    }

    function EntryOffset(c: nat): nat { if isFat32 then c * 4 else c * 2 }

    /** The sector, within one table copy, that holds the entry of cluster c. */
    function EntrySector(c: nat): nat { Quot(EntryOffset(c), 512) }

    function EntryByte(c: nat): nat { Rem(EntryOffset(c), 512) }

    function EntryLba(f: nat, c: nat): nat { fatStart + Times(f, sectorsPerFat) + EntrySector(c) }

    predicate InFat(lba: nat) { fatStart <= lba < FatEnd() }

    function ClusterLba(c: nat): nat
      requires c >= 2
    {
      dataStart + Times(c - 2, sectorsPerCluster)
    }

    /** The whole volume lies on the disk. */
    predicate Fits(disk: Disk) {
      |disk| >= dataStart + Times(totalClusters, sectorsPerCluster)
    }
  }

  // ----- where an entry lies -----

  /** Every in-range entry sits inside its table copy, and inside one sector. */
  lemma EntryPlace(g: Geometry, f: nat, c: nat)
    requires g.Valid() && f < g.numFats && c <= g.LastCluster()
    ensures g.EntrySector(c) < g.sectorsPerFat
    ensures g.EntryByte(c) + g.EntrySize() <= 512
    ensures g.fatStart <= g.EntryLba(f, c) < g.FatEnd()
    ensures g.FatEnd() <= g.dataStart
  {
    TimesStep(f, g.numFats, g.sectorsPerFat);
    QuotRem(g.EntryOffset(c), 512);
  }

  /** Different copies use different sectors. */
  lemma EntryLbaInjective(g: Geometry, f: nat, f': nat, c: nat, c': nat)
    requires g.Valid() && f < g.numFats && f' < g.numFats
    requires c <= g.LastCluster() && c' <= g.LastCluster()
    requires g.EntryLba(f, c) == g.EntryLba(f', c')
    ensures f == f' && g.EntrySector(c) == g.EntrySector(c')
  {
    EntryPlace(g, f, c);
    EntryPlace(g, f', c');
    if f < f' {
      TimesStep(f, f', g.sectorsPerFat);
    } else if f' < f {
      TimesStep(f', f, g.sectorsPerFat);
    }
  }

  /** Two entries in one sector occupy disjoint byte ranges. */
  lemma EntryBytesDisjoint(g: Geometry, c: nat, c': nat)
    requires c != c' && g.EntrySector(c) == g.EntrySector(c')
    ensures g.EntryByte(c) + g.EntrySize() <= g.EntryByte(c')
         || g.EntryByte(c') + g.EntrySize() <= g.EntryByte(c)
  {
    QuotRem(g.EntryOffset(c), 512);
    QuotRem(g.EntryOffset(c'), 512);
  }

  // ----- one table entry -----

  function Word16(b0: int, b1: int): int { b0 + 0x100 * b1 }

  function Word32(b0: int, b1: int, b2: int, b3: int): int { Word16(b0, b1) + 0x1_0000 * Word16(b2, b3) }

  function ByteOf(v: nat, i: nat): (r: byte)
    decreases i
  {
    if i == 0 then Rem(v, 0x100) else ByteOf(Quot(v, 0x100), i - 1)
  }

  lemma ByteParts(v: nat)
    ensures var q := Quot(v, 0x100);
      v == ByteOf(v, 0) + 0x100 * q && ByteOf(v, 1) == ByteOf(q, 0) && ByteOf(v, 2) == ByteOf(q, 1) &&
        ByteOf(v, 3) == ByteOf(q, 2)
  {
    QuotRem(v, 0x100);
  }

  /** Storing a word as bytes and loading it back gives the word. */
  lemma WordRoundTrip(v: nat)
    ensures v < 0x1_0000 ==> Word16(ByteOf(v, 0), ByteOf(v, 1)) == v
    ensures v < 0x1_0000_0000 ==> Word32(ByteOf(v, 0), ByteOf(v, 1), ByteOf(v, 2), ByteOf(v, 3)) == v
  {
    hide ByteOf, Quot, Rem;
    var v1 := Quot(v, 0x100);
    var v2 := Quot(v1, 0x100);
    var v3 := Quot(v2, 0x100);
    ByteParts(v);
    ByteParts(v1);
    ByteParts(v2);
    ByteParts(v3);
    if v < 0x1_0000 {
      assert v1 < 0x100 && v2 == 0;
    } else if v < 0x1_0000_0000 {
      assert v1 < 0x100_0000 && v2 < 0x1_0000 && v3 < 0x100;
    }
  }

  lemma BytesAbove(b: byte, w: nat)
    ensures var v := b + 0x100 * w;
      ByteOf(v, 0) == b && ByteOf(v, 1) == ByteOf(w, 0) && ByteOf(v, 2) == ByteOf(w, 1) && ByteOf(v, 3) == ByteOf(w, 2)
  {
    QuotRemOf(w, b, 0x100);
  }

  /** Loading bytes as a word and storing it gives the bytes. */
  lemma BytesRoundTrip(b0: byte, b1: byte, b2: byte, b3: byte)
    ensures var v := Word32(b0, b1, b2, b3);
      0 <= v < 0x1_0000_0000 && ByteOf(v, 0) == b0 && ByteOf(v, 1) == b1 && ByteOf(v, 2) == b2 && ByteOf(v, 3) == b3
  {
    hide ByteOf;
    BytesAbove(b3, 0);
    BytesAbove(b2, b3);
    BytesAbove(b1, b2 + 0x100 * b3);
    BytesAbove(b0, b1 + 0x100 * (b2 + 0x100 * b3));
  }

  /** The little-endian word at byte b of a sector (fat.c:147-156). */
  function DecodeEntry(g: Geometry, s: Sector, b: nat): (r: nat)
    requires b + g.EntrySize() <= 512
    ensures r < if g.isFat32 then 0x1_0000_0000 else 0x1_0000
  {
    if g.isFat32 then Word32(s[b], s[b + 1], s[b + 2], s[b + 3]) else Word16(s[b], s[b + 1])
  }

  /** The value stored: the reserved bits of the old word, the entry bits of the new. */
  function MergedWord(g: Geometry, old_: nat, value: nat): nat {
    if g.isFat32 then Quot(old_, FAT32_SPAN) * FAT32_SPAN + Rem(value, FAT32_SPAN) else Rem(value, FAT16_SPAN)
  }

  lemma MergedParts(g: Geometry, old_: nat, value: nat)
    ensures var v := MergedWord(g, old_, value);
      && g.Low(v) == g.Low(value) && g.High(v) == (if g.isFat32 then g.High(old_) else 0)
      && if g.isFat32 then old_ < 0x1_0000_0000 ==> v < 0x1_0000_0000 else v < 0x1_0000
  {
    hide Quot, Rem;
    QuotRem(old_, FAT32_SPAN);
    QuotRemOf(Quot(old_, FAT32_SPAN), Rem(value, FAT32_SPAN), FAT32_SPAN);
    QuotRemOf(0, Rem(value, FAT16_SPAN), FAT16_SPAN);
  }

  /** The sector after the read-modify-write of one entry (fat.c:170-181). */
  function PatchEntry(g: Geometry, s: Sector, b: nat, value: nat): (r: Sector)
    requires b + g.EntrySize() <= 512
  {
    var v := MergedWord(g, DecodeEntry(g, s, b), value);
    if g.isFat32 then
      s[b := ByteOf(v, 0)][b + 1 := ByteOf(v, 1)][b + 2 := ByteOf(v, 2)][b + 3 := ByteOf(v, 3)]
    else
      s[b := ByteOf(v, 0)][b + 1 := ByteOf(v, 1)]
  }

  /** The word is replaced below the mask and kept above it. */
  lemma DecodePatched(g: Geometry, s: Sector, b: nat, value: nat)
    requires b + g.EntrySize() <= 512
    ensures DecodeEntry(g, PatchEntry(g, s, b, value), b) == MergedWord(g, DecodeEntry(g, s, b), value)
    ensures !g.isFat32 ==> g.High(DecodeEntry(g, s, b)) == 0
  {
    hide MergedWord, ByteOf;
    var v := MergedWord(g, DecodeEntry(g, s, b), value);
    MergedParts(g, DecodeEntry(g, s, b), value);
    WordRoundTrip(v);
  }

  lemma DecodeUntouched(g: Geometry, s: Sector, b: nat, b': nat, value: nat)
    requires b + g.EntrySize() <= 512 && b' + g.EntrySize() <= 512
    requires b + g.EntrySize() <= b' || b' + g.EntrySize() <= b
    ensures DecodeEntry(g, PatchEntry(g, s, b, value), b') == DecodeEntry(g, s, b')
  {
  }

  // ----- the tables as sequences -----

  function RawEntry(g: Geometry, disk: Disk, f: nat, c: nat): (r: nat)
    requires g.Valid() && g.Fits(disk) && f < g.numFats && c <= g.LastCluster()
  {
    EntryPlace(g, f, c);
    DecodeEntry(g, disk[g.EntryLba(f, c)], g.EntryByte(c))
  }

  /** Copy f of the allocation table, with the reserved bits masked off. */
  function Table(g: Geometry, disk: Disk, f: nat): (t: seq<nat>)
    requires g.Valid() && g.Fits(disk) && f < g.numFats
    ensures |t| == g.totalClusters + 2
    ensures forall c :: 0 <= c < |t| ==> t[c] < g.Span()
  {
    seq(g.totalClusters + 2, c requires 0 <= c < g.totalClusters + 2 => g.Low(RawEntry(g, disk, f, c)))
  }

  /** All copies of the table agree. */
  ghost predicate Mirrored(g: Geometry, disk: Disk)
    requires g.Valid() && g.Fits(disk)
  {
    forall f :: 0 <= f < g.numFats ==> Table(g, disk, f) == Table(g, disk, 0)
  }

  /** Reserved high bits of every entry of every copy are as before. */
  ghost predicate ReservedBitsKept(g: Geometry, disk: Disk, disk': Disk)
    requires g.Valid() && g.Fits(disk) && g.Fits(disk')
  {
    forall f, c :: 0 <= f < g.numFats && 0 <= c <= g.LastCluster() ==>
      g.High(RawEntry(g, disk', f, c)) == g.High(RawEntry(g, disk, f, c))
  }

  /** The disk after one entry of copy f is patched. */
  function PutEntry(g: Geometry, disk: Disk, f: nat, c: nat, value: nat): (r: Disk)
    requires g.Valid() && g.Fits(disk) && f < g.numFats && c <= g.LastCluster()
    ensures |r| == |disk|
  {
    EntryPlace(g, f, c);
    var lba := g.EntryLba(f, c);
    disk[lba := PatchEntry(g, disk[lba], g.EntryByte(c), value)]
  }

  lemma PutEntryRaw(g: Geometry, disk: Disk, f: nat, c: nat, value: nat, f': nat, c': nat)
    requires g.Valid() && g.Fits(disk)
    requires f < g.numFats && c <= g.LastCluster() && f' < g.numFats && c' <= g.LastCluster()
    ensures var d := PutEntry(g, disk, f, c, value);
      && g.High(RawEntry(g, d, f', c')) == g.High(RawEntry(g, disk, f', c'))
      && g.Low(RawEntry(g, d, f', c')) == g.Low(if f == f' && c == c' then value else RawEntry(g, disk, f', c'))
  {
    EntryPlace(g, f, c);
    EntryPlace(g, f', c');
    var lba := g.EntryLba(f, c);
    if lba == g.EntryLba(f', c') {
      EntryLbaInjective(g, f, f', c, c');
      if c == c' {
        DecodePatched(g, disk[lba], g.EntryByte(c), value);
        MergedParts(g, DecodeEntry(g, disk[lba], g.EntryByte(c)), value);
      } else {
        EntryBytesDisjoint(g, c, c');
        DecodeUntouched(g, disk[lba], g.EntryByte(c), g.EntryByte(c'), value);
      }
    }
  }

  /** Patching one entry changes one element of one copy. */
  lemma PutEntryTable(g: Geometry, disk: Disk, f: nat, c: nat, value: nat, f': nat)
    requires g.Valid() && g.Fits(disk)
    requires f < g.numFats && c <= g.LastCluster() && f' < g.numFats
    ensures Table(g, PutEntry(g, disk, f, c, value), f')
         == if f == f' then Table(g, disk, f)[c := g.Low(value)] else Table(g, disk, f')
  {
    var d := PutEntry(g, disk, f, c, value);
    forall k | 0 <= k < g.totalClusters + 2
      ensures Table(g, d, f')[k]
           == (if f == f' then Table(g, disk, f)[c := g.Low(value)] else Table(g, disk, f'))[k]
    {
      PutEntryRaw(g, disk, f, c, value, f', k);
    }
  }
}
