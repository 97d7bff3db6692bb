/**
 The physical frame allocator: one bit per frame in an array of 32-bit words,
 and a running count of the frames in use.
 */
module Pmm {

  // ----- one word of the bitmap -----

  /** Bit positions as bit vectors, so that shifts stay in bit-vector logic. */
  function Pos(i: nat): (p: bv6)
    requires i < 32
    ensures p < 32
  {
    if i == 0 then 0 else if i == 1 then 1 else if i == 2 then 2 else if i == 3 then 3
    else if i == 4 then 4 else if i == 5 then 5 else if i == 6 then 6 else if i == 7 then 7
    else if i == 8 then 8 else if i == 9 then 9 else if i == 10 then 10 else if i == 11 then 11
    else if i == 12 then 12 else if i == 13 then 13 else if i == 14 then 14 else if i == 15 then 15
    else if i == 16 then 16 else if i == 17 then 17 else if i == 18 then 18 else if i == 19 then 19
    else if i == 20 then 20 else if i == 21 then 21 else if i == 22 then 22 else if i == 23 then 23
    else if i == 24 then 24 else if i == 25 then 25 else if i == 26 then 26 else if i == 27 then 27
    else if i == 28 then 28 else if i == 29 then 29 else if i == 30 then 30
    else 31
  }

  lemma PosInjective(i: nat, j: nat)
    requires i < 32 && j < 32 && Pos(i) == Pos(j)
    ensures i == j
  {
  }

  lemma SamePos(i: nat, j: nat)
    requires i < 32 && j < 32
    ensures Pos(i) == Pos(j) <==> i == j
  {
    if Pos(i) == Pos(j) {
      PosInjective(i, j);
    }
  }

  predicate BitAt(w: bv32, p: bv6)
    requires p < 32
  {
    (w >> p) & 1 == 1
  }

  function WithBit(w: bv32, p: bv6): bv32
    requires p < 32
  {
    w | (1 << p)
  }

  function WithoutBit(w: bv32, p: bv6): bv32
    requires p < 32
  {
    w & !(1 << p)
  }

  lemma SetBit(w: bv32, p: bv6, q: bv6)
    requires p < 32 && q < 32
    ensures BitAt(WithBit(w, p), q) == (p == q || BitAt(w, q))
  {
  }

  lemma ClearBit(w: bv32, p: bv6, q: bv6)
    requires p < 32 && q < 32
    ensures BitAt(WithoutBit(w, p), q) == (p != q && BitAt(w, q))
  {
  }

  /** The allocator's own test of a bit. */
  predicate MaskedOut(w: bv32, p: bv6)
    requires p < 32
  {
    w & (1 << p) == 0
  }

  lemma TestBit(w: bv32, p: bv6)
    requires p < 32
    ensures MaskedOut(w, p) == !BitAt(w, p)
  {
  }

  /** A word other than all ones has a clear bit. */
  lemma AllOnes(w: bv32)
    requires forall i :: 0 <= i < 32 ==> BitAt(w, Pos(i))
    ensures w == 0xFFFF_FFFF
  {
    assert BitAt(w, Pos(0)) && BitAt(w, Pos(1)) && BitAt(w, Pos(2)) && BitAt(w, Pos(3));
    assert BitAt(w, Pos(4)) && BitAt(w, Pos(5)) && BitAt(w, Pos(6)) && BitAt(w, Pos(7));
    assert BitAt(w, Pos(8)) && BitAt(w, Pos(9)) && BitAt(w, Pos(10)) && BitAt(w, Pos(11));
    assert BitAt(w, Pos(12)) && BitAt(w, Pos(13)) && BitAt(w, Pos(14)) && BitAt(w, Pos(15));
    assert BitAt(w, Pos(16)) && BitAt(w, Pos(17)) && BitAt(w, Pos(18)) && BitAt(w, Pos(19));
    assert BitAt(w, Pos(20)) && BitAt(w, Pos(21)) && BitAt(w, Pos(22)) && BitAt(w, Pos(23));
    assert BitAt(w, Pos(24)) && BitAt(w, Pos(25)) && BitAt(w, Pos(26)) && BitAt(w, Pos(27));
    assert BitAt(w, Pos(28)) && BitAt(w, Pos(29)) && BitAt(w, Pos(30)) && BitAt(w, Pos(31));
  }

  // ----- the bitmap as a sequence of flags -----

  function Bit(words: seq<bv32>, f: nat): bool
    requires f / 32 < |words|
  {
    BitAt(words[f / 32], Pos(f % 32))
  }

  function Flags(words: seq<bv32>, n: nat): (r: seq<bool>)
    requires n <= 32 * |words|
    ensures |r| == n && forall f :: 0 <= f < n ==> r[f] == Bit(words, f)
  {
    seq(n, f requires 0 <= f < n => Bit(words, f))
  }

  /** Changing one bit of one word changes one flag. */
  lemma FlagsUpdate(words: seq<bv32>, n: nat, f: nat, w: bv32, b: bool)
    requires f < n <= 32 * |words|
    requires forall k: nat :: k < 32 ==>
      BitAt(w, Pos(k)) == if k == f % 32 then b else BitAt(words[f / 32], Pos(k))
    ensures Flags(words[f / 32 := w], n) == Flags(words, n)[f := b]
  {
    hide BitAt, Pos;
    var words' := words[f / 32 := w];
    forall g | 0 <= g < n ensures Bit(words', g) == if g == f then b else Bit(words, g) {
      SameFrame(f, g);
    }
  }

  lemma SameFrame(f: nat, g: nat)
    ensures f == g <==> f / 32 == g / 32 && f % 32 == g % 32
  {
  }

  /** How many flags are set. */
  function Count(flags: seq<bool>): (n: nat)
    ensures n <= |flags|
  {
    if |flags| == 0 then 0 else Count(flags[..|flags| - 1]) + if flags[|flags| - 1] then 1 else 0
  }

  lemma {:induction false} CountUpdate(flags: seq<bool>, f: nat, b: bool)
    requires f < |flags| && flags[f] != b
    ensures Count(flags[f := b]) == if b then Count(flags) + 1 else Count(flags) - 1
  {
    var n := |flags| - 1;
    if f == n {
      assert flags[f := b][..n] == flags[..n];
    } else {
      assert flags[f := b][..n] == flags[..n][f := b];
      CountUpdate(flags[..n], f, b);
    }
  }

  /** Every frame is taken. */
  ghost predicate Full(inUse: seq<bool>) { forall f :: 0 <= f < |inUse| ==> inUse[f] }

  lemma {:induction false} CountAll(flags: seq<bool>)
    requires Full(flags)
    ensures Count(flags) == |flags|
  {
    if |flags| > 0 {
      CountAll(flags[..|flags| - 1]);
    }
  }

  /** The inner scan of an allocation. */
  method LowestClear(w: bv32) returns (bit: nat)
    requires w != 0xFFFF_FFFF
    ensures bit < 32 && !BitAt(w, Pos(bit)) && forall k :: 0 <= k < bit ==> BitAt(w, Pos(k))
  {
    hide BitAt, Pos, MaskedOut;
    bit := 0;
    while bit < 32
      invariant 0 <= bit <= 32 && forall k :: 0 <= k < bit ==> BitAt(w, Pos(k))
    {
      TestBit(w, Pos(bit));
      if MaskedOut(w, Pos(bit)) {
        return;
      }
      bit := bit + 1;
    }
    AllOnes(w);
  }

  class FrameAllocator {
    const total: nat
    const bitmap: array<bv32>
    var used: nat

    ghost predicate Valid()
      reads this, bitmap
    {
      32 * bitmap.Length >= total && used == Count(InUse())
    }

    /** Which frames are taken. */
    ghost function InUse(): (r: seq<bool>)
      reads bitmap
      requires 32 * bitmap.Length >= total
      ensures |r| == total
    {
      Flags(bitmap[..], total)
    }

    /** All frames start out taken (pmm.c:81-84); boot then frees the usable ones. */
    constructor (total: nat)
      ensures Valid() && this.total == total && fresh(bitmap)
      ensures forall f :: 0 <= f < total ==> InUse()[f]
    {
      this.total := total;
      bitmap := new bv32[(total + 31) / 32](_ => 0xFFFF_FFFF);
      used := total;
      new;
      forall f | 0 <= f < total ensures InUse()[f] {
        OnesHaveBits(Pos(f % 32));
      }
      CountAll(InUse());
    }

    method Test(frame: nat) returns (b: bool)
      requires Valid() && frame < total
      ensures b == InUse()[frame]
    {
      assert InUse()[frame] == Bit(bitmap[..], frame);
      b := (bitmap[frame / 32] >> Pos(frame % 32)) & 1 == 1;
    }

    method Set(frame: nat)
      requires 32 * bitmap.Length >= total && frame < total
      modifies bitmap
      ensures InUse() == old(InUse())[frame := true]
    {
      hide BitAt, Pos, Flags, WithBit, WithoutBit;
      ghost var words := bitmap[..];
      var w := WithBit(bitmap[frame / 32], Pos(frame % 32));
      forall k: nat | k < 32 ensures BitAt(w, Pos(k)) == (k == frame % 32 || BitAt(words[frame / 32], Pos(k))) {
        SetBit(words[frame / 32], Pos(frame % 32), Pos(k));
        SamePos(k, frame % 32);
      }
      bitmap[frame / 32] := w;
      assert bitmap[..] == words[frame / 32 := w];
      FlagsUpdate(words, total, frame, w, true);
    }

    method Clear(frame: nat)
      requires 32 * bitmap.Length >= total && frame < total
      modifies bitmap
      ensures InUse() == old(InUse())[frame := false]
    {
      hide BitAt, Pos, Flags, WithBit, WithoutBit;
      ghost var words := bitmap[..];
      var w := WithoutBit(bitmap[frame / 32], Pos(frame % 32));
      forall k: nat | k < 32 ensures BitAt(w, Pos(k)) == (k != frame % 32 && BitAt(words[frame / 32], Pos(k))) {
        ClearBit(words[frame / 32], Pos(frame % 32), Pos(k));
        SamePos(k, frame % 32);
      }
      bitmap[frame / 32] := w;
      assert bitmap[..] == words[frame / 32 := w];
      FlagsUpdate(words, total, frame, w, false);
    }

    /** The address of the lowest free frame, which becomes taken; 0 when no
        frame is free. Frame 0 is never free, so the two cannot be confused. */
    method Alloc() returns (addr: nat)
      requires Valid() && 0 < total && InUse()[0]
      modifies this, bitmap
      ensures Valid() && addr % 4096 == 0
      ensures addr == 0 ==> InUse() == old(InUse()) && forall f :: 0 <= f < total ==> InUse()[f]
      ensures addr != 0 ==>
        && addr / 4096 < total && !old(InUse())[addr / 4096]
        && InUse() == old(InUse())[addr / 4096 := true]
        && forall f :: 0 <= f < addr / 4096 ==> old(InUse())[f]
    {
      hide BitAt, Pos, Count, Flags, Bit;
      var i := 0;
      while i < bitmap.Length
        invariant 0 <= i <= bitmap.Length && Valid() && bitmap[..] == old(bitmap[..]) && used == old(used)
        invariant forall f :: 0 <= f < total && f < 32 * i ==> InUse()[f]
      {
        WordFlags(i);
        if bitmap[i] != 0xFFFF_FFFF {
          var bit := LowestClear(bitmap[i]);
          var frame := i * 32 + bit;
          if frame >= total {
            NothingFree(i, bit);
            return 0;
          }
          CountUpdate(InUse(), frame, true);
          Set(frame);
          used := used + 1;
          return frame * 4096;
        }
        OnesEverywhere();
        i := i + 1;
      }
      return 0;
    }

    /** The flags of one word's frames are its bits. */
    lemma WordFlags(i: nat)
      requires 32 * bitmap.Length >= total && i < bitmap.Length
      ensures forall f :: 32 * i <= f < 32 * i + 32 && f < total ==> InUse()[f] == BitAt(bitmap[i], Pos(f - 32 * i))
    {
      hide BitAt, Pos;
    }

    /** A clear bit past the last frame, below which all is taken. */
    lemma NothingFree(i: nat, bit: nat)
      requires 32 * bitmap.Length >= total && i < bitmap.Length && bit < 32 && total <= 32 * i + bit
      requires forall f :: 0 <= f < total && f < 32 * i ==> InUse()[f]
      requires forall k :: 0 <= k < bit ==> BitAt(bitmap[i], Pos(k))
      ensures forall f :: 0 <= f < total ==> InUse()[f]
    {
      hide BitAt, Pos, Flags, Bit;
      WordFlags(i);
      forall f | 32 * i <= f < total ensures InUse()[f] {
        assert BitAt(bitmap[i], Pos(f - 32 * i));
      }
    }

    /** Gives a frame back. Addresses outside memory and frames that are
        already free are ignored. */
    method Free(addr: nat)
      requires Valid()
      modifies this, bitmap
      ensures Valid()
      ensures InUse() == if addr / 4096 < total then old(InUse())[addr / 4096 := false] else old(InUse())
    {
      hide BitAt, Pos, Count, Flags, Bit;
      var frame := addr / 4096;
      if frame < total {
        var b := Test(frame);
        if b {
          CountUpdate(InUse(), frame, false);
          Clear(frame);
          used := used - 1;
        }
      }
    }

    /** Takes every frame that a byte range touches. */
    method ReserveRange(start: nat, size: nat)
      requires Valid()
      modifies this, bitmap
      ensures Valid()
      ensures forall f :: 0 <= f < total ==>
        InUse()[f] == (old(InUse())[f] || start / 4096 <= f < (start + size + 4095) / 4096)
    {
      hide BitAt, Pos, Count, Flags, Bit;
      var first, last := start / 4096, (start + size + 4095) / 4096;
      var i := first;
      while i < last && i < total
        invariant first <= i && (i <= last || i == first) && Valid()
        invariant forall f :: 0 <= f < total ==> InUse()[f] == (old(InUse())[f] || first <= f < i)
      {
        var b := Test(i);
        if !b {
          CountUpdate(InUse(), i, true);
          Set(i);
          used := used + 1;
        }
        i := i + 1;
      }
    }

    /** Free frames, as reported: total less the count. */
    method FreeCount() returns (n: nat)
      requires Valid()
      ensures n == total - Count(InUse())
    {
      n := total - used;
    }
  }

  lemma OnesHaveBits(p: bv6)
    requires p < 32
    ensures BitAt(0xFFFF_FFFF, p)
  {
  }

  lemma OnesEverywhere()
    ensures forall i :: 0 <= i < 32 ==> BitAt(0xFFFF_FFFF, Pos(i))
  {
    forall i | 0 <= i < 32 ensures BitAt(0xFFFF_FFFF, Pos(i)) {
      OnesHaveBits(Pos(i));
    }
  }
}
