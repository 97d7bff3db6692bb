/**
 The kernel heap: headers linked by address, first fit, merging on both sides.
 The linked headers refine a sequence of blocks that tiles the region.
 */
module Heap {
  import opened Blocks

  const W64 := 0x1_0000_0000_0000_0000
  const HEADER := 32

  // ----- totals -----

  ghost function UsedBytes(bs: seq<Block>): nat {
    if bs == [] then 0 else (if bs[0].free then 0 else bs[0].size + HEADER) + UsedBytes(bs[1..])
  }

  ghost function FreeBytes(bs: seq<Block>): nat {
    if bs == [] then 0 else (if bs[0].free then bs[0].size else 0) + FreeBytes(bs[1..])
  }

  ghost function FreeCount(bs: seq<Block>): nat {
    if bs == [] then 0 else (if bs[0].free then 1 else 0) + FreeCount(bs[1..])
  }

  /** Used bytes, free bytes and the headers of free blocks make up the heap. */
  lemma {:induction false} Conservation(bs: seq<Block>)
    ensures UsedBytes(bs) + FreeBytes(bs) + HEADER * FreeCount(bs) == Span(HEADER, bs)
  {
    if bs != [] {
      Conservation(bs[1..]);
    }
  }

  // ----- no two free neighbours -----

  ghost predicate Merged(bs: seq<Block>) {
    forall i :: 0 <= i && i + 1 < |bs| ==> !(bs[i].free && bs[i + 1].free)
  }

  /** With nothing live, merging has left one block: the initial one. */
  lemma AllFreeIsOne(a: nat, bs: seq<Block>)
    requires Merged(bs) && bs != [] && Live(HEADER, a, bs) == map[]
    ensures bs == [Block(Span(HEADER, bs) - HEADER, true)]
  {
    forall i | 0 <= i < |bs| ensures bs[i].free {
      if !bs[i].free {
        LiveReleased(HEADER, a, bs, i);
      }
    }
    LiveOne(HEADER, a, bs[0]);
  }

  // ----- headers in memory -----

  datatype Header = Header(size: nat, free: bool, next: nat)

  type Headers = map<nat, Header>

  /** The blocks lie in memory from address a on, linked in order; the last one
      points to `last`. */
  ghost predicate Linked(mem: Headers, a: nat, bs: seq<Block>, last: nat)
    decreases bs
  {
    bs != [] ==>
      && a in mem && mem[a] == Header(bs[0].size, bs[0].free, if |bs| == 1 then last else a + HEADER + bs[0].size)
      && Linked(mem, a + HEADER + bs[0].size, bs[1..], last)
  }

  lemma {:induction false} LinkedConcat(mem: Headers, a: nat, x: seq<Block>, y: seq<Block>, last: nat)
    ensures Linked(mem, a, x + y, last) <==>
      Linked(mem, a, x, if y == [] then last else a + Span(HEADER, x)) && Linked(mem, a + Span(HEADER, x), y, last)
    decreases x
  {
    if x == [] {
      assert x + y == y;
    } else {
      assert (x + y)[1..] == x[1..] + y && (x + y)[0] == x[0];
      LinkedConcat(mem, a + HEADER + x[0].size, x[1..], y, last);
    }
  }

  lemma {:induction false} LinkedFrame(mem: Headers, mem': Headers, a: nat, bs: seq<Block>, last: nat)
    requires Linked(mem, a, bs, last)
    requires forall p :: a <= p < a + Span(HEADER, bs) && p in mem ==> p in mem' && mem'[p] == mem[p]
    ensures Linked(mem', a, bs, last)
    decreases bs
  {
    if bs != [] {
      LinkedFrame(mem, mem', a + HEADER + bs[0].size, bs[1..], last);
    }
  }

  /** Rewriting the headers of some blocks in place keeps the rest linked. */
  lemma LinkedReplace(mem: Headers, mem': Headers, a: nat, x: seq<Block>, y: seq<Block>, y': seq<Block>, z: seq<Block>)
    requires Linked(mem, a, x + y + z, 0) && Span(HEADER, y) == Span(HEADER, y') && y != [] && y' != []
    requires forall p :: p in mem && !(a + Span(HEADER, x) <= p < a + Span(HEADER, x) + Span(HEADER, y)) ==>
      p in mem' && mem'[p] == mem[p]
    requires Linked(mem', a + Span(HEADER, x), y', if z == [] then 0 else a + Span(HEADER, x) + Span(HEADER, y))
    ensures Linked(mem', a, x + y' + z, 0)
  {
    hide Linked, Span;
    SpanConcat(HEADER, x, y);
    SpanConcat(HEADER, x, y');
    LinkedConcat(mem, a, x + y, z, 0);
    var end := if z == [] then 0 else a + Span(HEADER, x) + Span(HEADER, y);
    LinkedConcat(mem, a, x, y, end);
    LinkedFrame(mem, mem', a, x, a + Span(HEADER, x));
    LinkedFrame(mem, mem', a + Span(HEADER, x) + Span(HEADER, y), z, 0);
    LinkedConcat(mem', a, x, y', end);
    LinkedConcat(mem', a, x + y', z, 0);
  }

  /** The header of block i. */
  lemma HeaderAt(mem: Headers, a: nat, bs: seq<Block>, i: nat)
    requires Linked(mem, a, bs, 0) && i < |bs|
    ensures var p := a + Span(HEADER, bs[..i]);
      && p in mem && mem[p].size == bs[i].size && mem[p].free == bs[i].free
      && mem[p].next == (if i + 1 == |bs| then 0 else a + Span(HEADER, bs[..i + 1]))
      && Span(HEADER, bs[..i + 1]) == Span(HEADER, bs[..i]) + HEADER + bs[i].size
  {
    var x, y := bs[..i], bs[i..];
    assert bs == x + y;
    LinkedConcat(mem, a, x, y, 0);
    assert bs[..i + 1] == x + [bs[i]];
    SpanConcat(HEADER, x, [bs[i]]);
    LiveOne(HEADER, a, bs[i]);
  }

  // ----- allocation and release on the block sequence -----

  function Align16(n: nat): nat { (n + 15) / 16 * 16 % W64 }

  /** The first free block of at least n bytes, or |bs|. */
  ghost function FirstFit(bs: seq<Block>, n: nat): (i: nat)
    ensures i <= |bs| && (i < |bs| ==> bs[i].free && bs[i].size >= n)
    ensures forall k :: 0 <= k < i ==> !(bs[k].free && bs[k].size >= n)
  {
    if bs == [] || (bs[0].free && bs[0].size >= n) then 0 else 1 + FirstFit(bs[1..], n)
  }

  ghost function Allocated(bs: seq<Block>, n: nat): seq<Block> {
    var i := FirstFit(bs, n);
    if i == |bs| then bs
    else if bs[i].size >= n + HEADER + 16 then Split(HEADER, bs, i, n)
    else Taken(bs, i)
  }

  /** All addresses are multiples of 16: every size but the last one is. */
  ghost predicate Aligned(bs: seq<Block>) {
    forall i :: 0 <= i && i + 1 < |bs| ==> bs[i].size % 16 == 0
  }

  lemma {:induction false} LiveAligned(a: nat, bs: seq<Block>)
    requires Aligned(bs) && a % 16 == 0
    ensures forall p :: p in Live(HEADER, a, bs) ==> p % 16 == 0
    decreases bs
  {
    if |bs| > 1 {
      LiveAligned(a + HEADER + bs[0].size, bs[1..]);
    }
  }

  /** No two free neighbours, except perhaps those at the given indices. */
  ghost predicate MergedBut(bs: seq<Block>, e: set<int>) {
    forall i :: 0 <= i && i + 1 < |bs| && i !in e ==> !(bs[i].free && bs[i + 1].free)
  }

  lemma JoinedShape(bs: seq<Block>, i: nat)
    requires i + 1 < |bs| && bs[i].free && bs[i + 1].free && MergedBut(bs, {i - 1, i}) && Aligned(bs)
    ensures MergedBut(Joined(HEADER, bs, i), {i - 1}) && Aligned(Joined(HEADER, bs, i))
  {
    var js := Joined(HEADER, bs, i);
    assert forall k :: 0 <= k < i ==> js[k] == bs[k];
    assert forall k :: i < k < |js| ==> js[k] == bs[k + 1];
  }

  lemma FreedShape(bs: seq<Block>, i: nat)
    requires i < |bs| && !bs[i].free && Merged(bs) && Aligned(bs)
    ensures Merged(Freed(HEADER, bs, i)) && Aligned(Freed(HEADER, bs, i))
  {
    hide Joined;
    var r := Released(bs, i);
    assert MergedBut(r, {i - 1, i}) && Aligned(r);
    if i + 1 < |r| && r[i + 1].free {
      JoinedShape(r, i);
    }
    var r1 := MergedNext(HEADER, r, i);
    JoinedFacts(r, i);
    if i > 0 && r1[i - 1].free {
      JoinedShape(r1, i - 1);
      assert !(i > 1 && r1[i - 2].free);
      JoinedFacts(r1, i - 1);
    }
  }

  lemma JoinedFacts(bs: seq<Block>, i: nat)
    ensures i + 1 < |bs| ==>
      |Joined(HEADER, bs, i)| == |bs| - 1 && Joined(HEADER, bs, i)[i].free == bs[i].free &&
      Joined(HEADER, bs, i)[..i] == bs[..i]
  {
  }

  /** Freeing a live block keeps the heap merged and aligned and forgets exactly
      that allocation. */
  lemma FreedOk(a: nat, bs: seq<Block>, i: nat)
    requires i < |bs| && !bs[i].free && Merged(bs) && Aligned(bs)
    ensures Merged(Freed(HEADER, bs, i)) && Aligned(Freed(HEADER, bs, i)) &&
      Span(HEADER, Freed(HEADER, bs, i)) == Span(HEADER, bs)
    ensures a + Span(HEADER, bs[..i]) + HEADER in Live(HEADER, a, bs)
    ensures Live(HEADER, a, Freed(HEADER, bs, i)) == Live(HEADER, a, bs) - {a + Span(HEADER, bs[..i]) + HEADER}
  {
    hide Span, Live, Merged, Aligned, Freed;
    FreedShape(bs, i);
    FreedLive(HEADER, a, bs, i);
  }

  /** Allocating keeps the heap merged and aligned and adds exactly one
      allocation, in a block that was free. */
  lemma AllocatedOk(a: nat, bs: seq<Block>, n: nat)
    requires bs != [] && Merged(bs) && Aligned(bs) && n % 16 == 0
    ensures Merged(Allocated(bs, n)) && Aligned(Allocated(bs, n)) && Span(HEADER, Allocated(bs, n)) == Span(HEADER, bs)
    ensures var i := FirstFit(bs, n);
      i < |bs| ==>
        && a + Span(HEADER, bs[..i]) + HEADER !in Live(HEADER, a, bs)
        && Live(HEADER, a, Allocated(bs, n)) ==
          Live(HEADER, a, bs)[a + Span(HEADER, bs[..i]) + HEADER := Allocated(bs, n)[i].size]
        && Allocated(bs, n)[i].size >= n
  {
    hide Span, Live, FirstFit;
    var i := FirstFit(bs, n);
    if i < |bs| {
      LiveTaken(HEADER, a, bs, i);
      if bs[i].size >= n + HEADER + 16 {
        LiveSplit(HEADER, a, bs, i, n);
      }
    }
  }

  // ----- the same changes on headers -----

  lemma LinkedOne(mem: Headers, a: nat, b: Block, last: nat)
    ensures Linked(mem, a, [b], last) <==> a in mem && mem[a] == Header(b.size, b.free, last)
  {
  }

  lemma LinkedTwo(mem: Headers, a: nat, b: Block, c: Block, last: nat)
    ensures Linked(mem, a, [b, c], last) <==>
      && a in mem && mem[a] == Header(b.size, b.free, a + HEADER + b.size)
      && a + HEADER + b.size in mem && mem[a + HEADER + b.size] == Header(c.size, c.free, last)
  {
    assert [b, c][1..] == [c];
    LinkedOne(mem, a + HEADER + b.size, c, last);
  }

  lemma MarkLinked(mem: Headers, a: nat, bs: seq<Block>, i: nat, free: bool)
    requires Linked(mem, a, bs, 0) && i < |bs|
    ensures a + Span(HEADER, bs[..i]) in mem
    ensures var p := a + Span(HEADER, bs[..i]);
      Linked(mem[p := mem[p].(free := free)], a, bs[..i] + [Block(bs[i].size, free)] + bs[i + 1..], 0)
  {
    hide Linked, Span;
    HeaderAt(mem, a, bs, i);
    var x, y, y', z := bs[..i], [bs[i]], [Block(bs[i].size, free)], bs[i + 1..];
    var p := a + Span(HEADER, x);
    var mem' := mem[p := mem[p].(free := free)];
    assert bs == x + y + z;
    LiveOne(HEADER, a, bs[i]);
    LiveOne(HEADER, a, y'[0]);
    LinkedOne(mem', p, y'[0], mem[p].next);
    LinkedReplace(mem, mem', a, x, y, y', z);
  }

  lemma SplitLinked(mem: Headers, a: nat, bs: seq<Block>, i: nat, n: nat)
    requires Linked(mem, a, bs, 0) && i < |bs| && n + HEADER <= bs[i].size
    ensures a + Span(HEADER, bs[..i]) in mem
    ensures var p := a + Span(HEADER, bs[..i]); var q := p + HEADER + n;
      Linked(mem[q := Header(bs[i].size - n - HEADER, true, mem[p].next)][p := Header(n, false, q)], a,
        Split(HEADER, bs, i, n), 0)
  {
    hide Linked, Span;
    HeaderAt(mem, a, bs, i);
    var x, y, z := bs[..i], [bs[i]], bs[i + 1..];
    var y' := [Block(n, false), Block(bs[i].size - n - HEADER, true)];
    var p := a + Span(HEADER, x);
    var q := p + HEADER + n;
    var mem' := mem[q := Header(bs[i].size - n - HEADER, true, mem[p].next)][p := Header(n, false, q)];
    assert bs == x + y + z;
    LiveOne(HEADER, a, bs[i]);
    LiveTwo(HEADER, a, y'[0], y'[1]);
    LinkedTwo(mem', p, y'[0], y'[1], mem[p].next);
    LinkedReplace(mem, mem', a, x, y, y', z);
  }

  lemma JoinLinked(mem: Headers, a: nat, bs: seq<Block>, i: nat)
    requires Linked(mem, a, bs, 0) && i + 1 < |bs|
    ensures a + Span(HEADER, bs[..i]) in mem && mem[a + Span(HEADER, bs[..i])].next in mem
    ensures var p := a + Span(HEADER, bs[..i]); var h := mem[p]; var k := mem[h.next];
      Linked(mem[p := Header(h.size + HEADER + k.size, h.free, k.next)], a, Joined(HEADER, bs, i), 0)
  {
    hide Linked, Span;
    HeaderAt(mem, a, bs, i);
    HeaderAt(mem, a, bs, i + 1);
    var x, y, z := bs[..i], [bs[i], bs[i + 1]], bs[i + 2..];
    var y' := [Block(bs[i].size + HEADER + bs[i + 1].size, bs[i].free)];
    var p := a + Span(HEADER, x);
    var h := mem[p];
    var k := mem[h.next];
    var mem' := mem[p := Header(h.size + HEADER + k.size, h.free, k.next)];
    assert bs == x + y + z;
    LiveOne(HEADER, a, y'[0]);
    LiveTwo(HEADER, a, y[0], y[1]);
    LinkedOne(mem', p, y'[0], k.next);
    LinkedReplace(mem, mem', a, x, y, y', z);
  }

  lemma AlignedSize(size: nat)
    ensures Align16(size) % 16 == 0 && Align16(size) < W64
  {
  }

  /** Rounding up wraps to zero exactly for the last fifteen sizes. */
  lemma RoundedUp(size: nat)
    requires 0 < size < W64
    ensures Align16(size) >= size <==> size <= W64 - 16
    ensures size > W64 - 16 ==> Align16(size) == 0
  {
  }

  lemma {:induction false} FitStep(bs: seq<Block>, n: nat, i: nat)
    requires i < |bs| && i <= FirstFit(bs, n)
    ensures if bs[i].free && bs[i].size >= n then FirstFit(bs, n) == i else i + 1 <= FirstFit(bs, n)
  {
  }

  // ----- the heap -----

  class KernelHeap {
    const start: nat
    var mem: Headers
    ghost const total: nat
    ghost var blocks: seq<Block>

    ghost predicate Valid()
      reads this
    {
      && 0 < start && start % 16 == 0 && start + total < W64
      && blocks != [] && Span(HEADER, blocks) == total && Merged(blocks) && Aligned(blocks)
      && Linked(mem, start, blocks, 0)
    }

    ghost function Allocations(): map<nat, nat>
      reads this
    {
      Live(HEADER, start, blocks)
    }

    /** The heap starts at the rounded-up address and still spans `size` bytes, so
        it stays inside the region given exactly when the address was aligned. */
    constructor (first: nat, size: nat)
      requires 0 < first && HEADER <= size && first + 15 + size < W64
      ensures Valid() && start == (first + 15) / 16 * 16 && total == size && Allocations() == map[]
      ensures blocks == [Block(size - HEADER, true)]
      ensures start + total <= first + size <==> first % 16 == 0
    {
      var a := (first + 15) / 16 * 16;
      start := a;
      mem := map[a := Header(size - HEADER, true, 0)];
      total := size;
      blocks := [Block(size - HEADER, true)];
      new;
      LiveOne(HEADER, start, blocks[0]);
    }

    /** First fit, with a split when the rest can hold a header and 16 bytes. */
    method Kmalloc(size: nat) returns (p: nat)
      requires Valid() && size < W64
      modifies this`mem, this`blocks
      ensures Valid()
      ensures blocks == if size == 0 then old(blocks) else Allocated(old(blocks), Align16(size))
      ensures p == 0 <==> size == 0 || FirstFit(old(blocks), Align16(size)) == |old(blocks)|
      ensures p == 0 ==> Allocations() == old(Allocations())
      ensures p != 0 ==>
        && p % 16 == 0 && p !in old(Allocations()) && p in Allocations()
        && Allocations() == old(Allocations())[p := Allocations()[p]] && Allocations()[p] >= Align16(size)
      ensures p != 0 && size <= W64 - 16 ==> Allocations()[p] >= size
    {
      hide Span, Live, Linked, Merged, Aligned, FirstFit, Align16;
      if size == 0 {
        return 0;
      }
      var n := Align16(size);
      AlignedSize(size);
      RoundedUp(size);
      AllocatedOk(start, blocks, n);
      var block := start;
      ghost var i: nat := 0;
      EmptySpan(HEADER, blocks);
      while block != 0
        invariant Valid() && mem == old(mem) && blocks == old(blocks) && i <= |blocks|
        invariant block == if i < |blocks| then start + Span(HEADER, blocks[..i]) else 0
        invariant i <= FirstFit(blocks, n)
        decreases |blocks| - i
      {
        HeaderAt(mem, start, blocks, i);
        FitStep(blocks, n, i);
        var h := mem[block];
        if h.free && h.size >= n {
          SpanPrefix(HEADER, blocks, i);
          Carve(block, n, i);
          LiveAligned(start, blocks);
          assert block + HEADER in Live(HEADER, start, blocks);
          return block + HEADER;
        }
        block := h.next;
        i := i + 1;
      }
      return 0;
    }
  
    /** Take a free block for n bytes, splitting off what is left over. */
    method Carve(block: nat, n: nat, ghost i: nat)
      requires Valid() && i < |blocks| && block == start + Span(HEADER, blocks[..i]) && i == FirstFit(blocks, n) &&
        n % 16 == 0
      modifies this`mem, this`blocks
      ensures Valid() && blocks == Allocated(old(blocks), n)
    {
      hide Span, Live, Linked, Merged, Aligned, FirstFit;
      AllocatedOk(start, blocks, n);
      HeaderAt(mem, start, blocks, i);
      SpanPrefix(HEADER, blocks, i);
      var h := mem[block];
      if h.size >= (n + HEADER + 16) % W64 {
        SplitLinked(mem, start, blocks, i, n);
        var nb := block + HEADER + n;
        mem := mem[nb := Header(h.size - n - HEADER, true, h.next)];
        mem := mem[block := Header(n, false, nb)];
      } else {
        MarkLinked(mem, start, blocks, i, false);
        mem := mem[block := h.(free := false)];
      }
      blocks := Allocated(blocks, n);
    }

    /** Releases an allocation and merges it with free neighbours. */
    method Kfree(p: nat)
      requires Valid() && (p == 0 || p in Allocations())
      modifies this`mem, this`blocks
      ensures Valid() && Allocations() == old(Allocations()) - {p}
    {
      hide Span, Live, Linked, Merged, Aligned;
      if p == 0 {
        LiveRange(HEADER, start, blocks);
        assert Allocations() - {p} == Allocations();
        return;
      }
      ghost var i := LiveIndex(HEADER, start, blocks, p);
      FreedOk(start, blocks, i);
      HeaderAt(mem, start, blocks, i);
      var block := p - HEADER;
      MarkLinked(mem, start, blocks, i, true);
      mem := mem[block := mem[block].(free := true)];
      ghost var bs := Released(blocks, i);
      assert bs[..i] == blocks[..i];
      HeaderAt(mem, start, bs, i);
      AbsorbNext(block, bs, i);
      bs := MergedNext(HEADER, bs, i);
      assert bs[..i] == blocks[..i];
      AbsorbIntoPrevious(block, bs, i);
      blocks := Freed(HEADER, blocks, i);
    }

    method AbsorbNext(block: nat, ghost bs: seq<Block>, ghost i: nat)
      requires 0 < start && Linked(mem, start, bs, 0) && i < |bs| && block == start + Span(HEADER, bs[..i])
      modifies this`mem
      ensures Linked(mem, start, MergedNext(HEADER, bs, i), 0)
    {
      hide Span, Live, Linked;
      HeaderAt(mem, start, bs, i);
      var h := mem[block];
      if h.next != 0 {
        HeaderAt(mem, start, bs, i + 1);
        JoinLinked(mem, start, bs, i);
        var k := mem[h.next];
        if k.free {
          mem := mem[block := Header(h.size + HEADER + k.size, h.free, k.next)];
        }
      }
    }

    method AbsorbIntoPrevious(block: nat, ghost bs: seq<Block>, ghost i: nat)
      requires 0 < start && Linked(mem, start, bs, 0) && i < |bs| && block == start + Span(HEADER, bs[..i])
      modifies this`mem
      ensures Linked(mem, start, MergedPrevious(HEADER, bs, i), 0)
    {
      hide Span, Live, Linked;
      EmptySpan(HEADER, bs);
      SpanOrder(HEADER, bs, i);
      var prev := start;
      if prev != block {
        ghost var j: nat := 0;
        HeaderAt(mem, start, bs, 0);
        while prev != 0 && mem[prev].next != block
          invariant mem == old(mem) && j < i && prev == start + Span(HEADER, bs[..j]) && prev in mem
          decreases i - j
        {
          HeaderAt(mem, start, bs, j);
          j := j + 1;
          prev := mem[prev].next;
          HeaderAt(mem, start, bs, j);
        }
        HeaderAt(mem, start, bs, j);
        if prev != 0 && mem[prev].free {
          JoinLinked(mem, start, bs, j);
          var h, k := mem[prev], mem[block];
          mem := mem[prev := Header(h.size + HEADER + k.size, h.free, k.next)];
        }
      }
    }
  
    method GetUsed() returns (u: nat)
      requires Valid()
      ensures u == UsedBytes(blocks) && u + FreeBytes(blocks) + HEADER * FreeCount(blocks) == total
    {
      hide Span, Linked, Merged, Aligned;
      Conservation(blocks);
      EmptySpan(HEADER, blocks);
      u := 0;
      var b := start;
      ghost var i: nat := 0;
      assert blocks[0..] == blocks;
      while b != 0
        invariant i <= |blocks| && b == (if i < |blocks| then start + Span(HEADER, blocks[..i]) else 0)
        invariant u + UsedBytes(blocks[i..]) == UsedBytes(blocks)
        decreases |blocks| - i
      {
        HeaderAt(mem, start, blocks, i);
        assert blocks[i..][1..] == blocks[i + 1..];
        var h := mem[b];
        if !h.free {
          u := u + h.size + HEADER;
        }
        b := h.next;
        i := i + 1;
      }
    }

    method GetFree() returns (f: nat)
      requires Valid()
      ensures f == FreeBytes(blocks) && UsedBytes(blocks) + f + HEADER * FreeCount(blocks) == total
    {
      hide Span, Linked, Merged, Aligned;
      Conservation(blocks);
      EmptySpan(HEADER, blocks);
      f := 0;
      var b := start;
      ghost var i: nat := 0;
      assert blocks[0..] == blocks;
      while b != 0
        invariant i <= |blocks| && b == (if i < |blocks| then start + Span(HEADER, blocks[..i]) else 0)
        invariant f + FreeBytes(blocks[i..]) == FreeBytes(blocks)
        decreases |blocks| - i
      {
        HeaderAt(mem, start, blocks, i);
        assert blocks[i..][1..] == blocks[i + 1..];
        var h := mem[b];
        if h.free {
          f := f + h.size;
        }
        b := h.next;
        i := i + 1;
      }
    }
  }

  // ----- runs -----

  datatype Request = Allocate(size: nat) | Release(p: nat)

  /** After any run of allocations and releases of live pointers the heap is
      sound, and it is one free block again once nothing is live. */
  method Run(h: KernelHeap, reqs: seq<Request>) returns (live: set<nat>)
    requires h.Valid() && h.Allocations() == map[] && forall k :: 0 <= k < |reqs| && reqs[k].Allocate? ==>
      reqs[k].size < W64
    modifies h
    ensures h.Valid() && h.Allocations().Keys == live
    ensures live == {} ==> h.blocks == [Block(h.total - HEADER, true)]
  {
    hide Span, Live, Linked, Merged, Aligned, Allocated, FirstFit;
    live := {};
    var k := 0;
    while k < |reqs|
      invariant 0 <= k <= |reqs| && h.Valid() && h.Allocations().Keys == live
    {
      match reqs[k] {
        case Allocate(size) =>
          var p := h.Kmalloc(size);
          if p != 0 {
            live := live + {p};
          }
        case Release(p) =>
          if p in live {
            h.Kfree(p);
            live := live - {p};
          }
      }
      k := k + 1;
    }
    if live == {} {
      AllFreeIsOne(h.start, h.blocks);
    }
  }
}
